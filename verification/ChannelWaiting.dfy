/**
 Threads at a channel: who waits at which condition variable, who is woken and has not run
 yet, and every way they can interleave, with callers that do not wait in line, spurious wake-ups
 and close. The channel's data moves as in `Channel`.
 */
module ChannelWaiting {
  import opened Bytes
  import opened Channel

  /** Where a thread is: outside; in `condvar_wait` for an item or for room, signalled or not; after
      a push on a channel that hands over, waiting until the item is gone. `pos` is the number of
      items pushed before its own. */
  datatype Thread =
    | Outside
    | RecvWait
    | RecvWoken
    | SendWait(item: Item)
    | SendWoken(item: Item)
    | SendPoll(item: Item, pos: nat)

  datatype Sys = Sys(chan: Chan, threads: seq<Thread>)

  /** What a thread does next. A call begins, a woken thread gets the lock back, a waiting thread
      wakes without a signal, a thread looks whether its item is gone, a thread closes the channel. */
  datatype Act = Send(item: Item, isWait: bool) | Accept(isWait: bool) | Resume | Spurious | Poll | Close

  /** `wake` is the thread that a signal wakes, if one is waiting. */
  datatype Event = Event(t: nat, act: Act, wake: nat)

  // --- counting -----------------------------------------------------------------------------------

  datatype Kind = IsOutside | IsRecvWait | IsRecvWoken | IsSendWait | IsSendWoken | IsPoll

  function KindOf(th: Thread): Kind {
    match th
    case Outside => IsOutside
    case RecvWait => IsRecvWait
    case RecvWoken => IsRecvWoken
    case SendWait(_) => IsSendWait
    case SendWoken(_) => IsSendWoken
    case SendPoll(_, _) => IsPoll
  }

  function Num(ths: seq<Thread>, k: Kind): nat {
    if ths == [] then 0 else One(KindOf(ths[0]) == k) + Num(ths[1..], k)
  }

  lemma {:induction false} NumMoves(ths: seq<Thread>, t: nat, th: Thread, k: Kind)
    requires t < |ths|
    ensures Num(ths[t := th], k) == Num(ths, k) - One(KindOf(ths[t]) == k) + One(KindOf(th) == k)
  {
    hide KindOf;
    if t > 0 {
      NumMoves(ths[1..], t - 1, th, k);
      assert ths[t := th][0] == ths[0] && ths[t := th][1..] == ths[1..][t - 1 := th];
    } else {
      assert ths[t := th][1..] == ths[1..];
    }
  }

  lemma {:induction false} NumPositive(ths: seq<Thread>, t: nat)
    requires t < |ths|
    ensures Num(ths, KindOf(ths[t])) > 0
  {
    if t > 0 {
      NumPositive(ths[1..], t - 1);
    }
  }

  // --- the steps -----------------------------------------------------------------------------------

  /** `condvar_signal`: wakes one thread that waits there, if there is any. */
  function Signal(ths: seq<Thread>, k: Kind, wake: nat): Option<seq<Thread>>
    requires k == IsRecvWait || k == IsSendWait
  {
    if Num(ths, k) == 0 then Some(ths)
    else if wake < |ths| && KindOf(ths[wake]) == k then Some(ths[wake := Wake(ths[wake])])
    else None
  }

  function Wake(th: Thread): Thread {
    match th
    case RecvWait => RecvWoken
    case SendWait(x) => SendWoken(x)
    case _ => th
  }

  /** `condvar_broadcast` on both condition variables. */
  function WakeAll(ths: seq<Thread>): (r: seq<Thread>)
    ensures |r| == |ths|
  {
    if ths == [] then [] else [Wake(ths[0])] + WakeAll(ths[1..])
  }

  /** One round of a sender under the lock. */
  function SendStep(c: Chan, ths: seq<Thread>, t: nat, x: Item, isWait: bool, wake: nat): (r: Option<Sys>)
    requires c.Valid() && t < |ths|
    ensures r.Some? ==> r.value.chan.Valid()
  {
    var (c1, outcome) := SendRound(c, x, isWait);
    match outcome
    case NotPushed => Some(Sys(c1, ths[t := Outside]))
    case SendWaits => Some(Sys(c1, ths[t := SendWait(x)]))
    case Pushed =>
      var ths1 := ths[t := if c.shape.handsOver then SendPoll(x, |c.pushed|) else Outside];
      match Signal(ths1, IsRecvWait, wake)
      case None => None
      case Some(ths2) => Some(Sys(c1, ths2))
  }

  /** One round of a receiver under the lock. */
  function AcceptStep(c: Chan, ths: seq<Thread>, t: nat, isWait: bool, wake: nat): (r: Option<Sys>)
    requires c.Valid() && t < |ths|
    ensures r.Some? ==> r.value.chan.Valid()
  {
    var (c1, outcome) := AcceptRound(c, isWait);
    match outcome
    case Nothing => Some(Sys(c1, ths[t := Outside]))
    case AcceptWaits => Some(Sys(c1, ths[t := RecvWait]))
    case Got(_) =>
      var ths1 := ths[t := Outside];
      if c.closed then Some(Sys(c1, ths1))
      else
        match Signal(ths1, IsSendWait, wake)
        case None => None
        case Some(ths2) => Some(Sys(c1, ths2))
  }

  /** A thread that comes back from `condvar_wait` is not counted as waiting any more. */
  function Back(c: Chan): Chan {
    c.(waiting := if c.waiting > 0 then c.waiting - 1 else 0)
  }

  function Step(s: Sys, e: Event): (r: Option<Sys>)
    requires s.chan.Valid()
    ensures r.Some? ==> r.value.chan.Valid()
  {
    if e.t >= |s.threads| then None
    else
      match (s.threads[e.t], e.act)
      case (Outside, Send(x, isWait)) => SendStep(s.chan, s.threads, e.t, x, isWait, e.wake)
      case (Outside, Accept(isWait)) => AcceptStep(s.chan, s.threads, e.t, isWait, e.wake)
      case (Outside, Close) =>
        if s.chan.closed then Some(s)
        else Some(Sys(s.chan.(closed := true), WakeAll(s.threads)))
      case (RecvWoken, Resume) => AcceptStep(Back(s.chan), s.threads, e.t, true, e.wake)
      case (SendWoken(x), Resume) => SendStep(Back(s.chan), s.threads, e.t, x, true, e.wake)
      case (RecvWait, Spurious) => Some(s.(threads := s.threads[e.t := RecvWoken]))
      case (SendWait(x), Spurious) => Some(s.(threads := s.threads[e.t := SendWoken(x)]))
      case (SendPoll(_, _), Poll) =>
        if s.chan.closed || s.chan.queue == [] then Some(s.(threads := s.threads[e.t := Outside])) else Some(s)
      case _ => None
  }

  function Run(s: Sys, es: seq<Event>): (r: Option<Sys>)
    requires s.chan.Valid()
    ensures r.Some? ==> r.value.chan.Valid()
    decreases |es|
  {
    if es == [] then Some(s)
    else
      match Step(s, es[0])
      case None => None
      case Some(s1) => Run(s1, es[1..])
  }

  function Start(shape: Shape, n: nat): Sys
    requires shape.slots != 0
  {
    Sys(Empty(shape), seq(n, _ => Outside))
  }

  // --- the invariant --------------------------------------------------------------------------------

  /** No wake-up is lost: while a receiver waits without a signal, there are at least as many woken
      receivers that have not run yet as items, and the same for senders and free slots. */
  ghost predicate NoneLost(c: Chan, ths: seq<Thread>) {
    && (Num(ths, IsRecvWait) > 0 ==> |c.queue| <= Num(ths, IsRecvWoken))
    && (Num(ths, IsSendWait) > 0 ==> c.IsBounded() && c.shape.slots - |c.queue| <= Num(ths, IsSendWoken))
  }

  /** Nobody waits without a signal at a closed channel. */
  ghost predicate NoneLeft(c: Chan, ths: seq<Thread>) {
    c.closed ==> Num(ths, IsRecvWait) == 0 && Num(ths, IsSendWait) == 0
  }

  function Waiting(ths: seq<Thread>): nat {
    Num(ths, IsRecvWait) + Num(ths, IsRecvWoken) + Num(ths, IsSendWait) + Num(ths, IsSendWoken)
  }

  /** A polling sender's item is the one pushed at its position. */
  ghost predicate PollsKnow(c: Chan, ths: seq<Thread>) {
    forall t :: 0 <= t < |ths| && ths[t].SendPoll? ==> ths[t].pos < |c.pushed| && c.pushed[ths[t].pos] == ths[t].item
  }

  ghost predicate Inv(s: Sys) {
    && s.chan.Valid()
    && NoneLost(s.chan, s.threads) && NoneLeft(s.chan, s.threads)
    && s.chan.waiting == Waiting(s.threads)
    && PollsKnow(s.chan, s.threads)
  }

  // --- every step keeps it ----------------------------------------------------------------------------

  /** All counts when one thread moves. */
  lemma {:induction false} AllMove(ths: seq<Thread>, t: nat, th: Thread)
    requires t < |ths|
    ensures var r := ths[t := th];
      && Num(r, IsRecvWait) == Num(ths, IsRecvWait) - One(ths[t].RecvWait?) + One(th.RecvWait?)
      && Num(r, IsRecvWoken) == Num(ths, IsRecvWoken) - One(ths[t].RecvWoken?) + One(th.RecvWoken?)
      && Num(r, IsSendWait) == Num(ths, IsSendWait) - One(ths[t].SendWait?) + One(th.SendWait?)
      && Num(r, IsSendWoken) == Num(ths, IsSendWoken) - One(ths[t].SendWoken?) + One(th.SendWoken?)
  {
    hide Num;
    NumMoves(ths, t, th, IsRecvWait);
    NumMoves(ths, t, th, IsRecvWoken);
    NumMoves(ths, t, th, IsSendWait);
    NumMoves(ths, t, th, IsSendWoken);
  }

  lemma {:induction false} WakeAllCounts(ths: seq<Thread>)
    ensures var r := WakeAll(ths);
      && Num(r, IsRecvWait) == 0 && Num(r, IsRecvWoken) == Num(ths, IsRecvWait) + Num(ths, IsRecvWoken)
      && Num(r, IsSendWait) == 0 && Num(r, IsSendWoken) == Num(ths, IsSendWait) + Num(ths, IsSendWoken)
      && forall t :: 0 <= t < |ths| ==> r[t] == Wake(ths[t])
  {
    if ths != [] {
      WakeAllCounts(ths[1..]);
      assert WakeAll(ths)[1..] == WakeAll(ths[1..]);
      forall t | 0 <= t < |ths| ensures WakeAll(ths)[t] == Wake(ths[t]) {
        assert t > 0 ==> WakeAll(ths)[t] == WakeAll(ths[1..])[t - 1];
      }
    }
  }

  lemma {:induction false} PollsMove(c: Chan, c1: Chan, ths: seq<Thread>, t: nat, th: Thread)
    requires t < |ths| && PollsKnow(c, ths) && c.pushed <= c1.pushed
    requires th.SendPoll? ==> th.pos < |c1.pushed| && c1.pushed[th.pos] == th.item
    ensures PollsKnow(c1, ths[t := th])
  {
  }

  /** A sender that is outside or comes back from its wait. */
  lemma {:induction false} SendKeepsInv(c: Chan, ths: seq<Thread>, t: nat, x: Item, isWait: bool, wake: nat)
    requires c.Valid() && t < |ths| && (ths[t].Outside? || (ths[t].SendWoken? && isWait))
    requires NoneLost(c, ths) && NoneLeft(c, ths) && PollsKnow(c, ths)
    requires c.waiting == Waiting(ths) - One(ths[t].SendWoken?)
    requires SendStep(c, ths, t, x, isWait, wake).Some?
    ensures Inv(SendStep(c, ths, t, x, isWait, wake).value)
  {
    hide Num, PollsKnow;
    var th1 := match SendRound(c, x, isWait).1
      case NotPushed => Outside
      case SendWaits => SendWait(x)
      case Pushed => if c.shape.handsOver then SendPoll(x, |c.pushed|) else Outside;
    AllMove(ths, t, th1);
    var ths1 := ths[t := th1];
    PollsMove(c, SendRound(c, x, isWait).0, ths, t, th1);
    if SendRound(c, x, isWait).1.Pushed? && Num(ths1, IsRecvWait) > 0 {
      AllMove(ths1, wake, Wake(ths1[wake]));
      PollsMove(SendRound(c, x, isWait).0, SendRound(c, x, isWait).0, ths1, wake, Wake(ths1[wake]));
    }
  }

  lemma {:induction false} AcceptKeepsInv(c: Chan, ths: seq<Thread>, t: nat, isWait: bool, wake: nat)
    requires c.Valid() && t < |ths| && (ths[t].Outside? || (ths[t].RecvWoken? && isWait))
    requires NoneLost(c, ths) && NoneLeft(c, ths) && PollsKnow(c, ths)
    requires c.waiting == Waiting(ths) - One(ths[t].RecvWoken?)
    requires AcceptStep(c, ths, t, isWait, wake).Some?
    ensures Inv(AcceptStep(c, ths, t, isWait, wake).value)
  {
    hide Num, PollsKnow;
    var th1 := if AcceptRound(c, isWait).1.AcceptWaits? then RecvWait else Outside;
    AllMove(ths, t, th1);
    var ths1 := ths[t := th1];
    PollsMove(c, AcceptRound(c, isWait).0, ths, t, th1);
    if AcceptRound(c, isWait).1.Got? && !c.closed && Num(ths1, IsSendWait) > 0 {
      AllMove(ths1, wake, Wake(ths1[wake]));
      PollsMove(AcceptRound(c, isWait).0, AcceptRound(c, isWait).0, ths1, wake, Wake(ths1[wake]));
    }
  }

  lemma {:induction false} CloseKeepsInv(s: Sys)
    requires Inv(s)
    ensures Inv(Sys(s.chan.(closed := true), WakeAll(s.threads)))
  {
    hide Num, WakeAll;
    WakeAllCounts(s.threads);
  }

  /** A thread that waits wakes without a signal, or a polling sender leaves. */
  lemma {:induction false} MoveKeepsInv(s: Sys, t: nat)
    requires Inv(s) && t < |s.threads|
    ensures s.threads[t].RecvWait? || s.threads[t].SendWait? ==>
              Inv(s.(threads := s.threads[t := Wake(s.threads[t])]))
    ensures s.threads[t].SendPoll? ==> Inv(s.(threads := s.threads[t := Outside]))
  {
    hide Num, PollsKnow;
    NumPositive(s.threads, t);
    var th := if s.threads[t].SendPoll? then Outside else Wake(s.threads[t]);
    AllMove(s.threads, t, th);
    if s.threads[t].RecvWait? || s.threads[t].SendWait? || s.threads[t].SendPoll? {
      PollsMove(s.chan, s.chan, s.threads, t, th);
    }
  }

  lemma BackKeeps(c: Chan, ths: seq<Thread>)
    ensures NoneLost(c, ths) ==> NoneLost(Back(c), ths)
    ensures NoneLeft(c, ths) ==> NoneLeft(Back(c), ths)
    ensures PollsKnow(c, ths) ==> PollsKnow(Back(c), ths)
  {
  }

  /** A woken thread gets the lock back. */
  lemma {:induction false} ResumeKeepsInv(s: Sys, t: nat, wake: nat)
    requires Inv(s) && t < |s.threads|
    ensures s.threads[t].RecvWoken? && AcceptStep(Back(s.chan), s.threads, t, true, wake).Some? ==>
              Inv(AcceptStep(Back(s.chan), s.threads, t, true, wake).value)
    ensures s.threads[t].SendWoken? && SendStep(Back(s.chan), s.threads, t, s.threads[t].item, true, wake).Some? ==>
              Inv(SendStep(Back(s.chan), s.threads, t, s.threads[t].item, true, wake).value)
  {
    hide Num, PollsKnow, NoneLost, NoneLeft, AcceptStep, SendStep;
    NumPositive(s.threads, t);
    BackKeeps(s.chan, s.threads);
    if s.threads[t].RecvWoken? && AcceptStep(Back(s.chan), s.threads, t, true, wake).Some? {
      AcceptKeepsInv(Back(s.chan), s.threads, t, true, wake);
    } else if s.threads[t].SendWoken?
              && SendStep(Back(s.chan), s.threads, t, s.threads[t].item, true, wake).Some? {
      SendKeepsInv(Back(s.chan), s.threads, t, s.threads[t].item, true, wake);
    }
  }

  /** Every step of every thread keeps the invariant. */
  lemma {:induction false} StepKeepsInv(s: Sys, e: Event)
    requires Inv(s) && Step(s, e).Some?
    ensures Inv(Step(s, e).value)
  {
    hide NoneLost, NoneLeft, PollsKnow, Waiting, Num, SendStep, AcceptStep, WakeAll, Back;
    match (s.threads[e.t], e.act)
    case (Outside, Send(x, isWait)) => SendKeepsInv(s.chan, s.threads, e.t, x, isWait, e.wake);
    case (Outside, Accept(isWait)) => AcceptKeepsInv(s.chan, s.threads, e.t, isWait, e.wake);
    case (Outside, Close) => CloseKeepsInv(s);
    case (RecvWoken, Resume) => ResumeKeepsInv(s, e.t, e.wake);
    case (SendWoken(_), Resume) => ResumeKeepsInv(s, e.t, e.wake);
    case (RecvWait, Spurious) => MoveKeepsInv(s, e.t);
    case (SendWait(_), Spurious) => MoveKeepsInv(s, e.t);
    case (SendPoll(_, _), Poll) => MoveKeepsInv(s, e.t);
  }

  lemma {:induction false} StartInv(shape: Shape, n: nat)
    requires shape.slots != 0
    ensures Inv(Start(shape, n))
  {
    if n > 0 {
      StartInv(shape, n - 1);
      assert seq(n, _ => Outside)[1..] == seq(n - 1, _ => Outside);
    }
  }

  /** The invariant holds in every state that any run can reach. */
  lemma {:induction false} RunKeepsInv(s: Sys, es: seq<Event>)
    requires Inv(s) && Run(s, es).Some?
    ensures Inv(Run(s, es).value)
    decreases |es|
  {
    hide Step, Inv;
    if es != [] {
      assert s.chan.Valid() by {
        ValidFromInv(s);
      }
      StepKeepsInv(s, es[0]);
      RunKeepsInv(Step(s, es[0]).value, es[1..]);
    }
  }

  lemma ValidFromInv(s: Sys)
    requires Inv(s)
    ensures s.chan.Valid()
  {
  }

  // --- what follows for every run ------------------------------------------------------------------------

  /** Once no woken thread is left to run, receivers wait only at an empty channel and senders only
      at a full one, so that never both wait. */
  lemma {:induction false} QuietState(shape: Shape, n: nat, es: seq<Event>)
    requires shape.slots != 0 && Run(Start(shape, n), es).Some?
    ensures var s := Run(Start(shape, n), es).value;
      Num(s.threads, IsRecvWoken) == 0 && Num(s.threads, IsSendWoken) == 0 ==>
        && (Num(s.threads, IsRecvWait) > 0 ==> s.chan.queue == [])
        && (Num(s.threads, IsSendWait) > 0 ==> s.chan.IsFull())
        && (Num(s.threads, IsRecvWait) == 0 || Num(s.threads, IsSendWait) == 0)
  {
    hide Num, Run;
    StartInv(shape, n);
    RunKeepsInv(Start(shape, n), es);
  }

  /** The channel is a queue within its bound in first-in-first-out order, also behind close. */
  lemma {:induction false} FifoInEveryRun(shape: Shape, n: nat, es: seq<Event>)
    requires shape.slots != 0 && Run(Start(shape, n), es).Some?
    ensures var c := Run(Start(shape, n), es).value.chan;
      && c.shape == shape && c.pushed == c.accepted + c.queue && (c.IsBounded() ==> |c.queue| <= shape.slots)
  {
    hide Num, Run;
    StartInv(shape, n);
    RunKeepsInv(Start(shape, n), es);
    RunKeepsHistory(Start(shape, n), es);
  }

  /** `c1` comes from `c` by pushing and accepting, without pushing when `c` is closed. */
  predicate Continues(c: Chan, c1: Chan) {
    && c1.shape == c.shape && c.pushed <= c1.pushed && c.accepted <= c1.accepted
    && (c.closed ==> c1.closed && c1.pushed == c.pushed)
  }

  lemma SendKeepsHistory(c: Chan, ths: seq<Thread>, t: nat, x: Item, isWait: bool, wake: nat)
    requires c.Valid() && t < |ths| && SendStep(c, ths, t, x, isWait, wake).Some?
    ensures Continues(c, SendStep(c, ths, t, x, isWait, wake).value.chan)
  {
    hide Signal;
  }

  lemma AcceptKeepsHistory(c: Chan, ths: seq<Thread>, t: nat, isWait: bool, wake: nat)
    requires c.Valid() && t < |ths| && AcceptStep(c, ths, t, isWait, wake).Some?
    ensures Continues(c, AcceptStep(c, ths, t, isWait, wake).value.chan)
  {
    hide Signal;
  }

  lemma {:induction false} StepKeepsHistory(s: Sys, e: Event)
    requires s.chan.Valid() && Step(s, e).Some?
    ensures Continues(s.chan, Step(s, e).value.chan)
  {
    hide SendStep, AcceptStep, WakeAll, Wake;
    match (s.threads[e.t], e.act)
    case (Outside, Send(x, isWait)) => SendKeepsHistory(s.chan, s.threads, e.t, x, isWait, e.wake);
    case (Outside, Accept(isWait)) => AcceptKeepsHistory(s.chan, s.threads, e.t, isWait, e.wake);
    case (RecvWoken, Resume) => AcceptKeepsHistory(Back(s.chan), s.threads, e.t, true, e.wake);
    case (SendWoken(x), Resume) => SendKeepsHistory(Back(s.chan), s.threads, e.t, x, true, e.wake);
    case _ =>
  }

  /** What was pushed and accepted stays so, and after close nothing is pushed. */
  lemma {:induction false} RunKeepsHistory(s: Sys, es: seq<Event>)
    requires s.chan.Valid() && Run(s, es).Some?
    ensures Continues(s.chan, Run(s, es).value.chan)
    decreases |es|
  {
    hide Step;
    if es != [] {
      StepKeepsHistory(s, es[0]);
      RunKeepsHistory(Step(s, es[0]).value, es[1..]);
    }
  }

  /** A sender at a channel that hands over and that returns while the channel is open had its own item
      accepted. */
  lemma {:induction false} Rendezvous(shape: Shape, n: nat, es: seq<Event>, t: nat, wake: nat)
    requires shape.slots != 0 && Run(Start(shape, n), es).Some?
    requires var s := Run(Start(shape, n), es).value;
      t < |s.threads| && s.threads[t].SendPoll?
    ensures var s := Run(Start(shape, n), es).value;
      var s1 := Step(s, Event(t, Poll, wake)).value;
      s1.threads[t].Outside? && !s.chan.closed ==>
        s.threads[t].pos < |s.chan.accepted| && s.chan.accepted[s.threads[t].pos] == s.threads[t].item
  {
    hide Num, Run;
    StartInv(shape, n);
    RunKeepsInv(Start(shape, n), es);
    var s := Run(Start(shape, n), es).value;
    if s.chan.queue == [] {
      assert s.chan.accepted == s.chan.pushed;
    }
  }

  /** No bound, no handing over, and nobody waits to send. */
  ghost predicate NoSenders(s: Sys) {
    && !s.chan.IsBounded() && !s.chan.shape.handsOver
    && forall u :: 0 <= u < |s.threads| ==>
         !s.threads[u].SendWait? && !s.threads[u].SendWoken? && !s.threads[u].SendPoll?
  }

  lemma {:induction false} StepHasNoSenders(s: Sys, e: Event)
    requires s.chan.Valid() && NoSenders(s) && Step(s, e).Some?
    ensures NoSenders(Step(s, e).value)
  {
    hide Num, WakeAll;
    if s.threads[e.t].Outside? && e.act.Close? {
      WakeAllCounts(s.threads);
    }
  }

  lemma {:induction false} RunHasNoSenders(s: Sys, es: seq<Event>)
    requires s.chan.Valid() && NoSenders(s) && Run(s, es).Some?
    ensures NoSenders(Run(s, es).value)
    decreases |es|
  {
    hide Step, NoSenders;
    if es != [] {
      StepHasNoSenders(s, es[0]);
      RunHasNoSenders(Step(s, es[0]).value, es[1..]);
    }
  }

  /** Without a bound and without handing over no sender ever waits, in line or for its item to go: a send returns at once,
      and pushes its item exactly if the channel is open. */
  lemma {:induction false} UnboundedSendReturns(shape: Shape, n: nat, es: seq<Event>, t: nat, x: Item, isWait: bool, wake: nat)
    requires shape.slots < 0 && !shape.handsOver && Run(Start(shape, n), es).Some?
    requires var s := Run(Start(shape, n), es).value;
      t < |s.threads| && s.threads[t].Outside? && Step(s, Event(t, Send(x, isWait), wake)).Some?
    ensures var s := Run(Start(shape, n), es).value;
      var s1 := Step(s, Event(t, Send(x, isWait), wake)).value;
      && NoSenders(s) && s1.threads[t].Outside?
      && s1.chan.pushed == if s.chan.closed then s.chan.pushed else s.chan.pushed + [x]
  {
    hide Num, Run;
    RunHasNoSenders(Start(shape, n), es);
  }

  lemma {:induction false} SomeoneOfKind(ths: seq<Thread>, k: Kind) returns (t: nat)
    requires Num(ths, k) > 0
    ensures t < |ths| && KindOf(ths[t]) == k
  {
    if KindOf(ths[0]) == k {
      t := 0;
    } else {
      t := SomeoneOfKind(ths[1..], k);
      t := t + 1;
    }
  }

  /** A woken thread is never stuck: whatever the channel holds, it can go on. */
  lemma {:induction false} WokenCanRun(s: Sys, t: nat) returns (wake: nat)
    requires Inv(s) && t < |s.threads| && (s.threads[t].RecvWoken? || s.threads[t].SendWoken?)
    ensures Step(s, Event(t, Resume, wake)).Some?
  {
    hide Num;
    wake := 0;
    var c := Back(s.chan);
    if s.threads[t].RecvWoken? {
      if AcceptRound(c, true).1.Got? && Num(s.threads[t := Outside], IsSendWait) > 0 {
        wake := SomeoneOfKind(s.threads[t := Outside], IsSendWait);
      }
    } else {
      var ths1 := s.threads[t := if c.shape.handsOver then SendPoll(s.threads[t].item, |c.pushed|) else Outside];
      if SendRound(c, s.threads[t].item, true).1.Pushed? && Num(ths1, IsRecvWait) > 0 {
        wake := SomeoneOfKind(ths1, IsRecvWait);
      }
    }
  }
}
