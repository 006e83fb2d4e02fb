/**
 What each call and each wake-up does to a channel and its threads, and that after a close every caller
 returns.
 */
module ChannelCalls {
  import opened Bytes
  import opened Channel
  import opened ChannelWaiting

  /** Thread `w`, if anybody waits for `kind`, is the one that a signal wakes; nobody else moves but `t`,
      which is now `th`. */
  ghost predicate MovesAndWakes(before: seq<Thread>, after: seq<Thread>, t: nat, th: Thread, receivers: bool, w: nat)
    requires t < |before|
  {
    && |after| == |before|
    && (forall u :: 0 <= u < |before| && u != t && u != w ==> after[u] == before[u])
    && ((exists u :: 0 <= u < |before| && u != t && IsWaiting(before[u], receivers)) ==>
          w < |before| && w != t && IsWaiting(before[w], receivers) && IsWoken(before[w], after[w]))
    && ((forall u :: 0 <= u < |before| && u != t ==> !IsWaiting(before[u], receivers)) && w < |before| && w != t ==>
          after[w] == before[w])
    && after[t] == th
  }

  predicate IsWaiting(th: Thread, receivers: bool) {
    if receivers then th.RecvWait? else th.SendWait?
  }

  /** The thread as it was, woken if it waited. */
  predicate IsWoken(before: Thread, after: Thread) {
    && (before.RecvWait? ==> after == RecvWoken)
    && (before.SendWait? ==> after == SendWoken(before.item))
    && (!before.RecvWait? && !before.SendWait? ==> after == before)
  }

  lemma {:induction false} NoneCounted(ths: seq<Thread>, k: Kind)
    ensures Num(ths, k) == 0 <==> forall u :: 0 <= u < |ths| ==> KindOf(ths[u]) != k
  {
    hide KindOf;
    if ths != [] {
      NoneCounted(ths[1..], k);
      if Num(ths, k) == 0 {
        forall u | 0 <= u < |ths| ensures KindOf(ths[u]) != k {
          assert u > 0 ==> ths[u] == ths[1..][u - 1];
        }
      }
    }
  }

  lemma {:induction false} SignalWakes(ths: seq<Thread>, t: nat, th: Thread, receivers: bool, w: nat)
    requires t < |ths| && !IsWaiting(th, receivers)
    requires Signal(ths[t := th], if receivers then IsRecvWait else IsSendWait, w).Some?
    ensures MovesAndWakes(ths, Signal(ths[t := th], if receivers then IsRecvWait else IsSendWait, w).value,
                          t, th, receivers, w)
  {
    hide Num;
    NoneCounted(ths[t := th], if receivers then IsRecvWait else IsSendWait);
    var ths1 := ths[t := th];
    assert forall u :: 0 <= u < |ths| && u != t ==> ths1[u] == ths[u];
  }

  // --- send and accept ---------------------------------------------------------------------------------

  /** A send that begins: at a closed channel, or at a full one without waiting, nothing changes; at a full
      one the thread waits; else its item is the last of the queue, a waiting receiver is woken, and the
      thread is outside or waits until the item is gone. */
  lemma {:induction false} SendCall(s: Sys, t: nat, x: Item, isWait: bool, w: nat)
    requires s.chan.Valid() && t < |s.threads| && s.threads[t].Outside? && Step(s, Event(t, Send(x, isWait), w)).Some?
    ensures var c, s1 := s.chan, Step(s, Event(t, Send(x, isWait), w)).value;
      if c.closed || (c.IsFull() && !isWait) then s1 == s
      else if c.IsFull() then s1 == Sys(c.(waiting := c.waiting + 1), s.threads[t := SendWait(x)])
      else
        && s1.chan == c.(queue := c.queue + [x], pushed := c.pushed + [x])
        && MovesAndWakes(s.threads, s1.threads, t,
                         if c.shape.handsOver then SendPoll(x, |c.pushed|) else Outside, true, w)
  {
    hide Signal, MovesAndWakes;
    assert s.threads[t := Outside] == s.threads;
    if !s.chan.closed && !s.chan.IsFull() {
      SignalWakes(s.threads, t, if s.chan.shape.handsOver then SendPoll(x, |s.chan.pushed|) else Outside, true, w);
    }
  }

  /** An accept that begins: with something in the queue it takes the first item and, at an open channel,
      wakes a waiting sender; else it returns without an item, or waits. */
  lemma {:induction false} AcceptCall(s: Sys, t: nat, isWait: bool, w: nat)
    requires s.chan.Valid() && t < |s.threads| && s.threads[t].Outside? && Step(s, Event(t, Accept(isWait), w)).Some?
    ensures var c, s1 := s.chan, Step(s, Event(t, Accept(isWait), w)).value;
      if c.queue != [] then
        && s1.chan == c.(queue := c.queue[1..], accepted := c.accepted + [c.queue[0]])
        && (if c.closed then s1.threads == s.threads else MovesAndWakes(s.threads, s1.threads, t, Outside, false, w))
      else if c.closed || !isWait then s1 == s
      else s1 == Sys(c.(waiting := c.waiting + 1), s.threads[t := RecvWait])
  {
    hide Signal, MovesAndWakes;
    assert s.threads[t := Outside] == s.threads;
    if s.chan.queue != [] && !s.chan.closed {
      SignalWakes(s.threads, t, Outside, false, w);
    }
  }

  /** A sender that handed its item over returns exactly when the channel is closed or the queue empty. */
  lemma PollCall(s: Sys, t: nat, w: nat)
    requires s.chan.Valid() && t < |s.threads| && s.threads[t].SendPoll?
    ensures Step(s, Event(t, Poll, w))
         == Some(if s.chan.closed || s.chan.queue == [] then s.(threads := s.threads[t := Outside]) else s)
  {
  }

  // --- waking up ---------------------------------------------------------------------------------------

  lemma SetTwice(ths: seq<Thread>, t: nat, th: Thread)
    requires t < |ths|
    ensures ths[t := Outside][t := th] == ths[t := th]
  {
  }

  /** A woken thread that gets the lock goes on as if its call began now, and is not counted as waiting any
      more. */
  lemma {:induction false} ResumeCall(s: Sys, t: nat, w: nat)
    requires Inv(s) && t < |s.threads| && (s.threads[t].RecvWoken? || s.threads[t].SendWoken?)
    ensures s.chan.waiting > 0
    ensures var begun := Sys(s.chan.(waiting := s.chan.waiting - 1), s.threads[t := Outside]);
      && begun.chan.Valid()
      && Step(s, Event(t, Resume, w))
         == Step(begun, Event(t, if s.threads[t].RecvWoken? then Accept(true) else Send(s.threads[t].item, true), w))
  {
    hide Num, PollsKnow, NoneLost, NoneLeft, Signal;
    NumPositive(s.threads, t);
    var ths := s.threads;
    SetTwice(ths, t, Outside);
    SetTwice(ths, t, RecvWait);
    if ths[t].SendWoken? {
      SetTwice(ths, t, SendWait(ths[t].item));
      SetTwice(ths, t, SendPoll(ths[t].item, |s.chan.pushed|));
    }
  }

  /** A thread may wake without a signal. */
  lemma SpuriousCall(s: Sys, t: nat, w: nat)
    requires s.chan.Valid() && t < |s.threads| && (s.threads[t].RecvWait? || s.threads[t].SendWait?)
    ensures Step(s, Event(t, Spurious, w)).Some?
    ensures var s1 := Step(s, Event(t, Spurious, w)).value;
      s1 == s.(threads := s.threads[t := s1.threads[t]]) && IsWoken(s.threads[t], s1.threads[t])
  {
  }

  // --- close ---------------------------------------------------------------------------------------------

  /** A close succeeds in every reachable state. Then the channel is closed, what it holds and held is as
      before, everybody who waited is woken, and nobody else moves. */
  lemma {:induction false} CloseCall(s: Sys, t: nat, w: nat)
    requires Inv(s) && t < |s.threads| && s.threads[t].Outside?
    ensures Step(s, Event(t, Close, w)).Some?
    ensures var s1 := Step(s, Event(t, Close, w)).value;
      && s1.chan == s.chan.(closed := true) && |s1.threads| == |s.threads|
      && (forall u :: 0 <= u < |s.threads| ==> IsWoken(s.threads[u], s1.threads[u]))
      && (forall u :: 0 <= u < |s.threads| ==> !s1.threads[u].RecvWait? && !s1.threads[u].SendWait?)
  {
    hide Num, WakeAll, PollsKnow;
    if s.chan.closed {
      NoneCounted(s.threads, IsRecvWait);
      NoneCounted(s.threads, IsSendWait);
      assert forall u :: 0 <= u < |s.threads| ==> KindOf(s.threads[u]) != IsRecvWait && KindOf(s.threads[u]) != IsSendWait;
    } else {
      WakeAllCounts(s.threads);
    }
  }

  /** What a thread that is not outside does next at a closed channel. */
  function LeaveAct(th: Thread): Act {
    if th.SendPoll? then Poll else Resume
  }

  /** At a closed channel a thread that is not outside is outside behind its next step, whichever thread a
      signal would wake, and no other thread moves. */
  lemma {:induction false} ClosedReturns(s: Sys, t: nat, w: nat)
    requires Inv(s) && s.chan.closed && t < |s.threads| && !s.threads[t].Outside?
    ensures Step(s, Event(t, LeaveAct(s.threads[t]), w)).Some?
    ensures var s1 := Step(s, Event(t, LeaveAct(s.threads[t]), w)).value;
      s1.threads == s.threads[t := Outside] && s1.chan.closed
  {
    hide Num, PollsKnow, Signal;
    NoneCounted(s.threads, IsRecvWait);
    NoneCounted(s.threads, IsSendWait);
    assert KindOf(s.threads[t]) != IsRecvWait && KindOf(s.threads[t]) != IsSendWait;
  }

  function Inside(ths: seq<Thread>): nat {
    if ths == [] then 0 else One(!ths[0].Outside?) + Inside(ths[1..])
  }

  lemma {:induction false} OneLeaves(ths: seq<Thread>, t: nat)
    requires t < |ths| && !ths[t].Outside?
    ensures Inside(ths[t := Outside]) == Inside(ths) - 1
  {
    var after := ths[t := Outside];
    if t > 0 {
      OneLeaves(ths[1..], t - 1);
      assert after[0] == ths[0] && after[1..] == ths[1..][t - 1 := Outside];
    } else {
      assert after[1..] == ths[1..];
    }
  }

  lemma {:induction false} SomeoneInside(ths: seq<Thread>) returns (t: nat)
    requires Inside(ths) > 0
    ensures t < |ths| && !ths[t].Outside?
  {
    if !ths[0].Outside? {
      t := 0;
    } else {
      t := SomeoneInside(ths[1..]);
      t := t + 1;
    }
  }

  /** After a close every caller returns: one step of each of them, and all are outside. */
  lemma {:induction false} AllReturn(s: Sys) returns (es: seq<Event>)
    requires Inv(s) && s.chan.closed
    ensures |es| == Inside(s.threads) && Run(s, es).Some? && Inside(Run(s, es).value.threads) == 0
    decreases Inside(s.threads)
  {
    hide Step, Inv;
    ValidFromInv(s);
    if Inside(s.threads) == 0 {
      es := [];
    } else {
      var t := SomeoneInside(s.threads);
      var e := Event(t, LeaveAct(s.threads[t]), 0);
      ClosedReturns(s, t, 0);
      StepKeepsInv(s, e);
      OneLeaves(s.threads, t);
      var rest := AllReturn(Step(s, e).value);
      es := [e] + rest;
    }
  }
}
