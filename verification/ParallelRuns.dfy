/**
 What holds of every run of the parallel block compressor: it never blocks before the end, it ends,
 and its output does not depend on the schedule.
 */
module ParallelRuns {
  import opened Bytes
  import opened CompressJob
  import opened ParallelCompress

  // --- no deadlock ----------------------------------------------------------------------------------------

  ghost predicate Stuck(job: Job, s: Sys)
    requires job.Valid()
  {
    forall w :: 0 <= w < |s.workers| ==> Step(job, s, w).None?
  }

  ghost predicate AllExited(s: Sys) {
    forall w :: 0 <= w < |s.workers| ==> s.workers[w].Exited?
  }

  lemma {:induction false} EmptyHands(ws: seq<Worker>, i: nat)
    requires forall w :: 0 <= w < |ws| ==> IndexOf(ws[w]).None?
    ensures WorkersWithIndex(ws, i) == 0
  {
    if ws != [] {
      EmptyHands(ws[1..], i);
    }
  }

  lemma {:induction false} HoldersBound(ws: seq<Worker>)
    ensures Holders(ws) <= |ws|
    ensures (exists w :: 0 <= w < |ws| && BufOf(ws[w]).None?) ==> Holders(ws) < |ws|
  {
    if ws != [] {
      HoldersBound(ws[1..]);
      forall w | 0 <= w < |ws| && BufOf(ws[w]).None? ensures Holders(ws) < |ws| {
        assert w > 0 ==> ws[1..][w - 1] == ws[w];
      }
    }
  }

  lemma {:induction false} FindPacket(list: seq<Packet>, i: nat) returns (k: nat)
    requires PacketsWithIndex(list, i) > 0
    ensures k < |list| && list[k].index == i
  {
    if list[0].index == i {
      k := 0;
    } else {
      k := FindPacket(list[1..], i);
      k := k + 1;
    }
  }

  /** The next block to write, once it is on the list, is at its head. */
  lemma {:induction false} NextIsHead(job: Job, s: Sys)
    requires job.Valid() && Sorted(s.pending) && CountInv(job, s) && PacketsWithIndex(s.pending, s.curWrite) > 0
    ensures HeadIsNext(s)
  {
    var k := FindPacket(s.pending, s.curWrite);
    PendingInFlight(job, s, 0);
    assert k > 0 ==> s.pending[0].index <= s.pending[k].index;
  }

  /** When nobody holds a block, everything in flight is on the list. */
  lemma {:induction false} OnTheList(job: Job, s: Sys, i: nat)
    requires job.Valid() && CountInv(job, s) && s.curWrite <= i < s.curRead
    requires forall w :: 0 <= w < |s.workers| ==> IndexOf(s.workers[w]).None?
    ensures PacketsWithIndex(s.pending, i) > 0
  {
    EmptyHands(s.workers, i);
    assert PlacesOfBlock(s, i) == 1;
  }

  /** When nobody holds a block and nobody writes, everything read is written. */
  lemma {:induction false} NothingInFlight(job: Job, s: Sys)
    requires job.Valid() && LockInv(s) && CountInv(job, s) && s.writer.None?
    requires forall w :: 0 <= w < |s.workers| ==> IndexOf(s.workers[w]).None?
    ensures s.curWrite == s.curRead && s.pending == []
  {
    if s.curWrite < s.curRead {
      OnTheList(job, s, s.curWrite);
      NextIsHead(job, s);
    } else if s.pending != [] {
      PendingInFlight(job, s, 0);
    }
  }

  /** The worker in the write section can move. */
  lemma {:induction false} WriterMoves(job: Job, s: Sys)
    requires job.Valid() && LockInv(s) && s.writer.Some?
    ensures Step(job, s, s.writer.value).Some?
  {
    hide WriteStep;
  }

  /** Without one, only workers that wait for a buffer or have ended cannot move. */
  lemma {:induction false} BlockedWorker(job: Job, s: Sys, w: nat)
    requires job.Valid() && LockInv(s) && s.writer.None? && w < |s.workers| && Step(job, s, w).None?
    ensures s.workers[w].Idle? || s.workers[w].Exited?
    ensures s.workers[w].Idle? ==> s.channel == []
  {
    hide ReadStep, WriteStep, Insert;
  }

  /** There are more buffers than workers: while one worker has none and nothing is on the list, the
      channel is not empty. */
  lemma {:induction false} BufferLeft(job: Job, s: Sys, w: nat)
    requires job.Valid() && CountInv(job, s) && w < |s.workers| && s.workers[w].Idle? && s.pending == []
    ensures s.channel != []
  {
    HoldersBound(s.workers);
    assert BufOf(s.workers[w]).None?;
  }

  /** In every reachable state some worker can move, unless all of them have ended: they are never
      all waiting for a buffer with a block unread or unwritten. */
  lemma {:induction false} NoDeadlock(job: Job, s: Sys)
    requires job.Valid() && Inv(job, s) && Stuck(job, s)
    ensures AllExited(s)
  {
    hide DataInv, ReadStep, WriteStep, Insert, Holders;
    if s.writer.Some? {
      WriterMoves(job, s);
    } else {
      forall w | 0 <= w < |s.workers| ensures s.workers[w].Idle? || s.workers[w].Exited? {
        BlockedWorker(job, s, w);
      }
      NothingInFlight(job, s);
      forall w | 0 <= w < |s.workers| ensures s.workers[w].Exited? {
        BlockedWorker(job, s, w);
        if s.workers[w].Idle? {
          BufferLeft(job, s, w);
        }
      }
    }
  }

  /** When all workers have ended, the whole output is written in order. */
  lemma {:induction false} EndIsComplete(job: Job, s: Sys)
    requires job.Valid() && Inv(job, s) && AllExited(s) && |s.workers| > 0
    ensures s.curWrite == job.Count() && s.out == job.Output(job.Count())
  {
    assert s.workers[0].Exited?;
    NothingInFlight(job, s);
  }

  // --- termination ------------------------------------------------------------------------------------------

  function Weight(w: Worker): nat {
    match w
    case Idle => 2
    case HasBuf(_) => 1
    case Loaded(_, _) => 6
    case Coded(_, _, _) => 5
    case Writing => 3
    case Exited(_) => 0
  }

  function Weights(ws: seq<Worker>): nat {
    if ws == [] then 0 else Weight(ws[0]) + Weights(ws[1..])
  }

  lemma {:induction false} WeightMoves(ws: seq<Worker>, w: nat, x: Worker)
    requires w < |ws|
    ensures Weights(ws[w := x]) == Weights(ws) - Weight(ws[w]) + Weight(x)
  {
    hide Weight;
    if w > 0 {
      WeightMoves(ws[1..], w - 1, x);
      assert ws[w := x][0] == ws[0] && ws[w := x][1..] == ws[1..][w - 1 := x];
    } else {
      assert ws[w := x][1..] == ws[1..];
    }
  }

  /** A bound on the steps that are left. */
  function StepsLeft(job: Job, s: Sys): int
    requires job.Valid()
  {
    6 * (job.Count() - s.curRead) + Weights(s.workers) + |s.pending|
  }

  lemma {:induction false} StepDecreases(job: Job, s: Sys, w: nat)
    requires job.Valid() && w < |s.workers| && Step(job, s, w).Some?
    ensures StepsLeft(job, Step(job, s, w).value) < StepsLeft(job, s)
  {
    hide NextDict, Insert, Weights;
    var s1 := Step(job, s, w).value;
    WeightMoves(s.workers, w, s1.workers[w]);
    if s.workers[w].Coded? {
      InsertCounts(s.pending, Packet(s.workers[w].buf, s.workers[w].block.index, s.workers[w].code), 0);
    }
  }

  // --- all schedules ------------------------------------------------------------------------------------------

  lemma {:induction false} RunKeepsInv(job: Job, s: Sys, schedule: seq<nat>)
    requires job.Valid() && Inv(job, s) && Run(job, s, schedule).Some?
    ensures var e := Run(job, s, schedule).value;
      Inv(job, e) && |e.workers| == |s.workers| && |schedule| + StepsLeft(job, e) <= StepsLeft(job, s)
    decreases |schedule|
  {
    hide Step, Inv, StepsLeft;
    if schedule != [] {
      StepKeepsInv(job, s, schedule[0]);
      StepDecreases(job, s, schedule[0]);
      RunKeepsInv(job, Step(job, s, schedule[0]).value, schedule[1..]);
    }
  }

  lemma {:induction false} IdleWeights(t: nat)
    ensures Weights(seq(t, _ => Idle)) == 2 * t
  {
    if t > 0 {
      IdleWeights(t - 1);
      assert seq(t, _ => Idle)[1..] == seq(t - 1, _ => Idle);
    }
  }

  lemma NoWorkers(job: Job, threadNum: nat)
    requires job.Valid() && threadNum > 0 && Threads(job, threadNum) == 0
    ensures job.Count() == 0
  {
  }

  /** For every schedule: what is written so far are the first blocks in order, compressed with the
      right dictionaries; the run ends after at most six steps a block and two a thread; and when no
      worker can move any more, all have ended and the output is the same as of one thread. */
  lemma {:induction false} AnySchedule(job: Job, threadNum: nat, schedule: seq<nat>)
    requires job.Valid() && threadNum > 0 && Run(job, Init(job, threadNum), schedule).Some?
    ensures var s := Run(job, Init(job, threadNum), schedule).value;
      && Inv(job, s)
      && s.curWrite <= job.Count() && s.out == job.Output(s.curWrite)
      && |schedule| <= 6 * job.Count() + 2 * Threads(job, threadNum)
      && (Stuck(job, s) ==> AllExited(s) && s.curWrite == job.Count() && s.out == job.Output(job.Count()))
  {
    hide Step, WorkBufCount, Insert, PlacesOfBuf, PlacesOfBlock, LockInv;
    var s0 := Init(job, threadNum);
    InitInv(job, threadNum);
    RunKeepsInv(job, s0, schedule);
    IdleWeights(Threads(job, threadNum));
    var s := Run(job, s0, schedule).value;
    LeftBounds(job, s);
    if Stuck(job, s) {
      NoDeadlock(job, s);
      if |s.workers| > 0 {
        EndIsComplete(job, s);
      } else {
        NoWorkers(job, threadNum);
      }
    }
  }

  lemma LeftBounds(job: Job, s: Sys)
    requires job.Valid() && DataInv(job, s)
    ensures StepsLeft(job, s) >= 0
  {
  }
}
