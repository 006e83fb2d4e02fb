/**
 The parallel block compressor (`_threadRunCallBack`): worker threads that share a read section
 with a rolling dictionary, a write section with a sorted list of finished blocks, and a channel
 of recycled buffers. Every step that other threads can see is one step of the model; a schedule
 is any order in which workers move.
 */
module ParallelCompress {
  import opened Bytes
  import opened CompressJob

  // --- the state -----------------------------------------------------------------------------------

  datatype Block = Block(index: nat, dict: seq<byte>, data: seq<byte>)

  /** A worker: waiting for a buffer; with an empty buffer; with a block read; with a block
      compressed; in the write section, where its buffer is on the list; ended. */
  datatype Worker =
    | Idle
    | HasBuf(buf: nat)
    | Loaded(buf: nat, block: Block)
    | Coded(buf: nat, block: Block, code: seq<byte>)
    | Writing
    | Exited(buf: nat)

  datatype Packet = Packet(buf: nat, index: nat, code: seq<byte>)

  datatype Sys = Sys(curRead: nat, curWrite: nat, dict: seq<byte>, workers: seq<Worker>,
                     channel: seq<nat>, pending: seq<Packet>, writer: Option<nat>, out: seq<byte>)

  function WorkBufCount(threads: nat): nat {
    threads + (threads + 2) / 3
  }

  function Threads(job: Job, threadNum: nat): nat
    requires job.Valid()
  {
    if threadNum > job.Count() then job.Count() else threadNum
  }

  function Numbers(a: nat, b: nat): (s: seq<nat>)
    requires a <= b
    ensures |s| == b - a && forall i :: 0 <= i < |s| ==> s[i] == a + i
  {
    seq(b - a, i requires 0 <= i => a + i)
  }

  function Init(job: Job, threadNum: nat): Sys
    requires job.Valid()
  {
    var t := Threads(job, threadNum);
    Sys(0, 0, [], seq(t, _ => Idle), Numbers(0, WorkBufCount(t)), [], None, [])
  }

  // --- the steps -----------------------------------------------------------------------------------

  /** Insertion in front of the first packet that is not earlier. */
  function Insert(list: seq<Packet>, p: Packet): seq<Packet> {
    if list != [] && list[0].index < p.index then [list[0]] + Insert(list[1..], p) else [p] + list
  }

  /** The read section: the next block with its dictionary, and the dictionary behind it. */
  function ReadStep(job: Job, s: Sys, w: nat, buf: nat): Sys
    requires job.Valid() && w < |s.workers|
  {
    if s.curRead >= job.Count() then s.(workers := s.workers[w := Exited(buf)])
    else
      var data := job.Data(s.curRead);
      s.(workers := s.workers[w := Loaded(buf, Block(s.curRead, s.dict, data))],
         curRead := s.curRead + 1,
         dict := if s.curRead + 1 < job.Count() then NextDict(s.dict, data, job.dictSize) else s.dict)
  }

  predicate HeadIsNext(s: Sys) {
    s.pending != [] && s.pending[0].index == s.curWrite
  }

  /** One round of the write loop, or leaving the write section. */
  function WriteStep(s: Sys, w: nat): Sys
    requires w < |s.workers|
  {
    if HeadIsNext(s) then
      s.(pending := s.pending[1..], out := s.out + s.pending[0].code, curWrite := s.curWrite + 1,
         channel := s.channel + [s.pending[0].buf])
    else
      s.(workers := s.workers[w := Idle], writer := None)
  }

  /** The next step of worker `w`; none when it is blocked or ended. */
  function Step(job: Job, s: Sys, w: nat): Option<Sys>
    requires job.Valid() && w < |s.workers|
  {
    match s.workers[w]
    case Idle =>
      if s.channel == [] then None
      else Some(s.(workers := s.workers[w := HasBuf(s.channel[0])], channel := s.channel[1..]))
    case HasBuf(buf) => Some(ReadStep(job, s, w, buf))
    case Loaded(buf, b) =>
      Some(s.(workers := s.workers[w := Coded(buf, b, job.compress(b.index, job.Count(), b.dict, b.data))]))
    case Coded(buf, b, code) =>
      if s.writer.Some? then None
      else Some(s.(workers := s.workers[w := Writing], writer := Some(w),
                   pending := Insert(s.pending, Packet(buf, b.index, code))))
    case Writing => Some(WriteStep(s, w))
    case Exited(_) => None
  }

  /** A schedule names the worker that moves at each step; it is a run when none of them is blocked. */
  function Run(job: Job, s: Sys, schedule: seq<nat>): Option<Sys>
    requires job.Valid()
    decreases |schedule|
  {
    if schedule == [] then Some(s)
    else if schedule[0] >= |s.workers| then None
    else
      var s1 :- Step(job, s, schedule[0]);
      Run(job, s1, schedule[1..])
  }

  // --- counting ---------------------------------------------------------------------------------------

  /** The buffer a worker holds. */
  function BufOf(w: Worker): Option<nat> {
    match w
    case HasBuf(b) => Some(b)
    case Loaded(b, _) => Some(b)
    case Coded(b, _, _) => Some(b)
    case Exited(b) => Some(b)
    case Idle => None
    case Writing => None
  }

  /** The block a worker has in its hands. */
  function IndexOf(w: Worker): Option<nat> {
    match w
    case Loaded(_, b) => Some(b.index)
    case Coded(_, b, _) => Some(b.index)
    case _ => None
  }

  /** How many workers hold buffer `b`, have block `i` in their hands, hold any buffer at all. */
  function WorkersWithBuf(ws: seq<Worker>, b: nat): nat {
    if ws == [] then 0 else One(BufOf(ws[0]) == Some(b)) + WorkersWithBuf(ws[1..], b)
  }

  function WorkersWithIndex(ws: seq<Worker>, i: nat): nat {
    if ws == [] then 0 else One(IndexOf(ws[0]) == Some(i)) + WorkersWithIndex(ws[1..], i)
  }

  function Holders(ws: seq<Worker>): nat {
    if ws == [] then 0 else One(BufOf(ws[0]).Some?) + Holders(ws[1..])
  }

  lemma {:induction false} WorkerMoves(ws: seq<Worker>, w: nat, x: Worker, b: nat)
    requires w < |ws|
    ensures WorkersWithBuf(ws[w := x], b) == WorkersWithBuf(ws, b) - One(BufOf(ws[w]) == Some(b)) + One(BufOf(x) == Some(b))
    ensures WorkersWithIndex(ws[w := x], b)
         == WorkersWithIndex(ws, b) - One(IndexOf(ws[w]) == Some(b)) + One(IndexOf(x) == Some(b))
    ensures Holders(ws[w := x]) == Holders(ws) - One(BufOf(ws[w]).Some?) + One(BufOf(x).Some?)
  {
    hide BufOf, IndexOf;
    if w > 0 {
      WorkerMoves(ws[1..], w - 1, x, b);
      assert ws[w := x][0] == ws[0] && ws[w := x][1..] == ws[1..][w - 1 := x];
    } else {
      assert ws[w := x][1..] == ws[1..];
    }
  }

  function PacketsWithBuf(list: seq<Packet>, b: nat): nat {
    if list == [] then 0 else One(list[0].buf == b) + PacketsWithBuf(list[1..], b)
  }

  function PacketsWithIndex(list: seq<Packet>, i: nat): nat {
    if list == [] then 0 else One(list[0].index == i) + PacketsWithIndex(list[1..], i)
  }

  lemma {:induction false} InsertCounts(list: seq<Packet>, p: Packet, b: nat)
    ensures PacketsWithBuf(Insert(list, p), b) == PacketsWithBuf(list, b) + One(p.buf == b)
    ensures PacketsWithIndex(Insert(list, p), b) == PacketsWithIndex(list, b) + One(p.index == b)
    ensures |Insert(list, p)| == |list| + 1
  {
    if list != [] && list[0].index < p.index {
      InsertCounts(list[1..], p, b);
      assert Insert(list, p)[1..] == Insert(list[1..], p);
    } else {
      assert Insert(list, p)[1..] == list;
    }
  }

  function Occurs(s: seq<nat>, b: nat): nat {
    if s == [] then 0 else One(s[0] == b) + Occurs(s[1..], b)
  }

  lemma {:induction false} OccursAppend(s: seq<nat>, x: nat, b: nat)
    ensures Occurs(s + [x], b) == Occurs(s, b) + One(x == b)
  {
    if s == [] {
      assert ([] + [x])[1..] == [];
    } else {
      assert (s + [x])[1..] == s[1..] + [x];
      OccursAppend(s[1..], x, b);
    }
  }

  lemma {:induction false} OccursInNumbers(a: nat, e: nat, b: nat)
    requires a <= e
    ensures Occurs(Numbers(a, e), b) == One(a <= b < e)
    decreases e - a
  {
    if a < e {
      assert Numbers(a, e)[1..] == Numbers(a + 1, e);
      OccursInNumbers(a + 1, e, b);
    }
  }

  // --- the invariant -----------------------------------------------------------------------------------

  /** In how many places buffer `b` is: in the channel, with workers, or on the list. */
  function PlacesOfBuf(s: Sys, b: nat): nat {
    Occurs(s.channel, b) + WorkersWithBuf(s.workers, b) + PacketsWithBuf(s.pending, b)
  }

  /** How often block `i` is in flight: with workers, or on the list. */
  function PlacesOfBlock(s: Sys, i: nat): nat {
    WorkersWithIndex(s.workers, i) + PacketsWithIndex(s.pending, i)
  }

  predicate RightBlock(job: Job, b: Block)
    requires job.Valid()
  {
    b.index < job.Count() && b.dict == job.DictAt(b.index) && b.data == job.Data(b.index)
  }

  /** What a worker has in its buffer is what its block index says. */
  predicate RightWorker(job: Job, w: Worker)
    requires job.Valid()
  {
    match w
    case Loaded(_, b) => RightBlock(job, b)
    case Coded(_, b, code) => RightBlock(job, b) && code == job.Code(b.index)
    case _ => true
  }

  predicate RightPacket(job: Job, p: Packet)
    requires job.Valid()
  {
    p.code == job.Code(p.index)
  }

  predicate Sorted(list: seq<Packet>) {
    forall i, j :: 0 <= i < j < |list| ==> list[i].index <= list[j].index
  }

  /** Data: every block is what it should be, and what is written is the beginning of the output. */
  ghost predicate DataInv(job: Job, s: Sys)
    requires job.Valid()
  {
    && s.curWrite <= s.curRead <= job.Count()
    && (s.curRead < job.Count() ==> s.dict == job.DictAt(s.curRead))
    && (forall w :: 0 <= w < |s.workers| ==> RightWorker(job, s.workers[w]))
    && (forall i :: 0 <= i < |s.pending| ==> RightPacket(job, s.pending[i]))
    && s.out == job.Output(s.curWrite)
  }

  /** Locks: at most one worker is in the write section; without one, the next block to write is
      not on the list. */
  ghost predicate LockInv(s: Sys) {
    && (forall w :: 0 <= w < |s.workers| ==> (s.workers[w].Writing? <==> s.writer == Some(w)))
    && (s.writer.Some? ==> s.writer.value < |s.workers|)
    && (s.writer.None? ==> !HeadIsNext(s))
    && Sorted(s.pending)
  }

  /** Conservation: every buffer is in exactly one place, and exactly the blocks read and not yet
      written are in flight, each once. */
  ghost predicate CountInv(job: Job, s: Sys)
    requires job.Valid()
  {
    && s.curWrite <= s.curRead
    && (forall b: nat :: PlacesOfBuf(s, b) == One(b < WorkBufCount(|s.workers|)))
    && (forall i: nat :: PlacesOfBlock(s, i) == One(s.curWrite <= i < s.curRead))
    && |s.channel| + Holders(s.workers) + |s.pending| == WorkBufCount(|s.workers|)
    && (forall w :: 0 <= w < |s.workers| && s.workers[w].Exited? ==> s.curRead >= job.Count())
  }

  ghost predicate Inv(job: Job, s: Sys)
    requires job.Valid()
  {
    DataInv(job, s) && LockInv(s) && CountInv(job, s)
  }

  // --- every step keeps the invariant -----------------------------------------------------------------

  lemma {:induction false} InsertElements(list: seq<Packet>, p: Packet)
    ensures forall i :: 0 <= i < |Insert(list, p)| ==> Insert(list, p)[i] == p || Insert(list, p)[i] in list
  {
    if list != [] && list[0].index < p.index {
      InsertElements(list[1..], p);
      var r := Insert(list, p);
      forall i | 0 <= i < |r| ensures r[i] == p || r[i] in list {
        assert i > 0 ==> r[i] == Insert(list[1..], p)[i - 1];
      }
    }
  }

  lemma {:induction false} InsertSorted(list: seq<Packet>, p: Packet)
    requires Sorted(list)
    ensures Sorted(Insert(list, p))
  {
    if list != [] && list[0].index < p.index {
      InsertSorted(list[1..], p);
      InsertElements(list[1..], p);
      var r, t := Insert(list, p), Insert(list[1..], p);
      forall i, j | 0 <= i < j < |r| ensures r[i].index <= r[j].index {
        assert r[j] == t[j - 1];
        assert i > 0 ==> r[i] == t[i - 1];
      }
    }
  }

  /** A packet on the list is a block in flight. */
  lemma {:induction false} PendingCounted(list: seq<Packet>, i: nat)
    requires i < |list|
    ensures PacketsWithIndex(list, list[i].index) >= 1
  {
    if i > 0 {
      PendingCounted(list[1..], i - 1);
    }
  }

  lemma PendingInFlight(job: Job, s: Sys, i: nat)
    requires job.Valid() && CountInv(job, s) && i < |s.pending|
    ensures s.curWrite <= s.pending[i].index < s.curRead
  {
    PendingCounted(s.pending, i);
    assert PlacesOfBlock(s, s.pending[i].index) == One(s.curWrite <= s.pending[i].index < s.curRead);
  }

  lemma ReadKeepsData(job: Job, s: Sys, w: nat, buf: nat)
    requires job.Valid() && DataInv(job, s) && w < |s.workers|
    ensures DataInv(job, ReadStep(job, s, w, buf))
  {
    hide NextDict, Job.Count, Job.Data, Job.DictAt, Job.Code, Job.Output;
    if s.curRead + 1 < job.Count() {
      NextDictIsRight(job, s.curRead);
    }
  }

  lemma {:induction false} WriteKeepsData(job: Job, s: Sys, w: nat)
    requires job.Valid() && DataInv(job, s) && CountInv(job, s) && w < |s.workers|
    ensures DataInv(job, WriteStep(s, w))
  {
    hide Job.Code, Job.Data, Job.DictAt, Job.Count, CountInv;
    if HeadIsNext(s) {
      PendingInFlight(job, s, 0);
      assert RightPacket(job, s.pending[0]);
    }
  }

  lemma {:induction false} StepKeepsData(job: Job, s: Sys, w: nat)
    requires job.Valid() && Inv(job, s) && w < |s.workers| && Step(job, s, w).Some?
    ensures DataInv(job, Step(job, s, w).value)
  {
    hide ReadStep, WriteStep, Insert, CountInv, LockInv, NextDict, Job.Count, Job.Data, Job.DictAt, Job.Output;
    match s.workers[w]
    case Idle =>
    case HasBuf(buf) => ReadKeepsData(job, s, w, buf);
    case Loaded(_, _) =>
    case Coded(buf, b, code) => InsertElements(s.pending, Packet(buf, b.index, code));
    case Writing => WriteKeepsData(job, s, w);
  }

  lemma {:induction false} StepKeepsLocks(job: Job, s: Sys, w: nat)
    requires job.Valid() && LockInv(s) && w < |s.workers| && Step(job, s, w).Some?
    ensures LockInv(Step(job, s, w).value)
  {
    hide Insert, NextDict;
    match s.workers[w]
    case Idle =>
    case HasBuf(_) =>
    case Loaded(_, _) =>
    case Coded(buf, b, code) => InsertSorted(s.pending, Packet(buf, b.index, code));
    case Writing =>
  }

  /** What a step does to the counts of one buffer and one block `k`. */
  ghost predicate CountsKept(s: Sys, s1: Sys, k: nat)
  {
    && PlacesOfBuf(s1, k) == PlacesOfBuf(s, k)
    && PlacesOfBlock(s1, k) + One(s.curWrite <= k < s1.curWrite) == PlacesOfBlock(s, k) + One(s.curRead <= k < s1.curRead)
    && |s1.channel| + Holders(s1.workers) + |s1.pending| == |s.channel| + Holders(s.workers) + |s.pending|
    && |s1.workers| == |s.workers|
  }

  lemma {:induction false} ReadKeepsCount(job: Job, s: Sys, w: nat, k: nat)
    requires job.Valid() && w < |s.workers| && s.workers[w].HasBuf?
    ensures CountsKept(s, ReadStep(job, s, w, s.workers[w].buf), k)
  {
    hide NextDict, WorkersWithBuf, WorkersWithIndex, Holders;
    WorkerMoves(s.workers, w, ReadStep(job, s, w, s.workers[w].buf).workers[w], k);
  }

  lemma {:induction false} WriteKeepsCount(s: Sys, w: nat, k: nat)
    requires w < |s.workers| && s.workers[w].Writing?
    ensures CountsKept(s, WriteStep(s, w), k)
  {
    hide WorkersWithBuf, WorkersWithIndex, Holders, Occurs;
    if HeadIsNext(s) {
      OccursAppend(s.channel, s.pending[0].buf, k);
    } else {
      WorkerMoves(s.workers, w, Idle, k);
    }
  }

  lemma {:induction false} StepKeepsCounts(job: Job, s: Sys, w: nat, k: nat)
    requires job.Valid() && w < |s.workers| && Step(job, s, w).Some?
    ensures CountsKept(s, Step(job, s, w).value, k)
  {
    hide ReadStep, WriteStep, Insert, WorkersWithBuf, WorkersWithIndex, Holders, PacketsWithBuf, PacketsWithIndex;
    var s1 := Step(job, s, w).value;
    match s.workers[w]
    case Idle => WorkerMoves(s.workers, w, s1.workers[w], k);
    case HasBuf(_) => ReadKeepsCount(job, s, w, k);
    case Loaded(_, _) => WorkerMoves(s.workers, w, s1.workers[w], k);
    case Coded(buf, b, code) =>
      WorkerMoves(s.workers, w, Writing, k);
      InsertCounts(s.pending, Packet(buf, b.index, code), k);
    case Writing => WriteKeepsCount(s, w, k);
  }

  /** The positions move forward, over one block at most, and only ended workers have seen the end. */
  lemma {:induction false} StepPositions(job: Job, s: Sys, w: nat)
    requires job.Valid() && w < |s.workers| && Step(job, s, w).Some? && CountInv(job, s)
    ensures var s1 := Step(job, s, w).value;
      && s.curWrite <= s1.curWrite <= s1.curRead && s.curRead <= s1.curRead
      && (forall v :: 0 <= v < |s1.workers| && s1.workers[v].Exited? ==> s1.curRead >= job.Count())
  {
    hide NextDict, Insert, PlacesOfBuf, PlacesOfBlock, Holders;
    if s.workers[w].Writing? && HeadIsNext(s) {
      PendingInFlight(job, s, 0);
    }
  }

  lemma {:induction false} StepKeepsCount(job: Job, s: Sys, w: nat)
    requires job.Valid() && CountInv(job, s) && w < |s.workers| && Step(job, s, w).Some?
    ensures CountInv(job, Step(job, s, w).value)
  {
    hide Step, PlacesOfBuf, PlacesOfBlock, Holders;
    var s1 := Step(job, s, w).value;
    StepPositions(job, s, w);
    forall k: nat
      ensures PlacesOfBuf(s1, k) == One(k < WorkBufCount(|s1.workers|))
      ensures PlacesOfBlock(s1, k) == One(s1.curWrite <= k < s1.curRead)
    {
      StepKeepsCounts(job, s, w, k);
    }
    StepKeepsCounts(job, s, w, 0);
  }

  /** Every step of every worker keeps the invariant. */
  lemma {:induction false} StepKeepsInv(job: Job, s: Sys, w: nat)
    requires job.Valid() && Inv(job, s) && w < |s.workers| && Step(job, s, w).Some?
    ensures Inv(job, Step(job, s, w).value)
    ensures |Step(job, s, w).value.workers| == |s.workers|
  {
    hide Step, DataInv, LockInv, CountInv;
    StepKeepsData(job, s, w);
    StepKeepsLocks(job, s, w);
    StepKeepsCount(job, s, w);
    StepKeepsCounts(job, s, w, 0);
  }

  lemma {:induction false} AllIdle(t: nat, k: nat)
    ensures var ws := seq(t, _ => Idle);
      WorkersWithBuf(ws, k) == 0 && WorkersWithIndex(ws, k) == 0 && Holders(ws) == 0
  {
    if t > 0 {
      AllIdle(t - 1, k);
      assert seq(t, _ => Idle)[1..] == seq(t - 1, _ => Idle);
    }
  }

  lemma {:induction false} InitInv(job: Job, threadNum: nat)
    requires job.Valid()
    ensures Inv(job, Init(job, threadNum))
  {
    hide WorkBufCount, WorkersWithBuf, WorkersWithIndex, Holders, Occurs, Threads;
    var s := Init(job, threadNum);
    forall k: nat
      ensures PlacesOfBuf(s, k) == One(k < WorkBufCount(|s.workers|))
      ensures PlacesOfBlock(s, k) == 0
    {
      AllIdle(Threads(job, threadNum), k);
      OccursInNumbers(0, WorkBufCount(|s.workers|), k);
    }
    AllIdle(Threads(job, threadNum), 0);
    assert job.DictAt(0) == [];
  }
}
