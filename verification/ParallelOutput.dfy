/**
 The output of the parallel block compressor, told from its input alone.
 */
module ParallelOutput {
  import opened Bytes
  import opened CompressJob
  import opened ParallelCompress
  import opened ParallelRuns

  /** Block `i`, compressed with the input in front of it as dictionary, at most `dictSize` bytes. */
  function Piece(job: Job, i: nat): seq<byte>
    requires job.Valid() && i * job.blockSize <= |job.input|
  {
    var at := i * job.blockSize;
    var from := if at < job.dictSize then 0 else at - job.dictSize;
    var to := if at + job.blockSize < |job.input| then at + job.blockSize else |job.input|;
    job.compress(i, (|job.input| + job.blockSize - 1) / job.blockSize, job.input[from..at], job.input[at..to])
  }

  ghost predicate ArePieces(job: Job, ps: seq<seq<byte>>)
    requires job.Valid()
  {
    forall i :: 0 <= i < |ps| ==> i * job.blockSize <= |job.input| && ps[i] == Piece(job, i)
  }

  /** Where block `i` begins and ends. */
  lemma {:induction false} BlockRange(job: Job, i: nat)
    requires job.Valid() && i < job.Count()
    ensures job.Start(i) == i * job.blockSize <= |job.input|
    ensures job.Start(i + 1)
         == if job.Start(i) + job.blockSize < |job.input| then job.Start(i) + job.blockSize else |job.input|
  {
    BlockBounds(job, i);
  }

  lemma {:induction false} CodeIsPiece(job: Job, i: nat)
    requires job.Valid() && i < job.Count()
    ensures i * job.blockSize <= |job.input| && job.Code(i) == Piece(job, i)
  {
    BlockRange(job, i);
    hide Job.Start;
  }

  lemma {:induction false} OutputIsJoined(job: Job, k: nat) returns (ps: seq<seq<byte>>)
    requires job.Valid() && k <= job.Count()
    ensures |ps| == k && ArePieces(job, ps) && job.Output(k) == Joined(ps)
  {
    hide Job.Code, Job.Count, Piece;
    if k == 0 {
      ps := [];
    } else {
      var init := OutputIsJoined(job, k - 1);
      CodeIsPiece(job, k - 1);
      JoinedLast(init, Piece(job, k - 1));
      ps := init + [Piece(job, k - 1)];
    }
  }

  /** Under every schedule the output consists of the first pieces, in order, one for each block written;
      and when no worker can move any more these are the pieces of the whole input. */
  lemma {:induction false} AnyScheduleOutput(job: Job, threadNum: nat, schedule: seq<nat>) returns (ps: seq<seq<byte>>)
    requires job.Valid() && threadNum > 0 && Run(job, Init(job, threadNum), schedule).Some?
    ensures var s := Run(job, Init(job, threadNum), schedule).value;
      && |ps| == s.curWrite && ArePieces(job, ps) && s.out == Joined(ps)
      && (Stuck(job, s) ==> AllExited(s) && |ps| == (|job.input| + job.blockSize - 1) / job.blockSize)
  {
    hide Step, WorkBufCount, Insert, PlacesOfBuf, PlacesOfBlock, LockInv, Piece, Joined, Job.Output;
    var s := Run(job, Init(job, threadNum), schedule).value;
    AnySchedule(job, threadNum, schedule);
    ps := OutputIsJoined(job, s.curWrite);
  }
}
