/**
 The read and the write section of the parallel block compressor as the source runs them, on the
 shared arrays and lists.
 */
module ParallelThreads {
  import opened Bytes
  import opened CompressJob
  import opened ParallelCompress

  /** `TWorkBuf`: dictionary, block and code follow each other in one piece of memory. */
  class WorkBuf {
    const buf: array<byte>
    var workIndex: nat
    var dictSize: nat
    var uncompressedSize: nat

    constructor (threadMemSize: nat)
      ensures buf.Length == threadMemSize && fresh(buf)
    {
      buf := new byte[threadMemSize](_ => 0);
      workIndex, dictSize, uncompressedSize := 0, 0, 0;
    }

    /** The block in the buffer. */
    ghost function TheBlock(): Block
      reads this, buf
      requires dictSize + uncompressedSize <= buf.Length
    {
      Block(workIndex, buf[..dictSize], buf[dictSize..dictSize + uncompressedSize])
    }
  }

  /** `TMt`: what the threads share. */
  class Mt {
    const job: Job
    var curReadBlockIndex: nat
    var curWriteBlockIndex: nat
    const dictBuf: array<byte>
    var dictLen: nat
    var dataBufList: seq<Packet>
    var workChan: seq<nat>
    var outCode: seq<byte>

    ghost predicate Valid()
      reads this
    {
      job.Valid() && dictBuf.Length == job.dictSize && dictLen <= dictBuf.Length
    }

    ghost function Dict(): seq<byte>
      reads this, dictBuf
      requires Valid()
    {
      dictBuf[..dictLen]
    }

    constructor (job: Job)
      requires job.Valid()
      ensures Valid() && fresh(dictBuf) && this.job == job && Dict() == []
      ensures curReadBlockIndex == curWriteBlockIndex == 0 && dataBufList == [] && workChan == [] && outCode == []
    {
      this.job := job;
      curReadBlockIndex, curWriteBlockIndex := 0, 0;
      dictBuf := new byte[job.dictSize](_ => 0);
      dictLen := 0;
      dataBufList, workChan, outCode := [], [], [];
    }

    /** Copies dictionary and next block into the buffer. */
    method LoadBlock(workBuf: WorkBuf)
      requires Valid() && workBuf.buf != dictBuf && workBuf.buf.Length >= job.dictSize + job.blockSize
      requires curReadBlockIndex < job.Count()
      modifies workBuf, workBuf.buf
      ensures workBuf.dictSize == dictLen && workBuf.uncompressedSize == |job.Data(curReadBlockIndex)| <= job.blockSize
      ensures workBuf.TheBlock() == Block(curReadBlockIndex, Dict(), job.Data(curReadBlockIndex))
    {
      hide Job.Data, Job.Start, Job.Count;
      var inDataPos := curReadBlockIndex * job.blockSize;
      var size := if curReadBlockIndex + 1 < job.Count() then job.blockSize else |job.input| - inDataPos;
      DataIsSlice(job, curReadBlockIndex, size);
      workBuf.dictSize := dictLen;
      workBuf.uncompressedSize := size;
      Memcpy(workBuf.buf, dictBuf, 0, dictLen);
      ReadInto(workBuf.buf, dictLen, job.input, inDataPos, size);
      workBuf.workIndex := curReadBlockIndex;
    }

    /** The new dictionary: the end of dictionary and block in the buffer. */
    method UpdateDict(workBuf: WorkBuf, ghost dict: seq<byte>, ghost data: seq<byte>)
      requires Valid() && workBuf.buf != dictBuf && workBuf.dictSize == dictLen
      requires workBuf.dictSize + workBuf.uncompressedSize <= workBuf.buf.Length
      requires dict == workBuf.buf[..workBuf.dictSize]
      requires data == workBuf.buf[workBuf.dictSize..workBuf.dictSize + workBuf.uncompressedSize]
      modifies this`dictLen, dictBuf
      ensures Valid()
      ensures Dict() == NextDict(dict, data, job.dictSize)
    {
      hide NextDict;
      var dataBufEnd := workBuf.dictSize + workBuf.uncompressedSize;
      var size := if workBuf.uncompressedSize + workBuf.dictSize >= dictBuf.Length then dictBuf.Length
                  else workBuf.uncompressedSize + workBuf.dictSize;
      EndOfBlock(workBuf.buf, workBuf.dictSize, dataBufEnd - size, dataBufEnd, dict, data);
      NextDictIs(dict, data, dictBuf.Length, size);
      Memcpy(dictBuf, workBuf.buf, dataBufEnd - size, size);
      dictLen := size;
    }

    /** The read section. */
    method ReadBlock(workBuf: WorkBuf) returns (more: bool)
      requires Valid() && workBuf.buf != dictBuf && workBuf.buf.Length >= job.dictSize + job.blockSize
      modifies this`curReadBlockIndex, this`dictLen, dictBuf, workBuf, workBuf.buf
      ensures Valid() && more == (old(curReadBlockIndex) < job.Count())
      ensures !more ==> curReadBlockIndex == old(curReadBlockIndex) && Dict() == old(Dict())
      ensures more ==>
                var i, dict := old(curReadBlockIndex), old(Dict());
                && workBuf.dictSize + workBuf.uncompressedSize <= workBuf.buf.Length
                && workBuf.TheBlock() == Block(i, dict, job.Data(i)) && curReadBlockIndex == i + 1
                && Dict() == if i + 1 < job.Count() then NextDict(dict, job.Data(i), job.dictSize) else dict
    {
      hide NextDict;
      if curReadBlockIndex >= job.Count() {
        return false;
      }
      LoadBlock(workBuf);
      curReadBlockIndex := curReadBlockIndex + 1;
      if curReadBlockIndex < job.Count() {
        UpdateDict(workBuf, workBuf.TheBlock().dict, workBuf.TheBlock().data);
      }
      return true;
    }

    /** The search for the place of a finished block on the list. */
    method PushToList(p: Packet)
      modifies this`dataBufList
      ensures dataBufList == Insert(old(dataBufList), p)
    {
      var at := 0;
      ghost var list := dataBufList;
      assert list[..0] + Insert(list[0..], p) == Insert(list, p) by {
        assert list[0..] == list;
      }
      while at < |dataBufList| && dataBufList[at].index < p.index
        invariant 0 <= at <= |dataBufList| && dataBufList == list
        invariant list[..at] + Insert(list[at..], p) == Insert(list, p)
      {
        PushNext(list, at, p);
        at := at + 1;
      }
      PushHere(list, at, p);
      dataBufList := dataBufList[..at] + [p] + dataBufList[at..];
    }

    /** The write loop without interruption. */
    method WriteReady()
      modifies this`dataBufList, this`curWriteBlockIndex, this`outCode, this`workChan
      ensures (dataBufList, curWriteBlockIndex, outCode, workChan)
           == Drain(old(dataBufList), old(curWriteBlockIndex), old(outCode), old(workChan))
    {
      while dataBufList != [] && dataBufList[0].index == curWriteBlockIndex
        invariant Drain(dataBufList, curWriteBlockIndex, outCode, workChan)
               == Drain(old(dataBufList), old(curWriteBlockIndex), old(outCode), old(workChan))
        decreases |dataBufList|
      {
        var workBuf := dataBufList[0];
        dataBufList := dataBufList[1..];
        outCode := outCode + workBuf.code;
        curWriteBlockIndex := curWriteBlockIndex + 1;
        workChan := workChan + [workBuf.buf];
      }
    }
  }

  method Memcpy(dst: array<byte>, src: array<byte>, from: nat, n: nat)
    requires from + n <= src.Length && n <= dst.Length && dst != src
    modifies dst
    ensures dst[..n] == src[from..from + n]
  {
    forall i | 0 <= i < n {
      dst[i] := src[from + i];
    }
    ghost var got, part := dst[..n], src[from..from + n];
    forall i | 0 <= i < n ensures got[i] == part[i] {
      assert dst[i] == src[from + i];
    }
  }

  method ReadInto(dst: array<byte>, at: nat, data: seq<byte>, from: nat, n: nat)
    requires from + n <= |data| && at + n <= dst.Length
    modifies dst
    ensures dst[..at] == old(dst[..at]) && dst[at..at + n] == data[from..from + n]
  {
    forall i | at <= i < at + n {
      dst[i] := data[from + (i - at)];
    }
    ghost var got, part := dst[at..at + n], data[from..from + n];
    forall i | 0 <= i < n ensures got[i] == part[i] {
      assert dst[at + i] == data[from + ((at + i) - at)];
    }
  }

  lemma EndOfBlock(buf: array<byte>, dictSize: nat, from: nat, end: nat, dict: seq<byte>, data: seq<byte>)
    requires from <= end <= buf.Length && dictSize <= end
    requires dict == buf[..dictSize] && data == buf[dictSize..end]
    ensures buf[from..end] == (dict + data)[from..]
  {
    assert dict + data == buf[..end];
  }

  lemma NextDictIs(dict: seq<byte>, data: seq<byte>, dictSize: nat, size: nat)
    requires size == if |data| + |dict| >= dictSize then dictSize else |data| + |dict|
    ensures NextDict(dict, data, dictSize) == (dict + data)[|dict| + |data| - size..]
  {
  }

  lemma DataIsSlice(job: Job, i: nat, size: int)
    requires job.Valid() && i < job.Count()
    requires size == if i + 1 < job.Count() then job.blockSize else |job.input| - i * job.blockSize
    ensures 0 <= size <= job.blockSize && i * job.blockSize + size <= |job.input|
    ensures job.Data(i) == job.input[i * job.blockSize..i * job.blockSize + size]
  {
    BlockBounds(job, i);
    if i + 1 == job.Count() {
      DivBounds(|job.input| + job.blockSize - 1, job.blockSize);
      assert (i + 1) * job.blockSize == i * job.blockSize + job.blockSize;
    }
  }

  lemma {:induction false} PushHere(list: seq<Packet>, at: nat, p: Packet)
    requires at <= |list| && (at < |list| ==> list[at].index >= p.index)
    ensures list[..at] + Insert(list[at..], p) == list[..at] + [p] + list[at..]
  {
  }

  lemma {:induction false} PushNext(list: seq<Packet>, at: nat, p: Packet)
    requires at < |list| && list[at].index < p.index
    ensures list[..at] + Insert(list[at..], p) == list[..at + 1] + Insert(list[at + 1..], p)
  {
    assert list[at..][1..] == list[at + 1..];
    assert list[..at + 1] == list[..at] + [list[at]];
  }

  /** All blocks that are ready are written, in order. */
  function Drain(list: seq<Packet>, next: nat, out: seq<byte>, chan: seq<nat>): (seq<Packet>, nat, seq<byte>, seq<nat>)
    decreases |list|
  {
    if list != [] && list[0].index == next then
      Drain(list[1..], next + 1, out + list[0].code, chan + [list[0].buf])
    else (list, next, out, chan)
  }

  /** The write loop is a number of steps of one worker in the write section. */
  lemma {:induction false} DrainIsSteps(job: Job, s: Sys, w: nat) returns (n: nat)
    requires job.Valid() && w < |s.workers| && s.workers[w].Writing?
    ensures var (list, next, out, chan) := Drain(s.pending, s.curWrite, s.out, s.channel);
      Run(job, s, seq(n, _ => w)) == Some(s.(pending := list, curWrite := next, out := out, channel := chan))
    decreases |s.pending|
  {
    if HeadIsNext(s) {
      n := DrainIsSteps(job, WriteStep(s, w), w);
      n := n + 1;
      assert seq(n, _ => w)[1..] == seq(n - 1, _ => w);
    } else {
      n := 0;
      assert s == s.(pending := s.pending, curWrite := s.curWrite, out := s.out, channel := s.channel);
    }
  }
}
