/**
 The work of the parallel block compressor: the input cut into blocks, and the dictionary that each
 block is compressed with.
 */
module CompressJob {
  import opened Bytes

  /** Input, sizes, and the block compressor: a function of block index, block count, dictionary
      and data. */
  datatype Job = Job(input: seq<byte>, blockSize: nat, dictSize: nat,
                     compress: (nat, nat, seq<byte>, seq<byte>) -> seq<byte>)
  {
    predicate Valid() {
      blockSize > 0
    }

    function Count(): nat
      requires Valid()
    {
      (|input| + blockSize - 1) / blockSize
    }

    /** Where block `i` begins; the end of the input for all later ones. */
    function Start(i: nat): (p: nat)
      ensures p <= |input|
    {
      if i == 0 then 0
      else if Start(i - 1) + blockSize <= |input| then Start(i - 1) + blockSize
      else |input|
    }

    function Data(i: nat): seq<byte> {
      StartGrows(i);
      input[Start(i)..Start(i + 1)]
    }

    lemma StartGrows(i: nat)
      ensures Start(i) <= Start(i + 1)
    {
    }

    lemma {:induction false} StartIs(i: nat)
      ensures Start(i) == if i * blockSize <= |input| then i * blockSize else |input|
    {
      if i > 0 {
        StartIs(i - 1);
        assert i * blockSize == (i - 1) * blockSize + blockSize;
      }
    }

    /** The last bytes of the input before block `i`, as many as the dictionary takes. */
    function DictAt(i: nat): (d: seq<byte>)
      ensures |d| == if dictSize <= Start(i) then dictSize else Start(i)
    {
      input[if dictSize <= Start(i) then Start(i) - dictSize else 0..Start(i)]
    }

    function Code(i: nat): seq<byte>
      requires Valid()
    {
      compress(i, Count(), DictAt(i), Data(i))
    }

    /** The first `k` compressed blocks in order. */
    function Output(k: nat): seq<byte>
      requires Valid()
    {
      if k == 0 then [] else Output(k - 1) + Code(k - 1)
    }
  }

  /** Blocks before the last are full; the last one ends the input. */
  lemma BlockBounds(job: Job, i: nat)
    requires job.Valid() && i < job.Count()
    ensures job.Start(i) == i * job.blockSize < |job.input|
    ensures i + 1 < job.Count() ==> job.Start(i + 1) == job.Start(i) + job.blockSize
    ensures i + 1 == job.Count() ==> job.Start(i + 1) == |job.input|
  {
    var n, bs, len := job.Count(), job.blockSize, |job.input|;
    job.StartIs(i);
    job.StartIs(i + 1);
    DivBounds(len + bs - 1, bs);
    MulMono(i + 1, n, bs);
    assert (i + 1) * bs == i * bs + bs;
    if i + 1 < n {
      MulMono(i + 2, n, bs);
      assert (i + 2) * bs == (i + 1) * bs + bs;
    }
  }

  /** The dictionary behind a block: the end of dictionary and block, cut to the dictionary size. */
  function NextDict(dict: seq<byte>, data: seq<byte>, dictSize: nat): seq<byte> {
    var size := if |data| + |dict| >= dictSize then dictSize else |data| + |dict|;
    (dict + data)[|dict| + |data| - size..]
  }

  /** Rolling the dictionary over a full block gives the dictionary of the next block. */
  lemma NextDictIsRight(job: Job, i: nat)
    requires job.Valid() && i + 1 < job.Count()
    ensures NextDict(job.DictAt(i), job.Data(i), job.dictSize) == job.DictAt(i + 1)
  {
    BlockBounds(job, i);
    var a, b := job.Start(i), job.Start(i + 1);
    var from := a - |job.DictAt(i)|;
    assert job.DictAt(i) + job.Data(i) == job.input[from..b];
  }
}
