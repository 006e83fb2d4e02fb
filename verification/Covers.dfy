/** Covers: ranges of the new data that equal ranges of the old data. */
module Covers {
  import opened Bytes

  /** `TCover`. */
  datatype Cover = Cover(oldPos: nat, newPos: nat, length: nat) {
    function OldEnd(): nat {
      oldPos + length
    }

    function NewEnd(): nat {
      newPos + length
    }
  }

  /** In range, and the bytes are the same. */
  predicate Matching(c: Cover, oldData: seq<byte>, newData: seq<byte>) {
    && c.OldEnd() <= |oldData|
    && c.NewEnd() <= |newData|
    && newData[c.newPos..c.NewEnd()] == oldData[c.oldPos..c.OldEnd()]
  }

  predicate AllMatching(cs: seq<Cover>, oldData: seq<byte>, newData: seq<byte>) {
    forall i :: 0 <= i < |cs| ==> Matching(cs[i], oldData, newData)
  }

  /** Positive lengths, sorted and not overlapping, inside the new positions `pos` to `end`. */
  predicate Ordered(cs: seq<Cover>, pos: nat, end: nat) {
    if cs == [] then pos <= end
    else pos <= cs[0].newPos && cs[0].length > 0 && Ordered(cs[1..], cs[0].NewEnd(), end)
  }

  lemma {:induction false} OrderedBounds(cs: seq<Cover>, pos: nat, end: nat)
    requires Ordered(cs, pos, end)
    ensures pos <= end
    ensures forall i :: 0 <= i < |cs| ==> pos <= cs[i].newPos && cs[i].length > 0 && cs[i].NewEnd() <= end
  {
    if cs != [] {
      OrderedBounds(cs[1..], cs[0].NewEnd(), end);
      forall i | 0 <= i < |cs|
        ensures pos <= cs[i].newPos && cs[i].length > 0 && cs[i].NewEnd() <= end
      {
        if i > 0 {
          assert cs[i] == cs[1..][i - 1];
        }
      }
    }
  }
}
