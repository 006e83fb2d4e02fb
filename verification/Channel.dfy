/**
 The data of a channel: the bounded one in C (`c_channel_t`), a ring buffer of items or, for capacity
 0, one slot, and the one in C++ (`_CChannel_import`), a deque with a positive capacity or without.
 With capacity 0 both hand items over: a sender waits until its item is gone.
 */
module Channel {

  /** Items are pointers; null is never sent, and is what `accept` returns for nothing. */
  type Item = nat

  /** How many items fit, for a negative number any, and whether items are handed over. */
  datatype Shape = Shape(slots: int, handsOver: bool)

  /** Capacity 0 in C: one slot. */
  function RingShape(maxDataCount: nat): Shape {
    Shape(if maxDataCount == 0 then 1 else maxDataCount, maxDataCount == 0)
  }

  /** Capacity 0 in C++: any number of items, as for a negative capacity. */
  function DequeShape(maxDataCount: int): Shape {
    Shape(if maxDataCount <= 0 then -1 else maxDataCount, maxDataCount == 0)
  }

  /** What the channel holds, with everything that was ever pushed and accepted. */
  datatype Chan = Chan(shape: Shape, queue: seq<Item>, closed: bool, waiting: nat,
                       pushed: seq<Item>, accepted: seq<Item>)
  {
    predicate IsBounded() {
      shape.slots >= 0
    }

    predicate IsFull() {
      |queue| == shape.slots
    }

    /** A first-in-first-out queue within its bound. */
    predicate Valid() {
      shape.slots != 0 && (IsBounded() ==> |queue| <= shape.slots) && pushed == accepted + queue
    }
  }

  function Empty(shape: Shape): (c: Chan)
    requires shape.slots != 0
    ensures c.Valid()
  {
    Chan(shape, [], false, 0, [], [])
  }

  // --- one round under the lock ----------------------------------------------------------------

  /** How a round ends: the item is pushed; the call returns without pushing; the caller waits. */
  datatype SendOutcome = Pushed | NotPushed | SendWaits

  /** One round of the loop of `c_channel_send` and of `send`. */
  function SendRound(c: Chan, x: Item, isWait: bool): (r: (Chan, SendOutcome))
    requires c.Valid()
    ensures r.0.Valid()
  {
    if c.closed then (c, NotPushed)
    else if !c.IsFull() then
      (c.(queue := c.queue + [x], pushed := c.pushed + [x]), Pushed)
    else if !isWait then (c, NotPushed)
    else (c.(waiting := c.waiting + 1), SendWaits)
  }

  datatype AcceptOutcome = Got(item: Item) | Nothing | AcceptWaits

  /** One round of the loop of `c_channel_accept` and of `accept`. */
  function AcceptRound(c: Chan, isWait: bool): (r: (Chan, AcceptOutcome))
    requires c.Valid()
    ensures r.0.Valid()
  {
    if c.queue != [] then
      assert c.accepted + c.queue == (c.accepted + [c.queue[0]]) + c.queue[1..];
      (c.(queue := c.queue[1..], accepted := c.accepted + [c.queue[0]]), Got(c.queue[0]))
    else if c.closed || !isWait then (c, Nothing)
    else (c.(waiting := c.waiting + 1), AcceptWaits)
  }

  /** Sending is refused exactly when the channel is closed or, without waiting, full; and what is
      accepted is the oldest item, also from a closed channel. */
  lemma RoundOutcomes(c: Chan, x: Item, isWait: bool)
    requires c.Valid()
    ensures SendRound(c, x, isWait).1.NotPushed? <==> c.closed || (c.IsFull() && !isWait)
    ensures SendRound(c, x, isWait).1.SendWaits? <==> !c.closed && c.IsFull() && isWait
    ensures AcceptRound(c, isWait).1.Got? <==> |c.accepted| < |c.pushed|
    ensures AcceptRound(c, isWait).1.Got? ==> AcceptRound(c, isWait).1.item == c.pushed[|c.accepted|]
  {
  }

  // --- the ring ------------------------------------------------------------------------------------

  /** The items of a ring of `n` slots from `first` on. */
  ghost function RingItems(ring: seq<nat>, first: nat, count: nat): (s: seq<nat>)
    requires first < |ring| && count <= |ring|
    ensures |s| == count
  {
    seq(count, k requires 0 <= k < count => ring[if first + k < |ring| then first + k else first + k - |ring|])
  }

  class RingChannel {
    const maxDataCount: nat
    const dataList: array<nat>
    var curDataCount: nat
    var readDataIndex: nat
    var waitingCount: nat
    var isClosed: bool
    ghost var allPushed: seq<Item>
    ghost var allAccepted: seq<Item>

    ghost predicate Fits()
      reads this
    {
      && dataList.Length == (if maxDataCount > 0 then maxDataCount else 1)
      && readDataIndex < dataList.Length && curDataCount <= dataList.Length
      && (maxDataCount == 0 ==> readDataIndex == 0)
    }

    ghost predicate Valid()
      reads this, dataList
    {
      && Fits()
      && allPushed == allAccepted + Queue()
    }

    ghost function Queue(): (q: seq<Item>)
      reads this, dataList
      requires Fits()
      ensures |q| == curDataCount
    {
      RingItems(dataList[..], readDataIndex, curDataCount)
    }

    ghost function View(): (c: Chan)
      reads this, dataList
      requires Valid()
      ensures c.Valid()
    {
      Chan(RingShape(maxDataCount), Queue(), isClosed, waitingCount, allPushed, allAccepted)
    }

    constructor (maxDataCount: nat)
      ensures Valid() && fresh(dataList) && View() == Empty(RingShape(maxDataCount))
    {
      this.maxDataCount := maxDataCount;
      dataList := new nat[if maxDataCount > 0 then maxDataCount else 1](_ => 0);
      curDataCount, readDataIndex, waitingCount, isClosed := 0, 0, 0, false;
      allPushed, allAccepted := [], [];
    }

    /** `_dataList_push_back`. */
    method PushBack(x: Item)
      requires Valid() && curDataCount < dataList.Length
      modifies this`curDataCount, this`allPushed, dataList
      ensures Valid()
      ensures Queue() == old(Queue()) + [x] && allPushed == old(allPushed) + [x]
    {
      ghost var q, ring := Queue(), dataList[..];
      if maxDataCount == 0 {
        dataList[0] := x;
        curDataCount := 1;
      } else {
        var writeDataIndex := readDataIndex + curDataCount;
        writeDataIndex := writeDataIndex - (if writeDataIndex < maxDataCount then 0 else maxDataCount);
        dataList[writeDataIndex] := x;
        curDataCount := curDataCount + 1;
      }
      allPushed := allPushed + [x];
      PushInRing(ring, dataList[..], readDataIndex, curDataCount - 1, x);
      assert Queue() == q + [x];
    }

    /** `_dataList_pop_front`. */
    method PopFront() returns (x: Item)
      requires Valid() && curDataCount > 0
      modifies this`curDataCount, this`readDataIndex, this`allAccepted
      ensures Valid()
      ensures x == old(Queue())[0] && Queue() == old(Queue())[1..] && allAccepted == old(allAccepted) + [x]
    {
      ghost var q := Queue();
      assert RingItems(dataList[..], readDataIndex, curDataCount)[0] == dataList[readDataIndex] == q[0];
      PopFromRing(dataList[..], readDataIndex, curDataCount);
      if maxDataCount == 0 {
        x := dataList[0];
        curDataCount := 0;
      } else {
        x := dataList[readDataIndex];
        readDataIndex := readDataIndex + 1;
        readDataIndex := readDataIndex - (if readDataIndex < maxDataCount then 0 else maxDataCount);
        curDataCount := curDataCount - 1;
      }
      allAccepted := allAccepted + [x];
      assert Queue() == q[1..];
    }

    /** The part of `c_channel_send` under the lock, up to the wait. */
    method TrySend(x: Item, isWait: bool) returns (outcome: SendOutcome)
      requires Valid()
      modifies this, dataList
      ensures Valid() && (View(), outcome) == SendRound(old(View()), x, isWait)
    {
      if isClosed {
        return NotPushed;
      }
      if curDataCount < maxDataCount || (maxDataCount == 0 && curDataCount == 0) {
        PushBack(x);
        return Pushed;
      }
      if !isWait {
        return NotPushed;
      }
      waitingCount := waitingCount + 1;
      return SendWaits;
    }

    /** The part of `c_channel_accept` under the lock, up to the wait. */
    method TryAccept(isWait: bool) returns (outcome: AcceptOutcome)
      requires Valid()
      modifies this, dataList
      ensures Valid() && (View(), outcome) == AcceptRound(old(View()), isWait)
    {
      if curDataCount > 0 {
        var x := PopFront();
        return Got(x);
      }
      if isClosed || !isWait {
        return Nothing;
      }
      waitingCount := waitingCount + 1;
      return AcceptWaits;
    }

    method Close()
      requires Valid()
      modifies this`isClosed
      ensures Valid() && View() == old(View()).(closed := true)
    {
      isClosed := true;
    }
  }

  // --- the deque -----------------------------------------------------------------------------------

  class DequeChannel {
    const maxDataCount: int
    var dataList: seq<Item>
    var waitingCount: nat
    var isClosed: bool
    ghost var allPushed: seq<Item>
    ghost var allAccepted: seq<Item>

    ghost predicate Valid()
      reads this
    {
      View().Valid()
    }

    ghost function View(): Chan
      reads this
    {
      Chan(DequeShape(maxDataCount), dataList, isClosed, waitingCount, allPushed, allAccepted)
    }

    constructor (maxDataCount: int)
      ensures Valid() && View() == Empty(DequeShape(maxDataCount))
    {
      this.maxDataCount := maxDataCount;
      dataList, waitingCount, isClosed, allPushed, allAccepted := [], 0, false, [], [];
    }

    /** The part of `send` under the lock, up to the wait. */
    method TrySend(x: Item, isWait: bool) returns (outcome: SendOutcome)
      requires Valid()
      modifies this
      ensures Valid() && (View(), outcome) == SendRound(old(View()), x, isWait)
    {
      if isClosed {
        return NotPushed;
      }
      if maxDataCount <= 0 || |dataList| < maxDataCount {
        dataList := dataList + [x];
        allPushed := allPushed + [x];
        return Pushed;
      }
      if !isWait {
        return NotPushed;
      }
      waitingCount := waitingCount + 1;
      return SendWaits;
    }

    /** The part of `accept` under the lock, up to the wait. */
    method TryAccept(isWait: bool) returns (outcome: AcceptOutcome)
      requires Valid()
      modifies this
      ensures Valid() && (View(), outcome) == AcceptRound(old(View()), isWait)
    {
      if dataList != [] {
        var result := dataList[0];
        dataList := dataList[1..];
        allAccepted := allAccepted + [result];
        return Got(result);
      }
      if isClosed || !isWait {
        return Nothing;
      }
      waitingCount := waitingCount + 1;
      return AcceptWaits;
    }
  }

  lemma PushInRing(before: seq<nat>, after: seq<nat>, first: nat, count: nat, x: nat)
    requires first < |before| && count < |before| && |after| == |before|
    requires after == before[(if first + count < |before| then first + count else first + count - |before|) := x]
    ensures RingItems(after, first, count + 1) == RingItems(before, first, count) + [x]
  {
  }

  lemma PopFromRing(ring: seq<nat>, first: nat, count: nat)
    requires first < |ring| && 0 < count <= |ring|
    ensures RingItems(ring, if first + 1 < |ring| then first + 1 else 0, count - 1) == RingItems(ring, first, count)[1..]
  {
  }
}
