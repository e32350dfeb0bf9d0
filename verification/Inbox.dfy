/** The gossip inbox: bounded in bytes, oldest dropped first. */
module Inbox {
  import opened ByteStrings

  const MAX_INBOX_BYTES: nat := 8 * 1024 * 1024

  /** A received message with its sender and its own size. */
  datatype Item<T> = Item(from: Bytes, message: T, size: nat)

  function TotalSize<T>(q: seq<Item<T>>): nat {
    if q == [] then 0 else q[0].size + TotalSize(q[1..])
  }

  /** The longest run of most recent items that fits. */
  function Keep<T>(pushed: seq<Item<T>>): seq<Item<T>> {
    if TotalSize(pushed) <= MAX_INBOX_BYTES then pushed else Keep(pushed[1..])
  }

  lemma {:induction false} TotalSizeAppend<T>(q: seq<Item<T>>, x: Item<T>)
    ensures TotalSize(q + [x]) == TotalSize(q) + x.size
  {
    if q == [] {
      assert q + [x] == [x];
    } else {
      assert (q + [x])[1..] == q[1..] + [x];
      TotalSizeAppend(q[1..], x);
    }
  }

  /** **What survives.** `Keep` is a suffix that fits, and every longer suffix overflows: nothing is dropped that
      could have been kept, and nothing newer is dropped before something older. */
  lemma {:induction false} KeepIsLongestSuffix<T>(pushed: seq<Item<T>>) returns (k: nat)
    ensures k <= |pushed| && Keep(pushed) == pushed[k..] && TotalSize(pushed[k..]) <= MAX_INBOX_BYTES
    ensures forall j | 0 <= j < k :: TotalSize(pushed[j..]) > MAX_INBOX_BYTES
  {
    if TotalSize(pushed) <= MAX_INBOX_BYTES {
      k := 0;
      assert pushed[0..] == pushed;
    } else {
      var k' := KeepIsLongestSuffix(pushed[1..]);
      k := k' + 1;
      assert pushed[1..][k'..] == pushed[k..];
      forall j | 0 <= j < k ensures TotalSize(pushed[j..]) > MAX_INBOX_BYTES {
        if j == 0 { assert pushed[0..] == pushed; } else { assert pushed[j..] == pushed[1..][j - 1..]; }
      }
    }
  }

  /** Keeping as one goes keeps what keeping at the end would. */
  lemma {:induction false} KeepIncremental<T>(pushed: seq<Item<T>>, x: Item<T>)
    ensures Keep(Keep(pushed) + [x]) == Keep(pushed + [x])
    decreases |pushed|
  {
    if TotalSize(pushed) > MAX_INBOX_BYTES {
      KeepIncremental(pushed[1..], x);
      TotalSizeAppend(pushed, x);
      assert (pushed + [x])[1..] == pushed[1..] + [x];
    }
  }

  class InboxQueue<T(!new)> {
    var queue: seq<Item<T>>
    var bytes: nat
    /** Everything pushed since the last drain. */
    ghost var pushed: seq<Item<T>>

    ghost predicate Valid()
      reads this
    {
      queue == Keep(pushed) && bytes == TotalSize(queue)
    }

    constructor ()
      ensures Valid() && pushed == [] && queue == []
    {
      queue, bytes, pushed := [], 0, [];
    }

    /** Append, then drop the oldest until the rest fits. An empty queue never overflows, so the code's fallback
        for one is dead. */
    method Push(from: Bytes, message: T, size: nat)
      requires Valid()
      modifies this
      ensures Valid() && pushed == old(pushed) + [Item(from, message, size)]
      ensures bytes <= 8 * 1024 * 1024
    {
      var x := Item(from, message, size);
      TotalSizeAppend(queue, x);
      KeepIncremental(pushed, x);
      pushed := pushed + [x];
      queue := queue + [x];
      bytes := bytes + size;
      while bytes > MAX_INBOX_BYTES
        invariant bytes == TotalSize(queue) && Keep(queue) == Keep(pushed) && pushed == old(pushed) + [x]
        decreases |queue|
      {
        if queue == [] {
          assert false;
        } else {
          var evicted := queue[0].size;
          queue := queue[1..];
          bytes := bytes - evicted;
        }
      }
    }

    method Drain() returns (out: seq<(Bytes, T)>)
      requires Valid()
      modifies this
      ensures Valid() && pushed == [] && queue == [] && bytes == 0
      ensures |out| == |Keep(old(pushed))|
      ensures forall i | 0 <= i < |out| :: out[i] == (Keep(old(pushed))[i].from, Keep(old(pushed))[i].message)
    {
      out := [];
      var i := 0;
      while i < |queue|
        invariant 0 <= i <= |queue| && |out| == i && Valid() && pushed == old(pushed)
        invariant forall j | 0 <= j < i :: out[j] == (queue[j].from, queue[j].message)
      {
        out := out + [(queue[i].from, queue[i].message)];
        i := i + 1;
      }
      queue, bytes, pushed := [], 0, [];
    }
  }

  // ----- whole runs of pushes and drains -----

  datatype Op<T> = Push(item: Item<T>) | Drain

  /** The queue and the counter as the code keeps them, on values. */
  datatype State<T> = State(queue: seq<Item<T>>, bytes: nat)

  function Evict<T>(s: State<T>): State<T>
    requires s.bytes == TotalSize(s.queue)
    decreases |s.queue|
  {
    if s.bytes <= MAX_INBOX_BYTES then s else Evict(State(s.queue[1..], s.bytes - s.queue[0].size))
  }

  function Run<T>(ops: seq<Op<T>>): (s: State<T>)
    ensures s.bytes == TotalSize(s.queue)
  {
    if ops == [] then State([], 0) else
      var s := Run(ops[..|ops| - 1]);
      match ops[|ops| - 1]
      case Drain => State([], 0)
      case Push(x) =>
        TotalSizeAppend(s.queue, x);
        EvictKeeps(State(s.queue + [x], s.bytes + x.size));
        Evict(State(s.queue + [x], s.bytes + x.size))
  }

  lemma {:induction false} EvictKeeps<T>(s: State<T>)
    requires s.bytes == TotalSize(s.queue)
    ensures Evict(s) == State(Keep(s.queue), TotalSize(Keep(s.queue)))
    decreases |s.queue|
  {
    if s.bytes > MAX_INBOX_BYTES { EvictKeeps(State(s.queue[1..], s.bytes - s.queue[0].size)); }
  }

  /** The items pushed since the last drain. */
  function SinceDrain<T>(ops: seq<Op<T>>): seq<Item<T>> {
    if ops == [] then [] else
      match ops[|ops| - 1]
      case Drain => []
      case Push(x) => SinceDrain(ops[..|ops| - 1]) + [x]
  }

  lemma RunPush<T>(front: seq<Op<T>>, x: Item<T>)
    ensures Run(front + [Op.Push(x)]) == State(Keep(Run(front).queue + [x]), TotalSize(Keep(Run(front).queue + [x])))
  {
    var ops := front + [Op.Push(x)];
    assert ops[..|ops| - 1] == front;
    var q := Run(front).queue;
    TotalSizeAppend(q, x);
    EvictKeeps(State(q + [x], TotalSize(q) + x.size));
  }

  /** **Any history.** After any pushes and drains the inbox holds exactly the longest suffix of what came since the
      last drain that fits, and its counter is the size of just that. */
  lemma {:induction false} RunKeepsLongestSuffix<T>(ops: seq<Op<T>>)
    ensures Run(ops) == State(Keep(SinceDrain(ops)), TotalSize(Keep(SinceDrain(ops))))
    ensures Run(ops).bytes <= MAX_INBOX_BYTES
  {
    var k := KeepIsLongestSuffix(SinceDrain(ops));
    if ops != [] {
      var front, last := ops[..|ops| - 1], ops[|ops| - 1];
      assert ops == front + [last];
      if last.Push? {
        hide Run, Keep, TotalSize;
        RunKeepsLongestSuffix(front);
        RunPush(front, last.item);
        KeepIncremental(SinceDrain(front), last.item);
      }
    }
  }
}
