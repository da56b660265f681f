/** The fixed-capacity ring buffer of regular/src/ring.rs: `items` is a
    buffer of N slots, `head` and `tail` count the items ever removed and
    ever pushed, and the live items are the slots from head to tail taken
    modulo N.  Pushing into a full ring drops the oldest item first. */
module RingBuffer {
  import opened Base

  class Ring<T(0)> {
    var tail: nat
    var head: nat
    const items: array<T>
    const N: nat

    ghost predicate Valid()
      reads this
    {
      items.Length == N && head <= tail && tail - head <= N
    }

    /** The slot of the item i places after the oldest. */
    function Slot(i: nat): nat
      reads this
      requires N > 0
    {
      (head + i) % N
    }

    /** The items from the oldest to the newest. */
    ghost function Contents(): seq<T>
      reads this, items
      requires Valid()
    {
      if N == 0 then [] else seq(tail - head, i requires 0 <= i < tail - head reads this, items => items[Slot(i)])
    }

    /** Ring::new. */
    constructor (n: nat)
      ensures Valid() && N == n && Contents() == [] && fresh(items)
    {
      items := new T[n];
      N := n;
      head := 0;
      tail := 0;
    }

    /** Ring::len. */
    function Len(): (r: nat)
      reads this, items
      requires Valid()
      ensures r == |Contents()| && r <= N
    {
      tail - head
    }

    /** Ring::is_full. */
    function IsFull(): (r: bool)
      reads this, items
      requires Valid()
      ensures r <==> |Contents()| == N
    {
      Len() == N
    }

    /** Ring::drop_front: remove the oldest item if there is one. */
    method DropFront() returns (r: bool)
      requires Valid()
      modifies this
      ensures Valid()
      ensures r <==> |old(Contents())| > 0
      ensures Contents() == if r then old(Contents())[1..] else old(Contents())
    {
      if head < tail {
        head := head + 1;
        r := true;
      } else {
        r := false;
      }
    }

    /** Ring::push_back: a ring of capacity 0 ignores the push; a full ring
        loses its oldest item. */
    method PushBack(v: T)
      requires Valid()
      modifies this, items
      ensures Valid()
      ensures Contents() == Pushed(old(Contents()), N, v)
    {
      if N == 0 {
        return;
      }
      if IsFull() {
        var _ := DropFront();
      }
      Append(v);
    }

    /** The write into the free slot after the newest item. */
    method Append(v: T)
      requires Valid() && N > 0 && tail - head < N
      modifies this, items
      ensures Valid()
      ensures Contents() == old(Contents()) + [v]
    {
      forall i | 0 <= i < tail - head ensures Slot(i) != tail % N {
        ModDistinct(head + i, tail, N);
      }
      items[tail % N] := v;
      tail := tail + 1;
    }

    /** Ring::pop_front: take the oldest item. */
    method PopFront() returns (r: Option<T>)
      requires Valid()
      modifies this
      ensures Valid()
      ensures |old(Contents())| == 0 ==> r == None && Contents() == old(Contents())
      ensures |old(Contents())| > 0 ==> r == Some(old(Contents())[0]) && Contents() == old(Contents())[1..]
    {
      if head < tail {
        var v := items[head % N];
        head := head + 1;
        r := Some(v);
      } else {
        r := None;
      }
    }

    /** Ring::front. */
    function Front(): (r: Option<T>)
      reads this, items
      requires Valid()
      ensures r == if |Contents()| == 0 then None else Some(Contents()[0])
    {
      if head < tail then Some(items[head % N]) else None
    }

    /** Ring::get: the item `at` places after the oldest. */
    function Get(at: nat): (r: Option<T>)
      reads this, items
      requires Valid()
      ensures r == if at < |Contents()| then Some(Contents()[at]) else None
    {
      if at < Len() then Some(items[(head + at) % N]) else None
    }

    /** Ring::front_mut, used to overwrite the oldest item. */
    method SetFront(v: T) returns (found: bool)
      requires Valid()
      modifies items
      ensures Valid()
      ensures found <==> |old(Contents())| > 0
      ensures Contents() == if found then old(Contents())[0 := v] else old(Contents())
    {
      found := SetAt(0, v);
    }

    /** Ring::get_mut, used to overwrite the item `at` places after the
        oldest. */
    method SetAt(at: nat, v: T) returns (found: bool)
      requires Valid()
      modifies items
      ensures Valid()
      ensures found <==> at < |old(Contents())|
      ensures Contents() == if found then old(Contents())[at := v] else old(Contents())
    {
      if at < tail - head {
        forall i | 0 <= i < tail - head && i != at ensures Slot(i) != Slot(at) {
          if i < at { ModDistinct(head + i, head + at, N); } else { ModDistinct(head + at, head + i, N); }
        }
        items[(head + at) % N] := v;
        found := true;
      } else {
        found := false;
      }
    }

    /** Ring::iter driven to the end: the items from oldest to newest. */
    method Iterate() returns (out: seq<T>)
      requires Valid()
      ensures out == Contents()
    {
      out := [];
      var i := head;
      while i < tail
        invariant head <= i <= tail
        invariant out == Contents()[..i - head]
      {
        out := out + [items[i % N]];
        i := i + 1;
      }
    }
  }

  /** The contents after pushing v into a ring of capacity n holding c. */
  function Pushed<T>(c: seq<T>, n: nat, v: T): seq<T>
    requires |c| <= n
  {
    if n == 0 then c else if |c| == n then c[1..] + [v] else c + [v]
  }

  /** The last min(n, |vs|) elements of vs. */
  function LastN<T>(vs: seq<T>, n: nat): (r: seq<T>)
    ensures |r| <= n
  {
    if |vs| <= n then vs else vs[|vs| - n..]
  }

  function PushAll<T>(c: seq<T>, n: nat, vs: seq<T>): (r: seq<T>)
    requires |c| <= n
    ensures |r| <= n
    decreases |vs|
  {
    if |vs| == 0 then c else Pushed(PushAll(c, n, vs[..|vs| - 1]), n, vs[|vs| - 1])
  }

  /** A ring of capacity n that starts empty holds exactly the last n items
      pushed, oldest first. */
  lemma {:induction false} PushAllKeepsLast<T>(n: nat, vs: seq<T>)
    ensures PushAll([], n, vs) == (if n == 0 then [] else LastN(vs, n))
    decreases |vs|
  {
    if |vs| > 0 && n > 0 {
      var front := vs[..|vs| - 1];
      PushAllKeepsLast(n, front);
      if |vs| > n {
        assert LastN(front, n)[1..] + [vs[|vs| - 1]] == vs[|vs| - n..];
      } else {
        assert front + [vs[|vs| - 1]] == vs;
      }
    } else if |vs| > 0 {
      PushAllKeepsLast(n, vs[..|vs| - 1]);
    }
  }
}
