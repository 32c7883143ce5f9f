/** libusbmuxd's growable array of slots, each holding one `void *` or nothing. */
module Collections {

  /** The first slot that holds x; the number of slots when none does. */
  function IndexOf<T(==)>(slots: seq<T>, x: T): (k: nat)
    ensures k <= |slots|
    ensures k < |slots| ==> slots[k] == x
    ensures forall i | 0 <= i < k :: slots[i] != x
  {
    if slots == [] || slots[0] == x then 0 else 1 + IndexOf(slots[1..], x)
  }

  function Filled<T>(n: nat, x: T): (s: seq<T>)
    ensures |s| == n && forall i | 0 <= i < n :: s[i] == x
  {
    seq(n, _ => x)
  }

  /** The slots after an addition: the first free one is taken, or their number doubles. */
  function Put<T(==)>(slots: seq<T>, none: T, x: T): seq<T> {
    var k := IndexOf(slots, none);
    if k < |slots| then slots[k := x] else slots + [x] + Filled(if |slots| == 0 then 0 else |slots| - 1, none)
  }

  /** Where an addition goes: to the first free slot, or behind all of them, with free slots up to twice their
      number. */
  lemma PutPlace<T>(slots: seq<T>, none: T, x: T)
    requires slots != []
    ensures var after, n := Put(slots, none, x), |slots|;
      if none in slots then
        exists k :: 0 <= k < n && slots[k] == none && none !in slots[..k] && after == slots[k := x]
      else
        && |after| == 2 * n && after[..n] == slots && after[n] == x
        && forall i | n < i < 2 * n :: after[i] == none
  {
    var k := IndexOf(slots, none);
    if none in slots {
      assert slots[k] == none && none !in slots[..k];
    }
  }

  /** What the slots hold. */
  function Bag<T(==)>(slots: seq<T>, none: T): multiset<T>
    decreases |slots|
  {
    if slots == [] then multiset{} else One(slots[0], none) + Bag(slots[1..], none)
  }

  function One<T(==)>(x: T, none: T): multiset<T> {
    if x == none then multiset{} else multiset{x}
  }

  lemma {:induction false} BagJoin<T>(a: seq<T>, b: seq<T>, none: T)
    ensures Bag(a + b, none) == Bag(a, none) + Bag(b, none)
    decreases |a|
  {
    if a == [] {
      assert a + b == b;
    } else {
      assert (a + b)[1..] == a[1..] + b;
      BagJoin(a[1..], b, none);
    }
  }

  lemma BagAround<T>(a: seq<T>, x: T, b: seq<T>, none: T)
    ensures Bag(a + [x] + b, none) == Bag(a, none) + One(x, none) + Bag(b, none)
  {
    BagJoin(a, [x], none);
    BagJoin(a + [x], b, none);
    assert [x][1..] == [];
  }

  lemma BagUpdate<T>(slots: seq<T>, none: T, k: nat, x: T)
    requires k < |slots|
    ensures Bag(slots[k := x], none) + One(slots[k], none) == Bag(slots, none) + One(x, none)
  {
    var a, b := slots[..k], slots[k + 1..];
    assert slots == a + [slots[k]] + b && slots[k := x] == a + [x] + b;
    BagAround(a, slots[k], b, none);
    BagAround(a, x, b, none);
  }

  lemma {:induction false} BagFilled<T>(n: nat, none: T)
    ensures Bag(Filled(n, none), none) == multiset{}
  {
    if n > 0 {
      assert Filled(n, none)[1..] == Filled(n - 1, none);
      BagFilled(n - 1, none);
    }
  }

  /** Adding adds just that element to the bag, wherever it is put. */
  lemma PutAdds<T>(slots: seq<T>, none: T, x: T)
    ensures Bag(Put(slots, none, x), none) == Bag(slots, none) + One(x, none)
  {
    var k := IndexOf(slots, none);
    if k < |slots| {
      BagUpdate(slots, none, k, x);
    } else {
      var n := if |slots| == 0 then 0 else |slots| - 1;
      BagFilled(n, none);
      BagJoin(slots, [x], none);
      BagJoin(slots + [x], Filled(n, none), none);
      assert Bag([x], none) == One(x, none) by {
        assert [x][1..] == [];
      }
    }
  }

  /** Emptying a slot takes just what was in it out of the bag. */
  lemma TakeRemoves<T>(slots: seq<T>, none: T, k: nat)
    requires k < |slots| && slots[k] != none
    ensures slots[k] in Bag(slots, none)
    ensures Bag(slots[k := none], none) == Bag(slots, none) - multiset{slots[k]}
  {
    BagUpdate(slots, none, k, none);
    assert Bag(slots, none) == Bag(slots[k := none], none) + multiset{slots[k]};
  }

  /** An element is in the bag when some slot holds it. */
  lemma {:induction false} InBag<T>(slots: seq<T>, none: T, x: T)
    ensures x in Bag(slots, none) <==> x in slots && x != none
    decreases |slots|
  {
    if slots != [] {
      InBag(slots[1..], none, x);
      assert slots == [slots[0]] + slots[1..];
    }
  }

  class Collection<T(==)> {
    const none: T
    var list: array<T>
    var capacity: nat

    ghost predicate Valid()
      reads this
    {
      capacity == list.Length > 0
    }

    /** `collection_init`: one free slot */
    constructor (none: T)
      ensures Valid() && fresh(list) && this.none == none && list[..] == [none]
    {
      this.none := none;
      list := new T[1][none];
      capacity := 1;
    }

    /** `collection_add` */
    method Add(element: T)
      requires Valid()
      modifies this, list
      ensures Valid() && (list == old(list) || fresh(list))
      ensures list[..] == Put(old(list[..]), none, element)
    {
      ghost var was := list[..];
      var i := 0;
      while i < capacity
        invariant i <= capacity && list[..] == was && Valid() && list == old(list)
        invariant i <= IndexOf(was, none)
      {
        if list[i] == none {
          list[i] := element;
          return;
        }
        i := i + 1;
      }
      var n := capacity;
      var bigger := new T[n * 2](j requires 0 <= j < n * 2 reads this, list =>
        if j < n && j < list.Length then list[j] else none);
      bigger[n] := element;
      list := bigger;
      capacity := n * 2;
      assert list[..] == was + [element] + Filled(n - 1, none);
    }

    /** `collection_remove`: empties the first slot that holds the element; without one, only an error is written. */
    method Remove(element: T) returns (found: bool)
      requires Valid()
      modifies list
      ensures var was := old(list[..]); var k := IndexOf(was, element);
        && found == (k < |was|)
        && list[..] == if found then was[k := none] else was
    {
      ghost var was := list[..];
      var i := 0;
      while i < capacity
        invariant i <= capacity && list[..] == was
        invariant i <= IndexOf(was, element)
      {
        if list[i] == element {
          list[i] := none;
          return true;
        }
        i := i + 1;
      }
      found := false;
    }

    /** `collection_count` */
    method Count() returns (cnt: nat)
      requires Valid()
      ensures cnt == |Bag(list[..], none)|
    {
      cnt := 0;
      var i := 0;
      assert list[..0] == [];
      while i < capacity
        invariant i <= capacity && cnt == |Bag(list[..i], none)|
      {
        assert list[..i + 1] == list[..i] + [list[i]];
        BagJoin(list[..i], [list[i]], none);
        assert [list[i]][1..] == [];
        if list[i] != none {
          cnt := cnt + 1;
        }
        i := i + 1;
      }
      assert list[..i] == list[..];
    }
  }
}
