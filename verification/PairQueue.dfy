/** A queue of (key, item) pairs laid flat in an array, and its in-place sort. */
module PairQueue {

  const CAPACITY := 64
  const LIMIT := 0x1_0000_0000_0000_0000

  type U32 = x: int | 0 <= x < 0x1_0000_0000 witness 0
  type U64 = x: int | 0 <= x < LIMIT witness 0

  /** An unsigned number less one, which wraps at zero. */
  function Pred(x: U64): U64 { if x == 0 then LIMIT - 1 else x - 1 }

  datatype Pair = Pair(key: U32, item: U32)

  /** The pairs in a flat sequence. */
  function Pairs(flat: seq<U32>): (r: seq<Pair>)
    requires |flat| % 2 == 0
    ensures |r| == |flat| / 2
  {
    seq(|flat| / 2, i requires 0 <= i < |flat| / 2 => Pair(flat[2 * i], flat[2 * i + 1]))
  }

  lemma PairAt(flat: seq<U32>, k: nat)
    requires |flat| % 2 == 0 && 2 * k + 1 < |flat|
    ensures Pairs(flat)[k] == Pair(flat[2 * k], flat[2 * k + 1])
  {
  }

  predicate Sorted(s: seq<Pair>) { forall i, j :: 0 <= i < j < |s| ==> s[i].key <= s[j].key }

  /** The pairs with a given key, in order. */
  function WithKey(s: seq<Pair>, key: U32): seq<Pair> {
    if s == [] then [] else (if s[0].key == key then [s[0]] else []) + WithKey(s[1..], key)
  }

  /** The same pairs, those with equal keys in the same order. */
  ghost predicate StablePermutation(s: seq<Pair>, t: seq<Pair>) {
    forall key :: WithKey(s, key) == WithKey(t, key)
  }

  // ----- what a swap does -----

  function Swapped(s: seq<Pair>, p: nat): seq<Pair>
    requires p + 1 < |s|
  {
    s[p := s[p + 1]][p + 1 := s[p]]
  }

  lemma WithKeyUnfolds(s: seq<Pair>, key: U32)
    requires s != []
    ensures WithKey(s, key) == (if s[0].key == key then [s[0]] else []) + WithKey(s[1..], key)
  {
  }

  lemma WithKeyOfNone(key: U32)
    ensures WithKey([], key) == []
  {
  }

  lemma {:induction false} WithKeyConcat(s: seq<Pair>, t: seq<Pair>, key: U32)
    ensures WithKey(s + t, key) == WithKey(s, key) + WithKey(t, key)
  {
    hide WithKey;
    if s == [] {
      WithKeyOfNone(key);
      assert s + t == t && [] + WithKey(t, key) == WithKey(t, key);
    } else {
      WithKeyUnfolds(s, key);
      WithKeyUnfolds(s + t, key);
      assert (s + t)[1..] == s[1..] + t;
      WithKeyConcat(s[1..], t, key);
      var here := if s[0].key == key then [s[0]] else [];
      assert here + (WithKey(s[1..], key) + WithKey(t, key)) == (here + WithKey(s[1..], key)) + WithKey(t, key);
    }
  }

  /** Swapping neighbours with different keys is a stable permutation. */
  lemma SwapIsStable(s: seq<Pair>, p: nat)
    requires p + 1 < |s| && s[p].key != s[p + 1].key
    ensures StablePermutation(s, Swapped(s, p))
  {
    var a, x, y, b := s[..p], s[p], s[p + 1], s[p + 2..];
    assert s == a + ([x] + ([y] + b)) && Swapped(s, p) == a + ([y] + ([x] + b));
    forall key ensures WithKey(s, key) == WithKey(Swapped(s, p), key) {
      WithKeyConcat(a, [x] + ([y] + b), key);
      WithKeyConcat(a, [y] + ([x] + b), key);
      assert ([x] + ([y] + b))[1..] == [y] + b && ([y] + b)[1..] == b;
      assert ([y] + ([x] + b))[1..] == [x] + b && ([x] + b)[1..] == b;
    }
  }

  /** A sorted stable permutation is unique: stability and order leave no choice. */
  lemma {:induction false} StableSortIsUnique(s: seq<Pair>, t: seq<Pair>)
    requires Sorted(s) && Sorted(t) && StablePermutation(s, t)
    ensures s == t
    decreases |s|
  {
    assert t != [] ==> WithKey(s, t[0].key) == WithKey(t, t[0].key) && WithKey(t, t[0].key) != [];
    if s != [] {
      var key := s[0].key;
      assert WithKey(s, key) == WithKey(t, key);
      FirstIsLeast(s, t);
      FirstIsLeast(t, s);
      assert WithKey(s, key)[0] == s[0] && WithKey(t, key)[0] == t[0];
      forall k ensures WithKey(s[1..], k) == WithKey(t[1..], k) {
        var d := if k == key then 1 else 0;
        assert WithKey(s[1..], k) == WithKey(s, k)[d..] && WithKey(t[1..], k) == WithKey(t, k)[d..];
      }
      StableSortIsUnique(s[1..], t[1..]);
    }
  }

  /** The first key of `s` occurs in `t`, so it is at least the first key of `t`. */
  lemma FirstIsLeast(s: seq<Pair>, t: seq<Pair>)
    requires s != [] && Sorted(t) && StablePermutation(s, t)
    ensures t != [] && t[0].key <= s[0].key
  {
    assert WithKey(s, s[0].key) == WithKey(t, s[0].key);
    WithKeyOccurs(t, s[0].key);
  }

  lemma {:induction false} WithKeyOccurs(t: seq<Pair>, key: U32)
    requires WithKey(t, key) != []
    ensures exists i :: 0 <= i < |t| && t[i].key == key
  {
    if t[0].key != key {
      WithKeyOccurs(t[1..], key);
      var i :| 0 <= i < |t[1..]| && t[1..][i].key == key;
      assert t[i + 1].key == key;
    }
  }

  /** A stable permutation keeps every pair as often as it was. */
  lemma {:induction false} StableKeepsCounts(s: seq<Pair>, t: seq<Pair>)
    requires StablePermutation(s, t)
    ensures multiset(s) == multiset(t)
  {
    forall x: Pair ensures multiset(s)[x] == multiset(t)[x] {
      CountsWithKey(s, x);
      CountsWithKey(t, x);
      assert WithKey(s, x.key) == WithKey(t, x.key);
    }
  }

  lemma {:induction false} CountsWithKey(s: seq<Pair>, x: Pair)
    ensures multiset(s)[x] == multiset(WithKey(s, x.key))[x]
  {
    if s != [] {
      assert s == [s[0]] + s[1..];
      CountsWithKey(s[1..], x);
    }
  }

  // ----- the passes of the sort -----

  /** After `done` passes the last `done` pairs are in place; the pair at `p` is the
      greatest of those before it, and all the way down once `p` is past the unsorted part. */
  ghost predicate Bubbled(s: seq<Pair>, done: nat, p: nat) {
    && (forall i, j :: 0 <= i < j < |s| && |s| - done <= j ==> s[i].key <= s[j].key)
    && (forall i :: 0 <= i < p < |s| ==> s[i].key <= s[p].key)
    && (forall i, j :: 0 <= i < j < |s| && |s| - done - 1 <= j <= p ==> s[i].key <= s[j].key)
  }

  /** One comparison of the inner loop. */
  function Compared(s: seq<Pair>, p: nat): seq<Pair>
    requires p + 1 < |s|
  {
    if s[p + 1].key < s[p].key then Swapped(s, p) else s
  }

  /** Exchanging two neighbouring pairs cell by cell. */
  lemma SwappedCells(flat: seq<U32>, p: nat)
    requires |flat| % 2 == 0 && 2 * p + 3 < |flat|
    ensures var a := 2 * p;
      Pairs(flat[a := flat[a + 2]][a + 2 := flat[a]][a + 1 := flat[a + 3]][a + 3 := flat[a + 1]])
      == Swapped(Pairs(flat), p)
  {
  }

  lemma ComparedBubbles(s: seq<Pair>, done: nat, p: nat)
    requires p + 1 < |s| && done < |s| && Bubbled(s, done, p)
    ensures Bubbled(Compared(s, p), done, p + 1) && StablePermutation(s, Compared(s, p))
  {
    if s[p + 1].key < s[p].key {
      SwapIsStable(s, p);
    }
  }

  lemma PassDone(s: seq<Pair>, done: nat)
    requires done < |s| && Bubbled(s, done, |s| - 1)
    ensures Bubbled(s, done + 1, 0)
  {
  }

  lemma SortedWhenDone(s: seq<Pair>)
    ensures Bubbled(s, 0, 0) && (Bubbled(s, |s|, 0) ==> Sorted(s))
  {
  }

  lemma StableTransitive(s: seq<Pair>, t: seq<Pair>, u: seq<Pair>)
    requires StablePermutation(s, t) && StablePermutation(t, u)
    ensures StablePermutation(s, u)
  {
    forall key ensures WithKey(s, key) == WithKey(u, key) {
      assert WithKey(s, key) == WithKey(t, key) && WithKey(t, key) == WithKey(u, key);
    }
  }

  lemma StableReflexive(s: seq<Pair>)
    ensures StablePermutation(s, s)
  {
  }

  /** Exchanging cells inside a part of an array exchanges them in the part. */
  lemma SliceOfSwapped(cells: seq<U32>, first: nat, size: nat, a: nat)
    requires first + size <= |cells| && a + 3 < size
    ensures var j, flat := first + a, cells[first..first + size];
      cells[j := cells[j + 2]][j + 2 := cells[j]][j + 1 := cells[j + 3]][j + 3 := cells[j + 1]][first..first + size]
      == flat[a := flat[a + 2]][a + 2 := flat[a]][a + 1 := flat[a + 3]][a + 3 := flat[a + 1]]
  {
  }

  // ----- the queue -----

  class Queue {
    const data: array<U32>
    var first: U64
    var last: U64
    var size: U64

    /** The items lie between `first` and `last`; an empty queue has `last` just before
        `first`, which for `first` 0 is the greatest 64-bit number. */
    predicate Valid()
      reads this
    {
      data.Length == CAPACITY && first + size <= CAPACITY && last == Pred(first + size)
    }

    function Items(): seq<U32>
      requires Valid()
      reads this, data
    {
      data[first..first + size]
    }

    /** queue_init */
    constructor ()
      ensures Valid() && size == 0 && first == 0 && fresh(data)
    {
      data := new U32[CAPACITY](_ => 0);
      first, last, size := 0, LIMIT - 1, 0;
    }

    /** A full queue ignores the item; otherwise the caller sees to it that there is a cell left. */
    method Enqueue(value: U32)
      requires Valid() && (size == CAPACITY || first + size < CAPACITY)
      modifies this`last, this`size, data
      ensures Valid() && first == old(first)
      ensures Items() == if old(size) == CAPACITY then old(Items()) else old(Items()) + [value]
    {
      if size != CAPACITY {
        last := (last + 1) % LIMIT;
        data[last] := value;
        size := size + 1;
      }
    }

    /** Drops the first `n` items; asked for more than there are, the size wraps around and
        the queue is one no longer. An empty queue stays as it is. */
    method Dequeue(n: U32)
      requires Valid()
      modifies this`first, this`size
      ensures first == old(first) + if old(size) == 0 then 0 else n
      ensures size == if old(size) == 0 then 0 else (old(size) - n) % LIMIT
      ensures Valid() <==> old(size) == 0 || n <= old(size)
      ensures Valid() ==> Items() == if old(size) == 0 then [] else old(Items())[n..]
    {
      if size != 0 && n > 0 {
        first := first + n;
        size := (size - n) % LIMIT;
      }
    }

    method Swap(i: U32, j: U32)
      requires i < data.Length && j < data.Length
      modifies data
      ensures data[..] == old(data[..])[i := old(data[j])][j := old(data[i])]
    {
      var temp := data[i];
      data[i] := data[j];
      data[j] := temp;
    }

    /** The cells outside the queue. */
    ghost predicate OutsideKept(was: seq<U32>)
      requires Valid() && |was| == CAPACITY
      reads this, data
    {
      forall k :: 0 <= k < CAPACITY && !(first <= k < first + size) ==> data[k] == was[k]
    }

    /** Both cells of the pairs at `j` and `j + 2`. */
    method SwapPairs(j: U32, ghost a: nat)
      requires Valid() && j == first + a && a + 3 < size
      modifies data
      ensures var flat := old(Items());
        Items() == flat[a := flat[a + 2]][a + 2 := flat[a]][a + 1 := flat[a + 3]][a + 3 := flat[a + 1]]
      ensures OutsideKept(old(data[..]))
    {
      ghost var before := data[..];
      Swap(j, j + 2);
      Swap(j + 1, j + 3);
      ghost var cells := before[j := before[j + 2]][j + 2 := before[j]][j + 1 := before[j + 3]][j + 3 := before[j + 1]];
      assert data[..] == cells;
      SliceOfSwapped(before, first, size, a);
      assert Items() == cells[first..first + size];
      forall k | 0 <= k < CAPACITY && !(first <= k < first + size) ensures data[k] == before[k] {
        assert data[k] == cells[k];
      }
    }

    /** One comparison of the sort, of the pairs at `j` and `j + 2`. */
    method Compare(j: U32, ghost p: nat)
      requires Valid() && size % 2 == 0 && j == first + 2 * p && j + 3 < first + size
      modifies data
      ensures Pairs(Items()) == Compared(old(Pairs(Items())), p)
      ensures OutsideKept(old(data[..]))
    {
      ghost var flat, a := Items(), 2 * p;
      PairAt(flat, p);
      PairAt(flat, p + 1);
      SwappedCells(flat, p);
      hide Swapped, Pairs;
      assert flat[a] == data[j] && flat[a + 2] == data[j + 2];
      if data[j + 2] < data[j] {
        SwapPairs(j, a);
      }
    }

    /** The inner loop of the sort. */
    method Pass(ghost done: nat)
      requires Valid() && size % 2 == 0 && done < size / 2 && Bubbled(Pairs(Items()), done, 0)
      modifies data
      ensures Bubbled(Pairs(Items()), done + 1, 0) && StablePermutation(old(Pairs(Items())), Pairs(Items()))
      ensures OutsideKept(old(data[..]))
    {
      hide Pairs, Bubbled, StablePermutation, Compared;
      ghost var was, p := Pairs(Items()), 0;
      var j: U32 := first;
      StableReflexive(was);
      while j < Pred(last)
        invariant p < size / 2 && j == first + 2 * p && |Pairs(Items())| == size / 2
        invariant Bubbled(Pairs(Items()), done, p) && StablePermutation(was, Pairs(Items()))
        invariant OutsideKept(old(data[..]))
      {
        ghost var now := Pairs(Items());
        ComparedBubbles(now, done, p);
        StableTransitive(was, now, Compared(now, p));
        Compare(j, p);
        j := j + 2;
        p := p + 1;
      }
      PassDone(Pairs(Items()), done);
    }

    /** sort: the pairs end up in nondecreasing order of their keys, those with equal keys
        in their old order, and nothing else in the array changes. */
    method Sort()
      requires Valid() && size % 2 == 0
      modifies data
      ensures Sorted(Pairs(Items())) && StablePermutation(old(Pairs(Items())), Pairs(Items()))
      ensures OutsideKept(old(data[..]))
    {
      hide Bubbled, StablePermutation, Sorted, WithKey;
      ghost var was := Pairs(Items());
      SortedWhenDone(was);
      StableReflexive(was);
      var i: U32 := 0;
      while i < size / 2
        invariant 0 <= i <= size / 2
        invariant Bubbled(Pairs(Items()), i, 0) && StablePermutation(was, Pairs(Items()))
        invariant OutsideKept(old(data[..]))
      {
        ghost var now := Pairs(Items());
        Pass(i);
        StableTransitive(was, now, Pairs(Items()));
        i := i + 1;
      }
      SortedWhenDone(Pairs(Items()));
    }

    /** find: the place of the first pair with the item, which it looks for in all pairs but
        the last. An empty queue is the caller's mistake. */
    method Find(item: U32) returns (index: U32)
      requires Valid() && size % 2 == 0 && size > 0
      ensures var pairs := Pairs(Items());
        if index == 0xffff_fffe then forall k :: 0 <= k < |pairs| - 1 ==> pairs[k].item != item
        else
          var k := (index - first) / 2;
          && 0 <= k < |pairs| - 1 && index == first + 2 * k && pairs[k].item == item
          && forall i :: 0 <= i < k ==> pairs[i].item != item
    {
      hide Pairs;
      var i: U32 := first + 1;
      ghost var k := 0;
      index := 0xffff_ffff;
      while i < last
        invariant i == first + 2 * k + 1 && k < size / 2
        invariant index == 0xffff_ffff
        invariant forall l :: 0 <= l < k ==> Pairs(Items())[l].item != item
      {
        PairAt(Items(), k);
        if data[i] == item {
          index := i;
          break;
        }
        i := i + 2;
        k := k + 1;
      }
      index := index - 1;
    }
  }

  /** A queue of two pairs in which the search does not find the item of the second. */
  method LastPairIsMissed() returns (queue: Queue, index: U32)
    ensures queue.Valid() && queue.Items() == [5, 1, 6, 2] && Pairs([5, 1, 6, 2]) == [Pair(5, 1), Pair(6, 2)]
    ensures index == 0xffff_fffe
  {
    hide Pairs;
    FlatPairs();
    queue := new Queue();
    queue.Enqueue(5);
    queue.Enqueue(1);
    queue.Enqueue(6);
    queue.Enqueue(2);
    assert queue.Items() == [5, 1, 6, 2];
    index := queue.Find(2);
  }

  lemma FlatPairs()
    ensures Pairs([5, 1, 6, 2]) == [Pair(5, 1), Pair(6, 2)]
  {
  }
}
