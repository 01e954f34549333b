/**
 * The list-backed binary heap of the program (class `Heap`), over any
 * element type ordered by an integer `key` (the program compares
 * `Node.GetValue()`). Slot i has children 2i+1 and 2i+2 and parent (i-1)/2.
 */
module Heap {
  import opened Wrappers

  /** Slot c is a child of slot p. */
  predicate ChildOf(p: int, c: int) {
    c == 2 * p + 1 || c == 2 * p + 2
  }

  /** Heap order: no slot's key is smaller than its parent's. */
  ghost predicate IsHeap<T>(s: seq<T>, key: T -> int) {
    forall p, c :: 0 <= p < c < |s| && ChildOf(p, c) ==> key(s[p]) <= key(s[c])
  }

  /** `Swap(list, a, b)`. */
  function Swap<T>(s: seq<T>, a: int, b: int): (r: seq<T>)
    requires 0 <= a < |s| && 0 <= b < |s|
    ensures |r| == |s| && r[a] == s[b] && r[b] == s[a]
    ensures forall k :: 0 <= k < |s| && k != a && k != b ==> r[k] == s[k]
    ensures multiset(r) == multiset(s)
  {
    s[a := s[b]][b := s[a]]
  }

  function Abs(n: int): nat {
    if n < 0 then -n else n
  }

  /** The sum of key(s[k]) * k over all slots. Every swap `Update` makes moves
      the larger key to the higher slot, so this strictly grows. */
  ghost function Weight<T>(s: seq<T>, key: T -> int): int {
    if |s| == 0 then 0 else Weight(s[..|s| - 1], key) + key(s[|s| - 1]) * (|s| - 1)
  }

  /** The sum of |key(s[k])|, which no rearrangement changes. */
  ghost function AbsSum<T>(s: seq<T>, key: T -> int): nat {
    if |s| == 0 then 0 else AbsSum(s[..|s| - 1], key) + Abs(key(s[|s| - 1]))
  }

  lemma {:induction false} WeightSet<T>(s: seq<T>, k: nat, v: T, key: T -> int)
    requires k < |s|
    ensures Weight(s[k := v], key) == Weight(s, key) + (key(v) - key(s[k])) * k
    ensures AbsSum(s[k := v], key) == AbsSum(s, key) - Abs(key(s[k])) + Abs(key(v))
    decreases |s|
  {
    var n := |s| - 1;
    if k < n {
      assert s[k := v][..n] == s[..n][k := v];
      WeightSet(s[..n], k, v, key);
    } else {
      assert s[k := v][..n] == s[..n];
    }
  }

  lemma {:induction false} WeightBounded<T>(s: seq<T>, key: T -> int)
    ensures Weight(s, key) <= |s| * AbsSum(s, key)
    decreases |s|
  {
    if |s| > 0 {
      var n := |s| - 1;
      WeightBounded(s[..n], key);
      var kl := key(s[n]);
      assert kl * n <= Abs(kl) * n;
      assert n * AbsSum(s[..n], key) + Abs(kl) * n == n * AbsSum(s, key);
      assert n * AbsSum(s, key) <= |s| * AbsSum(s, key);
    }
  }

  /** Termination measure of `Update`: a bound on `Weight` that no swap changes,
      minus `Weight`. */
  ghost function Measure<T>(s: seq<T>, key: T -> int): nat {
    WeightBounded(s, key);
    |s| * AbsSum(s, key) - Weight(s, key)
  }

  lemma MulAtLeastOne(x: int, y: int)
    requires x >= 1 && y >= 1
    ensures x * y >= 1
  {
    assert x * y == x + x * (y - 1);
    assert x * (y - 1) >= 0;
  }

  lemma {:induction false} SwapWeight<T>(s: seq<T>, a: int, b: int, key: T -> int)
    requires 0 <= a < |s| && 0 <= b < |s| && a != b
    ensures Weight(Swap(s, a, b), key) == Weight(s, key) + (key(s[a]) - key(s[b])) * (b - a)
    ensures AbsSum(Swap(s, a, b), key) == AbsSum(s, key)
  {
    var ka, kb := key(s[a]), key(s[b]);
    var t := s[a := s[b]];
    WeightSet(s, a, s[b], key);
    assert t[b] == s[b];
    WeightSet(t, b, s[a], key);
    assert Swap(s, a, b) == t[b := s[a]];
    assert (kb - ka) * a + (ka - kb) * b == (ka - kb) * (b - a);
  }

  lemma SwapRaisesWeight<T>(s: seq<T>, a: int, b: int, key: T -> int)
    requires 0 <= a < b < |s| && key(s[a]) > key(s[b])
    ensures Swap(s, a, b) == Swap(s, b, a)
    ensures Measure(Swap(s, a, b), key) < Measure(s, key)
  {
    SwapWeight(s, a, b, key);
    MulAtLeastOne(key(s[a]) - key(s[b]), b - a);
  }

  /** The child `Update` swaps slot i with (-1 for none): a child whose key
      is below the slot's, the smaller of the two when both are, the right one
      on a tie. */
  function DownChild<T>(s: seq<T>, i: nat, key: T -> int): (c: int)
    requires i < |s|
    ensures c == -1 || c == 2 * i + 1 || c == 2 * i + 2
    ensures c != -1 ==> c < |s| && key(s[c]) < key(s[i])
    ensures c != -1 ==> forall k :: 2 * i + 1 <= k <= 2 * i + 2 && k < |s| ==> key(s[c]) <= key(s[k])
    ensures c == -1 <==> forall k :: 2 * i + 1 <= k <= 2 * i + 2 && k < |s| ==> key(s[i]) <= key(s[k])
  {
    var l := 2 * i + 1 < |s| && key(s[i]) > key(s[2 * i + 1]);
    var r := 2 * i + 2 < |s| && key(s[i]) > key(s[2 * i + 2]);
    if l && r then (if key(s[2 * i + 1]) < key(s[2 * i + 2]) then 2 * i + 1 else 2 * i + 2)
    else if l then 2 * i + 1
    else if r then 2 * i + 2
    else -1
  }

  /** `Update(index)`: one sift-down step at the slot (recursing into the
      child), then one sift-up step at the same slot (recursing into the
      parent). An index out of range changes nothing. The program's guard
      `(index - 1) / 2 >= 0 && index != 0` is just `index != 0` here. */
  function Update<T>(s: seq<T>, i: int, key: T -> int): (r: seq<T>)
    ensures |r| == |s|
    ensures multiset(r) == multiset(s)
    ensures Measure(r, key) <= Measure(s, key)
    ensures |s| > 0 ==> key(r[0]) <= key(s[0])
    decreases Measure(s, key)
  {
    if 0 <= i < |s| then
      var c := DownChild(s, i, key);
      var down :=
        if c == -1 then s
        else (SwapRaisesWeight(s, i, c, key); Update(Swap(s, i, c), c, key));
      if i != 0 && key(down[i]) < key(down[(i - 1) / 2]) then
        SwapRaisesWeight(down, (i - 1) / 2, i, key);
        Update(Swap(down, i, (i - 1) / 2), (i - 1) / 2, key)
      else
        down
    else
      s
  }

  /** Heap order holds everywhere except possibly between slot i and its
      parent, and i's parent is no larger than i's children: the state
      `Insert` leaves before sifting the new last slot up. */
  ghost predicate UpState<T>(s: seq<T>, i: int, key: T -> int) {
    && 0 <= i < |s|
    && (forall p, c :: 0 <= p < c < |s| && ChildOf(p, c) && c != i ==> key(s[p]) <= key(s[c]))
    && (i > 0 ==> forall c :: 0 <= c < |s| && ChildOf(i, c) ==> key(s[(i - 1) / 2]) <= key(s[c]))
  }

  /** Heap order holds everywhere except possibly between slot i and its
      children, and i's parent is no larger than i's children: the state of
      a heap whose root was replaced. */
  ghost predicate DownState<T>(s: seq<T>, i: int, key: T -> int) {
    && 0 <= i < |s|
    && (forall p, c :: 0 <= p < c < |s| && ChildOf(p, c) && p != i ==> key(s[p]) <= key(s[c]))
    && (i > 0 ==> forall c :: 0 <= c < |s| && ChildOf(i, c) ==> key(s[(i - 1) / 2]) <= key(s[c]))
  }

  lemma SwapUpState<T>(s: seq<T>, i: int, key: T -> int)
    requires UpState(s, i, key) && i > 0 && key(s[i]) < key(s[(i - 1) / 2])
    ensures UpState(Swap(s, i, (i - 1) / 2), (i - 1) / 2, key)
  {
    var p := (i - 1) / 2;
    var t := Swap(s, i, p);
    assert ChildOf(p, i);
    forall p', c' | 0 <= p' < c' < |t| && ChildOf(p', c') && c' != p
      ensures key(t[p']) <= key(t[c'])
    {
      if c' == i {
        assert p' == p;
      } else if p' == p {
        assert key(s[p]) <= key(s[c']);
      } else if p' == i {
        assert key(s[p]) <= key(s[c']);
      }
    }
    if p > 0 {
      forall c | 0 <= c < |t| && ChildOf(p, c)
        ensures key(t[(p - 1) / 2]) <= key(t[c])
      {
        assert ChildOf((p - 1) / 2, p);
        if c != i {
          assert key(s[p]) <= key(s[c]);
        }
      }
    }
  }

  /** From an `UpState`, `Update` restores heap order (the sift-up of `Insert`). */
  lemma {:induction false} SiftUpRestores<T>(s: seq<T>, i: int, key: T -> int)
    requires UpState(s, i, key)
    ensures IsHeap(Update(s, i, key), key)
    decreases Measure(s, key)
  {
    assert DownChild(s, i, key) == -1;
    if i != 0 && key(s[i]) < key(s[(i - 1) / 2]) {
      var p := (i - 1) / 2;
      SwapRaisesWeight(s, p, i, key);
      SwapUpState(s, i, key);
      SiftUpRestores(Swap(s, i, p), p, key);
    } else {
      assert Update(s, i, key) == s;
      forall p, c | 0 <= p < c < |s| && ChildOf(p, c)
        ensures key(s[p]) <= key(s[c])
      {
        if c == i {
          assert p == (i - 1) / 2;
        }
      }
    }
  }

  lemma SwapDownState<T>(s: seq<T>, i: int, key: T -> int)
    requires DownState(s, i, key) && DownChild(s, i, key) != -1
    ensures DownState(Swap(s, i, DownChild(s, i, key)), DownChild(s, i, key), key)
  {
    var c := DownChild(s, i, key);
    var t := Swap(s, i, c);
    forall p', c' | 0 <= p' < c' < |t| && ChildOf(p', c') && p' != c
      ensures key(t[p']) <= key(t[c'])
    {
      if p' == i {
      } else if c' == i {
        assert p' == (i - 1) / 2;
      }
    }
    forall c' | 0 <= c' < |t| && ChildOf(c, c')
      ensures key(t[(c - 1) / 2]) <= key(t[c'])
    {
      assert (c - 1) / 2 == i;
      assert key(s[c]) <= key(s[c']);
    }
  }

  /** From a `DownState`, `Update` restores heap order (the sift-down of an
      extraction that moves the last slot to the root). */
  lemma {:induction false} SiftDownRestores<T>(s: seq<T>, i: int, key: T -> int)
    requires DownState(s, i, key)
    ensures IsHeap(Update(s, i, key), key)
    decreases Measure(s, key)
  {
    var c := DownChild(s, i, key);
    if c == -1 {
      forall p, c' | 0 <= p < c' < |s| && ChildOf(p, c')
        ensures key(s[p]) <= key(s[c'])
      {
      }
      if i != 0 {
        assert ChildOf((i - 1) / 2, i);
      }
      assert Update(s, i, key) == s;
    } else {
      SwapRaisesWeight(s, i, c, key);
      SwapDownState(s, i, key);
      SiftDownRestores(Swap(s, i, c), c, key);
      var down := Update(Swap(s, i, c), c, key);
      if i != 0 {
        assert ChildOf((i - 1) / 2, i);
      }
      assert Update(s, i, key) == down;
    }
  }

  /** In a heap the root holds a minimum key. */
  lemma {:induction false} HeapRootIsMin<T>(s: seq<T>, k: int, key: T -> int)
    requires IsHeap(s, key) && 0 <= k < |s|
    ensures key(s[0]) <= key(s[k])
    decreases k
  {
    if k > 0 {
      assert ChildOf((k - 1) / 2, k);
      HeapRootIsMin(s, (k - 1) / 2, key);
    }
  }

  /** In a heap every slot below the root is at least the key of slot 1 or of slot 2. */
  lemma {:induction false} HeapTailAboveTop<T>(s: seq<T>, k: int, key: T -> int)
    requires IsHeap(s, key) && 1 <= k < |s|
    ensures key(s[1]) <= key(s[k]) || (2 < |s| && key(s[2]) <= key(s[k]))
    decreases k
  {
    if k > 2 {
      assert ChildOf((k - 1) / 2, k);
      HeapTailAboveTop(s, (k - 1) / 2, key);
    }
  }

  lemma AppendSiftsUp<T>(s: seq<T>, x: T, key: T -> int)
    ensures IsHeap(s, key) ==> IsHeap(Update(s + [x], |s|, key), key)
  {
    if IsHeap(s, key) {
      AppendUpState(s, x, key);
      SiftUpRestores(s + [x], |s|, key);
    }
  }

  lemma AppendUpState<T>(s: seq<T>, x: T, key: T -> int)
    requires IsHeap(s, key)
    ensures UpState(s + [x], |s|, key)
  {
    var t := s + [x];
    forall p, c | 0 <= p < c < |t| && ChildOf(p, c) && c != |s|
      ensures key(t[p]) <= key(t[c])
    {
      assert t[p] == s[p] && t[c] == s[c];
    }
    forall c | 0 <= c < |t|
      ensures !ChildOf(|s|, c)
    {
    }
  }

  /** `Insert(node)`: append, then `Update` at the new last slot
      (`IndexOf(Last())` finds that slot: every node is a fresh object). */
  function Insert<T>(s: seq<T>, x: T, key: T -> int): (r: seq<T>)
    ensures |r| == |s| + 1
    ensures multiset(r) == multiset(s) + multiset{x}
    ensures IsHeap(s, key) ==> IsHeap(r, key)
  {
    AppendSiftsUp(s, x, key);
    Update(s + [x], |s|, key)
  }

  /** `Empty()`: the list holds no node. */
  function Empty<T>(s: seq<T>): (b: bool)
    ensures b <==> multiset(s) == multiset{}
  {
    |s| == 0
  }

  /** `Clear()`. */
  function Clear<T>(s: seq<T>): (r: seq<T>)
    ensures Empty(r)
  {
    []
  }

  /** `GetMinNode()`: the root, or null on an empty heap. */
  function GetMinNode<T>(s: seq<T>): (r: Option<T>)
    ensures r.None? <==> Empty(s)
    ensures r.Some? ==> r.value == s[0]
  {
    if !Empty(s) then Some(s[0]) else None
  }

  /** After `Clear()` the heap holds exactly the next node inserted. */
  lemma ClearThenInsert<T>(s: seq<T>, x: T, key: T -> int)
    ensures Empty(Clear(s)) && IsHeap(Clear(s), key)
    ensures Insert(Clear(s), x, key) == [x]
  {
  }

  /** On a heap `GetMinNode` returns an element of minimum key. */
  lemma GetMinNodeIsMin<T>(s: seq<T>, key: T -> int)
    requires IsHeap(s, key)
    ensures GetMinNode(s).Some? ==> forall k :: 0 <= k < |s| ==> key(GetMinNode(s).value) <= key(s[k])
  {
    forall k | 0 <= k < |s|
      ensures key(s[0]) <= key(s[k])
    {
      HeapRootIsMin(s, k, key);
    }
  }

  /** `List.Remove(x)`: drops the first element equal to x, if any. */
  function RemoveFirst<T(==)>(s: seq<T>, x: T): (r: seq<T>)
    ensures x in s ==> |r| == |s| - 1 && multiset(r) == multiset(s) - multiset{x}
    ensures x !in s ==> r == s
    ensures forall i :: 0 <= i < |s| && s[i] == x && x !in s[..i] ==> r == s[..i] + s[i + 1..]
  {
    if |s| == 0 then s
    else if s[0] == x then (FirstAtHead(s, x); s[1..])
    else (assert s == [s[0]] + s[1..]; var t := RemoveFirst(s[1..], x); FirstAfterHead(s, x, t); [s[0]] + t)
  }

  /** When s starts with x, the first occurrence of x is at index 0. */
  lemma FirstAtHead<T>(s: seq<T>, x: T)
    requires |s| > 0 && s[0] == x
    ensures s == [s[0]] + s[1..]
    ensures forall i :: 0 <= i < |s| && s[i] == x && x !in s[..i] ==> s[1..] == s[..i] + s[i + 1..]
  {
    forall i | 0 <= i < |s| && s[i] == x && x !in s[..i]
      ensures s[1..] == s[..i] + s[i + 1..]
    {
      assert i == 0;
    }
  }

  /** Removing the first x from the tail of s, whose head is not x, removes
      the first x from s once the head is put back. */
  lemma FirstAfterHead<T>(s: seq<T>, x: T, t: seq<T>)
    requires |s| > 0 && s[0] != x
    requires forall j :: 0 <= j < |s[1..]| && s[1..][j] == x && x !in s[1..][..j] ==> t == s[1..][..j] + s[1..][j + 1..]
    ensures forall i :: 0 <= i < |s| && s[i] == x && x !in s[..i] ==> [s[0]] + t == s[..i] + s[i + 1..]
  {
    forall i | 0 <= i < |s| && s[i] == x && x !in s[..i]
      ensures [s[0]] + t == s[..i] + s[i + 1..]
    {
      assert i > 0;
      assert s[..i] == [s[0]] + s[1..][..i - 1];
      assert s[1..][i - 1] == x;
      assert x !in s[1..][..i - 1];
      assert s[1..][i..] == s[i + 1..];
    }
  }

  /** Dropping the root of a heap and sifting slot 0 down leaves a minimum at the root. */
  lemma ExtractedRootIsMin<T>(s: seq<T>, key: T -> int)
    requires |s| >= 2
    ensures IsHeap(s, key) ==>
      forall k :: 0 <= k < |s| - 1 ==> key(Update(s[1..], 0, key)[0]) <= key(Update(s[1..], 0, key)[k])
  {
    if IsHeap(s, key) {
      ExtractedRootIsMinOfHeap(s, key);
    }
  }

  lemma ExtractedRootIsMinOfHeap<T>(s: seq<T>, key: T -> int)
    requires IsHeap(s, key) && |s| >= 2
    ensures forall k :: 0 <= k < |s| - 1 ==> key(Update(s[1..], 0, key)[0]) <= key(Update(s[1..], 0, key)[k])
  {
    var t := s[1..];
    var r := Update(t, 0, key);
    // the smallest key among slots 1 and 2 of s, i.e. slots 0 and 1 of t
    var m := if |t| > 1 && key(t[1]) < key(t[0]) then key(t[1]) else key(t[0]);
    var c := DownChild(t, 0, key);
    if c == -1 {
      assert r == t;
    } else {
      SwapRaisesWeight(t, 0, c, key);
      assert r == Update(Swap(t, 0, c), c, key);
    }
    assert key(r[0]) <= m;
    forall k | 0 <= k < |r|
      ensures key(r[0]) <= key(r[k])
    {
      assert r[k] in multiset(t);
      var j :| 0 <= j < |t| && t[j] == r[k];
      HeapTailAboveTop(s, j + 1, key);
    }
  }

  /** `ExtractMin()` as written: `nodes[0] = nodes.Last(); nodes.Remove(nodes.Last());`.
      `Remove` drops the first element equal to the last one, and slot 0 now
      holds it, so the net effect is to drop slot 0 and shift the rest left,
      followed by `Update(0)`. Exactly the root is removed, and on a heap the
      new root is a minimum of what remains; heap order itself is not restored. */
  function ExtractMin<T(==)>(s: seq<T>, key: T -> int): (r: seq<T>)
    ensures |s| == 0 ==> r == s
    ensures |s| > 0 ==> |r| == |s| - 1 && multiset(r) == multiset(s[1..])
    ensures |s| > 0 && IsHeap(s, key) ==> forall k :: 0 <= k < |r| ==> key(r[0]) <= key(r[k])
  {
    if Empty(s) then s
    else
      var last := s[|s| - 1];
      var moved := s[0 := last];
      var removed := RemoveFirst(moved, last);
      assert moved[0] == last && moved[..0] == [];
      assert removed == moved[..0] + moved[1..];
      assert moved[1..] == s[1..];
      if Empty(removed) then removed
      else
        ExtractedRootIsMin(s, key);
        Update(removed, 0, key)
  }

  lemma ReplacedRootDownState<T>(s: seq<T>, key: T -> int)
    requires IsHeap(s, key) && |s| >= 2
    ensures DownState(s[0 := s[|s| - 1]][..|s| - 1], 0, key)
  {
    var t := s[0 := s[|s| - 1]][..|s| - 1];
    forall p, c | 0 <= p < c < |t| && ChildOf(p, c) && p != 0
      ensures key(t[p]) <= key(t[c])
    {
      assert t[p] == s[p] && t[c] == s[c];
    }
  }

  lemma ReplacedRootSiftsDown<T>(s: seq<T>, key: T -> int)
    requires |s| >= 2
    ensures IsHeap(s, key) ==> IsHeap(Update(s[0 := s[|s| - 1]][..|s| - 1], 0, key), key)
  {
    if IsHeap(s, key) {
      ReplacedRootDownState(s, key);
      SiftDownRestores(s[0 := s[|s| - 1]][..|s| - 1], 0, key);
    }
  }

  /** The extraction the heap evidently intends: move the last slot to the
      root, drop the last slot, sift the root down. It removes exactly the
      root and keeps heap order. */
  function ExtractMinIntended<T>(s: seq<T>, key: T -> int): (r: seq<T>)
    ensures |s| == 0 ==> r == s
    ensures |s| > 0 ==> |r| == |s| - 1 && multiset(r) == multiset(s[1..])
    ensures IsHeap(s, key) ==> IsHeap(r, key)
  {
    if Empty(s) then s
    else
      var moved := s[0 := s[|s| - 1]][..|s| - 1];
      if Empty(moved) then moved
      else
        assert moved == [s[|s| - 1]] + s[1..|s| - 1];
        assert s[1..] == s[1..|s| - 1] + [s[|s| - 1]];
        ReplacedRootSiftsDown(s, key);
        Update(moved, 0, key)
  }

  function IntKey(x: int): int { x }

  lemma SampleIsHeap()
    ensures IsHeap([1, 5, 2, 6, 7, 3, 4], IntKey)
  {
    var h := [1, 5, 2, 6, 7, 3, 4];
    forall p, c | 0 <= p < c < |h| && ChildOf(p, c)
      ensures IntKey(h[p]) <= IntKey(h[c])
    {
      assert p < 3;
    }
  }

  lemma SiftLeafFirst()
    ensures Update([2, 3, 6, 7, 5, 4], 4, IntKey) == [2, 3, 6, 7, 5, 4]
  {
    assert DownChild([2, 3, 6, 7, 5, 4], 4, IntKey) == -1;
  }

  lemma SiftMiddleFirst()
    ensures Update([2, 5, 6, 7, 3, 4], 1, IntKey) == [2, 3, 6, 7, 5, 4]
  {
    SiftLeafFirst();
    ChildMiddleFirst();
    SwapMiddleFirst();
  }

  lemma SwapMiddleFirst()
    ensures Swap([2, 5, 6, 7, 3, 4], 1, 4) == [2, 3, 6, 7, 5, 4]
  {
  }

  lemma SwapRootFirst()
    ensures Swap([5, 2, 6, 7, 3, 4], 0, 1) == [2, 5, 6, 7, 3, 4]
  {
  }

  lemma ChildMiddleFirst()
    ensures DownChild([2, 5, 6, 7, 3, 4], 1, IntKey) == 4
  {
  }

  lemma ChildRootFirst()
    ensures DownChild([5, 2, 6, 7, 3, 4], 0, IntKey) == 1
  {
  }

  lemma SiftRootFirst()
    ensures Update([5, 2, 6, 7, 3, 4], 0, IntKey) == [2, 3, 6, 7, 5, 4]
  {
    SiftMiddleFirst();
    ChildRootFirst();
    SwapRootFirst();
  }

  lemma FirstExtraction()
    ensures ExtractMin([1, 5, 2, 6, 7, 3, 4], IntKey) == [2, 3, 6, 7, 5, 4]
  {
    SiftRootFirst();
    var s := [1, 5, 2, 6, 7, 3, 4];
    assert s[1..] == [5, 2, 6, 7, 3, 4];
  }

  lemma SecondExtraction()
    ensures ExtractMin([2, 3, 6, 7, 5, 4], IntKey) == [3, 6, 7, 5, 4]
  {
    assert DownChild([3, 6, 7, 5, 4], 0, IntKey) == -1;
    assert Update([3, 6, 7, 5, 4], 0, IntKey) == [3, 6, 7, 5, 4];
    var s := [2, 3, 6, 7, 5, 4];
    assert s[1..] == [3, 6, 7, 5, 4];
  }

  lemma SiftLeafThird()
    ensures Update([5, 7, 6, 4], 2, IntKey) == [5, 7, 6, 4]
  {
    assert DownChild([5, 7, 6, 4], 2, IntKey) == -1;
  }

  lemma SiftRootThird()
    ensures Update([6, 7, 5, 4], 0, IntKey) == [5, 7, 6, 4]
  {
    SiftLeafThird();
    assert DownChild([6, 7, 5, 4], 0, IntKey) == 2;
    assert Swap([6, 7, 5, 4], 0, 2) == [5, 7, 6, 4];
  }

  lemma ThirdExtraction()
    ensures ExtractMin([3, 6, 7, 5, 4], IntKey) == [5, 7, 6, 4]
  {
    SiftRootThird();
    var s := [3, 6, 7, 5, 4];
    assert s[1..] == [6, 7, 5, 4];
  }

  /** Three extractions with the as-written `ExtractMin` from the valid heap
      [1, 5, 2, 6, 7, 3, 4] leave [5, 7, 6, 4]: 4 remains but 5 is at the
      root, so the next `GetMinNode` does not return a minimum. The first
      extraction already yields [2, 3, 6, 7, 5, 4], where 6 sits above 4. */
  lemma ExtractMinLosesHeapOrder()
    ensures IsHeap([1, 5, 2, 6, 7, 3, 4], IntKey)
    ensures ExtractMin([1, 5, 2, 6, 7, 3, 4], IntKey) == [2, 3, 6, 7, 5, 4]
    ensures !IsHeap([2, 3, 6, 7, 5, 4], IntKey)
    ensures ExtractMin(ExtractMin(ExtractMin([1, 5, 2, 6, 7, 3, 4], IntKey), IntKey), IntKey) == [5, 7, 6, 4]
    ensures GetMinNode([5, 7, 6, 4]) == Some(5) && 4 in [5, 7, 6, 4]
  {
    SampleIsHeap();
    FirstExtraction();
    SecondExtraction();
    ThirdExtraction();
    assert ChildOf(2, 5);
    assert [2, 3, 6, 7, 5, 4][2] == 6 && [2, 3, 6, 7, 5, 4][5] == 4;
  }
}
