// The indexed binary heap of basic/bheap.h. Nodes are handles that carry their
// own position; comp_ is any strict weak order and the greatest value is on top.
module Bheap {
  import opened Wrappers

  // What std::less and every other legal comparator satisfies.
  ghost predicate StrictWeak<T(!new)>(less: (T, T) -> bool)
  {
    (forall a, b :: less(a, b) ==> !less(b, a)) &&
    (forall a, b, c :: !less(a, b) && !less(b, c) ==> !less(a, c))
  }

  function Parent(i: nat): nat
    requires i > 0
  {
    (i - 1) / 2
  }

  function Swap<T>(h: seq<T>, i: nat, j: nat): (r: seq<T>)
    requires i < |h| && j < |h|
    ensures |r| == |h|
  {
    h[i := h[j]][j := h[i]]
  }

  // ---------- The algorithms on the values ----------

  function SiftUp<T>(h: seq<T>, less: (T, T) -> bool, i: nat): (r: seq<T>)
    requires i < |h|
    ensures |r| == |h|
    decreases i
  {
    if i > 0 && less(h[Parent(i)], h[i]) then SiftUp(Swap(h, Parent(i), i), less, Parent(i)) else h
  }

  // The child that sift_down picks, or i itself.
  function Largest<T>(h: seq<T>, less: (T, T) -> bool, i: nat): (k: nat)
    requires i < |h|
    ensures i <= k < |h| && (k == i || k == 2 * i + 1 || k == 2 * i + 2)
  {
    var l := if 2 * i + 1 < |h| && less(h[i], h[2 * i + 1]) then 2 * i + 1 else i;
    if 2 * i + 2 < |h| && less(h[l], h[2 * i + 2]) then 2 * i + 2 else l
  }

  // One swap, then the recursive call, then the rest of the loop.
  function SiftDown<T>(h: seq<T>, less: (T, T) -> bool, i: nat): (r: seq<T>)
    requires i < |h|
    ensures |r| == |h|
    decreases |h| - i
  {
    var k := Largest(h, less, i);
    if k == i then h
    else SiftDown(SiftDown(Swap(h, k, i), less, k), less, k)
  }

  lemma SiftDownStep<T>(h: seq<T>, less: (T, T) -> bool, i: nat)
    requires i < |h|
    ensures var k := Largest(h, less, i);
            SiftDown(h, less, i) ==
              if k == i then h else SiftDown(SiftDown(Swap(h, k, i), less, k), less, k)
  {
  }

  function Insert<T>(h: seq<T>, less: (T, T) -> bool, v: T): seq<T>
  {
    SiftUp(h + [v], less, |h|)
  }

  // The last element moves into idx and the last element is dropped.
  function MoveLast<T>(h: seq<T>, idx: nat): (t: seq<T>)
    requires idx < |h|
    ensures |t| == |h| - 1
  {
    Swap(h, idx, |h| - 1)[..|h| - 1]
  }

  // The choice between sift_up and sift_down compares with the last value.
  function Settle<T>(t: seq<T>, less: (T, T) -> bool, idx: nat): (r: seq<T>)
    ensures |r| == |t|
  {
    if idx >= |t| then t
    else if less(t[idx], t[|t| - 1]) then SiftUp(t, less, idx)
    else SiftDown(t, less, idx)
  }

  function Erase<T>(h: seq<T>, less: (T, T) -> bool, idx: nat): (r: seq<T>)
    requires idx < |h|
    ensures |r| == |h| - 1
  {
    Settle(MoveLast(h, idx), less, idx)
  }

  // ---------- Contents ----------

  lemma SwapPermutes<T>(h: seq<T>, i: nat, j: nat)
    requires i < |h| && j < |h|
    ensures multiset(Swap(h, i, j)) == multiset(h)
  {
  }

  lemma {:induction false} SiftUpPermutes<T>(h: seq<T>, less: (T, T) -> bool, i: nat)
    requires i < |h|
    ensures multiset(SiftUp(h, less, i)) == multiset(h)
    decreases i
  {
    if i > 0 && less(h[Parent(i)], h[i]) {
      SwapPermutes(h, Parent(i), i);
      SiftUpPermutes(Swap(h, Parent(i), i), less, Parent(i));
    }
  }

  lemma {:induction false} SiftDownPermutes<T>(h: seq<T>, less: (T, T) -> bool, i: nat)
    requires i < |h|
    ensures multiset(SiftDown(h, less, i)) == multiset(h)
    decreases |h| - i
  {
    var k := Largest(h, less, i);
    if k != i {
      SwapPermutes(h, k, i);
      var s := Swap(h, k, i);
      SiftDownPermutes(s, less, k);
      SiftDownPermutes(SiftDown(s, less, k), less, k);
    }
  }

  lemma SettlePermutes<T>(t: seq<T>, less: (T, T) -> bool, idx: nat)
    ensures multiset(Settle(t, less, idx)) == multiset(t)
  {
    if idx < |t| {
      SiftUpPermutes(t, less, idx);
      SiftDownPermutes(t, less, idx);
    }
  }

  lemma LastTaken<T>(t: seq<T>, v: T)
    ensures multiset(t + [v]) - multiset{v} == multiset(t)
  {
  }

  // erase removes exactly the value at idx, on any array, heap or not.
  lemma ErasePermutes<T>(h: seq<T>, less: (T, T) -> bool, idx: nat)
    requires idx < |h|
    ensures multiset(Erase(h, less, idx)) == multiset(h) - multiset{h[idx]}
  {
    var t := MoveLast(h, idx);
    SwapPermutes(h, idx, |h| - 1);
    assert Swap(h, idx, |h| - 1) == t + [h[idx]];
    LastTaken(t, h[idx]);
    SettlePermutes(t, less, idx);
  }

  lemma InsertPermutes<T>(h: seq<T>, less: (T, T) -> bool, v: T)
    ensures multiset(Insert(h, less, v)) == multiset(h) + multiset{v}
  {
    SiftUpPermutes(h + [v], less, |h|);
  }

  // ---------- Heap order ----------

  // No value is above its parent's.
  ghost predicate EdgeOk<T>(h: seq<T>, less: (T, T) -> bool, i: nat)
  {
    0 < i < |h| ==> !less(h[Parent(i)], h[i])
  }

  // j is r or lies below it.
  predicate Below(j: nat, r: nat)
    decreases j
  {
    j == r || (j > r && Below(Parent(j), r))
  }

  ghost predicate HeapBelow<T>(h: seq<T>, less: (T, T) -> bool, r: nat)
  {
    forall j :: r < j < |h| && Below(j, r) ==> EdgeOk(h, less, j)
  }

  ghost predicate IsHeap<T>(h: seq<T>, less: (T, T) -> bool)
  {
    forall j :: 0 < j < |h| ==> EdgeOk(h, less, j)
  }

  lemma {:induction false} AllBelowRoot(j: nat)
    ensures Below(j, 0)
  {
    if j > 0 {
      AllBelowRoot(Parent(j));
    }
  }

  lemma HeapBelowRoot<T>(h: seq<T>, less: (T, T) -> bool)
    ensures HeapBelow(h, less, 0) <==> IsHeap(h, less)
  {
    forall j: nat
      ensures Below(j, 0)
    {
      AllBelowRoot(j);
    }
  }

  // Heap order except that i may be above its parent.
  ghost predicate AlmostUp<T>(h: seq<T>, less: (T, T) -> bool, i: nat)
  {
    i < |h| &&
    (forall j :: 0 < j < |h| && j != i ==> EdgeOk(h, less, j)) &&
    (i > 0 ==> forall c :: 0 < c < |h| && Parent(c) == i ==> !less(h[Parent(i)], h[c]))
  }

  lemma {:induction false} SiftUpOrders<T(!new)>(h: seq<T>, less: (T, T) -> bool, i: nat)
    requires StrictWeak(less) && AlmostUp(h, less, i)
    ensures IsHeap(SiftUp(h, less, i), less)
    decreases i
  {
    if i > 0 {
      var p := Parent(i);
      if less(h[p], h[i]) {
        var s := Swap(h, p, i);
        forall j | 0 < j < |s| && j != p
          ensures EdgeOk(s, less, j)
        {
          assert j != i ==> EdgeOk(h, less, j);
          assert !less(h[i], h[p]);
        }
        if p > 0 {
          assert EdgeOk(h, less, p);
          forall c | 0 < c < |s| && Parent(c) == p
            ensures !less(s[Parent(p)], s[c])
          {
            assert c != i ==> EdgeOk(h, less, c);
          }
        }
        SiftUpOrders(s, less, p);
      } else {
        assert EdgeOk(h, less, i);
      }
    }
  }

  // Heap order below r except that i, itself below r, may be below its children.
  ghost predicate AlmostDown<T>(h: seq<T>, less: (T, T) -> bool, r: nat, i: nat)
  {
    i < |h| && Below(i, r) &&
    (forall j :: r < j < |h| && Below(j, r) && Parent(j) != i ==> EdgeOk(h, less, j)) &&
    (i > r ==> forall c :: 0 < c < |h| && Parent(c) == i ==> !less(h[Parent(i)], h[c]))
  }

  lemma {:induction false} BelowTrans(j: nat, i: nat, r: nat)
    requires Below(j, i) && Below(i, r)
    ensures Below(j, r) && j >= i >= r
    decreases j
  {
    if j > i {
      BelowTrans(Parent(j), i, r);
    }
  }

  // After swapping i with its larger child k, only k may be out of place.
  lemma SwapDownKeeps<T(!new)>(h: seq<T>, less: (T, T) -> bool, r: nat, i: nat)
    requires StrictWeak(less) && AlmostDown(h, less, r, i) && Largest(h, less, i) != i
    ensures AlmostDown(Swap(h, Largest(h, less, i), i), less, r, Largest(h, less, i))
  {
    var k := Largest(h, less, i);
    var s := Swap(h, k, i);
    BelowTrans(k, i, r);
    assert !less(h[k], h[i]);
    assert forall c :: 0 < c < |h| && Parent(c) == i ==> !less(h[k], h[c]);
    forall j | r < j < |s| && Below(j, r) && Parent(j) != k
      ensures EdgeOk(s, less, j)
    {
      assert Parent(j) != i ==> EdgeOk(h, less, j);
    }
    forall c | 0 < c < |s| && Parent(c) == k
      ensures !less(s[Parent(k)], s[c])
    {
      BelowTrans(c, k, r);
      assert EdgeOk(h, less, c);
    }
  }

  lemma LargestStays<T(!new)>(h: seq<T>, less: (T, T) -> bool, r: nat, i: nat)
    requires StrictWeak(less) && AlmostDown(h, less, r, i) && Largest(h, less, i) == i
    ensures HeapBelow(h, less, r)
  {
    forall j | r < j < |h| && Below(j, r)
      ensures EdgeOk(h, less, j)
    {
      assert Parent(j) == i ==> j == 2 * i + 1 || j == 2 * i + 2;
    }
  }

  // sift_down from a node whose subtrees are in order puts its whole subtree in
  // order, and the loop pass after the recursive call exits without a swap.
  lemma {:induction false} SiftDownOrders<T(!new)>(h: seq<T>, less: (T, T) -> bool, r: nat, i: nat)
    requires StrictWeak(less) && AlmostDown(h, less, r, i)
    ensures HeapBelow(SiftDown(h, less, i), less, r)
    ensures var k := Largest(h, less, i);
            k != i ==> Largest(SiftDown(Swap(h, k, i), less, k), less, k) == k
    decreases |h| - i
  {
    var k := Largest(h, less, i);
    if k == i {
      LargestStays(h, less, r, i);
    } else {
      var s := Swap(h, k, i);
      SwapDownKeeps(h, less, r, i);
      SiftDownOrders(s, less, r, k);
      var t := SiftDown(s, less, k);
      BelowTrans(k, i, r);
      forall c | k < c < |t| && Parent(c) == k
        ensures !less(t[k], t[c])
      {
        BelowTrans(c, k, r);
        assert EdgeOk(t, less, c);
      }
    }
  }

  // ---------- Which values move ----------

  // sift_up carries the value at i up to the place j, past exactly the ancestors
  // that are below it, each of which moves down one step; it stops under a
  // parent that is not below it, an equivalent one included. Nothing else moves.
  lemma {:induction false} SiftUpMoves<T>(h: seq<T>, less: (T, T) -> bool, i: nat) returns (j: nat)
    requires i < |h|
    ensures Below(i, j) && (j == 0 || !less(h[Parent(j)], h[i]))
    ensures forall x :: j < x <= i && Below(i, x) ==> less(h[Parent(x)], h[i])
    ensures forall x :: 0 <= x < |h| ==>
              SiftUp(h, less, i)[x] ==
                if x == j then h[i] else if j < x && Below(i, x) then h[Parent(x)] else h[x]
    decreases i
  {
    j := i;
    if i > 0 && less(h[Parent(i)], h[i]) {
      var p := Parent(i);
      var s := Swap(h, p, i);
      j := SiftUpMoves(s, less, p);
      BelowAtLeast(p, j);
      forall x | j < x <= i && Below(i, x)
        ensures less(h[Parent(x)], h[i])
      {
        assert x < i ==> Below(p, x) && s[Parent(x)] == h[Parent(x)];
      }
      forall x | 0 <= x < |h|
        ensures SiftUp(h, less, i)[x] ==
                  if x == j then h[i] else if j < x && Below(i, x) then h[Parent(x)] else h[x]
      {
        SiftedUpAt(h, less, i, j, x);
      }
    }
  }

  lemma {:induction false} BelowAtLeast(i: nat, j: nat)
    requires Below(i, j)
    ensures j <= i
    decreases i
  {
    if i > j {
      BelowAtLeast(Parent(i), j);
    }
  }

  lemma SiftedUpAt<T>(h: seq<T>, less: (T, T) -> bool, i: nat, j: nat, x: nat)
    requires 0 < i < |h| && less(h[Parent(i)], h[i]) && j <= Parent(i) && x < |h|
    requires var s := Swap(h, Parent(i), i);
             SiftUp(s, less, Parent(i))[x] ==
               if x == j then s[Parent(i)] else if j < x && Below(Parent(i), x) then s[Parent(x)] else s[x]
    ensures SiftUp(h, less, i)[x] == if x == j then h[i] else if j < x && Below(i, x) then h[Parent(x)] else h[x]
  {
    if Below(Parent(i), x) {
      BelowAtLeast(Parent(i), x);
    }
  }

  // The child that sift_down moves up: none unless it is above i, and of two
  // that are, the left one unless the right one is above it.
  lemma LargestExact<T(!new)>(h: seq<T>, less: (T, T) -> bool, i: nat)
    requires StrictWeak(less) && i < |h|
    ensures var k, l, r := Largest(h, less, i), 2 * i + 1, 2 * i + 2;
            (k == l <==> l < |h| && less(h[i], h[l]) && (r < |h| ==> !less(h[l], h[r]))) &&
            (k == r <==> r < |h| && less(h[i], h[r]) && less(h[l], h[r])) &&
            (k == i <==> (l < |h| ==> !less(h[i], h[l])) && (r < |h| ==> !less(h[i], h[r])))
  {
  }

  // Where the subtrees of i are in order, sift_down is one swap and the same
  // again one level down.
  lemma SiftDownMoves<T(!new)>(h: seq<T>, less: (T, T) -> bool, r: nat, i: nat)
    requires StrictWeak(less) && AlmostDown(h, less, r, i)
    ensures var k := Largest(h, less, i);
            SiftDown(h, less, i) == if k == i then h else SiftDown(Swap(h, k, i), less, k)
  {
    SiftDownOrders(h, less, r, i);
  }

  predicate IntLess(a: int, b: int)
  {
    a < b
  }

  lemma InnerPassSwaps()
    ensures SiftDown([5, 1, 0, 4, 3, 0, 0, 8], IntLess, 1) == [5, 4, 0, 8, 3, 0, 0, 1]
  {
    var h1, h3, h7 := [5, 1, 0, 4, 3, 0, 0, 8], [5, 4, 0, 1, 3, 0, 0, 8], [5, 4, 0, 8, 3, 0, 0, 1];
    assert SiftDown(h7, IntLess, 7) == h7 && SiftDown(h7, IntLess, 3) == h7;
    SiftDownStep(h3, IntLess, 3);
    assert Swap(h3, 7, 3) == h7;
    SiftDownStep(h1, IntLess, 1);
    assert Swap(h1, 3, 1) == h3;
  }

  // Where they are not, the pass after the recursive call can swap once more:
  // 1 comes down past 5 and 4 to the place of 8, which then comes up past 4.
  lemma SecondPassSwaps()
    ensures SiftDown([1, 5, 0, 4, 3, 0, 0, 8], IntLess, 0) == [5, 8, 0, 4, 3, 0, 0, 1]
  {
    var h, h1, h7 := [1, 5, 0, 4, 3, 0, 0, 8], [5, 1, 0, 4, 3, 0, 0, 8], [5, 4, 0, 8, 3, 0, 0, 1];
    var up := [5, 8, 0, 4, 3, 0, 0, 1];
    InnerPassSwaps();
    assert SiftDown(up, IntLess, 3) == up;
    SiftDownStep(h7, IntLess, 1);
    assert Swap(h7, 3, 1) == up;
    SiftDownStep(h, IntLess, 0);
    assert Swap(h, 1, 0) == h1;
  }

  lemma InsertOrders<T(!new)>(h: seq<T>, less: (T, T) -> bool, v: T)
    requires StrictWeak(less) && IsHeap(h, less)
    ensures IsHeap(Insert(h, less, v), less)
  {
    var t := h + [v];
    forall j | 0 < j < |h|
      ensures EdgeOk(t, less, j)
    {
      assert EdgeOk(h, less, j);
    }
    SiftUpOrders(t, less, |h|);
  }

  lemma {:induction false} TopIsGreatest<T(!new)>(h: seq<T>, less: (T, T) -> bool, i: nat)
    requires StrictWeak(less) && IsHeap(h, less) && i < |h|
    ensures !less(h[0], h[i])
    decreases i
  {
    if i > 0 {
      assert EdgeOk(h, less, i);
      TopIsGreatest(h, less, Parent(i));
    }
  }

  // ---------- When erase keeps the order ----------

  // What a caller can test before erasing idx: x is the last value, which moves
  // into idx, and y is the value that is last afterwards.
  ghost predicate EraseSafe<T>(h: seq<T>, less: (T, T) -> bool, idx: nat)
    requires idx < |h|
  {
    var n := |h| - 1;
    idx == n ||
    (var x := h[n];
     var y := if idx == n - 1 then x else h[n - 1];
     if less(x, y) then forall c :: 0 < c < n && Parent(c) == idx ==> !less(x, h[c])
     else idx == 0 || !less(h[Parent(idx)], x))
  }

  lemma MoveLastValues<T>(h: seq<T>, idx: nat)
    requires idx < |h| - 1
    ensures var t := MoveLast(h, idx);
            t == h[..|h| - 1][idx := h[|h| - 1]]
  {
  }

  // Away from idx the order survives, and so does the order around it.
  lemma MoveLastOrders<T(!new)>(h: seq<T>, less: (T, T) -> bool, idx: nat)
    requires StrictWeak(less) && IsHeap(h, less) && idx < |h| - 1
    ensures var t := MoveLast(h, idx);
            (forall j :: 0 < j < |t| && j != idx && Parent(j) != idx ==> EdgeOk(t, less, j)) &&
            (idx > 0 ==> forall c :: 0 < c < |t| && Parent(c) == idx ==> !less(t[Parent(idx)], t[c]))
  {
    MoveLastValues(h, idx);
    var t := MoveLast(h, idx);
    forall j | 0 < j < |t| && j != idx && Parent(j) != idx
      ensures EdgeOk(t, less, j)
    {
      assert EdgeOk(h, less, j);
    }
    if idx > 0 {
      forall c | 0 < c < |t| && Parent(c) == idx
        ensures !less(t[Parent(idx)], t[c])
      {
        assert EdgeOk(h, less, idx) && EdgeOk(h, less, c);
      }
    }
  }

  // sift_up moves nothing if i is not above its parent, sift_down nothing if i
  // is not below its children, so a bad edge on the other side stays.
  lemma UpLeavesBadEdge<T(!new)>(t: seq<T>, less: (T, T) -> bool, i: nat, c: nat)
    requires StrictWeak(less) && 0 < c < |t| && Parent(c) == i && less(t[i], t[c])
    requires i > 0 ==> !less(t[Parent(i)], t[c])
    ensures !IsHeap(SiftUp(t, less, i), less)
  {
    assert SiftUp(t, less, i) == t;
    assert !EdgeOk(t, less, c);
  }

  lemma DownLeavesBadEdge<T(!new)>(t: seq<T>, less: (T, T) -> bool, i: nat)
    requires StrictWeak(less) && 0 < i < |t| && less(t[Parent(i)], t[i])
    requires forall c :: 0 < c < |t| && Parent(c) == i ==> !less(t[Parent(i)], t[c])
    ensures !IsHeap(SiftDown(t, less, i), less)
  {
    assert Parent(2 * i + 1) == i == Parent(2 * i + 2);
    assert SiftDown(t, less, i) == t;
    assert !EdgeOk(t, less, i);
  }

  lemma EraseUpOrders<T(!new)>(h: seq<T>, less: (T, T) -> bool, idx: nat)
    requires StrictWeak(less) && IsHeap(h, less) && idx < |h| - 1
    requires forall c :: 0 < c < |h| - 1 && Parent(c) == idx ==> !less(h[|h| - 1], h[c])
    ensures IsHeap(SiftUp(MoveLast(h, idx), less, idx), less)
  {
    var t := MoveLast(h, idx);
    MoveLastValues(h, idx);
    MoveLastOrders(h, less, idx);
    forall j | 0 < j < |t| && j != idx
      ensures EdgeOk(t, less, j)
    {
    }
    SiftUpOrders(t, less, idx);
  }

  lemma EraseUp<T(!new)>(h: seq<T>, less: (T, T) -> bool, idx: nat)
    requires StrictWeak(less) && IsHeap(h, less) && idx < |h| - 1
    requires less(MoveLast(h, idx)[idx], MoveLast(h, idx)[|h| - 2])
    ensures IsHeap(SiftUp(MoveLast(h, idx), less, idx), less) <==> EraseSafe(h, less, idx)
  {
    MoveLastValues(h, idx);
    if EraseSafe(h, less, idx) {
      EraseUpOrders(h, less, idx);
    } else {
      var c :| 0 < c < |h| - 1 && Parent(c) == idx && less(h[|h| - 1], h[c]);
      MoveLastOrders(h, less, idx);
      UpLeavesBadEdge(MoveLast(h, idx), less, idx, c);
    }
  }

  lemma EraseDown<T(!new)>(h: seq<T>, less: (T, T) -> bool, idx: nat)
    requires StrictWeak(less) && IsHeap(h, less) && idx < |h| - 1
    requires !less(MoveLast(h, idx)[idx], MoveLast(h, idx)[|h| - 2])
    ensures IsHeap(SiftDown(MoveLast(h, idx), less, idx), less) <==> EraseSafe(h, less, idx)
  {
    var t := MoveLast(h, idx);
    MoveLastValues(h, idx);
    MoveLastOrders(h, less, idx);
    if EraseSafe(h, less, idx) {
      AllBelowRoot(idx);
      assert EdgeOk(t, less, idx);
      SiftDownOrders(t, less, 0, idx);
      HeapBelowRoot(SiftDown(t, less, idx), less);
    } else {
      DownLeavesBadEdge(t, less, idx);
    }
  }

  // On a heap, erase leaves a heap if and only if the test above holds.
  lemma EraseOrdersExactly<T(!new)>(h: seq<T>, less: (T, T) -> bool, idx: nat)
    requires StrictWeak(less) && IsHeap(h, less) && idx < |h|
    ensures IsHeap(Erase(h, less, idx), less) <==> EraseSafe(h, less, idx)
  {
    if idx == |h| - 1 {
      var t := MoveLast(h, idx);
      forall j | 0 < j < |t|
        ensures EdgeOk(t, less, j)
      {
        assert EdgeOk(h, less, j);
      }
    } else if less(MoveLast(h, idx)[idx], MoveLast(h, idx)[|h| - 2]) {
      EraseUp(h, less, idx);
    } else {
      EraseDown(h, less, idx);
    }
  }

  // Popping the heap 11, 10, 8 leaves 8, 10.
  lemma PopCanBreakOrder()
    ensures var less := (a: int, b: int) => a < b;
            StrictWeak(less) && IsHeap([11, 10, 8], less) &&
            Erase([11, 10, 8], less, 0) == [8, 10] && !IsHeap([8, 10], less)
  {
    var less := (a: int, b: int) => a < b;
    assert MoveLast([11, 10, 8], 0) == [8, 10];
    assert !EdgeOk([8, 10], less, 1);
  }

  // ---------- The heap itself ----------

  class Context<T> {
    var idx: nat
    var val: T

    constructor (idx: nat, val: T)
      ensures this.idx == idx && this.val == val
    {
      this.idx, this.val := idx, val;
    }
  }

  class Heap<T> {
    var heap: seq<Context<T>>
    const less: (T, T) -> bool

    // Every handle knows its own position.
    ghost predicate Valid()
      reads this, heap
    {
      forall i :: 0 <= i < |heap| ==> heap[i].idx == i
    }

    ghost function Nodes(): set<Context<T>>
      reads this
    {
      set c | c in heap
    }

    ghost function Values(): (v: seq<T>)
      reads this, heap
      ensures |v| == |heap|
      ensures forall i :: 0 <= i < |heap| ==> v[i] == heap[i].val
    {
      seq(|heap|, i requires 0 <= i < |heap| reads this, heap => heap[i].val)
    }

    constructor (less: (T, T) -> bool)
      ensures Valid() && heap == [] && this.less == less
    {
      this.less := less;
      heap := [];
    }

    static lemma SameMembers<U>(s: seq<U>, i: nat, j: nat)
      requires i < |s| && j < |s|
      ensures forall c :: c in s <==> c in Swap(s, i, j)
    {
      var t := Swap(s, i, j);
      forall c | c in s
        ensures c in t
      {
        var k :| 0 <= k < |s| && s[k] == c;
        assert t[if k == i then j else if k == j then i else k] == c;
      }
    }

    // std::swap on two slots of heap_, then on the idx of the nodes now in them
    method SwapNodes(i: nat, j: nat)
      requires Valid() && i < |heap| && j < |heap|
      modifies `heap, Nodes()`idx
      ensures Valid() && heap == old(heap)[i := old(heap[j])][j := old(heap[i])]
      ensures Nodes() == old(Nodes()) && Values() == Swap(old(Values()), i, j)
    {
      heap := heap[i := heap[j]][j := heap[i]];
      SameMembers(old(heap), i, j);
      heap[i].idx, heap[j].idx := heap[j].idx, heap[i].idx;
    }

    method SiftUpFrom(idx: nat)
      requires Valid() && idx < |heap|
      modifies `heap, Nodes()`idx
      ensures Valid() && Nodes() == old(Nodes()) && |heap| == old(|heap|)
      ensures Values() == SiftUp(old(Values()), less, idx)
    {
      var i: nat := idx;
      while i > 0 && less(heap[(i - 1) / 2].val, heap[i].val)
        invariant Valid() && Nodes() == old(Nodes()) && i < |heap| == old(|heap|)
        invariant SiftUp(Values(), less, i) == SiftUp(old(Values()), less, idx)
      {
        var parent := (i - 1) / 2;
        SwapNodes(parent, i);
        i := parent;
      }
    }

    method PickLargest(i: nat) returns (largest: nat)
      requires Valid() && i < |heap|
      ensures largest == Largest(Values(), less, i)
    {
      var left, right := 2 * i + 1, 2 * i + 2;
      largest := i;
      if left < |heap| && less(heap[largest].val, heap[left].val) {
        largest := left;
      }
      if right < |heap| && less(heap[largest].val, heap[right].val) {
        largest := right;
      }
    }

    method SiftDownFrom(idx: nat)
      requires Valid() && idx < |heap|
      modifies `heap, Nodes()`idx
      ensures Valid() && Nodes() == old(Nodes()) && |heap| == old(|heap|)
      ensures Values() == SiftDown(old(Values()), less, idx)
      decreases |heap| - idx, 1
    {
      var i: nat := idx;
      var size := |heap|;
      ghost var result := SiftDown(Values(), less, idx);
      while true
        invariant Valid() && Nodes() == old(Nodes()) && idx <= i < |heap| == size == old(|heap|)
        invariant SiftDown(Values(), less, i) == result
        decreases size - i
      {
        var largest := PickLargest(i);
        if largest == i {
          break;
        }
        SiftDownStep(Values(), less, i);
        Descend(largest, i);
        i := largest;
      }
    }

    // The swap and the recursive call of sift_down.
    method Descend(k: nat, i: nat)
      requires Valid() && i < k < |heap|
      modifies `heap, Nodes()`idx
      ensures Valid() && Nodes() == old(Nodes()) && |heap| == old(|heap|)
      ensures Values() == SiftDown(Swap(old(Values()), k, i), less, k)
      decreases |heap| - i, 0
    {
      SwapNodes(k, i);
      SiftDownFrom(k);
    }

    // The new handle holds the value and knows where it is.
    method InsertValue(t: T) returns (context: Context<T>)
      requires Valid()
      modifies `heap, Nodes()`idx
      ensures Valid() && fresh(context) && context.val == t
      ensures Nodes() == old(Nodes()) + {context}
      ensures Values() == Insert(old(Values()), less, t)
    {
      context := new Context(|heap|, t);
      heap := heap + [context];
      assert Values() == old(Values()) + [t];
      SiftUpFrom(|heap| - 1);
    }

    // False stands for the exception. On success exactly the handle at idx is gone.
    method EraseAt(idx: nat) returns (ok: bool)
      requires Valid()
      modifies `heap, Nodes()`idx
      ensures Valid() && (ok <==> idx < |old(heap)|)
      ensures !ok ==> heap == old(heap) && Values() == old(Values())
      ensures ok ==> Nodes() == old(Nodes()) - {old(heap[idx])}
      ensures ok ==> Values() == Erase(old(Values()), less, idx)
    {
      if idx >= |heap| {
        return false;
      }
      SwapNodes(idx, |heap| - 1);
      DropLast();
      Restore(idx);
      return true;
    }

    method DropLast()
      requires Valid() && |heap| > 0
      modifies `heap
      ensures Valid() && heap == old(heap)[..|old(heap)| - 1]
      ensures Values() == old(Values())[..|old(heap)| - 1]
      ensures Nodes() == old(Nodes()) - {old(heap[|heap| - 1])}
    {
      var n := |heap| - 1;
      ghost var was := heap;
      heap := heap[..n];
      assert forall k :: 0 <= k < n ==> was[k].idx == k;
      assert was == heap + [was[n]];
      assert was[n].idx == n;
    }

    // The tail of erase, after the last value has moved into idx.
    method Restore(idx: nat)
      requires Valid() && idx <= |heap|
      modifies `heap, Nodes()`idx
      ensures Valid() && Nodes() == old(Nodes())
      ensures Values() == Settle(old(Values()), less, idx)
    {
      if idx < |heap| {
        ghost var v := Values();
        assert v[idx] == heap[idx].val && v[|v| - 1] == heap[|heap| - 1].val;
        if less(heap[idx].val, heap[|heap| - 1].val) {
          SiftUpFrom(idx);
        } else {
          SiftDownFrom(idx);
        }
      }
    }

    method Pop() returns (t: Option<T>)
      requires Valid()
      modifies `heap, Nodes()`idx
      ensures Valid() && (t.None? <==> old(heap) == [])
      ensures t.None? ==> heap == old(heap)
      ensures t.Some? ==> t.value == old(Values())[0] && Values() == Erase(old(Values()), less, 0)
    {
      if |heap| == 0 {
        return None;
      }
      t := Some(heap[0].val);
      var _ := EraseAt(0);
    }
  }
}
