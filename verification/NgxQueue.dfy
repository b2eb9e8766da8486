// The circular queue of core/ngx_queue.cpp: lazily wrapped positions in
// 0..nalloc, with no separate element count.
module NgxQueue {
  import opened Wrappers
  import Bits

  // The fields of ngx_queue_s; nalloc is |elts|.
  datatype State<T> = State(elts: seq<T>, head: nat, end: nat)

  // One call. A push of None is a push of a null pointer.
  datatype Op<T> = Push(val: Option<T>) | Get

  // What a call returns: push a flag, get an element or null.
  datatype Out<T> = Flag(ok: bool) | Elt(e: Option<T>)

  // Positions never exceed nalloc, and after the first get neither is 0.
  predicate Inv<T>(s: State<T>)
  {
    s.head <= |s.elts| && s.end <= |s.elts| && (s.head > 0 ==> s.end > 0)
  }

  function Size<T>(s: State<T>): nat
    requires Inv(s)
  {
    if s.end < s.head then s.end + |s.elts| - s.head else s.end - s.head
  }

  // The elements the queue shows, oldest first.
  function Visible<T>(s: State<T>): (q: seq<T>)
    requires Inv(s)
    ensures |q| == Size(s)
  {
    if s.end < s.head then s.elts[s.head..] + s.elts[..s.end] else s.elts[s.head..s.end]
  }

  function Step<T>(s: State<T>, op: Op<T>): (r: (State<T>, Out<T>))
    requires Inv(s)
    ensures Inv(r.0) && |r.0.elts| == |s.elts|
  {
    match op
    case Push(None) => (s, Flag(false))
    case Push(Some(v)) =>
      if Size(s) == |s.elts| then (s, Flag(false))
      else
        var e := if s.end >= |s.elts| then 0 else s.end;
        (State(s.elts[e := v], s.head, e + 1), Flag(true))
    case Get =>
      if s.end == s.head then (s, Elt(None))
      else
        var h := if s.head >= |s.elts| then 0 else s.head;
        (s.(head := h + 1), Elt(Some(s.elts[h])))
  }

  // The reference: a FIFO that holds at most cap elements.
  function FifoStep<T>(q: seq<T>, cap: nat, op: Op<T>): (seq<T>, Out<T>)
  {
    match op
    case Push(None) => (q, Flag(false))
    case Push(Some(v)) => if |q| >= cap then (q, Flag(false)) else (q + [v], Flag(true))
    case Get => if q == [] then (q, Elt(None)) else (q[1..], Elt(Some(q[0])))
  }

  // What a caller can check before a push: no get has happened yet, or at
  // least two slots are free.
  predicate Safe<T>(s: State<T>, op: Op<T>)
    requires Inv(s)
  {
    op.Push? && op.val.Some? ==> s.head == 0 || Size(s) + 1 < |s.elts|
  }

  // One call acts as the bounded FIFO exactly when it is safe.
  lemma StepIsFifo<T>(s: State<T>, op: Op<T>)
    requires Inv(s)
    ensures var (t, out) := Step(s, op);
            (Visible(t), out) == FifoStep(Visible(s), |s.elts|, op) <==> Safe(s, op)
  {
    match op
    case Push(None) =>
    case Push(Some(v)) =>
      if Size(s) != |s.elts| {
        PushShows(s, v);
      }
    case Get =>
      if s.end != s.head {
        GetShows(s);
      }
  }

  lemma PushShows<T>(s: State<T>, v: T)
    requires Inv(s) && Size(s) != |s.elts|
    ensures var t := Step(s, Push(Some(v))).0;
            Visible(t) == if s.head == 0 || Size(s) + 1 < |s.elts| then Visible(s) + [v] else []
  {
  }

  lemma GetShows<T>(s: State<T>)
    requires Inv(s) && s.end != s.head
    ensures var (t, out) := Step(s, Get);
            Visible(s) != [] && out == Elt(Some(Visible(s)[0])) && Visible(t) == Visible(s)[1..]
  {
  }

  // An unsafe push is accepted and loses everything, the new element included.
  lemma UnsafePushEmptiesQueue<T>(s: State<T>, v: T)
    requires Inv(s) && !Safe(s, Push(Some(v)))
    ensures var (t, out) := Step(s, Push(Some(v)));
            out == Flag(true) && Visible(t) == [] && Size(s) + 1 == |s.elts|
  {
  }

  // ---------- Whole runs ----------

  predicate AllSafe<T>(s: State<T>, ops: seq<Op<T>>)
    requires Inv(s)
    decreases |ops|
  {
    ops == [] || (Safe(s, ops[0]) && AllSafe(Step(s, ops[0]).0, ops[1..]))
  }

  // The run agrees with the bounded FIFO in every result and every visible content.
  predicate Refines<T(==)>(s: State<T>, q: seq<T>, ops: seq<Op<T>>)
    requires Inv(s)
    decreases |ops|
  {
    Visible(s) == q &&
    (ops == [] ||
     (Step(s, ops[0]).1 == FifoStep(q, |s.elts|, ops[0]).1 &&
      Refines(Step(s, ops[0]).0, FifoStep(q, |s.elts|, ops[0]).0, ops[1..])))
  }

  lemma {:induction false} RunIsFifo<T>(s: State<T>, ops: seq<Op<T>>)
    requires Inv(s)
    ensures Refines(s, Visible(s), ops) <==> AllSafe(s, ops)
    decreases |ops|
  {
    if ops != [] {
      StepIsFifo(s, ops[0]);
      var t := Step(s, ops[0]).0;
      RunIsFifo(t, ops[1..]);
      var q := FifoStep(Visible(s), |s.elts|, ops[0]).0;
      if Visible(t) != q {
        assert !Refines(t, q, ops[1..]);
      }
    }
  }

  function Run<T>(s: State<T>, ops: seq<Op<T>>): (t: State<T>)
    requires Inv(s)
    ensures Inv(t) && |t.elts| == |s.elts|
    decreases |ops|
  {
    if ops == [] then s else Run(Step(s, ops[0]).0, ops[1..])
  }

  // Accepted pushes minus successful gets along a run.
  function Outstanding<T>(s: State<T>, ops: seq<Op<T>>): int
    requires Inv(s)
    decreases |ops|
  {
    if ops == [] then 0
    else
      var (t, out) := Step(s, ops[0]);
      (if out == Flag(true) then 1 else if out.Elt? && out.e.Some? then -1 else 0) + Outstanding(t, ops[1..])
  }

  // Congruence modulo n, as a witness that adds up along a run.
  ghost predicate Cong(a: int, b: int, n: nat)
  {
    exists k: int :: a - b == k * n
  }

  lemma CongTrans(a: int, b: int, c: int, n: nat)
    requires Cong(a, b, n) && Cong(b, c, n)
    ensures Cong(a, c, n)
  {
    var i: int :| a - b == i * n;
    var j: int :| b - c == j * n;
    assert a - c == (i + j) * n;
  }

  lemma StepCounts<T>(s: State<T>, op: Op<T>)
    requires Inv(s)
    ensures var (t, out) := Step(s, op);
            var d := if out == Flag(true) then 1 else if out.Elt? && out.e.Some? then -1 else 0;
            Cong(t.end - t.head, s.end - s.head + d, |s.elts|)
  {
    var (t, out) := Step(s, op);
    var d := if out == Flag(true) then 1 else if out.Elt? && out.e.Some? then -1 else 0;
    var a, b, n := t.end - t.head, s.end - s.head + d, |s.elts|;
    assert a - b == 0 * n || a - b == (-1) * n || a - b == 1 * n;
  }

  lemma {:induction false} RunCounts<T>(s: State<T>, ops: seq<Op<T>>)
    requires Inv(s)
    ensures var t := Run(s, ops);
            Cong(t.end - t.head, s.end - s.head + Outstanding(s, ops), |s.elts|)
    decreases |ops|
  {
    if ops == [] {
      assert s.end - s.head - (s.end - s.head) == 0 * |s.elts|;
    } else {
      var (t, out) := Step(s, ops[0]);
      var rest := Outstanding(t, ops[1..]);
      StepCounts(s, ops[0]);
      RunCounts(t, ops[1..]);
      var d := Outstanding(s, ops) - rest;
      var u := Run(s, ops);
      var k: int :| (t.end - t.head) - (s.end - s.head + d) == k * |s.elts|;
      assert (t.end - t.head + rest) - (s.end - s.head + d + rest) == k * |s.elts|;
      CongTrans(u.end - u.head, t.end - t.head + rest, s.end - s.head + d + rest, |s.elts|);
    }
  }

  // Whether some get of the run returned an element.
  predicate SomeGet<T>(s: State<T>, ops: seq<Op<T>>)
    requires Inv(s)
    decreases |ops|
  {
    ops != [] && ((ops[0].Get? && s.head != s.end) || SomeGet(Step(s, ops[0]).0, ops[1..]))
  }

  lemma {:induction false} HeadRecordsGets<T>(s: State<T>, ops: seq<Op<T>>)
    requires Inv(s)
    ensures Run(s, ops).head > 0 <==> s.head > 0 || SomeGet(s, ops)
    decreases |ops|
  {
    if ops != [] {
      HeadRecordsGets(Step(s, ops[0]).0, ops[1..]);
    }
  }

  lemma ResidueOf(size: nat, o: int, k: int, n: nat)
    requires size - o == k * n && size < n
    ensures size == o % n
  {
    assert (-k) * n == -(k * n);
    Bits.DivModUnique(o, -k, size, n);
  }

  // From a fresh queue, once a get has succeeded, the reported size is the
  // outstanding count modulo nalloc, however far the count has run ahead.
  lemma SizeIsOutstandingModNalloc<T>(elts: seq<T>, ops: seq<Op<T>>)
    requires SomeGet(State(elts, 0, 0), ops)
    ensures |elts| > 0
    ensures Size(Run(State(elts, 0, 0), ops)) == Outstanding(State(elts, 0, 0), ops) % |elts|
  {
    var s := State(elts, 0, 0);
    HeadRecordsGets(s, ops);
    RunCounts(s, ops);
    var t, o, n := Run(s, ops), Outstanding(s, ops), |elts|;
    var k: int :| (t.end - t.head) - (s.end - s.head + o) == k * n;
    if t.end < t.head {
      assert (k + 1) * n == k * n + n;
      ResidueOf(Size(t), o, k + 1, n);
    } else {
      ResidueOf(Size(t), o, k, n);
    }
  }

  // ---------- The queue itself ----------

  class Queue<T(0)> {
    const elts: array<T>
    const nalloc: nat
    var head: nat
    var end: nat

    ghost predicate Valid()
      reads this, elts
    {
      nalloc == elts.Length && Inv(View())
    }

    ghost function View(): State<T>
      reads this, elts
    {
      State(elts[..], head, end)
    }

    constructor (n: nat)
      ensures Valid() && fresh(elts)
      ensures nalloc == n && View() == State(elts[..], 0, 0)
    {
      elts := new T[n];
      nalloc := n;
      head, end := 0, 0;
    }

    method SizeOf() returns (n: nat)
      requires Valid()
      ensures n == |Visible(View())|
    {
      if end < head {
        return end + nalloc - head;
      }
      return end - head;
    }

    method IsEmpty() returns (b: bool)
      requires Valid()
      ensures b <==> Visible(View()) == []
    {
      return end == head;
    }

    method PushBack(val: Option<T>) returns (ok: bool)
      requires Valid()
      modifies `end, elts
      ensures Valid()
      ensures (View(), Flag(ok)) == Step(old(View()), Push(val))
      ensures val.Some? && (old(head) == 0 || |old(Visible(View()))| + 1 < nalloc) ==>
                (Visible(View()), Flag(ok)) == FifoStep(old(Visible(View())), nalloc, Push(val))
    {
      StepIsFifo(View(), Push(val));
      if val.None? {
        return false;
      }
      var size := SizeOf();
      if nalloc == size {
        return false;
      }
      if end >= nalloc {
        end := 0;
      }
      elts[end] := val.value;
      end := end + 1;
      return true;
    }

    method PopFront() returns (e: Option<T>)
      requires Valid()
      modifies `head
      ensures Valid()
      ensures (View(), Elt(e)) == Step(old(View()), Get)
      ensures (Visible(View()), Elt(e)) == FifoStep(old(Visible(View())), nalloc, Get)
    {
      StepIsFifo(View(), Get);
      var empty := IsEmpty();
      if empty {
        return None;
      }
      if head >= nalloc {
        head := 0;
      }
      e := Some(elts[head]);
      head := head + 1;
    }
  }
}
