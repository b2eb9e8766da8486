// The single-producer single-consumer buffer of basic/ringbuffer.hpp: free-running
// head and tail of a fixed-width unsigned type, no wasted slot.
module Ringbuffer {
  import opened Slots
  import Bits

  // index_t has bits bits and buffer_size is 2^order. The assertion on
  // buffer_mask makes order smaller than bits; index_t is not promoted to int.
  predicate Sized(order: nat, bits: nat)
  {
    32 <= bits && order < bits
  }

  lemma SizeAssertion(order: nat, bits: nat)
    requires 32 <= bits
    ensures Bits.Pow2(order) - 1 <= (Bits.Pow2(bits) - 1) / 2 <==> Sized(order, bits)
  {
    if order < bits {
      Bits.Pow2Monotone(order, bits - 1);
    } else {
      Bits.Pow2Monotone(bits, order);
    }
  }

  function M(bits: nat): (m: nat)
    ensures m > 0
  {
    Bits.Pow2(bits)
  }

  // head - tail in index_t
  function Used(head: nat, tail: nat, bits: nat): (n: nat)
    ensures n < M(bits)
  {
    Bits.WrapSub(head, tail, M(bits))
  }

  // buffer_size - (head - tail) in index_t
  function Room(head: nat, tail: nat, order: nat, bits: nat): (n: nat)
    ensures n < M(bits)
  {
    Bits.WrapSub(Bits.Pow2(order), Used(head, tail, bits), M(bits))
  }

  // However often the indices have wrapped, their differences are the true
  // element count and the true number of free slots.
  lemma CountsExact(p: nat, c: nat, order: nat, bits: nat)
    requires Sized(order, bits) && c <= p <= c + Bits.Pow2(order)
    ensures Used(p % M(bits), c % M(bits), bits) == p - c
    ensures Room(p % M(bits), c % M(bits), order, bits) == Bits.Pow2(order) - (p - c)
    ensures (p % M(bits) == c % M(bits)) <==> p == c
  {
    var s, m := Bits.Pow2(order), M(bits);
    Bits.Pow2Monotone(order, bits - 1);
    assert 2 * s <= m;
    Bits.WrapSubExact(c, p, m);
    Bits.DivModUnique(s - (p - c), 0, s - (p - c), m);
    if p != c {
      Bits.ModApart(c, p, m);
    }
  }

  // An index_t narrower than int is promoted before the subtraction in insert
  // and at. The promoted difference is the element count, and insert sees a
  // full buffer as full, exactly while head has not wrapped past tail.
  lemma PromotedExact(p: nat, c: nat, order: nat, bits: nat)
    requires order < bits && c <= p <= c + Bits.Pow2(order)
    ensures p % M(bits) - c % M(bits) == p - c <==> p / M(bits) == c / M(bits)
    ensures p % M(bits) - c % M(bits) == Bits.Pow2(order) <==>
              p - c == Bits.Pow2(order) && p / M(bits) == c / M(bits)
  {
    Bits.Pow2Monotone(order, bits - 1);
    Bits.ResidueGap(c, p, M(bits));
  }

  // An index that was advanced k times from a wrapped counter selects the slot
  // of the unbounded counter.
  lemma SlotExact(x: nat, k: nat, order: nat, bits: nat)
    requires Sized(order, bits)
    ensures (x % M(bits) + k) % M(bits) == (x + k) % M(bits)
    ensures Index((x % M(bits) + k) % M(bits), order) == Index(x + k, order)
  {
    Bits.WrapAdd(x, k, M(bits));
    IndexOfWrapped(x + k, order, bits);
  }

  // ---------- Producer and consumer as interleaved memory accesses ----------

  // insert and writeBuff: load head, load tail, write the slots one by one,
  // store head. vals is what the call will write; an insert writes one value.
  datatype Producer<T> =
    | PIdle
    | GotHead(vals: seq<T>, h: nat)
    | Writing(vals: seq<T>, h: nat, i: nat)

  // remove and readBuff: load tail, load head, read the slots one by one, store tail.
  datatype Consumer<T> =
    | CIdle
    | GotTail(cnt: nat, t: nat)
    | Reading(n: nat, t: nat, got: seq<T>)

  // published and consumed are history: everything head has been moved past,
  // and everything the consumer has returned.
  datatype State<T> = State(order: nat, bits: nat, head: nat, tail: nat, buff: seq<T>,
                            prod: Producer<T>, cons: Consumer<T>, published: seq<T>, consumed: seq<T>)

  datatype Step<T> =
    | PLoadHead(vals: seq<T>)
    | PLoadTail
    | PWriteSlot
    | PStoreHead
    | CLoadTail(cnt: nat)
    | CLoadHead
    | CReadSlot
    | CStoreTail

  predicate Enabled<T>(s: State<T>, a: Step<T>)
  {
    match a
    case PLoadHead(_) => s.prod.PIdle?
    case PLoadTail => s.prod.GotHead?
    case PWriteSlot => s.prod.Writing? && s.prod.i < |s.prod.vals|
    case PStoreHead => s.prod.Writing? && s.prod.i == |s.prod.vals|
    case CLoadTail(_) => s.cons.CIdle?
    case CLoadHead => s.cons.GotTail?
    case CReadSlot => s.cons.Reading? && |s.cons.got| < s.cons.n
    case CStoreTail => s.cons.Reading? && |s.cons.got| == s.cons.n
  }

  // Where the producer's next write and the consumer's next read go.
  function WriteSlot<T>(s: State<T>): nat
    requires s.prod.Writing?
  {
    Index((s.prod.h + s.prod.i) % M(s.bits), s.order)
  }

  function ReadSlot<T>(s: State<T>): nat
    requires s.cons.Reading?
  {
    Index((s.cons.t + |s.cons.got|) % M(s.bits), s.order)
  }

  function Min(a: nat, b: nat): nat
  {
    if a < b then a else b
  }

  function Next<T>(s: State<T>, a: Step<T>): State<T>
    requires |s.buff| == Bits.Pow2(s.order) && Enabled(s, a)
  {
    match a
    case PLoadHead(vals) => s.(prod := GotHead(vals, s.head))
    case PLoadTail =>
      var GotHead(vals, h) := s.prod;
      s.(prod := Writing(vals[..Min(|vals|, Room(h, s.tail, s.order, s.bits))], h, 0))
    case PWriteSlot =>
      var Writing(vals, h, i) := s.prod;
      s.(buff := s.buff[WriteSlot(s) := vals[i]], prod := Writing(vals, h, i + 1))
    case PStoreHead =>
      var Writing(vals, h, i) := s.prod;
      s.(head := (h + i) % M(s.bits), prod := PIdle, published := s.published + vals)
    case CLoadTail(cnt) => s.(cons := GotTail(cnt, s.tail))
    case CLoadHead =>
      var GotTail(cnt, t) := s.cons;
      s.(cons := Reading(Min(cnt, Used(s.head, t, s.bits)), t, []))
    case CReadSlot =>
      var Reading(n, t, got) := s.cons;
      s.(cons := Reading(n, t, got + [s.buff[ReadSlot(s)]]))
    case CStoreTail =>
      var Reading(n, t, got) := s.cons;
      s.(tail := (t + n) % M(s.bits), cons := CIdle, consumed := s.consumed + got)
  }

  function Start<T>(order: nat, bits: nat, buff: seq<T>): (s: State<T>)
    requires Sized(order, bits) && |buff| == Bits.Pow2(order)
    ensures Inv(s)
  {
    State(order, bits, 0, 0, buff, PIdle, CIdle, [], [])
  }

  ghost predicate Bounds<T>(s: State<T>)
  {
    Sized(s.order, s.bits) && |s.buff| == Bits.Pow2(s.order) &&
    s.head == |s.published| % M(s.bits) && s.tail == |s.consumed| % M(s.bits) &&
    |s.consumed| <= |s.published| <= |s.consumed| + Bits.Pow2(s.order)
  }

  ghost predicate ProducerOk<T>(s: State<T>)
    requires Bounds(s)
  {
    match s.prod
    case PIdle => true
    case GotHead(_, h) => h == s.head
    case Writing(vals, h, i) =>
      h == s.head && i <= |vals| && |s.published| + |vals| <= |s.consumed| + |s.buff| &&
      Window(s.buff, |s.published|, |s.published| + i, s.order) == vals[..i]
  }

  ghost predicate ConsumerOk<T>(s: State<T>)
    requires Bounds(s)
  {
    match s.cons
    case CIdle => true
    case GotTail(_, t) => t == s.tail
    case Reading(n, t, got) =>
      t == s.tail && |s.consumed| + n <= |s.published| && |got| <= n &&
      got == Window(s.buff, |s.consumed|, |s.consumed| + |got|, s.order)
  }

  ghost predicate Inv<T>(s: State<T>)
  {
    Bounds(s) &&
    s.published == s.consumed + Window(s.buff, |s.consumed|, |s.published|, s.order) &&
    ProducerOk(s) && ConsumerOk(s)
  }

  lemma LoadTailKeeps<T>(s: State<T>)
    requires Inv(s) && Enabled(s, PLoadTail)
    ensures Inv(Next(s, PLoadTail))
  {
    CountsExact(|s.published|, |s.consumed|, s.order, s.bits);
  }

  lemma LoadHeadKeeps<T>(s: State<T>)
    requires Inv(s) && Enabled(s, CLoadHead)
    ensures Inv(Next(s, CLoadHead))
  {
    CountsExact(|s.published|, |s.consumed|, s.order, s.bits);
  }

  // The write lands in the slot of the counter |published| + i, which is at
  // least a whole window away from everything the consumer may read.
  lemma WriteLandsAhead<T>(s: State<T>)
    requires Inv(s) && Enabled(s, PWriteSlot)
    ensures WriteSlot(s) == Index(|s.published| + s.prod.i, s.order)
    ensures forall w {:trigger Window(s.buff, |s.consumed|, w, s.order)} :: |s.consumed| <= w <= |s.published| ==>
              Window(Next(s, PWriteSlot).buff, |s.consumed|, w, s.order) == Window(s.buff, |s.consumed|, w, s.order)
  {
    var p, c, i, v := |s.published|, |s.consumed|, s.prod.i, s.prod.vals[s.prod.i];
    SlotExact(p, i, s.order, s.bits);
    forall w | c <= w <= p
      ensures Window(Next(s, PWriteSlot).buff, c, w, s.order) == Window(s.buff, c, w, s.order)
    {
      WindowUntouched(s.buff, c, w, s.order, p + i, v);
    }
  }

  lemma WriteKeeps<T>(s: State<T>)
    requires Inv(s) && Enabled(s, PWriteSlot)
    ensures Inv(Next(s, PWriteSlot))
  {
    var Writing(vals, h, i) := s.prod;
    WriteLandsAhead(s);
    WindowPush(s.buff, |s.published|, |s.published| + i, s.order, vals[i]);
    assert vals[..i + 1] == vals[..i] + [vals[i]];
  }

  lemma StoreHeadKeeps<T>(s: State<T>)
    requires Inv(s) && Enabled(s, PStoreHead)
    ensures Inv(Next(s, PStoreHead))
  {
    var Writing(vals, h, i) := s.prod;
    var p, c := |s.published|, |s.consumed|;
    SlotExact(p, i, s.order, s.bits);
    WindowSplit(s.buff, c, p, p + i, s.order);
    assert vals[..i] == vals;
  }

  lemma ReadKeeps<T>(s: State<T>)
    requires Inv(s) && Enabled(s, CReadSlot)
    ensures Inv(Next(s, CReadSlot))
  {
    var Reading(n, t, got) := s.cons;
    SlotExact(|s.consumed|, |got|, s.order, s.bits);
  }

  lemma StoreTailKeeps<T>(s: State<T>)
    requires Inv(s) && Enabled(s, CStoreTail)
    ensures Inv(Next(s, CStoreTail))
  {
    var Reading(n, t, got) := s.cons;
    var p, c := |s.published|, |s.consumed|;
    SlotExact(c, n, s.order, s.bits);
    WindowSplit(s.buff, c, c + n, p, s.order);
  }

  lemma NextKeepsInv<T>(s: State<T>, a: Step<T>)
    requires Inv(s) && Enabled(s, a)
    ensures Inv(Next(s, a))
  {
    match a
    case PLoadHead(_) =>
    case PLoadTail => LoadTailKeeps(s);
    case PWriteSlot => WriteKeeps(s);
    case PStoreHead => StoreHeadKeeps(s);
    case CLoadTail(_) =>
    case CLoadHead => LoadHeadKeeps(s);
    case CReadSlot => ReadKeeps(s);
    case CStoreTail => StoreTailKeeps(s);
  }

  // acts is a possible interleaving from s to z.
  ghost predicate Runs<T>(s: State<T>, acts: seq<Step<T>>, z: State<T>)
    requires Inv(s)
    decreases |acts|
  {
    if |acts| == 0 then s == z
    else Enabled(s, acts[0]) && (NextKeepsInv(s, acts[0]); Runs(Next(s, acts[0]), acts[1..], z))
  }

  lemma {:induction false} RunKeepsInv<T>(s: State<T>, acts: seq<Step<T>>, z: State<T>)
    requires Inv(s) && Runs(s, acts, z)
    ensures Inv(z) && z.order == s.order && z.bits == s.bits
    decreases |acts|
  {
    if |acts| > 0 {
      NextKeepsInv(s, acts[0]);
      RunKeepsInv(Next(s, acts[0]), acts[1..], z);
    }
  }

  function StoredSlot<T>(s: State<T>, j: nat): nat
  {
    Index((s.tail + j) % M(s.bits), s.order)
  }

  // What the buffer holds by its own indices alone: head - tail slots from tail on.
  function Stored<T>(s: State<T>): (q: seq<T>)
    requires |s.buff| == Bits.Pow2(s.order)
    ensures |q| == Used(s.head, s.tail, s.bits)
  {
    seq(Used(s.head, s.tail, s.bits), j requires 0 <= j => s.buff[StoredSlot(s, j)])
  }

  lemma StoredIsWindow<T>(s: State<T>)
    requires Inv(s)
    ensures Stored(s) == Window(s.buff, |s.consumed|, |s.published|, s.order)
  {
    CountsExact(|s.published|, |s.consumed|, s.order, s.bits);
    forall j | 0 <= j < |s.published| - |s.consumed|
      ensures Stored(s)[j] == s.buff[Index(|s.consumed| + j, s.order)]
    {
      SlotExact(|s.consumed|, j, s.order, s.bits);
    }
  }

  // In every interleaving nothing is lost, duplicated, reordered or invented.
  lemma RunConserves<T>(order: nat, bits: nat, buff: seq<T>, acts: seq<Step<T>>, z: State<T>)
    requires Sized(order, bits) && |buff| == Bits.Pow2(order)
    requires Runs(Start(order, bits, buff), acts, z)
    ensures |z.buff| == Bits.Pow2(z.order) && |Stored(z)| <= Bits.Pow2(order)
    ensures z.consumed + Stored(z) == z.published
  {
    RunKeepsInv(Start(order, bits, buff), acts, z);
    StoredIsWindow(z);
  }

  // The producer's next write never hits a slot that is still to be read.
  lemma WriteAvoidsStored<T>(s: State<T>, j: nat)
    requires Inv(s) && Enabled(s, PWriteSlot) && j < Used(s.head, s.tail, s.bits)
    ensures StoredSlot(s, j) != WriteSlot(s)
  {
    var p, c, i := |s.published|, |s.consumed|, s.prod.i;
    CountsExact(p, c, s.order, s.bits);
    SlotExact(p, i, s.order, s.bits);
    SlotExact(c, j, s.order, s.bits);
    IndexApart(c + j, p + i, s.order);
  }

  // So the two sides never touch one slot at the same time, whatever snapshot
  // of the other index each of them acts on.
  lemma NoRace<T>(s: State<T>)
    requires Inv(s) && Enabled(s, PWriteSlot)
    ensures forall j: nat :: j < Used(s.head, s.tail, s.bits) ==> StoredSlot(s, j) != WriteSlot(s)
    ensures Enabled(s, CReadSlot) ==> ReadSlot(s) != WriteSlot(s)
  {
    forall j: nat | j < Used(s.head, s.tail, s.bits)
      ensures StoredSlot(s, j) != WriteSlot(s)
    {
      WriteAvoidsStored(s, j);
    }
    if s.cons.Reading? {
      CountsExact(|s.published|, |s.consumed|, s.order, s.bits);
      assert ReadSlot(s) == StoredSlot(s, |s.cons.got|);
    }
  }

  // ---------- How much a call takes ----------

  // The slots that are free, by what was really published and consumed.
  function FreeNow<T>(s: State<T>): int
  {
    Bits.Pow2(s.order) - (|s.published| - |s.consumed|)
  }

  // A call of insert or writeBuff takes exactly the values that fit when it
  // loads tail; so an insert is refused exactly if the buffer is full then.
  lemma AcceptsExactly<T>(s: State<T>)
    requires Inv(s) && Enabled(s, PLoadTail)
    ensures 0 <= FreeNow(s) && Next(s, PLoadTail).prod.Writing?
    ensures Next(s, PLoadTail).prod.vals == s.prod.vals[..Min(|s.prod.vals|, FreeNow(s))]
    ensures |s.prod.vals| == 1 ==>
              (Next(s, PLoadTail).prod.vals == [] <==> |s.published| == |s.consumed| + Bits.Pow2(s.order))
  {
    CountsExact(|s.published|, |s.consumed|, s.order, s.bits);
  }

  // A call of remove or readBuff takes exactly what is there when it loads head;
  // so a remove comes back empty exactly if nothing is there then.
  lemma TakesExactly<T>(s: State<T>)
    requires Inv(s) && Enabled(s, CLoadHead)
    ensures Next(s, CLoadHead).cons == Reading(Min(s.cons.cnt, |s.published| - |s.consumed|), s.cons.t, [])
    ensures s.cons.cnt > 0 ==> (Next(s, CLoadHead).cons.n == 0 <==> s.published == s.consumed)
  {
    CountsExact(|s.published|, |s.consumed|, s.order, s.bits);
  }

  // What the call under way, offering these values, takes by step a.
  ghost function TakenBy<T>(s: State<T>, a: Step<T>, offered: seq<T>): seq<T>
    requires Inv(s) && Enabled(s, a)
  {
    if a.PLoadTail? then offered[..Min(|offered|, FreeNow(s))] else []
  }

  // What the producer's call under way offers after step a.
  function OfferedAfter<T>(a: Step<T>, offered: seq<T>): seq<T>
  {
    if a.PLoadHead? then a.vals else offered
  }

  // Over a run: of every call the values that fitted when it loaded tail.
  ghost function AllTaken<T>(s: State<T>, acts: seq<Step<T>>, offered: seq<T>, z: State<T>): seq<T>
    requires Inv(s) && Runs(s, acts, z)
    decreases |acts|
  {
    if |acts| == 0 then []
    else
      NextKeepsInv(s, acts[0]);
      TakenBy(s, acts[0], offered) + AllTaken(Next(s, acts[0]), acts[1..], OfferedAfter(acts[0], offered), z)
  }

  function InWriting<T>(s: State<T>): seq<T>
  {
    if s.prod.Writing? then s.prod.vals else []
  }

  // Published, or being written by the call under way.
  function GoneIn<T>(s: State<T>): seq<T>
  {
    s.published + InWriting(s)
  }

  lemma StepTakes<T>(s: State<T>, a: Step<T>, offered: seq<T>)
    requires Inv(s) && Enabled(s, a) && (s.prod.GotHead? ==> s.prod.vals == offered)
    ensures var t := Next(s, a);
            GoneIn(t) == GoneIn(s) + TakenBy(s, a, offered) &&
            (t.prod.GotHead? ==> t.prod.vals == OfferedAfter(a, offered))
  {
    if a.PLoadTail? {
      AcceptsExactly(s);
    }
  }

  lemma Regroup<T>(q: seq<T>, x: seq<T>, y: seq<T>)
    ensures (q + x) + y == q + (x + y)
  {
  }

  lemma {:induction false} RunTakes<T>(s: State<T>, acts: seq<Step<T>>, offered: seq<T>, z: State<T>)
    requires Inv(s) && Runs(s, acts, z) && (s.prod.GotHead? ==> s.prod.vals == offered)
    ensures GoneIn(z) == GoneIn(s) + AllTaken(s, acts, offered, z)
    decreases |acts|
  {
    if |acts| > 0 {
      var t, offered' := Next(s, acts[0]), OfferedAfter(acts[0], offered);
      NextKeepsInv(s, acts[0]);
      StepTakes(s, acts[0], offered);
      RunTakes(t, acts[1..], offered', z);
      Regroup(GoneIn(s), TakenBy(s, acts[0], offered), AllTaken(t, acts[1..], offered', z));
    }
  }

  // In every interleaving, what was published or is being written is, call by
  // call, the part of the offered values that fitted when the call loaded tail:
  // nothing that fitted is turned away.
  lemma RunPublishesWhatFits<T>(order: nat, bits: nat, buff: seq<T>, acts: seq<Step<T>>, z: State<T>)
    requires Sized(order, bits) && |buff| == Bits.Pow2(order)
    requires Runs(Start(order, bits, buff), acts, z)
    ensures GoneIn(z) == AllTaken(Start(order, bits, buff), acts, [], z)
  {
    RunTakes(Start(order, bits, buff), acts, [], z);
  }

  // The same for the consumer, with the number of values a call asks for.
  ghost function RemovedBy<T>(s: State<T>, a: Step<T>, wanted: nat): nat
    requires Inv(s)
  {
    if a.CLoadHead? then Min(wanted, |s.published| - |s.consumed|) else 0
  }

  function WantedAfter<T>(a: Step<T>, wanted: nat): nat
  {
    if a.CLoadTail? then a.cnt else wanted
  }

  ghost function AllRemoved<T>(s: State<T>, acts: seq<Step<T>>, wanted: nat, z: State<T>): nat
    requires Inv(s) && Runs(s, acts, z)
    decreases |acts|
  {
    if |acts| == 0 then 0
    else
      NextKeepsInv(s, acts[0]);
      RemovedBy(s, acts[0], wanted) + AllRemoved(Next(s, acts[0]), acts[1..], WantedAfter(acts[0], wanted), z)
  }

  function InReading<T>(s: State<T>): nat
  {
    if s.cons.Reading? then s.cons.n else 0
  }

  lemma StepRemoves<T>(s: State<T>, a: Step<T>, wanted: nat)
    requires Inv(s) && Enabled(s, a) && (s.cons.GotTail? ==> s.cons.cnt == wanted)
    ensures var t := Next(s, a);
            |t.consumed| + InReading(t) == |s.consumed| + InReading(s) + RemovedBy(s, a, wanted) &&
            (t.cons.GotTail? ==> t.cons.cnt == WantedAfter(a, wanted))
  {
    if a.CLoadHead? {
      TakesExactly(s);
    }
  }

  lemma {:induction false} RunRemoves<T>(s: State<T>, acts: seq<Step<T>>, wanted: nat, z: State<T>)
    requires Inv(s) && Runs(s, acts, z) && (s.cons.GotTail? ==> s.cons.cnt == wanted)
    ensures |z.consumed| + InReading(z) == |s.consumed| + InReading(s) + AllRemoved(s, acts, wanted, z)
    decreases |acts|
  {
    if |acts| > 0 {
      NextKeepsInv(s, acts[0]);
      StepRemoves(s, acts[0], wanted);
      RunRemoves(Next(s, acts[0]), acts[1..], WantedAfter(acts[0], wanted), z);
    }
  }

  // In every interleaving each call removes, of the number asked for, as many as
  // there were when it loaded head.
  lemma RunRemovesWhatIsThere<T>(order: nat, bits: nat, buff: seq<T>, acts: seq<Step<T>>, z: State<T>)
    requires Sized(order, bits) && |buff| == Bits.Pow2(order)
    requires Runs(Start(order, bits, buff), acts, z)
    ensures |z.consumed| + InReading(z) == AllRemoved(Start(order, bits, buff), acts, 0, z)
  {
    RunRemoves(Start(order, bits, buff), acts, 0, z);
  }
}
