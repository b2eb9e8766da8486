// The byte FIFO of basic/staging_buffer.h with its producer and its consumer as
// interleaved accesses to shared memory: each step is one load or one store of
// producer_pos_, consumer_pos_ or end_of_record_ that the other side can notice.
module StagingAccess {
  import opened StagingBuffer
  import Bits

  // Where the producer is inside allocate; c is cached_consumer_pos.
  datatype Producer =
    | Away
    | AtGuard(size: nat, blocking: bool)        // at line 39
    | AtMark(size: nat, blocking: bool, c: nat) // at line 49
    | AtWrap(size: nat, blocking: bool, c: nat) // at line 54
    | AtLook(size: nat, blocking: bool)         // in its own peek, at line 94
    | AtMeasure(size: nat, blocking: bool)      // at line 96
    | AtRoll(size: nat, blocking: bool)         // at line 101

  // Where the consumer is; p is cached_producer_pos. from is history: where
  // consumer_pos_ was when the peek began or when the consumer stored it at line 101.
  datatype Consumer =
    | Out
    | GotProducer(p: nat, from: nat)         // at line 94
    | GotPosition(p: nat, from: nat)         // at line 96, whose loads may come in either order
    | GotEnd(p: nat, from: nat, e: nat)
    | GotStart(p: nat, from: nat, c: nat)
    | RollingOver(p: nat)                    // at line 101
    | Measuring(p: nat, from: nat)           // at line 103
    | Showing(from: nat, avail: nat)         // at line 98 or 104
    | Releasing(k: nat, c: nat)              // at line 88, consumer_pos_ loaded

  datatype Shared = Shared(s: State, prod: Producer, cons: Consumer, records: seq<Region>, released: nat, credit: nat)

  datatype Access =
    | CallAllocate(size: nat, blocking: bool)
    | Grant          // the store at line 75
    | LoadConsumer   // line 40
    | MarkEnd        // line 49
    | WrapAround     // line 54
    | Look           // line 94, by the producer
    | Measure        // line 96, by the producer
    | RollOver       // line 101, by the producer
    | LoadProducer   // line 93
    | LoadPosition   // line 94
    | LoadEnd        // line 96
    | LoadStart      // line 96
    | StoreStart     // line 101
    | LoadAgain      // line 103
    | Show           // line 98 or 104: peek returns
    | LoadForRelease(k: nat) // line 88
    | StoreRelease   // line 88

  predicate Enabled(y: Shared, a: Access)
  {
    match a
    case CallAllocate(_, _) => y.prod.Away?
    case Grant => y.prod.AtGuard? && y.prod.size < y.s.free
    case LoadConsumer => y.prod.AtGuard? && y.prod.size >= y.s.free
    case MarkEnd => y.prod.AtMark?
    case WrapAround => y.prod.AtWrap?
    case Look => y.prod.AtLook?
    case Measure => y.prod.AtMeasure?
    case RollOver => y.prod.AtRoll?
    case LoadProducer => y.cons.Out?
    case LoadPosition => y.cons.GotProducer?
    case LoadEnd => y.cons.GotPosition? || y.cons.GotStart?
    case LoadStart => y.cons.GotPosition? || y.cons.GotEnd?
    case StoreStart => y.cons.RollingOver?
    case LoadAgain => y.cons.Measuring?
    case Show => y.cons.Showing?
    case LoadForRelease(k) => y.cons.Out? && k <= y.credit
    case StoreRelease => y.cons.Releasing?
  }

  // What the loop body does once min_free_space_ is known.
  function Onward(y: Shared, s: State, size: nat, blocking: bool): Shared
  {
    y.(s := s, prod := if !blocking && size >= s.free then Away else AtLook(size, blocking))
  }

  // Lines 96 and 97 with both loads done; the difference of two pointers is
  // taken in size_t.
  function Judged(p: nat, from: nat, e: nat, c: nat): Consumer
  {
    var avail := Bits.WrapSub(e, c, Bits.WORD);
    if avail > 0 then Showing(from, avail) else RollingOver(p)
  }

  function ProducerNext(y: Shared, a: Access): Shared
    requires Inv(y.s) && Enabled(y, a) && ProducerOk(y.s, y.prod)
  {
    var s := y.s;
    match a
    case CallAllocate(size, blocking) => y.(prod := AtGuard(size, blocking))
    case Grant =>
      y.(s := Take(s, y.prod.size), prod := Away, records := y.records + [Region(s.p, y.prod.size)])
    case LoadConsumer =>
      var AtGuard(size, blocking) := y.prod;
      if s.c > s.p then Onward(y, s.(free := s.c - s.p), size, blocking)
      else if s.n - s.p > size then y.(s := s.(free := s.n - s.p))
      else y.(s := s.(free := s.n - s.p), prod := AtMark(size, blocking, s.c))
    case MarkEnd =>
      var AtMark(size, blocking, c) := y.prod;
      if c != 0 then y.(s := s.(e := s.p), prod := AtWrap(size, blocking, c))
      else Onward(y, s.(e := s.p), size, blocking)
    case WrapAround => Onward(y, s.(p := 0, free := y.prod.c), y.prod.size, y.prod.blocking)
    case Look =>
      var AtLook(size, blocking) := y.prod;
      y.(prod := if s.p < s.c then AtMeasure(size, blocking) else AtGuard(size, blocking))
    case Measure =>
      var AtMeasure(size, blocking) := y.prod;
      y.(prod := if Bits.WrapSub(s.e, s.c, Bits.WORD) > 0 then AtGuard(size, blocking) else AtRoll(size, blocking))
    case RollOver => y.(s := s.(c := 0), prod := AtGuard(y.prod.size, y.prod.blocking))
    case _ => y
  }

  function ConsumerNext(y: Shared, a: Access): Shared
    requires Enabled(y, a) && ConsumerOk(y.s, y.cons, y.credit)
  {
    var s := y.s;
    match a
    case LoadProducer => y.(cons := GotProducer(s.p, s.c))
    case LoadPosition =>
      var GotProducer(p, from) := y.cons;
      y.(cons := if p < s.c then GotPosition(p, from) else Measuring(p, from))
    case LoadEnd =>
      y.(cons := if y.cons.GotStart? then Judged(y.cons.p, y.cons.from, s.e, y.cons.c)
                 else GotEnd(y.cons.p, y.cons.from, s.e))
    case LoadStart =>
      y.(cons := if y.cons.GotEnd? then Judged(y.cons.p, y.cons.from, y.cons.e, s.c)
                 else GotStart(y.cons.p, y.cons.from, s.c))
    case StoreStart => y.(s := s.(c := 0), cons := Measuring(y.cons.p, 0))
    case LoadAgain => y.(cons := Showing(y.cons.from, y.cons.p - s.c))
    case Show => y.(cons := Out, credit := y.cons.avail)
    case LoadForRelease(k) => y.(cons := Releasing(k, s.c))
    case StoreRelease =>
      var Releasing(k, c) := y.cons;
      y.(s := s.(c := c + k), cons := Out, released := y.released + k, credit := y.credit - k)
    case _ => y
  }

  predicate ByProducer(a: Access)
  {
    a.CallAllocate? || a.Grant? || a.LoadConsumer? || a.MarkEnd? || a.WrapAround? ||
    a.Look? || a.Measure? || a.RollOver?
  }

  function Next(y: Shared, a: Access): Shared
    requires SysInv(y) && Enabled(y, a)
  {
    if ByProducer(a) then ProducerNext(y, a) else ConsumerNext(y, a)
  }

  // ---------- The invariant ----------

  predicate ProducerOk(s: State, prod: Producer)
  {
    match prod
    case AtMark(size, _, c) => c <= s.c <= s.p && s.free == s.n - s.p <= size
    case AtWrap(size, _, c) => 0 < c <= s.c <= s.p == s.e && s.n - s.p <= size
    case AtMeasure(_, _) => s.p < s.e
    case AtRoll(_, _) => s.p < s.e && (s.c == s.e || s.c <= s.p)
    case _ => true
  }

  // consumer_pos_ is where the consumer left it, or the producer has rolled it over.
  predicate LeftOrRolled(s: State, from: nat)
  {
    s.c == from || s.c == 0
  }

  // p is a producer position that had been reached in the lap of consumer_pos_.
  predicate Reached(s: State, p: nat)
  {
    s.c <= p <= if s.c <= s.p then s.p else s.e
  }

  predicate BehindEnd(s: State, p: nat, from: nat)
  {
    LeftOrRolled(s, from) && p < from && p <= s.p && (s.c == from ==> s.p < s.c)
  }

  predicate ConsumerOk(s: State, cons: Consumer, credit: nat)
  {
    match cons
    case Out => true
    case GotProducer(p, from) => LeftOrRolled(s, from) && (s.c == from ==> Reached(s, p) || p <= s.p < s.c)
    case GotPosition(p, from) => BehindEnd(s, p, from)
    case GotEnd(p, from, e) => BehindEnd(s, p, from) && e <= s.n && (s.c == from ==> e == s.e)
    case GotStart(p, from, c) => BehindEnd(s, p, from) && c <= s.n && (s.c == from ==> c == from)
    case RollingOver(p) => p <= s.p && (s.c == 0 || s.p < s.c == s.e)
    case Measuring(p, from) => LeftOrRolled(s, from) && (s.c == from ==> Reached(s, p)) && s.c <= p
    case Showing(from, avail) => LeftOrRolled(s, from) && (s.c == from ==> avail <= Contiguous(s))
    case Releasing(k, c) => k <= credit && (c == s.c || (s.c == 0 && credit == 0))
  }

  // What has been handed out and not handed back is what is occupied, in order.
  predicate Accounted(y: Shared)
  {
    Inv(y.s) && y.released <= |Bytes(y.records)| && Occupied(y.s) == Bytes(y.records)[y.released..]
  }

  predicate SysInv(y: Shared)
  {
    y.s.n < Bits.WORD && Accounted(y) && y.credit <= Contiguous(y.s) &&
    ProducerOk(y.s, y.prod) && ConsumerOk(y.s, y.cons, y.credit)
  }

  // The accesses that can go wrong. The producer's store at line 101 must find
  // consumer_pos_ as it was loaded, or already rolled over and not moved since,
  // and the store of a release must find it as it was loaded. A peek must find
  // it, when it returns, where the consumer left it, or the producer must have
  // gone on since as far as what peek reports.
  predicate Clean(y: Shared, a: Access)
  {
    match a
    case RollOver => y.s.c == y.s.e || y.s.c == 0
    case Show => y.cons.Showing? && (y.s.c == y.cons.from || y.cons.avail <= y.s.p)
    case StoreRelease => y.cons.Releasing? && y.s.c == y.cons.c
    case _ => true
  }

  // ---------- Every clean access keeps the invariant ----------

  lemma WrapSubZero(e: nat, c: nat)
    requires e < Bits.WORD && c < Bits.WORD
    ensures Bits.WrapSub(e, c, Bits.WORD) == 0 <==> e == c
  {
    if e >= c {
      Bits.WrapSubSmall(e, c, Bits.WORD);
    } else {
      Bits.DivModUnique(e - c, -1, e - c + Bits.WORD, Bits.WORD);
    }
  }

  // Storage positions and the estimate may change as long as nothing moves in
  // or out and the window in front of the consumer does not shrink.
  ghost predicate SameBytes(s: State, t: State)
  {
    Inv(s) && Inv(t) && t.n == s.n && Occupied(t) == Occupied(s) && Contiguous(s) <= Contiguous(t)
  }

  lemma GrantKeeps(y: Shared)
    requires SysInv(y) && Enabled(y, Grant)
    ensures SysInv(Next(y, Grant))
  {
    var size := y.prod.size;
    var all, more := Bytes(y.records), Range(y.s.p, y.s.p + size);
    TakeAppends(y.s, size);
    AppendBehind(Occupied(y.s), all, more, y.released);
    BytesAppend(y.records, Region(y.s.p, size));
    GrantKeepsConsumer(y.s, size, y.cons, y.credit);
  }

  lemma GrantKeepsConsumer(s: State, size: nat, cons: Consumer, credit: nat)
    requires Inv(s) && size < s.free && ConsumerOk(s, cons, credit)
    ensures ConsumerOk(Take(s, size), cons, credit) && Contiguous(s) <= Contiguous(Take(s, size))
  {
  }

  lemma WrapKeepsConsumer(s: State, t: State, cons: Consumer, credit: nat)
    requires Inv(s) && 0 < s.c <= s.p == s.e && t == s.(p := 0, free := t.free) && ConsumerOk(s, cons, credit)
    ensures ConsumerOk(t, cons, credit)
  {
  }

  lemma MarkKeepsConsumer(s: State, t: State, cons: Consumer, credit: nat)
    requires Inv(s) && s.c <= s.p && t == s.(e := s.p) && ConsumerOk(s, cons, credit)
    ensures ConsumerOk(t, cons, credit)
  {
  }

  lemma RollKeepsConsumer(s: State, cons: Consumer, credit: nat)
    requires Inv(s) && (s.c == s.e || s.c == 0) && s.p < s.e && ConsumerOk(s, cons, credit) && credit <= Contiguous(s)
    ensures ConsumerOk(s.(c := 0), cons, credit)
  {
  }

  lemma RollSameBytes(s: State)
    requires Inv(s) && (s.c == 0 || s.p < s.c == s.e)
    ensures SameBytes(s, s.(c := 0))
  {
  }

  // An access of the producer that leaves the bytes alone keeps the invariant
  // if it keeps what the two sides rely on.
  lemma UnmovedKeep(y: Shared, z: Shared)
    requires SysInv(y) && SameBytes(y.s, z.s)
    requires z.records == y.records && z.released == y.released && z.credit == y.credit && z.cons == y.cons
    requires ProducerOk(z.s, z.prod) && ConsumerOk(z.s, z.cons, z.credit)
    ensures SysInv(z)
  {
  }

  lemma FreeKeepsConsumer(s: State, free: nat, cons: Consumer, credit: nat)
    requires ConsumerOk(s, cons, credit)
    ensures ConsumerOk(s.(free := free), cons, credit)
  {
  }

  lemma LoadConsumerKeeps(y: Shared)
    requires SysInv(y) && Enabled(y, LoadConsumer)
    ensures SysInv(Next(y, LoadConsumer))
  {
    var z := Next(y, LoadConsumer);
    FreeKeepsConsumer(y.s, z.s.free, y.cons, y.credit);
    assert z.s == y.s.(free := z.s.free);
    UnmovedKeep(y, z);
  }

  lemma MarkEndKeeps(y: Shared)
    requires SysInv(y) && Enabled(y, MarkEnd)
    ensures SysInv(Next(y, MarkEnd))
  {
    MarkKeepsConsumer(y.s, y.s.(e := y.s.p), y.cons, y.credit);
    UnmovedKeep(y, Next(y, MarkEnd));
  }

  lemma WrapAroundKeeps(y: Shared)
    requires SysInv(y) && Enabled(y, WrapAround)
    ensures SysInv(Next(y, WrapAround))
  {
    var z := Next(y, WrapAround);
    WrapKeepsConsumer(y.s, z.s, y.cons, y.credit);
    UnmovedKeep(y, z);
  }

  lemma RollOverKeeps(y: Shared)
    requires SysInv(y) && Enabled(y, RollOver) && Clean(y, RollOver)
    ensures SysInv(Next(y, RollOver))
  {
    RollKeepsConsumer(y.s, y.cons, y.credit);
    RollSameBytes(y.s);
    UnmovedKeep(y, Next(y, RollOver));
  }

  lemma ProducerKeeps(y: Shared, a: Access)
    requires SysInv(y) && Enabled(y, a) && ByProducer(a) && Clean(y, a)
    ensures SysInv(Next(y, a))
  {
    if a.Grant? {
      GrantKeeps(y);
    } else if a.LoadConsumer? {
      LoadConsumerKeeps(y);
    } else if a.MarkEnd? {
      MarkEndKeeps(y);
    } else if a.WrapAround? {
      WrapAroundKeeps(y);
    } else if a.RollOver? {
      RollOverKeeps(y);
    } else {
      WrapSubZero(y.s.e, y.s.c);
      UnmovedKeep(y, Next(y, a));
    }
  }

  lemma JudgedOk(s: State, p: nat, from: nat, e: nat, c: nat, credit: nat)
    requires Inv(s) && s.n < Bits.WORD && BehindEnd(s, p, from) && e <= s.n && c <= s.n
    requires s.c == from ==> e == s.e && c == from
    ensures ConsumerOk(s, Judged(p, from, e, c), credit)
  {
    WrapSubZero(e, c);
    if s.c == from {
      Bits.WrapSubSmall(e, c, Bits.WORD);
    }
  }

  lemma StoreStartKeeps(y: Shared)
    requires SysInv(y) && Enabled(y, StoreStart)
    ensures SysInv(Next(y, StoreStart))
  {
    RollSameBytes(y.s);
  }

  lemma ReleaseKeepsProducer(s: State, k: nat, prod: Producer)
    requires Inv(s) && k <= Contiguous(s) && ProducerOk(s, prod)
    ensures ProducerOk(Deallocate(s, k), prod)
  {
  }

  lemma DropMore(all: seq<nat>, d: nat, k: nat)
    requires d + k <= |all|
    ensures all[d..][k..] == all[d + k..]
  {
  }

  lemma ReleaseAccounted(y: Shared, k: nat, z: Shared)
    requires Accounted(y) && k <= Contiguous(y.s)
    requires z.s == Deallocate(y.s, k) && z.records == y.records && z.released == y.released + k
    ensures Accounted(z) && Contiguous(z.s) == Contiguous(y.s) - k
  {
    DeallocateDrops(y.s, k);
    DropMore(Bytes(y.records), y.released, k);
  }

  lemma StoreReleaseKeeps(y: Shared)
    requires SysInv(y) && Enabled(y, StoreRelease) && Clean(y, StoreRelease)
    ensures SysInv(Next(y, StoreRelease))
  {
    var z := Next(y, StoreRelease);
    assert z.s == Deallocate(y.s, y.cons.k);
    ReleaseAccounted(y, y.cons.k, z);
    ReleaseKeepsProducer(y.s, y.cons.k, y.prod);
  }

  // A load of the consumer.
  lemma LoadKeeps(y: Shared, a: Access)
    requires SysInv(y) && Enabled(y, a) && !ByProducer(a) && Clean(y, a)
    requires !a.StoreStart? && !a.StoreRelease?
    ensures SysInv(Next(y, a))
  {
    if a.LoadEnd? && y.cons.GotStart? {
      JudgedOk(y.s, y.cons.p, y.cons.from, y.s.e, y.cons.c, y.credit);
    } else if a.LoadStart? && y.cons.GotEnd? {
      JudgedOk(y.s, y.cons.p, y.cons.from, y.cons.e, y.s.c, y.credit);
    }
    var z := Next(y, a);
    assert z.s == y.s && ConsumerOk(z.s, z.cons, z.credit);
  }

  lemma ConsumerKeeps(y: Shared, a: Access)
    requires SysInv(y) && Enabled(y, a) && !ByProducer(a) && Clean(y, a)
    ensures SysInv(Next(y, a))
  {
    if a.StoreStart? {
      StoreStartKeeps(y);
    } else if a.StoreRelease? {
      StoreReleaseKeeps(y);
    } else {
      LoadKeeps(y, a);
    }
  }

  lemma CleanKeepsInv(y: Shared, a: Access)
    requires SysInv(y) && Enabled(y, a) && Clean(y, a)
    ensures SysInv(Next(y, a))
  {
    if ByProducer(a) {
      ProducerKeeps(y, a);
    } else {
      ConsumerKeeps(y, a);
    }
  }

  // ---------- What is right, exactly ----------

  // Nothing is lost, doubled or out of order, and what the last peek reported
  // and has not been handed back is pending in one piece at consumer_pos_.
  ghost predicate Right(y: Shared)
  {
    Accounted(y) &&
    y.credit <= |Occupied(y.s)| && Occupied(y.s)[..y.credit] == Range(y.s.c, y.s.c + y.credit)
  }

  lemma InvIsRight(y: Shared)
    requires SysInv(y)
    ensures Right(y)
  {
    PeekShowsOldest(y.s);
  }

  lemma UncleanRollIsWrong(y: Shared)
    requires SysInv(y) && Enabled(y, RollOver) && !Clean(y, RollOver)
    ensures !Right(Next(y, RollOver))
  {
    assert |Occupied(y.s)| == y.s.p - y.s.c;
    assert |Occupied(Next(y, RollOver).s)| == y.s.p;
  }

  lemma UncleanShowIsWrong(y: Shared)
    requires SysInv(y) && Enabled(y, Show) && !Clean(y, Show)
    ensures !Right(Next(y, Show))
  {
    assert y.s.c == 0 && |Occupied(y.s)| == y.s.p;
  }

  // A release of no bytes whose store puts consumer_pos_ back to the end of the
  // record, behind which the producer has not yet used the space it gained.
  predicate PutsBack(y: Shared, a: Access)
  {
    a.StoreRelease? && y.cons.Releasing? && y.cons.k == 0 &&
    y.s.p < y.cons.c == y.s.e && y.s.free <= y.cons.c - y.s.p
  }

  // Only a release of no bytes can fail to be clean, and then it leaves the
  // buffer right exactly if it puts consumer_pos_ back.
  lemma UncleanReleaseExactly(y: Shared)
    requires SysInv(y) && Enabled(y, StoreRelease) && !Clean(y, StoreRelease)
    ensures y.cons.k == 0
    ensures Right(Next(y, StoreRelease)) <==> PutsBack(y, StoreRelease)
  {
    var s, t := y.s, Next(y, StoreRelease).s;
    assert s.c == 0 && |Occupied(s)| == s.p && t == s.(c := y.cons.c);
    if Inv(t) {
      assert |Occupied(t)| == if s.p < t.c then t.e - t.c + s.p else s.p - t.c;
    }
    if PutsBack(y, StoreRelease) {
      assert Occupied(t) == Occupied(s);
    }
  }

  // An access leaves the buffer right exactly if it is clean or puts
  // consumer_pos_ back.
  lemma RightExactly(y: Shared, a: Access)
    requires SysInv(y) && Enabled(y, a)
    ensures Right(Next(y, a)) <==> Clean(y, a) || PutsBack(y, a)
    ensures a.StoreRelease? && y.cons.k > 0 ==> Clean(y, a)
  {
    if Clean(y, a) {
      CleanKeepsInv(y, a);
      InvIsRight(Next(y, a));
    } else if a.RollOver? {
      UncleanRollIsWrong(y);
    } else if a.Show? {
      UncleanShowIsWrong(y);
    } else {
      UncleanReleaseExactly(y);
    }
  }

  // ---------- Every interleaving ----------

  // acts is a possible interleaving from y to z in which every access is clean.
  predicate CleanRun(y: Shared, acts: seq<Access>, z: Shared)
    requires SysInv(y)
    decreases |acts|
  {
    if |acts| == 0 then y == z
    else
      Enabled(y, acts[0]) && Clean(y, acts[0]) &&
      (CleanKeepsInv(y, acts[0]); CleanRun(Next(y, acts[0]), acts[1..], z))
  }

  lemma {:induction false} CleanRunKeepsInv(y: Shared, acts: seq<Access>, z: Shared)
    requires SysInv(y) && CleanRun(y, acts, z)
    ensures SysInv(z) && z.s.n == y.s.n
    decreases |acts|
  {
    if |acts| > 0 {
      CleanKeepsInv(y, acts[0]);
      CleanRunKeepsInv(Next(y, acts[0]), acts[1..], z);
    }
  }

  function Start(n: nat): (y: Shared)
    requires n < Bits.WORD
    ensures SysInv(y)
  {
    Shared(Initial(n), Away, Out, [], 0, 0)
  }

  // After every interleaving of clean accesses the bytes not yet handed back
  // are distinct offsets inside the storage and lie there in allocation order,
  // what was shown is the oldest of them in one piece, and min_free_space_ is a
  // sound bound. The next access leaves this so if and only if it is clean or
  // puts consumer_pos_ back.
  lemma CleanExactly(n: nat, acts: seq<Access>, z: Shared, a: Access)
    requires n < Bits.WORD && CleanRun(Start(n), acts, z) && Enabled(z, a)
    ensures SysInv(z) && z.s.n == n
    ensures var pending := Bytes(z.records)[z.released..];
            Distinct(pending) && (forall o :: o in pending ==> o < n) &&
            z.credit <= |pending| && pending[..z.credit] == Range(z.s.c, z.s.c + z.credit)
    ensures Right(Next(z, a)) <==> Clean(z, a) || PutsBack(z, a)
  {
    CleanRunKeepsInv(Start(n), acts, z);
    OccupiedInside(z.s);
    InvIsRight(z);
    RightExactly(z, a);
  }

  // ---------- When an access is clean ----------

  function PeekFrom(cons: Consumer): nat
    requires InPeek(cons)
  {
    match cons
    case GotProducer(_, from) => from
    case GotPosition(_, from) => from
    case GotEnd(_, from, _) => from
    case GotStart(_, from, _) => from
    case Measuring(_, from) => from
    case Showing(from, _) => from
  }

  predicate InPeek(cons: Consumer)
  {
    !cons.Out? && !cons.RollingOver? && !cons.Releasing?
  }

  // A peek under way that has something to read in front of consumer_pos_, and
  // finds it where the consumer left it.
  ghost predicate Reading(y: Shared)
  {
    InPeek(y.cons) && y.s.c == PeekFrom(y.cons) && Contiguous(y.s) > 0
  }

  lemma ProducerLeavesReading(y: Shared, a: Access)
    requires SysInv(y) && Contiguous(y.s) > 0 && Enabled(y, a) && ByProducer(a) && Clean(y, a)
    ensures Next(y, a).s.c == y.s.c && Contiguous(Next(y, a).s) > 0
  {
  }

  lemma LoadsKeepReading(y: Shared, a: Access)
    requires SysInv(y) && Reading(y) && Enabled(y, a) && !ByProducer(a) && a != Show
    ensures Reading(Next(y, a))
  {
    if a.LoadEnd? && y.cons.GotStart? {
      WrapSubZero(y.s.e, y.cons.c);
    } else if a.LoadStart? && y.cons.GotEnd? {
      WrapSubZero(y.cons.e, y.s.c);
    }
  }

  // Then no clean access disturbs it: a peek that begins with a byte to read
  // before the end of the record is right however it is interleaved.
  lemma ReadingStaysClean(y: Shared, a: Access)
    requires SysInv(y) && Reading(y) && Enabled(y, a) && Clean(y, a)
    ensures a != Show ==> Reading(Next(y, a))
    ensures y.cons.Showing? ==> Clean(y, Show)
  {
    if ByProducer(a) {
      ProducerLeavesReading(y, a);
    } else if a != Show {
      LoadsKeepReading(y, a);
    }
  }

  // The producer is inside its own peek with consumer_pos_ loaded at line 94 ...
  predicate ProducerPeeks(prod: Producer)
  {
    prod.AtMeasure? || prod.AtRoll?
  }

  // ... while the consumer is inside a peek, or inside a release of no bytes.
  predicate Clash(y: Shared)
  {
    ProducerPeeks(y.prod) && (InPeek(y.cons) || y.cons.RollingOver? || (y.cons.Releasing? && y.cons.k == 0))
  }

  // What both sides can rely on as long as that never happens: consumer_pos_ is
  // where each of them last saw it.
  predicate Undisturbed(y: Shared)
  {
    (y.prod.AtRoll? ==> y.s.c == y.s.e) &&
    (InPeek(y.cons) ==> y.s.c == PeekFrom(y.cons)) &&
    (y.cons.Releasing? ==> y.s.c == y.cons.c)
  }

  lemma NoClashProducer(y: Shared, a: Access)
    requires SysInv(y) && Undisturbed(y) && !Clash(y) && Enabled(y, a) && ByProducer(a) && !Clash(Next(y, a))
    ensures Clean(y, a) && Undisturbed(Next(y, a))
  {
    WrapSubZero(y.s.e, y.s.c);
  }

  lemma NoClashConsumer(y: Shared, a: Access)
    requires SysInv(y) && Undisturbed(y) && !Clash(y) && Enabled(y, a) && !ByProducer(a) && !Clash(Next(y, a))
    ensures Clean(y, a) && Undisturbed(Next(y, a))
  {
  }

  // acts is a possible interleaving from y to z in which the two sides do not clash.
  predicate ApartRun(y: Shared, acts: seq<Access>, z: Shared)
    requires SysInv(y) && Undisturbed(y) && !Clash(y)
    decreases |acts|
  {
    if |acts| == 0 then y == z
    else
      Enabled(y, acts[0]) && !Clash(Next(y, acts[0])) &&
      (NoClashIsClean(y, acts[0]); ApartRun(Next(y, acts[0]), acts[1..], z))
  }

  lemma NoClashIsClean(y: Shared, a: Access)
    requires SysInv(y) && Undisturbed(y) && !Clash(y) && Enabled(y, a) && !Clash(Next(y, a))
    ensures Clean(y, a) && SysInv(Next(y, a)) && Undisturbed(Next(y, a))
  {
    if ByProducer(a) {
      NoClashProducer(y, a);
    } else {
      NoClashConsumer(y, a);
    }
    CleanKeepsInv(y, a);
  }

  // If the two callers see to it that the producer's own peek never overlaps a
  // peek of the consumer or a release of no bytes, every access is clean.
  lemma {:induction false} ApartRunIsClean(y: Shared, acts: seq<Access>, z: Shared)
    requires SysInv(y) && Undisturbed(y) && !Clash(y) && ApartRun(y, acts, z)
    ensures CleanRun(y, acts, z) && SysInv(z) && Right(z)
    decreases |acts|
  {
    if |acts| > 0 {
      NoClashIsClean(y, acts[0]);
      ApartRunIsClean(Next(y, acts[0]), acts[1..], z);
    } else {
      InvIsRight(z);
    }
  }

  // ---------- Runs whose next access is not clean, for every size from four on ----------

  // A set of states that no clean access leaves.
  ghost predicate Closed(reach: Shared -> bool)
  {
    forall y, a :: reach(y) && SysInv(y) && Enabled(y, a) && Clean(y, a) ==> reach(Next(y, a))
  }

  lemma StepReaches(reach: Shared -> bool, y: Shared, a: Access) returns (z: Shared)
    requires Closed(reach) && reach(y) && SysInv(y) && Enabled(y, a) && Clean(y, a)
    ensures z == Next(y, a) && reach(z) && SysInv(z)
  {
    CleanKeepsInv(y, a);
    z := Next(y, a);
  }

  // A call of allocate that finds enough space known to be free.
  lemma AllocateAlone(reach: Shared -> bool, y: Shared, size: nat) returns (z: Shared)
    requires Closed(reach) && reach(y) && SysInv(y) && y.prod == Away && size < y.s.free
    ensures reach(z) && SysInv(z)
    ensures z == y.(s := Take(y.s, size), records := y.records + [Region(y.s.p, size)])
  {
    z := StepReaches(reach, y, CallAllocate(size, true));
    z := StepReaches(reach, z, Grant);
  }

  // A peek of everything up to the producer.
  lemma PeekAlone(reach: Shared -> bool, y: Shared) returns (z: Shared)
    requires Closed(reach) && reach(y) && SysInv(y) && y.cons == Out && y.s.c <= y.s.p
    ensures reach(z) && SysInv(z) && z == y.(credit := y.s.p - y.s.c)
  {
    z := StepReaches(reach, y, LoadProducer);
    z := StepReaches(reach, z, LoadPosition);
    z := StepReaches(reach, z, LoadAgain);
    z := StepReaches(reach, z, Show);
  }

  lemma ReleaseAlone(reach: Shared -> bool, y: Shared, k: nat) returns (z: Shared)
    requires Closed(reach) && reach(y) && SysInv(y) && y.cons == Out && k <= y.credit
    ensures reach(z) && SysInv(z)
    ensures z == y.(s := Deallocate(y.s, k), released := y.released + k, credit := y.credit - k)
  {
    z := StepReaches(reach, y, LoadForRelease(k));
    z := StepReaches(reach, z, StoreRelease);
  }

  // A call of allocate that wraps around while the consumer has still to read
  // the end of the record, and fits in front of the consumer.
  lemma AllocateWrapping(reach: Shared -> bool, y: Shared, size: nat) returns (z: Shared)
    requires Closed(reach) && reach(y) && SysInv(y) && y.prod == Away
    requires 0 < y.s.c < y.s.p && y.s.free <= y.s.n - y.s.p <= size < y.s.c
    ensures reach(z) && SysInv(z)
    ensures z == y.(s := Take(y.s.(e := y.s.p, p := 0, free := y.s.c), size), records := y.records + [Region(0, size)])
  {
    z := StepReaches(reach, y, CallAllocate(size, true));
    z := StepReaches(reach, z, LoadConsumer);
    z := StepReaches(reach, z, MarkEnd);
    z := StepReaches(reach, z, WrapAround);
    z := StepReaches(reach, z, Look);
    WrapSubZero(z.s.e, z.s.c);
    z := StepReaches(reach, z, Measure);
    z := StepReaches(reach, z, Grant);
  }

  // One byte is pending, in front; the consumer has read the record behind it
  // to its end.
  ghost predicate EndDrained(y: Shared, n: nat)
  {
    n >= 4 && y.s == State(n, 1, n - 1, n - 1, n - 3) && y.prod == Away && y.cons == Out && y.credit == 0 &&
    y.released == n - 1 <= |Bytes(y.records)| && Bytes(y.records)[n - 1..] == [0]
  }

  lemma DrainEnd(reach: Shared -> bool, n: nat) returns (z: Shared)
    requires 4 <= n < Bits.WORD && Closed(reach) && reach(Start(n))
    ensures reach(z) && SysInv(z)
    ensures EndDrained(z, n)
  {
    z := AllocateAlone(reach, Start(n), n - 1);
    z := PeekAlone(reach, z);
    z := ReleaseAlone(reach, z, n - 2);
    z := AllocateWrapping(reach, z, 1);
    z := ReleaseAlone(reach, z, 1);
    assert Occupied(z.s) == [0];
  }

  // The producer's own peek up to the decision to roll consumer_pos_ over.
  lemma AboutToRoll(reach: Shared -> bool, y: Shared) returns (z: Shared)
    requires Closed(reach) && reach(y) && SysInv(y) && y.prod == Away && y.s.p < y.s.c == y.s.e
    requires y.s.free < y.s.c - y.s.p
    ensures reach(z) && SysInv(z)
    ensures z == y.(s := y.s.(free := y.s.c - y.s.p), prod := AtRoll(y.s.c - y.s.p, true))
  {
    var size := y.s.c - y.s.p;
    z := StepReaches(reach, y, CallAllocate(size, true));
    z := StepReaches(reach, z, LoadConsumer);
    z := StepReaches(reach, z, Look);
    WrapSubZero(z.s.e, z.s.c);
    z := StepReaches(reach, z, Measure);
  }

  // The producer's own peek with its roll-over.
  lemma RollAlone(reach: Shared -> bool, y: Shared) returns (z: Shared)
    requires Closed(reach) && reach(y) && SysInv(y) && y.prod == Away && y.s.p < y.s.c == y.s.e
    requires y.s.free < y.s.c - y.s.p
    ensures reach(z) && SysInv(z)
    ensures z == y.(s := y.s.(c := 0, free := y.s.c - y.s.p), prod := AtGuard(y.s.c - y.s.p, true))
  {
    z := AboutToRoll(reach, y);
    z := StepReaches(reach, z, RollOver);
  }

  lemma CleanRunFirst(y: Shared, a: Access, acts: seq<Access>, z: Shared)
    requires SysInv(y) && Enabled(y, a) && Clean(y, a) && SysInv(Next(y, a)) && CleanRun(Next(y, a), acts, z)
    ensures CleanRun(y, [a] + acts, z)
  {
    assert ([a] + acts)[0] == a && ([a] + acts)[1..] == acts;
  }

  lemma CleanRunOne(z: Shared, a: Access)
    requires SysInv(z) && Enabled(z, a) && Clean(z, a)
    ensures CleanRun(z, [a], Next(z, a))
  {
    CleanKeepsInv(z, a);
    CleanRunFirst(z, a, [], Next(z, a));
    assert [a] + [] == [a];
  }

  lemma {:induction false} CleanRunExtends(y: Shared, acts: seq<Access>, z: Shared, a: Access)
    requires SysInv(y) && SysInv(z) && CleanRun(y, acts, z) && Enabled(z, a) && Clean(z, a)
    ensures CleanRun(y, acts + [a], Next(z, a))
    decreases |acts|
  {
    if |acts| == 0 {
      CleanRunOne(z, a);
      assert acts + [a] == [a];
    } else {
      CleanKeepsInv(y, acts[0]);
      CleanRunExtends(Next(y, acts[0]), acts[1..], z, a);
      assert (acts + [a])[1..] == acts[1..] + [a];
    }
  }

  ghost predicate CleanlyReached(n: nat, z: Shared)
    requires n < Bits.WORD
  {
    exists acts :: CleanRun(Start(n), acts, z)
  }

  lemma CleanlyClosed(n: nat)
    requires n < Bits.WORD
    ensures Closed(z => n < Bits.WORD && CleanlyReached(n, z)) && CleanlyReached(n, Start(n))
  {
    assert CleanRun(Start(n), [], Start(n));
    forall z, a | CleanlyReached(n, z) && SysInv(z) && Enabled(z, a) && Clean(z, a)
      ensures CleanlyReached(n, Next(z, a))
    {
      var acts :| CleanRun(Start(n), acts, z);
      CleanRunExtends(Start(n), acts, z, a);
      assert CleanRun(Start(n), acts + [a], Next(z, a));
    }
  }

  // The loads of a peek up to line 94, with consumer_pos_ ahead of the producer.
  lemma PeekToPosition(reach: Shared -> bool, y: Shared) returns (z: Shared)
    requires Closed(reach) && reach(y) && SysInv(y) && y.cons == Out && y.s.p < y.s.c
    ensures reach(z) && SysInv(z) && z == y.(cons := GotPosition(y.s.p, y.s.c))
  {
    z := StepReaches(reach, y, LoadProducer);
    z := StepReaches(reach, z, LoadPosition);
  }

  // The loads of line 96, end first, finding a first byte in front of the end.
  lemma PeekToEnd(reach: Shared -> bool, y: Shared) returns (z: Shared)
    requires Closed(reach) && reach(y) && SysInv(y) && y.cons.GotPosition? && y.s.c < y.s.e
    ensures reach(z) && SysInv(z) && z == y.(cons := Showing(y.cons.from, y.s.e - y.s.c))
  {
    z := StepReaches(reach, y, LoadEnd);
    Bits.WrapSubSmall(y.s.e, y.s.c, Bits.WORD);
    z := StepReaches(reach, z, LoadStart);
  }

  // A peek with the producer's roll-over between its loads at lines 94 and 96.
  lemma PeekStraddled(reach: Shared -> bool, y: Shared) returns (z: Shared)
    requires Closed(reach) && reach(y) && SysInv(y) && y.prod == Away && y.cons == Out
    requires y.s.p < y.s.c == y.s.e && y.s.free < y.s.c - y.s.p
    ensures reach(z) && SysInv(z)
    ensures var t := y.s.(c := 0, free := y.s.c - y.s.p);
            z == y.(s := t, prod := AtGuard(t.free, true), cons := Showing(y.s.c, y.s.e))
  {
    z := PeekToPosition(reach, y);
    z := RollAlone(reach, z);
    z := PeekToEnd(reach, z);
  }

  // Then peek is about to report the n - 1 bytes in front of the old end of the
  // record, although one byte is pending.
  lemma RollOverInsidePeek(n: nat) returns (z: Shared)
    requires 4 <= n < Bits.WORD
    ensures CleanlyReached(n, z) && SysInv(z) && z.cons == Showing(n - 1, n - 1) && z.s.c == 0
    ensures Bytes(z.records)[z.released..] == [0] && !Clean(z, Show) && !Right(Next(z, Show))
  {
    CleanlyClosed(n);
    var reach := z => n < Bits.WORD && CleanlyReached(n, z);
    z := DrainEnd(reach, n);
    z := PeekStraddled(reach, z);
    UncleanShowIsWrong(z);
  }

  // A peek that rolls over by itself.
  lemma PeekRolling(reach: Shared -> bool, y: Shared) returns (z: Shared)
    requires Closed(reach) && reach(y) && SysInv(y) && y.cons == Out && y.s.p < y.s.c == y.s.e
    ensures reach(z) && SysInv(z) && z == y.(s := y.s.(c := 0), credit := y.s.p)
  {
    z := PeekToPosition(reach, y);
    z := StepReaches(reach, z, LoadEnd);
    WrapSubZero(y.s.e, y.s.c);
    z := StepReaches(reach, z, LoadStart);
    z := StepReaches(reach, z, StoreStart);
    z := StepReaches(reach, z, LoadAgain);
    z := StepReaches(reach, z, Show);
  }

  // ---------- Calls with nobody in between are those of the coarser machine ----------

  // A whole peek.
  lemma PeekIsPeek(reach: Shared -> bool, y: Shared) returns (z: Shared)
    requires Closed(reach) && reach(y) && SysInv(y) && y.cons == Out
    ensures reach(z) && SysInv(z)
    ensures var (t, ptr, avail) := Peek(y.s);
            z == y.(s := t, credit := avail) && t.c == ptr
  {
    if y.s.c <= y.s.p {
      z := PeekAlone(reach, y);
    } else if y.s.c == y.s.e {
      z := PeekRolling(reach, y);
    } else {
      z := PeekToPosition(reach, y);
      z := PeekToEnd(reach, z);
      z := StepReaches(reach, z, Show);
    }
  }

  // The producer's own peek at the end of a loop pass.
  lemma LookIsPeek(reach: Shared -> bool, y: Shared) returns (z: Shared)
    requires Closed(reach) && reach(y) && SysInv(y) && y.prod.AtLook?
    ensures reach(z) && SysInv(z)
    ensures z == y.(s := Peek(y.s).0, prod := AtGuard(y.prod.size, y.prod.blocking))
  {
    z := StepReaches(reach, y, Look);
    if y.s.p < y.s.c {
      WrapSubZero(y.s.e, y.s.c);
      z := StepReaches(reach, z, Measure);
      if y.s.c == y.s.e {
        z := StepReaches(reach, z, RollOver);
      }
    }
  }

  // A loop pass up to its own peek.
  lemma PassToLook(reach: Shared -> bool, y: Shared) returns (z: Shared)
    requires Closed(reach) && reach(y) && SysInv(y) && y.prod.AtGuard? && y.prod.size >= y.s.free
    requires Pass(y.s, y.prod.size, y.prod.blocking).1 == Continue
    ensures reach(z) && SysInv(z)
    ensures z == y.(s := z.s, prod := AtLook(y.prod.size, y.prod.blocking))
    ensures Peek(z.s).0 == Pass(y.s, y.prod.size, y.prod.blocking).0
  {
    z := StepReaches(reach, y, LoadConsumer);
    if y.s.c <= y.s.p {
      z := StepReaches(reach, z, MarkEnd);
      if y.s.c != 0 {
        z := StepReaches(reach, z, WrapAround);
      }
    }
  }

  // A whole pass: allocate goes on to its guard, or returns a null pointer.
  lemma PassIsPass(reach: Shared -> bool, y: Shared) returns (z: Shared)
    requires Closed(reach) && reach(y) && SysInv(y) && y.prod.AtGuard? && y.prod.size >= y.s.free
    ensures reach(z) && SysInv(z)
    ensures var (t, exit) := Pass(y.s, y.prod.size, y.prod.blocking);
            z == y.(s := t, prod := if exit == ReturnNull then Away else y.prod)
  {
    var (t, exit) := Pass(y.s, y.prod.size, y.prod.blocking);
    if exit == Continue {
      z := PassToLook(reach, y);
      z := LookIsPeek(reach, z);
    } else {
      z := StepReaches(reach, y, LoadConsumer);
      if exit == ReturnNull && y.s.c <= y.s.p {
        z := StepReaches(reach, z, MarkEnd);
        if y.s.c != 0 {
          z := StepReaches(reach, z, WrapAround);
        }
      }
    }
  }

  // However the accesses interleave: the producer goes to the start only if the
  // record does not fit behind it.
  lemma WrapsOnlyIfNeeded(y: Shared)
    requires SysInv(y) && Enabled(y, WrapAround)
    ensures y.s.n - y.s.p <= y.prod.size && 0 < y.s.c <= y.s.p
  {
  }

  // The consumer rolls over by itself and hands the last byte back before the
  // producer's store at line 101: the store shows the byte again.
  lemma LateRollOver(n: nat) returns (z: Shared)
    requires 4 <= n < Bits.WORD
    ensures CleanlyReached(n, z) && SysInv(z) && z.prod.AtRoll?
    ensures Bytes(z.records)[z.released..] == [] && Occupied(Next(z, RollOver).s) == [0]
    ensures !Clean(z, RollOver) && !Right(Next(z, RollOver))
  {
    CleanlyClosed(n);
    var reach := z => n < Bits.WORD && CleanlyReached(n, z);
    z := DrainEnd(reach, n);
    z := AboutToRoll(reach, z);
    z := PeekRolling(reach, z);
    z := ReleaseAlone(reach, z, 1);
    UncleanRollIsWrong(z);
  }

  // A call of allocate that learns that the consumer is at the start.
  lemma AllocateBehind(reach: Shared -> bool, y: Shared) returns (z: Shared)
    requires Closed(reach) && reach(y) && SysInv(y) && y.prod.AtGuard? && y.prod.size >= y.s.free
    requires y.s.c == 0 && y.prod.size < y.s.n - y.s.p
    ensures reach(z) && SysInv(z)
    ensures z.s == Take(y.s.(free := y.s.n - y.s.p), y.prod.size) && z.cons == y.cons && z.prod == Away
  {
    z := StepReaches(reach, y, LoadConsumer);
    z := StepReaches(reach, z, Grant);
  }

  // A release of no bytes, begun, with the producer's roll-over behind it.
  lemma ReleaseStraddled(reach: Shared -> bool, y: Shared) returns (z: Shared)
    requires Closed(reach) && reach(y) && SysInv(y) && y.prod == Away && y.cons == Out
    requires y.s.p < y.s.c == y.s.e && y.s.free < y.s.c - y.s.p
    ensures reach(z) && SysInv(z)
    ensures var t := y.s.(c := 0, free := y.s.c - y.s.p);
            z == y.(s := t, prod := AtGuard(t.free, true), cons := Releasing(0, y.s.c))
  {
    z := StepReaches(reach, y, LoadForRelease(0));
    z := RollAlone(reach, z);
  }

  lemma LosesBytes(y: Shared, c: nat)
    requires SysInv(y) && y.cons == Releasing(0, c) && y.s.c == 0 < c == y.s.p
    ensures Occupied(y.s) == Range(0, c) && !Clean(y, StoreRelease)
    ensures Inv(Next(y, StoreRelease).s) && Occupied(Next(y, StoreRelease).s) == []
  {
  }

  // The store of that release puts consumer_pos_ back: all n - 1 pending bytes
  // are gone.
  lemma ZeroReleaseLosesBytes(n: nat) returns (z: Shared)
    requires 4 <= n < Bits.WORD
    ensures CleanlyReached(n, z) && SysInv(z) && z.cons == Releasing(0, n - 1)
    ensures Occupied(z.s) == Range(0, n - 1) && !Clean(z, StoreRelease)
    ensures Inv(Next(z, StoreRelease).s) && Occupied(Next(z, StoreRelease).s) == []
    ensures !Right(Next(z, StoreRelease))
  {
    CleanlyClosed(n);
    var reach := z => n < Bits.WORD && CleanlyReached(n, z);
    z := DrainEnd(reach, n);
    z := ReleaseStraddled(reach, z);
    z := AllocateBehind(reach, z);
    LosesBytes(z, n - 1);
    UncleanReleaseExactly(z);
  }
}
