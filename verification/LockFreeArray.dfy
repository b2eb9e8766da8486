// The ticketed multi-producer array of basic/lock_free_array.h as a machine
// whose steps are the single accesses to shared memory, for any number of
// producers and one consumer.
module LockFreeArray {
  import opened Slots
  import opened Wrappers
  import Bits

  // Where a producer is inside push. w and r are current_write_index and
  // current_read_index.
  datatype Producer<T> =
    | Idle
    | Begun(val: T)                      // at line 57
    | HaveWrite(val: T, w: nat)          // at line 58
    | HaveRead(val: T, w: nat, r: nat)   // fullness test passed, at line 61
    | Filling(val: T, w: nat)            // ticket w reserved, at line 63
    | Publishing(w: nat)                 // slot written, at line 65

  // Where the consumer is inside try_pop. published records whether the ticket
  // was below max_num_read_index when read_index was loaded at line 113.
  datatype Consumer<T> =
    | Outside
    | TestedRead(r: nat)     // in empty(), read_index loaded
    | TestedWrite(w: nat)    // in empty(), write_index loaded (operands may load in either order)
    | NonEmpty               // at line 113
    | Loaded(r: nat, published: bool)
    | Copied(r: nat, entry: Entry<T>)

  // A value taken out of a slot, and the ticket whose push wrote it there.
  datatype Entry<T> = Entry(val: T, from: Option<nat>, published: bool)

  // The array, the producers, and a history that no step of the program reads.
  datatype Array<T> = Array(
    order: nat,               // N is 2^order
    writeIndex: nat,
    readIndex: nat,
    maxRead: nat,             // max_num_read_index
    queue: seq<T>,
    producers: seq<Producer<T>>,
    initial: seq<T>,          // the slots at the start
    tickets: seq<T>,          // the value pushed under each reserved ticket
    owner: seq<nat>,          // the producer that reserved each ticket
    writer: seq<Option<nat>>, // for each slot, the ticket that wrote it last
    popped: seq<Entry<T>>)    // what each successful try_pop returned

  datatype State<T> = State(m: Array<T>, consumer: Consumer<T>)

  datatype Step<T> =
    | CallPush(p: nat, val: T)
    | LoadWrite(p: nat)
    | LoadRead(p: nat)
    | CasWrite(p: nat)
    | Fill(p: nat)
    | Publish(p: nat)
    | TestLoadRead
    | TestLoadWrite
    | LoadTicket
    | CopySlot
    | CasRead

  function N<T>(m: Array<T>): (n: nat)
    ensures n >= 1
  {
    Bits.Pow2(m.order)
  }

  // ---------- The steps ----------

  predicate Enabled<T>(s: State<T>, a: Step<T>)
  {
    match a
    case CallPush(p, _) => p < |s.m.producers| && s.m.producers[p].Idle?
    case LoadWrite(p) => p < |s.m.producers| && s.m.producers[p].Begun?
    case LoadRead(p) => p < |s.m.producers| && s.m.producers[p].HaveWrite?
    case CasWrite(p) => p < |s.m.producers| && s.m.producers[p].HaveRead?
    case Fill(p) => p < |s.m.producers| && s.m.producers[p].Filling?
    case Publish(p) => p < |s.m.producers| && s.m.producers[p].Publishing?
    case TestLoadRead => s.consumer.Outside? || s.consumer.TestedWrite?
    case TestLoadWrite => s.consumer.Outside? || s.consumer.TestedRead?
    case LoadTicket => s.consumer.NonEmpty?
    case CopySlot => s.consumer.Loaded?
    case CasRead => s.consumer.Copied?
  }

  predicate Shaped<T>(m: Array<T>)
  {
    |m.queue| == |m.writer| == |m.initial| == N(m)
  }

  function Go<T>(m: Array<T>, p: nat, pc: Producer<T>): Array<T>
    requires p < |m.producers|
  {
    m.(producers := m.producers[p := pc])
  }

  // The successful CAS at line 61.
  function Reserve<T>(m: Array<T>, p: nat): Array<T>
    requires p < |m.producers| && m.producers[p].HaveRead?
  {
    var HaveRead(val, w, _) := m.producers[p];
    Go(m, p, Filling(val, w)).(writeIndex := w + 1, tickets := m.tickets + [val], owner := m.owner + [p])
  }

  // The slot write at line 63.
  function FillSlot<T>(m: Array<T>, p: nat): Array<T>
    requires Shaped(m) && p < |m.producers| && m.producers[p].Filling?
  {
    var Filling(val, w) := m.producers[p];
    var i := Index(w, m.order);
    Go(m, p, Publishing(w)).(queue := m.queue[i := val], writer := m.writer[i := Some(w)])
  }

  // The successful CAS at line 65; push returns true.
  function PublishTicket<T>(m: Array<T>, p: nat): Array<T>
    requires p < |m.producers| && m.producers[p].Publishing?
  {
    Go(m, p, Idle).(maxRead := m.producers[p].w + 1)
  }

  // The successful CAS at line 115; try_pop returns true.
  function TakeEntry<T>(m: Array<T>, e: Entry<T>): Array<T>
  {
    m.(readIndex := m.readIndex + 1, popped := m.popped + [e])
  }

  function Next<T>(s: State<T>, a: Step<T>): State<T>
    requires Shaped(s.m) && Enabled(s, a)
  {
    var m := s.m;
    match a
    case CallPush(p, val) => s.(m := Go(m, p, Begun(val)))
    case LoadWrite(p) => s.(m := Go(m, p, HaveWrite(m.producers[p].val, m.writeIndex)))
    case LoadRead(p) =>
      var HaveWrite(val, w) := m.producers[p];
      if Index(w + 1, m.order) == Index(m.readIndex, m.order) then s.(m := Go(m, p, Idle)) // push returns false
      else s.(m := Go(m, p, HaveRead(val, w, m.readIndex)))
    case CasWrite(p) =>
      if m.writeIndex == m.producers[p].w then s.(m := Reserve(m, p))
      else s.(m := Go(m, p, Begun(m.producers[p].val)))
    case Fill(p) => s.(m := FillSlot(m, p))
    case Publish(p) => if m.maxRead == m.producers[p].w then s.(m := PublishTicket(m, p)) else s
    case TestLoadRead =>
      (match s.consumer
       case TestedWrite(w) => s.(consumer := if m.readIndex == w then Outside else NonEmpty)
       case _ => s.(consumer := TestedRead(m.readIndex)))
    case TestLoadWrite =>
      (match s.consumer
       case TestedRead(r) => s.(consumer := if r == m.writeIndex then Outside else NonEmpty)
       case _ => s.(consumer := TestedWrite(m.writeIndex)))
    case LoadTicket => s.(consumer := Loaded(m.readIndex, m.readIndex < m.maxRead))
    case CopySlot =>
      var Loaded(r, published) := s.consumer;
      var i := Index(r, m.order);
      s.(consumer := Copied(r, Entry(m.queue[i], m.writer[i], published)))
    case CasRead =>
      var Copied(r, entry) := s.consumer;
      if m.readIndex == r then State(TakeEntry(m, entry), Outside)
      else s.(consumer := Outside) // try_pop returns false
  }

  function Start<T>(order: nat, slots: seq<T>, producers: nat): State<T>
    requires |slots| == Bits.Pow2(order)
  {
    State(Array(order, 0, 0, 0, slots, seq(producers, _ => Idle), slots, [], [], seq(|slots|, _ => None), []), Outside)
  }

  // ---------- The invariant ----------

  ghost predicate Holds<T>(pc: Producer<T>, t: nat)
  {
    (pc.Filling? || pc.Publishing?) && pc.w == t
  }

  // The push that owns ticket t has written its slot.
  ghost predicate Filled<T>(m: Array<T>, t: nat)
    requires t < |m.owner|
  {
    t < m.maxRead || (m.owner[t] < |m.producers| && m.producers[m.owner[t]].Publishing?)
  }

  // The previous user of t's slot has written it before ticket t can be
  // reserved: there are not enough producers to hold N + 1 tickets, or the
  // consumer found t - N published when it popped it, or the ticket behind that
  // one, which also has to be popped before.
  ghost predicate LastLapDone<T>(m: Array<T>, t: nat)
  {
    |m.producers| <= N(m) || t < N(m) || Seen(m.popped, t - N(m)) || Seen(m.popped, t - N(m) + 1)
  }

  ghost predicate Seen<T>(popped: seq<Entry<T>>, t: nat)
  {
    t < |popped| && popped[t].published
  }

  ghost predicate Bounds<T>(m: Array<T>)
  {
    Shaped(m) && |m.tickets| == |m.owner| == m.writeIndex && |m.popped| == m.readIndex &&
    m.maxRead <= m.writeIndex && m.readIndex <= m.writeIndex < m.readIndex + N(m)
  }

  // Reserved but unpublished tickets and the producers holding them correspond one to one.
  ghost predicate TicketsHeld<T>(m: Array<T>)
    requires Bounds(m)
  {
    (forall t :: m.maxRead <= t < m.writeIndex ==>
       m.owner[t] < |m.producers| && Holds(m.producers[m.owner[t]], t)) &&
    (forall p :: 0 <= p < |m.producers| && (m.producers[p].Filling? || m.producers[p].Publishing?) ==>
       m.maxRead <= m.producers[p].w < m.writeIndex && m.owner[m.producers[p].w] == p) &&
    (forall p :: 0 <= p < |m.producers| && m.producers[p].Filling? ==>
       m.producers[p].w < m.writeIndex && m.tickets[m.producers[p].w] == m.producers[p].val)
  }

  ghost predicate SnapshotOk<T>(m: Array<T>, pc: Producer<T>)
  {
    match pc
    case HaveWrite(_, w) => w <= m.writeIndex && (|m.producers| == 1 ==> w == m.writeIndex)
    case HaveRead(_, w, r) =>
      w <= m.writeIndex && r <= m.readIndex && w < r + N(m) && Index(w + 1, m.order) != Index(r, m.order)
    case _ => true
  }

  ghost predicate SnapshotsOk<T>(m: Array<T>)
  {
    forall p :: 0 <= p < |m.producers| ==> SnapshotOk(m, m.producers[p])
  }

  // The entry really holds what its ticket pushed, or what the slot held at the start.
  ghost predicate EntryOk<T>(m: Array<T>, i: nat, e: Entry<T>)
  {
    match e.from
    case None => i < |m.initial| && e.val == m.initial[i]
    case Some(t) => t < |m.tickets| == |m.owner| && e.val == m.tickets[t] && Index(t, m.order) == i && Filled(m, t)
  }

  ghost predicate SlotsOk<T>(m: Array<T>)
    requires Shaped(m)
  {
    forall i :: 0 <= i < |m.queue| ==> EntryOk(m, i, Entry(m.queue[i], m.writer[i], true))
  }

  // A filled slot that is still to be read holds its own ticket's value, unless
  // the consumer ran ahead of the publication one lap earlier.
  ghost predicate FreshOk<T>(m: Array<T>)
    requires Bounds(m)
  {
    forall t :: m.readIndex <= t < m.writeIndex && Filled(m, t) && LastLapDone(m, t) ==>
      m.writer[Index(t, m.order)] == Some(t)
  }

  ghost predicate EntryCorrect<T>(m: Array<T>, t: nat, e: Entry<T>)
  {
    EntryOk(m, Index(t, m.order), e) &&
    (e.published ==> t < m.maxRead) &&
    (e.published && LastLapDone(m, t) ==> e.from == Some(t))
  }

  ghost predicate PoppedOk<T>(m: Array<T>)
  {
    forall i :: 0 <= i < |m.popped| ==> EntryCorrect(m, i, m.popped[i])
  }

  ghost predicate ArrayInv<T>(m: Array<T>)
  {
    Bounds(m) && TicketsHeld(m) && SnapshotsOk(m) && SlotsOk(m) && FreshOk(m) && PoppedOk(m)
  }

  ghost predicate ConsumerOk<T>(m: Array<T>, c: Consumer<T>)
  {
    match c
    case Outside => true
    case TestedRead(r) => r == m.readIndex
    case TestedWrite(w) => m.readIndex <= w <= m.writeIndex
    case NonEmpty => m.readIndex < m.writeIndex
    case Loaded(r, published) => r == m.readIndex < m.writeIndex && (published ==> r < m.maxRead)
    case Copied(r, e) => r == m.readIndex < m.writeIndex && EntryCorrect(m, r, e)
  }

  ghost predicate Inv<T>(s: State<T>)
  {
    ArrayInv(s.m) && ConsumerOk(s.m, s.consumer)
  }

  lemma StartInv<T>(order: nat, slots: seq<T>, producers: nat)
    requires |slots| == Bits.Pow2(order)
    ensures Inv(Start(order, slots, producers))
  {
  }

  // ---------- Every step keeps the invariant ----------

  // What no producer step undoes.
  ghost predicate Grows<T>(m: Array<T>, m': Array<T>)
  {
    m.order == m'.order && m.initial == m'.initial && m.readIndex == m'.readIndex && m.popped == m'.popped &&
    m.tickets <= m'.tickets && |m.tickets| == |m.owner| && |m'.tickets| == |m'.owner| &&
    m.writeIndex <= m'.writeIndex && m.maxRead <= m'.maxRead && |m.producers| == |m'.producers| &&
    forall t :: 0 <= t < |m.owner| && Filled(m, t) ==> Filled(m', t)
  }

  lemma ConsumerSurvives<T>(m: Array<T>, m': Array<T>, c: Consumer<T>)
    requires ConsumerOk(m, c) && Grows(m, m')
    ensures ConsumerOk(m', c)
  {
  }

  lemma PoppedSurvive<T>(m: Array<T>, m': Array<T>)
    requires PoppedOk(m) && Grows(m, m')
    ensures PoppedOk(m')
  {
    forall i | 0 <= i < |m'.popped|
      ensures EntryCorrect(m', i, m'.popped[i])
    {
      assert EntryCorrect(m, i, m.popped[i]);
    }
  }

  // Neither the slots nor what is filled and popped changes.
  lemma SameSlotsKeep<T>(m: Array<T>, m': Array<T>)
    requires Bounds(m) && Bounds(m') && SlotsOk(m) && FreshOk(m) && PoppedOk(m) && Grows(m, m')
    requires m'.writeIndex == m.writeIndex && m'.queue == m.queue && m'.writer == m.writer
    requires forall t :: 0 <= t < |m.owner| ==> Filled(m', t) == Filled(m, t)
    ensures SlotsOk(m') && FreshOk(m') && PoppedOk(m')
  {
    PoppedSurvive(m, m');
    forall i | 0 <= i < |m'.queue|
      ensures EntryOk(m', i, Entry(m'.queue[i], m'.writer[i], true))
    {
      assert EntryOk(m, i, Entry(m.queue[i], m.writer[i], true));
    }
    assert forall t: nat :: LastLapDone(m', t) == LastLapDone(m, t);
  }

  lemma MoveHolds<T>(m: Array<T>, p: nat, pc: Producer<T>)
    requires Bounds(m) && TicketsHeld(m) && SnapshotsOk(m) && p < |m.producers|
    requires !m.producers[p].Filling? && !m.producers[p].Publishing? && !pc.Filling? && !pc.Publishing?
    requires SnapshotOk(m, pc)
    ensures var m' := Go(m, p, pc);
            Bounds(m') && TicketsHeld(m') && SnapshotsOk(m') && Grows(m, m') &&
            forall t :: 0 <= t < |m.owner| ==> Filled(m', t) == Filled(m, t)
  {
  }

  // A producer moves between two places in which it holds no ticket.
  lemma MoveKeeps<T>(m: Array<T>, p: nat, pc: Producer<T>)
    requires ArrayInv(m) && p < |m.producers|
    requires !m.producers[p].Filling? && !m.producers[p].Publishing? && !pc.Filling? && !pc.Publishing?
    requires SnapshotOk(m, pc)
    ensures ArrayInv(Go(m, p, pc)) && Grows(m, Go(m, p, pc))
  {
    MoveHolds(m, p, pc);
    SameSlotsKeep(m, Go(m, p, pc));
  }

  // The fullness test with stale indices still leaves one slot free: a CAS that
  // succeeds on w cannot have tested too old a read_index.
  lemma ReserveBounds<T>(m: Array<T>, p: nat)
    requires ArrayInv(m) && p < |m.producers| && m.producers[p].HaveRead? && m.producers[p].w == m.writeIndex
    ensures m.writeIndex + 1 < m.readIndex + N(m)
  {
    assert SnapshotOk(m, m.producers[p]);
    if m.writeIndex + 1 == m.readIndex + N(m) {
      assert m.producers[p].r == m.readIndex;
      IndexALapApart(m.readIndex, m.order);
    }
  }

  lemma ReserveHolds<T>(m: Array<T>, p: nat)
    requires ArrayInv(m) && p < |m.producers| && m.producers[p].HaveRead? && m.producers[p].w == m.writeIndex
    ensures Bounds(Reserve(m, p)) && TicketsHeld(Reserve(m, p)) && SnapshotsOk(Reserve(m, p))
  {
    ReserveBounds(m, p);
  }

  lemma ReserveFills<T>(m: Array<T>, p: nat)
    requires Bounds(m) && TicketsHeld(m)
    requires p < |m.producers| && m.producers[p].HaveRead? && m.producers[p].w == m.writeIndex
    ensures var m' := Reserve(m, p);
            Grows(m, m') && !Filled(m', m.writeIndex) &&
            forall t :: 0 <= t < |m.owner| ==> Filled(m', t) == Filled(m, t)
  {
  }

  lemma ReserveKeepsSlots<T>(m: Array<T>, p: nat)
    requires Bounds(m) && SlotsOk(m) && FreshOk(m)
    requires p < |m.producers| && m.producers[p].HaveRead? && m.producers[p].w == m.writeIndex
    requires Bounds(Reserve(m, p)) && Grows(m, Reserve(m, p)) && !Filled(Reserve(m, p), m.writeIndex)
    requires forall t :: 0 <= t < |m.owner| ==> Filled(Reserve(m, p), t) == Filled(m, t)
    ensures SlotsOk(Reserve(m, p)) && FreshOk(Reserve(m, p))
  {
    var m' := Reserve(m, p);
    forall i | 0 <= i < |m'.queue|
      ensures EntryOk(m', i, Entry(m'.queue[i], m'.writer[i], true))
    {
      assert EntryOk(m, i, Entry(m.queue[i], m.writer[i], true));
    }
    forall t | m'.readIndex <= t < m'.writeIndex && Filled(m', t) && LastLapDone(m', t)
      ensures m'.writer[Index(t, m'.order)] == Some(t)
    {
      assert t != m.writeIndex && LastLapDone(m, t);
    }
  }

  lemma ReserveKeeps<T>(m: Array<T>, p: nat)
    requires ArrayInv(m) && p < |m.producers| && m.producers[p].HaveRead? && m.producers[p].w == m.writeIndex
    ensures ArrayInv(Reserve(m, p)) && Grows(m, Reserve(m, p))
  {
    ReserveHolds(m, p);
    ReserveFills(m, p);
    PoppedSurvive(m, Reserve(m, p));
    ReserveKeepsSlots(m, p);
  }

  lemma {:induction false} Pigeonhole(f: seq<nat>, n: nat)
    requires forall i :: 0 <= i < |f| ==> f[i] < n
    requires forall i, j :: 0 <= i < j < |f| ==> f[i] != f[j]
    ensures |f| <= n
    decreases n
  {
    if |f| == 0 {
    } else if k :| 0 <= k < |f| && f[k] == n - 1 {
      Pigeonhole(f[..k] + f[k + 1..], n - 1);
    } else {
      assert f[0] < n;
      Pigeonhole(f, n - 1);
    }
  }

  // Every reserved and unpublished ticket needs a producer of its own.
  lemma HeldAtMost<T>(m: Array<T>)
    requires Bounds(m) && TicketsHeld(m)
    ensures m.writeIndex - m.maxRead <= |m.producers|
  {
    var f := m.owner[m.maxRead..];
    forall i, j | 0 <= i < j < |f|
      ensures f[i] != f[j]
    {
      assert Holds(m.producers[m.owner[m.maxRead + i]], m.maxRead + i);
      assert Holds(m.producers[m.owner[m.maxRead + j]], m.maxRead + j);
    }
    Pigeonhole(f, |m.producers|);
  }

  // No other filled, unread and fresh ticket lives in the slot a producer fills.
  lemma FillDisturbsNothing<T>(m: Array<T>, p: nat, t: nat)
    requires ArrayInv(m) && p < |m.producers| && m.producers[p].Filling?
    requires m.readIndex <= t < m.writeIndex && LastLapDone(m, t) && t != m.producers[p].w
    ensures Index(t, m.order) != Index(m.producers[p].w, m.order)
  {
    var w := m.producers[p].w;
    if w > t {
      IndexApart(t, w, m.order);
    } else if |m.producers| <= N(m) {
      HeldAtMost(m);
      IndexApart(w, t, m.order);
    } else if t >= N(m) {
      var i := t - N(m);
      assert EntryCorrect(m, i, m.popped[i]);
      assert EntryCorrect(m, i + 1, m.popped[i + 1]);
      IndexApart(w, t, m.order);
    } else {
      IndexApart(w, t, m.order);
    }
  }

  lemma FillHolds<T>(m: Array<T>, p: nat)
    requires Bounds(m) && TicketsHeld(m) && SnapshotsOk(m) && p < |m.producers| && m.producers[p].Filling?
    ensures var m' := FillSlot(m, p);
            Bounds(m') && TicketsHeld(m') && SnapshotsOk(m') && Grows(m, m') &&
            forall t :: 0 <= t < |m.owner| ==> (Filled(m', t) <==> Filled(m, t) || t == m.producers[p].w)
  {
  }

  lemma FillSlotsOk<T>(m: Array<T>, p: nat)
    requires Bounds(m) && TicketsHeld(m) && SlotsOk(m) && p < |m.producers| && m.producers[p].Filling?
    requires Grows(m, FillSlot(m, p)) && Filled(FillSlot(m, p), m.producers[p].w)
    ensures SlotsOk(FillSlot(m, p))
  {
    var m' := FillSlot(m, p);
    forall i | 0 <= i < |m'.queue|
      ensures EntryOk(m', i, Entry(m'.queue[i], m'.writer[i], true))
    {
      assert EntryOk(m, i, Entry(m.queue[i], m.writer[i], true));
    }
  }

  lemma FillFresh<T>(m: Array<T>, p: nat, t: nat)
    requires ArrayInv(m) && p < |m.producers| && m.producers[p].Filling?
    requires m.readIndex <= t < m.writeIndex && LastLapDone(m, t) && (Filled(m, t) || t == m.producers[p].w)
    ensures FillSlot(m, p).writer[Index(t, m.order)] == Some(t)
  {
    if t != m.producers[p].w {
      FillDisturbsNothing(m, p, t);
    }
  }

  lemma FillKeeps<T>(m: Array<T>, p: nat)
    requires ArrayInv(m) && p < |m.producers| && m.producers[p].Filling?
    ensures ArrayInv(FillSlot(m, p)) && Grows(m, FillSlot(m, p))
  {
    var m' := FillSlot(m, p);
    FillHolds(m, p);
    FillSlotsOk(m, p);
    PoppedSurvive(m, m');
    forall t | m'.readIndex <= t < m'.writeIndex && Filled(m', t) && LastLapDone(m', t)
      ensures m'.writer[Index(t, m'.order)] == Some(t)
    {
      assert LastLapDone(m, t);
      FillFresh(m, p, t);
    }
  }

  lemma PublishHolds<T>(m: Array<T>, p: nat)
    requires Bounds(m) && TicketsHeld(m) && SnapshotsOk(m)
    requires p < |m.producers| && m.producers[p].Publishing? && m.producers[p].w == m.maxRead
    ensures var m' := PublishTicket(m, p);
            Bounds(m') && TicketsHeld(m') && SnapshotsOk(m') && Grows(m, m') &&
            forall t :: 0 <= t < |m.owner| ==> Filled(m', t) == Filled(m, t)
  {
  }

  lemma PublishKeeps<T>(m: Array<T>, p: nat)
    requires ArrayInv(m) && p < |m.producers| && m.producers[p].Publishing? && m.producers[p].w == m.maxRead
    ensures ArrayInv(PublishTicket(m, p)) && Grows(m, PublishTicket(m, p))
  {
    PublishHolds(m, p);
    SameSlotsKeep(m, PublishTicket(m, p));
  }

  lemma TakeKeepsLaps<T>(m: Array<T>, e: Entry<T>, t: nat)
    requires Bounds(m) && t < m.writeIndex
    ensures LastLapDone(TakeEntry(m, e), t) == LastLapDone(m, t)
  {
  }

  lemma TakeKeepsPopped<T>(m: Array<T>, e: Entry<T>)
    requires Bounds(m) && PoppedOk(m) && m.readIndex < m.writeIndex && EntryCorrect(m, m.readIndex, e)
    ensures PoppedOk(TakeEntry(m, e))
  {
    var m' := TakeEntry(m, e);
    forall i | 0 <= i < |m'.popped|
      ensures EntryCorrect(m', i, m'.popped[i])
    {
      assert EntryCorrect(m, i, m'.popped[i]);
      assert forall t :: 0 <= t < |m.owner| ==> Filled(m', t) == Filled(m, t);
      TakeKeepsLaps(m, e, i);
    }
  }

  lemma TakeKeepsSlots<T>(m: Array<T>, e: Entry<T>)
    requires Bounds(m) && SlotsOk(m) && FreshOk(m) && m.readIndex < m.writeIndex
    ensures SlotsOk(TakeEntry(m, e)) && FreshOk(TakeEntry(m, e))
  {
    var m' := TakeEntry(m, e);
    assert forall t :: 0 <= t < |m.owner| ==> Filled(m', t) == Filled(m, t);
    forall i | 0 <= i < |m'.queue|
      ensures EntryOk(m', i, Entry(m'.queue[i], m'.writer[i], true))
    {
      assert EntryOk(m, i, Entry(m.queue[i], m.writer[i], true));
    }
    forall t | m'.readIndex <= t < m'.writeIndex && Filled(m', t) && LastLapDone(m', t)
      ensures m'.writer[Index(t, m'.order)] == Some(t)
    {
      TakeKeepsLaps(m, e, t);
    }
  }

  lemma TakeKeeps<T>(m: Array<T>, e: Entry<T>)
    requires ArrayInv(m) && m.readIndex < m.writeIndex && EntryCorrect(m, m.readIndex, e)
    ensures ArrayInv(TakeEntry(m, e))
  {
    TakeKeepsPopped(m, e);
    TakeKeepsSlots(m, e);
  }

  // Reading a slot: the copy is what the slot's last writer pushed, and the right
  // ticket's value if that ticket is filled and the previous lap was published.
  lemma CopyCorrect<T>(m: Array<T>, r: nat, published: bool)
    requires ArrayInv(m) && ConsumerOk(m, Loaded(r, published))
    ensures var i := Index(r, m.order);
            EntryCorrect(m, r, Entry(m.queue[i], m.writer[i], published))
  {
    var i := Index(r, m.order);
    assert EntryOk(m, i, Entry(m.queue[i], m.writer[i], true));
  }

  lemma ProducerKeepsInv<T>(s: State<T>, a: Step<T>)
    requires Inv(s) && Enabled(s, a)
    requires a.CallPush? || a.LoadWrite? || a.LoadRead?
    ensures Inv(Next(s, a))
  {
    var m := s.m;
    match a
    case CallPush(p, val) => ProducerMoves(s, p, Begun(val));
    case LoadWrite(p) => ProducerMoves(s, p, HaveWrite(m.producers[p].val, m.writeIndex));
    case LoadRead(p) =>
      assert SnapshotOk(m, m.producers[p]);
      ProducerMoves(s, p, Next(s, a).m.producers[p]);
  }

  lemma StoreKeepsInv<T>(s: State<T>, a: Step<T>)
    requires Inv(s) && Enabled(s, a)
    requires a.CasWrite? || a.Fill? || a.Publish?
    ensures Inv(Next(s, a))
  {
    var m := s.m;
    match a
    case CasWrite(p) =>
      if m.writeIndex == m.producers[p].w {
        ReserveKeeps(m, p);
        ConsumerSurvives(m, Reserve(m, p), s.consumer);
      } else {
        ProducerMoves(s, p, Begun(m.producers[p].val));
      }
    case Fill(p) =>
      FillKeeps(m, p);
      ConsumerSurvives(m, FillSlot(m, p), s.consumer);
    case Publish(p) =>
      if m.maxRead == m.producers[p].w {
        PublishKeeps(m, p);
        ConsumerSurvives(m, PublishTicket(m, p), s.consumer);
      }
  }

  lemma NextKeepsInv<T>(s: State<T>, a: Step<T>)
    requires Inv(s) && Enabled(s, a)
    ensures Inv(Next(s, a))
  {
    if a.CallPush? || a.LoadWrite? || a.LoadRead? {
      ProducerKeepsInv(s, a);
    } else if a.CasWrite? || a.Fill? || a.Publish? {
      StoreKeepsInv(s, a);
    } else if a.CopySlot? {
      CopyCorrect(s.m, s.consumer.r, s.consumer.published);
    } else if a.CasRead? {
      TakeKeeps(s.m, s.consumer.entry);
    }
  }

  lemma ProducerMoves<T>(s: State<T>, p: nat, pc: Producer<T>)
    requires Inv(s) && p < |s.m.producers|
    requires !s.m.producers[p].Filling? && !s.m.producers[p].Publishing? && !pc.Filling? && !pc.Publishing?
    requires SnapshotOk(s.m, pc)
    ensures Inv(s.(m := Go(s.m, p, pc)))
  {
    MoveKeeps(s.m, p, pc);
    ConsumerSurvives(s.m, Go(s.m, p, pc), s.consumer);
  }

  // ---------- Every run ----------

  // acts is a possible interleaving from s to z.
  ghost predicate Runs<T>(s: State<T>, acts: seq<Step<T>>, z: State<T>)
    requires Inv(s)
    decreases |acts|
  {
    if |acts| == 0 then s == z
    else Enabled(s, acts[0]) && (NextKeepsInv(s, acts[0]); Runs(Next(s, acts[0]), acts[1..], z))
  }

  lemma {:induction false} RunKeepsInv<T>(s: State<T>, acts: seq<Step<T>>, z: State<T>)
    requires Inv(s) && Runs(s, acts, z)
    ensures Inv(z) && z.m.order == s.m.order && |z.m.producers| == |s.m.producers|
    decreases |acts|
  {
    if |acts| > 0 {
      NextKeepsInv(s, acts[0]);
      RunKeepsInv(Next(s, acts[0]), acts[1..], z);
    }
  }

  ghost predicate Reachable<T(!new)>(order: nat, slots: seq<T>, producers: nat, z: State<T>)
    requires |slots| == Bits.Pow2(order)
  {
    StartInv(order, slots, producers);
    exists acts :: Runs(Start(order, slots, producers), acts, z)
  }

  lemma ReachableInv<T(!new)>(order: nat, slots: seq<T>, producers: nat, z: State<T>)
    requires |slots| == Bits.Pow2(order) && Reachable(order, slots, producers, z)
    ensures Inv(z) && z.m.order == order && |z.m.producers| == producers
  {
    StartInv(order, slots, producers);
    var acts :| Runs(Start(order, slots, producers), acts, z);
    RunKeepsInv(Start(order, slots, producers), acts, z);
  }

  // In every reachable state the three indices are ordered, at most N - 1
  // tickets are unread, and every published ticket has been written.
  lemma IndexOrder<T(!new)>(order: nat, slots: seq<T>, producers: nat, z: State<T>)
    requires |slots| == Bits.Pow2(order) && Reachable(order, slots, producers, z)
    ensures z.m.maxRead <= z.m.writeIndex
    ensures z.m.readIndex <= z.m.writeIndex <= z.m.readIndex + N(z.m) - 1
    ensures forall p :: 0 <= p < |z.m.producers| && z.m.producers[p].Filling? ==> z.m.producers[p].w >= z.m.maxRead
  {
    ReachableInv(order, slots, producers, z);
  }

  // A ticket is held by a producer exactly while it is reserved and unpublished,
  // and then by one producer only.
  lemma OneHolderPerTicket<T(!new)>(order: nat, slots: seq<T>, producers: nat, z: State<T>, t: nat)
    requires |slots| == Bits.Pow2(order) && Reachable(order, slots, producers, z)
    ensures (exists p :: 0 <= p < |z.m.producers| && Holds(z.m.producers[p], t)) <==>
              z.m.maxRead <= t < z.m.writeIndex
    ensures forall p, q :: 0 <= p < q < |z.m.producers| ==>
              !(Holds(z.m.producers[p], t) && Holds(z.m.producers[q], t))
  {
    ReachableInv(order, slots, producers, z);
    if z.m.maxRead <= t < z.m.writeIndex {
      assert Holds(z.m.producers[z.m.owner[t]], t);
    }
  }

  // A pop returns the value pushed under its own ticket if that ticket had been
  // published when the consumer loaded it and there are at most N producers, or
  // the ticket N before it or the one behind that had been published as well
  // when it was popped.
  lemma PopReturnsItsTicket<T(!new)>(order: nat, slots: seq<T>, producers: nat, z: State<T>, i: nat)
    requires |slots| == Bits.Pow2(order) && Reachable(order, slots, producers, z)
    requires i < |z.m.popped| && z.m.popped[i].published && LastLapDone(z.m, i)
    ensures z.m.popped[i].from == Some(i)
    ensures i < |z.m.tickets| && z.m.popped[i].val == z.m.tickets[i]
  {
    ReachableInv(order, slots, producers, z);
    assert EntryCorrect(z.m, i, z.m.popped[i]);
  }

  // A consumer that only ever pops published tickets sees the tickets in order,
  // each once: the array is a FIFO.
  lemma PatientConsumerSeesFifo<T(!new)>(order: nat, slots: seq<T>, producers: nat, z: State<T>)
    requires |slots| == Bits.Pow2(order) && Reachable(order, slots, producers, z)
    requires forall i :: 0 <= i < |z.m.popped| ==> z.m.popped[i].published
    ensures |z.m.popped| == z.m.readIndex <= z.m.maxRead <= |z.m.tickets|
    ensures forall i :: 0 <= i < |z.m.popped| ==> z.m.popped[i].val == z.m.tickets[i]
  {
    ReachableInv(order, slots, producers, z);
    forall i | 0 <= i < |z.m.popped|
      ensures i < z.m.maxRead && z.m.popped[i].val == z.m.tickets[i]
    {
      assert EntryCorrect(z.m, i, z.m.popped[i]);
      PopReturnsItsTicket(order, slots, producers, z, i);
    }
    if z.m.readIndex > 0 {
      assert z.m.popped[z.m.readIndex - 1].published;
    }
  }

  // Once the previous lap was published, a copy belongs to its own ticket
  // exactly if that ticket's slot has been written.
  lemma CopyExact<T>(s: State<T>)
    requires Inv(s) && s.consumer.Loaded? && LastLapDone(s.m, s.consumer.r)
    ensures s.consumer.r < s.m.writeIndex
    ensures Next(s, CopySlot).consumer.entry.from == Some(s.consumer.r) <==> Filled(s.m, s.consumer.r)
  {
    var i := Index(s.consumer.r, s.m.order);
    assert EntryOk(s.m, i, Entry(s.m.queue[i], s.m.writer[i], true));
  }

  // With one consumer the CAS of try_pop never fails.
  lemma PopCasSucceeds<T>(s: State<T>)
    requires Inv(s) && s.consumer.Copied?
    ensures Next(s, CasRead).m.readIndex == s.m.readIndex + 1
    ensures Next(s, CasRead).m.popped == s.m.popped + [s.consumer.entry]
  {
    NextKeepsInv(s, CasRead);
  }

  lemma SlotShared(w: nat, r: nat, order: nat)
    requires w <= r
    ensures Index(w, order) == Index(r, order) <==> (r - w) % Bits.Pow2(order) == 0
  {
    IndexIsResidue(w, order);
    IndexIsResidue(r, order);
    Bits.SameResidue(w, r, Bits.Pow2(order));
  }

  // The test at line 58 with a write_index w and a read_index r, when the
  // write_index has become now.
  lemma FullTestExact(w: nat, now: nat, r: nat, order: nat)
    requires w <= now && r <= now < r + Bits.Pow2(order)
    ensures Index(w + 1, order) == Index(r, order) <==>
              (w == now == r + Bits.Pow2(order) - 1) || (w < r && (r - (w + 1)) % Bits.Pow2(order) == 0)
  {
    if w < r {
      SlotShared(w + 1, r, order);
    } else if w + 1 == r + Bits.Pow2(order) {
      IndexALapApart(r, order);
    } else {
      IndexApart(r, w + 1, order);
    }
  }

  ghost predicate Full<T>(m: Array<T>)
  {
    m.writeIndex == m.readIndex + N(m) - 1
  }

  // The write_index that was loaded has fallen behind read_index by one less
  // than a multiple of N tickets.
  ghost predicate Outrun<T>(m: Array<T>, w: nat)
  {
    w < m.readIndex && (m.readIndex - (w + 1)) % N(m) == 0
  }

  // The test of push at line 58 makes it return false.
  ghost predicate Refused<T>(s: State<T>, p: nat)
    requires p < |s.m.producers| && s.m.producers[p].HaveWrite?
  {
    Shaped(s.m) && Next(s, LoadRead(p)).m.producers[p] == Idle
  }

  // push refuses exactly if N - 1 tickets are unread and its write_index is up
  // to date, or if its write_index was outrun. The first is always right; the
  // second is a false refusal exactly if the array is not full by now.
  lemma RefusalExact<T>(s: State<T>, p: nat)
    requires Inv(s) && p < |s.m.producers| && s.m.producers[p].HaveWrite?
    ensures var w := s.m.producers[p].w;
            (Refused(s, p) <==> (w == s.m.writeIndex && Full(s.m)) || Outrun(s.m, w)) &&
            (Refused(s, p) && !Full(s.m) <==> Outrun(s.m, w) && !Full(s.m))
  {
    assert SnapshotOk(s.m, s.m.producers[p]);
    FullTestExact(s.m.producers[p].w, s.m.writeIndex, s.m.readIndex, s.m.order);
  }

  // A single producer's write_index is never outrun.
  lemma SoleProducerRefusal<T>(s: State<T>, p: nat)
    requires Inv(s) && p < |s.m.producers| == 1 && s.m.producers[p].HaveWrite?
    ensures Refused(s, p) <==> Full(s.m)
  {
    assert SnapshotOk(s.m, s.m.producers[p]);
    RefusalExact(s, p);
  }

  // ---------- What becomes of a pushed value ----------

  // The producer is inside push with val and has no ticket yet.
  ghost predicate Trying<T>(pc: Producer<T>, val: T)
  {
    (pc.Begun? || pc.HaveWrite? || pc.HaveRead?) && pc.val == val
  }

  // Whatever step is taken, a producer inside push goes on trying with its
  // value until it has a new ticket for that value or is refused, and it is
  // refused only if the array is full or its write_index was outrun.
  lemma PushGoesOn<T>(s: State<T>, a: Step<T>, p: nat, val: T)
    requires Inv(s) && Enabled(s, a) && p < |s.m.producers| && Trying(s.m.producers[p], val)
    ensures var m, m' := s.m, Next(s, a).m;
            |m'.producers| == |m.producers| &&
            (|| Trying(m'.producers[p], val)
             || (m'.producers[p] == Filling(val, m.writeIndex) && m'.tickets == m.tickets + [val])
             || (m'.producers[p] == Idle && a == LoadRead(p) && m'.tickets == m.tickets &&
                 (Full(m) || Outrun(m, m.producers[p].w))))
  {
    if a == LoadRead(p) {
      RefusalExact(s, p);
    }
  }

  // Once it has a ticket it fills that ticket's slot with its value, and leaves
  // push by publishing the ticket.
  lemma TicketGoesOn<T>(s: State<T>, a: Step<T>, p: nat)
    requires Inv(s) && Enabled(s, a) && p < |s.m.producers|
    requires s.m.producers[p].Filling? || s.m.producers[p].Publishing?
    ensures var m, m', w := s.m, Next(s, a).m, s.m.producers[p].w;
            |m'.producers| == |m.producers| &&
            (|| m'.producers[p] == m.producers[p]
             || (m.producers[p].Filling? && m'.producers[p] == Publishing(w) &&
                 m'.queue == m.queue[Index(w, m.order) := m.tickets[w]])
             || (m.producers[p].Publishing? && m'.producers[p] == Idle && m.maxRead == w && m'.maxRead == w + 1))
  {
  }

  function TryingVals<T>(ps: seq<Producer<T>>): multiset<T>
  {
    if |ps| == 0 then multiset{} else TryingVals(ps[..|ps| - 1]) + TryingVal(ps[|ps| - 1])
  }

  function TryingVal<T>(pc: Producer<T>): multiset<T>
  {
    if pc.Begun? || pc.HaveWrite? || pc.HaveRead? then multiset{pc.val} else multiset{}
  }

  lemma SumsAside<T>(a: multiset<T>, b: multiset<T>, c: multiset<T>, d: multiset<T>, q: multiset<T>)
    requires a + b == c + d
    ensures (a + q) + b == (c + q) + d
  {
    forall x: T
      ensures ((a + q) + b)[x] == ((c + q) + d)[x]
    {
      assert (a + b)[x] == (c + d)[x];
    }
  }

  lemma SumsSwap<T>(a: multiset<T>, b: multiset<T>, c: multiset<T>)
    ensures (a + b) + c == (a + c) + b
  {
  }

  lemma SumsGroup<T>(a: multiset<T>, b: multiset<T>, c: multiset<T>)
    ensures (a + b) + c == a + (b + c)
  {
  }

  lemma TryingLast<T>(init: seq<Producer<T>>, pc: Producer<T>)
    ensures TryingVals(init + [pc]) == TryingVals(init) + TryingVal(pc)
  {
    assert (init + [pc])[..|init|] == init;
  }

  lemma {:induction false} TryingUpdate<T>(ps: seq<Producer<T>>, p: nat, pc: Producer<T>)
    requires p < |ps|
    ensures TryingVals(ps[p := pc]) + TryingVal(ps[p]) == TryingVals(ps) + TryingVal(pc)
    decreases |ps|
  {
    var init, last := ps[..|ps| - 1], ps[|ps| - 1];
    assert ps == init + [last];
    TryingLast(init, last);
    if p == |init| {
      assert ps[p := pc] == init + [pc];
      TryingLast(init, pc);
      SumsSwap(TryingVals(init), TryingVal(pc), TryingVal(last));
    } else {
      assert ps[p := pc] == init[p := pc] + [last];
      TryingLast(init[p := pc], last);
      TryingUpdate(init, p, pc);
      SumsAside(TryingVals(init[p := pc]), TryingVal(ps[p]), TryingVals(init), TryingVal(pc), TryingVal(last));
    }
  }

  // The value a step brings into push, and the value whose push it refuses.
  function Brought<T>(a: Step<T>): multiset<T>
  {
    if a.CallPush? then multiset{a.val} else multiset{}
  }

  ghost function TurnedAway<T>(s: State<T>, a: Step<T>): multiset<T>
    requires Enabled(s, a)
  {
    if a.LoadRead? && Refused(s, a.p) then multiset{s.m.producers[a.p].val} else multiset{}
  }

  lemma SumsSettle<T>(tickets: multiset<T>, tickets': multiset<T>, trying: multiset<T>, trying': multiset<T>,
                      before: multiset<T>, after: multiset<T>, away: multiset<T>, brought: multiset<T>)
    requires trying' + before == trying + after
    requires tickets' + after + away == tickets + before + brought
    ensures tickets' + trying' + away == tickets + trying + brought
  {
    forall x: T
      ensures (tickets' + trying' + away)[x] == (tickets + trying + brought)[x]
    {
      assert (trying' + before)[x] == (trying + after)[x];
      assert (tickets' + after + away)[x] == (tickets + before + brought)[x];
    }
  }

  lemma CasBalance<T>(s: State<T>, p: nat)
    requires Shaped(s.m) && Enabled(s, CasWrite(p))
    ensures var m, m' := s.m, Next(s, CasWrite(p)).m;
            m'.producers == m.producers[p := m'.producers[p]] &&
            multiset(m'.tickets) + TryingVal(m'.producers[p]) == multiset(m.tickets) + TryingVal(m.producers[p])
  {
    if s.m.writeIndex == s.m.producers[p].w {
      assert TryingVal(s.m.producers[p]) == multiset{s.m.producers[p].val};
    }
  }

  lemma ReadBalance<T>(s: State<T>, p: nat)
    requires Shaped(s.m) && Enabled(s, LoadRead(p))
    ensures var m, m' := s.m, Next(s, LoadRead(p)).m;
            m'.tickets == m.tickets && m'.producers == m.producers[p := m'.producers[p]] &&
            TryingVal(m'.producers[p]) + TurnedAway(s, LoadRead(p)) == TryingVal(m.producers[p])
  {
  }

  lemma CallBalance<T>(s: State<T>, p: nat, val: T)
    requires Enabled(s, CallPush(p, val))
    ensures var pc := Begun(val);
            TryingVal(pc) == TryingVal(s.m.producers[p]) + Brought(CallPush(p, val))
  {
  }

  lemma OtherBalance<T>(s: State<T>, a: Step<T>)
    requires Shaped(s.m) && Enabled(s, a)
    requires a.CallPush? || a.LoadWrite? || a.Fill? || a.Publish?
    ensures var m, m' := s.m, Next(s, a).m;
            m'.tickets == m.tickets && m'.producers == m.producers[a.p := m'.producers[a.p]] &&
            TryingVal(m'.producers[a.p]) + TurnedAway(s, a) == TryingVal(m.producers[a.p]) + Brought(a)
  {
    if a.CallPush? {
      CallBalance(s, a.p, a.val);
      assert Next(s, a).m.producers[a.p] == Begun(a.val);
    } else {
      assert Brought(a) == TurnedAway(s, a) == multiset{};
      assert TryingVal(Next(s, a).m.producers[a.p]) == TryingVal(s.m.producers[a.p]);
    }
  }

  // Where the value of the producer that takes step a goes.
  lemma StepBalance<T>(s: State<T>, a: Step<T>)
    requires Shaped(s.m) && Enabled(s, a)
    requires a.CallPush? || a.LoadWrite? || a.LoadRead? || a.CasWrite? || a.Fill? || a.Publish?
    ensures var m, m' := s.m, Next(s, a).m;
            m'.producers == m.producers[a.p := m'.producers[a.p]] &&
            multiset(m'.tickets) + TryingVal(m'.producers[a.p]) + TurnedAway(s, a) ==
            multiset(m.tickets) + TryingVal(m.producers[a.p]) + Brought(a)
  {
    if a.CasWrite? {
      CasBalance(s, a.p);
      assert TurnedAway(s, a) == Brought(a) == multiset{};
    } else {
      if a.LoadRead? {
        ReadBalance(s, a.p);
      } else {
        OtherBalance(s, a);
      }
      var t, was, now := multiset(s.m.tickets), TryingVal(s.m.producers[a.p]), TryingVal(Next(s, a).m.producers[a.p]);
      SumsGroup(t, now, TurnedAway(s, a));
      SumsGroup(t, was, Brought(a));
    }
  }

  lemma StepAccounts<T>(s: State<T>, a: Step<T>)
    requires Inv(s) && Enabled(s, a)
    ensures var m, m' := s.m, Next(s, a).m;
            multiset(m'.tickets) + TryingVals(m'.producers) + TurnedAway(s, a) ==
            multiset(m.tickets) + TryingVals(m.producers) + Brought(a)
  {
    if a.CallPush? || a.LoadWrite? || a.LoadRead? || a.CasWrite? || a.Fill? || a.Publish? {
      var m, m' := s.m, Next(s, a).m;
      StepBalance(s, a);
      TryingUpdate(m.producers, a.p, m'.producers[a.p]);
      SumsSettle(multiset(m.tickets), multiset(m'.tickets), TryingVals(m.producers), TryingVals(m'.producers),
                 TryingVal(m.producers[a.p]), TryingVal(m'.producers[a.p]), TurnedAway(s, a), Brought(a));
    }
  }

  // Over a run: the values of all calls of push, and of those that were refused.
  ghost function AllBrought<T>(acts: seq<Step<T>>): multiset<T>
  {
    if |acts| == 0 then multiset{} else Brought(acts[0]) + AllBrought(acts[1..])
  }

  ghost function AllTurnedAway<T>(s: State<T>, acts: seq<Step<T>>, z: State<T>): multiset<T>
    requires Inv(s) && Runs(s, acts, z)
    decreases |acts|
  {
    if |acts| == 0 then multiset{}
    else
      NextKeepsInv(s, acts[0]);
      TurnedAway(s, acts[0]) + AllTurnedAway(Next(s, acts[0]), acts[1..], z)
  }

  lemma SumsChain<T>(a: multiset<T>, b: multiset<T>, c: multiset<T>, away: multiset<T>, away': multiset<T>,
                     brought: multiset<T>, brought': multiset<T>)
    requires b + away == a + brought && c + away' == b + brought'
    ensures c + (away + away') == a + (brought + brought')
  {
    forall x: T
      ensures (c + (away + away'))[x] == (a + (brought + brought'))[x]
    {
      assert (b + away)[x] == (a + brought)[x] && (c + away')[x] == (b + brought')[x];
    }
  }

  // The values that are in push or have got a ticket.
  ghost function TakenIn<T>(m: Array<T>): multiset<T>
  {
    multiset(m.tickets) + TryingVals(m.producers)
  }

  lemma {:induction false} RunAccounts<T>(s: State<T>, acts: seq<Step<T>>, z: State<T>)
    requires Inv(s) && Runs(s, acts, z)
    ensures TakenIn(z.m) + AllTurnedAway(s, acts, z) == TakenIn(s.m) + AllBrought(acts)
    decreases |acts|
  {
    if |acts| > 0 {
      var y := Next(s, acts[0]);
      NextKeepsInv(s, acts[0]);
      StepAccounts(s, acts[0]);
      RunAccounts(y, acts[1..], z);
      SumsChain(TakenIn(s.m), TakenIn(y.m), TakenIn(z.m), TurnedAway(s, acts[0]), AllTurnedAway(y, acts[1..], z),
                Brought(acts[0]), AllBrought(acts[1..]));
    }
  }

  lemma {:induction false} NoneTrying<T>(ps: seq<Producer<T>>)
    requires forall p :: 0 <= p < |ps| ==> ps[p].Idle?
    ensures TryingVals(ps) == multiset{}
    decreases |ps|
  {
    if |ps| > 0 {
      NoneTrying(ps[..|ps| - 1]);
    }
  }

  // In every run, however the producers contend: the value of every call of
  // push has one ticket of its own, or was refused, or is still being tried.
  lemma EveryPushIsAccountedFor<T>(order: nat, slots: seq<T>, producers: nat, acts: seq<Step<T>>, z: State<T>)
    requires |slots| == Bits.Pow2(order)
    requires Inv(Start(order, slots, producers)) && Runs(Start(order, slots, producers), acts, z)
    ensures AllBrought(acts) ==
              multiset(z.m.tickets) + TryingVals(z.m.producers) + AllTurnedAway(Start(order, slots, producers), acts, z)
  {
    var start := Start(order, slots, producers);
    NoneTrying(start.m.producers);
    RunAccounts(start, acts, z);
  }

  // try_pop gives up exactly if nothing was unread when it had loaded both
  // indices, in whichever order; the consumer is the only one to move read_index.
  lemma EmptyTestExact<T>(s: State<T>, a: Step<T>)
    requires Inv(s) && Enabled(s, a)
    requires (a.TestLoadWrite? && s.consumer.TestedRead?) || (a.TestLoadRead? && s.consumer.TestedWrite?)
    ensures var w := if a.TestLoadWrite? then s.m.writeIndex else s.consumer.w;
            Next(s, a).consumer == (if w == s.m.readIndex then Outside else NonEmpty) && s.m.readIndex <= w
  {
  }

  // ---------- Reaching states step by step ----------

  // A set of states that no step leaves.
  ghost predicate Closed<T(!new)>(reach: State<T> -> bool)
  {
    forall s, a :: reach(s) && Shaped(s.m) && Enabled(s, a) ==> reach(Next(s, a))
  }

  lemma ReachableClosed<T(!new)>(order: nat, slots: seq<T>, producers: nat)
    requires |slots| == Bits.Pow2(order)
    ensures Closed(s => Reachable(order, slots, producers, s))
    ensures Reachable(order, slots, producers, Start(order, slots, producers))
  {
    var start := Start(order, slots, producers);
    StartInv(order, slots, producers);
    assert Runs(start, [], start);
    forall s, a | Reachable(order, slots, producers, s) && Shaped(s.m) && Enabled(s, a)
      ensures Reachable(order, slots, producers, Next(s, a))
    {
      ReachableInv(order, slots, producers, s);
      var acts :| Runs(start, acts, s);
      RunExtends(start, acts, s, a);
      assert Runs(start, acts + [a], Next(s, a));
    }
  }

  lemma {:induction false} RunExtends<T>(s: State<T>, acts: seq<Step<T>>, z: State<T>, a: Step<T>)
    requires Inv(s) && Inv(z) && Runs(s, acts, z) && Enabled(z, a)
    ensures Runs(s, acts + [a], Next(z, a))
    decreases |acts|
  {
    if |acts| == 0 {
      assert (acts + [a])[1..] == [];
    } else {
      NextKeepsInv(s, acts[0]);
      RunExtends(Next(s, acts[0]), acts[1..], z, a);
      assert (acts + [a])[1..] == acts[1..] + [a];
    }
  }

  // ---------- The array used from one thread ----------

  class LockFreeArray<T(0)> {
    const order: nat
    const queue: array<T>
    var writeIndex: nat
    var readIndex: nat
    var maxNumReadIndex: nat

    ghost predicate Valid()
      reads this
    {
      queue.Length == Bits.Pow2(order) &&
      readIndex <= writeIndex < readIndex + queue.Length && maxNumReadIndex == writeIndex
    }

    ghost function Contents(): (c: seq<T>)
      requires Valid()
      reads this, queue
      ensures |c| == writeIndex - readIndex
    {
      Window(queue[..], readIndex, writeIndex, order)
    }

    constructor (order: nat)
      ensures Valid() && fresh(queue)
      ensures this.order == order && Contents() == []
    {
      this.order := order;
      queue := new T[Bits.Pow2(order)];
      writeIndex, readIndex, maxNumReadIndex := 0, 0, 0;
    }

    lemma FullTest()
      requires Valid()
      ensures Index(writeIndex + 1, order) == Index(readIndex, order) <==> |Contents()| == queue.Length - 1
    {
      if writeIndex + 1 == readIndex + queue.Length {
        IndexALapApart(readIndex, order);
      } else {
        IndexApart(readIndex, writeIndex + 1, order);
      }
    }

    method Push(data: T) returns (ok: bool)
      requires Valid()
      modifies `writeIndex, `maxNumReadIndex, queue
      ensures Valid()
      ensures ok <==> |old(Contents())| < queue.Length - 1
      ensures Contents() == if ok then old(Contents()) + [data] else old(Contents())
    {
      FullTest();
      WindowPush(queue[..], readIndex, writeIndex, order, data);
      var currentWriteIndex := writeIndex;
      var reserved := false;
      while !reserved
        modifies `writeIndex
        invariant currentWriteIndex == old(writeIndex)
        invariant writeIndex == if reserved then currentWriteIndex + 1 else currentWriteIndex
        invariant reserved ==> Index(currentWriteIndex + 1, order) != Index(readIndex, order)
        decreases !reserved
      {
        currentWriteIndex := writeIndex;
        var currentReadIndex := readIndex;
        if Index(currentWriteIndex + 1, order) == Index(currentReadIndex, order) {
          return false;
        }
        if writeIndex == currentWriteIndex {
          writeIndex, reserved := currentWriteIndex + 1, true;
        }
      }
      queue[Index(currentWriteIndex, order)] := data;
      var published := false;
      while !published
        modifies `maxNumReadIndex
        invariant maxNumReadIndex == if published then currentWriteIndex + 1 else currentWriteIndex
        decreases !published
      {
        if maxNumReadIndex == currentWriteIndex {
          maxNumReadIndex, published := currentWriteIndex + 1, true;
        }
      }
      return true;
    }

    method TryPop() returns (data: Option<T>)
      requires Valid()
      modifies `readIndex
      ensures Valid()
      ensures data.None? <==> old(Contents()) == []
      ensures data.Some? ==> old(Contents()) == [data.value] + Contents()
      ensures data.None? ==> Contents() == old(Contents())
    {
      if readIndex == writeIndex {
        return None;
      }
      WindowPop(queue[..], readIndex, writeIndex, order);
      var currentReadIndex := readIndex;
      data := Some(queue[Index(currentReadIndex, order)]);
      if readIndex == currentReadIndex {
        readIndex := currentReadIndex + 1;
      }
    }
  }
}
