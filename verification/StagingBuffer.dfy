// The contiguous-record byte FIFO of basic/staging_buffer.h. Positions are
// offsets into the storage; a record is the region one allocate returned.
module StagingBuffer {

  // n is the template argument N; p, c and e are producer_pos_, consumer_pos_
  // and end_of_record_; free is min_free_space_.
  datatype State = State(n: nat, p: nat, c: nat, e: nat, free: nat)

  // Spinning: the given number of passes of the blocking loop was not enough.
  datatype Outcome = Got(ptr: nat) | Null | Spinning

  function Initial(n: nat): State
  {
    State(n, 0, 0, n, n)
  }

  // The cached estimate never promises more than there is.
  predicate Inv(s: State)
  {
    s.p <= s.n && s.c <= s.n && s.e <= s.n &&
    if s.p < s.c then s.c <= s.e && s.free <= s.c - s.p else s.free <= s.n - s.p
  }

  function Range(lo: nat, hi: nat): (r: seq<nat>)
    requires lo <= hi
    ensures |r| == hi - lo
    ensures forall i :: 0 <= i < |r| ==> r[i] == lo + i
  {
    seq(hi - lo, i requires 0 <= i => lo + i)
  }

  // The occupied offsets in the order the consumer will see them.
  function Occupied(s: State): (r: seq<nat>)
    requires Inv(s)
  {
    if s.p < s.c then Range(s.c, s.e) + Range(0, s.p) else Range(s.c, s.p)
  }

  predicate Distinct(q: seq<nat>)
  {
    forall i, j :: 0 <= i < j < |q| ==> q[i] != q[j]
  }

  // ---------- The operations ----------

  // The new state, the returned pointer and the number of readable bytes.
  function Peek(s: State): (r: (State, nat, nat))
    requires Inv(s)
    ensures Inv(r.0) && r.0.n == s.n
  {
    if s.p < s.c && s.e - s.c > 0 then (s, s.c, s.e - s.c)
    else if s.p < s.c then (s.(c := 0), 0, s.p)
    else (s, s.c, s.p - s.c)
  }

  // One execution of the loop body: the state to go on with, and whether the
  // break was taken or a null pointer returned.
  datatype Exit = Break | ReturnNull | Continue

  function Pass(s: State, size: nat, blocking: bool): (r: (State, Exit))
    requires Inv(s) && size >= s.free
    ensures Inv(r.0) && r.0.n == s.n
    ensures r.1 == Break ==> size < r.0.free
  {
    if s.c <= s.p && s.n - s.p > size then (s.(free := s.n - s.p), Break)
    else
      var t :=
        if s.c > s.p then s.(free := s.c - s.p)
        else if s.c != 0 then s.(e := s.p, p := 0, free := s.c)
        else s.(e := s.p, free := s.n - s.p);
      if !blocking && size >= t.free then (t, ReturnNull) else (Peek(t).0, Continue)
  }

  function Take(s: State, size: nat): State
    requires size < s.free
  {
    s.(p := s.p + size, free := s.free - size)
  }

  // The whole call with at most the given number of loop passes.
  function Allocate(s: State, size: nat, blocking: bool, passes: nat): (r: (State, Outcome))
    requires Inv(s)
    decreases passes
  {
    if size < s.free then (Take(s, size), Got(s.p))
    else if passes == 0 then (s, Spinning)
    else
      var (t, exit) := Pass(s, size, blocking);
      match exit
      case Break => (Take(t, size), Got(t.p))
      case ReturnNull => (t, Null)
      case Continue => Allocate(t, size, blocking, passes - 1)
  }

  // The consumer hands back k bytes.
  function Deallocate(s: State, k: nat): State
  {
    s.(c := s.c + k)
  }

  // ---------- What each operation keeps ----------

  lemma OccupiedInside(s: State)
    requires Inv(s)
    ensures Distinct(Occupied(s))
    ensures forall a :: a in Occupied(s) ==> a < s.n
    ensures s.p == s.c ==> Occupied(s) == []
  {
  }

  // A peek never changes what is occupied; it shows a prefix of it, contiguous
  // in storage, and shows nothing only if there is nothing.
  lemma PeekShowsOldest(s: State)
    requires Inv(s)
    ensures var (t, ptr, avail) := Peek(s);
            Occupied(t) == Occupied(s) &&
            avail <= |Occupied(s)| && Occupied(s)[..avail] == Range(ptr, ptr + avail) &&
            t.c == ptr && (avail == 0 <==> Occupied(s) == [])
  {
  }

  // It shows as much as there is in one piece.
  lemma PeekShowsMost(s: State)
    requires Inv(s)
    ensures var (_, ptr, avail) := Peek(s);
            avail == |Occupied(s)| || (avail < |Occupied(s)| && ptr + avail == s.e && Occupied(s)[avail] == 0)
  {
  }

  lemma PassKeepsOccupied(s: State, size: nat, blocking: bool)
    requires Inv(s) && size >= s.free
    ensures Occupied(Pass(s, size, blocking).0) == Occupied(s)
  {
    var (t, exit) := Pass(s, size, blocking);
    if exit == Continue {
      var u := if s.c > s.p then s.(free := s.c - s.p)
               else if s.c != 0 then s.(e := s.p, p := 0, free := s.c)
               else s.(e := s.p, free := s.n - s.p);
      assert Occupied(u) == Occupied(s);
      PeekShowsOldest(u);
    }
  }

  lemma TakeAppends(s: State, size: nat)
    requires Inv(s) && size < s.free
    ensures Inv(Take(s, size)) && s.p + size < s.n
    ensures Occupied(Take(s, size)) == Occupied(s) + Range(s.p, s.p + size)
    ensures forall a :: s.p <= a < s.p + size ==> a !in Occupied(s)
    ensures size > 0 ==> Take(s, size).p != s.c
  {
  }

  // What a call of allocate may do to the occupied offsets: a returned region
  // lies inside the storage, is disjoint from everything outstanding and queues
  // up behind it; otherwise nothing is taken.
  predicate Queued(before: seq<nat>, after: seq<nat>, out: Outcome, size: nat, n: nat)
  {
    match out
    case Got(ptr) =>
      ptr + size < n && after == before + Range(ptr, ptr + size) &&
      forall a :: a in Range(ptr, ptr + size) ==> a !in before
    case _ => after == before
  }

  lemma TakeQueues(s: State, size: nat)
    requires Inv(s) && size < s.free
    ensures Inv(Take(s, size))
    ensures Queued(Occupied(s), Occupied(Take(s, size)), Got(s.p), size, s.n)
  {
    TakeAppends(s, size);
  }

  lemma {:induction false} AllocateQueues(s: State, size: nat, blocking: bool, passes: nat)
    requires Inv(s)
    ensures var (t, out) := Allocate(s, size, blocking, passes);
            Inv(t) && t.n == s.n && Queued(Occupied(s), Occupied(t), out, size, s.n)
    decreases passes
  {
    if size < s.free {
      TakeQueues(s, size);
    } else if passes > 0 {
      var (t, exit) := Pass(s, size, blocking);
      PassKeepsOccupied(s, size, blocking);
      assert Occupied(t) == Occupied(s);
      if exit == Break {
        TakeQueues(t, size);
      } else if exit == Continue {
        AllocateQueues(t, size, blocking, passes - 1);
      }
    }
  }

  // Handing back at most what a peek showed removes exactly those bytes.
  lemma DeallocateDrops(s: State, k: nat)
    requires Inv(s) && k <= if s.p < s.c then s.e - s.c else s.p - s.c
    ensures Inv(Deallocate(s, k))
    ensures k <= |Occupied(s)| && Occupied(Deallocate(s, k)) == Occupied(s)[k..]
  {
  }

  // ---------- When a call succeeds ----------

  // A non-blocking call succeeds exactly if the record fits behind the
  // producer, or in front of the consumer after a wrap.
  lemma NonBlockingExact(s: State, size: nat, passes: nat)
    requires Inv(s) && passes >= 1
    ensures Allocate(s, size, false, passes).1.Got? <==>
              if s.p < s.c then size < s.c - s.p
              else size < s.n - s.p || (s.c != 0 && size < s.c)
    ensures !Allocate(s, size, false, passes).1.Spinning?
  {
    if size >= s.free {
      var (t, exit) := Pass(s, size, false);
      if exit == Continue {
        assert Allocate(t, size, false, passes - 1).1.Got?;
      }
    }
  }

  // With nobody else running, a blocking call ends if and only if this holds.
  predicate CanFinish(s: State, size: nat)
    requires Inv(s)
  {
    if s.p < s.c then
      size < s.c - s.p || (s.c == s.e && size < s.n - s.p)
    else
      size < s.n - s.p || (s.c != 0 && size < s.c) || (s.c == s.p && size < s.n)
  }

  lemma BlockingFinishesInTwo(s: State, size: nat, passes: nat)
    requires Inv(s) && CanFinish(s, size) && passes >= 2
    ensures Allocate(s, size, true, passes).1.Got?
  {
    if size >= s.free {
      var (t, exit) := Pass(s, size, true);
      if exit == Continue && size >= t.free {
        assert Pass(t, size, true).1 == Break;
      }
    }
  }

  lemma {:induction false} BlockingSpins(s: State, size: nat, passes: nat)
    requires Inv(s) && !CanFinish(s, size)
    ensures Allocate(s, size, true, passes).1 == Spinning
    decreases passes
  {
    if passes > 0 {
      var (t, exit) := Pass(s, size, true);
      BlockingSpins(t, size, passes - 1);
    }
  }

  // On a drained buffer, wherever the drain happened, two passes are enough
  // for every size below N and no number of passes is enough for any other.
  lemma DrainedBlockingExact(s: State, size: nat, passes: nat)
    requires Inv(s) && Occupied(s) == [] && passes >= 2
    ensures Allocate(s, size, true, passes).1.Got? <==> size < s.n
  {
    assert s.p == s.c || (s.p == 0 && s.c == s.e) by {
      if s.p < s.c {
        assert |Occupied(s)| == s.e - s.c + s.p;
      } else {
        assert |Occupied(s)| == s.p - s.c;
      }
    }
    if size < s.n {
      BlockingFinishesInTwo(s, size, passes);
    } else {
      BlockingSpins(s, size, passes);
    }
  }

  // ---------- Where the record goes and what a call leaves ----------

  predicate FitsHere(s: State, size: nat)
    requires Inv(s)
  {
    if s.p < s.c then size < s.c - s.p else size < s.n - s.p
  }

  // It fits where the producer stands, possibly once a blocking call has rolled
  // the drained end of the buffer over.
  predicate StaysPut(s: State, size: nat, blocking: bool)
    requires Inv(s)
  {
    FitsHere(s, size) || (blocking && s.p < s.c == s.e && size < s.n - s.p)
  }

  // A record is put where the producer stands whenever it fits there; only if it
  // does not, and the producer is not behind the consumer, does it go to the start.
  lemma {:induction false} AddressExact(s: State, size: nat, blocking: bool, passes: nat)
    requires Inv(s) && Allocate(s, size, blocking, passes).1.Got?
    ensures Allocate(s, size, blocking, passes).1.ptr == if StaysPut(s, size, blocking) then s.p else 0
    ensures !StaysPut(s, size, blocking) ==> 0 < s.c <= s.p
    decreases passes
  {
    if size >= s.free {
      var (t, exit) := Pass(s, size, blocking);
      if exit == Continue {
        AddressExact(t, size, blocking, passes - 1);
      }
    }
  }

  // A new buffer is empty, and a record below its size fits at once.
  lemma InitialExact(n: nat, size: nat, blocking: bool)
    ensures Inv(Initial(n)) && Occupied(Initial(n)) == []
    ensures Allocate(Initial(n), size, blocking, 0).1 == if size < n then Got(0) else Spinning
  {
  }

  // Everything a non-blocking call leaves, found or refused. A refused call may
  // have moved the producer to the start, and it leaves the exact free space.
  lemma NonBlockingLeaves(s: State, size: nat, passes: nat)
    requires Inv(s) && passes >= 1
    ensures var State(n, p, c, e, free) := s;
            Allocate(s, size, false, passes) ==
              if size < free then (State(n, p + size, c, e, free - size), Got(p))
              else if p < c then
                if size < c - p then (State(n, p + size, if c == e then 0 else c, e, c - p - size), Got(p))
                else (State(n, p, c, e, c - p), Null)
              else if size < n - p then (State(n, p + size, c, e, n - p - size), Got(p))
              else if c == 0 then (State(n, p, 0, p, n - p), Null)
              else if size < c then (State(n, size, if c == p then 0 else c, p, c - size), Got(0))
              else (State(n, 0, c, p, c), Null)
  {
    if size >= s.free {
      var (t, exit) := Pass(s, size, false);
      if exit == Continue {
        assert Allocate(t, size, false, passes - 1) == (Take(t, size), Got(t.p));
      }
    }
  }

  // Everything a blocking call leaves that runs alone and ends.
  lemma BlockingLeaves(s: State, size: nat, passes: nat)
    requires Inv(s) && CanFinish(s, size) && passes >= 2
    ensures var State(n, p, c, e, free) := s;
            Allocate(s, size, true, passes) ==
              if size < free then (State(n, p + size, c, e, free - size), Got(p))
              else if p < c then
                if size < c - p then (State(n, p + size, if c == e then 0 else c, e, c - p - size), Got(p))
                else (State(n, p + size, 0, e, n - p - size), Got(p))
              else if size < n - p then (State(n, p + size, c, e, n - p - size), Got(p))
              else if size < c then (State(n, size, if c == p then 0 else c, p, c - size), Got(0))
              else (State(n, size, 0, p, n - size), Got(0))
  {
    if size >= s.free {
      var (t, exit) := Pass(s, size, true);
      if exit == Continue {
        if size < t.free {
          assert Allocate(t, size, true, passes - 1) == (Take(t, size), Got(t.p));
        } else {
          var (u, exit') := Pass(t, size, true);
          assert exit' == Break;
          assert Allocate(t, size, true, passes - 1) == (Take(u, size), Got(u.p));
        }
      }
    }
  }

  // ---------- Whole runs: producer loop passes, peeks and deallocations ----------

  datatype Region = Region(ptr: nat, size: nat)

  datatype Request = Idle | Wanting(size: nat, blocking: bool)

  // records: every region handed out so far, in order; released: bytes handed
  // back so far; credit: what the consumer may still hand back since its last peek.
  datatype System = System(s: State, request: Request, records: seq<Region>, released: nat, credit: nat)

  datatype Action =
    | Call(size: nat, blocking: bool) // the producer calls allocate
    | LoopPass                        // the guard, then one loop body or the allocation
    | ConsumerPeek
    | Release(k: nat)                 // deallocate, at most what peek reported

  function Bytes(records: seq<Region>): seq<nat>
  {
    if records == [] then []
    else
      var last := records[|records| - 1];
      Bytes(records[..|records| - 1]) + Range(last.ptr, last.ptr + last.size)
  }

  // Bytes that lie one after another from consumer_pos_ on.
  function Contiguous(s: State): int
  {
    if s.p < s.c then s.e - s.c else s.p - s.c
  }

  predicate SysInv(y: System)
  {
    Inv(y.s) && y.released <= |Bytes(y.records)| &&
    Occupied(y.s) == Bytes(y.records)[y.released..] &&
    y.credit <= Contiguous(y.s)
  }

  predicate Enabled(y: System, a: Action)
  {
    match a
    case Call(_, _) => y.request == Idle
    case LoopPass => y.request.Wanting?
    case ConsumerPeek => true
    case Release(k) => k <= y.credit
  }

  function Next(y: System, a: Action): System
    requires SysInv(y) && Enabled(y, a)
  {
    match a
    case Call(size, blocking) => y.(request := Wanting(size, blocking))
    case LoopPass =>
      var size := y.request.size;
      if size < y.s.free then
        y.(s := Take(y.s, size), request := Idle, records := y.records + [Region(y.s.p, size)])
      else
        var (t, exit) := Pass(y.s, size, y.request.blocking);
        (match exit
         case Break => y.(s := Take(t, size), request := Idle, records := y.records + [Region(t.p, size)])
         case ReturnNull => y.(s := t, request := Idle)
         case Continue => y.(s := t))
    case ConsumerPeek =>
      var (t, _, avail) := Peek(y.s);
      y.(s := t, credit := avail)
    case Release(k) => y.(s := Deallocate(y.s, k), released := y.released + k, credit := y.credit - k)
  }

  lemma BytesAppend(records: seq<Region>, r: Region)
    ensures Bytes(records + [r]) == Bytes(records) + Range(r.ptr, r.ptr + r.size)
  {
    assert (records + [r])[..|records|] == records;
  }

  lemma AppendBehind(pending: seq<nat>, all: seq<nat>, more: seq<nat>, d: nat)
    requires d <= |all| && pending == all[d..]
    ensures pending + more == (all + more)[d..]
  {
  }

  lemma GrantKeepsInv(y: System, t: State, size: nat)
    requires SysInv(y) && Inv(t) && size < t.free
    requires Occupied(t) == Occupied(y.s) && y.credit <= Contiguous(Take(t, size))
    ensures SysInv(y.(s := Take(t, size), request := Idle, records := y.records + [Region(t.p, size)]))
  {
    var all, more := Bytes(y.records), Range(t.p, t.p + size);
    AppendBehind(Occupied(t), all, more, y.released);
    TakeAppends(t, size);
    BytesAppend(y.records, Region(t.p, size));
  }

  // A loop pass changes this only by rolling over when nothing is left in it.
  lemma PassKeepsContiguous(s: State, size: nat, blocking: bool)
    requires Inv(s) && size >= s.free
    ensures Contiguous(Pass(s, size, blocking).0) >= Contiguous(s)
  {
  }

  lemma SameBytesKeep(y: System, z: System)
    requires SysInv(y) && Inv(z.s) && Occupied(z.s) == Occupied(y.s) && Contiguous(y.s) <= Contiguous(z.s)
    requires z.records == y.records && z.released == y.released && z.credit == y.credit
    ensures SysInv(z)
  {
  }

  lemma LoopPassKeepsInv(y: System)
    requires SysInv(y) && y.request.Wanting?
    ensures SysInv(Next(y, LoopPass))
  {
    var size := y.request.size;
    if size < y.s.free {
      GrantKeepsInv(y, y.s, size);
    } else {
      var (t, exit) := Pass(y.s, size, y.request.blocking);
      PassKeepsOccupied(y.s, size, y.request.blocking);
      PassKeepsContiguous(y.s, size, y.request.blocking);
      if exit == Break {
        GrantKeepsInv(y, t, size);
      } else {
        SameBytesKeep(y, Next(y, LoopPass));
      }
    }
  }

  lemma NextKeepsInv(y: System, a: Action)
    requires SysInv(y) && Enabled(y, a)
    ensures SysInv(Next(y, a))
  {
    match a
    case Call(_, _) =>
    case LoopPass => LoopPassKeepsInv(y);
    case ConsumerPeek => PeekShowsOldest(y.s);
    case Release(k) => DeallocateDrops(y.s, k);
  }

  // acts is a possible run from y to z.
  predicate Runs(y: System, acts: seq<Action>, z: System)
    requires SysInv(y)
    decreases |acts|
  {
    if acts == [] then y == z
    else Enabled(y, acts[0]) && (NextKeepsInv(y, acts[0]); Runs(Next(y, acts[0]), acts[1..], z))
  }

  lemma {:induction false} RunKeepsInv(y: System, acts: seq<Action>, z: System)
    requires SysInv(y) && Runs(y, acts, z)
    ensures SysInv(z)
    decreases |acts|
  {
    if acts != [] {
      NextKeepsInv(y, acts[0]);
      RunKeepsInv(Next(y, acts[0]), acts[1..], z);
    }
  }

  function Start(n: nat): (y: System)
    ensures SysInv(y)
  {
    System(Initial(n), Idle, [], 0, 0)
  }

  // In every run: the bytes not yet handed back are distinct offsets inside the
  // storage, the next peek shows them in allocation order, and equal positions
  // mean that there are none.
  lemma RunIsByteFifo(n: nat, acts: seq<Action>, z: System)
    requires Runs(Start(n), acts, z)
    ensures SysInv(z) && z.s.n == n
    ensures var pending := Bytes(z.records)[z.released..];
            var (_, ptr, avail) := Peek(z.s);
            Distinct(pending) && (forall a :: a in pending ==> a < n) &&
            avail <= |pending| && pending[..avail] == Range(ptr, ptr + avail) &&
            (avail == 0 <==> pending == []) && (z.s.p == z.s.c ==> pending == [])
  {
    RunKeepsInv(Start(n), acts, z);
    RunKeepsSize(Start(n), acts, z);
    OccupiedInside(z.s);
    PeekShowsOldest(z.s);
  }

  lemma {:induction false} RunKeepsSize(y: System, acts: seq<Action>, z: System)
    requires SysInv(y) && Runs(y, acts, z)
    ensures z.s.n == y.s.n
    decreases |acts|
  {
    if acts != [] {
      NextKeepsInv(y, acts[0]);
      RunKeepsSize(Next(y, acts[0]), acts[1..], z);
    }
  }

  // ---------- Records stay whole ----------

  // Total size of the first k records: where record k starts in the byte stream.
  function Offset(records: seq<Region>, k: nat): (o: nat)
    requires k <= |records|
  {
    |Bytes(records[..k])|
  }

  lemma {:induction false} RecordInStream(records: seq<Region>, k: nat)
    requires k < |records|
    ensures Offset(records, k) + records[k].size == Offset(records, k + 1) <= |Bytes(records)|
    ensures Bytes(records)[Offset(records, k)..Offset(records, k + 1)] ==
              Range(records[k].ptr, records[k].ptr + records[k].size)
    decreases |records|
  {
    var init := records[..|records| - 1];
    var last := records[|records| - 1];
    assert records == init + [last];
    BytesAppend(init, last);
    if k == |records| - 1 {
      assert records[..k] == init && records[..k + 1] == records;
    } else {
      RecordInStream(init, k);
      assert init[..k] == records[..k] && init[..k + 1] == records[..k + 1];
    }
  }

  // If everything before record k has been handed back, a peek shows all of
  // record k in one piece at the address allocate returned for it.
  lemma PeekShowsWholeRecord(y: System, k: nat)
    requires SysInv(y) && k < |y.records| && y.records[k].size > 0
    requires y.released == Offset(y.records, k)
    ensures var (_, ptr, avail) := Peek(y.s);
            ptr == y.records[k].ptr && avail >= y.records[k].size
  {
    var r := y.records[k];
    RecordInStream(y.records, k);
    PeekShowsOldest(y.s);
    var (t, ptr, avail) := Peek(y.s);
    var occ := Occupied(y.s);
    assert occ[..r.size] == Range(r.ptr, r.ptr + r.size);
    assert avail > 0;
    assert occ[0] == occ[..r.size][0] == r.ptr;
    assert occ[0] == occ[..avail][0] == ptr;
    assert forall i :: 0 <= i < r.size ==> occ[i] == occ[..r.size][i] == r.ptr + i;
    assert y.s.p < y.s.c < y.s.e && avail < |occ| ==> occ[avail] == 0;
  }

  predicate NothingShared(q: seq<nat>, r: seq<nat>)
  {
    forall i, j :: 0 <= i < |q| && 0 <= j < |r| ==> q[i] != r[j]
  }

  lemma SlicesShareNothing(all: seq<nat>, d: nat, o: nat, o': nat, m: nat, m': nat)
    requires d <= o <= o' <= m <= m' <= |all| && Distinct(all[d..])
    ensures NothingShared(all[o..o'], all[m..m'])
  {
    forall i, j | 0 <= i < o' - o && 0 <= j < m' - m
      ensures all[o..o'][i] != all[m..m'][j]
    {
      assert all[d..][o - d + i] != all[d..][m - d + j];
    }
  }

  // Two records not yet handed back never overlap.
  lemma PendingRecordsDisjoint(y: System, i: nat, j: nat)
    requires SysInv(y) && i < j < |y.records|
    requires y.released <= Offset(y.records, i)
    ensures var r, q := y.records[i], y.records[j];
            NothingShared(Range(r.ptr, r.ptr + r.size), Range(q.ptr, q.ptr + q.size))
  {
    var o, m, d := Offset(y.records, i), Offset(y.records, j), y.released;
    var all := Bytes(y.records);
    RecordInStream(y.records, i);
    RecordInStream(y.records, j);
    OffsetMonotone(y.records, i + 1, j);
    OccupiedInside(y.s);
    SlicesShareNothing(all, d, o, Offset(y.records, i + 1), m, Offset(y.records, j + 1));
  }

  lemma {:induction false} OffsetMonotone(records: seq<Region>, i: nat, j: nat)
    requires i <= j <= |records|
    ensures Offset(records, i) <= Offset(records, j)
    decreases j - i
  {
    if i < j {
      RecordInStream(records, i);
      OffsetMonotone(records, i + 1, j);
    }
  }

  // ---------- The buffer itself ----------

  class Buffer {
    const n: nat
    var minFreeSpace: nat
    var consumerPos: nat
    var producerPos: nat
    var endOfRecord: nat

    ghost function View(): State
      reads this
    {
      State(n, producerPos, consumerPos, endOfRecord, minFreeSpace)
    }

    ghost predicate Valid()
      reads this
    {
      Inv(View())
    }

    constructor (n: nat)
      ensures Valid() && this.n == n && View() == Initial(n)
    {
      this.n := n;
      minFreeSpace, consumerPos, producerPos, endOfRecord := n, 0, 0, n;
    }

    // The loop body of allocate.
    method LoopBody(size: nat, blocking: bool) returns (exit: Exit)
      requires Valid() && size >= minFreeSpace
      modifies this
      ensures Valid() && (View(), exit) == Pass(old(View()), size, blocking)
    {
      var cachedConsumerPos := consumerPos;
      if cachedConsumerPos <= producerPos {
        minFreeSpace := n - producerPos;
        if minFreeSpace > size {
          return Break;
        }
        endOfRecord := producerPos;
        if cachedConsumerPos != 0 {
          producerPos := 0;
          minFreeSpace := cachedConsumerPos - producerPos;
        }
      } else {
        minFreeSpace := cachedConsumerPos - producerPos;
      }
      if !blocking && size >= minFreeSpace {
        return ReturnNull;
      }
      var _, _ := PeekBytes();
      return Continue;
    }

    // allocate, given up after the stated number of passes of its loop.
    method Alloc(size: nat, blocking: bool, passes: nat) returns (out: Outcome)
      requires Valid()
      modifies this
      ensures Valid()
      ensures (View(), out) == Allocate(old(View()), size, blocking, passes)
    {
      ghost var before := View();
      ghost var result := Allocate(before, size, blocking, passes);
      var left := passes;
      while size >= minFreeSpace
        invariant Valid()
        invariant Allocate(View(), size, blocking, left) == result
        decreases left
      {
        if left == 0 {
          return Spinning;
        }
        var exit := LoopBody(size, blocking);
        if exit == ReturnNull {
          return Null;
        } else if exit == Break {
          break;
        }
        left := left - 1;
      }
      var ptr := Advance(size);
      out := Got(ptr);
    }

    // The tail of allocate, once the record is known to fit.
    method Advance(size: nat) returns (ptr: nat)
      requires size < minFreeSpace
      modifies this
      ensures ptr == old(producerPos) && View() == Take(old(View()), size)
    {
      ptr := producerPos;
      minFreeSpace := minFreeSpace - size;
      producerPos := producerPos + size;
    }

    method PeekBytes() returns (ptr: nat, avail: nat)
      requires Valid()
      modifies `consumerPos
      ensures Valid()
      ensures (View(), ptr, avail) == Peek(old(View()))
      ensures Occupied(View()) == old(Occupied(View()))
      ensures avail <= |Occupied(View())| && Occupied(View())[..avail] == Range(ptr, ptr + avail)
    {
      PeekShowsOldest(View());
      var cachedProducerPos := producerPos;
      if cachedProducerPos < consumerPos {
        avail := endOfRecord - consumerPos;
        if avail > 0 {
          return consumerPos, avail;
        }
        consumerPos := 0;
      }
      return consumerPos, cachedProducerPos - consumerPos;
    }

    method Release(size: nat)
      requires Valid() && size <= Contiguous(View())
      modifies `consumerPos
      ensures Valid() && View() == Deallocate(old(View()), size)
      ensures size <= |old(Occupied(View()))| && Occupied(View()) == old(Occupied(View()))[size..]
    {
      DeallocateDrops(View(), size);
      consumerPos := consumerPos + size;
    }
  }
}
