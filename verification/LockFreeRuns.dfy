// Which tickets the consumer of basic/lock_free_array.h can trust, and the runs
// that show that it can trust no others: producers take tickets in turn, write
// late and publish only when the consumer is to find their tickets published.
module LockFreeRuns {
  import opened Slots
  import opened LockFreeArray
  import opened Wrappers
  import Bits

  // ---------- Uninterrupted calls ----------

  ghost predicate Safe<T(!new)>(reach: State<T> -> bool, s: State<T>)
  {
    reach(s) ==> Inv(s)
  }

  // A set of states that no step leaves and in which the invariant holds.
  ghost predicate Sound<T(!new)>(reach: State<T> -> bool)
  {
    Closed(reach) && forall s :: Safe(reach, s)
  }

  lemma StepReaches<T(!new)>(reach: State<T> -> bool, s: State<T>, a: Step<T>) returns (z: State<T>)
    requires Sound(reach) && reach(s) && Shaped(s.m) && Enabled(s, a)
    ensures z == Next(s, a) && reach(z) && Bounds(z.m)
  {
    z := Next(s, a);
    assert Safe(reach, z);
  }

  // A push up to its reservation with nobody in between.
  lemma ReserveAlone<T(!new)>(reach: State<T> -> bool, s: State<T>, p: nat, val: T) returns (z: State<T>)
    requires Sound(reach) && reach(s) && Bounds(s.m) && p < |s.m.producers| && s.m.producers[p].Idle?
    requires s.m.writeIndex + 1 < s.m.readIndex + N(s.m)
    ensures reach(z) && Bounds(z.m)
    ensures z.consumer == s.consumer
    ensures z.m == s.m.(producers := s.m.producers[p := Filling(val, s.m.writeIndex)], writeIndex := s.m.writeIndex + 1,
                        tickets := s.m.tickets + [val], owner := s.m.owner + [p])
  {
    IndexApart(s.m.readIndex, s.m.writeIndex + 1, s.m.order);
    z := StepReaches(reach, s, CallPush(p, val));
    z := StepReaches(reach, z, LoadWrite(p));
    z := StepReaches(reach, z, LoadRead(p));
    z := StepReaches(reach, z, CasWrite(p));
    assert z.m.producers == s.m.producers[p := Filling(val, s.m.writeIndex)];
  }

  // A try_pop on a non-empty array with nobody in between.
  lemma PopAlone<T(!new)>(reach: State<T> -> bool, s: State<T>) returns (z: State<T>)
    requires Sound(reach) && reach(s) && Bounds(s.m)
    requires s.consumer.Outside? && s.m.readIndex != s.m.writeIndex
    ensures reach(z) && Bounds(z.m)
    ensures var i := Index(s.m.readIndex, s.m.order);
            z == State(TakeEntry(s.m, Entry(s.m.queue[i], s.m.writer[i], s.m.readIndex < s.m.maxRead)), Outside)
  {
    z := StepReaches(reach, s, TestLoadRead);
    z := StepReaches(reach, z, TestLoadWrite);
    z := StepReaches(reach, z, LoadTicket);
    z := StepReaches(reach, z, CopySlot);
    z := StepReaches(reach, z, CasRead);
  }

  // ---------- Staged states ----------

  // Producer k holds ticket base + k, if that is reserved and unpublished, and
  // nothing else; vals[t] is pushed under ticket t.
  ghost predicate Stage<T>(m: Array<T>, vals: seq<T>, base: nat, k: nat, pc: Producer<T>)
    requires m.writeIndex <= |vals|
  {
    var t := base + k;
    if m.maxRead <= t < m.writeIndex then pc == Publishing(t) || pc == Filling(vals[t], t) else pc.Idle?
  }

  ghost predicate Staged<T>(s: State<T>, vals: seq<T>, base: nat)
  {
    Bounds(s.m) && s.consumer == Outside && N(s.m) >= 2 &&
    base <= s.m.maxRead && s.m.writeIndex <= base + |s.m.producers| &&
    s.m.writeIndex <= |vals| && s.m.tickets == vals[..s.m.writeIndex] &&
    forall k :: 0 <= k < |s.m.producers| ==> Stage(s.m, vals, base, k, s.m.producers[k])
  }

  // s and z agree except for producers and slots.
  ghost predicate SameIndices<T>(s: State<T>, z: State<T>)
  {
    z.m.order == s.m.order && z.m.writeIndex == s.m.writeIndex && z.m.readIndex == s.m.readIndex &&
    z.m.popped == s.m.popped && |z.m.producers| == |s.m.producers|
  }

  lemma ReserveNext<T(!new)>(reach: State<T> -> bool, s: State<T>, vals: seq<T>, base: nat) returns (z: State<T>)
    requires Sound(reach) && reach(s) && Staged(s, vals, base)
    requires s.m.writeIndex < |vals| && s.m.writeIndex < base + |s.m.producers|
    requires s.m.writeIndex + 1 < s.m.readIndex + N(s.m)
    ensures reach(z) && Staged(z, vals, base)
    ensures var w := s.m.writeIndex;
            z.m == s.m.(producers := s.m.producers[w - base := Filling(vals[w], w)],
                        writeIndex := w + 1, tickets := z.m.tickets, owner := z.m.owner)
  {
    var w := s.m.writeIndex;
    assert Stage(s.m, vals, base, w - base, s.m.producers[w - base]);
    z := ReserveAlone(reach, s, w - base, vals[w]);
    assert vals[..w + 1] == vals[..w] + [vals[w]];
    forall k | 0 <= k < |z.m.producers|
      ensures Stage(z.m, vals, base, k, z.m.producers[k])
    {
      assert Stage(s.m, vals, base, k, s.m.producers[k]);
    }
  }

  lemma FillTicket<T(!new)>(reach: State<T> -> bool, s: State<T>, vals: seq<T>, base: nat, k: nat)
    returns (z: State<T>)
    requires Sound(reach) && reach(s) && Staged(s, vals, base)
    requires k < |s.m.producers| && s.m.producers[k].Filling?
    ensures reach(z) && Staged(z, vals, base) && SameIndices(s, z) && z.m.maxRead == s.m.maxRead
    ensures z.m.producers == s.m.producers[k := Publishing(base + k)]
    ensures z.m.writer == s.m.writer[Index(base + k, s.m.order) := Some(base + k)]
  {
    assert Stage(s.m, vals, base, k, s.m.producers[k]);
    z := StepReaches(reach, s, Fill(k));
    forall j | 0 <= j < |z.m.producers|
      ensures Stage(z.m, vals, base, j, z.m.producers[j])
    {
      assert Stage(s.m, vals, base, j, s.m.producers[j]);
    }
  }

  lemma PublishNext<T(!new)>(reach: State<T> -> bool, s: State<T>, vals: seq<T>, base: nat) returns (z: State<T>)
    requires Sound(reach) && reach(s) && Staged(s, vals, base)
    requires s.m.maxRead < base + |s.m.producers| && s.m.producers[s.m.maxRead - base].Publishing?
    ensures reach(z) && Staged(z, vals, base) && SameIndices(s, z) && z.m.maxRead == s.m.maxRead + 1
    ensures z.m.producers == s.m.producers[s.m.maxRead - base := Idle] && z.m.writer == s.m.writer
  {
    var k := s.m.maxRead - base;
    assert Stage(s.m, vals, base, k, s.m.producers[k]);
    z := StepReaches(reach, s, Publish(k));
    forall j | 0 <= j < |z.m.producers|
      ensures Stage(z.m, vals, base, j, z.m.producers[j])
    {
      assert Stage(s.m, vals, base, j, s.m.producers[j]);
    }
  }

  // No push of a ticket below hi has still to write slot.
  ghost predicate NoneFills<T>(m: Array<T>, base: nat, hi: nat, slot: nat)
  {
    forall k :: 0 <= k < |m.producers| && base + k < hi && m.producers[k].Filling? ==>
      Index(base + k, m.order) != slot
  }

  // The producers of the tickets from lo on are where they were.
  ghost predicate SameFrom<T>(s: State<T>, z: State<T>, base: nat, lo: nat)
  {
    |z.m.producers| == |s.m.producers| &&
    forall k :: 0 <= k < |s.m.producers| && lo <= base + k ==> z.m.producers[k] == s.m.producers[k]
  }

  // All tickets below hi are written, where they are not yet, and published.
  lemma {:induction false} PublishTo<T(!new)>(reach: State<T> -> bool, s: State<T>, vals: seq<T>, base: nat,
                                              hi: nat, slot: nat)
    returns (z: State<T>)
    requires Sound(reach) && reach(s) && Staged(s, vals, base) && hi <= s.m.writeIndex && slot < N(s.m)
    ensures reach(z) && Staged(z, vals, base) && SameIndices(s, z)
    ensures z.m.maxRead == if s.m.maxRead < hi then hi else s.m.maxRead
    ensures SameFrom(s, z, base, z.m.maxRead)
    ensures NoneFills(s.m, base, hi, slot) ==> z.m.writer[slot] == s.m.writer[slot]
    decreases hi - s.m.maxRead
  {
    z := s;
    if s.m.maxRead < hi {
      var k := s.m.maxRead - base;
      assert Stage(s.m, vals, base, k, s.m.producers[k]);
      if s.m.producers[k].Filling? {
        z := FillTicket(reach, z, vals, base, k);
      }
      z := PublishNext(reach, z, vals, base);
      z := PublishTo(reach, z, vals, base, hi, slot);
    }
  }

  // No slot holds anything from a ticket still to be written.
  lemma UnwrittenElsewhere<T(!new)>(reach: State<T> -> bool, s: State<T>, vals: seq<T>, base: nat, k: nat, i: nat)
    requires Sound(reach) && reach(s) && Staged(s, vals, base)
    requires k < |s.m.producers| && s.m.producers[k].Filling? && i < |s.m.writer|
    ensures s.m.writer[i] != Some(base + k)
  {
    assert Safe(reach, s);
    assert Stage(s.m, vals, base, k, s.m.producers[k]);
    assert EntryOk(s.m, i, Entry(s.m.queue[i], s.m.writer[i], true));
  }

  // The next pop finds its ticket published or not, as wanted.
  lemma TakeNext<T(!new)>(reach: State<T> -> bool, s: State<T>, vals: seq<T>, base: nat, flag: bool, slot: nat)
    returns (z: State<T>)
    requires Sound(reach) && reach(s) && Staged(s, vals, base) && s.m.readIndex < s.m.writeIndex
    requires s.m.maxRead <= s.m.readIndex && slot < N(s.m)
    ensures reach(z) && Staged(z, vals, base)
    ensures z.m.order == s.m.order && z.m.writeIndex == s.m.writeIndex && z.m.readIndex == s.m.readIndex + 1
    ensures z.m.maxRead == if flag then s.m.readIndex + 1 else s.m.maxRead
    ensures SameFrom(s, z, base, z.m.maxRead)
    ensures var e := z.m.popped[|s.m.popped|];
            z.m.popped == s.m.popped + [e] && e.published == flag &&
            e.from == z.m.writer[Index(s.m.readIndex, s.m.order)]
    ensures NoneFills(s.m, base, s.m.readIndex + 1, slot) ==> z.m.writer[slot] == s.m.writer[slot]
  {
    z := s;
    if flag {
      z := PublishTo(reach, s, vals, base, s.m.readIndex + 1, slot);
    }
    var y := z;
    z := PopAlone(reach, y);
    forall k | 0 <= k < |z.m.producers|
      ensures Stage(z.m, vals, base, k, z.m.producers[k])
    {
      assert Stage(y.m, vals, base, k, y.m.producers[k]);
    }
  }

  // ---------- Runs with given observations ----------

  // The consumer found ticket j published when it popped it exactly if flags[j].
  ghost predicate Observed<T>(popped: seq<Entry<T>>, flags: seq<bool>)
  {
    |popped| <= |flags| && forall j :: 0 <= j < |popped| ==> popped[j].published == flags[j]
  }

  // Every reserved ticket has been popped and published, and no producer is busy.
  ghost predicate Quiet<T>(s: State<T>, vals: seq<T>, flags: seq<bool>)
  {
    Staged(s, vals, s.m.writeIndex) && |s.m.producers| >= 1 && |vals| == |flags| &&
    s.m.writeIndex == s.m.readIndex && Observed(s.m.popped, flags)
  }

  lemma Settled<T>(s: State<T>, vals: seq<T>, base: nat)
    requires Staged(s, vals, base) && s.m.maxRead == s.m.writeIndex
    ensures Staged(s, vals, s.m.writeIndex)
  {
    forall k | 0 <= k < |s.m.producers|
      ensures Stage(s.m, vals, s.m.writeIndex, k, s.m.producers[k])
    {
      assert Stage(s.m, vals, base, k, s.m.producers[k]);
    }
  }

  // A push and a pop of its ticket, which is left unwritten.
  lemma LeaveUnwritten<T(!new)>(reach: State<T> -> bool, s: State<T>, vals: seq<T>, base: nat) returns (z: State<T>)
    requires Sound(reach) && reach(s) && Staged(s, vals, base) && s.m.writeIndex == s.m.readIndex
    requires s.m.writeIndex < |vals| && s.m.writeIndex < base + |s.m.producers|
    ensures reach(z) && Staged(z, vals, base) && z.m.order == s.m.order
    ensures z.m.writeIndex == z.m.readIndex == s.m.readIndex + 1 && z.m.maxRead == s.m.maxRead
    ensures var w := s.m.writeIndex;
            z.m.producers == s.m.producers[w - base := Filling(vals[w], w)] &&
            s.m.popped <= z.m.popped && !z.m.popped[w].published && z.m.popped[w].from != Some(w)
  {
    var w := s.m.writeIndex;
    var y := ReserveNext(reach, s, vals, base);
    z := TakeNext(reach, y, vals, base, false, 0);
    assert z.m.producers == y.m.producers by {
      assert SameFrom(y, z, base, z.m.maxRead);
      forall k | 0 <= k < |y.m.producers|
        ensures z.m.producers[k] == y.m.producers[k]
      {
        assert Stage(y.m, vals, base, k, y.m.producers[k]) && Stage(z.m, vals, base, k, z.m.producers[k]);
      }
    }
    UnwrittenElsewhere(reach, z, vals, base, w - base, Index(w, s.m.order));
  }

  lemma QuietStep<T(!new)>(reach: State<T> -> bool, s: State<T>, vals: seq<T>, flags: seq<bool>) returns (z: State<T>)
    requires Sound(reach) && reach(s) && Quiet(s, vals, flags) && s.m.readIndex < |flags|
    ensures reach(z) && Quiet(z, vals, flags)
    ensures z.m.readIndex == s.m.readIndex + 1 && s.m.popped <= z.m.popped && z.m.order == s.m.order
    ensures |z.m.producers| == |s.m.producers|
    ensures !flags[s.m.readIndex] ==> z.m.popped[s.m.readIndex].from != Some(s.m.readIndex)
  {
    var r := s.m.readIndex;
    if flags[r] {
      z := ReserveNext(reach, s, vals, r);
      z := TakeNext(reach, z, vals, r, true, 0);
    } else {
      z := LeaveUnwritten(reach, s, vals, r);
      z := PublishTo(reach, z, vals, r, r + 1, 0);
    }
    Settled(z, vals, r);
  }

  lemma {:induction false} QuietTo<T(!new)>(reach: State<T> -> bool, s: State<T>, vals: seq<T>, flags: seq<bool>,
                                            k: nat)
    returns (z: State<T>)
    requires Sound(reach) && reach(s) && Quiet(s, vals, flags) && s.m.readIndex <= k <= |flags|
    ensures reach(z) && Quiet(z, vals, flags) && |z.m.producers| == |s.m.producers|
    ensures z.m.readIndex == k && s.m.popped <= z.m.popped && z.m.order == s.m.order
    decreases k - s.m.readIndex
  {
    z := s;
    if s.m.readIndex < k {
      z := QuietStep(reach, s, vals, flags);
      z := QuietTo(reach, z, vals, flags, k);
    }
  }

  // Popping ticket i while it is unwritten.
  lemma EarlyRun<T(!new)>(reach: State<T> -> bool, s: State<T>, vals: seq<T>, flags: seq<bool>, i: nat)
    returns (z: State<T>)
    requires Sound(reach) && reach(s) && Quiet(s, vals, flags) && s.m.readIndex <= i < |flags| && !flags[i]
    ensures reach(z) && Quiet(z, vals, flags) && z.m.readIndex == |flags|
    ensures z.m.popped[i].from != Some(i)
  {
    z := QuietTo(reach, s, vals, flags, i);
    z := QuietStep(reach, z, vals, flags);
    z := QuietTo(reach, z, vals, flags, |flags|);
  }

  // Producers 0 to N hold tickets t to t + N, of which t + N is written first
  // and t after it.
  ghost predicate Lapped<T>(s: State<T>, vals: seq<T>, flags: seq<bool>, t: nat)
  {
    Staged(s, vals, t) && |vals| == |flags| && Observed(s.m.popped, flags) && N(s.m) < |s.m.producers| &&
    s.m.readIndex <= s.m.writeIndex == t + N(s.m) + 1 && s.m.maxRead <= s.m.readIndex &&
    t + 1 < s.m.readIndex && s.m.writer[Index(t, s.m.order)] == Some(t) &&
    !s.m.producers[0].Filling? && !s.m.producers[N(s.m)].Filling?
  }

  // Every ticket from w to hi - 1 is reserved and unwritten.
  lemma {:induction false} ReserveTo<T(!new)>(reach: State<T> -> bool, s: State<T>, vals: seq<T>, base: nat, hi: nat)
    returns (z: State<T>)
    requires Sound(reach) && reach(s) && Staged(s, vals, base) && s.m.writeIndex <= hi <= |vals|
    requires hi < s.m.readIndex + N(s.m) && hi <= base + |s.m.producers|
    ensures reach(z) && Staged(z, vals, base) && z.m.writeIndex == hi
    ensures z.m.order == s.m.order && z.m.readIndex == s.m.readIndex && z.m.maxRead == s.m.maxRead
    ensures z.m.popped == s.m.popped && |z.m.producers| == |s.m.producers|
    ensures forall k :: 0 <= k < |s.m.producers| && (base + k < hi && s.m.writeIndex <= base + k) ==>
              z.m.producers[k].Filling?
    ensures forall k :: 0 <= k < |s.m.producers| && base + k < s.m.writeIndex ==>
              z.m.producers[k] == s.m.producers[k]
    decreases hi - s.m.writeIndex
  {
    z := s;
    if s.m.writeIndex < hi {
      z := ReserveNext(reach, s, vals, base);
      z := ReserveTo(reach, z, vals, base, hi);
    }
  }

  // From a quiet state: t and t + 1 are popped unwritten, so that t + N can be
  // reserved and written before t.
  lemma LapUp<T(!new)>(reach: State<T> -> bool, s: State<T>, vals: seq<T>, flags: seq<bool>, t: nat)
    returns (z: State<T>)
    requires Sound(reach) && reach(s) && Quiet(s, vals, flags) && s.m.readIndex == t
    requires t + N(s.m) < |flags| && !flags[t] && !flags[t + 1] && N(s.m) < |s.m.producers|
    ensures reach(z) && Lapped(z, vals, flags, t) && z.m.readIndex == t + 2 && z.m.order == s.m.order
  {
    var n := N(s.m);
    z := LeaveUnwritten(reach, s, vals, t);
    z := LeaveUnwritten(reach, z, vals, t);
    z := ReserveTo(reach, z, vals, t, t + n + 1);
    z := FillTicket(reach, z, vals, t, n);
    z := FillTicket(reach, z, vals, t, 0);
    IndexALapApart(t, s.m.order);
  }

  // Between t and t + N no ticket has their slot.
  lemma NoneBetween<T>(s: State<T>, vals: seq<T>, flags: seq<bool>, t: nat, hi: nat)
    requires Lapped(s, vals, flags, t) && hi <= t + N(s.m) + 1
    ensures NoneFills(s.m, t, hi, Index(t, s.m.order))
  {
    forall k | 0 <= k < |s.m.producers| && t + k < hi && s.m.producers[k].Filling?
      ensures Index(t + k, s.m.order) != Index(t, s.m.order)
    {
      IndexApart(t, t + k, s.m.order);
    }
  }

  lemma LappedTake<T(!new)>(reach: State<T> -> bool, s: State<T>, vals: seq<T>, flags: seq<bool>, t: nat)
    returns (z: State<T>)
    requires Sound(reach) && reach(s) && Lapped(s, vals, flags, t) && s.m.readIndex < s.m.writeIndex
    ensures reach(z) && Lapped(z, vals, flags, t) && z.m.order == s.m.order
    ensures z.m.readIndex == s.m.readIndex + 1 && s.m.popped <= z.m.popped
    ensures flags[s.m.readIndex] ==> z.m.maxRead == z.m.readIndex
    ensures z.m.popped[s.m.readIndex].from == z.m.writer[Index(s.m.readIndex, s.m.order)]
  {
    NoneBetween(s, vals, flags, t, s.m.readIndex + 1);
    z := TakeNext(reach, s, vals, t, flags[s.m.readIndex], Index(t, s.m.order));
    NoneStartsFilling(s, z, vals, t, 0);
    NoneStartsFilling(s, z, vals, t, N(s.m));
  }

  lemma NoneStartsFilling<T>(s: State<T>, z: State<T>, vals: seq<T>, base: nat, k: nat)
    requires Staged(s, vals, base) && Staged(z, vals, base) && z.m.order == s.m.order
    requires SameFrom(s, z, base, z.m.maxRead) && k < |s.m.producers| && !s.m.producers[k].Filling?
    ensures !z.m.producers[k].Filling?
  {
    assert Stage(z.m, vals, base, k, z.m.producers[k]);
  }

  lemma {:induction false} LappedTo<T(!new)>(reach: State<T> -> bool, s: State<T>, vals: seq<T>, flags: seq<bool>,
                                             t: nat, k: nat)
    returns (z: State<T>)
    requires Sound(reach) && reach(s) && Lapped(s, vals, flags, t) && s.m.readIndex <= k <= s.m.writeIndex
    ensures reach(z) && Lapped(z, vals, flags, t) && z.m.order == s.m.order && z.m.readIndex == k
    decreases k - s.m.readIndex
  {
    z := s;
    if s.m.readIndex < k {
      z := LappedTake(reach, s, vals, flags, t);
      z := LappedTo(reach, z, vals, flags, t, k);
    }
  }

  // The slow producer of ticket t overwrites ticket t + N.
  lemma LapRun<T(!new)>(reach: State<T> -> bool, s: State<T>, vals: seq<T>, flags: seq<bool>, t: nat)
    returns (z: State<T>)
    requires Sound(reach) && reach(s) && Quiet(s, vals, flags) && s.m.readIndex <= t && N(s.m) < |s.m.producers|
    requires t + N(s.m) < |flags| && !flags[t] && !flags[t + 1] && flags[t + N(s.m)]
    ensures reach(z) && Quiet(z, vals, flags) && z.m.readIndex == |flags|
    ensures z.m.popped[t + N(s.m)].from == Some(t)
  {
    var n := N(s.m);
    z := QuietTo(reach, s, vals, flags, t);
    z := LapUp(reach, z, vals, flags, t);
    z := LappedTo(reach, z, vals, flags, t, t + n);
    z := LappedTake(reach, z, vals, flags, t);
    IndexALapApart(t, s.m.order);
    Settled(z, vals, t);
    z := QuietTo(reach, z, vals, flags, |flags|);
  }

  // ---------- What the consumer can rely on ----------

  // Ticket i was found published, and its slot cannot have been written late:
  // there are too few producers for that, or ticket i - N or its successor was
  // found published as well.
  predicate Assured(flags: seq<bool>, i: nat, n: nat, producers: nat)
    requires i < |flags| && n >= 1
  {
    flags[i] && (producers <= n || i < n || flags[i - n] || flags[i - n + 1])
  }

  lemma ReachableSafe<T(!new)>(order: nat, slots: seq<T>, producers: nat, reach: State<T> -> bool)
    requires |slots| == Bits.Pow2(order) && Closed(reach)
    requires forall s :: reach(s) ==> Reachable(order, slots, producers, s)
    ensures Sound(reach)
  {
    forall s
      ensures Safe(reach, s)
    {
      if reach(s) {
        ReachableInv(order, slots, producers, s);
      }
    }
  }

  // For every number of slots above one, every number of producers and every
  // sequence of observations that does not assure ticket i, there is a run with
  // these observations in which ticket i is popped with what the slot held
  // before or, if i was published, with what was pushed one lap earlier.
  lemma UnassuredRun<T(!new)>(order: nat, slots: seq<T>, producers: nat, vals: seq<T>, flags: seq<bool>, i: nat)
    returns (z: State<T>)
    requires order >= 1 && |slots| == Bits.Pow2(order) && producers >= 1 && |vals| == |flags|
    requires i < |flags| && !Assured(flags, i, |slots|, producers)
    ensures Reachable(order, slots, producers, z)
    ensures |z.m.popped| == |flags| && Observed(z.m.popped, flags) && z.m.tickets == vals
    ensures z.m.popped[i].from != Some(i)
    ensures flags[i] ==> i >= |slots| && z.m.popped[i] == Entry(vals[i - |slots|], Some(i - |slots|), true)
  {
    var start := Start(order, slots, producers);
    ReachableClosed(order, slots, producers);
    StartInv(order, slots, producers);
    var reach := s => Reachable(order, slots, producers, s);
    ReachableSafe(order, slots, producers, reach);
    if !flags[i] {
      z := EarlyRun(reach, start, vals, flags, i);
    } else {
      z := LapRun(reach, start, vals, flags, i - |slots|);
      assert Safe(reach, z);
      assert EntryCorrect(z.m, i, z.m.popped[i]);
    }
  }

  // Whatever was popped under a published ticket is what was pushed under it.
  ghost predicate PublishedPopsOwn<T>(m: Array<T>)
  {
    forall i :: 0 <= i < |m.popped| && m.popped[i].published ==>
      i < |m.tickets| && m.popped[i].from == Some(i) && m.popped[i].val == m.tickets[i]
  }

  // A pop of a published ticket returns that ticket's value in every run if and
  // only if there are at most as many producers as slots.
  lemma PublishedPopExactly<T(!new)>(order: nat, slots: seq<T>, producers: nat)
    requires order >= 1 && |slots| == Bits.Pow2(order)
    ensures producers <= |slots| <==>
              forall z: State<T> :: Reachable(order, slots, producers, z) ==> PublishedPopsOwn(z.m)
  {
    if producers <= |slots| {
      forall z: State<T> | Reachable(order, slots, producers, z)
        ensures PublishedPopsOwn(z.m)
      {
        ReachableInv(order, slots, producers, z);
        forall i | 0 <= i < |z.m.popped| && z.m.popped[i].published
          ensures i < |z.m.tickets| && z.m.popped[i].from == Some(i) && z.m.popped[i].val == z.m.tickets[i]
        {
          PopReturnsItsTicket(order, slots, producers, z, i);
        }
      }
    } else {
      var n := |slots|;
      var z := UnassuredRun(order, slots, producers, seq(n + 1, _ => slots[0]), seq(n + 1, j => j >= 2), n);
      assert z.m.popped[n].published;
    }
  }

  // For more producers than slots, or before publication: let the consumer know
  // only which tickets it found published. Then ticket i is certain to have come
  // back with its own value if and only if it is assured.
  lemma PopExactByObservation<T(!new)>(order: nat, slots: seq<T>, producers: nat, flags: seq<bool>, i: nat)
    requires order >= 1 && |slots| == Bits.Pow2(order) && producers >= 1 && i < |flags|
    ensures Assured(flags, i, |slots|, producers) <==>
              forall z: State<T> ::
                Reachable(order, slots, producers, z) && |z.m.popped| == |flags| && Observed(z.m.popped, flags) ==>
                z.m.popped[i].from == Some(i)
  {
    if Assured(flags, i, |slots|, producers) {
      forall z: State<T>
        | Reachable(order, slots, producers, z) && |z.m.popped| == |flags| && Observed(z.m.popped, flags)
        ensures z.m.popped[i].from == Some(i)
      {
        ReachableInv(order, slots, producers, z);
        PopReturnsItsTicket(order, slots, producers, z, i);
      }
    } else {
      var z := UnassuredRun(order, slots, producers, seq(|flags|, _ => slots[0]), flags, i);
    }
  }

  // ---------- The failures by themselves, for every number of slots ----------

  // With one producer more than slots a published ticket is not enough: ticket
  // N, published in time, comes back with the value of ticket 0.
  lemma SlowProducerOverwritesPublishedTicket<T(!new)>(order: nat, slots: seq<T>, vals: seq<T>) returns (z: State<T>)
    requires order >= 1 && |slots| == Bits.Pow2(order) && |vals| == |slots| + 1
    ensures Reachable(order, slots, |slots| + 1, z) && z.m.tickets == vals
    ensures |z.m.popped| == |vals| && z.m.popped[|slots|] == Entry(vals[0], Some(0), true)
  {
    z := UnassuredRun(order, slots, |slots| + 1, vals, seq(|vals|, j => j >= 2), |slots|);
  }

  // An unwritten ticket comes back as what its slot held before.
  lemma UnwrittenTicketIsPopped<T(!new)>(order: nat, slots: seq<T>, a: T) returns (z: State<T>)
    requires order >= 1 && |slots| == Bits.Pow2(order)
    ensures Reachable(order, slots, 1, z) && z.m.tickets == [a]
    ensures |z.m.popped| == 1 && z.m.popped[0] == Entry(slots[0], None, false)
  {
    ReachableClosed(order, slots, 1);
    StartInv(order, slots, 1);
    var reach := s => Reachable(order, slots, 1, s);
    ReachableSafe(order, slots, 1, reach);
    IndexIsResidue(0, order);
    z := ReserveAlone(reach, Start(order, slots, 1), 0, a);
    z := PopAlone(reach, z);
  }

  // A push that loaded write_index early refuses an empty array.
  lemma StaleRefusal<T(!new)>(order: nat, slots: seq<T>, producers: nat, a: T, b: T) returns (s: State<T>)
    requires order >= 1 && |slots| == Bits.Pow2(order) && producers >= 2
    ensures Reachable(order, slots, producers, s) && |s.m.producers| == producers
    ensures s.m.producers[0] == HaveWrite(a, 0)
    ensures s.m.writeIndex == s.m.readIndex && Outrun(s.m, 0) && !Full(s.m) && Refused(s, 0)
  {
    ReachableClosed(order, slots, producers);
    StartInv(order, slots, producers);
    var reach := s => Reachable(order, slots, producers, s);
    ReachableSafe(order, slots, producers, reach);
    s := StepReaches(reach, Start(order, slots, producers), CallPush(0, a));
    s := StepReaches(reach, s, LoadWrite(0));
    s := ReserveAlone(reach, s, 1, b);
    s := PopAlone(reach, s);
    assert Safe(reach, s);
    RefusalExact(s, 0);
  }

  // A push is refused exactly when N - 1 tickets are unread, in every reachable
  // state, if and only if there is a single producer.
  lemma RefusalIsFullExactly<T(!new)>(order: nat, slots: seq<T>, producers: nat)
    requires order >= 1 && |slots| == Bits.Pow2(order) && producers >= 1
    ensures producers == 1 <==>
              forall z: State<T>, p: nat ::
                Reachable(order, slots, producers, z) && p < |z.m.producers| && z.m.producers[p].HaveWrite? ==>
                (Refused(z, p) <==> Full(z.m))
  {
    if producers == 1 {
      forall z: State<T>, p: nat
        | Reachable(order, slots, producers, z) && p < |z.m.producers| && z.m.producers[p].HaveWrite?
        ensures Refused(z, p) <==> Full(z.m)
      {
        ReachableInv(order, slots, producers, z);
        SoleProducerRefusal(z, p);
      }
    } else {
      var s := StaleRefusal(order, slots, producers, slots[0], slots[0]);
    }
  }
}
