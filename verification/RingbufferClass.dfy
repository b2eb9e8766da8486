// The operations of basic/ringbuffer.hpp on the buffer itself. The other side
// may run only where the code gives it a chance to: in the callbacks.
module RingbufferClass {
  import opened Slots
  import opened Ringbuffer
  import opened Wrappers
  import Bits

  // ---------- Bulk transfer as repeated single transfer ----------

  // Inserting the values one by one into a buffer of capacity cap until one is
  // refused: the new content and the number accepted.
  function InsertEach<T>(q: seq<T>, vals: seq<T>, cap: nat): (seq<T>, nat)
    decreases |vals|
  {
    if |vals| == 0 || |q| >= cap then (q, 0)
    else
      var (r, n) := InsertEach(q + [vals[0]], vals[1..], cap);
      (r, n + 1)
  }

  // Removing one by one until cnt values came out or none is left.
  function RemoveEach<T>(q: seq<T>, cnt: nat): (seq<T>, seq<T>)
    decreases cnt
  {
    if cnt == 0 || |q| == 0 then (q, [])
    else
      var (r, out) := RemoveEach(q[1..], cnt - 1);
      (r, [q[0]] + out)
  }

  lemma {:induction false} BulkInsert<T>(q: seq<T>, vals: seq<T>, cap: nat)
    requires |q| <= cap
    ensures var n := Min(|vals|, cap - |q|);
            InsertEach(q, vals, cap) == (q + vals[..n], n)
    decreases |vals|
  {
    if |vals| == 0 || |q| >= cap {
      assert q + vals[..0] == q;
    } else {
      BulkInsert(q + [vals[0]], vals[1..], cap);
      var n := Min(|vals|, cap - |q|);
      assert q + vals[..n] == q + [vals[0]] + vals[1..][..n - 1];
    }
  }

  lemma {:induction false} BulkRemove<T>(q: seq<T>, cnt: nat)
    ensures var n := Min(cnt, |q|);
            RemoveEach(q, cnt) == (q[n..], q[..n])
    decreases cnt
  {
    if cnt > 0 && |q| > 0 {
      BulkRemove(q[1..], cnt - 1);
      var n := Min(cnt, |q|);
      assert q[..n] == [q[0]] + q[1..][..n - 1];
    }
  }

  // ---------- Batches of the transfers with a callback ----------

  // avail: the free slots, or stored values, when the batch was begun.
  datatype Batch = Batch(avail: nat, size: nat)

  function Total(batches: seq<Batch>): nat
  {
    if |batches| == 0 then 0 else Total(batches[..|batches| - 1]) + batches[|batches| - 1].size
  }

  // What the next batch aims at: the first one at count_to_callback, if that is
  // not 0 and less than count, all others at the rest.
  function Aim(done: seq<Batch>, count: nat, countToCallback: nat): int
  {
    if |done| == 0 && 0 < countToCallback < count then countToCallback else count - Total(done)
  }

  // Every batch has the size aimed at, or all there was room for, and is not empty.
  predicate BatchesOk(batches: seq<Batch>, count: nat, countToCallback: nat)
  {
    |batches| == 0 ||
    (var done, last := batches[..|batches| - 1], batches[|batches| - 1];
     var aim := Aim(done, count, countToCallback);
     BatchesOk(done, count, countToCallback) && 0 < last.size == if aim < last.avail then aim else last.avail)
  }

  // The batches moved so many values, and the first began with so much available.
  predicate Recorded(batches: seq<Batch>, moved: nat, count: nat, countToCallback: nat, avail: nat)
  {
    BatchesOk(batches, count, countToCallback) && Total(batches) == moved &&
    (|batches| > 0 ==> batches[0].avail == avail)
  }

  lemma OneMoreBatch(batches: seq<Batch>, b: Batch, moved: nat, count: nat, countToCallback: nat, avail: nat)
    requires Recorded(batches, moved, count, countToCallback, avail)
    requires var aim := Aim(batches, count, countToCallback);
             0 < b.size == if aim < b.avail then aim else b.avail
    requires |batches| == 0 ==> b.avail == avail
    ensures Recorded(batches + [b], moved + b.size, count, countToCallback, avail)
    ensures Aim(batches + [b], count, countToCallback) == count - moved - b.size
  {
    assert (batches + [b])[..|batches|] == batches;
  }

  class Ring<T(0)> {
    const order: nat
    const bits: nat
    const data: array<T>
    var head: nat
    var tail: nat
    ghost var log: seq<T>   // every value ever published
    ghost var taken: nat    // how many of them have been removed

    ghost predicate Valid()
      reads this, data
    {
      Sized(order, bits) && data.Length == Bits.Pow2(order) &&
      head == |log| % M(bits) && tail == taken % M(bits) &&
      taken <= |log| <= taken + data.Length &&
      log[taken..] == Window(data[..], taken, |log|, order)
    }

    ghost function Contents(): seq<T>
      requires Valid()
      reads this, data
    {
      log[taken..]
    }

    constructor (order: nat, bits: nat)
      requires Sized(order, bits)
      ensures Valid() && fresh(data)
      ensures this.order == order && this.bits == bits && log == [] && taken == 0
    {
      this.order, this.bits := order, bits;
      data := new T[Bits.Pow2(order)];
      head, tail, log, taken := 0, 0, [], 0;
    }

    method ReadAvailable() returns (n: nat)
      requires Valid()
      ensures n == |Contents()|
    {
      CountsExact(|log|, taken, order, bits);
      return Used(head, tail, bits);
    }

    method WriteAvailable() returns (n: nat)
      requires Valid()
      ensures n == data.Length - |Contents()|
    {
      CountsExact(|log|, taken, order, bits);
      return Room(head, tail, order, bits);
    }

    // The number of free slots, from the producer's own copy of head.
    method FreeSlots(tmpHead: nat) returns (n: nat)
      requires Valid() && tmpHead == head
      ensures n == data.Length - |Contents()|
    {
      CountsExact(|log|, taken, order, bits);
      return Room(tmpHead, tail, order, bits);
    }

    // The number of readable slots, from the consumer's own copy of tail.
    method FilledSlots(tmpTail: nat) returns (n: nat)
      requires Valid() && tmpTail == tail
      ensures n == |Contents()|
    {
      CountsExact(|log|, taken, order, bits);
      return Used(head, tmpTail, bits);
    }

    // data_buff[i++ & buffer_mask] = v, where i is the wrapped value of counter x
    method Put(i: nat, ghost x: nat, v: T) returns (next: nat)
      requires Sized(order, bits) && data.Length == Bits.Pow2(order) && i == x % M(bits)
      modifies data
      ensures data[..] == old(data[..])[Index(x, order) := v]
      ensures next == (x + 1) % M(bits)
    {
      IndexOfWrapped(x, order, bits);
      SlotExact(x, 1, order, bits);
      data[Index(i, order)] := v;
      next := (i + 1) % M(bits);
    }

    // v = data_buff[i++ & buffer_mask]
    method Fetch(i: nat, ghost x: nat) returns (v: T, next: nat)
      requires Sized(order, bits) && data.Length == Bits.Pow2(order) && i == x % M(bits)
      ensures v == data[..][Index(x, order)]
      ensures next == (x + 1) % M(bits)
    {
      IndexOfWrapped(x, order, bits);
      SlotExact(x, 1, order, bits);
      v := data[Index(i, order)];
      next := (i + 1) % M(bits);
    }

    method Insert(v: T) returns (ok: bool)
      requires Valid()
      modifies `head, `log, data
      ensures Valid() && taken == old(taken)
      ensures ok <==> |old(Contents())| < data.Length
      ensures log == if ok then old(log) + [v] else old(log)
    {
      CountsExact(|log|, taken, order, bits);
      var tmpHead := head;
      if Used(tmpHead, tail, bits) == Bits.Pow2(order) {
        return false;
      }
      WindowPush(data[..], taken, |log|, order, v);
      tmpHead := Put(tmpHead, |log|, v);
      head := tmpHead;
      log := log + [v];
      return true;
    }

    method Remove() returns (v: Option<T>)
      requires Valid()
      modifies `tail, `taken
      ensures Valid()
      ensures v.None? <==> old(Contents()) == []
      ensures v.None? ==> taken == old(taken)
      ensures v.Some? ==> old(Contents()) == [v.value] + Contents() && taken == old(taken) + 1
    {
      CountsExact(|log|, taken, order, bits);
      var tmpTail := tail;
      if tmpTail == head {
        return None;
      }
      WindowPop(data[..], taken, |log|, order);
      var x;
      x, tmpTail := Fetch(tmpTail, taken);
      tail := tmpTail;
      taken := taken + 1;
      return Some(x);
    }

    method RemoveMany(cnt: nat) returns (n: nat)
      requires Valid()
      modifies `tail, `taken
      ensures Valid()
      ensures n == Min(cnt, |old(Contents())|) && taken == old(taken) + n
      ensures Contents() == RemoveEach(old(Contents()), cnt).0
    {
      CountsExact(|log|, taken, order, bits);
      BulkRemove(Contents(), cnt);
      var tmpTail := tail;
      var avail := Used(head, tmpTail, bits);
      n := if cnt > avail then avail else cnt;
      WindowDrop(data[..], taken, n, |log|, order);
      SlotExact(taken, n, order, bits);
      tail := (tmpTail + n) % M(bits);
      taken := taken + n;
    }

    method At(index: nat) returns (v: Option<T>)
      requires Valid()
      ensures v == if index < |Contents()| then Some(Contents()[index]) else None
    {
      CountsExact(|log|, taken, order, bits);
      var tmpTail := tail;
      if Used(head, tmpTail, bits) <= index {
        return None;
      }
      SlotExact(taken, index, order, bits);
      return Some(data[Index((tmpTail + index) % M(bits), order)]);
    }

    method ConsumerClear()
      requires Valid()
      modifies `tail, `taken
      ensures Valid() && Contents() == [] && taken == |log|
    {
      WindowDrop(data[..], taken, |log| - taken, |log|, order);
      tail := head;
      taken := |log|;
    }

    method WriteBuff(buff: seq<T>, count: nat) returns (toWrite: nat)
      requires Valid() && count <= |buff|
      modifies `head, `log, data
      ensures Valid() && taken == old(taken)
      ensures toWrite == Min(count, data.Length - |old(Contents())|)
      ensures log == old(log) + buff[..toWrite]
      ensures (Contents(), toWrite) == InsertEach(old(Contents()), buff[..count], data.Length)
    {
      ghost var before := Contents();
      var tmpHead := head;
      toWrite := count;
      var available := FreeSlots(tmpHead);
      if available < count {
        toWrite := available;
      }
      tmpHead := WriteBatch(buff, 0, toWrite, tmpHead);
      assert Contents() == before + buff[..toWrite];
      BulkInsert(before, buff[..count], data.Length);
      assert buff[..count][..toWrite] == buff[..toWrite];
    }

    // Copy, then publish the new head.
    method WriteBatch(buff: seq<T>, from: nat, n: nat, tmpHead: nat) returns (next: nat)
      requires Valid() && from + n <= |buff| && tmpHead == head && |Contents()| + n <= data.Length
      modifies `head, `log, data
      ensures Valid() && next == head
      ensures log == old(log) + buff[from..from + n]
    {
      ghost var before := Contents();
      next := WriteLoop(buff, from, n, tmpHead, |log|);
      head := next;
      log := log + buff[from..from + n];
      assert log[taken..] == before + buff[from..from + n];
    }

    // The copying loops of both writeBuff: n values of buff from position from on,
    // behind count x, which is published later.
    method WriteLoop(buff: seq<T>, from: nat, n: nat, tmpHead: nat, ghost x: nat) returns (next: nat)
      requires Sized(order, bits) && data.Length == Bits.Pow2(order) && from + n <= |buff|
      requires tmpHead == x % M(bits) && taken <= x && x + n <= taken + data.Length
      modifies data
      ensures next == (x + n) % M(bits)
      ensures Window(data[..], taken, x + n, order) == old(Window(data[..], taken, x, order)) + buff[from..from + n]
    {
      next := tmpHead;
      for i := 0 to n
        invariant next == (x + i) % M(bits)
        invariant Window(data[..], taken, x + i, order) == old(Window(data[..], taken, x, order)) + buff[from..from + i]
      {
        WindowPush(data[..], taken, x + i, order, buff[from + i]);
        next := Put(next, x + i, buff[from + i]);
        assert buff[from..from + i + 1] == buff[from..from + i] + [buff[from + i]];
      }
    }

    // The consumer's side during a callback: it removes any number of values.
    method ConsumerRuns()
      requires Valid()
      modifies `tail, `taken
      ensures Valid() && old(taken) <= taken
    {
      var cnt: nat := *;
      var _ := RemoveMany(cnt);
    }

    // One pass of the loop of the second writeBuff, behind the values that earlier
    // passes published, and the callback after it.
    method WritePass(buff: seq<T>, written: nat, n: nat, tmpHead: nat, ghost start: seq<T>, hasCallback: bool)
      returns (next: nat)
      requires Valid() && written + n <= |buff| && tmpHead == head && |Contents()| + n <= data.Length
      requires log == start + buff[..written]
      modifies `head, `tail, `log, `taken, data
      ensures Valid() && next == head && log == start + buff[..written + n]
      ensures old(taken) <= taken && (!hasCallback ==> taken == old(taken))
    {
      next := WriteBatch(buff, written, n, tmpHead);
      assert buff[..written + n] == buff[..written] + buff[written..written + n];
      if hasCallback {
        ConsumerRuns();
      }
    }

    // The batches, and how often the callback ran, are returned for the record.
    method WriteBuffCallback(buff: seq<T>, count: nat, countToCallback: nat, hasCallback: bool)
      returns (written: nat, ghost batches: seq<Batch>, ghost calls: nat)
      requires Valid() && count <= |buff|
      modifies `head, `tail, `log, `taken, data
      ensures Valid() && old(taken) <= taken && (!hasCallback ==> taken == old(taken))
      ensures written <= count && log == old(log) + buff[..written]
      ensures written < count ==> |Contents()| == data.Length
      ensures Recorded(batches, written, count, countToCallback, data.Length - |old(Contents())|)
      ensures calls == if hasCallback then |batches| else 0
    {
      ghost var avail, start := data.Length - |Contents()|, log;
      written, batches, calls := 0, [], 0;
      var tmpHead := head;
      var toWrite := count;
      if countToCallback != 0 && countToCallback < count {
        toWrite := countToCallback;
      }
      while written < count
        invariant Valid() && old(taken) <= taken && (!hasCallback ==> taken == old(taken))
        invariant written <= count && tmpHead == head && log == start + buff[..written]
        invariant written < count ==> 0 < toWrite == Aim(batches, count, countToCallback) <= count - written
        invariant Recorded(batches, written, count, countToCallback, avail)
        invariant |batches| == 0 ==> |Contents()| == data.Length - avail
        invariant calls == if hasCallback then |batches| else 0
        decreases count - written
      {
        var available := FreeSlots(tmpHead);
        if available == 0 {
          break;
        }
        if toWrite > available {
          toWrite := available;
        }
        OneMoreBatch(batches, Batch(available, toWrite), written, count, countToCallback, avail);
        batches, calls := batches + [Batch(available, toWrite)], calls + if hasCallback then 1 else 0;
        tmpHead := WritePass(buff, written, toWrite, tmpHead, start, hasCallback);
        written := written + toWrite;
        toWrite := count - written;
      }
    }

    method ReadBuff(buff: array<T>, count: nat) returns (toRead: nat)
      requires Valid() && count <= buff.Length && buff != data
      modifies `tail, `taken, buff
      ensures Valid() && taken == old(taken) + toRead
      ensures toRead == Min(count, |old(Contents())|)
      ensures buff[..] == old(Contents())[..toRead] + old(buff[toRead..])
      ensures (Contents(), buff[..toRead]) == RemoveEach(old(Contents()), count)
    {
      ghost var before := Contents();
      var tmpTail := tail;
      toRead := count;
      var available := FilledSlots(tmpTail);
      if available < count {
        toRead := available;
      }
      tmpTail := ReadBatch(buff, 0, toRead, tmpTail);
      assert Contents() == before[toRead..];
      assert buff[..toRead] == before[..toRead];
      BulkRemove(before, count);
    }

    // The copying loops of both readBuff.
    method ReadLoop(buff: array<T>, from: nat, n: nat, tmpTail: nat, ghost x: nat) returns (next: nat)
      requires Sized(order, bits) && data.Length == Bits.Pow2(order) && from + n <= buff.Length && buff != data
      requires tmpTail == x % M(bits)
      modifies buff
      ensures next == (x + n) % M(bits)
      ensures buff[..] == old(buff[..from]) + Window(data[..], x, x + n, order) + old(buff[from + n..])
    {
      next := tmpTail;
      for i := 0 to n
        invariant next == (x + i) % M(bits)
        invariant buff[..] == old(buff[..from]) + Window(data[..], x, x + i, order) + old(buff[from + i..])
      {
        buff[from + i], next := Fetch(next, x + i);
      }
    }

    // The producer's side during a callback: it inserts any number of values.
    method ProducerRuns(ghost start: nat)
      requires Valid() && start <= taken
      modifies `head, `log, data
      ensures Valid() && old(log) <= log
      ensures log[start..taken] == old(log[start..taken])
    {
      var cnt: nat := *;
      while cnt > 0
        invariant Valid() && old(log) <= log
      {
        var v: T := *;
        var _ := Insert(v);
        cnt := cnt - 1;
      }
    }

    method ReadBuffCallback(buff: array<T>, count: nat, countToCallback: nat, hasCallback: bool)
      returns (read: nat, ghost batches: seq<Batch>, ghost calls: nat)
      requires Valid() && count <= buff.Length && buff != data
      modifies `head, `tail, `log, `taken, data, buff
      ensures Valid() && old(log) <= log && (!hasCallback ==> log == old(log))
      ensures read <= count && taken == old(taken) + read
      ensures buff[..] == log[old(taken)..taken] + old(buff[read..])
      ensures read < count ==> Contents() == []
      ensures Recorded(batches, read, count, countToCallback, |old(Contents())|)
      ensures calls == if hasCallback then |batches| else 0
    {
      ghost var orig := buff[..];
      read, batches, calls := ReadPasses(buff, count, countToCallback, hasCallback, taken, orig, log);
      assert orig[read..] == old(buff[read..]);
    }

    // The loop of the second readBuff.
    method ReadPasses(buff: array<T>, count: nat, countToCallback: nat, hasCallback: bool,
                      ghost start: nat, ghost orig: seq<T>, ghost first: seq<T>)
      returns (read: nat, ghost batches: seq<Batch>, ghost calls: nat)
      requires Valid() && count <= buff.Length && buff != data && Delivered(buff, start, orig, 0) && log == first
      modifies `head, `tail, `log, `taken, data, buff
      ensures Valid() && first <= log && (!hasCallback ==> log == first)
      ensures read <= count && Delivered(buff, start, orig, read)
      ensures read < count ==> Contents() == []
      ensures Recorded(batches, read, count, countToCallback, |first| - start)
      ensures calls == if hasCallback then |batches| else 0
    {
      read, batches, calls := 0, [], 0;
      var tmpTail := tail;
      var toRead := count;
      if countToCallback != 0 && countToCallback < count {
        toRead := countToCallback;
      }
      while read < count
        invariant Valid() && first <= log && (!hasCallback ==> log == first)
        invariant read <= count && tmpTail == tail && Delivered(buff, start, orig, read)
        invariant read < count ==> 0 < toRead == Aim(batches, count, countToCallback) <= count - read
        invariant Recorded(batches, read, count, countToCallback, |first| - start)
        invariant |batches| == 0 ==> log == first && read == 0
        invariant calls == if hasCallback then |batches| else 0
        decreases count - read
      {
        var moved, next, found := ReadPass(buff, read, toRead, tmpTail, start, orig, first, hasCallback);
        if moved == 0 {
          break;
        }
        OneMoreBatch(batches, Batch(found, moved), read, count, countToCallback, |first| - start);
        batches, calls := batches + [Batch(found, moved)], calls + if hasCallback then 1 else 0;
        tmpTail := next;
        read := read + moved;
        toRead := count - read;
      }
    }

    static lemma BatchBehind(log: seq<T>, start: nat, mid: nat, end: nat, orig: seq<T>, read: nat)
      requires start <= mid <= end <= |log| && mid - start == read && read + (end - mid) <= |orig|
      ensures var b := log[start..mid] + orig[read..];
              var n := end - mid;
              b[..read] + log[mid..end] + b[read + n..] == log[start..end] + orig[read + n..]
    {
    }

    // read values, the next ones published from count start on, are in front of
    // what buff held at first.
    ghost predicate Delivered(buff: array<T>, start: nat, orig: seq<T>, read: nat)
      reads this, buff
    {
      taken == start + read <= |log| && |orig| == buff.Length && read <= buff.Length &&
      buff[..] == log[start..taken] + orig[read..]
    }

    // One pass of the loop of the second readBuff, behind read values that
    // earlier passes put in front, and the callback after it. found is the
    // number of values stored when it began.
    method ReadPass(buff: array<T>, read: nat, toRead: nat, tmpTail: nat, ghost start: nat, ghost orig: seq<T>,
                    ghost first: seq<T>, hasCallback: bool)
      returns (moved: nat, next: nat, ghost found: nat)
      requires Valid() && 0 < toRead && read + toRead <= buff.Length && buff != data && tmpTail == tail
      requires Delivered(buff, start, orig, read) && first <= log && (!hasCallback ==> log == first)
      modifies `head, `tail, `log, `taken, data, buff
      ensures Valid() && next == tail && found == old(|Contents()|) && moved == Min(toRead, found)
      ensures Delivered(buff, start, orig, read + moved)
      ensures first <= log && (!hasCallback ==> log == first)
      ensures moved == 0 ==> Contents() == []
    {
      var available := FilledSlots(tmpTail);
      found := available;
      if available == 0 {
        return 0, tmpTail, found;
      }
      moved := if toRead > available then available else toRead;
      next := ReadBehind(buff, read, moved, tmpTail, start, orig);
      ghost var before, got := log, log[start..taken];
      if hasCallback {
        ProducerRuns(start);
        assert log[start..taken] == before[start..taken] == got;
      }
    }

    method ReadBehind(buff: array<T>, read: nat, n: nat, tmpTail: nat, ghost start: nat, ghost orig: seq<T>)
      returns (next: nat)
      requires Valid() && read + n <= buff.Length && buff != data && tmpTail == tail && n <= |Contents()|
      requires Delivered(buff, start, orig, read)
      modifies `tail, `taken, buff
      ensures Valid() && next == tail && Delivered(buff, start, orig, read + n)
    {
      BatchBehind(log, start, taken, taken + n, orig, read);
      next := ReadBatch(buff, read, n, tmpTail);
    }

    // Copy, then publish the new tail.
    method ReadBatch(buff: array<T>, from: nat, n: nat, tmpTail: nat) returns (next: nat)
      requires Valid() && from + n <= buff.Length && buff != data && tmpTail == tail && n <= |Contents()|
      modifies `tail, `taken, buff
      ensures Valid() && next == tail && taken == old(taken) + n
      ensures buff[..] == old(buff[..from]) + log[old(taken)..taken] + old(buff[from + n..])
    {
      ghost var before := Contents();
      next := ReadLoop(buff, from, n, tmpTail, taken);
      WindowSplit(data[..], taken, taken + n, |log|, order);
      assert before[..n] == log[taken..taken + n];
      tail := next;
      taken := taken + n;
      assert Contents() == before[n..];
    }
  }
}
