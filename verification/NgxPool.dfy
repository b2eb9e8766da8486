// The pool allocator of core/ngx_pool.cpp on values: bump blocks with reference
// counts, failure counters along the chain, and a list of large blocks.
// Addresses are integers; what the system allocator returns is an argument.
module NgxPool {
  import opened Wrappers
  import Bits

  // Sizes on an LP64 system.
  const PAGE := 4096
  const BLOCK_HEADER := 48
  const POOL_HEADER := 24
  const LARGE_HEADER := 16

  lemma EightIsPow2()
    ensures Bits.Pow2(3) == 8
  {
    assert Bits.Pow2(1) == 2;
    assert Bits.Pow2(2) == 4;
  }

  lemma RoundDown(x: nat)
    requires x < Bits.WORD
    ensures Bits.Pow2(3) <= Bits.WORD
    ensures var r := Bits.And(x, Bits.WORD - Bits.Pow2(3)); r <= x < r + 8 && r % 8 == 0
  {
    Bits.WordIsPow2();
    Bits.HighMask(x, 3, 64);
    EightIsPow2();
    MultipleOfEight(x);
  }

  lemma MultipleOfEight(x: nat)
    ensures x - x % 8 <= x < (x - x % 8) + 8 && (x - x % 8) % 8 == 0
  {
  }

  // ngx_align_ptr(p, 8): up to the next multiple of 8.
  function Align(p: nat): (r: nat)
    requires p + 7 < Bits.WORD
    ensures p <= r < p + 8 && r % 8 == 0
  {
    RoundDown(p + 7);
    Bits.And(p + 7, Bits.WORD - Bits.Pow2(3))
  }

  // low is the address the system returned for the page; start, end, last, ref
  // and faild are the header's fields.
  datatype Block = Block(low: nat, start: nat, end: nat, last: nat, ref: nat, faild: nat)

  datatype Large = Large(addr: nat, size: nat)

  // blocks is the chain from pool->head on; curr is the position of pool->curr in it.
  datatype State = State(pool: nat, blocks: seq<Block>, curr: nat, large: seq<Large>)

  function Data(l: Large): nat
  {
    l.addr + LARGE_HEADER
  }

  function LargeEnd(l: Large): nat
  {
    Data(l) + l.size
  }

  // What ngx_allocate_large asks malloc for: the sum is taken in size_t.
  function LargeRequest(size: nat): (r: nat)
    ensures r < Bits.WORD
  {
    (size + LARGE_HEADER) % Bits.WORD
  }

  // The end of the extent that malloc returned for a large block.
  function GrantedEnd(l: Large): nat
  {
    l.addr + LargeRequest(l.size)
  }

  // The sizes for which the sum does not wrap.
  predicate SizeOk(size: nat)
  {
    size + LARGE_HEADER < Bits.WORD
  }

  lemma RequestExact(size: nat)
    requires SizeOk(size)
    ensures LargeRequest(size) == size + LARGE_HEADER
  {
    Bits.WrapOnce(size + LARGE_HEADER, Bits.WORD);
  }

  lemma RequestWraps(size: nat)
    requires size < Bits.WORD && !SizeOk(size)
    ensures LargeRequest(size) == size + LARGE_HEADER - Bits.WORD < LARGE_HEADER
  {
    Bits.WrapOnce(size + LARGE_HEADER, Bits.WORD);
  }

  // ---------- The operations ----------

  // What ngx_create_pool asks the system for: whole pages, at least one.
  function PoolRequest(size: nat): (r: nat)
    ensures r % PAGE == 0 && Create(0).blocks[0].end <= r
    ensures r == size <==> size > 0 && size % PAGE == 0
    ensures r == size || r == PAGE
  {
    if size < PAGE || size % PAGE != 0 then PAGE else size
  }

  // ngx_create_pool, once the system has returned pool. The first block ends
  // one page behind pool however much was asked for.
  function Create(pool: nat): State
  {
    var start := pool + POOL_HEADER + BLOCK_HEADER;
    State(pool, [Block(pool, start, pool + PAGE, start, 0, 0)], 0, [])
  }

  // The test at line 82, with its conversion to size_t.
  predicate Fits(b: Block, size: nat)
    requires b.last + 7 < Bits.WORD
  {
    Bits.WrapSub(b.end, Align(b.last), Bits.WORD) >= size
  }

  predicate Addressable(blocks: seq<Block>)
  {
    forall i :: 0 <= i < |blocks| ==> blocks[i].last + 7 < Bits.WORD
  }

  // The first block from i on with room, or the length of the chain.
  function FindFit(blocks: seq<Block>, i: nat, size: nat): (k: nat)
    requires Addressable(blocks) && i <= |blocks|
    ensures i <= k <= |blocks|
    ensures k < |blocks| ==> Fits(blocks[k], size)
    ensures forall j :: i <= j < k ==> !Fits(blocks[j], size)
    decreases |blocks| - i
  {
    if i == |blocks| || Fits(blocks[i], size) then i else FindFit(blocks, i + 1, size)
  }

  function Bump(b: Block, mem: nat, size: nat): Block
  {
    b.(ref := b.ref + 1, last := mem + size)
  }

  // The loop of ngx_allocate_block: the aged chain and the new pool->curr.
  function Age(blocks: seq<Block>, i: nat, current: nat): (r: (seq<Block>, nat))
    requires i < |blocks|
    ensures |r.0| == |blocks|
    decreases |blocks| - i
  {
    if i + 1 == |blocks| then (blocks, current)
    else
      Age(blocks[i := blocks[i].(faild := blocks[i].faild + 1)], i + 1,
          if blocks[i].faild > 4 then i + 1 else current)
  }

  function AllocateBlock(s: State, size: nat, sys: Option<nat>): (State, Option<nat>)
    requires s.curr < |s.blocks|
  {
    match sys
    case None => (s, None)
    case Some(low) =>
      var start := low + BLOCK_HEADER;
      var (aged, current) := Age(s.blocks, s.curr, s.curr);
      (s.(blocks := aged + [Block(low, start, low + PAGE, start + size, 1, 0)], curr := current), Some(start))
  }

  function AllocateLarge(s: State, size: nat, sys: Option<nat>): (State, Option<nat>)
  {
    match sys
    case None => (s, None)
    case Some(addr) => (s.(large := s.large + [Large(addr, size)]), Some(addr + LARGE_HEADER))
  }

  function Palloc(s: State, size: nat, sys: Option<nat>): (State, Option<nat>)
    requires s.curr < |s.blocks| && Addressable(s.blocks)
  {
    if size == 0 then (s, None)
    else if size > PAGE - BLOCK_HEADER then AllocateLarge(s, size, sys)
    else
      var k := FindFit(s.blocks, s.curr, size);
      if k < |s.blocks| then
        var mem := Align(s.blocks[k].last);
        (s.(blocks := s.blocks[k := Bump(s.blocks[k], mem, size)]), Some(mem))
      else AllocateBlock(s, size, sys)
  }

  // The first block whose inclusive range start..end holds p, or the length of the chain.
  function FindOwner(blocks: seq<Block>, i: nat, p: nat): (k: nat)
    requires i <= |blocks|
    ensures i <= k <= |blocks|
    ensures k < |blocks| ==> blocks[k].start <= p <= blocks[k].end
    ensures forall j :: i <= j < k ==> !(blocks[j].start <= p <= blocks[j].end)
    decreases |blocks| - i
  {
    if i == |blocks| || blocks[i].start <= p <= blocks[i].end then i else FindOwner(blocks, i + 1, p)
  }

  function FindLarge(large: seq<Large>, i: nat, p: nat): (k: nat)
    requires i <= |large|
    ensures i <= k <= |large|
    ensures k < |large| ==> Data(large[k]) == p
    ensures forall j :: i <= j < k ==> Data(large[j]) != p
    decreases |large| - i
  {
    if i == |large| || Data(large[i]) == p then i else FindLarge(large, i + 1, p)
  }

  // ref-- is a decrement in unsigned int.
  function Drop(b: Block): Block
  {
    var r := Bits.WrapSub(b.ref, 1, 0x1_0000_0000);
    if r == 0 then b.(ref := 0, last := b.start) else b.(ref := r)
  }

  function Free(s: State, p: nat): State
  {
    if p == 0 then s
    else
      var k := FindOwner(s.blocks, 0, p);
      if k < |s.blocks| then s.(blocks := s.blocks[k := Drop(s.blocks[k])])
      else
        var l := FindLarge(s.large, 0, p);
        if l < |s.large| then s.(large := s.large[..l] + s.large[l + 1..]) else s
  }

  // ---------- The invariant ----------

  predicate Apart(lo: nat, hi: nat, lo': nat, hi': nat)
  {
    hi <= lo' || hi' <= lo
  }

  predicate BlockShaped(b: Block, header: nat)
  {
    b.low > 0 && b.start == b.low + header && b.end == b.low + PAGE && b.start <= b.last <= b.end
  }

  // Pages and large blocks as the system handed them out: shaped and disjoint.
  ghost predicate Extents(s: State)
  {
    s.curr < |s.blocks| && s.blocks[0].low == s.pool &&
    (forall i :: 0 <= i < |s.blocks| ==>
       BlockShaped(s.blocks[i], if i == 0 then POOL_HEADER + BLOCK_HEADER else BLOCK_HEADER)) &&
    (forall i, j {:trigger Apart(s.blocks[i].low, s.blocks[i].end, s.blocks[j].low, s.blocks[j].end)} ::
       0 <= i < j < |s.blocks| ==>
       Apart(s.blocks[i].low, s.blocks[i].end, s.blocks[j].low, s.blocks[j].end)) &&
    (forall i, k {:trigger Apart(s.blocks[i].low, s.blocks[i].end, s.large[k].addr, LargeEnd(s.large[k]))} ::
       0 <= i < |s.blocks| && 0 <= k < |s.large| ==>
       Apart(s.blocks[i].low, s.blocks[i].end, s.large[k].addr, LargeEnd(s.large[k]))) &&
    (forall k, l {:trigger Apart(s.large[k].addr, LargeEnd(s.large[k]), s.large[l].addr, LargeEnd(s.large[l]))} ::
       0 <= k < l < |s.large| ==>
       Apart(s.large[k].addr, LargeEnd(s.large[k]), s.large[l].addr, LargeEnd(s.large[l])))
  }

  // Everything the system and the pool hand out is 8-aligned, rounding up
  // inside a page stays in the address space, and so does every large block.
  ghost predicate Aligned(s: State, live: map<nat, nat>)
  {
    (forall i :: 0 <= i < |s.blocks| ==> s.blocks[i].low % 8 == 0 && s.blocks[i].end + 7 < Bits.WORD) &&
    (forall k :: 0 <= k < |s.large| ==> s.large[k].addr % 8 == 0 && SizeOk(s.large[k].size)) &&
    (forall p :: p in live ==> p % 8 == 0)
  }

  predicate InBlock(b: Block, p: nat)
  {
    b.start <= p < b.end
  }

  // The live allocations (address to size) of one block.
  ghost function LiveIn(live: map<nat, nat>, b: Block): set<nat>
  {
    set p | p in live && InBlock(b, p)
  }

  ghost predicate Owned(s: State, p: nat)
  {
    (exists i :: 0 <= i < |s.blocks| && InBlock(s.blocks[i], p)) ||
    (exists k :: 0 <= k < |s.large| && Data(s.large[k]) == p)
  }

  // Every live allocation lies in one block below last, or is
  // exactly one large block.
  ghost predicate Placed(s: State, live: map<nat, nat>)
  {
    (forall p :: p in live ==> live[p] > 0) &&
    (forall p {:trigger Owned(s, p)} :: p in live ==> Owned(s, p)) &&
    (forall i, p :: 0 <= i < |s.blocks| && p in live && InBlock(s.blocks[i], p) ==> p + live[p] <= s.blocks[i].last) &&
    (forall k :: 0 <= k < |s.large| ==> Data(s.large[k]) in live && live[Data(s.large[k])] == s.large[k].size)
  }

  ghost predicate LiveDisjoint(live: map<nat, nat>)
  {
    forall p, q {:trigger live[p], live[q]} :: p in live && q in live && p != q ==>
      Apart(p, p + live[p], q, q + live[q])
  }

  // A block's counter is the number of its live allocations, and without any
  // the whole block is available again.
  ghost predicate Counted(s: State, live: map<nat, nat>)
  {
    forall i :: 0 <= i < |s.blocks| ==>
      s.blocks[i].ref == |LiveIn(live, s.blocks[i])| &&
      (s.blocks[i].ref == 0 ==> s.blocks[i].last == s.blocks[i].start)
  }

  // The failure counters from pool->curr on go down by one per block, and the
  // last two are 0; pool->curr leaves the last seven blocks to scan.
  ghost predicate Staircase(s: State)
  {
    |s.blocks| > 0 && s.curr == (if |s.blocks| <= 7 then 0 else |s.blocks| - 7) &&
    s.blocks[|s.blocks| - 1].faild == 0 &&
    forall i :: s.curr <= i < |s.blocks| - 1 ==> s.blocks[i].faild == |s.blocks| - 2 - i
  }

  ghost predicate Inv(s: State, live: map<nat, nat>)
  {
    Extents(s) && Aligned(s, live) && Placed(s, live) && LiveDisjoint(live) && Counted(s, live) && Staircase(s)
  }

  // An extent apart from everything in use.
  ghost predicate FreshExtent(s: State, lo: nat, hi: nat)
  {
    0 < lo <= hi &&
    (forall i {:trigger Apart(s.blocks[i].low, s.blocks[i].end, lo, hi)} :: 0 <= i < |s.blocks| ==>
       Apart(s.blocks[i].low, s.blocks[i].end, lo, hi)) &&
    (forall k {:trigger Apart(s.large[k].addr, LargeEnd(s.large[k]), lo, hi)} :: 0 <= k < |s.large| ==>
       Apart(s.large[k].addr, LargeEnd(s.large[k]), lo, hi))
  }

  // What the system was asked for.
  function Granted(size: nat): nat
  {
    if size > PAGE - BLOCK_HEADER then LargeRequest(size) else PAGE
  }

  // What the system promises when it returns an extent: it has the length that
  // was asked for, is disjoint from all that it has granted to this pool ...
  ghost predicate Unused(s: State, lo: nat, hi: nat)
  {
    0 < lo <= hi &&
    (forall i {:trigger Apart(s.blocks[i].low, s.blocks[i].end, lo, hi)} :: 0 <= i < |s.blocks| ==>
       Apart(s.blocks[i].low, s.blocks[i].end, lo, hi)) &&
    (forall k {:trigger GrantedEnd(s.large[k])} :: 0 <= k < |s.large| ==>
       Apart(s.large[k].addr, GrantedEnd(s.large[k]), lo, hi))
  }

  // ... is aligned, and does not end at the very top of the address space.
  ghost predicate SysOk(s: State, size: nat, sys: Option<nat>)
  {
    sys.Some? ==>
      var hi := sys.value + Granted(size);
      Unused(s, sys.value, hi) && sys.value % 8 == 0 && hi + 7 < Bits.WORD
  }

  lemma UnusedIsFresh(s: State, live: map<nat, nat>, lo: nat, hi: nat)
    requires Aligned(s, live) && Unused(s, lo, hi)
    ensures FreshExtent(s, lo, hi)
  {
    forall k | 0 <= k < |s.large|
      ensures Apart(s.large[k].addr, LargeEnd(s.large[k]), lo, hi)
    {
      RequestExact(s.large[k].size);
      assert GrantedEnd(s.large[k]) == LargeEnd(s.large[k]);
    }
  }

  // ---------- Aligning and the size_t difference ----------

  // Aligning last never passes end, so the difference at line 82 is the room left.
  lemma NoUnderflow(b: Block, header: nat)
    requires BlockShaped(b, header) && b.low % 8 == 0 && b.end + 7 < Bits.WORD
    ensures Align(b.last) <= b.end
    ensures Bits.WrapSub(b.end, Align(b.last), Bits.WORD) == b.end - Align(b.last)
  {
    MultiplesOfEight(Align(b.last), b.end, b.low);
    Bits.WrapSubSmall(b.end, Align(b.last), Bits.WORD);
  }

  lemma MultiplesOfEight(a: nat, e: nat, low: nat)
    requires a % 8 == 0 && low % 8 == 0 && e == low + PAGE && a < e + 8
    ensures a <= e
  {
  }

  lemma ExtentsAddressable(s: State, live: map<nat, nat>)
    requires Extents(s) && Aligned(s, live)
    ensures Addressable(s.blocks)
  {
    assert forall i :: 0 <= i < |s.blocks| ==> s.blocks[i].last <= s.blocks[i].end;
  }

  // ---------- Where live allocations are ----------

  ghost predicate Inside(p: nat, n: nat, lo: nat, hi: nat)
  {
    lo <= p && p + n <= hi
  }

  lemma LiveInExtent(s: State, live: map<nat, nat>, p: nat)
    requires Extents(s) && Placed(s, live) && p in live
    ensures (exists i :: 0 <= i < |s.blocks| && InBlock(s.blocks[i], p) &&
                         Inside(p, live[p], s.blocks[i].start, s.blocks[i].last)) ||
            (exists k :: 0 <= k < |s.large| && Data(s.large[k]) == p && live[p] == s.large[k].size)
  {
    assert Owned(s, p);
  }

  lemma BlocksApart(s: State, i: nat, j: nat)
    requires Extents(s) && i < |s.blocks| && j < |s.blocks| && i != j
    ensures Apart(s.blocks[i].low, s.blocks[i].end, s.blocks[j].low, s.blocks[j].end)
  {
    assert i > j ==> Apart(s.blocks[j].low, s.blocks[j].end, s.blocks[i].low, s.blocks[i].end);
  }

  // Nothing live reaches into the unused part of a block ...
  lemma LiveApartFromFree(s: State, live: map<nat, nat>, k: nat, lo: nat, hi: nat, p: nat)
    requires Extents(s) && Placed(s, live) && p in live && k < |s.blocks|
    requires s.blocks[k].last <= lo && hi <= s.blocks[k].end
    ensures Apart(p, p + live[p], lo, hi)
  {
    LiveInExtent(s, live, p);
    if i :| 0 <= i < |s.blocks| && InBlock(s.blocks[i], p) && Inside(p, live[p], s.blocks[i].start, s.blocks[i].last) {
      if i != k {
        BlocksApart(s, i, k);
      }
    } else {
      var l :| 0 <= l < |s.large| && Data(s.large[l]) == p && live[p] == s.large[l].size;
      assert Apart(s.blocks[k].low, s.blocks[k].end, s.large[l].addr, LargeEnd(s.large[l]));
    }
  }

  // ... nor into a fresh extent.
  lemma LiveApartFromFresh(s: State, live: map<nat, nat>, lo: nat, hi: nat, p: nat)
    requires Extents(s) && Placed(s, live) && p in live && FreshExtent(s, lo, hi)
    ensures Apart(p, p + live[p], lo, hi)
  {
    LiveInExtent(s, live, p);
    if i :| 0 <= i < |s.blocks| && InBlock(s.blocks[i], p) && Inside(p, live[p], s.blocks[i].start, s.blocks[i].last) {
      assert Apart(s.blocks[i].low, s.blocks[i].end, lo, hi);
    } else {
      var l :| 0 <= l < |s.large| && Data(s.large[l]) == p && live[p] == s.large[l].size;
      assert Apart(s.large[l].addr, LargeEnd(s.large[l]), lo, hi);
    }
  }

  // The inclusive test p <= end still finds the block that p was taken from:
  // no live address equals the end of a block.
  lemma OwnerExact(s: State, live: map<nat, nat>, i: nat, p: nat)
    requires Extents(s) && Placed(s, live) && p in live && i < |s.blocks|
    ensures s.blocks[i].start <= p <= s.blocks[i].end <==> InBlock(s.blocks[i], p)
  {
    LiveInExtent(s, live, p);
    if j :| 0 <= j < |s.blocks| && InBlock(s.blocks[j], p) && Inside(p, live[p], s.blocks[j].start, s.blocks[j].last) {
      if i != j {
        BlocksApart(s, i, j);
      }
    } else {
      var l :| 0 <= l < |s.large| && Data(s.large[l]) == p && live[p] == s.large[l].size;
      assert Apart(s.blocks[i].low, s.blocks[i].end, s.large[l].addr, LargeEnd(s.large[l]));
    }
  }

  lemma BlockIsNotLarge(s: State, i: nat, k: nat)
    requires Extents(s) && i < |s.blocks| && k < |s.large|
    ensures !InBlock(s.blocks[i], Data(s.large[k]))
  {
    assert Apart(s.blocks[i].low, s.blocks[i].end, s.large[k].addr, LargeEnd(s.large[k]));
  }

  lemma OneBlockOnly(s: State, i: nat, j: nat, p: nat)
    requires Extents(s) && i < |s.blocks| && j < |s.blocks| && InBlock(s.blocks[i], p) && InBlock(s.blocks[j], p)
    ensures i == j
  {
    if i != j {
      BlocksApart(s, i, j);
    }
  }

  // ---------- Counting ----------

  lemma LiveInAdded(live: map<nat, nat>, b: Block, p: nat, n: nat)
    requires p !in live
    ensures |LiveIn(live[p := n], b)| == |LiveIn(live, b)| + if InBlock(b, p) then 1 else 0
  {
    assert LiveIn(live[p := n], b) == LiveIn(live, b) + if InBlock(b, p) then {p} else {};
  }

  lemma LiveInRemoved(live: map<nat, nat>, b: Block, p: nat)
    requires p in live
    ensures |LiveIn(live - {p}, b)| == |LiveIn(live, b)| - if InBlock(b, p) then 1 else 0
  {
    assert LiveIn(live - {p}, b) == LiveIn(live, b) - if InBlock(b, p) then {p} else {};
  }

  lemma LiveInSame(live: map<nat, nat>, b: Block, b': Block)
    requires b.start == b'.start && b.end == b'.end
    ensures LiveIn(live, b) == LiveIn(live, b')
  {
  }

  // ---------- Allocation from an existing block ----------

  ghost predicate ClearOf(live: map<nat, nat>, lo: nat, hi: nat)
  {
    forall q :: q in live ==> live[q] > 0 && Apart(q, q + live[q], lo, hi)
  }

  // A new allocation inside a stretch apart from all live ones keeps them pairwise apart.
  lemma AddDisjoint(live: map<nat, nat>, lo: nat, hi: nat, p: nat, n: nat)
    requires LiveDisjoint(live) && ClearOf(live, lo, hi) && n > 0 && lo <= p && p + n <= hi
    ensures p !in live && LiveDisjoint(live[p := n])
  {
  }

  lemma FreeIsClear(s: State, live: map<nat, nat>, k: nat, lo: nat, hi: nat)
    requires Extents(s) && Placed(s, live) && k < |s.blocks|
    requires s.blocks[k].last <= lo && hi <= s.blocks[k].end
    ensures ClearOf(live, lo, hi)
  {
    forall p | p in live
      ensures live[p] > 0 && Apart(p, p + live[p], lo, hi)
    {
      LiveApartFromFree(s, live, k, lo, hi, p);
    }
  }

  lemma FreshIsClear(s: State, live: map<nat, nat>, lo: nat, hi: nat)
    requires Extents(s) && Placed(s, live) && FreshExtent(s, lo, hi)
    ensures ClearOf(live, lo, hi)
  {
    forall p | p in live
      ensures live[p] > 0 && Apart(p, p + live[p], lo, hi)
    {
      LiveApartFromFresh(s, live, lo, hi, p);
    }
  }

  lemma FitRoom(s: State, live: map<nat, nat>, k: nat, size: nat)
    requires Extents(s) && Aligned(s, live) && k < |s.blocks| && Addressable(s.blocks)
    ensures Fits(s.blocks[k], size) <==> Align(s.blocks[k].last) + size <= s.blocks[k].end
  {
    NoUnderflow(s.blocks[k], if k == 0 then POOL_HEADER + BLOCK_HEADER else BLOCK_HEADER);
  }

  // Raising last of one block, within its end, keeps the layout.
  lemma RaiseLast(s: State, k: nat, b: Block)
    requires Extents(s) && k < |s.blocks| && s.blocks[k].last <= b.last <= b.end
    requires b.low == s.blocks[k].low && b.start == s.blocks[k].start && b.end == s.blocks[k].end
    ensures Extents(s.(blocks := s.blocks[k := b]))
  {
  }

  lemma BumpPlaces(s: State, live: map<nat, nat>, k: nat, mem: nat, size: nat)
    requires Extents(s) && Placed(s, live) && k < |s.blocks| && size > 0 && mem !in live
    requires s.blocks[k].last <= mem && mem + size <= s.blocks[k].end
    ensures var s' := s.(blocks := s.blocks[k := Bump(s.blocks[k], mem, size)]);
            Extents(s') && Placed(s', live[mem := size])
  {
    var s', live' := s.(blocks := s.blocks[k := Bump(s.blocks[k], mem, size)]), live[mem := size];
    RaiseLast(s, k, Bump(s.blocks[k], mem, size));
    forall p | p in live'
      ensures live'[p] > 0 && Owned(s', p)
    {
      if p == mem {
        assert InBlock(s'.blocks[k], mem);
      } else {
        OwnedSame(s, s', p);
      }
    }
    forall i, p | 0 <= i < |s'.blocks| && p in live' && InBlock(s'.blocks[i], p)
      ensures p + live'[p] <= s'.blocks[i].last
    {
      if p == mem {
        OneBlockOnly(s', i, k, mem);
      } else {
        assert InBlock(s.blocks[i], p);
      }
    }
  }

  lemma OwnedSame(s: State, s': State, p: nat)
    requires Owned(s, p) && |s.blocks| <= |s'.blocks| && s.large <= s'.large
    requires forall i :: 0 <= i < |s.blocks| ==>
               s.blocks[i].start == s'.blocks[i].start && s.blocks[i].end == s'.blocks[i].end
    ensures Owned(s', p)
  {
    if i :| 0 <= i < |s.blocks| && InBlock(s.blocks[i], p) {
      assert InBlock(s'.blocks[i], p);
    } else {
      var k :| 0 <= k < |s.large| && Data(s.large[k]) == p;
      assert Data(s'.large[k]) == p;
    }
  }

  lemma BumpCounts(s: State, live: map<nat, nat>, k: nat, mem: nat, size: nat)
    requires Extents(s) && Counted(s, live) && k < |s.blocks| && mem !in live && InBlock(s.blocks[k], mem)
    ensures Counted(s.(blocks := s.blocks[k := Bump(s.blocks[k], mem, size)]), live[mem := size])
  {
    var s' := s.(blocks := s.blocks[k := Bump(s.blocks[k], mem, size)]);
    forall i | 0 <= i < |s'.blocks|
      ensures s'.blocks[i].ref == |LiveIn(live[mem := size], s'.blocks[i])| > 0 || s'.blocks[i] == s.blocks[i]
      ensures s'.blocks[i].ref == |LiveIn(live[mem := size], s'.blocks[i])|
    {
      LiveInSame(live, s.blocks[i], s'.blocks[i]);
      LiveInAdded(live, s'.blocks[i], mem, size);
      if i != k && InBlock(s.blocks[i], mem) {
        OneBlockOnly(s, i, k, mem);
      }
    }
  }

  lemma BumpLayout(s: State, live: map<nat, nat>, k: nat, mem: nat, size: nat)
    requires Extents(s) && Aligned(s, live) && Placed(s, live) && Counted(s, live) && Staircase(s)
    requires k < |s.blocks| && size > 0 && mem !in live
    requires s.blocks[k].last <= mem && mem + size <= s.blocks[k].end && mem % 8 == 0
    ensures var s', live' := s.(blocks := s.blocks[k := Bump(s.blocks[k], mem, size)]), live[mem := size];
            Extents(s') && Aligned(s', live') && Placed(s', live') && Counted(s', live') && Staircase(s')
  {
    BumpPlaces(s, live, k, mem, size);
    BumpCounts(s, live, k, mem, size);
  }

  lemma BumpKeeps(s: State, live: map<nat, nat>, k: nat, mem: nat, size: nat)
    requires Inv(s, live) && k < |s.blocks| && size > 0
    requires s.blocks[k].last <= mem && mem + size <= s.blocks[k].end && mem % 8 == 0
    ensures mem !in live && Inv(s.(blocks := s.blocks[k := Bump(s.blocks[k], mem, size)]), live[mem := size])
  {
    FreeIsClear(s, live, k, mem, mem + size);
    AddDisjoint(live, mem, mem + size, mem, size);
    BumpLayout(s, live, k, mem, size);
  }

  // ---------- Allocation from a new block ----------

  // Two headers that differ at most in their failure counters.
  predicate SamePage(b: Block, b': Block)
  {
    b.low == b'.low && b.start == b'.start && b.end == b'.end && b.last == b'.last && b.ref == b'.ref
  }

  ghost predicate Relabelled(blocks: seq<Block>, blocks': seq<Block>)
  {
    |blocks| == |blocks'| && forall i :: 0 <= i < |blocks| ==> SamePage(blocks[i], blocks'[i])
  }

  lemma {:induction false} AgeCounts(blocks: seq<Block>, i: nat, current: nat)
    requires i < |blocks|
    ensures var aged := Age(blocks, i, current).0;
            Relabelled(blocks, aged) &&
            forall j :: 0 <= j < |blocks| ==>
              aged[j].faild == blocks[j].faild + if i <= j < |blocks| - 1 then 1 else 0
    decreases |blocks| - i
  {
    if i + 1 < |blocks| {
      AgeCounts(blocks[i := blocks[i].(faild := blocks[i].faild + 1)], i + 1,
                if blocks[i].faild > 4 then i + 1 else current);
    }
  }

  // Behind the first block nothing has failed often enough to move curr further.
  lemma {:induction false} AgeMoves(blocks: seq<Block>, i: nat, current: nat)
    requires i < |blocks| && forall j :: i < j < |blocks| - 1 ==> blocks[j].faild <= 4
    ensures Age(blocks, i, current).1 == if i + 1 < |blocks| && blocks[i].faild > 4 then i + 1 else current
    decreases |blocks| - i
  {
    if i + 1 < |blocks| {
      AgeMoves(blocks[i := blocks[i].(faild := blocks[i].faild + 1)], i + 1,
               if blocks[i].faild > 4 then i + 1 else current);
    }
  }

  lemma StaircaseKept(s: State, b: Block)
    requires Staircase(s) && b.faild == 0
    ensures var (aged, current) := Age(s.blocks, s.curr, s.curr);
            Staircase(s.(blocks := aged + [b], curr := current))
  {
    AgeCounts(s.blocks, s.curr, s.curr);
    AgeMoves(s.blocks, s.curr, s.curr);
  }

  lemma RelabelExtents(s: State, s': State)
    requires Extents(s) && Relabelled(s.blocks, s'.blocks) && s'.curr < |s'.blocks|
    requires s'.pool == s.pool && s'.large == s.large
    ensures Extents(s')
  {
    assert forall i :: 0 <= i < |s.blocks| ==> SamePage(s.blocks[i], s'.blocks[i]);
  }

  lemma RelabelPlaces(s: State, s': State, live: map<nat, nat>)
    requires Placed(s, live) && Relabelled(s.blocks, s'.blocks) && s'.large == s.large
    ensures Placed(s', live)
  {
    assert forall i :: 0 <= i < |s.blocks| ==> SamePage(s.blocks[i], s'.blocks[i]);
    forall p | p in live
      ensures Owned(s', p)
    {
      OwnedSame(s, s', p);
    }
    forall i, p | 0 <= i < |s'.blocks| && p in live && InBlock(s'.blocks[i], p)
      ensures p + live[p] <= s'.blocks[i].last
    {
      assert InBlock(s.blocks[i], p);
    }
  }

  lemma RelabelCounts(s: State, s': State, live: map<nat, nat>)
    requires Counted(s, live) && Relabelled(s.blocks, s'.blocks)
    ensures Counted(s', live)
  {
    forall i | 0 <= i < |s'.blocks|
      ensures s'.blocks[i].ref == |LiveIn(live, s'.blocks[i])|
    {
      assert SamePage(s.blocks[i], s'.blocks[i]);
      LiveInSame(live, s.blocks[i], s'.blocks[i]);
    }
  }

  lemma FreshInNoBlock(s: State, lo: nat, hi: nat, p: nat)
    requires Extents(s) && FreshExtent(s, lo, hi) && lo <= p < hi
    ensures forall i :: 0 <= i < |s.blocks| ==> !InBlock(s.blocks[i], p)
  {
    forall i | 0 <= i < |s.blocks|
      ensures !InBlock(s.blocks[i], p)
    {
      assert Apart(s.blocks[i].low, s.blocks[i].end, lo, hi);
    }
  }

  lemma AppendBlockExtents(s: State, b: Block)
    requires Extents(s) && BlockShaped(b, BLOCK_HEADER) && FreshExtent(s, b.low, b.low + PAGE)
    ensures Extents(s.(blocks := s.blocks + [b]))
  {
    var s', n := s.(blocks := s.blocks + [b]), |s.blocks|;
    assert s'.blocks[n] == b && forall i :: 0 <= i < n ==> s'.blocks[i] == s.blocks[i];
    forall i, k | 0 <= i <= n && 0 <= k < |s.large|
      ensures Apart(s'.blocks[i].low, s'.blocks[i].end, s.large[k].addr, LargeEnd(s.large[k]))
    {
      if i == n {
        assert Apart(s.large[k].addr, LargeEnd(s.large[k]), b.low, b.low + PAGE);
      }
    }
  }

  lemma AppendBlockPlaces(s: State, live: map<nat, nat>, b: Block, size: nat)
    requires Extents(s) && Placed(s, live) && BlockShaped(b, BLOCK_HEADER) && FreshExtent(s, b.low, b.low + PAGE)
    requires 0 < size && b.last == b.start + size && b.start !in live
    ensures Placed(s.(blocks := s.blocks + [b]), live[b.start := size])
  {
    var s', live', n := s.(blocks := s.blocks + [b]), live[b.start := size], |s.blocks|;
    forall p | p in live'
      ensures live'[p] > 0 && Owned(s', p)
    {
      if p == b.start {
        assert InBlock(s'.blocks[n], p);
      } else {
        OwnedSame(s, s', p);
      }
    }
    forall i, p | 0 <= i <= n && p in live' && InBlock(s'.blocks[i], p)
      ensures p + live'[p] <= s'.blocks[i].last
    {
      if i < n {
        assert s'.blocks[i] == s.blocks[i];
        assert Apart(s.blocks[i].low, s.blocks[i].end, b.low, b.low + PAGE);
      } else if p != b.start {
        LiveApartFromFresh(s, live, b.low, b.low + PAGE, p);
      }
    }
  }

  lemma AppendBlockCounts(s: State, live: map<nat, nat>, b: Block, size: nat)
    requires Extents(s) && Placed(s, live) && Counted(s, live)
    requires BlockShaped(b, BLOCK_HEADER) && FreshExtent(s, b.low, b.low + PAGE) && b.start !in live && b.ref == 1
    requires forall i :: 0 <= i < |s.blocks| ==> !InBlock(s.blocks[i], b.start)
    ensures Counted(s.(blocks := s.blocks + [b]), live[b.start := size])
  {
    var s', live', n := s.(blocks := s.blocks + [b]), live[b.start := size], |s.blocks|;
    forall i | 0 <= i <= n
      ensures s'.blocks[i].ref == |LiveIn(live', s'.blocks[i])|
    {
      LiveInAdded(live, s'.blocks[i], b.start, size);
      if i == n {
        forall p | p in live
          ensures !InBlock(b, p)
        {
          LiveApartFromFresh(s, live, b.low, b.low + PAGE, p);
        }
        assert LiveIn(live, b) == {};
      }
    }
  }

  lemma AppendBlockKeeps(s: State, live: map<nat, nat>, b: Block, size: nat)
    requires Extents(s) && Placed(s, live) && LiveDisjoint(live) && Counted(s, live)
    requires BlockShaped(b, BLOCK_HEADER) && FreshExtent(s, b.low, b.low + PAGE)
    requires 0 < size && b.last == b.start + size && b.ref == 1
    ensures b.start !in live && LiveDisjoint(live[b.start := size])
    ensures var s' := s.(blocks := s.blocks + [b]);
            Extents(s') && Placed(s', live[b.start := size]) && Counted(s', live[b.start := size])
  {
    FreshIsClear(s, live, b.low, b.low + PAGE);
    AddDisjoint(live, b.low, b.low + PAGE, b.start, size);
    FreshInNoBlock(s, b.low, b.low + PAGE, b.start);
    AppendBlockExtents(s, b);
    AppendBlockPlaces(s, live, b, size);
    AppendBlockCounts(s, live, b, size);
  }

  lemma HeaderAligned(low: nat)
    requires low % 8 == 0
    ensures (low + BLOCK_HEADER) % 8 == 0 && (low + LARGE_HEADER) % 8 == 0
  {
  }

  lemma AppendBlockAligned(s: State, live: map<nat, nat>, b: Block, size: nat)
    requires Aligned(s, live) && b.start % 8 == 0 && b.low % 8 == 0 && b.end + 7 < Bits.WORD
    ensures Aligned(s.(blocks := s.blocks + [b]), live[b.start := size])
  {
    var blocks, live' := s.blocks + [b], live[b.start := size];
    forall i | 0 <= i < |blocks|
      ensures blocks[i].low % 8 == 0 && blocks[i].end + 7 < Bits.WORD
    {
      if i < |s.blocks| {
        assert blocks[i] == s.blocks[i];
      }
    }
    forall p | p in live'
      ensures p % 8 == 0
    {
      assert p != b.start ==> p in live;
    }
  }

  lemma AgeKeeps(s: State, live: map<nat, nat>)
    requires Inv(s, live)
    ensures var (aged, current) := Age(s.blocks, s.curr, s.curr);
            var t := s.(blocks := aged, curr := current);
            Relabelled(s.blocks, aged) && current < |aged| &&
            Extents(t) && Aligned(t, live) && Placed(t, live) && Counted(t, live)
  {
    var (aged, current) := Age(s.blocks, s.curr, s.curr);
    AgeCounts(s.blocks, s.curr, s.curr);
    AgeMoves(s.blocks, s.curr, s.curr);
    var t := s.(blocks := aged, curr := current);
    RelabelExtents(s, t);
    assert forall i :: 0 <= i < |aged| ==> SamePage(s.blocks[i], aged[i]);
    RelabelPlaces(s, t, live);
    RelabelCounts(s, t, live);
  }

  lemma AppendBlockLayout(t: State, live: map<nat, nat>, size: nat, b: Block)
    requires Extents(t) && Aligned(t, live) && Placed(t, live) && LiveDisjoint(live) && Counted(t, live)
    requires BlockShaped(b, BLOCK_HEADER) && FreshExtent(t, b.low, b.low + PAGE)
    requires b.low % 8 == 0 && b.end + 7 < Bits.WORD
    requires 0 < size && b.last == b.start + size && b.ref == 1
    ensures b.start !in live && LiveDisjoint(live[b.start := size])
    ensures var s' := t.(blocks := t.blocks + [b]);
            Extents(s') && Aligned(s', live[b.start := size]) && Placed(s', live[b.start := size]) &&
            Counted(s', live[b.start := size])
  {
    AppendBlockKeeps(t, live, b, size);
    HeaderAligned(b.low);
    AppendBlockAligned(t, live, b, size);
  }

  lemma AllocateBlockLayout(s: State, live: map<nat, nat>, size: nat, b: Block)
    requires Inv(s, live) && 0 < size <= PAGE - BLOCK_HEADER
    requires FreshExtent(s, b.low, b.low + PAGE) && b.low % 8 == 0 && b.end + 7 < Bits.WORD
    requires b == Block(b.low, b.low + BLOCK_HEADER, b.low + PAGE, b.low + BLOCK_HEADER + size, 1, 0)
    ensures var (aged, current) := Age(s.blocks, s.curr, s.curr);
            b.start !in live && Inv(s.(blocks := aged + [b], curr := current), live[b.start := size])
  {
    var (aged, current) := Age(s.blocks, s.curr, s.curr);
    var t := s.(blocks := aged, curr := current);
    AgeKeeps(s, live);
    FreshRelabelled(s, t, b.low, b.low + PAGE);
    AppendBlockLayout(t, live, size, b);
    StaircaseKept(s, b);
    assert t.(blocks := t.blocks + [b]) == s.(blocks := aged + [b], curr := current);
  }

  lemma AllocateBlockFresh(s: State, live: map<nat, nat>, size: nat, low: nat)
    requires Inv(s, live) && 0 < size <= PAGE - BLOCK_HEADER
    requires FreshExtent(s, low, low + PAGE) && low % 8 == 0 && low + PAGE + 7 < Bits.WORD
    ensures var (s', r) := AllocateBlock(s, size, Some(low));
            r == Some(low + BLOCK_HEADER) && r.value !in live && Inv(s', live[r.value := size])
  {
    AllocateBlockLayout(s, live, size,
                        Block(low, low + BLOCK_HEADER, low + PAGE, low + BLOCK_HEADER + size, 1, 0));
  }

  lemma AllocateBlockKeeps(s: State, live: map<nat, nat>, size: nat, low: nat)
    requires Inv(s, live) && 0 < size <= PAGE - BLOCK_HEADER && SysOk(s, size, Some(low))
    ensures var (s', r) := AllocateBlock(s, size, Some(low));
            r == Some(low + BLOCK_HEADER) && r.value !in live && Inv(s', live[r.value := size])
  {
    UnusedIsFresh(s, live, low, low + PAGE);
    AllocateBlockFresh(s, live, size, low);
  }

  lemma FreshRelabelled(s: State, t: State, lo: nat, hi: nat)
    requires FreshExtent(s, lo, hi) && Relabelled(s.blocks, t.blocks) && s.large == t.large
    ensures FreshExtent(t, lo, hi)
  {
    forall i | 0 <= i < |t.blocks|
      ensures Apart(t.blocks[i].low, t.blocks[i].end, lo, hi)
    {
      assert SamePage(s.blocks[i], t.blocks[i]);
    }
  }

  // ---------- Large allocation ----------

  lemma AppendLargeExtents(s: State, l: Large)
    requires Extents(s) && FreshExtent(s, l.addr, LargeEnd(l))
    ensures Extents(s.(large := s.large + [l]))
  {
    var s', n := s.(large := s.large + [l]), |s.large|;
    assert s'.large[n] == l && forall k :: 0 <= k < n ==> s'.large[k] == s.large[k];
    forall i, k | 0 <= i < |s.blocks| && 0 <= k <= n
      ensures Apart(s.blocks[i].low, s.blocks[i].end, s'.large[k].addr, LargeEnd(s'.large[k]))
    {
      assert k == n ==> Apart(s.blocks[i].low, s.blocks[i].end, l.addr, LargeEnd(l));
    }
    forall k, j | 0 <= k < j <= n
      ensures Apart(s'.large[k].addr, LargeEnd(s'.large[k]), s'.large[j].addr, LargeEnd(s'.large[j]))
    {
      assert j == n ==> Apart(s.large[k].addr, LargeEnd(s.large[k]), l.addr, LargeEnd(l));
    }
  }

  lemma AppendLargePlaces(s: State, live: map<nat, nat>, l: Large)
    requires Extents(s) && Placed(s, live) && FreshExtent(s, l.addr, LargeEnd(l)) && l.size > 0
    requires Data(l) !in live && forall i :: 0 <= i < |s.blocks| ==> !InBlock(s.blocks[i], Data(l))
    ensures Placed(s.(large := s.large + [l]), live[Data(l) := l.size])
  {
    var s', live', n := s.(large := s.large + [l]), live[Data(l) := l.size], |s.large|;
    forall p | p in live'
      ensures live'[p] > 0 && Owned(s', p)
    {
      if p == Data(l) {
        assert Data(s'.large[n]) == p;
      } else {
        OwnedSame(s, s', p);
      }
    }
    forall k | 0 <= k <= n
      ensures Data(s'.large[k]) in live' && live'[Data(s'.large[k])] == s'.large[k].size
    {
      assert k < n ==> s'.large[k] == s.large[k];
    }
  }

  lemma AddElsewhereCounts(s: State, live: map<nat, nat>, p: nat, n: nat)
    requires Counted(s, live) && p !in live
    requires forall i :: 0 <= i < |s.blocks| ==> !InBlock(s.blocks[i], p)
    ensures Counted(s, live[p := n])
  {
    forall i | 0 <= i < |s.blocks|
      ensures s.blocks[i].ref == |LiveIn(live[p := n], s.blocks[i])|
    {
      LiveInAdded(live, s.blocks[i], p, n);
    }
  }

  lemma AppendLargeLayout(s: State, live: map<nat, nat>, l: Large)
    requires Extents(s) && Aligned(s, live) && Placed(s, live) && Counted(s, live) && Staircase(s)
    requires FreshExtent(s, l.addr, LargeEnd(l)) && l.size > 0 && l.addr % 8 == 0 && SizeOk(l.size)
    requires Data(l) !in live
    ensures var s', live' := s.(large := s.large + [l]), live[Data(l) := l.size];
            Extents(s') && Aligned(s', live') && Placed(s', live') && Counted(s', live') && Staircase(s')
  {
    FreshInNoBlock(s, l.addr, LargeEnd(l), Data(l));
    AppendLargeExtents(s, l);
    AppendLargePlaces(s, live, l);
    AddElsewhereCounts(s, live, Data(l), l.size);
    HeaderAligned(l.addr);
  }

  lemma AppendLargeKeeps(s: State, live: map<nat, nat>, l: Large)
    requires Inv(s, live) && FreshExtent(s, l.addr, LargeEnd(l)) && l.size > 0 && l.addr % 8 == 0 && SizeOk(l.size)
    ensures Data(l) !in live && Inv(s.(large := s.large + [l]), live[Data(l) := l.size])
  {
    FreshIsClear(s, live, l.addr, LargeEnd(l));
    AddDisjoint(live, l.addr, LargeEnd(l), Data(l), l.size);
    AppendLargeLayout(s, live, l);
  }

  lemma AllocateLargeKeeps(s: State, live: map<nat, nat>, size: nat, addr: nat)
    requires Inv(s, live) && size > PAGE - BLOCK_HEADER && SizeOk(size) && SysOk(s, size, Some(addr))
    ensures var (s', r) := AllocateLarge(s, size, Some(addr));
            r == Some(addr + LARGE_HEADER) && r.value !in live && Inv(s', live[r.value := size])
  {
    RequestExact(size);
    UnusedIsFresh(s, live, addr, addr + LargeRequest(size));
    AppendLargeKeeps(s, live, Large(addr, size));
  }

  // A large allocation lies inside the extent that malloc granted exactly if
  // the size does not make the sum wrap; otherwise not one byte of it does.
  lemma LargeInsideExactly(s: State, size: nat, addr: nat)
    requires PAGE - BLOCK_HEADER < size < Bits.WORD && s.curr < |s.blocks| && Addressable(s.blocks)
    ensures var (s', r) := Palloc(s, size, Some(addr));
            r.Some? && s'.large == s.large + [Large(addr, size)] &&
            (Inside(r.value, size, addr, addr + Granted(size)) <==> SizeOk(size)) &&
            (!SizeOk(size) ==> addr + Granted(size) <= r.value)
  {
    if SizeOk(size) {
      RequestExact(size);
    } else {
      RequestWraps(size);
    }
  }

  // Then the next large allocation at a higher address overlaps the first one,
  // although the system granted disjoint extents.
  lemma WrappedSizeOverlaps(s: State, live: map<nat, nat>, size: nat, addr: nat, size': nat, addr': nat)
    requires Inv(s, live) && size < Bits.WORD && !SizeOk(size) && SysOk(s, size, Some(addr)) && addr <= addr'
    requires PAGE - BLOCK_HEADER < size' && SizeOk(size')
    requires SysOk(s.(large := s.large + [Large(addr, size)]), size', Some(addr'))
    ensures Addressable(s.blocks)
    ensures var (s1, p) := Palloc(s, size, Some(addr));
            var (s2, q) := Palloc(s1, size', Some(addr'));
            p.Some? && q.Some? && Apart(addr, addr + Granted(size), addr', addr' + Granted(size')) &&
            !Apart(p.value, p.value + size, q.value, q.value + size')
  {
    ExtentsAddressable(s, live);
    RequestExact(size');
    var s1 := s.(large := s.large + [Large(addr, size)]);
    assert GrantedEnd(s1.large[|s.large|]) == addr + LargeRequest(size);
  }

  // ---------- Any allocation ----------

  // A call that returns an address adds exactly that allocation; one that
  // returns null (size 0, or the system refused) changes nothing.
  lemma PallocKeeps(s: State, live: map<nat, nat>, size: nat, sys: Option<nat>)
    requires Inv(s, live) && SizeOk(size) && SysOk(s, size, sys)
    ensures Addressable(s.blocks)
    ensures var (s', r) := Palloc(s, size, sys);
            match r
            case None => s' == s && (size == 0 || sys == None)
            case Some(p) => p !in live && Inv(s', live[p := size])
  {
    ExtentsAddressable(s, live);
    if size == 0 {
    } else if size > PAGE - BLOCK_HEADER {
      if sys.Some? {
        AllocateLargeKeeps(s, live, size, sys.value);
      }
    } else {
      var k := FindFit(s.blocks, s.curr, size);
      if k < |s.blocks| {
        FitRoom(s, live, k, size);
        BumpKeeps(s, live, k, Align(s.blocks[k].last), size);
      } else if sys.Some? {
        AllocateBlockKeeps(s, live, size, sys.value);
      }
    }
  }

  // ---------- Which block serves a request ----------

  // x rounded up to a multiple of 8.
  function Up8(x: nat): nat
  {
    (x + 7) / 8 * 8
  }

  lemma AlignIsUp8(x: nat)
    requires x + 7 < Bits.WORD
    ensures Align(x) == Up8(x)
  {
    var a := Align(x);
    assert a % 8 == 0 && x <= a < x + 8;
  }

  // size bytes between the aligned last and the end.
  predicate HasRoom(b: Block, size: nat)
  {
    Up8(b.last) + size <= b.end
  }

  lemma FitsIsRoom(s: State, live: map<nat, nat>, k: nat, size: nat)
    requires Extents(s) && Aligned(s, live) && k < |s.blocks| && Addressable(s.blocks)
    ensures Fits(s.blocks[k], size) <==> HasRoom(s.blocks[k], size)
  {
    FitRoom(s, live, k, size);
    AlignIsUp8(s.blocks[k].last);
  }

  // No block from pool->curr on up to hi has room.
  predicate NoRoomBefore(s: State, hi: nat, size: nat)
  {
    forall j :: s.curr <= j < hi && j < |s.blocks| ==> !HasRoom(s.blocks[j], size)
  }

  // A small request is served by the first block from pool->curr on that has
  // room, whatever the system would say, and no other block changes.
  lemma PallocFirstFit(s: State, live: map<nat, nat>, size: nat, sys: Option<nat>, k: nat)
    requires Inv(s, live) && 0 < size <= PAGE - BLOCK_HEADER
    requires s.curr <= k < |s.blocks| && HasRoom(s.blocks[k], size) && NoRoomBefore(s, k, size)
    ensures Addressable(s.blocks)
    ensures var (s', r) := Palloc(s, size, sys);
            r == Some(Up8(s.blocks[k].last)) &&
            s' == s.(blocks := s.blocks[k := s.blocks[k].(ref := s.blocks[k].ref + 1, last := r.value + size)])
  {
    ExtentsAddressable(s, live);
    forall j | s.curr <= j <= k
      ensures Fits(s.blocks[j], size) <==> HasRoom(s.blocks[j], size)
    {
      FitsIsRoom(s, live, j, size);
    }
    assert FindFit(s.blocks, s.curr, size) == k;
    AlignIsUp8(s.blocks[k].last);
  }

  lemma AgeExactly(s: State)
    requires Staircase(s)
    ensures var (aged, current) := Age(s.blocks, s.curr, s.curr);
            |aged| == |s.blocks| && current == (if |s.blocks| < 7 then 0 else |s.blocks| - 6) &&
            forall i :: 0 <= i < |aged| ==>
              aged[i] == s.blocks[i].(faild := s.blocks[i].faild + if s.curr <= i < |aged| - 1 then 1 else 0)
  {
    AgeCounts(s.blocks, s.curr, s.curr);
    AgeMoves(s.blocks, s.curr, s.curr);
    var aged := Age(s.blocks, s.curr, s.curr).0;
    assert forall i :: 0 <= i < |aged| ==> SamePage(s.blocks[i], aged[i]);
  }

  // If none has room, the system is asked for a page: the request is its first
  // allocation, every block that was scanned in vain and is not the last counts
  // a failure, and pool->curr leaves the last seven blocks.
  lemma PallocNewBlock(s: State, live: map<nat, nat>, size: nat, sys: Option<nat>)
    requires Inv(s, live) && 0 < size <= PAGE - BLOCK_HEADER && NoRoomBefore(s, |s.blocks|, size)
    ensures Addressable(s.blocks)
    ensures sys == None ==> Palloc(s, size, sys) == (s, None)
    ensures sys.Some? ==>
              var (s', r) := Palloc(s, size, sys);
              var n, low := |s.blocks|, sys.value;
              r == Some(low + BLOCK_HEADER) && s'.pool == s.pool && s'.large == s.large && |s'.blocks| == n + 1 &&
              s'.blocks[n] == Block(low, r.value, low + PAGE, r.value + size, 1, 0) &&
              s'.curr == (if n + 1 <= 7 then 0 else n + 1 - 7) &&
              forall i :: 0 <= i < n ==>
                s'.blocks[i] == s.blocks[i].(faild := s.blocks[i].faild + if s.curr <= i < n - 1 then 1 else 0)
  {
    ExtentsAddressable(s, live);
    forall j | s.curr <= j < |s.blocks|
      ensures !Fits(s.blocks[j], size)
    {
      FitsIsRoom(s, live, j, size);
    }
    assert FindFit(s.blocks, s.curr, size) == |s.blocks|;
    AgeExactly(s);
  }

  // palloc returns null exactly if the size is 0, or if the system is needed,
  // for a large block or because no block has room, and refuses.
  lemma NullExactly(s: State, live: map<nat, nat>, size: nat, sys: Option<nat>)
    requires Inv(s, live)
    ensures Addressable(s.blocks)
    ensures Palloc(s, size, sys).1 == None <==>
              size == 0 || (sys == None && (size > PAGE - BLOCK_HEADER || NoRoomBefore(s, |s.blocks|, size)))
  {
    ExtentsAddressable(s, live);
    if 0 < size <= PAGE - BLOCK_HEADER {
      if NoRoomBefore(s, |s.blocks|, size) {
        PallocNewBlock(s, live, size, sys);
      } else {
        var k := FirstRoom(s, s.curr, size);
        PallocFirstFit(s, live, size, sys, k);
      }
    }
  }

  lemma {:induction false} FirstRoom(s: State, from: nat, size: nat) returns (k: nat)
    requires s.curr <= from <= |s.blocks| && NoRoomBefore(s, from, size) && !NoRoomBefore(s, |s.blocks|, size)
    ensures s.curr <= k < |s.blocks| && HasRoom(s.blocks[k], size) && NoRoomBefore(s, k, size)
    decreases |s.blocks| - from
  {
    k := from;
    if !HasRoom(s.blocks[from], size) {
      k := FirstRoom(s, from + 1, size);
    }
  }

  // ---------- Free ----------

  // Null and an address that no block and no large block owns change nothing.
  lemma FreeForeign(s: State, p: nat)
    requires p == 0 || ((forall i :: 0 <= i < |s.blocks| ==> !(s.blocks[i].start <= p <= s.blocks[i].end)) &&
                        (forall k :: 0 <= k < |s.large| ==> Data(s.large[k]) != p))
    ensures Free(s, p) == s
  {
  }

  // Distinct addresses in a range are at most as many as the range is long, so
  // a block's unsigned counter never wraps.
  lemma {:induction false} RangeBound(q: set<nat>, lo: nat, hi: nat)
    requires lo <= hi && forall p :: p in q ==> lo <= p < hi
    ensures |q| <= hi - lo
    decreases hi - lo
  {
    if lo < hi {
      RangeBound(q - {hi - 1}, lo, hi - 1);
    } else {
      assert forall p :: p !in q;
      assert q == {};
    }
  }

  lemma RefBounded(s: State, live: map<nat, nat>, k: nat, p: nat)
    requires Extents(s) && Counted(s, live) && k < |s.blocks| && p in live && InBlock(s.blocks[k], p)
    ensures 1 <= s.blocks[k].ref <= PAGE
    ensures Bits.WrapSub(s.blocks[k].ref, 1, 0x1_0000_0000) == s.blocks[k].ref - 1
  {
    var b := s.blocks[k];
    RangeBound(LiveIn(live, b), b.start, b.end);
    LiveInRemoved(live, b, p);
    Bits.WrapSubSmall(b.ref, 1, 0x1_0000_0000);
  }

  // The first hit of the inclusive search is the block the address came from.
  lemma FindOwnerExact(s: State, live: map<nat, nat>, k: nat, p: nat)
    requires Extents(s) && Placed(s, live) && p in live && k < |s.blocks| && InBlock(s.blocks[k], p)
    ensures FindOwner(s.blocks, 0, p) == k
  {
    var f := FindOwner(s.blocks, 0, p);
    OwnerExact(s, live, f, p);
    OneBlockOnly(s, f, k, p);
  }

  lemma FindOwnerNone(s: State, live: map<nat, nat>, p: nat)
    requires Extents(s) && Placed(s, live) && p in live
    requires forall i :: 0 <= i < |s.blocks| ==> !InBlock(s.blocks[i], p)
    ensures FindOwner(s.blocks, 0, p) == |s.blocks|
  {
    var f := FindOwner(s.blocks, 0, p);
    if f < |s.blocks| {
      OwnerExact(s, live, f, p);
    }
  }

  lemma LivePositive(s: State, live: map<nat, nat>, p: nat)
    requires Extents(s) && Placed(s, live) && p in live
    ensures p > 0
  {
    LiveInExtent(s, live, p);
  }

  lemma RemoveDisjoint(live: map<nat, nat>, p: nat)
    requires LiveDisjoint(live)
    ensures LiveDisjoint(live - {p})
  {
  }

  // Dropping the last reference resets last to start; nothing live is left there.
  lemma DropPlaces(s: State, live: map<nat, nat>, k: nat, p: nat, b: Block)
    requires Extents(s) && Placed(s, live) && k < |s.blocks| && p in live && InBlock(s.blocks[k], p)
    requires b.low == s.blocks[k].low && b.start == s.blocks[k].start && b.end == s.blocks[k].end
    requires b.last == s.blocks[k].last || (b.last == b.start && LiveIn(live - {p}, b) == {})
    ensures Extents(s.(blocks := s.blocks[k := b])) && Placed(s.(blocks := s.blocks[k := b]), live - {p})
  {
    var s', live' := s.(blocks := s.blocks[k := b]), live - {p};
    forall q | q in live'
      ensures Owned(s', q)
    {
      OwnedSame(s, s', q);
    }
    forall i, q | 0 <= i < |s'.blocks| && q in live' && InBlock(s'.blocks[i], q)
      ensures q + live'[q] <= s'.blocks[i].last
    {
      assert InBlock(s.blocks[i], q);
      assert i == k ==> q in LiveIn(live', b);
    }
    forall l | 0 <= l < |s.large|
      ensures Data(s.large[l]) in live'
    {
      BlockIsNotLarge(s, k, l);
    }
  }

  lemma DropCounts(s: State, live: map<nat, nat>, k: nat, p: nat, b: Block)
    requires Extents(s) && Counted(s, live) && k < |s.blocks| && p in live && InBlock(s.blocks[k], p)
    requires b.start == s.blocks[k].start && b.end == s.blocks[k].end && b.ref == s.blocks[k].ref - 1
    requires b.ref == 0 ==> b.last == b.start
    ensures Counted(s.(blocks := s.blocks[k := b]), live - {p})
    ensures b.ref == 0 ==> LiveIn(live - {p}, b) == {}
  {
    var s' := s.(blocks := s.blocks[k := b]);
    forall i | 0 <= i < |s'.blocks|
      ensures s'.blocks[i].ref == |LiveIn(live - {p}, s'.blocks[i])|
    {
      LiveInSame(live, s.blocks[i], s'.blocks[i]);
      LiveInRemoved(live, s'.blocks[i], p);
      if i != k && InBlock(s.blocks[i], p) {
        OneBlockOnly(s, i, k, p);
      }
    }
    assert s'.blocks[k] == b;
  }

  lemma DropAligned(s: State, live: map<nat, nat>, k: nat, p: nat, b: Block)
    requires Aligned(s, live) && k < |s.blocks| && b.low == s.blocks[k].low && b.end == s.blocks[k].end
    ensures Aligned(s.(blocks := s.blocks[k := b]), live - {p})
  {
  }

  lemma DropStaircase(s: State, k: nat, b: Block)
    requires Staircase(s) && k < |s.blocks| && b.faild == s.blocks[k].faild
    ensures Staircase(s.(blocks := s.blocks[k := b]))
  {
  }

  lemma DropFields(s: State, live: map<nat, nat>, k: nat, p: nat)
    requires Extents(s) && Counted(s, live) && k < |s.blocks| && p in live && InBlock(s.blocks[k], p)
    ensures var a, b := s.blocks[k], Drop(s.blocks[k]);
            b.low == a.low && b.start == a.start && b.end == a.end && b.faild == a.faild && b.ref == a.ref - 1 &&
            b.last == if b.ref == 0 then b.start else a.last
  {
    RefBounded(s, live, k, p);
  }

  lemma DropKeepsPlaces(s: State, live: map<nat, nat>, k: nat, p: nat)
    requires Extents(s) && Placed(s, live) && Counted(s, live) && p in live && k < |s.blocks| && InBlock(s.blocks[k], p)
    ensures var s', live' := s.(blocks := s.blocks[k := Drop(s.blocks[k])]), live - {p};
            Extents(s') && Placed(s', live') && Counted(s', live')
  {
    DropFields(s, live, k, p);
    DropCounts(s, live, k, p, Drop(s.blocks[k]));
    DropPlaces(s, live, k, p, Drop(s.blocks[k]));
  }

  lemma DropLayout(s: State, live: map<nat, nat>, k: nat, p: nat)
    requires Extents(s) && Aligned(s, live) && Placed(s, live) && Counted(s, live) && Staircase(s)
    requires p in live && k < |s.blocks| && InBlock(s.blocks[k], p)
    ensures var s', live' := s.(blocks := s.blocks[k := Drop(s.blocks[k])]), live - {p};
            Extents(s') && Aligned(s', live') && Placed(s', live') && Counted(s', live') && Staircase(s')
  {
    DropFields(s, live, k, p);
    DropKeepsPlaces(s, live, k, p);
    DropAligned(s, live, k, p, Drop(s.blocks[k]));
    DropStaircase(s, k, Drop(s.blocks[k]));
  }

  lemma DropKeeps(s: State, live: map<nat, nat>, k: nat, p: nat)
    requires Inv(s, live) && p in live && k < |s.blocks| && InBlock(s.blocks[k], p)
    ensures Inv(s.(blocks := s.blocks[k := Drop(s.blocks[k])]), live - {p})
  {
    DropLayout(s, live, k, p);
    RemoveDisjoint(live, p);
  }

  // Only the owner changes: one reference less, and with the last one gone the
  // whole block is available again.
  lemma FreeSmallKeeps(s: State, live: map<nat, nat>, k: nat, p: nat)
    requires Inv(s, live) && p in live && k < |s.blocks| && InBlock(s.blocks[k], p)
    ensures var b := s.blocks[k];
            b.ref > 0 && Free(s, p) ==
              s.(blocks := s.blocks[k := b.(ref := b.ref - 1, last := if b.ref == 1 then b.start else b.last)])
    ensures Inv(Free(s, p), live - {p})
  {
    DropFields(s, live, k, p);
    FindOwnerExact(s, live, k, p);
    LivePositive(s, live, p);
    DropKeeps(s, live, k, p);
  }

  lemma RemoveLargeExtents(s: State, l: nat)
    requires Extents(s) && l < |s.large|
    ensures Extents(s.(large := s.large[..l] + s.large[l + 1..]))
  {
    var s' := s.(large := s.large[..l] + s.large[l + 1..]);
    assert forall k :: 0 <= k < |s'.large| ==> s'.large[k] == s.large[if k < l then k else k + 1];
  }

  lemma LargeDistinct(s: State, k: nat, l: nat)
    requires Extents(s) && k < |s.large| && l < |s.large| && k != l
    ensures Data(s.large[k]) != Data(s.large[l])
  {
    if k < l {
      assert Apart(s.large[k].addr, LargeEnd(s.large[k]), s.large[l].addr, LargeEnd(s.large[l]));
    } else {
      assert Apart(s.large[l].addr, LargeEnd(s.large[l]), s.large[k].addr, LargeEnd(s.large[k]));
    }
  }

  lemma RemoveLargePlaces(s: State, live: map<nat, nat>, l: nat)
    requires Extents(s) && Placed(s, live) && l < |s.large|
    ensures Placed(s.(large := s.large[..l] + s.large[l + 1..]), live - {Data(s.large[l])})
  {
    var s', p := s.(large := s.large[..l] + s.large[l + 1..]), Data(s.large[l]);
    var live' := live - {p};
    assert forall k :: 0 <= k < |s'.large| ==> s'.large[k] == s.large[if k < l then k else k + 1];
    forall q | q in live'
      ensures Owned(s', q)
    {
      assert Owned(s, q);
      if i :| 0 <= i < |s.blocks| && InBlock(s.blocks[i], q) {
        assert InBlock(s'.blocks[i], q);
      } else {
        var k :| 0 <= k < |s.large| && Data(s.large[k]) == q;
        assert Data(s'.large[if k < l then k else k - 1]) == q;
      }
    }
    forall k | 0 <= k < |s'.large|
      ensures Data(s'.large[k]) in live' && live'[Data(s'.large[k])] == s'.large[k].size
    {
      LargeDistinct(s, if k < l then k else k + 1, l);
    }
  }

  lemma RemoveElsewhereCounts(s: State, live: map<nat, nat>, p: nat)
    requires Counted(s, live) && p in live
    requires forall i :: 0 <= i < |s.blocks| ==> !InBlock(s.blocks[i], p)
    ensures Counted(s, live - {p})
  {
    forall i | 0 <= i < |s.blocks|
      ensures s.blocks[i].ref == |LiveIn(live - {p}, s.blocks[i])|
    {
      LiveInRemoved(live, s.blocks[i], p);
    }
  }

  lemma LargeInNoBlock(s: State, l: nat)
    requires Extents(s) && l < |s.large|
    ensures forall i :: 0 <= i < |s.blocks| ==> !InBlock(s.blocks[i], Data(s.large[l]))
  {
    forall i | 0 <= i < |s.blocks|
      ensures !InBlock(s.blocks[i], Data(s.large[l]))
    {
      BlockIsNotLarge(s, i, l);
    }
  }

  lemma FindLargeExact(s: State, l: nat)
    requires Extents(s) && l < |s.large|
    ensures FindLarge(s.large, 0, Data(s.large[l])) == l
  {
    var f := FindLarge(s.large, 0, Data(s.large[l]));
    if f != l {
      LargeDistinct(s, f, l);
    }
  }

  lemma RemoveLargeAligned(s: State, live: map<nat, nat>, l: nat)
    requires Aligned(s, live) && l < |s.large|
    ensures Aligned(s.(large := s.large[..l] + s.large[l + 1..]), live - {Data(s.large[l])})
  {
    var large' := s.large[..l] + s.large[l + 1..];
    assert forall k :: 0 <= k < |large'| ==> large'[k] == s.large[if k < l then k else k + 1];
  }

  lemma RemoveLargeLayout(s: State, live: map<nat, nat>, l: nat)
    requires Extents(s) && Aligned(s, live) && Placed(s, live) && Counted(s, live) && Staircase(s)
    requires l < |s.large|
    ensures var s', live' := s.(large := s.large[..l] + s.large[l + 1..]), live - {Data(s.large[l])};
            Extents(s') && Aligned(s', live') && Placed(s', live') && Counted(s', live') && Staircase(s')
  {
    LargeInNoBlock(s, l);
    RemoveLargeExtents(s, l);
    RemoveLargePlaces(s, live, l);
    RemoveLargeAligned(s, live, l);
    RemoveElsewhereCounts(s, live, Data(s.large[l]));
  }

  lemma RemoveLargeKeeps(s: State, live: map<nat, nat>, l: nat)
    requires Inv(s, live) && l < |s.large|
    ensures Inv(s.(large := s.large[..l] + s.large[l + 1..]), live - {Data(s.large[l])})
  {
    RemoveLargeLayout(s, live, l);
    RemoveDisjoint(live, Data(s.large[l]));
  }

  lemma FreeLargeKeeps(s: State, live: map<nat, nat>, l: nat)
    requires Inv(s, live) && l < |s.large|
    ensures Free(s, Data(s.large[l])) == s.(large := s.large[..l] + s.large[l + 1..])
    ensures Inv(Free(s, Data(s.large[l])), live - {Data(s.large[l])})
  {
    LargeInNoBlock(s, l);
    FindOwnerNone(s, live, Data(s.large[l]));
    FindLargeExact(s, l);
    RemoveLargeKeeps(s, live, l);
  }

  // Freeing a live address removes exactly that allocation.
  lemma FreeKeeps(s: State, live: map<nat, nat>, p: nat)
    requires Inv(s, live) && p in live
    ensures Inv(Free(s, p), live - {p})
  {
    assert Owned(s, p);
    if i :| 0 <= i < |s.blocks| && InBlock(s.blocks[i], p) {
      FreeSmallKeeps(s, live, i, p);
    } else {
      var k :| 0 <= k < |s.large| && Data(s.large[k]) == p;
      FreeLargeKeeps(s, live, k);
    }
  }

  // ---------- Whole runs ----------

  // sys is what the system would return if the call asked it for memory.
  datatype Op = Alloc(size: nat, sys: Option<nat>) | Release(p: nat)

  // The pool together with its live allocations.
  datatype World = World(s: State, live: map<nat, nat>)

  ghost predicate Enabled(w: World, op: Op)
  {
    match op
    case Alloc(size, sys) => SizeOk(size) && SysOk(w.s, size, sys)
    case Release(p) => p in w.live
  }

  ghost function Next(w: World, op: Op): World
    requires Inv(w.s, w.live) && Enabled(w, op)
  {
    match op
    case Alloc(size, sys) =>
      ExtentsAddressable(w.s, w.live);
      var (s', r) := Palloc(w.s, size, sys);
      World(s', if r.Some? then w.live[r.value := size] else w.live)
    case Release(p) => World(Free(w.s, p), w.live - {p})
  }

  lemma NextKeepsInv(w: World, op: Op)
    requires Inv(w.s, w.live) && Enabled(w, op)
    ensures Inv(Next(w, op).s, Next(w, op).live)
  {
    match op
    case Alloc(size, sys) => PallocKeeps(w.s, w.live, size, sys);
    case Release(p) => FreeKeeps(w.s, w.live, p);
  }

  ghost predicate Runs(w: World, ops: seq<Op>, z: World)
    requires Inv(w.s, w.live)
    decreases |ops|
  {
    if ops == [] then w == z
    else Enabled(w, ops[0]) && (NextKeepsInv(w, ops[0]); Runs(Next(w, ops[0]), ops[1..], z))
  }

  lemma {:induction false} RunKeepsInv(w: World, ops: seq<Op>, z: World)
    requires Inv(w.s, w.live) && Runs(w, ops, z)
    ensures Inv(z.s, z.live)
    decreases |ops|
  {
    if ops != [] {
      NextKeepsInv(w, ops[0]);
      RunKeepsInv(Next(w, ops[0]), ops[1..], z);
    }
  }

  // The system returned a page for the pool.
  predicate PoolAddress(pool: nat)
  {
    pool > 0 && pool % 8 == 0 && pool + PAGE + 7 < Bits.WORD
  }

  ghost function Start(pool: nat): (w: World)
    requires PoolAddress(pool)
    ensures Inv(w.s, w.live)
  {
    var w := World(Create(pool), map[]);
    assert LiveIn(w.live, w.s.blocks[0]) == {};
    w
  }

  // In every run: live allocations are disjoint, 8-aligned, and each lies inside
  // one block's start..last or is one large extent; every block's counter is the
  // number of its live allocations.
  lemma RunIsSafe(pool: nat, ops: seq<Op>, z: World)
    requires PoolAddress(pool) && Runs(Start(pool), ops, z)
    ensures LiveDisjoint(z.live) && forall p :: p in z.live ==> p % 8 == 0 && z.live[p] > 0
    ensures forall p :: p in z.live ==>
              (exists i :: 0 <= i < |z.s.blocks| && InBlock(z.s.blocks[i], p) &&
                           Inside(p, z.live[p], z.s.blocks[i].start, z.s.blocks[i].last)) ||
              (exists k :: 0 <= k < |z.s.large| && Data(z.s.large[k]) == p && z.live[p] == z.s.large[k].size)
    ensures forall i :: 0 <= i < |z.s.blocks| ==>
              z.s.blocks[i].ref == |LiveIn(z.live, z.s.blocks[i])| &&
              (z.s.blocks[i].ref == 0 ==> z.s.blocks[i].last == z.s.blocks[i].start)
  {
    RunKeepsInv(Start(pool), ops, z);
    forall p | p in z.live
      ensures (exists i :: 0 <= i < |z.s.blocks| && InBlock(z.s.blocks[i], p) &&
                           Inside(p, z.live[p], z.s.blocks[i].start, z.s.blocks[i].last)) ||
              (exists k :: 0 <= k < |z.s.large| && Data(z.s.large[k]) == p && z.live[p] == z.s.large[k].size)
    {
      LiveInExtent(z.s, z.live, p);
    }
  }

  function Min(a: nat, b: nat): nat
  {
    if a < b then a else b
  }

  // In every run the failure counters form a staircase, and a small allocation
  // scans the last seven blocks, or all if there are fewer.
  lemma RunScansAtMostSeven(pool: nat, ops: seq<Op>, z: World)
    requires PoolAddress(pool) && Runs(Start(pool), ops, z)
    ensures z.s.curr < |z.s.blocks|
    ensures var m := z.s.blocks[z.s.curr..];
            |m| == Min(|z.s.blocks|, 7) && m[|m| - 1].faild == 0 &&
            forall i :: 0 <= i < |m| - 1 ==> m[i].faild == |m| - 2 - i
  {
    RunKeepsInv(Start(pool), ops, z);
  }

  // ---------- Destroy ----------

  // The addresses handed to free, in order: every later block, every large
  // block, and the pool, whose page holds the first block.
  function Destroyed(s: State): (d: seq<nat>)
    requires |s.blocks| > 0
    ensures |d| == |s.blocks| + |s.large|
  {
    LaterBlocks(s.blocks) + LargeAddresses(s.large) + [s.pool]
  }

  function LaterBlocks(blocks: seq<Block>): (d: seq<nat>)
    requires |blocks| > 0
    ensures |d| == |blocks| - 1 && forall i :: 0 <= i < |d| ==> d[i] == blocks[i + 1].low
  {
    seq(|blocks| - 1, i requires 0 <= i < |blocks| - 1 => blocks[i + 1].low)
  }

  function LargeAddresses(large: seq<Large>): (d: seq<nat>)
    ensures |d| == |large| && forall k :: 0 <= k < |d| ==> d[k] == large[k].addr
  {
    seq(|large|, k requires 0 <= k < |large| => large[k].addr)
  }

  lemma DestroyedAt(s: State, i: nat)
    requires Extents(s) && i < |Destroyed(s)|
    ensures var n := |s.blocks| - 1;
            Destroyed(s)[i] == if i < n then s.blocks[i + 1].low
                               else if i < n + |s.large| then s.large[i - n].addr
                               else s.blocks[0].low
  {
  }

  lemma DestroyedDistinct(s: State, i: nat, j: nat)
    requires Extents(s) && i < j < |Destroyed(s)|
    ensures Destroyed(s)[i] != Destroyed(s)[j]
  {
    var n, m := |s.blocks| - 1, |s.large|;
    DestroyedAt(s, i);
    DestroyedAt(s, j);
    if j < n {
      BlocksApart(s, i + 1, j + 1);
    } else if i < n && j < n + m {
      assert Apart(s.blocks[i + 1].low, s.blocks[i + 1].end, s.large[j - n].addr, LargeEnd(s.large[j - n]));
    } else if i < n {
      BlocksApart(s, i + 1, 0);
    } else if j < n + m {
      assert Apart(s.large[i - n].addr, LargeEnd(s.large[i - n]), s.large[j - n].addr, LargeEnd(s.large[j - n]));
    } else {
      assert Apart(s.blocks[0].low, s.blocks[0].end, s.large[i - n].addr, LargeEnd(s.large[i - n]));
    }
  }

  // Every page and every large block is freed, and none of them twice; the pool
  // itself, in whose page the list starts, comes last.
  lemma DestroyFreesEachOnce(s: State, live: map<nat, nat>)
    requires Inv(s, live)
    ensures var d := Destroyed(s);
            (forall i, j :: 0 <= i < j < |d| ==> d[i] != d[j]) &&
            (forall i :: 0 <= i < |s.blocks| ==> s.blocks[i].low in d) &&
            (forall k :: 0 <= k < |s.large| ==> s.large[k].addr in d) &&
            |d| == |s.blocks| + |s.large| && d[|d| - 1] == s.pool
  {
    var d, n := Destroyed(s), |s.blocks| - 1;
    forall i | 0 <= i < |s.blocks|
      ensures s.blocks[i].low in d
    {
      DestroyedAt(s, if i == 0 then n + |s.large| else i - 1);
    }
    forall k | 0 <= k < |s.large|
      ensures s.large[k].addr in d
    {
      DestroyedAt(s, n + k);
    }
    forall i, j | 0 <= i < j < |d|
      ensures d[i] != d[j]
    {
      DestroyedDistinct(s, i, j);
    }
  }
}
