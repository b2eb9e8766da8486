// The pool of core/ngx_pool.cpp in place: headers linked through next, walked
// and updated by the operations, which act as their counterparts on values do.
module NgxPoolClass {
  import opened NgxPool
  import opened Wrappers
  import Bits

  class BlockNode {
    const low: nat
    var start: nat
    var end: nat
    var last: nat
    var ref: nat
    var faild: nat
    var next: BlockNode?

    constructor (b: Block)
      ensures Value() == b && next == null
    {
      low, start, end, last, ref, faild := b.low, b.start, b.end, b.last, b.ref, b.faild;
      next := null;
    }

    ghost function Value(): Block
      reads this
    {
      Block(low, start, end, last, ref, faild)
    }
  }

  class LargeNode {
    const addr: nat
    const size: nat
    var next: LargeNode?

    constructor (addr: nat, size: nat)
      ensures this.addr == addr && this.size == size && next == null
    {
      this.addr, this.size, next := addr, size, null;
    }
  }

  lemma AgeStep(blocks: seq<Block>, i: nat, current: nat)
    requires i + 1 < |blocks|
    ensures Age(blocks, i, current) ==
              Age(blocks[i := blocks[i].(faild := blocks[i].faild + 1)], i + 1,
                  if blocks[i].faild > 4 then i + 1 else current)
  {
  }

  class Pool {
    const pool: nat
    const head: BlockNode
    var curr: BlockNode
    var large: LargeNode?
    ghost var chain: seq<BlockNode>  // the blocks from head on
    ghost var pos: nat               // where curr is in the chain
    ghost var bigs: seq<LargeNode>   // the large blocks in list order

    // The chain of blocks and pool->curr.
    ghost predicate ChainLinked()
      reads `curr, `pos, `chain, chain
    {
      pos < |chain| && chain[0] == head && chain[pos] == curr &&
      (forall i, j :: 0 <= i < j < |chain| ==> chain[i] != chain[j]) &&
      (forall i, j :: 0 <= i && j == i + 1 < |chain| ==> chain[i].next == chain[j]) &&
      chain[|chain| - 1].next == null
    }

    // The list of large blocks.
    ghost predicate BigsLinked()
      reads `large, `bigs, bigs
    {
      large == (if |bigs| > 0 then bigs[0] else null) &&
      (forall i, j :: 0 <= i < j < |bigs| ==> bigs[i] != bigs[j]) &&
      (forall i, j :: 0 <= i && j == i + 1 < |bigs| ==> bigs[i].next == bigs[j]) &&
      (|bigs| > 0 ==> bigs[|bigs| - 1].next == null)
    }

    ghost predicate Linked()
      reads this, chain, bigs
    {
      ChainLinked() && BigsLinked()
    }

    ghost function Blocks(): (b: seq<Block>)
      reads `chain, chain
      ensures |b| == |chain|
      ensures forall i :: 0 <= i < |chain| ==> b[i] == chain[i].Value()
    {
      var c := chain;
      seq(|c|, i requires 0 <= i < |c| reads c => c[i].Value())
    }

    ghost function Larges(): (l: seq<Large>)
      reads `bigs
      ensures |l| == |bigs|
      ensures forall i :: 0 <= i < |bigs| ==> l[i] == Large(bigs[i].addr, bigs[i].size)
    {
      var b := bigs;
      seq(|b|, i requires 0 <= i < |b| => Large(b[i].addr, b[i].size))
    }

    ghost function View(): State
      reads this, chain
    {
      State(pool, Blocks(), pos, Larges())
    }

    // ngx_create_pool, once the system has returned the address pool
    constructor (pool: nat)
      ensures Linked() && View() == Create(pool) && fresh(chain)
    {
      var start := pool + POOL_HEADER + BLOCK_HEADER;
      var node := new BlockNode(Block(pool, start, pool + PAGE, start, 0, 0));
      this.pool := pool;
      head, curr, large := node, node, null;
      chain, pos, bigs := [node], 0, [];
    }

    method Palloc(size: nat, sys: Option<nat>) returns (r: Option<nat>)
      requires Linked() && Addressable(Blocks())
      modifies this, chain, bigs
      ensures Linked()
      ensures (View(), r) == NgxPool.Palloc(old(View()), size, sys)
    {
      if size == 0 {
        return None;
      }
      if size > PAGE - BLOCK_HEADER {
        r := AllocateLarge(size, sys);
        return;
      }
      var node: BlockNode? := curr;
      ghost var i := pos;
      while node != null
        invariant i <= |chain| && node == if i < |chain| then chain[i] else null
        invariant FindFit(Blocks(), i, size) == FindFit(Blocks(), pos, size)
        decreases |chain| - i
      {
        var mem := Align(node.last);
        if Bits.WrapSub(node.end, mem, Bits.WORD) >= size {
          BumpNode(node, i, mem, size);
          return Some(mem);
        }
        assert i + 1 < |chain| ==> node.next == chain[i + 1];
        node := node.next;
        i := i + 1;
      }
      r := AllocateBlock(size, sys);
    }

    method BumpNode(node: BlockNode, ghost i: nat, mem: nat, size: nat)
      requires Linked() && i < |chain| && chain[i] == node
      modifies node
      ensures Linked()
      ensures View() == old(View()).(blocks := old(Blocks())[i := Bump(old(Blocks())[i], mem, size)])
    {
      node.ref := node.ref + 1;
      node.last := mem + size;
    }

    method AllocateBlock(size: nat, sys: Option<nat>) returns (r: Option<nat>)
      requires Linked()
      modifies `curr, `pos, `chain, chain
      ensures Linked()
      ensures (View(), r) == NgxPool.AllocateBlock(old(View()), size, sys)
    {
      if sys.None? {
        return None;
      }
      var start := AddBlock(sys.value, size);
      assert Larges() == old(Larges());
      return Some(start);
    }

    method AddBlock(low: nat, size: nat) returns (start: nat)
      requires ChainLinked()
      modifies `curr, `pos, `chain, chain
      ensures ChainLinked() && start == low + BLOCK_HEADER
      ensures var (aged, current) := Age(old(Blocks()), old(pos), old(pos));
              Blocks() == aged + [Block(low, start, low + PAGE, start + size, 1, 0)] && pos == current
    {
      start := low + BLOCK_HEADER;
      var node := new BlockNode(Block(low, start, low + PAGE, start + size, 1, 0));
      AgeChain();
      AppendBlock(node);
    }

    // curr->faild++
    method CountFailure(node: BlockNode, ghost i: nat) returns (before: nat)
      requires ChainLinked() && i < |chain| && chain[i] == node
      modifies node
      ensures ChainLinked() && before == old(node.faild) && node.next == old(node.next)
      ensures Blocks() == old(Blocks())[i := old(Blocks())[i].(faild := before + 1)]
    {
      before := node.faild;
      node.faild := node.faild + 1;
    }

    // The body and the step of the loop of ngx_allocate_block.
    method AgeOne(node: BlockNode, ghost i: nat, current: BlockNode, ghost at: nat)
      returns (next: BlockNode, current': BlockNode, ghost at': nat)
      requires ChainLinked() && i < |chain| && chain[i] == node && node.next != null
      requires at < |chain| && chain[at] == current
      modifies node
      ensures ChainLinked() && i + 1 < |chain| && next == chain[i + 1] && at' < |chain| && current' == chain[at']
      ensures Age(Blocks(), i + 1, at') == Age(old(Blocks()), i, at)
    {
      assert i + 1 < |chain| && node.next == chain[i + 1];
      AgeStep(Blocks(), i, at);
      current', at' := current, at;
      next := node.next;
      var failed := CountFailure(node, i);
      if failed > 4 {
        current', at' := next, i + 1;
      }
    }

    // The loop of ngx_allocate_block and the update of pool->curr.
    method AgeChain()
      requires ChainLinked()
      modifies `curr, `pos, chain
      ensures ChainLinked() && chain == old(chain)
      ensures (Blocks(), pos) == Age(old(Blocks()), old(pos), old(pos))
    {
      var current, at := AgeRest();
      MoveCurr(current, at);
    }

    method AgeRest() returns (current: BlockNode, ghost at: nat)
      requires ChainLinked()
      modifies chain
      ensures ChainLinked() && at < |chain| && current == chain[at]
      ensures (Blocks(), at) == Age(old(Blocks()), pos, pos)
    {
      current := curr;
      at := pos;
      var node := curr;
      ghost var i: nat, result := pos, Age(Blocks(), pos, pos);
      while node.next != null
        invariant ChainLinked() && i < |chain| && node == chain[i] && at < |chain| && current == chain[at]
        invariant Age(Blocks(), i, at) == result
        decreases |chain| - i
      {
        node, current, at := AgeOne(node, i, current, at);
        i := i + 1;
      }
      ChainEnds(i);
    }

    lemma NextBlock(i: nat)
      requires ChainLinked() && i + 1 < |chain|
      ensures chain[i].next == chain[i + 1]
    {
    }

    lemma ChainEnds(i: nat)
      requires ChainLinked() && i < |chain| && chain[i].next == null
      ensures i == |chain| - 1
    {
      if i + 1 < |chain| {
        NextBlock(i);
      }
    }

    lemma NextBig(i: nat)
      requires BigsLinked() && i + 1 < |bigs|
      ensures bigs[i].next == bigs[i + 1]
    {
    }

    lemma BigsEnd(i: nat)
      requires BigsLinked() && i < |bigs| && bigs[i].next == null
      ensures i == |bigs| - 1
    {
      if i + 1 < |bigs| {
        NextBig(i);
      }
    }

    method MoveCurr(current: BlockNode, ghost at: nat)
      requires ChainLinked() && at < |chain| && chain[at] == current
      modifies `curr, `pos
      ensures ChainLinked() && pos == at && Blocks() == old(Blocks())
    {
      curr := current;
      pos := at;
    }

    method AppendBlock(node: BlockNode)
      requires ChainLinked() && node !in chain && node.next == null
      modifies this`chain, chain
      ensures ChainLinked()
      ensures Blocks() == old(Blocks()) + [node.Value()]
    {
      var tail: BlockNode := curr;
      ghost var i := pos;
      while tail.next != null
        invariant i < |chain| && tail == chain[i]
        decreases |chain| - i
      {
        assert i + 1 < |chain| && tail.next == chain[i + 1];
        tail := tail.next;
        i := i + 1;
      }
      assert i == |chain| - 1;
      tail.next := node;
      chain := chain + [node];
    }

    method AllocateLarge(size: nat, sys: Option<nat>) returns (r: Option<nat>)
      requires Linked()
      modifies `large, `bigs, bigs
      ensures Linked()
      ensures (View(), r) == NgxPool.AllocateLarge(old(View()), size, sys)
    {
      if sys.None? {
        return None;
      }
      var node := new LargeNode(sys.value, size);
      AppendLarge(node);
      assert Blocks() == old(Blocks());
      return Some(node.addr + LARGE_HEADER);
    }

    // The list walk of ngx_allocate_large.
    method AppendLarge(node: LargeNode)
      requires BigsLinked() && node !in bigs && node.next == null
      modifies `large, `bigs, bigs
      ensures BigsLinked() && bigs == old(bigs) + [node]
      ensures Larges() == old(Larges()) + [Large(node.addr, node.size)]
    {
      if large == null {
        large := node;
      } else {
        var tail: LargeNode := large;
        ghost var i := 0;
        while tail.next != null
          invariant i < |bigs| && tail == bigs[i]
          decreases |bigs| - i
        {
          assert i + 1 < |bigs| && tail.next == bigs[i + 1];
          tail := tail.next;
          i := i + 1;
        }
        BigsEnd(i);
        tail.next := node;
      }
      bigs := bigs + [node];
    }

    method Free(p: nat)
      requires Linked()
      modifies `large, `bigs, chain, bigs
      ensures Linked() && View() == NgxPool.Free(old(View()), p)
    {
      if p == 0 {
        return;
      }
      var found := FreeSmall(p);
      if !found {
        FreeLarge(p);
      }
    }

    // The first loop of ngx_free.
    method FreeSmall(p: nat) returns (found: bool)
      requires Linked()
      modifies chain
      ensures Linked()
      ensures var k := FindOwner(old(Blocks()), 0, p);
              (found <==> k < |chain|) &&
              View() == if found then old(View()).(blocks := old(Blocks())[k := Drop(old(Blocks())[k])])
                        else old(View())
    {
      var node: BlockNode? := head;
      ghost var i := 0;
      while node != null
        invariant i <= |chain| && node == if i < |chain| then chain[i] else null
        invariant FindOwner(Blocks(), i, p) == FindOwner(Blocks(), 0, p)
        decreases |chain| - i
      {
        if p >= node.start && p <= node.end {
          DropNode(node, i);
          return true;
        }
        assert i + 1 < |chain| ==> node.next == chain[i + 1];
        node := node.next;
        i := i + 1;
      }
      return false;
    }

    method DropNode(node: BlockNode, ghost i: nat)
      requires Linked() && i < |chain| && chain[i] == node
      modifies node
      ensures Linked()
      ensures View() == old(View()).(blocks := old(Blocks())[i := Drop(old(Blocks())[i])])
    {
      node.ref := Bits.WrapSub(node.ref, 1, 0x1_0000_0000);
      if node.ref == 0 {
        node.last := node.start;
      }
    }

    // The second loop of ngx_free.
    method FreeLarge(p: nat)
      requires Linked()
      modifies `large, `bigs, bigs
      ensures Linked()
      ensures var l := FindLarge(old(Larges()), 0, p);
              View() == if l < |old(Larges())|
                        then old(View()).(large := old(Larges())[..l] + old(Larges())[l + 1..]) else old(View())
    {
      var node: LargeNode?, pre: LargeNode? := large, null;
      ghost var i := 0;
      while node != null
        invariant i <= |bigs| && node == (if i < |bigs| then bigs[i] else null)
        invariant pre == if i == 0 then null else bigs[i - 1]
        invariant FindLarge(Larges(), i, p) == FindLarge(Larges(), 0, p)
        decreases |bigs| - i
      {
        if p == node.addr + LARGE_HEADER {
          Unlink(pre, node, i);
          return;
        }
        assert i + 1 < |bigs| ==> node.next == bigs[i + 1];
        pre := node;
        node := node.next;
        i := i + 1;
      }
    }

    method Unlink(pre: LargeNode?, node: LargeNode, ghost i: nat)
      requires Linked() && i < |bigs| && node == bigs[i] && pre == if i == 0 then null else bigs[i - 1]
      modifies `large, `bigs, bigs
      ensures Linked()
      ensures View() == old(View()).(large := old(Larges())[..i] + old(Larges())[i + 1..])
    {
      UnlinkBig(pre, node, i);
      assert Blocks() == old(Blocks());
    }

    method UnlinkBig(pre: LargeNode?, node: LargeNode, ghost i: nat)
      requires BigsLinked() && i < |bigs| && node == bigs[i] && pre == if i == 0 then null else bigs[i - 1]
      modifies `large, `bigs, bigs
      ensures BigsLinked()
      ensures Larges() == old(Larges())[..i] + old(Larges())[i + 1..]
    {
      assert i + 1 < |bigs| ==> node.next == bigs[i + 1];
      if pre == null {
        large := large.next;
      } else {
        pre.next := node.next;
      }
      bigs := bigs[..i] + bigs[i + 1..];
      assert forall k :: 0 <= k < |bigs| ==> bigs[k] == old(bigs)[if k < i then k else k + 1];
    }

    // The addresses passed to free, in order.
    method Destroy() returns (freed: seq<nat>)
      requires Linked()
      ensures freed == Destroyed(View())
    {
      freed := [];
      var node := head.next;
      ghost var i := 1;
      assert |chain| > 1 ==> head.next == chain[1];
      while node != null
        invariant 1 <= i <= |chain| && node == if i < |chain| then chain[i] else null
        invariant freed == LaterBlocks(Blocks())[..i - 1]
        decreases |chain| - i
      {
        assert i + 1 < |chain| ==> node.next == chain[i + 1];
        freed := freed + [node.low];
        node := node.next;
        i := i + 1;
      }
      var big := large;
      ghost var k := 0;
      while big != null
        invariant k <= |bigs| && big == if k < |bigs| then bigs[k] else null
        invariant freed == LaterBlocks(Blocks()) + LargeAddresses(Larges())[..k]
        decreases |bigs| - k
      {
        assert k + 1 < |bigs| ==> big.next == bigs[k + 1];
        freed := freed + [big.addr];
        big := big.next;
        k := k + 1;
      }
      freed := freed + [pool];
    }
  }
}
