/** xmem.c: a splitting and coalescing free-list allocator inside one buffer. */
module XMem {

  import opened Basics
  import opened Links

  const HEADER: nat := 8              // sizeof(struct content_t) on the 32-bit target
  const GARBAGE_LEN_THRESHOLD: nat := 20
  const MAX_BUFFER: nat := 0xffff_fff3   // the longest buffer that is kept right, by WholeBufferGoesWrong
  const MAX_WASTE: nat := 50

  /** 32-bit unsigned arithmetic. */
  function U32(x: nat): nat {
    x % 0x1_0000_0000
  }

  /** MEM_ALIGN_SIZE(len + sizeof(struct content_t)). */
  function AlignedSize(len: nat): nat {
    U32(U32(len + HEADER) + 3) / 4 * 4
  }

  // ---------- the layout of the buffer ----------

  /** A header at addr and the len bytes behind it. */
  datatype Block = Block(addr: nat, len: nat) {
    function End(): nat {
      addr + HEADER + len
    }
  }

  /** Blocks in address order, each beginning where the one before ends, fill lo..hi. */
  predicate Tiles(blocks: seq<Block>, lo: nat, hi: nat) {
    if blocks == [] then lo == hi else blocks[0].addr == lo && Tiles(blocks[1..], blocks[0].End(), hi)
  }

  /** Blocks that tile do not overlap and stay inside. */
  lemma {:induction false} TilesApart(blocks: seq<Block>, lo: nat, hi: nat)
    requires Tiles(blocks, lo, hi)
    ensures lo <= hi
    ensures forall i :: 0 <= i < |blocks| ==> lo <= blocks[i].addr && blocks[i].End() <= hi
    ensures forall i, j :: 0 <= i < j < |blocks| ==> blocks[i].End() <= blocks[j].addr
    ensures forall i :: 0 <= i < |blocks| - 1 ==> blocks[i + 1].addr == blocks[i].End()
  {
    if blocks != [] {
      var rest := blocks[1..];
      TilesApart(rest, blocks[0].End(), hi);
      assert forall i :: 1 <= i < |blocks| ==> blocks[i] == rest[i - 1];
    }
  }

  /** The block that begins where another ends is the next one. */
  lemma NextBlock(blocks: seq<Block>, lo: nat, hi: nat, i: nat, j: nat)
    requires Tiles(blocks, lo, hi) && i < |blocks| && j < |blocks| && blocks[j].addr == blocks[i].End()
    ensures j == i + 1
  {
    TilesApart(blocks, lo, hi);
  }

  function Replaced(blocks: seq<Block>, i: nat, n: nat, bs: seq<Block>): seq<Block>
    requires i + n <= |blocks|
  {
    blocks[..i] + bs + blocks[i + n..]
  }

  /** Replacing neighbours by other blocks that tile the same stretch keeps the tiling. */
  lemma {:induction false} ReplaceTiles(blocks: seq<Block>, lo: nat, hi: nat, i: nat, n: nat, bs: seq<Block>, mid: nat, end: nat)
    requires Tiles(blocks, lo, hi) && i + n <= |blocks| && n > 0
    requires mid == blocks[i].addr && end == blocks[i + n - 1].End() && Tiles(bs, mid, end)
    ensures Tiles(Replaced(blocks, i, n, bs), lo, hi)
  {
    if i == 0 {
      assert blocks[..n] + blocks[n..] == blocks;
      TilesSplit(blocks[..n], blocks[n..], lo, hi);
      TilesJoin(bs, blocks[n..], lo, end, hi);
      assert Replaced(blocks, 0, n, bs) == bs + blocks[n..];
    } else {
      ReplaceTiles(blocks[1..], blocks[0].End(), hi, i - 1, n, bs, mid, end);
      var rest := blocks[1..];
      assert blocks[..i][1..] == rest[..i - 1] && blocks[i + n..] == rest[i - 1 + n..];
      assert Replaced(blocks, i, n, bs)[1..] == Replaced(rest, i - 1, n, bs);
    }
  }

  lemma {:induction false} TilesJoin(a: seq<Block>, b: seq<Block>, lo: nat, mid: nat, hi: nat)
    requires Tiles(a, lo, mid) && Tiles(b, mid, hi)
    ensures Tiles(a + b, lo, hi)
  {
    if a == [] {
      assert a + b == b;
    } else {
      TilesJoin(a[1..], b, a[0].End(), mid, hi);
      assert (a + b)[1..] == a[1..] + b;
    }
  }

  lemma {:induction false} TilesSplit(a: seq<Block>, b: seq<Block>, lo: nat, hi: nat)
    requires Tiles(a + b, lo, hi) && a != []
    ensures Tiles(a, lo, a[|a| - 1].End()) && Tiles(b, a[|a| - 1].End(), hi)
  {
    assert (a + b)[1..] == a[1..] + b;
    if |a| == 1 {
      assert a[1..] + b == b;
    } else {
      TilesSplit(a[1..], b, a[0].End(), hi);
    }
  }

  // ---------- the free list ----------

  /** The free list names blocks by the offsets of their headers, each once. */
  predicate FreeList(next: map<nat, Ptr>, head: Ptr, list: seq<nat>) {
    Distinct(list) && Chain(next, head, list)
  }

  function Cut(list: seq<nat>, p: nat): seq<nat>
    requires p < |list|
  {
    list[..p] + list[p + 1..]
  }

  /** Unlinking position p, through head or the node before. */
  lemma CutChain(next: map<nat, Ptr>, head: Ptr, list: seq<nat>, p: nat)
    requires FreeList(next, head, list) && p < |list|
    ensures list[p] in next
    ensures p == 0 ==> FreeList(next, next[list[0]], Cut(list, 0))
    ensures p > 0 ==> FreeList(next[list[p - 1] := next[list[p]]], head, Cut(list, p))
  {
    assert LinkOk(next, list, p);
    var list' := Cut(list, p);
    var next' := if p == 0 then next else next[list[p - 1] := next[list[p]]];
    forall i | 0 <= i < |list'| ensures LinkOk(next', list', i) {
      assert list'[i] == if i < p then list[i] else list[i + 1];
      assert LinkOk(next, list, if i < p then i else i + 1);
      if i + 1 < |list'| {
        assert list'[i + 1] == if i + 1 < p then list[i + 1] else list[i + 2];
      }
    }
  }

  lemma ChainElsewhere(next: map<nat, Ptr>, head: Ptr, list: seq<nat>, a: nat, v: Ptr)
    requires FreeList(next, head, list) && a !in list
    ensures FreeList(next[a := v], head, list)
  {
    var next' := next[a := v];
    forall i | 0 <= i < |list| ensures LinkOk(next', list, i) {
      assert LinkOk(next, list, i);
    }
  }

  lemma PushChain(next: map<nat, Ptr>, head: Ptr, list: seq<nat>, a: nat)
    requires FreeList(next, head, list) && a !in list
    ensures FreeList(next[a := head], Some(a), [a] + list)
  {
    var list', next' := [a] + list, next[a := head];
    forall i | 0 <= i < |list'| ensures LinkOk(next', list', i) {
      if i > 0 {
        assert LinkOk(next, list, i - 1) && list'[i] == list[i - 1];
      }
    }
  }

  /** A new node takes the place of position p. */
  lemma SwapChain(next: map<nat, Ptr>, head: Ptr, list: seq<nat>, p: nat, a: nat)
    requires FreeList(next, head, list) && p < |list| && a !in list
    ensures list[p] in next
    ensures p == 0 ==> FreeList(next[a := next[list[0]]], Some(a), list[0 := a])
    ensures p > 0 ==> FreeList(next[a := next[list[p]]][list[p - 1] := Some(a)], head, list[p := a])
  {
    assert LinkOk(next, list, p);
    var list' := list[p := a];
    var next1 := next[a := next[list[p]]];
    var next' := if p == 0 then next1 else next1[list[p - 1] := Some(a)];
    forall i | 0 <= i < |list'| ensures LinkOk(next', list', i) {
      assert LinkOk(next, list, i);
    }
  }

  // ---------- sums ----------

  function TotalLen(list: seq<nat>, len: map<nat, nat>): nat
    requires forall a :: a in list ==> a in len
  {
    if list == [] then 0 else len[list[0]] + TotalLen(list[1..], len)
  }

  /** The bytes of the blocks at the given offsets. */
  function TotalWhere(blocks: seq<Block>, at: set<nat>): nat {
    if blocks == [] then 0 else (if blocks[0].addr in at then blocks[0].len else 0) + TotalWhere(blocks[1..], at)
  }

  predicate AddrsDistinct(blocks: seq<Block>) {
    forall i, j :: 0 <= i < j < |blocks| ==> blocks[i].addr != blocks[j].addr
  }

  lemma {:induction false} TotalOfTiles(blocks: seq<Block>, lo: nat, hi: nat, a: set<nat>, b: set<nat>)
    requires Tiles(blocks, lo, hi)
    requires forall i :: 0 <= i < |blocks| ==> (blocks[i].addr in a) != (blocks[i].addr in b)
    ensures lo + TotalWhere(blocks, a) + TotalWhere(blocks, b) + HEADER * |blocks| == hi
  {
    if blocks != [] {
      TotalOfTiles(blocks[1..], blocks[0].End(), hi, a, b);
    }
  }

  lemma {:induction false} TotalWithout(blocks: seq<Block>, at: set<nat>, i: nat)
    requires AddrsDistinct(blocks) && i < |blocks| && blocks[i].addr in at
    ensures TotalWhere(blocks, at) == blocks[i].len + TotalWhere(blocks, at - {blocks[i].addr})
  {
    var rest := blocks[1..];
    assert forall j :: 0 <= j < |rest| ==> rest[j] == blocks[j + 1];
    if i == 0 {
      TotalSame(rest, at, at - {blocks[0].addr});
    } else {
      assert rest[i - 1] == blocks[i];
      TotalWithout(rest, at, i - 1);
    }
  }

  lemma {:induction false} TotalSame(blocks: seq<Block>, at: set<nat>, at': set<nat>)
    requires forall i :: 0 <= i < |blocks| ==> (blocks[i].addr in at <==> blocks[i].addr in at')
    ensures TotalWhere(blocks, at) == TotalWhere(blocks, at')
  {
    if blocks != [] {
      TotalSame(blocks[1..], at, at');
    }
  }

  ghost predicate HasLen(blocks: seq<Block>, len: map<nat, nat>, a: nat) {
    a in len && exists i :: 0 <= i < |blocks| && blocks[i] == Block(a, len[a])
  }

  function Members(list: seq<nat>): set<nat> {
    set a | a in list
  }

  /** The walk over the free list and the walk over the buffer find the same bytes. */
  lemma {:induction false} TotalOfList(blocks: seq<Block>, len: map<nat, nat>, list: seq<nat>)
    requires AddrsDistinct(blocks) && Distinct(list)
    requires forall a :: a in list ==> a in len
    requires forall a :: a in list ==> HasLen(blocks, len, a)
    ensures TotalLen(list, len) == TotalWhere(blocks, Members(list))
    decreases |list|
  {
    if list == [] {
      TotalOfNone(blocks);
      assert Members(list) == {};
    } else {
      var rest := list[1..];
      TotalOfList(blocks, len, rest);
      assert HasLen(blocks, len, list[0]);
      var i :| 0 <= i < |blocks| && blocks[i] == Block(list[0], len[list[0]]);
      var all := Members(list);
      TotalWithout(blocks, all, i);
      assert forall k :: 0 <= k < |rest| ==> rest[k] == list[k + 1];
      assert list == [list[0]] + rest && list[0] !in rest;
      assert all - {list[0]} == Members(rest);
    }
  }

  lemma {:induction false} TotalOfNone(blocks: seq<Block>)
    ensures TotalWhere(blocks, {}) == 0
  {
    if blocks != [] {
      TotalOfNone(blocks[1..]);
    }
  }

  // ---------- which block alloc_content takes ----------

  predicate Fits(len: map<nat, nat>, a: nat, req: nat) {
    a in len && len[a] >= req
  }

  /** A block handed out for a request is long enough and wastes no more than a little. */
  predicate Serves(len: nat, req: nat) {
    req <= len <= req + MAX_WASTE
  }

  predicate Snug(len: map<nat, nat>, a: nat, req: nat) {
    a in len && req <= len[a] <= req + GARBAGE_LEN_THRESHOLD
  }

  /** The first snug block of the list, or else the first of the shortest blocks that fit. */
  predicate Chosen(list: seq<nat>, len: map<nat, nat>, req: nat, p: nat)
    requires p < |list|
  {
    if Snug(len, list[p], req) then forall i :: 0 <= i < p ==> !Snug(len, list[i], req)
    else Fits(len, list[p], req) &&
         forall i :: 0 <= i < |list| && Fits(len, list[i], req) ==>
           !Snug(len, list[i], req) && (if i < p then len[list[p]] < len[list[i]] else len[list[p]] <= len[list[i]])
  }

  /** Block a is block p of the list, unlinked, or the end of it, cut off. */
  predicate TakenFrom(list: seq<nat>, len: map<nat, nat>, p: nat, a: nat, list': seq<nat>, len': map<nat, nat>)
    requires p < |list|
  {
    var node := list[p];
    || (a == node && list' == Cut(list, p) && len' == len)
    || (list' == list && node in len && node in len' && a in len' &&
        a == node + HEADER + len'[node] && len'[node] + HEADER + len'[a] == len[node])
  }

  /** The scan of alloc_content: stops at a snug block, otherwise remembers the shortest that fits. */
  method Scan(head: Ptr, next: map<nat, Ptr>, len: map<nat, nat>, req: nat, ghost list: seq<nat>)
    returns (node: Ptr, pre: Ptr, ghost p: nat)
    requires FreeList(next, head, list) && req < 0x1_0000_0000
    requires forall a :: a in list ==> a in len && len[a] <= MAX_BUFFER - HEADER
    ensures node.None? ==> forall a :: a in list ==> len[a] < req
    ensures node.Some? ==> p < |list| && list[p] == node.value && Chosen(list, len, req, p)
    ensures node.Some? ==> pre == if p == 0 then None else Some(list[p - 1])
  {
    var limit := U32(req + GARBAGE_LEN_THRESHOLD);
    assert req <= MAX_BUFFER - HEADER ==> limit == req + GARBAGE_LEN_THRESHOLD;
    var cur, prev := head, None;
    node, pre, p := None, None, 0;
    ghost var i := 0;
    while cur.Some?
      invariant i <= |list| && cur == (if i < |list| then Some(list[i]) else None)
      invariant prev == if i == 0 then None else Some(list[i - 1])
      invariant forall j :: 0 <= j < i ==> !Snug(len, list[j], req)
      invariant node.None? ==> forall j :: 0 <= j < i ==> len[list[j]] < req
      invariant node.Some? ==> p < i && list[p] == node.value && Fits(len, list[p], req)
      invariant node.Some? ==> pre == if p == 0 then None else Some(list[p - 1])
      invariant node.Some? ==> forall j :: 0 <= j < i && Fits(len, list[j], req) ==>
                  if j < p then len[list[p]] < len[list[j]] else len[list[p]] <= len[list[j]]
      decreases |list| - i
    {
      var a := cur.value;
      assert a in list && LinkOk(next, list, i);
      if len[a] >= req {
        if len[a] <= limit {
          return cur, prev, i;
        } else if node.None? || len[a] < len[node.value] {
          node, pre, p := cur, prev, i;
        }
      }
      prev := cur;
      cur := next[a];
      i := i + 1;
    }
  }

  // ---------- the books: layout, free list and blocks in use ----------

  ghost predicate HasBlock(layout: seq<Block>, a: nat) {
    exists i :: 0 <= i < |layout| && layout[i].addr == a
  }

  ghost predicate BlockOk(b: Block, len: map<nat, nat>, list: seq<nat>, live: map<nat, nat>) {
    && b.addr in len && len[b.addr] == b.len
    && (b.addr in list || b.addr in live) && !(b.addr in list && b.addr in live)
    && (b.addr in live ==> Serves(b.len, live[b.addr]))
  }

  /** The blocks tile the buffer, each is either free or in use, and those in use serve what was asked. */
  ghost predicate Books(bufLen: nat, layout: seq<Block>, len: map<nat, nat>, list: seq<nat>, live: map<nat, nat>) {
    && Tiles(layout, 0, bufLen)
    && (forall i :: 0 <= i < |layout| ==> BlockOk(layout[i], len, list, live))
    && (forall a :: a in list || a in live ==> HasBlock(layout, a))
  }

  /** The block at an offset is the only one there and lies in the buffer. */
  lemma BlockAt(bufLen: nat, layout: seq<Block>, len: map<nat, nat>, list: seq<nat>, live: map<nat, nat>, a: nat) returns (i: nat)
    requires Books(bufLen, layout, len, list, live) && (a in list || a in live)
    ensures i < |layout| && layout[i].addr == a && a in len && layout[i] == Block(a, len[a]) && layout[i].End() <= bufLen
    ensures forall j :: 0 <= j < |layout| && layout[j].addr == a ==> j == i
    ensures !(a in list && a in live) && (a in live ==> Serves(len[a], live[a]))
  {
    assert HasBlock(layout, a);
    i :| 0 <= i < |layout| && layout[i].addr == a;
    assert BlockOk(layout[i], len, list, live);
    TilesApart(layout, 0, bufLen);
  }

  /** Taking a free block into use, or giving a used block back, moves it between the books. */
  lemma BooksMoved(bufLen: nat, layout: seq<Block>, len: map<nat, nat>, list: seq<nat>, live: map<nat, nat>,
                   list': seq<nat>, live': map<nat, nat>, a: nat)
    requires Books(bufLen, layout, len, list, live)
    requires forall x :: x != a ==> (x in list' <==> x in list) && (x in live' <==> x in live)
    requires forall x :: x != a && x in live ==> live'[x] == live[x]
    requires (a in list || a in live) && ((a in list') != (a in live')) && (a in live' ==> a in len && Serves(len[a], live'[a]))
    ensures Books(bufLen, layout, len, list', live')
  {
    forall i | 0 <= i < |layout| ensures BlockOk(layout[i], len, list', live') {
      assert BlockOk(layout[i], len, list, live);
    }
    forall x | x in list' || x in live' ensures HasBlock(layout, x) {
      assert HasBlock(layout, if x == a then a else x);
    }
  }

  /** The two blocks a split makes of one. */
  function Halves(b: Block, size: nat): seq<Block>
    requires HEADER <= size <= b.len
  {
    [Block(b.addr, b.len - size), Block(b.End() - size, size - HEADER)]
  }

  lemma SplitTiles(bufLen: nat, layout: seq<Block>, i: nat, size: nat)
    requires Tiles(layout, 0, bufLen) && i < |layout| && HEADER <= size <= layout[i].len
    ensures Tiles(Replaced(layout, i, 1, Halves(layout[i], size)), 0, bufLen)
  {
    var two := Halves(layout[i], size);
    assert two[1..] == [two[1]] && two[1..][1..] == [];
    assert Tiles(two, layout[i].addr, layout[i].End());
    ReplaceTiles(layout, 0, bufLen, i, 1, two, layout[i].addr, layout[i].End());
  }

  lemma HasBlockAfter(layout: seq<Block>, i: nat, n: nat, bs: seq<Block>, x: nat)
    requires i + n <= |layout| && HasBlock(layout, x)
    requires (forall j :: i <= j < i + n ==> layout[j].addr != x) || HasBlock(bs, x)
    ensures HasBlock(Replaced(layout, i, n, bs), x)
  {
    var layout' := Replaced(layout, i, n, bs);
    if HasBlock(bs, x) {
      var j :| 0 <= j < |bs| && bs[j].addr == x;
      assert layout'[i + j].addr == x;
    } else {
      var j :| 0 <= j < |layout| && layout[j].addr == x;
      assert layout'[if j < i then j else j - n + |bs|].addr == x;
    }
  }

  lemma ReplacedAt(layout: seq<Block>, i: nat, n: nat, bs: seq<Block>, j: nat)
    requires i + n <= |layout| && j < |Replaced(layout, i, n, bs)|
    ensures var layout' := Replaced(layout, i, n, bs);
            layout'[j] == if j < i then layout[j] else if j < i + |bs| then bs[j - i] else layout[j - |bs| + n]
  {
  }

  /** Splitting the free block at index i: its end becomes a block in use. */
  lemma BooksSplit(bufLen: nat, layout: seq<Block>, len: map<nat, nat>, list: seq<nat>, live: map<nat, nat>,
                   i: nat, size: nat, req: nat)
    requires Books(bufLen, layout, len, list, live) && i < |layout| && layout[i].addr in list
    requires HEADER <= size <= layout[i].len && Serves(size - HEADER, req)
    ensures var a := layout[i].addr; var n := layout[i].End() - size;
            n !in list && n !in live &&
            Books(bufLen, Replaced(layout, i, 1, Halves(layout[i], size)),
                  len[a := layout[i].len - size][n := size - HEADER], list, live[n := req])
  {
    var a, n := layout[i].addr, layout[i].End() - size;
    var layout' := Replaced(layout, i, 1, Halves(layout[i], size));
    SplitTiles(bufLen, layout, i, size);
    NewOffset(bufLen, layout, len, list, live, i, n);
    forall j | 0 <= j < |layout'|
      ensures BlockOk(layout'[j], len[a := layout[i].len - size][n := size - HEADER], list, live[n := req])
    {
      SplitBlockOk(bufLen, layout, len, list, live, i, size, req, j);
    }
    forall x | x in list || x in live[n := req] ensures HasBlock(layout', x) {
      if x == n {
        assert layout'[i + 1].addr == n;
      } else {
        assert HasBlock(layout, x);
        assert Halves(layout[i], size)[0].addr == a;
        HasBlockAfter(layout, i, 1, Halves(layout[i], size), x);
      }
    }
  }

  lemma SplitBlockOk(bufLen: nat, layout: seq<Block>, len: map<nat, nat>, list: seq<nat>, live: map<nat, nat>,
                     i: nat, size: nat, req: nat, j: nat)
    requires Books(bufLen, layout, len, list, live) && i < |layout| && layout[i].addr in list
    requires HEADER <= size <= layout[i].len && Serves(size - HEADER, req)
    requires j < |Replaced(layout, i, 1, Halves(layout[i], size))|
    ensures var a := layout[i].addr; var n := layout[i].End() - size;
            BlockOk(Replaced(layout, i, 1, Halves(layout[i], size))[j],
                    len[a := layout[i].len - size][n := size - HEADER], list, live[n := req])
  {
    var n := layout[i].End() - size;
    NewOffset(bufLen, layout, len, list, live, i, n);
    ReplacedAt(layout, i, 1, Halves(layout[i], size), j);
    TilesApart(layout, 0, bufLen);
    assert BlockOk(layout[i], len, list, live);
    if j < i {
      assert BlockOk(layout[j], len, list, live);
    } else if j > i + 1 {
      assert BlockOk(layout[j - 1], len, list, live);
    }
  }

  /** An offset inside a block is the offset of no block. */
  lemma NewOffset(bufLen: nat, layout: seq<Block>, len: map<nat, nat>, list: seq<nat>, live: map<nat, nat>, i: nat, n: nat)
    requires Books(bufLen, layout, len, list, live) && i < |layout| && layout[i].addr < n < layout[i].End()
    ensures n !in list && n !in live && forall j :: 0 <= j < |layout| ==> layout[j].addr != n
  {
    TilesApart(layout, 0, bufLen);
    assert !HasBlock(layout, n);
  }

  function Joined(b: Block, c: Block): Block {
    Block(b.addr, b.len + HEADER + c.len)
  }

  lemma MergeTiles(bufLen: nat, layout: seq<Block>, i: nat)
    requires Tiles(layout, 0, bufLen) && i + 1 < |layout|
    ensures Tiles(Replaced(layout, i, 2, [Joined(layout[i], layout[i + 1])]), 0, bufLen)
  {
    var one := [Joined(layout[i], layout[i + 1])];
    TilesApart(layout, 0, bufLen);
    assert one[1..] == [] && Tiles(one, layout[i].addr, layout[i + 1].End());
    ReplaceTiles(layout, 0, bufLen, i, 2, one, layout[i].addr, layout[i + 1].End());
  }

  /** What freeing does to the books when it joins blocks a and b: a is free, b is gone. */
  ghost predicate Absorbs(list: seq<nat>, live: map<nat, nat>, list': seq<nat>, live': map<nat, nat>, a: nat, b: nat) {
    && a in list' && a !in live' && b !in list' && b !in live'
    && (forall x :: x != a && x != b ==> (x in list' <==> x in list) && (x in live' <==> x in live))
    && (forall x :: x in live' && x in live ==> live'[x] == live[x])
  }

  /** Joining a block with the one behind it; the joined block is free. */
  lemma BooksMerged(bufLen: nat, layout: seq<Block>, len: map<nat, nat>, list: seq<nat>, live: map<nat, nat>,
                    i: nat, list': seq<nat>, live': map<nat, nat>)
    requires Books(bufLen, layout, len, list, live) && i + 1 < |layout|
    requires Absorbs(list, live, list', live', layout[i].addr, layout[i + 1].addr)
    ensures var one := Joined(layout[i], layout[i + 1]);
            Books(bufLen, Replaced(layout, i, 2, [one]), len[one.addr := one.len], list', live')
  {
    var one := Joined(layout[i], layout[i + 1]);
    var layout' := Replaced(layout, i, 2, [one]);
    MergeTiles(bufLen, layout, i);
    forall j | 0 <= j < |layout'| ensures BlockOk(layout'[j], len[one.addr := one.len], list', live') {
      MergeBlockOk(bufLen, layout, len, list, live, i, list', live', j);
    }
    forall x | x in list' || x in live' ensures HasBlock(layout', x) {
      MergeHasBlock(bufLen, layout, len, list, live, i, list', live', x);
    }
  }

  lemma MergeBlockOk(bufLen: nat, layout: seq<Block>, len: map<nat, nat>, list: seq<nat>, live: map<nat, nat>,
                     i: nat, list': seq<nat>, live': map<nat, nat>, j: nat)
    requires Books(bufLen, layout, len, list, live) && i + 1 < |layout| && j < |layout| - 1
    requires Absorbs(list, live, list', live', layout[i].addr, layout[i + 1].addr)
    ensures var one := Joined(layout[i], layout[i + 1]);
            |Replaced(layout, i, 2, [one])| == |layout| - 1 &&
            BlockOk(Replaced(layout, i, 2, [one])[j], len[one.addr := one.len], list', live')
  {
    ReplacedAt(layout, i, 2, [Joined(layout[i], layout[i + 1])], j);
    TilesApart(layout, 0, bufLen);
    if j < i {
      assert BlockOk(layout[j], len, list, live);
    } else if j > i {
      assert BlockOk(layout[j + 1], len, list, live);
    }
  }

  lemma MergeHasBlock(bufLen: nat, layout: seq<Block>, len: map<nat, nat>, list: seq<nat>, live: map<nat, nat>,
                      i: nat, list': seq<nat>, live': map<nat, nat>, x: nat)
    requires Books(bufLen, layout, len, list, live) && i + 1 < |layout| && (x in list' || x in live')
    requires Absorbs(list, live, list', live', layout[i].addr, layout[i + 1].addr)
    ensures HasBlock(Replaced(layout, i, 2, [Joined(layout[i], layout[i + 1])]), x)
  {
    var one := Joined(layout[i], layout[i + 1]);
    if x == one.addr {
      assert Replaced(layout, i, 2, [one])[i].addr == x;
    } else {
      assert HasBlock(layout, x);
      HasBlockAfter(layout, i, 2, [one], x);
    }
  }

  /** One of the two blocks begins where the other ends. */
  predicate Neighbours(len: map<nat, nat>, a: nat, b: nat) {
    a in len && b in len && (a + HEADER + len[a] == b || b + HEADER + len[b] == a)
  }

  /** The block at node is joined to its neighbour at position p of the list: one free block over both. */
  predicate JoinedAt(len: map<nat, nat>, list: seq<nat>, node: nat, p: nat, len': map<nat, nat>, list': seq<nat>) {
    && p < |list| && Neighbours(len, list[p], node)
    && var first := if list[p] < node then list[p] else node;
       list' == list[p := first] && len' == len[first := len[list[p]] + HEADER + len[node]]
  }

  // ---------- the allocator ----------

  class Allocator {
    const bufLen: nat
    var head: Ptr
    var next: map<nat, Ptr>
    var len: map<nat, nat>
    ghost var list: seq<nat>          // the free list, by offset
    ghost var layout: seq<Block>      // every block, in address order
    ghost var live: map<nat, nat>     // what each block in use was asked for

    ghost predicate Valid()
      reads this
    {
      HEADER <= bufLen <= MAX_BUFFER && FreeList(next, head, list) && Books(bufLen, layout, len, list, live)
    }

    /** x_init_mem: one free block over the whole buffer. */
    constructor (bufLen: nat)
      requires HEADER <= bufLen <= MAX_BUFFER
      ensures Valid() && live == map[] && list == [0] && layout == [Block(0, bufLen - HEADER)] && this.bufLen == bufLen
    {
      this.bufLen := bufLen;
      head, next, len := Some(0), map[0 := None], map[0 := bufLen - HEADER];
      list, layout, live := [0], [Block(0, bufLen - HEADER)], map[];
      new;
      assert LinkOk(next, list, 0);
      assert layout[1..] == [] && layout[0].addr == 0;
    }

    /** x_reset_mem: the same again, whatever was in use. */
    method Reset()
      requires Valid()
      modifies this
      ensures Valid() && live == map[] && list == [0] && layout == [Block(0, bufLen - HEADER)]
    {
      head, next, len := Some(0), next[0 := None], len[0 := bufLen - HEADER];
      list, layout, live := [0], [Block(0, bufLen - HEADER)], map[];
      assert LinkOk(next, list, 0);
      assert layout[1..] == [] && layout[0].addr == 0;
    }

    /** A free block is small enough that no limit computed from a fitting request wraps. */
    lemma FreeBlock(a: nat)
      requires Valid() && a in list
      ensures a in len && len[a] <= bufLen - HEADER
    {
      var i := BlockAt(bufLen, layout, len, list, live, a);
    }

    /** Takes position p out of the free list and into use. */
    method Take(node: nat, pre: Ptr, req: nat, ghost p: nat)
      requires Valid() && p < |list| && list[p] == node && node in len && Serves(len[node], req)
      requires pre == if p == 0 then None else Some(list[p - 1])
      modifies this
      ensures Valid() && live == old(live)[node := req] && list == Cut(old(list), p)
      ensures layout == old(layout) && len == old(len)
    {
      CutChain(next, head, list, p);
      ghost var list' := Cut(list, p);
      CutMembers(list, p);
      BooksMoved(bufLen, layout, len, list, live, list', live[node := req], node);
      if pre.None? {
        head := next[node];
      } else {
        next := next[pre.value := next[node]];
      }
      ChainElsewhere(next, head, list', node, None);
      next := next[node := None];
      list, live := list', live[node := req];
    }

    /** Cuts an aligned piece off the end of a free block and into use. */
    method Split(node: nat, size: nat, req: nat) returns (n: nat)
      requires Valid() && node in list && node in len && HEADER <= size <= len[node] && Serves(size - HEADER, req)
      modifies this
      ensures Valid() && n !in old(live) && live == old(live)[n := req] && list == old(list)
      ensures n in len && len[n] == size - HEADER && n == node + HEADER + old(len[node]) - size
      ensures len == old(len)[node := old(len[node]) - size][n := size - HEADER]
    {
      ghost var i := BlockAt(bufLen, layout, len, list, live, node);
      BooksSplit(bufLen, layout, len, list, live, i, size, req);
      n := node + HEADER + (len[node] - size);
      layout := Replaced(layout, i, 1, Halves(layout[i], size));
      len := len[node := len[node] - size];
      len := len[n := size - HEADER];
      ChainElsewhere(next, head, list, n, None);
      next := next[n := None];
      live := live[n := req];
    }

    /**
      x_alloc.  It fails exactly when every free block is too short.  Otherwise it takes the
      chosen block p of the list, whole or its end, and no other block in use changes.  The block wastes
      at most MAX_WASTE bytes.  What is left of a block that is cut is worth keeping, at least twice the
      threshold, if and only if the limit computed from the request does not wrap.
     */
    method Alloc(req: nat) returns (r: Ptr, ghost p: nat)
      requires Valid() && req < 0x1_0000_0000
      modifies this
      ensures Valid()
      ensures r.None? <==> forall a :: a in old(list) ==> a in old(len) && old(len)[a] < req
      ensures r.None? ==> live == old(live) && list == old(list) && layout == old(layout) && len == old(len)
      ensures r.Some? ==> r.value !in old(live) && live == old(live)[r.value := req] && r.value in len && Serves(len[r.value], req)
      ensures r.Some? ==> p < |old(list)| && Chosen(old(list), old(len), req, p)
      ensures r.Some? ==> TakenFrom(old(list), old(len), p, r.value, list, len)
      ensures r.Some? && r.value != old(list)[p] ==> old(list)[p] in len
      ensures r.Some? && r.value != old(list)[p] ==>
                (len[old(list)[p]] >= 2 * GARBAGE_LEN_THRESHOLD <==> req <= 0xffff_ffcc)
      ensures forall a :: a in old(live) ==> a in len && a in old(len) && len[a] == old(len)[a]
    {
      forall a | a in live ensures a in len && a !in list {
        var i := BlockAt(bufLen, layout, len, list, live, a);
      }
      forall a | a in list ensures a in len && len[a] <= MAX_BUFFER - HEADER {
        FreeBlock(a);
      }
      var node, pre;
      node, pre, p := Scan(head, next, len, req, list);
      if node.None? {
        return None, p;
      }
      var a := node.value;
      assert a in list;
      var size := AlignedSize(req);
      AlignedFits(req, len[a]);
      if len[a] <= U32(req + GARBAGE_LEN_THRESHOLD) || len[a] < U32(size + 2 * GARBAGE_LEN_THRESHOLD) {
        Take(a, pre, req, p);
        r := Some(a);
      } else {
        var n := Split(a, size, req);
        r := Some(n);
      }
    }

    /** Frees a block into the free block just before it. */
    method JoinBefore(b: nat, node: nat)
      requires Valid() && node in live && b in list && b in len && node in len && b + HEADER + len[b] == node
      modifies this
      ensures Valid() && live == old(live) - {node} && list == old(list) && |layout| == |old(layout)| - 1
      ensures len == old(len)[b := old(len[b]) + HEADER + old(len[node])]
      ensures forall a :: a in live ==> a in len && a in old(len) && len[a] == old(len)[a]
    {
      ghost var i := BlockAt(bufLen, layout, len, list, live, b);
      ghost var j := BlockAt(bufLen, layout, len, list, live, node);
      NextBlock(layout, 0, bufLen, i, j);
      BooksMerged(bufLen, layout, len, list, live, i, list, live - {node});
      LiveElsewhere(b, node);
      layout := Replaced(layout, i, 2, [Joined(layout[i], layout[i + 1])]);
      len := len[b := len[b] + HEADER + len[node]];
      live := live - {node};
    }

    /** Frees a block and the free block just behind it, which it replaces in the list. */
    method JoinBehind(node: nat, b: nat, pre: Ptr, ghost p: nat)
      requires Valid() && node in live && p < |list| && list[p] == b && b in len && node in len && node + HEADER + len[node] == b
      requires pre == if p == 0 then None else Some(list[p - 1])
      modifies this
      ensures Valid() && live == old(live) - {node} && list == old(list)[p := node] && |layout| == |old(layout)| - 1
      ensures len == old(len)[node := old(len[node]) + HEADER + old(len[b])]
      ensures forall a :: a in live ==> a in len && a in old(len) && len[a] == old(len)[a]
    {
      ghost var i := BlockAt(bufLen, layout, len, list, live, node);
      assert b in list;
      ghost var j := BlockAt(bufLen, layout, len, list, live, b);
      NextBlock(layout, 0, bufLen, i, j);
      SwapChain(next, head, list, p, node);
      SwapMembers(list, p, node);
      BooksMerged(bufLen, layout, len, list, live, i, list[p := node], live - {node});
      LiveElsewhere(b, node);
      layout := Replaced(layout, i, 2, [Joined(layout[i], layout[i + 1])]);
      len := len[node := len[node] + HEADER + len[b]];
      next := next[node := next[b]];
      if pre.None? {
        head := Some(node);
      } else {
        next := next[pre.value := Some(node)];
      }
      list := list[p := node];
      live := live - {node};
    }

    lemma LiveElsewhere(b: nat, node: nat)
      requires Valid() && b in list && node in live
      ensures b !in live && forall a :: a in live ==> a in len
    {
      var i := BlockAt(bufLen, layout, len, list, live, b);
      forall a | a in live ensures a in len {
        var j := BlockAt(bufLen, layout, len, list, live, a);
      }
    }

    /** Frees a block by pushing it on the list. */
    method Push(node: nat)
      requires Valid() && node in live
      modifies this
      ensures Valid() && live == old(live) - {node} && list == [node] + old(list) && layout == old(layout) && len == old(len)
    {
      ghost var i := BlockAt(bufLen, layout, len, list, live, node);
      PushChain(next, head, list, node);
      BooksMoved(bufLen, layout, len, list, live, [node] + list, live - {node}, node);
      next := next[node := head];
      head := Some(node);
      list := [node] + list;
      live := live - {node};
    }

    /**
      x_free of a block in use, or of NULL, which it refuses.  The block is joined to the first free block
      of the list that lies just before or just behind it, p being its position, and only if there is none
      it goes to the head of the list; no other block in use changes.
     */
    method Free(addr: Ptr) returns (ok: bool, ghost p: nat)
      requires Valid() && (addr.Some? ==> addr.value in live)
      modifies this
      ensures Valid() && ok == addr.Some?
      ensures !ok ==> live == old(live) && list == old(list) && layout == old(layout) && len == old(len)
      ensures ok ==> live == old(live) - {addr.value} && addr.value in old(len) && p <= |old(list)|
      ensures ok ==> forall i :: 0 <= i < p ==> !Neighbours(old(len), old(list)[i], addr.value)
      ensures ok && p == |old(list)| ==> list == [addr.value] + old(list) && len == old(len) && layout == old(layout)
      ensures ok && p < |old(list)| ==> JoinedAt(old(len), old(list), addr.value, p, len, list) && |layout| == |old(layout)| - 1
      ensures forall a :: a in live ==> a in len && a in old(len) && len[a] == old(len)[a]
    {
      p := 0;
      forall a | a in live ensures a in len {
        var i := BlockAt(bufLen, layout, len, list, live, a);
      }
      if addr.None? {
        return false, p;
      }
      var node := addr.value;
      var cur, pre := head, None;
      ghost var i := 0;
      while cur.Some?
        invariant i <= |list| && cur == (if i < |list| then Some(list[i]) else None)
        invariant pre == if i == 0 then None else Some(list[i - 1])
        invariant Valid() && live == old(live) && list == old(list) && layout == old(layout) && len == old(len)
        invariant forall j :: 0 <= j < i ==> !Neighbours(len, list[j], node)
        decreases |list| - i
      {
        var b := cur.value;
        assert b in list;
        FreeBlock(b);
        if b + HEADER + len[b] == node {
          JoinBefore(b, node);
          return true, i;
        } else if node + HEADER + len[node] == b {
          JoinBehind(node, b, pre, i);
          return true, i;
        }
        assert LinkOk(next, list, i);
        pre := cur;
        cur := next[b];
        i := i + 1;
      }
      Push(node);
      ok, p := true, i;
    }

    /** x_get_free_mem_info: the number of free blocks and of the bytes in them. */
    method FreeInfo() returns (size: nat, num: nat)
      requires Valid()
      ensures num == |list| && (forall a :: a in list ==> a in len) && size == TotalLen(list, len)
    {
      forall a | a in list ensures a in len {
        FreeBlock(a);
      }
      var cur := head;
      size, num := 0, 0;
      while cur.Some?
        invariant num <= |list| && cur == (if num < |list| then Some(list[num]) else None)
        invariant size + TotalLen(list[num..], len) == TotalLen(list, len)
        decreases |list| - num
      {
        assert LinkOk(next, list, num);
        assert list[num..][1..] == list[num + 1..];
        size := size + len[cur.value];
        cur := next[cur.value];
        num := num + 1;
      }
    }

    /**
      At any time, blocks in use lie inside the buffer without overlap, none of them free, each at least as
      long as asked for and wasting at most MAX_WASTE bytes.
     */
    lemma BlocksInUse(a: nat, b: nat)
      requires Valid() && a in live && b in live && a != b
      ensures a in len && b in len && Serves(len[a], live[a]) && a + HEADER + len[a] <= bufLen && a !in list
      ensures a + HEADER + len[a] <= b || b + HEADER + len[b] <= a
    {
      var i := BlockAt(bufLen, layout, len, list, live, a);
      var j := BlockAt(bufLen, layout, len, list, live, b);
      TilesApart(layout, 0, bufLen);
    }

    /** Headers, free bytes and bytes of blocks in use always add up to the buffer. */
    lemma NothingIsLost()
      requires Valid()
      ensures forall a :: a in list ==> a in len
      ensures TotalLen(list, len) + TotalWhere(layout, live.Keys) + HEADER * |layout| == bufLen
    {
      var free := Members(list);
      TilesApart(layout, 0, bufLen);
      forall i | 0 <= i < |layout| ensures (layout[i].addr in free) != (layout[i].addr in live.Keys) {
        assert BlockOk(layout[i], len, list, live);
      }
      TotalOfTiles(layout, 0, bufLen, free, live.Keys);
      forall a | a in list ensures HasLen(layout, len, a) {
        var i := BlockAt(bufLen, layout, len, list, live, a);
      }
      TotalOfList(layout, len, list);
    }
  }

  lemma CutMembers(list: seq<nat>, p: nat)
    requires Distinct(list) && p < |list|
    ensures forall x :: x in Cut(list, p) <==> x in list && x != list[p]
  {
    var list' := Cut(list, p);
    forall x | x in list && x != list[p] ensures x in list' {
      var i :| 0 <= i < |list| && list[i] == x;
      assert list'[if i < p then i else i - 1] == x;
    }
  }

  /**
    For a request that a block of the buffer can hold the first limit does not wrap, so a block that
    is not snug is longer than the piece to cut off it; the second limit may wrap, and then the piece is
    cut where the whole block should have been taken.
   */
  lemma AlignedFits(req: nat, len: nat)
    requires req <= len <= MAX_BUFFER - HEADER
    ensures U32(req + GARBAGE_LEN_THRESHOLD) == req + GARBAGE_LEN_THRESHOLD
    ensures len > req + GARBAGE_LEN_THRESHOLD ==> AlignedSize(req) <= len && Serves(AlignedSize(req) - HEADER, req)
    ensures req + GARBAGE_LEN_THRESHOLD < len < U32(AlignedSize(req) + 2 * GARBAGE_LEN_THRESHOLD) ==> Serves(len, req)
    ensures U32(AlignedSize(req) + 2 * GARBAGE_LEN_THRESHOLD) <= len && req + GARBAGE_LEN_THRESHOLD < len ==>
              (len - AlignedSize(req) >= 2 * GARBAGE_LEN_THRESHOLD <==> req <= 0xffff_ffcc)
  {
  }

  /**
    In every longer buffer the first request, for all of it, goes wrong: the first limit wraps, so the
    one block, an exact fit, is cut, although the piece is longer than the block or has no length at all.
   */
  lemma WholeBufferGoesWrong(bufLen: nat)
    requires MAX_BUFFER < bufLen < 0x1_0000_0000
    ensures var len := bufLen - HEADER; var size := AlignedSize(len);
            && len > U32(len + GARBAGE_LEN_THRESHOLD) && len >= U32(size + 2 * GARBAGE_LEN_THRESHOLD)
            && (size > len || size == 0)
  {
  }

  lemma SwapMembers(list: seq<nat>, p: nat, a: nat)
    requires Distinct(list) && p < |list| && a !in list
    ensures forall x :: x in list[p := a] <==> x == a || (x in list && x != list[p])
  {
    var list' := list[p := a];
    assert list'[p] == a;
    forall x | x in list && x != list[p] ensures x in list' {
      var i :| 0 <= i < |list| && list[i] == x;
      assert list'[i] == x;
    }
  }
}
