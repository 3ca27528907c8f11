/** The central cache (common/majhongcentralcache.cpp): one free list of blocks per size
    class, shared by the thread caches. A request detaches a batch from the front of the
    class list; an empty class list is refilled by carving a span from the page cache into
    blocks. Returned chains are put back at the front. */
module CentralCache {

  import opened Common
  import opened FreeList
  import opened PageCache

  /** The pages of the span carved for one class. */
  const PAGECACHESIZE: nat := 8
  const SPAN_BYTES: nat := PAGECACHESIZE * PAGESIZE

  /** `GetCacheByPageCacheSize` (lines 155-171): the page count asked of the page cache
      for blocks of `size` bytes. */
  function PagesFor(size: SizeT): SizeT
  {
    var pages := Wrap(size + PAGESIZE - 1) / PAGESIZE;
    if size <= SPAN_BYTES then PAGECACHESIZE else pages
  }

  /** Eight pages for blocks up to the span, otherwise the fewest pages holding one block. */
  lemma PagesForCovers(size: SizeT)
    requires size + PAGESIZE - 1 < SIZE_T_LIMIT
    ensures size <= SPAN_BYTES ==> PagesFor(size) == PAGECACHESIZE
    ensures SPAN_BYTES < size ==> size <= PagesFor(size) * PAGESIZE < size + PAGESIZE
  {
  }

  /** The blocks `lo .. hi - 1` of `size` bytes in the span at `a`. A definition used by
      `Carve`; its layout properties are `BlocksApart`, `BlocksInSpan` and
      `CarvePartition`. */
  function Blocks(a: nat, size: nat, lo: nat, hi: nat): (r: seq<nat>)
    requires lo <= hi
    ensures |r| == hi - lo
    ensures forall k | 0 <= k < hi - lo :: r[k] == a + (lo + k) * size
  {
    seq(hi - lo, k requires 0 <= k < hi - lo => a + (lo + k) * size)
  }

  lemma {:induction false} MulLess(x: nat, y: nat, size: nat)
    requires x < y
    ensures x * size + size <= y * size
    decreases y - x
  {
    if x + 1 < y {
      MulLess(x, y - 1, size);
    }
    assert (y - 1) * size + size == y * size;
  }

  /** Blocks lie one after another, each `size` bytes past the one before. */
  lemma BlocksApart(a: nat, size: nat, lo: nat, hi: nat)
    requires lo <= hi && 0 < size
    ensures var B := Blocks(a, size, lo, hi);
            forall i, j | 0 <= i < j < |B| :: B[i] + size <= B[j]
  {
    var B := Blocks(a, size, lo, hi);
    forall i, j | 0 <= i < j < |B| ensures B[i] + size <= B[j] {
      MulLess(lo + i, lo + j, size);
    }
  }

  /** The first `m` rounds of a linking loop: block `k` of `L` points at block `k + 1`. */
  function LinkRun(words: map<nat, nat>, L: seq<nat>, m: nat): map<nat, nat>
    requires m < |L|
  {
    if m == 0 then words else LinkRun(words, L, m - 1)[L[m - 1] := L[m]]
  }

  /** Every block of `L` points at the next one and the last one at null. */
  function Chain(words: map<nat, nat>, L: seq<nat>): map<nat, nat>
    requires L != []
  {
    LinkRun(words, L, |L| - 1)[L[|L| - 1] := 0]
  }

  ghost predicate Distinct(L: seq<nat>)
  {
    forall i, j | 0 <= i < j < |L| :: L[i] != L[j]
  }

  /** After `m` rounds the first `m` blocks point onward, and nothing else has changed. */
  lemma {:induction false} LinkRunLoads(words: map<nat, nat>, L: seq<nat>, m: nat)
    requires m < |L| && Distinct(L)
    ensures forall k | 0 <= k < m :: Load(LinkRun(words, L, m), L[k]) == L[k + 1]
    ensures forall x | x !in L[..m] :: Load(LinkRun(words, L, m), x) == Load(words, x)
    decreases m
  {
    if m > 0 {
      LinkRunLoads(words, L, m - 1);
      assert forall x | x !in L[..m] :: x !in L[..m - 1] && x != L[m - 1] by {
        assert forall x | x in L[..m - 1] :: x in L[..m];
        assert L[..m][m - 1] == L[m - 1];
      }
    }
  }

  /** Chaining distinct non-null blocks makes them a list and writes no other word. */
  lemma ChainIsList(words: map<nat, nat>, L: seq<nat>)
    requires L != [] && 0 !in L && Distinct(L)
    ensures IsList(Chain(words, L), L[0], L)
    ensures forall x | x !in L :: Load(Chain(words, L), x) == Load(words, x)
  {
    LinkRunLoads(words, L, |L| - 1);
    var w := Chain(words, L);
    forall k | 0 <= k < |L| - 1 ensures Load(w, L[k]) == L[k + 1] {
      assert L[k] != L[|L| - 1];
    }
    ListFromLinks(w, L);
    assert forall x | x !in L :: x !in L[..|L| - 1];
  }

  /** The blocks' words, `m_CentralFreeList` (the head of each class list) and, as proof
      bookkeeping, the list of each class. */
  datatype CentralState = CentralState(words: map<nat, nat>, heads: seq<nat>, lists: seq<seq<nat>>)

  /** The number of blocks of class `index` carved from a span (line 47). */
  function TotalBlocks(index: nat): nat
  {
    SPAN_BYTES / ClassSize(index)
  }

  /** The number of blocks handed out by a refill (line 48). */
  function AllocBlocks(index: nat, batch: SizeT): nat
  {
    Min(batch, TotalBlocks(index))
  }

  /** The chain a refill hands out: the first blocks of the span, or the bare span when no
      block fits in it. */
  function Handed(a: nat, index: nat, batch: SizeT): seq<nat>
  {
    var alloc := AllocBlocks(index, batch);
    if alloc == 0 then [a] else Blocks(a, ClassSize(index), 0, alloc)
  }

  /** Lines 46-78 on the span at `a`: the first blocks are chained for the caller, but only
      when there are at least two of them; the remaining blocks are chained and become the
      class list. */
  ghost function Carve(c: CentralState, index: nat, a: nat, batch: SizeT): (r: CentralState)
    requires index < |c.heads| && index < |c.lists|
    ensures |r.heads| == |c.heads| && |r.lists| == |c.lists|
  {
    var size := ClassSize(index);
    var total := TotalBlocks(index);
    var alloc := AllocBlocks(index, batch);
    var w1 := if alloc > 1 then Chain(c.words, Blocks(a, size, 0, alloc)) else c.words;
    if total > alloc then
      var R := Blocks(a, size, alloc, total);
      c.(words := Chain(w1, R), heads := c.heads[index := R[0]], lists := c.lists[index := R])
    else
      c.(words := w1)
  }

  /** The blocks carved from a span fit in it. */
  lemma TotalFits(index: nat)
    ensures TotalBlocks(index) * ClassSize(index) <= SPAN_BYTES
  {
    var size := ClassSize(index);
    assert SPAN_BYTES == TotalBlocks(index) * size + SPAN_BYTES % size;
  }

  /** Every carved block lies inside the span, with room for its `size` bytes. */
  lemma BlocksInSpan(a: nat, index: nat, lo: nat, hi: nat)
    requires lo <= hi <= TotalBlocks(index)
    ensures forall x | x in Blocks(a, ClassSize(index), lo, hi) :: a <= x && x + ClassSize(index) <= a + SPAN_BYTES
  {
    var size := ClassSize(index);
    var B := Blocks(a, size, lo, hi);
    TotalFits(index);
    forall k | 0 <= k < |B| ensures a <= B[k] && B[k] + size <= a + SPAN_BYTES {
      if lo + k + 1 < TotalBlocks(index) {
        MulLess(lo + k + 1, TotalBlocks(index), size);
      }
      assert (lo + k) * size + size == (lo + k + 1) * size;
    }
  }

  lemma BlocksDistinct(a: nat, size: nat, lo: nat, hi: nat)
    requires lo <= hi && 0 < size && 0 < a
    ensures Distinct(Blocks(a, size, lo, hi)) && 0 !in Blocks(a, size, lo, hi)
  {
    BlocksApart(a, size, lo, hi);
  }

  /** The handed-out chain and the class list together hold every carved block, each
      once, in address order. */
  lemma CarvePartition(a: nat, index: nat, batch: SizeT)
    requires 0 < AllocBlocks(index, batch) < TotalBlocks(index)
    ensures var size := ClassSize(index);
            var alloc := AllocBlocks(index, batch);
            Handed(a, index, batch) + Blocks(a, size, alloc, TotalBlocks(index)) == Blocks(a, size, 0, TotalBlocks(index))
  {
  }

  /** A refill writes no word outside the span. */
  lemma CarveFrame(c: CentralState, index: nat, a: nat, batch: SizeT)
    requires index < |c.heads| && index < |c.lists| && 0 < a
    ensures var c' := Carve(c, index, a, batch);
            forall x: nat | x < a || a + SPAN_BYTES <= x :: Load(c'.words, x) == Load(c.words, x)
  {
    var size := ClassSize(index);
    var total := TotalBlocks(index);
    var alloc := AllocBlocks(index, batch);
    var w1 := if alloc > 1 then Chain(c.words, Blocks(a, size, 0, alloc)) else c.words;
    if alloc > 1 {
      BlocksDistinct(a, size, 0, alloc);
      BlocksInSpan(a, index, 0, alloc);
      ChainIsList(c.words, Blocks(a, size, 0, alloc));
    }
    if total > alloc {
      BlocksDistinct(a, size, alloc, total);
      BlocksInSpan(a, index, alloc, total);
      ChainIsList(w1, Blocks(a, size, alloc, total));
    }
  }

  /** Every handed-out block lies below every block of the class list. */
  lemma HandedBeforeRest(a: nat, index: nat, batch: SizeT)
    requires 0 < AllocBlocks(index, batch) < TotalBlocks(index)
    ensures var H := Handed(a, index, batch);
            var R := Blocks(a, ClassSize(index), AllocBlocks(index, batch), TotalBlocks(index));
            forall x | x in H :: x !in R
  {
    var size := ClassSize(index);
    var alloc := AllocBlocks(index, batch);
    var H := Handed(a, index, batch);
    var R := Blocks(a, size, alloc, TotalBlocks(index));
    forall k, j | 0 <= k < |H| && 0 <= j < |R| ensures H[k] < R[j] {
      MulLess(k, alloc + j, size);
    }
  }

  /** The handed-out chain of a refill is a list when the span was never written. */
  lemma CarveHanded(c: CentralState, index: nat, a: nat, batch: SizeT)
    requires index < |c.heads| && index < |c.lists| && 0 < a && 0 < batch
    requires Load(c.words, a) == 0
    ensures IsList(Carve(c, index, a, batch).words, a, Handed(a, index, batch))
  {
    var size := ClassSize(index);
    var total := TotalBlocks(index);
    var alloc := AllocBlocks(index, batch);
    var H := Handed(a, index, batch);
    var w1 := if alloc > 1 then Chain(c.words, Blocks(a, size, 0, alloc)) else c.words;
    var c' := Carve(c, index, a, batch);
    if alloc > 1 {
      BlocksDistinct(a, size, 0, alloc);
      ChainIsList(c.words, H);
    } else {
      assert H == [a];
      assert IsList(w1, a, H);
    }
    if total > alloc {
      var R := Blocks(a, size, alloc, total);
      BlocksDistinct(a, size, alloc, total);
      ChainIsList(w1, R);
      HandedBeforeRest(a, index, batch);
      ListAgree(w1, c'.words, a, H);
    }
  }

  /** The blocks after the handed-out ones form the new class list. */
  lemma CarveRest(c: CentralState, index: nat, a: nat, batch: SizeT)
    requires index < |c.heads| && index < |c.lists| && 0 < a
    requires AllocBlocks(index, batch) < TotalBlocks(index)
    ensures var c' := Carve(c, index, a, batch);
            IsList(c'.words, c'.heads[index], c'.lists[index])
  {
    var size := ClassSize(index);
    var alloc := AllocBlocks(index, batch);
    var w1 := if alloc > 1 then Chain(c.words, Blocks(a, size, 0, alloc)) else c.words;
    BlocksDistinct(a, size, alloc, TotalBlocks(index));
    ChainIsList(w1, Blocks(a, size, alloc, TotalBlocks(index)));
  }

  /** The central cache's invariant, together with the page cache it carves from: every
      class list is well formed and no block is on two lists; the page cache holds no free
      span, as nothing returns pages to it; no block lies at or above the next address the
      system maps, and no word there has been written. */
  ghost predicate CentralOk(c: CentralState, ps: PageState)
  {
    ListsBelow(c, ps.brk) && Inv(ps) && ps.freeIndex == map[]
  }

  /** The class lists are well formed, disjoint and below `bound`, above which no word has
      been written. */
  ghost predicate ListsBelow(c: CentralState, bound: nat)
  {
    && |c.heads| == FREE_LIST_SIZE
    && ListsOk(c.words, c.heads, c.lists) && Disjoint(c.lists)
    && Below(c.lists, bound) && FreshAbove(c.words, bound)
  }

  /** Lines 82-100: at most `batch` blocks are walked from the head, the last one walked is
      null-terminated and the block after it becomes the head. */
  ghost function DetachFront(c: CentralState, index: nat, batch: SizeT): (r: CentralState)
    requires index < |c.heads| && index < |c.lists| && c.heads[index] != 0 && 0 < batch
    ensures |r.heads| == |c.heads| && |r.lists| == |c.lists|
  {
    var h := c.heads[index];
    var H := Walk(c.words, h, batch);
    c.(words := c.words[H[|H| - 1] := 0],
       heads := c.heads[index := Advance(c.words, h, batch)],
       lists := c.lists[index := c.lists[index][Min(|H|, |c.lists[index]|)..]])
  }

  /** `GetCacheByRange(index, batch)` (lines 13-111): the new state, the page cache's new
      state and the address returned. */
  ghost function GetRange(c: CentralState, ps: PageState, index: nat, batch: SizeT): (r: (CentralState, PageState, nat))
    requires Inv(ps) && |c.heads| == FREE_LIST_SIZE && |c.lists| == FREE_LIST_SIZE
    ensures |r.0.heads| == FREE_LIST_SIZE && |r.0.lists| == FREE_LIST_SIZE
  {
    if FREE_LIST_SIZE <= index || batch == 0 then (c, ps, 0)
    else if c.heads[index] != 0 then (DetachFront(c, index, batch), ps, c.heads[index])
    else
      var a := Allocate(ps, PagesFor(ClassSize(index)));
      var ps' := a.0;
      var g := a.1;
      if g.Granted? then (Carve(c, index, g.addr, batch), ps', g.addr) else (c, ps', 0)
  }

  /** The chain `GetRange` hands out. */
  ghost function Batch(c: CentralState, ps: PageState, index: nat, batch: SizeT): seq<nat>
    requires Inv(ps) && |c.heads| == FREE_LIST_SIZE && |c.lists| == FREE_LIST_SIZE
  {
    if FREE_LIST_SIZE <= index || batch == 0 then []
    else if c.heads[index] != 0 then Walk(c.words, c.heads[index], batch)
    else
      var a := Allocate(ps, PagesFor(ClassSize(index)));
      var g := a.1;
      if g.Granted? then Handed(g.addr, index, batch) else []
  }

  /** `SetCacheByRange(start, nSize, index)` (lines 114-151): a null start or a bad index
      changes nothing; otherwise at most `max(nSize, 1)` blocks are walked from `start`, the
      last one walked is linked to the old head and `start` becomes the head. */
  ghost function SetRange(c: CentralState, start: nat, nSize: SizeT, index: nat): (r: CentralState)
    requires |c.heads| == FREE_LIST_SIZE && |c.lists| == FREE_LIST_SIZE
    ensures |r.heads| == FREE_LIST_SIZE && |r.lists| == FREE_LIST_SIZE
  {
    if start == 0 || FREE_LIST_SIZE <= index then c
    else
      var R := Walk(c.words, start, Max1(nSize));
      c.(words := c.words[R[|R| - 1] := c.heads[index]],
         heads := c.heads[index := start],
         lists := c.lists[index := R + c.lists[index]])
  }

  /** A page request for a refill, with no free span: the span granted starts at the old
      next address, and the next address moves past the span. */
  lemma RefillPages(ps: PageState, index: nat)
    requires Inv(ps) && ps.freeIndex == map[] && index < FREE_LIST_SIZE
    requires Allocate(ps, PagesFor(ClassSize(index))).1.Granted?
    ensures var ps' := Allocate(ps, PagesFor(ClassSize(index))).0;
            var g := Allocate(ps, PagesFor(ClassSize(index))).1;
            && Inv(ps') && ps'.freeIndex == map[]
            && 0 < ps.brk && g.addr == ps.brk
            && ps.brk + (if 0 < TotalBlocks(index) then SPAN_BYTES else 1) <= ps'.brk
  {
    AllocateNoFree(ps, PagesFor(ClassSize(index)));
  }

  /** Writing the word of a block below `bound` that is on no other class list, and
      replacing class list `index` by a list of blocks below `bound` that are on no other
      class list, keeps the class lists. */
  lemma ListsBelowReplace(c: CentralState, bound: nat, index: nat, a: nat, v: nat, h: nat, L: seq<nat>)
    requires ListsBelow(c, bound) && index < FREE_LIST_SIZE && a < bound
    requires forall j | 0 <= j < |c.lists| && j != index :: a !in c.lists[j]
    requires IsList(c.words[a := v], h, L)
    requires forall x | x in L :: x < bound
    requires forall j, x | 0 <= j < |c.lists| && j != index && x in L :: x !in c.lists[j]
    ensures ListsBelow(c.(words := c.words[a := v], heads := c.heads[index := h], lists := c.lists[index := L]), bound)
  {
    var words' := c.words[a := v];
    forall j, x | 0 <= j < |c.lists| && j != index && x in c.lists[j]
      ensures Load(words', x) == Load(c.words, x)
    {
      assert x != a;
    }
    ListsReplace(c.words, words', c.heads, c.lists, index, h, L);
    DisjointReplace(c.lists, index, L);
    forall x: nat | bound <= x ensures Load(words', x) == 0 {
      assert x != a && Load(c.words, x) == 0;
    }
  }

  /** Detaching from a class list that is a list: the walk takes its first `min(batch, |L|)`
      blocks, which become a list of their own, and the rest stays the class list. */
  lemma DetachShape(c: CentralState, index: nat, batch: SizeT)
    requires index < |c.heads| && index < |c.lists| && c.heads[index] != 0 && 0 < batch
    requires IsList(c.words, c.heads[index], c.lists[index])
    ensures var L := c.lists[index];
            var m := Min(batch, |L|);
            var H := Walk(c.words, c.heads[index], batch);
            && 0 < m && H == L[..m] && L[m - 1] in L
            && IsList(c.words[L[m - 1] := 0], c.heads[index], H)
            && IsList(c.words[L[m - 1] := 0], Advance(c.words, c.heads[index], batch), L[m..])
            && DetachFront(c, index, batch) ==
                 c.(words := c.words[L[m - 1] := 0],
                    heads := c.heads[index := Advance(c.words, c.heads[index], batch)],
                    lists := c.lists[index := L[m..]])
  {
    Detach(c.words, c.heads[index], c.lists[index], batch);
  }

  /** Detaching keeps the class lists; the detached chain is the front of the class list,
      now a list of its own, and only its last block's word is written. */
  lemma DetachKeeps(c: CentralState, bound: nat, index: nat, batch: SizeT)
    requires ListsBelow(c, bound) && index < FREE_LIST_SIZE && c.heads[index] != 0 && 0 < batch
    ensures var c' := DetachFront(c, index, batch);
            var L := c.lists[index];
            var H := Walk(c.words, c.heads[index], batch);
            && ListsBelow(c', bound)
            && H != [] && |H| == Min(batch, |L|) && H == L[..|H|] && c'.lists[index] == L[|H|..]
            && IsList(c'.words, c.heads[index], H)
            && (forall j | 0 <= j < FREE_LIST_SIZE && j != index :: c'.lists[j] == c.lists[j] && c'.heads[j] == c.heads[j])
            && (forall x: nat | x !in L :: Load(c'.words, x) == Load(c.words, x))
  {
    var L := c.lists[index];
    var h := c.heads[index];
    assert IsList(c.words, h, L);
    DetachShape(c, index, batch);
    var m := Min(batch, |L|);
    assert forall x | x in L[m..] :: x in L;
    ListsBelowReplace(c, bound, index, L[m - 1], 0, Advance(c.words, h, batch), L[m..]);
  }

  /** The room a refill takes above the next address: the whole span when blocks fit in
      it, otherwise the one bare block handed out. */
  function Room(index: nat): nat
  {
    if 0 < TotalBlocks(index) then SPAN_BYTES else 1
  }

  /** What a refill may assume: the class list is empty, and the span at `a` lies above
      every block and was never written. */
  ghost predicate CarveReady(c: CentralState, a: nat, index: nat, batch: SizeT, hi: nat)
  {
    ListsBelow(c, a) && 0 < a && index < FREE_LIST_SIZE && c.heads[index] == 0 && 0 < batch
    && a + Room(index) <= hi
  }

  /** A refill keeps the other class lists and makes the carved rest the class list. */
  lemma CarveLists(c: CentralState, a: nat, index: nat, batch: SizeT, hi: nat)
    requires CarveReady(c, a, index, batch, hi)
    ensures var c' := Carve(c, index, a, batch);
            && |c'.heads| == FREE_LIST_SIZE
            && ListsOk(c'.words, c'.heads, c'.lists) && Disjoint(c'.lists) && Below(c'.lists, hi)
            && (forall x | x in c'.lists[index] :: a <= x)
            && (forall j | 0 <= j < FREE_LIST_SIZE && j != index :: c'.lists[j] == c.lists[j] && c'.heads[j] == c.heads[j])
  {
    var c' := Carve(c, index, a, batch);
    var size := ClassSize(index);
    var total := TotalBlocks(index);
    var alloc := AllocBlocks(index, batch);
    assert c.lists[index] == [] by {
      assert IsList(c.words, c.heads[index], c.lists[index]);
    }
    CarveFrame(c, index, a, batch);
    forall j, x | 0 <= j < |c.lists| && j != index && x in c.lists[j]
      ensures Load(c'.words, x) == Load(c.words, x)
    {
      assert x < a;
    }
    if total > alloc {
      var R := Blocks(a, size, alloc, total);
      CarveRest(c, index, a, batch);
      BlocksInSpan(a, index, alloc, total);
      ListsReplace(c.words, c'.words, c.heads, c.lists, index, R[0], R);
      forall j, x | 0 <= j < |c.lists| && j != index && x in R ensures x !in c.lists[j] {
        assert a <= x;
      }
      DisjointReplace(c.lists, index, R);
    } else {
      ListsReplace(c.words, c'.words, c.heads, c.lists, index, 0, []);
      assert c.heads[index := 0] == c.heads && c.lists[index := []] == c.lists;
    }
  }

  /** No word at or above `hi` is written by a refill. */
  lemma CarveFresh(c: CentralState, a: nat, index: nat, batch: SizeT, hi: nat)
    requires CarveReady(c, a, index, batch, hi)
    ensures FreshAbove(Carve(c, index, a, batch).words, hi)
  {
    var c' := Carve(c, index, a, batch);
    if 0 < TotalBlocks(index) {
      CarveFrame(c, index, a, batch);
      forall x: nat | hi <= x ensures Load(c'.words, x) == 0 {
        assert Load(c.words, x) == 0;
      }
    } else {
      assert c' == c;
      forall x: nat | hi <= x ensures Load(c'.words, x) == 0 {
        assert Load(c.words, x) == 0;
      }
    }
  }

  /** The handed-out blocks lie in `[a, hi)` and on none of the lists after a refill. */
  lemma CarveApart(c: CentralState, a: nat, index: nat, batch: SizeT, hi: nat)
    requires CarveReady(c, a, index, batch, hi)
    ensures var c' := Carve(c, index, a, batch);
            forall x | x in Handed(a, index, batch) :: a <= x < hi && OnNone(c'.lists, x)
  {
    var c' := Carve(c, index, a, batch);
    var H := Handed(a, index, batch);
    var alloc := AllocBlocks(index, batch);
    var total := TotalBlocks(index);
    if 0 < alloc {
      BlocksInSpan(a, index, 0, alloc);
    }
    if total > alloc {
      HandedBeforeRest(a, index, batch);
    } else {
      assert IsList(c.words, c.heads[index], c.lists[index]);
    }
    assert Below(c.lists, a);
  }

  /** A refill from the span at `a`: the class lists stay well formed, now below `hi`; the
      handed-out chain is a list apart from them; only the span's words change. */
  lemma CarveKeeps(c: CentralState, a: nat, index: nat, batch: SizeT, hi: nat)
    requires CarveReady(c, a, index, batch, hi)
    ensures var c' := Carve(c, index, a, batch);
            var H := Handed(a, index, batch);
            && ListsBelow(c', hi)
            && IsList(c'.words, a, H)
            && (forall x | x in H :: a <= x < hi && OnNone(c'.lists, x))
            && (forall x | x in c'.lists[index] :: a <= x)
            && (forall j | 0 <= j < FREE_LIST_SIZE && j != index :: c'.lists[j] == c.lists[j] && c'.heads[j] == c.heads[j])
            && (forall x: nat | x < a :: Load(c'.words, x) == Load(c.words, x))
  {
    CarveLists(c, a, index, batch, hi);
    CarveFresh(c, a, index, batch, hi);
    CarveApart(c, a, index, batch, hi);
    assert Load(c.words, a) == 0;
    CarveHanded(c, index, a, batch);
    CarveFrame(c, index, a, batch);
  }

  /** The detached chain is the front of the class list and on none of the lists left. */
  lemma DetachApart(c: CentralState, bound: nat, index: nat, batch: SizeT)
    requires ListsBelow(c, bound) && index < FREE_LIST_SIZE && c.heads[index] != 0 && 0 < batch
    ensures var c' := DetachFront(c, index, batch);
            forall x | x in Walk(c.words, c.heads[index], batch) :: x in c.lists[index] && OnNone(c'.lists, x)
  {
    var L := c.lists[index];
    var h := c.heads[index];
    var c' := DetachFront(c, index, batch);
    assert IsList(c.words, h, L);
    assert L != [];
    WalkOfList(c.words, h, L, batch);
    var m := Min(batch, |L|);
    ListSplitApart(c.words, h, L, m);
    assert c'.lists == c.lists[index := L[m..]];
    forall x | x in L[..m] ensures x in L && OnNone(c'.lists, x) {
      assert x in L;
    }
  }

  /** `GetCacheByRange` keeps the central cache and the page cache consistent. The chain it
      hands out is a list (null exactly when nothing is handed out), lies below the next
      address and on none of the class lists; each of its blocks came off the class list or
      from a span mapped by this call. The other classes and the words of blocks below the
      old next address and off the class list are untouched. */
  lemma GetRangeKeeps(c: CentralState, ps: PageState, index: nat, batch: SizeT)
    requires CentralOk(c, ps)
    ensures var c' := GetRange(c, ps, index, batch).0;
            var ps' := GetRange(c, ps, index, batch).1;
            var r := GetRange(c, ps, index, batch).2;
            var H := Batch(c, ps, index, batch);
            && CentralOk(c', ps')
            && ps.brk <= ps'.brk
            && (r == 0 <==> H == [])
            && (r != 0 ==> IsList(c'.words, r, H))
            && (forall x | x in H :: x < ps'.brk && OnNone(c'.lists, x))
            && (forall x | x in H :: (index < FREE_LIST_SIZE && x in c.lists[index]) || ps.brk <= x)
            && (index < FREE_LIST_SIZE ==> forall x | x in c'.lists[index] :: x in c.lists[index] || ps.brk <= x)
            && (forall j | 0 <= j < FREE_LIST_SIZE && j != index :: c'.lists[j] == c.lists[j] && c'.heads[j] == c.heads[j])
            && (forall x: nat | x < ps.brk && (FREE_LIST_SIZE <= index || x !in c.lists[index]) ::
                  Load(c'.words, x) == Load(c.words, x))
  {
    if FREE_LIST_SIZE <= index || batch == 0 {
    } else if c.heads[index] != 0 {
      DetachKeeps(c, ps.brk, index, batch);
      DetachApart(c, ps.brk, index, batch);
    } else {
      var a := Allocate(ps, PagesFor(ClassSize(index)));
      var ps' := a.0;
      var g := a.1;
      AllocateNoFree(ps, PagesFor(ClassSize(index)));
      if g.Granted? {
        RefillPages(ps, index);
        CarveKeeps(c, ps.brk, index, batch, ps'.brk);
      }
    }
  }

  /** Putting back a chain that is a list: the walk takes its first `max(nSize, 1)` blocks. */
  lemma SetRangeShape(c: CentralState, start: nat, nSize: SizeT, index: nat, C: seq<nat>)
    requires |c.heads| == FREE_LIST_SIZE && |c.lists| == FREE_LIST_SIZE
    requires IsList(c.words, start, C) && start != 0 && index < FREE_LIST_SIZE
    ensures var m := Min(Max1(nSize), |C|);
            && 0 < m && C[m - 1] in C
            && SetRange(c, start, nSize, index) ==
                 c.(words := c.words[C[m - 1] := c.heads[index]],
                    heads := c.heads[index := start],
                    lists := c.lists[index := C[..m] + c.lists[index]])
  {
    WalkOfList(c.words, start, C, Max1(nSize));
  }

  /** `SetCacheByRange` with a chain `C` that is a list below the next address and on none
      of the class lists keeps the central cache consistent: the walked front of `C` goes
      in front of the class list, no other class changes and only the word of the last
      block walked is written. */
  lemma SetRangeKeeps(c: CentralState, ps: PageState, start: nat, nSize: SizeT, index: nat, C: seq<nat>)
    requires CentralOk(c, ps)
    requires IsList(c.words, start, C)
    requires forall x | x in C :: x < ps.brk && OnNone(c.lists, x)
    ensures var c' := SetRange(c, start, nSize, index);
            && CentralOk(c', ps)
            && (start != 0 && index < FREE_LIST_SIZE ==>
                  c'.heads[index] == start && c'.lists[index] == C[..Min(Max1(nSize), |C|)] + c.lists[index])
            && (forall j | 0 <= j < FREE_LIST_SIZE && j != index :: c'.lists[j] == c.lists[j] && c'.heads[j] == c.heads[j])
            && (forall x: nat | x !in C :: Load(c'.words, x) == Load(c.words, x))
  {
    if start != 0 && index < FREE_LIST_SIZE {
      var L := c.lists[index];
      var m := Min(Max1(nSize), |C|);
      SetRangeShape(c, start, nSize, index, C);
      assert IsList(c.words, c.heads[index], L);
      assert forall x | x in C[..m] :: x in C;
      PrefixAppend(c.words, start, C, m, c.heads[index], L);
      assert forall x | x in C[..m] + L :: x in C || x in L;
      ListsBelowReplace(c, ps.brk, index, C[m - 1], c.heads[index], start, C[..m] + L);
    }
  }

  /** Putting a chain back and then asking for a batch of the class returns the chain's
      start, and the blocks handed out are the front of the chain put back. */
  lemma SetThenGet(c: CentralState, ps: PageState, start: nat, nSize: SizeT, index: nat, batch: SizeT, C: seq<nat>)
    requires CentralOk(c, ps)
    requires IsList(c.words, start, C)
    requires forall x | x in C :: x < ps.brk && OnNone(c.lists, x)
    requires start != 0 && index < FREE_LIST_SIZE && 0 < batch
    ensures var c' := SetRange(c, start, nSize, index);
            var m := Min(Max1(nSize), |C|);
            && GetRange(c', ps, index, batch).2 == start
            && (batch <= m ==> Batch(c', ps, index, batch) == C[..batch])
  {
    var c' := SetRange(c, start, nSize, index);
    var m := Min(Max1(nSize), |C|);
    SetRangeKeeps(c, ps, start, nSize, index, C);
    var L' := c'.lists[index];
    assert IsList(c'.words, start, L');
    WalkOfList(c'.words, start, L', batch);
    if batch <= m {
      assert L'[..batch] == C[..batch];
    }
  }

  /** Giving a fetched batch straight back restores the class list and its head. */
  lemma GetThenSet(c: CentralState, ps: PageState, index: nat, batch: SizeT)
    requires Inv(ps) && |c.heads| == FREE_LIST_SIZE && |c.lists| == FREE_LIST_SIZE
    requires index < FREE_LIST_SIZE && 0 < batch && c.heads[index] != 0
    requires IsList(c.words, c.heads[index], c.lists[index])
    ensures var c' := GetRange(c, ps, index, batch).0;
            var ps' := GetRange(c, ps, index, batch).1;
            var r := GetRange(c, ps, index, batch).2;
            var H := Batch(c, ps, index, batch);
            var c'' := SetRange(c', r, |H|, index);
            c''.lists == c.lists && c''.heads == c.heads
  {
    var L := c.lists[index];
    var h := c.heads[index];
    var m := Min(batch, |L|);
    assert L[..m][..m] + L[m..] == L by {
      assert L[..m][..m] == L[..m];
    }
    assert c.lists[index := L[m..]][index := L] == c.lists;
    assert c.heads[index := Advance(c.words, h, batch)][index := h] == c.heads;
    DetachShape(c, index, batch);
    var c' := DetachFront(c, index, batch);
    SetRangeShape(c', h, m, index, L[..m]);
  }

  /** `MahjongCentralCache`: `m_CentralFreeList`, the head of each class list, with the
      memory holding the blocks' words and the page cache spans are carved from. */
  class MahjongCentralCache {
    const mem: Memory
    const page: MahjongPageCache
    const freeList: array<nat>
    ghost var lists: seq<seq<nat>>

    ghost function State(): CentralState
      reads this, mem, freeList
    {
      CentralState(mem.words, freeList[..], lists)
    }

    ghost predicate Valid()
      reads this, mem, freeList, page
    {
      freeList.Length == FREE_LIST_SIZE && |lists| == FREE_LIST_SIZE && CentralOk(State(), page.State())
    }

    /** Every class list starts empty. */
    constructor (mem: Memory, page: MahjongPageCache)
      requires page.Valid() && page.freeIndex == map[] && FreshAbove(mem.words, page.brk)
      ensures Valid() && this.mem == mem && this.page == page && fresh(freeList)
      ensures State().words == mem.words && forall i | 0 <= i < FREE_LIST_SIZE :: State().lists[i] == []
    {
      this.mem := mem;
      this.page := page;
      freeList := new nat[FREE_LIST_SIZE](_ => 0);
      lists := seq(FREE_LIST_SIZE, _ => []);
    }

    /** `GetCacheByPageCacheSize` (lines 155-171). */
    method GetCacheByPageCacheSize(size: SizeT) returns (g: Grant)
      requires page.Valid()
      modifies page
      ensures page.Valid()
      ensures (page.State(), g) == Allocate(old(page.State()), PagesFor(size))
    {
      var pages := Wrap(size + PAGESIZE - 1) / PAGESIZE;
      if size <= SPAN_BYTES {
        g := page.NewCacheByPageNum(PAGECACHESIZE);
      } else {
        g := page.NewCacheByPageNum(pages);
      }
    }

    /** The linking loops of lines 53-60 and 68-75: each block from `lo` on points at the
        next one, and block `hi - 1` at null. */
    method LinkBlocks(a: nat, size: nat, lo: nat, hi: nat)
      requires lo < hi
      modifies mem
      ensures mem.words == Chain(old(mem.words), Blocks(a, size, lo, hi))
    {
      ghost var B := Blocks(a, size, lo, hi);
      ghost var w0 := mem.words;
      var i := lo + 1;
      while i < hi
        invariant lo + 1 <= i <= hi
        invariant mem.words == LinkRun(w0, B, i - lo - 1)
      {
        mem.words := mem.words[a + (i - 1) * size := a + i * size];
        i := i + 1;
      }
      mem.words := mem.words[a + (hi - 1) * size := 0];
    }

    /** Lines 46-78: the span at `a` is cut into blocks of the class. */
    method CarveSpan(index: nat, a: nat, batch: SizeT)
      requires freeList.Length == FREE_LIST_SIZE && |lists| == FREE_LIST_SIZE && index < FREE_LIST_SIZE
      modifies this, mem, freeList
      ensures State() == Carve(old(State()), index, a, batch)
    {
      var size := (index + 1) * ALIGNMENT;
      var total := SPAN_BYTES / size;
      var alloc := Min(batch, total);
      if alloc > 1 {
        LinkBlocks(a, size, 0, alloc);
      }
      if total > alloc {
        LinkBlocks(a, size, alloc, total);
        freeList[index] := a + alloc * size;
        lists := lists[index := Blocks(a, size, alloc, total)];
      }
    }

    /** Lines 82-100: at most `batch` blocks are walked from the head; the last one walked
        is null-terminated and the block after it becomes the head. */
    method TakeBatch(index: nat, batch: SizeT)
      requires freeList.Length == FREE_LIST_SIZE && |lists| == FREE_LIST_SIZE && index < FREE_LIST_SIZE
      requires freeList[index] != 0 && 0 < batch
      requires IsList(mem.words, freeList[index], lists[index])
      modifies this, mem, freeList
      ensures State() == DetachFront(old(State()), index, batch)
    {
      ghost var c := State();
      ghost var L := lists[index];
      DetachShape(c, index, batch);
      WalkOfList(mem.words, freeList[index], L, batch);
      var temp, cur, count := WalkBatch(freeList[index], batch, L);
      if temp != 0 {
        mem.words := mem.words[temp := 0];
      }
      freeList[index] := cur;
      lists := lists[index := L[count..]];
    }

    /** Lines 83-92: the walk of at most `batch` blocks from `h`, ending at the last block
        walked, `temp`, with `cur` the block after it. */
    method WalkBatch(h: nat, batch: SizeT, ghost L: seq<nat>) returns (temp: nat, cur: nat, count: nat)
      requires h != 0 && 0 < batch && IsList(mem.words, h, L)
      ensures count == Min(batch, |L|) && 0 < count
      ensures temp == L[count - 1] && cur == (if count < |L| then L[count] else 0)
    {
      ListNonNull(mem.words, h, L);
      cur := h;
      temp := 0;
      count := 0;
      while cur != 0 && count < batch
        invariant count <= batch && count <= |L|
        invariant cur == if count < |L| then L[count] else 0
        invariant temp == if count == 0 then 0 else L[count - 1]
        decreases batch - count
      {
        ListLink(mem.words, h, L, count);
        temp := cur;
        cur := Load(mem.words, cur);
        count := count + 1;
      }
    }

    /** `GetCacheByRange(index, batch)` (lines 13-111): the start of a chain of at most
        `batch` blocks of the class, or null. */
    method GetCacheByRange(index: SizeT, batch: SizeT) returns (r: nat)
      requires Valid()
      modifies this, mem, freeList, page
      ensures Valid()
      ensures (State(), page.State(), r) == GetRange(old(State()), old(page.State()), index, batch)
    {
      if index >= FREE_LIST_SIZE || batch == 0 {
        return 0;
      }
      GetRangeKeeps(State(), page.State(), index, batch);
      r := freeList[index];
      if r == 0 {
        var g := GetCacheByPageCacheSize((index + 1) * ALIGNMENT);
        if !g.Granted? {
          return 0;
        }
        r := g.addr;
        CarveSpan(index, r, batch);
      } else {
        TakeBatch(index, batch);
      }
    }

    /** `SetCacheByRange(start, nSize, index)` (lines 114-152): the chain `C` headed by
        `start` is walked for at most `max(nSize, 1)` blocks and the walked blocks go in
        front of the class list. */
    method SetCacheByRange(start: nat, nSize: SizeT, index: SizeT, ghost C: seq<nat>)
      requires Valid()
      requires IsList(mem.words, start, C)
      requires forall x | x in C :: x < page.brk && OnNone(lists, x)
      modifies this, mem, freeList
      ensures Valid()
      ensures State() == SetRange(old(State()), start, nSize, index)
    {
      if start == 0 || index >= FREE_LIST_SIZE {
        return;
      }
      ghost var c := State();
      SetRangeKeeps(c, page.State(), start, nSize, index, C);
      SetRangeShape(c, start, nSize, index, C);
      ListNonNull(mem.words, start, C);
      var end := start;
      var count := 1;
      while Load(mem.words, end) != 0 && count < nSize
        invariant 1 <= count <= |C| && count <= Max1(nSize) && State() == c
        invariant end == C[count - 1]
        decreases |C| - count
      {
        ListLink(mem.words, start, C, count - 1);
        end := Load(mem.words, end);
        count := count + 1;
      }
      ListLink(mem.words, start, C, count - 1);
      assert count == Min(Max1(nSize), |C|);
      var cur := freeList[index];
      mem.words := mem.words[end := cur];
      freeList[index] := start;
      lists := lists[index := C[..count] + lists[index]];
      assert State() == SetRange(c, start, nSize, index);
    }
  }
}
