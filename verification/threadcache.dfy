/** The thread cache (common/mahjongthreadcache.cpp): one free list of blocks per size class
    with a count beside each list. Small requests pop from the list of their class, frees
    push onto it; an empty list is filled with a batch from the central cache, and a list
    whose count passes the threshold is trimmed back to it. */
module ThreadCache {

  import opened Common
  import opened FreeList
  import opened PageCache
  import opened CentralCache

  /** The batch size of the table in lines 153-176, before the cap: at most 64 blocks, and
      none only above 1024 bytes. */
  function BaseNum(size: SizeT): (r: nat)
    ensures r <= 64
    ensures r == 0 <==> 1024 < size
  {
    if size <= 32 then 64
    else if size <= 64 then 32
    else if size <= 128 then 16
    else if size <= 256 then 8
    else if size <= 512 then 4
    else if size <= 1024 then 2
    else 0
  }

  /** `GetBatchNumByCentralCache` (lines 148-181): the table value, capped so that a batch
      holds at most MAX_BATCH_SIZE bytes, and at least 1. */
  function GetBatchNum(size: SizeT): (r: SizeT)
    requires 0 < size
    ensures 1 <= r <= 64
  {
    var maxNum := Max(1, MAX_BATCH_SIZE / size);
    Max(1, Min(maxNum, BaseNum(size)))
  }

  /** The cap never binds: the batch is exactly the table value, or 1 above 1024 bytes. */
  lemma BatchFollowsTable(size: SizeT)
    requires 0 < size
    ensures GetBatchNum(size) == Max(1, BaseNum(size))
    ensures size <= 1024 ==> GetBatchNum(size) * size <= MAX_BATCH_SIZE
  {
    if size <= 32 {
      QuotientAtLeast(MAX_BATCH_SIZE, size, 64);
    } else if size <= 64 {
      QuotientAtLeast(MAX_BATCH_SIZE, size, 32);
    } else if size <= 128 {
      QuotientAtLeast(MAX_BATCH_SIZE, size, 16);
    } else if size <= 256 {
      QuotientAtLeast(MAX_BATCH_SIZE, size, 8);
    } else if size <= 512 {
      QuotientAtLeast(MAX_BATCH_SIZE, size, 4);
    } else if size <= 1024 {
      QuotientAtLeast(MAX_BATCH_SIZE, size, 2);
    }
  }

  /** A count of `d`-sized items that fits in `n` is at most `n / d`. */
  lemma QuotientAtLeast(n: nat, d: nat, b: nat)
    requires 0 < d && b * d <= n
    ensures b <= n / d
  {
    if n / d < b {
      MulLess(n / d, b, d);
    }
  }

  /** Larger blocks never come in larger batches. */
  lemma BatchNonIncreasing(a: SizeT, b: SizeT)
    requires 0 < a <= b
    ensures GetBatchNum(b) <= GetBatchNum(a)
  {
    BatchFollowsTable(a);
    BatchFollowsTable(b);
  }

  /** `CheckIsReturnCacheToByCacheCentral` (lines 184-188): a trim is called for exactly
      when the count exceeds 64, and then the trim's `keep = max(count / 4, 1)` lowers the
      count, to at least 16. */
  function CheckIsReturn(count: SizeT): (r: bool)
    ensures r ==> SYSTEM_THRESHOLD < count
    ensures r ==> 16 <= Max(count / 4, 1) < count
    ensures !r ==> count <= SYSTEM_THRESHOLD
  {
    count > SYSTEM_THRESHOLD
  }

  /** `m_FreeList` (the head of each class list), `m_FreeListSize` (the count beside it)
      and, as proof bookkeeping, the list of each class. */
  datatype ThreadState = ThreadState(heads: seq<nat>, counts: seq<SizeT>, lists: seq<seq<nat>>)

  /** A thread cache with the central cache and page cache behind it; the blocks' words
      are the central state's. */
  datatype Pool = Pool(t: ThreadState, c: CentralState, ps: PageState)

  ghost predicate Shaped(p: Pool)
  {
    && |p.t.heads| == FREE_LIST_SIZE && |p.t.counts| == FREE_LIST_SIZE && |p.t.lists| == FREE_LIST_SIZE
    && |p.c.heads| == FREE_LIST_SIZE && |p.c.lists| == FREE_LIST_SIZE
  }

  /** The blocks after the head of a list. */
  function Rest(L: seq<nat>): seq<nat>
  {
    if L == [] then [] else L[1..]
  }

  /** The pool's invariant: the central cache's, and the thread's lists are well formed,
      pairwise disjoint, apart from the central lists and below the next address. */
  ghost predicate PoolOk(p: Pool)
  {
    && Shaped(p) && CentralOk(p.c, p.ps)
    && ListsOk(p.c.words, p.t.heads, p.t.lists) && Disjoint(p.t.lists)
    && Apart(p.t.lists, p.c.lists) && Below(p.t.lists, p.ps.brk)
  }

  /** Block `x` belongs to the caller: it lies below the next address and is on no list. */
  ghost predicate Owned(p: Pool, x: nat)
  {
    x != 0 && x < p.ps.brk && OnNone(p.t.lists, x) && OnNone(p.c.lists, x)
  }

  /** `GetCacheByCentralCache(index)` (lines 66-94) on an empty class list: a batch is asked
      of the central cache and its first block returned; only when more than one block was
      asked for does the head take the first block's successor, and the count is left as
      it is. */
  ghost function Fetch(p: Pool, index: nat): (r: (Pool, nat))
    requires Shaped(p) && Inv(p.ps) && index < FREE_LIST_SIZE
    ensures Shaped(r.0)
  {
    var batch := GetBatchNum(ClassSize(index));
    var g := GetRange(p.c, p.ps, index, batch);
    var c' := g.0;
    var ps' := g.1;
    var start := g.2;
    if start == 0 then (p.(c := c', ps := ps'), 0)
    else if batch > 1 then
      var H := Batch(p.c, p.ps, index, batch);
      var t' := p.t.(heads := p.t.heads[index := Load(c'.words, start)], lists := p.t.lists[index := Rest(H)]);
      (Pool(t', c', ps'), start)
    else (p.(c := c', ps := ps'), start)
  }

  /** `MahjongNewCache(size)` (lines 8-38): size 0 is served as 8 bytes and sizes above
      MAX_BYTES by `malloc`, whose result is `fromMalloc`; otherwise the class count drops
      by one (wrapping below 0), and the head is popped or, on an empty list, a batch is
      fetched. */
  ghost function NewCache(p: Pool, size: SizeT, fromMalloc: nat): (r: (Pool, nat))
    requires Shaped(p) && Inv(p.ps)
    ensures Shaped(r.0)
  {
    var n := if size == 0 then ALIGNMENT else size;
    if n > MAX_BYTES then (p, fromMalloc)
    else
      var index := GetIndex(n);
      var p1 := p.(t := p.t.(counts := p.t.counts[index := Wrap(p.t.counts[index] as int - 1)]));
      var h := p.t.heads[index];
      if h != 0 then
        (p1.(t := p1.t.(heads := p1.t.heads[index := Load(p.c.words, h)],
                        lists := p1.t.lists[index := Rest(p.t.lists[index])])), h)
      else Fetch(p1, index)
  }

  /** Lines 128-133: `start` is null-terminated and becomes the whole class list, with
      `keep` as its count. */
  ghost function Cut(p: Pool, start: nat, index: nat, keep: SizeT): (r: Pool)
    requires Shaped(p) && index < FREE_LIST_SIZE
    ensures Shaped(r) && r.ps == p.ps
  {
    Pool(p.t.(heads := p.t.heads[index := start], counts := p.t.counts[index := keep],
              lists := p.t.lists[index := [start]]),
         p.c.(words := p.c.words[start := 0]), p.ps)
  }

  /** `SetCacheToCentralCache(start, size)` (lines 97-145) with `start` the class head: a
      count of at most 1 changes nothing. Otherwise `keep = max(count / 4, 1)`; the split
      loop never advances past `start` (line 117), so `start` is cut off as the whole class
      list, the count becomes `keep`, and the chain after `start` goes to the central cache
      with `(count - keep) * RoundUp(size)` (wrapping) as its block bound. */
  ghost function Trim(p: Pool, start: nat, size: SizeT): (r: Pool)
    requires Shaped(p) && size <= MAX_BYTES
    ensures Shaped(r) && r.ps == p.ps
  {
    GetIndexInRange(size);
    var index := GetIndex(size);
    var count := p.t.counts[index];
    if count <= 1 || start == 0 then p
    else
      var keep := Max(count / 4, 1);
      var result := count - keep;
      var next := Load(p.c.words, start);
      var p1 := Cut(p, start, index, keep);
      if result > 0 && next != 0 then p1.(c := SetRange(p1.c, next, Wrap(result * RoundUp(size)), index)) else p1
  }

  /** Lines 54-56: `ptr` is pushed on class list `index` and the count rises by one,
      wrapping. */
  ghost function PushHead(p: Pool, ptr: nat, index: nat): (r: Pool)
    requires Shaped(p) && index < FREE_LIST_SIZE
    ensures Shaped(r) && r.ps == p.ps
  {
    Pool(p.t.(heads := p.t.heads[index := ptr], counts := p.t.counts[index := Wrap(p.t.counts[index] as int + 1)],
              lists := p.t.lists[index := [ptr] + p.t.lists[index]]),
         p.c.(words := p.c.words[ptr := p.t.heads[index]]), p.ps)
  }

  /** `MahjongDeleteCache(ptr, size)` (lines 41-63): sizes above MAX_BYTES go to `free`;
      otherwise `ptr` is pushed on its class list, and a count above the threshold then
      trims the list. */
  ghost function DeleteCache(p: Pool, ptr: nat, size: SizeT): (r: Pool)
    requires Shaped(p)
    ensures Shaped(r) && r.ps == p.ps
  {
    if size > MAX_BYTES then p
    else
      GetIndexInRange(size);
      var index := GetIndex(size);
      var p1 := PushHead(p, ptr, index);
      if CheckIsReturn(p1.t.counts[index]) then Trim(p1, ptr, size) else p1
  }

  /** Replacing thread list `index` and the words: the pool stays consistent when the new
      words agree on every other list's blocks and stay fresh above the next address, and
      the new list's blocks lie below it and on no other list. */
  lemma ThreadReplace(p: Pool, words': map<nat, nat>, counts: seq<SizeT>, index: nat, h: nat, L: seq<nat>)
    requires PoolOk(p) && index < FREE_LIST_SIZE && |counts| == FREE_LIST_SIZE
    requires forall j, x | 0 <= j < FREE_LIST_SIZE && x in p.c.lists[j] :: Load(words', x) == Load(p.c.words, x)
    requires forall j, x | 0 <= j < FREE_LIST_SIZE && j != index && x in p.t.lists[j] :: Load(words', x) == Load(p.c.words, x)
    requires FreshAbove(words', p.ps.brk)
    requires IsList(words', h, L)
    requires forall x | x in L :: x < p.ps.brk && OnNone(p.c.lists, x)
    requires forall j, x | 0 <= j < FREE_LIST_SIZE && j != index && x in L :: x !in p.t.lists[j]
    ensures PoolOk(Pool(p.t.(heads := p.t.heads[index := h], counts := counts, lists := p.t.lists[index := L]),
                        p.c.(words := words'), p.ps))
  {
    ListsAgree(p.c.words, words', p.c.heads, p.c.lists);
    ListsReplace(p.c.words, words', p.t.heads, p.t.lists, index, h, L);
    DisjointReplace(p.t.lists, index, L);
  }

  /** The central cache and the page cache may change under the thread lists when the
      words of the thread's blocks are kept and the new central lists stay apart from
      them. */
  lemma ThreadKept(p: Pool, c': CentralState, ps': PageState)
    requires PoolOk(p) && CentralOk(c', ps') && |c'.lists| == FREE_LIST_SIZE && p.ps.brk <= ps'.brk
    requires forall j, x | 0 <= j < FREE_LIST_SIZE && x in p.t.lists[j] :: Load(c'.words, x) == Load(p.c.words, x)
    requires Apart(p.t.lists, c'.lists)
    ensures PoolOk(Pool(p.t, c', ps'))
  {
    ListsAgree(p.c.words, c'.words, p.t.heads, p.t.lists);
  }

  /** Pushing a block the caller owns keeps the pool consistent. */
  lemma PushHeadKeeps(p: Pool, ptr: nat, index: nat)
    requires PoolOk(p) && index < FREE_LIST_SIZE && Owned(p, ptr)
    ensures PoolOk(PushHead(p, ptr, index))
  {
    var L := p.t.lists[index];
    var words' := p.c.words[ptr := p.t.heads[index]];
    assert IsList(p.c.words, p.t.heads[index], L);
    ListPush(p.c.words, p.t.heads[index], L, ptr);
    forall x: nat | p.ps.brk <= x ensures Load(words', x) == 0 {
      assert x != ptr && Load(p.c.words, x) == 0;
    }
    ThreadReplace(p, words', PushHead(p, ptr, index).t.counts, index, ptr, [ptr] + L);
  }

  /** Cutting the class list after its head `start`: the pool stays consistent, and the
      blocks after `start` form a list that is on no list any more. */
  lemma CutKeeps(p: Pool, start: nat, index: nat, keep: SizeT)
    requires PoolOk(p) && index < FREE_LIST_SIZE && start == p.t.heads[index] && start != 0
    ensures var p1 := Cut(p, start, index, keep);
            var L := p.t.lists[index];
            && PoolOk(p1) && L != []
            && IsList(p1.c.words, Load(p.c.words, start), Rest(L))
            && (forall x | x in Rest(L) :: x < p.ps.brk && OnNone(p1.c.lists, x) && OnNone(p1.t.lists, x))
  {
    var L := p.t.lists[index];
    var words := p.c.words;
    var words' := words[start := 0];
    var p1 := Cut(p, start, index, keep);
    assert IsList(words, start, L);
    ListNext(words, start, L);
    ListFrame(words, Load(words, start), L[1..], start, 0);
    assert start in L && start < p.ps.brk;
    forall x: nat | p.ps.brk <= x ensures Load(words', x) == 0 {
      assert x != start && Load(words, x) == 0;
    }
    assert IsList(words', start, [start]) by {
      assert [start][1..] == [];
    }
    ThreadReplace(p, words', p1.t.counts, index, start, [start]);
    forall x | x in L[1..] ensures x in L {
    }
  }


  /** Proof step for the trim method: the branch of `Trim` taken with a head and a count
      above 1. */
  lemma TrimUnfold(p: Pool, start: nat, size: SizeT, index: nat, keep: SizeT)
    requires Shaped(p) && size <= MAX_BYTES && index == GetIndex(size) && index < FREE_LIST_SIZE
    requires 1 < p.t.counts[index] && start != 0 && keep == Max(p.t.counts[index] / 4, 1)
    ensures var p1 := Cut(p, start, index, keep);
            var next := Load(p.c.words, start);
            Trim(p, start, size)
              == if next != 0
                 then p1.(c := SetRange(p1.c, next, Wrap((p.t.counts[index] - keep) * RoundUp(size)), index))
                 else p1
  {
  }

  /** A trim called with the class head leaves that head in place. */
  lemma TrimHead(p: Pool, start: nat, size: SizeT)
    requires Shaped(p) && size <= MAX_BYTES && GetIndex(size) < FREE_LIST_SIZE
    requires start == p.t.heads[GetIndex(size)]
    ensures Trim(p, start, size).t.heads[GetIndex(size)] == start
  {
  }

  /** Handing a chain that is on no list to the central cache keeps the pool consistent. */
  lemma SendKeeps(p: Pool, start: nat, nSize: SizeT, index: nat, C: seq<nat>)
    requires PoolOk(p) && index < FREE_LIST_SIZE && IsList(p.c.words, start, C)
    requires forall x | x in C :: x < p.ps.brk && OnNone(p.c.lists, x) && OnNone(p.t.lists, x)
    ensures PoolOk(p.(c := SetRange(p.c, start, nSize, index)))
  {
    var c2 := SetRange(p.c, start, nSize, index);
    SetRangeKeeps(p.c, p.ps, start, nSize, index, C);
    forall i, j, x | 0 <= i < FREE_LIST_SIZE && 0 <= j < FREE_LIST_SIZE && x in p.t.lists[i]
      ensures x !in c2.lists[j]
    {
      assert x !in C && x !in p.c.lists[j];
    }
    ThreadKept(p, c2, p.ps);
  }

  /** Trimming the class list from its head keeps the pool consistent and the head in
      place. */
  lemma TrimKeeps(p: Pool, start: nat, size: SizeT)
    requires PoolOk(p) && size <= MAX_BYTES && start == p.t.heads[GetIndex(size)]
    ensures PoolOk(Trim(p, start, size)) && Trim(p, start, size).t.heads[GetIndex(size)] == start
  {
    GetIndexInRange(size);
    var index := GetIndex(size);
    var count := p.t.counts[index];
    if 1 < count && start != 0 {
      var keep := Max(count / 4, 1);
      var result := count - keep;
      var next := Load(p.c.words, start);
      var p1 := Cut(p, start, index, keep);
      var C := Rest(p.t.lists[index]);
      CutKeeps(p, start, index, keep);
      if result > 0 && next != 0 {
        SendKeeps(p1, next, Wrap(result * RoundUp(size)), index, C);
      }
    }
  }

  /** What a trim from the class head does. With a count of at most 1, or no head, nothing
      changes. Otherwise the head alone stays on the thread list, with `keep` as its count;
      the first blocks after it, as many as the byte bound of line 140 lets the walk take,
      go in front of the central list of the class, which the next of them heads; every
      other class, and the page cache, are unchanged. */
  lemma TrimEffect(p: Pool, size: SizeT)
    requires PoolOk(p) && size <= MAX_BYTES
    ensures GetIndex(size) < FREE_LIST_SIZE
    ensures var index := GetIndex(size);
            var start := p.t.heads[index];
            (p.t.counts[index] <= 1 || start == 0) ==> Trim(p, start, size) == p
    ensures var index := GetIndex(size);
            var start := p.t.heads[index];
            var count := p.t.counts[index];
            var keep := Max(count / 4, 1);
            var C := Rest(p.t.lists[index]);
            var m := Min(Max1(Wrap((count - keep) * RoundUp(size))), |C|);
            var q := Trim(p, start, size);
            1 < count && start != 0 ==>
              && q.t.heads[index] == start && q.t.lists[index] == [start] && q.t.counts[index] == keep
              && q.c.lists[index] == C[..m] + p.c.lists[index]
              && q.c.heads[index] == (if C == [] then p.c.heads[index] else C[0])
              && q.ps == p.ps
              && (forall j | 0 <= j < FREE_LIST_SIZE && j != index ::
                    && q.t.heads[j] == p.t.heads[j] && q.t.counts[j] == p.t.counts[j]
                    && q.t.lists[j] == p.t.lists[j]
                    && q.c.heads[j] == p.c.heads[j] && q.c.lists[j] == p.c.lists[j])
  {
    GetIndexInRange(size);
    var index := GetIndex(size);
    var start := p.t.heads[index];
    var count := p.t.counts[index];
    if 1 < count && start != 0 {
      var keep := Max(count / 4, 1);
      var L := p.t.lists[index];
      var C := Rest(L);
      var next := Load(p.c.words, start);
      var p1 := Cut(p, start, index, keep);
      CutKeeps(p, start, index, keep);
      ListNext(p.c.words, start, L);
      if next != 0 {
        var nSize := Wrap((count - keep) * RoundUp(size));
        SetRangeKeeps(p1.c, p1.ps, next, nSize, index, C);
      } else {
        assert C == [];
      }
    }
  }

  /** A trim of size class 0 for a size of 0 (line 140): `RoundUp(0)` is 0, so the bound
      handed to `SetCacheByRange` is 0, which walks one block all the same. Exactly the block
      after the head goes back; the rest of the chain is on neither class-0 list afterwards. */
  lemma {:induction false} TrimSizeZero(p: Pool)
    requires PoolOk(p)
    ensures var start := p.t.heads[0];
            var C := Rest(p.t.lists[0]);
            var q := Trim(p, start, 0);
            1 < p.t.counts[0] && start != 0 ==>
              && q.t.lists[0] == [start]
              && q.c.lists[0] == (if C == [] then [] else [C[0]]) + p.c.lists[0]
  {
    TrimEffect(p, 0);
    var C := Rest(p.t.lists[0]);
    if C != [] {
      assert C[..1] == [C[0]];
    }
  }

  /** Freeing a block the caller owns keeps the pool consistent and leaves it the head of
      its class list; a large block, which goes to `free`, may be any pointer. */
  lemma DeleteKeeps(p: Pool, ptr: nat, size: SizeT)
    requires PoolOk(p) && (size <= MAX_BYTES ==> Owned(p, ptr))
    ensures PoolOk(DeleteCache(p, ptr, size))
    ensures size <= MAX_BYTES ==> DeleteCache(p, ptr, size).t.heads[GetIndex(size)] == ptr
  {
    if size <= MAX_BYTES {
      GetIndexInRange(size);
      var index := GetIndex(size);
      PushHeadKeeps(p, ptr, index);
      var p1 := PushHead(p, ptr, index);
      if CheckIsReturn(p1.t.counts[index]) {
        TrimKeeps(p1, ptr, size);
      }
    }
  }

  /** The central step of a fetch: the thread lists stay consistent with the central
      cache's new state, and the batch is a list apart from every list. */
  lemma FetchCentral(p: Pool, index: nat, batch: SizeT)
    requires PoolOk(p) && index < FREE_LIST_SIZE && p.t.heads[index] == 0
    ensures var g := GetRange(p.c, p.ps, index, batch);
            var H := Batch(p.c, p.ps, index, batch);
            && PoolOk(Pool(p.t, g.0, g.1)) && p.ps.brk <= g.1.brk
            && (g.2 != 0 ==> H != [] && H[0] == g.2 && IsList(g.0.words, g.2, H))
            && (forall x | x in H :: x < g.1.brk && OnNone(g.0.lists, x) && OnNone(p.t.lists, x))
  {
    var g := GetRange(p.c, p.ps, index, batch);
    var H := Batch(p.c, p.ps, index, batch);
    GetRangeKeeps(p.c, p.ps, index, batch);
    assert p.t.lists[index] == [] by {
      assert IsList(p.c.words, p.t.heads[index], p.t.lists[index]);
    }
    forall j, x | 0 <= j < FREE_LIST_SIZE && x in p.t.lists[j]
      ensures Load(g.0.words, x) == Load(p.c.words, x) && x !in g.0.lists[index]
    {
      assert x < p.ps.brk && x !in p.c.lists[index];
    }
    ThreadKept(p, g.0, g.1);
    forall x | x in H ensures OnNone(p.t.lists, x) {
      assert (x in p.c.lists[index]) || p.ps.brk <= x;
    }
  }

  /** A fetch on an empty class list keeps the pool consistent, never lowers the next
      address, and hands the caller a block it owns (or null). */
  lemma FetchKeeps(p: Pool, index: nat)
    requires PoolOk(p) && index < FREE_LIST_SIZE && p.t.heads[index] == 0
    ensures var f := Fetch(p, index);
            && PoolOk(f.0) && p.ps.brk <= f.0.ps.brk
            && (f.1 != 0 ==> Owned(f.0, f.1))
  {
    var batch := GetBatchNum(ClassSize(index));
    var g := GetRange(p.c, p.ps, index, batch);
    var H := Batch(p.c, p.ps, index, batch);
    FetchCentral(p, index, batch);
    if g.2 != 0 && batch > 1 {
      var p2 := Pool(p.t, g.0, g.1);
      ListNext(g.0.words, g.2, H);
      ThreadReplace(p2, g.0.words, p.t.counts, index, Load(g.0.words, g.2), H[1..]);
      assert H[0] in H && H[0] !in H[1..];
    }
  }

  /** Popping the head of a non-empty class list keeps the pool consistent and hands the
      caller the head, which it then owns. */
  lemma PopKeeps(p: Pool, index: nat, counts: seq<SizeT>)
    requires PoolOk(p) && index < FREE_LIST_SIZE && p.t.heads[index] != 0 && |counts| == FREE_LIST_SIZE
    ensures var h := p.t.heads[index];
            var p' := Pool(p.t.(heads := p.t.heads[index := Load(p.c.words, h)], counts := counts,
                                lists := p.t.lists[index := Rest(p.t.lists[index])]), p.c, p.ps);
            PoolOk(p') && Owned(p', h)
  {
    var h := p.t.heads[index];
    var L := p.t.lists[index];
    assert IsList(p.c.words, h, L);
    ListNext(p.c.words, h, L);
    forall x | x in L[1..]
      ensures x < p.ps.brk && OnNone(p.c.lists, x)
      ensures forall j | 0 <= j < FREE_LIST_SIZE && j != index :: x !in p.t.lists[j]
    {
      assert x in L;
    }
    ThreadReplace(p, p.c.words, counts, index, Load(p.c.words, h), L[1..]);
    assert h in L && h !in L[1..];
  }

  /** A small allocation keeps the pool consistent, never lowers the next address, and
      hands the caller a block it owns (or null). */
  lemma NewKeeps(p: Pool, size: SizeT, fromMalloc: nat)
    requires PoolOk(p)
    ensures var f := NewCache(p, size, fromMalloc);
            && PoolOk(f.0) && p.ps.brk <= f.0.ps.brk
            && ((if size == 0 then ALIGNMENT else size) <= MAX_BYTES && f.1 != 0 ==> Owned(f.0, f.1))
  {
    var n := if size == 0 then ALIGNMENT else size;
    if n <= MAX_BYTES {
      GetIndexInRange(n);
      var index := GetIndex(n);
      var p1 := p.(t := p.t.(counts := p.t.counts[index := Wrap(p.t.counts[index] as int - 1)]));
      var h := p.t.heads[index];
      var L := p.t.lists[index];
      if h != 0 {
        PopKeeps(p, index, p1.t.counts);
      } else {
        FetchKeeps(p1, index);
      }
    }
  }

  /** A free leaves the freed block at the head of its class list, and a free that does
      not trim is exactly the push. */
  lemma DeleteShape(p: Pool, ptr: nat, size: SizeT)
    requires Shaped(p) && size <= MAX_BYTES && GetIndex(size) < FREE_LIST_SIZE
    ensures var index := GetIndex(size);
            var q := DeleteCache(p, ptr, size);
            && q.t.heads[index] == ptr
            && (!CheckIsReturn(Wrap(p.t.counts[index] as int + 1)) ==> q == PushHead(p, ptr, index))
  {
    var index := GetIndex(size);
    var p1 := PushHead(p, ptr, index);
    if CheckIsReturn(p1.t.counts[index]) {
      TrimHead(p1, ptr, size);
    }
  }

  /** Freeing a block and then asking for the same size returns that block. When the free
      does not trim, the allocation also puts every head, count and list back as they
      were. */
  lemma DeleteThenNew(p: Pool, ptr: nat, size: SizeT, fromMalloc: nat)
    requires PoolOk(p) && Owned(p, ptr) && size <= MAX_BYTES
    ensures var f := NewCache(DeleteCache(p, ptr, size), size, fromMalloc);
            && f.1 == ptr
            && (!CheckIsReturn(Wrap(p.t.counts[GetIndex(size)] as int + 1)) ==>
                  f.0.t.heads == p.t.heads && f.0.t.counts == p.t.counts && f.0.t.lists == p.t.lists)
  {
    GetIndexInRange(size);
    var index := GetIndex(size);
    var n := if size == 0 then ALIGNMENT else size;
    assert GetIndex(n) == index by {
      if size == 0 {
        GetIndexExamples(0);
      }
    }
    DeleteShape(p, ptr, size);
    if !CheckIsReturn(Wrap(p.t.counts[index] as int + 1)) {
      var p' := NewCache(PushHead(p, ptr, index), size, fromMalloc).0;
      assert p'.t.heads == p.t.heads;
      assert p'.t.lists == p.t.lists by {
        assert Rest([ptr] + p.t.lists[index]) == p.t.lists[index];
      }
    }
  }

  /** `MahjongThreadCache`: the head of each class list in `freeList` (`m_FreeList`), the
      count beside it in `freeListSize` (`m_FreeListSize`), and the central cache behind
      it, whose memory holds the blocks' words. */
  class MahjongThreadCache {
    const central: MahjongCentralCache
    const freeList: array<nat>
    const freeListSize: array<SizeT>
    ghost var lists: seq<seq<nat>>

    ghost function Snapshot(): Pool
      reads this, freeList, freeListSize, central, central.mem, central.freeList, central.page
    {
      Pool(ThreadState(freeList[..], freeListSize[..], lists), central.State(), central.page.State())
    }

    ghost predicate Valid()
      reads this, freeList, freeListSize, central, central.mem, central.freeList, central.page
    {
      && freeList.Length == FREE_LIST_SIZE && freeListSize.Length == FREE_LIST_SIZE
      && |lists| == FREE_LIST_SIZE && freeList != central.freeList
      && central.Valid() && PoolOk(Snapshot())
    }

    /** A fresh thread cache: every class list empty, every count 0. */
    constructor (central: MahjongCentralCache)
      requires central.Valid()
      ensures Valid() && this.central == central && fresh(freeList) && fresh(freeListSize)
      ensures Snapshot().t == ThreadState(seq(FREE_LIST_SIZE, _ => 0), seq(FREE_LIST_SIZE, _ => 0), seq(FREE_LIST_SIZE, _ => []))
      ensures Snapshot().c == old(central.State()) && Snapshot().ps == old(central.page.State())
    {
      this.central := central;
      freeList := new nat[FREE_LIST_SIZE](_ => 0);
      freeListSize := new SizeT[FREE_LIST_SIZE](_ => 0);
      lists := seq(FREE_LIST_SIZE, _ => []);
      new;
      assert freeList[..] == seq(FREE_LIST_SIZE, _ => 0);
      assert freeListSize[..] == seq(FREE_LIST_SIZE, _ => 0);
    }

    /** `MahjongNewCache(nSize)` (lines 8-38); `fromMalloc` stands for what `malloc`
        returns for a large request. */
    method MahjongNewCache(size: SizeT, fromMalloc: nat) returns (r: nat)
      requires Valid()
      modifies this, freeList, freeListSize, central, central.mem, central.freeList, central.page
      ensures Valid()
      ensures (Snapshot(), r) == NewCache(old(Snapshot()), size, fromMalloc)
    {
      ghost var p := Snapshot();
      var n := size;
      if n == 0 {
        n := ALIGNMENT;
      }
      if n > MAX_BYTES {
        return fromMalloc;
      }
      GetIndexInRange(n);
      var index := GetIndex(n);
      freeListSize[index] := Wrap(freeListSize[index] as int - 1);
      ghost var p1 := p.(t := p.t.(counts := p.t.counts[index := Wrap(p.t.counts[index] as int - 1)]));
      assert Snapshot() == p1;
      var temp := freeList[index];
      if temp != 0 {
        PopKeeps(p, index, p1.t.counts);
        freeList[index] := Load(central.mem.words, temp);
        lists := lists[index := Rest(lists[index])];
        assert Snapshot() == p1.(t := p1.t.(heads := p1.t.heads[index := Load(p.c.words, temp)],
                                            lists := p1.t.lists[index := Rest(p.t.lists[index])]));
        return temp;
      }
      r := GetCacheByCentralCache(index);
    }

    /** `MahjongDeleteCache(pstCache, nSize)` (lines 41-63); a small block must be one
        the caller owns. */
    method MahjongDeleteCache(ptr: nat, size: SizeT)
      requires Valid() && (size <= MAX_BYTES ==> Owned(Snapshot(), ptr))
      modifies this, freeList, freeListSize, central, central.mem, central.freeList
      ensures Valid()
      ensures Snapshot() == DeleteCache(old(Snapshot()), ptr, size)
    {
      ghost var p := Snapshot();
      DeleteKeeps(p, ptr, size);
      if size > MAX_BYTES {
        return;
      }
      GetIndexInRange(size);
      var index := GetIndex(size);
      central.mem.words := central.mem.words[ptr := freeList[index]];
      freeList[index] := ptr;
      freeListSize[index] := Wrap(freeListSize[index] as int + 1);
      lists := lists[index := [ptr] + lists[index]];
      PushHeadKeeps(p, ptr, index);
      assert Snapshot() == PushHead(p, ptr, index);
      if CheckIsReturn(freeListSize[index]) {
        SetCacheToCentralCache(freeList[index], size);
      }
    }

    /** `GetCacheByCentralCache(nIndex)` (lines 66-94), called on an empty class list. */
    method GetCacheByCentralCache(index: SizeT) returns (r: nat)
      requires Valid() && index < FREE_LIST_SIZE && freeList[index] == 0
      modifies this, freeList, central, central.mem, central.freeList, central.page
      ensures Valid()
      ensures (Snapshot(), r) == Fetch(old(Snapshot()), index)
    {
      ghost var p := Snapshot();
      FetchKeeps(p, index);
      var size := (index + 1) * ALIGNMENT;
      var batch := GetBatchNum(size);
      ghost var H := Batch(p.c, p.ps, index, batch);
      var start := central.GetCacheByRange(index, batch);
      if start == 0 {
        return 0;
      }
      if batch > 1 {
        freeList[index] := Load(central.mem.words, start);
        lists := lists[index := Rest(H)];
      }
      return start;
    }

    /** `SetCacheToCentralCache(pstCacheStart, nSize)` (lines 97-145), called with the
        head of the class list. */
    method SetCacheToCentralCache(start: nat, size: SizeT)
      requires Valid() && size <= MAX_BYTES && start == freeList[GetIndex(size)]
      modifies this, freeList, freeListSize, central, central.mem, central.freeList
      ensures Valid()
      ensures Snapshot() == Trim(old(Snapshot()), start, size)
    {
      ghost var p := Snapshot();
      GetIndexInRange(size);
      var index := GetIndex(size);
      var alignedSize := RoundUp(size);
      var batchNum := freeListSize[index];
      if batchNum <= 1 {
        return;
      }
      var keepNum := Max(batchNum / 4, 1);
      var resultNum: SizeT := batchNum - keepNum;
      // The split loop: its step leaves `node` where it is (line 117).
      var node := start;
      var i: SizeT := 0;
      while i < keepNum
        invariant i <= keepNum && node == start && resultNum == batchNum - keepNum
      {
        if node == 0 {
          resultNum := batchNum - (i + 1);
          break;
        }
        i := i + 1;
      }
      if node != 0 {
        CutKeeps(p, start, index, keepNum);
        ghost var C := Rest(lists[index]);
        var next := Load(central.mem.words, node);
        central.mem.words := central.mem.words[node := 0];
        freeList[index] := start;
        freeListSize[index] := keepNum;
        lists := lists[index := [start]];
        ghost var p1 := Cut(p, start, index, keepNum);
        assert Snapshot() == p1;
        if resultNum > 0 && next != 0 {
          central.SetCacheByRange(next, Wrap(resultNum * alignedSize), index, C);
          assert Snapshot() == p1.(c := SetRange(p1.c, next, Wrap(resultNum * alignedSize), index));
          SendKeeps(p1, next, Wrap(resultNum * alignedSize), index, C);
        }
        TrimUnfold(p, start, size, index, keepNum);
      }
    }
  }
}
