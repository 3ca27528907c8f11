/** The page cache (common/majhongpagecache.cpp): spans of whole 4 KiB pages.
    Free spans are kept on chains of `PageNode`s, one chain per page count, reached through
    the ordered free index; every span handed out is registered in the work index under its
    address, so that its release can find it again. Node objects are modelled as a map from
    node identity to record, identity 0 being the null node pointer. */
module PageCache {

  import opened Common
  import opened FreeList

  const PAGESIZE: nat := 4096

  datatype Option<T> = None | Some(value: T)

  /** One span: its first address, its page count and the next node of its free chain. */
  datatype PageNode = PageNode(addr: nat, pages: SizeT, next: nat)

  /** The outcome of a page request: the span's address; null because the system refused
      pages; or the null dereference that a free-index key holding a null head provokes. */
  datatype Grant = Granted(addr: nat) | Refused | NullHeadFault

  /** The address a caller sees: null for anything but a granted span. */
  function AddressOf(g: Grant): nat
  {
    if g.Granted? then g.addr else 0
  }

  /** Every page count `>= n` present in `keys` has a least one. */
  lemma {:induction false} LeastAtLeastFrom(keys: set<SizeT>, n: SizeT, k0: SizeT)
    requires k0 in keys && n <= k0
    ensures exists m :: m in keys && n <= m && forall k | k in keys && n <= k :: m <= k
    decreases k0
  {
    if exists k :: k in keys && n <= k < k0 {
      var k :| k in keys && n <= k < k0;
      LeastAtLeastFrom(keys, n, k);
    }
  }

  lemma LeastAtLeast(keys: set<SizeT>, n: SizeT)
    requires exists k :: k in keys && n <= k
    ensures exists m :: m in keys && n <= m && forall k | k in keys && n <= k :: m <= k
  {
    var k0 :| k0 in keys && n <= k0;
    LeastAtLeastFrom(keys, n, k0);
  }

  /** `std::map::lower_bound`: the least key not below `n`, if there is one. */
  function LowerBound(keys: set<SizeT>, n: SizeT): (r: Option<SizeT>)
    ensures r.Some? ==> r.value in keys && n <= r.value
    ensures r.Some? ==> forall k | k in keys && n <= k :: r.value <= k
    ensures r.None? <==> forall k | k in keys :: k < n
  {
    if exists k :: k in keys && n <= k then
      LeastAtLeast(keys, n);
      var m :| m in keys && n <= m && forall k | k in keys && n <= k :: m <= k;
      Some(m)
    else
      None
  }

  /** A key present itself is its own lower bound. */
  lemma LowerBoundPresent(keys: set<SizeT>, n: SizeT)
    requires n in keys
    ensures LowerBound(keys, n) == Some(n)
  {
    var r := LowerBound(keys, n);
    assert r.Some? && r.value <= n;
  }

  /** The next-links of the nodes, as the words a free list is read from. */
  function Links(nodes: map<nat, PageNode>): (r: map<nat, nat>)
    ensures forall id :: Load(r, id) == if id in nodes then nodes[id].next else 0
  {
    map id | id in nodes :: nodes[id].next
  }

  lemma LinksUpdate(nodes: map<nat, PageNode>, id: nat, nd: PageNode)
    ensures Links(nodes[id := nd]) == Links(nodes)[id := nd.next]
  {
  }

  /** The total page count of the nodes `ids`. */
  ghost function PagesIn(nodes: map<nat, PageNode>, ids: set<nat>): nat
    requires ids <= nodes.Keys
    decreases ids
  {
    if ids == {} then 0
    else
      var id :| id in ids;
      nodes[id].pages + PagesIn(nodes, ids - {id})
  }

  /** The total does not depend on which node is counted first. */
  lemma {:induction false} PagesInRemove(nodes: map<nat, PageNode>, ids: set<nat>, y: nat)
    requires ids <= nodes.Keys && y in ids
    ensures PagesIn(nodes, ids) == nodes[y].pages + PagesIn(nodes, ids - {y})
    decreases ids
  {
    var x :| x in ids && PagesIn(nodes, ids) == nodes[x].pages + PagesIn(nodes, ids - {x});
    if x != y {
      PagesInRemove(nodes, ids - {x}, y);
      PagesInRemove(nodes, ids - {y}, x);
      assert ids - {x} - {y} == ids - {y} - {x};
    }
  }

  /** The total depends only on the page counts of the nodes counted. */
  lemma {:induction false} PagesInAgree(nodes: map<nat, PageNode>, nodes': map<nat, PageNode>, ids: set<nat>)
    requires ids <= nodes.Keys && ids <= nodes'.Keys
    requires forall id | id in ids :: nodes'[id].pages == nodes[id].pages
    ensures PagesIn(nodes', ids) == PagesIn(nodes, ids)
    decreases ids
  {
    if ids != {} {
      var y :| y in ids;
      PagesInRemove(nodes, ids, y);
      PagesInRemove(nodes', ids, y);
      PagesInAgree(nodes, nodes', ids - {y});
    }
  }

  /** The page cache's state: the live node objects, `m_FreePageNode` (page count to chain
      head), `m_WorkPageNode` (address to node), the next unused node identity, the next
      address the system maps, and, as proof bookkeeping, the chain of each free-index key. */
  datatype PageState = PageState(
    nodes: map<nat, PageNode>,
    freeIndex: map<SizeT, nat>,
    workIndex: map<nat, nat>,
    nextId: nat,
    brk: nat,
    chains: map<SizeT, seq<nat>>)

  /** The pages of every node, in use or free. */
  ghost function TotalPages(s: PageState): nat
  {
    PagesIn(s.nodes, s.nodes.Keys)
  }

  /** Node identities are non-null and below `nextId`; every span has a non-null address. */
  ghost predicate NodesOk(s: PageState)
  {
    && 0 < s.nextId
    && 0 !in s.nodes
    && (forall id | id in s.nodes :: id < s.nextId && s.nodes[id].addr > 0)
  }

  /** Every free-index key heads a well-formed chain. */
  ghost predicate ChainsOk(s: PageState)
  {
    && s.freeIndex.Keys == s.chains.Keys
    && (forall k | k in s.chains :: IsList(Links(s.nodes), s.freeIndex[k], s.chains[k]))
  }

  /** The nodes on the chain of a key have that key as their page count. */
  ghost predicate ChainPagesOk(s: PageState)
  {
    forall k, id | k in s.chains && id in s.chains[k] :: id in s.nodes && s.nodes[id].pages == k
  }

  /** The work index maps an address to a node with that address. */
  ghost predicate WorkOk(s: PageState)
  {
    forall a | a in s.workIndex :: s.workIndex[a] in s.nodes && s.nodes[s.workIndex[a]].addr == a
  }

  /** The pages of all nodes together are exactly the pages the system has mapped, the
      first page being kept back as the null page. */
  ghost predicate PagesOk(s: PageState)
  {
    PAGESIZE * (TotalPages(s) + 1) == s.brk <= SIZE_T_LIMIT
  }

  ghost predicate Inv(s: PageState)
  {
    NodesOk(s) && ChainsOk(s) && ChainPagesOk(s) && WorkOk(s) && PagesOk(s)
  }

  /** Node `id` is on the free chain of its own page count. */
  ghost predicate OnFreeChain(s: PageState, id: nat)
  {
    id in s.nodes && s.nodes[id].pages in s.chains && id in s.chains[s.nodes[id].pages]
  }

  ghost function FreeIds(s: PageState): set<nat>
  {
    set id | id in s.nodes && OnFreeChain(s, id)
  }

  /** The pages on the free chains. */
  ghost function FreePages(s: PageState): nat
  {
    PagesIn(s.nodes, FreeIds(s))
  }

  /** No free-index key holds a null head. */
  ghost predicate NoNullHeads(s: PageState)
  {
    forall k | k in s.freeIndex :: s.freeIndex[k] != 0
  }

  /** Under the invariant, a node on any chain is on the chain of its page count. */
  lemma OnSomeChain(s: PageState, k: SizeT, id: nat)
    requires Inv(s)
    requires k in s.chains && id in s.chains[k]
    ensures OnFreeChain(s, id) && s.nodes[id].pages == k
  {
  }

  /** The page cache of a fresh process: nothing mapped, nothing free. */
  function Empty(): (s: PageState)
    ensures Inv(s) && NoNullHeads(s) && TotalPages(s) == 0
  {
    PageState(map[], map[], map[], 1, PAGESIZE, map[])
  }

  /** Replacing one counted node changes the total by the difference. */
  lemma PagesInUpdate(nodes: map<nat, PageNode>, ids: set<nat>, id: nat, nd: PageNode)
    requires ids <= nodes.Keys && id in ids
    ensures PagesIn(nodes[id := nd], ids) + nodes[id].pages == PagesIn(nodes, ids) + nd.pages
  {
    PagesInRemove(nodes, ids, id);
    PagesInRemove(nodes[id := nd], ids, id);
    PagesInAgree(nodes, nodes[id := nd], ids - {id});
  }

  /** Counting one more node adds its pages. */
  lemma PagesInAdd(nodes: map<nat, PageNode>, ids: set<nat>, id: nat, nd: PageNode)
    requires ids <= nodes.Keys && id !in ids
    ensures PagesIn(nodes[id := nd], ids + {id}) == PagesIn(nodes, ids) + nd.pages
  {
    PagesInRemove(nodes[id := nd], ids + {id}, id);
    assert (ids + {id}) - {id} == ids;
    PagesInAgree(nodes, nodes[id := nd], ids);
  }

  /** Removing a counted node takes its pages away. */
  lemma PagesInDrop(nodes: map<nat, PageNode>, ids: set<nat>, id: nat)
    requires ids <= nodes.Keys && id in ids
    ensures PagesIn(nodes - {id}, ids - {id}) + nodes[id].pages == PagesIn(nodes, ids)
  {
    PagesInRemove(nodes, ids, id);
    PagesInAgree(nodes, nodes - {id}, ids - {id});
  }

  /** Takes the head `h` off the chain of key `k` (lines 19-26): the key keeps the rest of
      its chain, or is erased when `h` was its only node. */
  ghost function TakeHead(s: PageState, k: SizeT, h: nat): PageState
    requires h in s.nodes && k in s.chains && s.chains[k] != []
  {
    if s.nodes[h].next != 0 then
      s.(freeIndex := s.freeIndex[k := s.nodes[h].next], chains := s.chains[k := s.chains[k][1..]])
    else
      s.(freeIndex := s.freeIndex - {k}, chains := s.chains - {k})
  }

  /** Cuts `h` down to `n` pages (lines 29-44): a new node, the next identity, takes the
      pages after the first `n` and goes to the head of the chain of its page count. */
  ghost function Split(s: PageState, h: nat, n: SizeT): PageState
    requires h in s.nodes && n < s.nodes[h].pages
  {
    var node := s.nodes[h];
    var r := s.nextId;
    var rest: SizeT := node.pages - n;
    var head := if rest in s.freeIndex then s.freeIndex[rest] else 0;
    var tail := if rest in s.chains then s.chains[rest] else [];
    s.(nodes := s.nodes[r := PageNode(node.addr + n * PAGESIZE, rest, head)][h := node.(pages := n)],
       freeIndex := s.freeIndex[rest := r],
       chains := s.chains[rest := [r] + tail],
       nextId := r + 1)
  }

  /** `NewCacheByPageNum(n)`: first fit on the free index, then the head of that key's
      chain, split when larger than `n`; with no key at least `n`, `n` fresh pages from the
      system. The span handed out is registered in the work index under its address. */
  ghost function Allocate(s: PageState, n: SizeT): (PageState, Grant)
    requires Inv(s)
  {
    match LowerBound(s.freeIndex.Keys, n)
    case Some(k) =>
      var h := s.freeIndex[k];
      if h == 0 then (s, NullHeadFault)
      else
        var node := s.nodes[h];
        var s1 := TakeHead(s, k, h);
        var s2 := if n < node.pages then Split(s1, h, n) else s1;
        (s2.(workIndex := s2.workIndex[node.addr := h]), Granted(node.addr))
    case None =>
      if SystemRefuses(s, n) then (s, Refused) else (FromSystem(s, n), Granted(s.brk))
  }

  /** `NewCacheBySystem` (lines 131-145) maps fresh pages at the next address; it refuses
      an empty request and one that does not fit below the top of the address space. */
  predicate SystemRefuses(s: PageState, n: SizeT)
  {
    n == 0 || SIZE_T_LIMIT < s.brk + n * PAGESIZE
  }

  /** Lines 59-65: a node for `n` fresh pages, registered in the work index. */
  ghost function FromSystem(s: PageState, n: SizeT): PageState
  {
    var id := s.nextId;
    s.(nodes := s.nodes[id := PageNode(s.brk, n, 0)],
       workIndex := s.workIndex[s.brk := id],
       nextId := id + 1,
       brk := s.brk + n * PAGESIZE)
  }

  /** The head of a non-null key is a node with the key's page count. */
  lemma HeadOf(s: PageState, k: SizeT)
    requires ChainsOk(s) && ChainPagesOk(s)
    requires k in s.freeIndex && s.freeIndex[k] != 0
    ensures var c := s.chains[k];
            c != [] && c[0] == s.freeIndex[k] && c[0] in s.nodes && s.nodes[c[0]].pages == k
  {
    assert IsList(Links(s.nodes), s.freeIndex[k], s.chains[k]);
  }

  /** Taking the head of a chain keeps the chains well formed. */
  lemma TakeHeadChains(s: PageState, k: SizeT)
    requires ChainsOk(s) && ChainPagesOk(s)
    requires k in s.freeIndex && s.freeIndex[k] != 0
    ensures var c := s.chains[k];
            c != [] && c[0] == s.freeIndex[k] && c[0] in s.nodes && s.nodes[c[0]].pages == k
    ensures ChainsOk(TakeHead(s, k, s.freeIndex[k]))
  {
    HeadOf(s, k);
    var h := s.freeIndex[k];
    var c := s.chains[k];
    var L := Links(s.nodes);
    assert IsList(L, h, c);
    var s1 := TakeHead(s, k, h);
    ListNext(L, h, c);
    ListNonNull(L, h, c);
    forall k' | k' in s1.chains ensures IsList(Links(s1.nodes), s1.freeIndex[k'], s1.chains[k']) {
      if k' == k {
        assert s1.chains[k'] == c[1..] && s1.freeIndex[k'] == Load(L, h);
      } else {
        assert s1.chains[k'] == s.chains[k'] && s1.freeIndex[k'] == s.freeIndex[k'];
      }
    }
  }

  /** Taking the head of a chain leaves it on no chain and every other node where it was. */
  lemma TakeHeadLeaves(s: PageState, k: SizeT)
    requires ChainsOk(s) && ChainPagesOk(s)
    requires k in s.freeIndex && s.freeIndex[k] != 0
    ensures var c := s.chains[k];
            c != [] && c[0] == s.freeIndex[k] && c[0] in s.nodes && s.nodes[c[0]].pages == k
    ensures var h := s.freeIndex[k];
            var s1 := TakeHead(s, k, h);
            && ChainPagesOk(s1)
            && (forall k' | k' in s1.chains :: h !in s1.chains[k'])
  {
    HeadOf(s, k);
    var h := s.freeIndex[k];
    var c := s.chains[k];
    assert IsList(Links(s.nodes), h, c);
    var s1 := TakeHead(s, k, h);
    forall k', id | k' in s1.chains && id in s1.chains[k']
      ensures id in s.chains[k'] && id != h && id in s1.nodes && s1.nodes[id].pages == k'
    {
      if k' == k {
        var i :| 0 <= i < |c| - 1 && c[1..][i] == id;
        assert c[i + 1] == id && c[0] == h;
      } else {
        assert s1.chains[k'] == s.chains[k'];
      }
    }
  }

  /** Taking the head of a chain takes exactly the head, and its pages, off the free chains. */
  lemma TakeHeadFree(s: PageState, k: SizeT)
    requires ChainsOk(s) && ChainPagesOk(s)
    requires k in s.freeIndex && s.freeIndex[k] != 0
    ensures var c := s.chains[k];
            c != [] && c[0] == s.freeIndex[k] && c[0] in s.nodes && s.nodes[c[0]].pages == k
    ensures var h := s.freeIndex[k];
            var s1 := TakeHead(s, k, h);
            && FreeIds(s1) == FreeIds(s) - {h}
            && FreePages(s1) + k == FreePages(s)
  {
    HeadOf(s, k);
    TakeHeadLeaves(s, k);
    var h := s.freeIndex[k];
    var c := s.chains[k];
    var L := Links(s.nodes);
    assert IsList(L, h, c);
    ListNext(L, h, c);
    ListNonNull(L, h, c);
    var s1 := TakeHead(s, k, h);
    forall id ensures id in FreeIds(s1) <==> id in FreeIds(s) - {h} {
      if id in FreeIds(s) && id != h && s.nodes[id].pages == k {
        var i :| 0 <= i < |c| && c[i] == id;
        assert i > 0 && c[1..][i - 1] == id;
      }
    }
    PagesInRemove(s.nodes, FreeIds(s), h);
  }

  /** A chain whose nodes all keep their links stays well formed. */
  lemma ChainKept(nodes: map<nat, PageNode>, nodes': map<nat, PageNode>, h: nat, c: seq<nat>)
    requires IsList(Links(nodes), h, c)
    requires forall x | x in c :: x in nodes' <==> x in nodes
    requires forall x | x in c && x in nodes :: nodes'[x].next == nodes[x].next
    ensures IsList(Links(nodes'), h, c)
  {
    forall x | x in c ensures Load(Links(nodes'), x) == Load(Links(nodes), x) {
    }
    ListAgree(Links(nodes), Links(nodes'), h, c);
  }

  /** The pages after the first `n` of `h` go to the head of their key's chain. */
  lemma SplitRest(s: PageState, h: nat, n: SizeT)
    requires ChainsOk(s)
    requires h in s.nodes && n < s.nodes[h].pages
    requires s.nextId != 0 && s.nextId !in s.nodes
    requires forall k | k in s.chains :: h !in s.chains[k] && s.nextId !in s.chains[k]
    ensures var rest: SizeT := s.nodes[h].pages - n;
            var s2 := Split(s, h, n);
            rest in s2.chains && IsList(Links(s2.nodes), s2.freeIndex[rest], s2.chains[rest])
  {
    var node := s.nodes[h];
    var r := s.nextId;
    var rest: SizeT := node.pages - n;
    var head := if rest in s.freeIndex then s.freeIndex[rest] else 0;
    var tail := if rest in s.chains then s.chains[rest] else [];
    var R := PageNode(node.addr + n * PAGESIZE, rest, head);
    var nodes1 := s.nodes[r := R];
    var s2 := Split(s, h, n);
    var L := Links(s.nodes);
    assert IsList(L, head, tail);
    assert r !in tail;
    ListPush(L, head, tail, r);
    LinksUpdate(s.nodes, r, R);
    assert h !in [r] + tail;
    ChainKept(nodes1, s2.nodes, r, [r] + tail);
  }

  /** Splitting a node that is on no chain keeps the chains well formed. */
  lemma SplitChains(s: PageState, h: nat, n: SizeT)
    requires ChainsOk(s)
    requires h in s.nodes && n < s.nodes[h].pages
    requires s.nextId != 0 && s.nextId !in s.nodes
    requires forall k | k in s.chains :: h !in s.chains[k] && s.nextId !in s.chains[k]
    ensures ChainsOk(Split(s, h, n))
  {
    var rest: SizeT := s.nodes[h].pages - n;
    var s2 := Split(s, h, n);
    SplitRest(s, h, n);
    forall k | k in s2.chains && k != rest ensures IsList(Links(s2.nodes), s2.freeIndex[k], s2.chains[k]) {
      ChainKept(s.nodes, s2.nodes, s.freeIndex[k], s.chains[k]);
    }
  }

  /** Splitting a node that is on no chain keeps it on no chain and keeps every node on
      the chain of its page count. */
  lemma SplitPlaces(s: PageState, h: nat, n: SizeT)
    requires ChainPagesOk(s)
    requires h in s.nodes && n < s.nodes[h].pages && s.nextId !in s.nodes
    requires forall k | k in s.chains :: h !in s.chains[k]
    ensures var s2 := Split(s, h, n);
            && ChainPagesOk(s2)
            && (forall k | k in s2.chains :: h !in s2.chains[k])
  {
    var r := s.nextId;
    var s2 := Split(s, h, n);
    forall k, id | k in s2.chains && id in s2.chains[k]
      ensures id in s2.nodes && s2.nodes[id].pages == k && id != h
    {
      if id != r {
        assert id in s.chains[k];
      }
    }
  }

  /** Splitting adds the new node to the free chains and nothing else. */
  lemma SplitFreeIds(s: PageState, h: nat, n: SizeT)
    requires ChainPagesOk(s)
    requires h in s.nodes && n < s.nodes[h].pages && s.nextId !in s.nodes
    requires forall k | k in s.chains :: h !in s.chains[k]
    ensures FreeIds(Split(s, h, n)) == FreeIds(s) + {s.nextId}
  {
    var node := s.nodes[h];
    var r := s.nextId;
    var rest: SizeT := node.pages - n;
    var tail := if rest in s.chains then s.chains[rest] else [];
    var s2 := Split(s, h, n);
    SplitPlaces(s, h, n);
    forall id ensures id in FreeIds(s2) <==> id in FreeIds(s) + {r} {
      if id in s2.nodes && id != r && id != h {
        assert s2.nodes[id] == s.nodes[id];
        if s2.nodes[id].pages == rest {
          assert id in s2.chains[rest] <==> id in tail;
        }
      }
    }
  }

  /** Splitting conserves the total pages. */
  lemma SplitTotal(s: PageState, h: nat, n: SizeT)
    requires h in s.nodes && n < s.nodes[h].pages && s.nextId !in s.nodes
    ensures TotalPages(Split(s, h, n)) == TotalPages(s)
  {
    var node := s.nodes[h];
    var r := s.nextId;
    var rest: SizeT := node.pages - n;
    var head := if rest in s.freeIndex then s.freeIndex[rest] else 0;
    var R := PageNode(node.addr + n * PAGESIZE, rest, head);
    var nodes1 := s.nodes[r := R];
    var s2 := Split(s, h, n);
    PagesInAdd(s.nodes, s.nodes.Keys, r, R);
    assert nodes1.Keys == s.nodes.Keys + {r};
    PagesInUpdate(nodes1, nodes1.Keys, h, node.(pages := n));
    assert s2.nodes == nodes1[h := node.(pages := n)];
    assert s2.nodes.Keys == nodes1.Keys;
  }

  /** Splitting adds the new node's pages to the free ones. */
  lemma SplitFreePages(s: PageState, h: nat, n: SizeT)
    requires ChainPagesOk(s)
    requires h in s.nodes && n < s.nodes[h].pages && s.nextId !in s.nodes
    requires forall k | k in s.chains :: h !in s.chains[k]
    ensures FreePages(Split(s, h, n)) == FreePages(s) + (s.nodes[h].pages - n)
  {
    var node := s.nodes[h];
    var r := s.nextId;
    var rest: SizeT := node.pages - n;
    var head := if rest in s.freeIndex then s.freeIndex[rest] else 0;
    var R := PageNode(node.addr + n * PAGESIZE, rest, head);
    var nodes1 := s.nodes[r := R];
    var s2 := Split(s, h, n);
    SplitFreeIds(s, h, n);
    assert h !in FreeIds(s) && r !in FreeIds(s);
    PagesInAdd(s.nodes, FreeIds(s), r, R);
    PagesInAgree(nodes1, s2.nodes, FreeIds(s) + {r});
  }

  /** Taking the head of a chain keeps the invariant and leaves the head on no chain. */
  lemma TakeHeadKeeps(s: PageState, k: SizeT)
    requires Inv(s) && k in s.freeIndex && s.freeIndex[k] != 0
    ensures var c := s.chains[k];
            c != [] && c[0] == s.freeIndex[k] && c[0] in s.nodes && s.nodes[c[0]].pages == k
    ensures var h := s.freeIndex[k];
            var s1 := TakeHead(s, k, h);
            && Inv(s1)
            && (forall k' | k' in s1.chains :: h !in s1.chains[k'])
  {
    TakeHeadChains(s, k);
    TakeHeadLeaves(s, k);
    var s1 := TakeHead(s, k, s.freeIndex[k]);
    assert s1.nodes == s.nodes;
  }

  /** Splitting a node on no chain keeps the invariant and keeps the node on no chain. */
  lemma SplitKeeps(s: PageState, h: nat, n: SizeT)
    requires Inv(s) && h in s.nodes && n < s.nodes[h].pages
    requires forall k | k in s.chains :: h !in s.chains[k]
    ensures var s2 := Split(s, h, n);
            && Inv(s2)
            && (forall k | k in s2.chains :: h !in s2.chains[k])
  {
    assert s.nextId !in s.nodes;
    SplitChains(s, h, n);
    SplitPlaces(s, h, n);
    SplitTotal(s, h, n);
    SplitNodes(s, h, n);
  }

  /** Splitting keeps node identities below the next one and every registration valid. */
  lemma SplitNodes(s: PageState, h: nat, n: SizeT)
    requires NodesOk(s) && WorkOk(s) && h in s.nodes && n < s.nodes[h].pages
    ensures NodesOk(Split(s, h, n)) && WorkOk(Split(s, h, n))
  {
    var s2 := Split(s, h, n);
    assert s.nextId !in s.nodes;
    forall a | a in s2.workIndex
      ensures s2.workIndex[a] in s2.nodes && s2.nodes[s2.workIndex[a]].addr == a
    {
      assert s2.workIndex[a] == s.workIndex[a];
    }
  }

  /** Registering a node under its own address keeps the invariant. */
  lemma RegisterKeeps(s: PageState, h: nat)
    requires Inv(s) && h in s.nodes
    ensures Inv(s.(workIndex := s.workIndex[s.nodes[h].addr := h]))
  {
    var s3 := s.(workIndex := s.workIndex[s.nodes[h].addr := h]);
    assert TotalPages(s3) == TotalPages(s);
    assert ChainsOk(s3) && ChainPagesOk(s3);
  }

  /** Mapping fresh pages keeps the invariant; the new node is on no chain. */
  lemma FromSystemKeeps(s: PageState, n: SizeT)
    requires Inv(s) && !SystemRefuses(s, n)
    ensures Inv(FromSystem(s, n))
    ensures FreeIds(FromSystem(s, n)) == FreeIds(s)
    ensures FreePages(FromSystem(s, n)) == FreePages(s)
    ensures TotalPages(FromSystem(s, n)) == TotalPages(s) + n
  {
    var s1 := FromSystem(s, n);
    FromSystemPages(s, n);
    forall k | k in s1.chains ensures IsList(Links(s1.nodes), s1.freeIndex[k], s1.chains[k]) {
      ChainKept(s.nodes, s1.nodes, s.freeIndex[k], s.chains[k]);
    }
  }

  /** The fresh node adds its pages to the total and none to the free chains. */
  lemma FromSystemPages(s: PageState, n: SizeT)
    requires NodesOk(s) && ChainPagesOk(s)
    ensures FreeIds(FromSystem(s, n)) == FreeIds(s)
    ensures FreePages(FromSystem(s, n)) == FreePages(s)
    ensures TotalPages(FromSystem(s, n)) == TotalPages(s) + n
  {
    var id := s.nextId;
    var nd := PageNode(s.brk, n, 0);
    var s1 := FromSystem(s, n);
    assert id !in s.nodes;
    PagesInAdd(s.nodes, s.nodes.Keys, id, nd);
    assert s1.nodes.Keys == s.nodes.Keys + {id};
    assert FreeIds(s1) == FreeIds(s);
    PagesInAgree(s.nodes, s1.nodes, FreeIds(s));
  }

  /** Allocation keeps the invariant. */
  lemma AllocateKeeps(s: PageState, n: SizeT)
    requires Inv(s)
    ensures Inv(Allocate(s, n).0)
  {
    match LowerBound(s.freeIndex.Keys, n)
    case Some(k) =>
      var h := s.freeIndex[k];
      if h != 0 {
        TakeHeadKeeps(s, k);
        var s2 := TakeHead(s, k, h);
        if n < s.nodes[h].pages {
          SplitKeeps(s2, h, n);
          s2 := Split(s2, h, n);
        }
        RegisterKeeps(s2, h);
      }
    case None =>
      if !SystemRefuses(s, n) {
        FromSystemKeeps(s, n);
      }
  }

  /** First fit: the head of the least key's chain is granted at its own address, cut to
      `n` pages, and registered in the work index; it is on no free chain. */
  lemma AllocateFromFree(s: PageState, n: SizeT, k: SizeT)
    requires Inv(s) && LowerBound(s.freeIndex.Keys, n) == Some(k) && s.freeIndex[k] != 0
    ensures var h := s.freeIndex[k];
            h in s.nodes && s.nodes[h].pages == k
    ensures var h := s.freeIndex[k];
            var addr := s.nodes[h].addr;
            var s' := Allocate(s, n).0;
            var g := Allocate(s, n).1;
            && g == Granted(addr)
            && s'.workIndex == s.workIndex[addr := h]
            && h in s'.nodes && s'.nodes[h] == PageNode(addr, n, s.nodes[h].next)
            && !OnFreeChain(s', h)
  {
    TakeHeadLeaves(s, k);
    var h := s.freeIndex[k];
    var s2 := TakeHead(s, k, h);
    if n < k {
      assert s.nextId !in s.nodes;
      SplitPlaces(s2, h, n);
      s2 := Split(s2, h, n);
    }
  }

  /** When the node had more pages than asked for, the rest become a new node, just
      after the `n` granted pages, heading the chain of their own count; otherwise no node
      changes. */
  lemma AllocateRemainder(s: PageState, n: SizeT, k: SizeT)
    requires Inv(s) && LowerBound(s.freeIndex.Keys, n) == Some(k) && s.freeIndex[k] != 0
    ensures var h := s.freeIndex[k];
            h in s.nodes && s.nodes[h].pages == k
    ensures var h := s.freeIndex[k];
            var s' := Allocate(s, n).0;
            && (n < k ==> && s.nextId in s'.nodes
                          && s'.nodes[s.nextId].addr == s.nodes[h].addr + n * PAGESIZE
                          && s'.nodes[s.nextId].pages == k - n
                          && k - n in s'.freeIndex && s'.freeIndex[k - n] == s.nextId)
            && (n == k ==> s'.nodes == s.nodes)
  {
    HeadOf(s, k);
  }

  /** First fit moves exactly the granted pages off the free chains: the granted node
      leaves them, the node of the remaining pages joins them, and no page is created or
      lost. */
  lemma AllocateFromFreeCounts(s: PageState, n: SizeT, k: SizeT)
    requires Inv(s) && LowerBound(s.freeIndex.Keys, n) == Some(k) && s.freeIndex[k] != 0
    ensures var h := s.freeIndex[k];
            var s' := Allocate(s, n).0;
            && FreeIds(s') == FreeIds(s) - {h} + (if n < k then {s.nextId} else {})
            && FreePages(s') + n == FreePages(s)
            && TotalPages(s') == TotalPages(s)
  {
    TakeHeadLeaves(s, k);
    TakeHeadFree(s, k);
    assert s.nextId !in s.nodes;
    var h := s.freeIndex[k];
    var s1 := TakeHead(s, k, h);
    var s2 := s1;
    if n < k {
      SplitFreeIds(s1, h, n);
      SplitFreePages(s1, h, n);
      SplitTotal(s1, h, n);
      s2 := Split(s1, h, n);
    }
    var s3 := s2.(workIndex := s2.workIndex[s.nodes[h].addr := h]);
    assert FreeIds(s3) == FreeIds(s2);
  }

  /** With no key of at least `n` pages the system is asked: it refuses exactly an empty
      request and one past the top of the address space, and otherwise grants `n` fresh
      pages at the next address, none of them free. */
  lemma AllocateFromSystem(s: PageState, n: SizeT)
    requires Inv(s) && LowerBound(s.freeIndex.Keys, n).None?
    ensures var s' := Allocate(s, n).0;
            var g := Allocate(s, n).1;
            && (g == Refused <==> n == 0 || SIZE_T_LIMIT < s.brk + n * PAGESIZE)
            && (g == Refused ==> s' == s)
            && (g != Refused ==> && g == Granted(s.brk)
                                 && s'.workIndex[s.brk] == s.nextId
                                 && s'.nodes[s.nextId] == PageNode(s.brk, n, 0)
                                 && s'.brk == s.brk + n * PAGESIZE
                                 && TotalPages(s') == TotalPages(s) + n
                                 && FreeIds(s') == FreeIds(s)
                                 && FreePages(s') == FreePages(s))
  {
    if !SystemRefuses(s, n) {
      FromSystemKeeps(s, n);
    }
  }

  /** With no free span every request goes to the system: a refusal changes nothing, and
      a grant is the next address, after which still no span is free. */
  lemma AllocateNoFree(s: PageState, n: SizeT)
    requires Inv(s) && s.freeIndex == map[]
    ensures var s' := Allocate(s, n).0;
            var g := Allocate(s, n).1;
            && Inv(s') && s'.freeIndex == map[]
            && (g == Refused <==> SystemRefuses(s, n))
            && (g == Refused ==> s' == s)
            && (g != Refused ==> g == Granted(s.brk) && s'.brk == s.brk + n * PAGESIZE)
  {
    if !SystemRefuses(s, n) {
      FromSystemKeeps(s, n);
    }
  }

  /** A null head is the only way to the fault; without one the fault never happens, and
      allocation does not create one. */
  lemma AllocateNoNullHeads(s: PageState, n: SizeT)
    requires Inv(s) && NoNullHeads(s)
    ensures Allocate(s, n).1 != NullHeadFault
    ensures NoNullHeads(Allocate(s, n).0)
  {
    match LowerBound(s.freeIndex.Keys, n)
    case Some(k) =>
      var h := s.freeIndex[k];
      TakeHeadKeeps(s, k);
      var s1 := TakeHead(s, k, h);
      assert NoNullHeads(s1);
      if n < k {
        var s2 := Split(s1, h, n);
        assert NoNullHeads(s2);
      }
    case None =>
  }

  /** A granted span is registered under its address with exactly the pages asked for,
      and is on no free chain. */
  lemma AllocateGranted(s: PageState, n: SizeT)
    requires Inv(s) && Allocate(s, n).1.Granted?
    ensures var s' := Allocate(s, n).0;
            var g := Allocate(s, n).1;
            && g.addr in s'.workIndex
            && s'.nodes[s'.workIndex[g.addr]].pages == n
            && !OnFreeChain(s', s'.workIndex[g.addr])
  {
    match LowerBound(s.freeIndex.Keys, n)
    case Some(k) =>
      AllocateFromFree(s, n, k);
    case None =>
      AllocateFromSystem(s, n);
      FromSystemKeeps(s, n);
      var s' := FromSystem(s, n);
      assert s'.nodes[s.nextId].pages == n;
      assert !OnFreeChain(s', s.nextId) by {
        assert s.nextId !in s.nodes;
        assert forall k | k in s.chains :: s.nextId !in s.chains[k];
      }
  }

  /** The position of `x` in `c`: the first one, if there are several. */
  function IndexOf(c: seq<nat>, x: nat): (j: nat)
    requires x in c
    ensures j < |c| && c[j] == x && x !in c[..j]
  {
    if c[0] == x then 0
    else
      assert x in c[1..];
      var j := 1 + IndexOf(c[1..], x);
      assert c[..j] == [c[0]] + c[1..][..j - 1];
      j
  }

  /** A position holding `x` with no `x` before it is the position `IndexOf` finds. */
  lemma IndexOfFirst(c: seq<nat>, x: nat, j: nat)
    requires j < |c| && c[j] == x && x !in c[..j]
    ensures IndexOf(c, x) == j
  {
    var r := IndexOf(c, x);
    assert forall i | 0 <= i < j :: c[i] != x by {
      assert forall i | 0 <= i < j :: c[..j][i] == c[i];
    }
    assert forall i | 0 <= i < r :: c[i] != x by {
      assert forall i | 0 <= i < r :: c[..r][i] == c[i];
    }
  }

  /** Looking a key up in the free index by `operator[]` (lines 92, 125) inserts it, with
      a null head and an empty chain, when it is absent. */
  ghost function Touch(s: PageState, key: SizeT): (r: PageState)
    requires s.freeIndex.Keys == s.chains.Keys
    ensures key in r.freeIndex && key in r.chains
    ensures r.freeIndex.Keys == r.chains.Keys
  {
    if key in s.freeIndex then s
    else s.(freeIndex := s.freeIndex[key := 0], chains := s.chains[key := []])
  }

  /** Lines 125-127: node `p` is pushed on the chain of its page count. */
  ghost function Push(s: PageState, p: nat): PageState
    requires s.freeIndex.Keys == s.chains.Keys && p in s.nodes
  {
    var key := s.nodes[p].pages;
    var s0 := Touch(s, key);
    s0.(nodes := s0.nodes[p := s0.nodes[p].(next := s0.freeIndex[key])],
        freeIndex := s0.freeIndex[key := p],
        chains := s0.chains[key := [p] + s0.chains[key]])
  }

  /** The address just past `n` pages from `addr` (line 84): the byte count
      `n * PAGESIZE` is a `size_t` product and wraps. */
  function SpanEnd(addr: nat, n: SizeT): nat
  {
    addr + Wrap(n * PAGESIZE)
  }

  /** Lines 95-112 when `q` is on the chain of its page count: a head is replaced by its
      successor, even a null one; otherwise its predecessor is pointed past it. */
  ghost function UnlinkFree(s: PageState, q: nat): PageState
    requires ChainPagesOk(s) && q in s.nodes
    requires s.nodes[q].pages in s.chains && q in s.chains[s.nodes[q].pages]
  {
    var key := s.nodes[q].pages;
    var c := s.chains[key];
    var j := IndexOf(c, q);
    var next := s.nodes[q].next;
    var s1 := if j == 0 then s.(freeIndex := s.freeIndex[key := next])
              else s.(nodes := s.nodes[c[j - 1] := s.nodes[c[j - 1]].(next := next)]);
    s1.(chains := s1.chains[key := c[..j] + c[j + 1..]])
  }

  /** `UnlinkFree` when `q` is first found at position `j` of its chain, written out. */
  lemma UnlinkAt(s: PageState, q: nat, j: nat)
    requires ChainPagesOk(s) && q in s.nodes && s.nodes[q].pages in s.chains
    requires j < |s.chains[s.nodes[q].pages]| && s.chains[s.nodes[q].pages][j] == q
    requires q !in s.chains[s.nodes[q].pages][..j]
    ensures q in s.chains[s.nodes[q].pages]
    ensures var key := s.nodes[q].pages;
            var c := s.chains[key];
            var next := s.nodes[q].next;
            UnlinkFree(s, q)
              == if j == 0 then s.(freeIndex := s.freeIndex[key := next], chains := s.chains[key := c[1..]])
                 else s.(nodes := s.nodes[c[j - 1] := s.nodes[c[j - 1]].(next := next)],
                         chains := s.chains[key := c[..j] + c[j + 1..]])
  {
    var c := s.chains[s.nodes[q].pages];
    IndexOfFirst(c, q, j);
    if j == 0 {
      assert c[..0] + c[1..] == c[1..];
    }
  }

  /** Unlinking `q` changes no node identity, page count or address, no registration and
      no other key; at most the link of `q`'s predecessor changes, and `q` leaves its chain. */
  lemma UnlinkShape(s: PageState, q: nat)
    requires s.freeIndex.Keys == s.chains.Keys && ChainPagesOk(s) && q in s.nodes
    requires s.nodes[q].pages in s.chains && q in s.chains[s.nodes[q].pages]
    ensures var key := s.nodes[q].pages;
            var c := s.chains[key];
            var j := IndexOf(c, q);
            var r := UnlinkFree(s, q);
            && r.nodes.Keys == s.nodes.Keys && r.nodes[q] == s.nodes[q]
            && (forall id | id in s.nodes && id !in c :: r.nodes[id] == s.nodes[id])
            && (forall id | id in s.nodes :: r.nodes[id].pages == s.nodes[id].pages && r.nodes[id].addr == s.nodes[id].addr)
            && r.workIndex == s.workIndex && r.nextId == s.nextId && r.brk == s.brk
            && r.freeIndex.Keys == s.freeIndex.Keys
            && (forall k | k in s.freeIndex && k != key :: r.freeIndex[k] == s.freeIndex[k])
            && r.chains == s.chains[key := c[..j] + c[j + 1..]]
  {
    var c := s.chains[s.nodes[q].pages];
    var j := IndexOf(c, q);
    if j > 0 {
      assert c[..j][j - 1] == c[j - 1] && c[j - 1] in c;
    }
  }

  /** Lines 116-121 once `q`, registered at address `a`, is unlinked: its pages are added
      to `p`'s, and it leaves the work index and the nodes. */
  ghost function Absorb(s: PageState, p: nat, q: nat, a: nat): PageState
    requires ChainPagesOk(s) && p in s.nodes && q in s.nodes
    requires s.nodes[q].pages in s.chains && q in s.chains[s.nodes[q].pages]
  {
    var s1 := UnlinkFree(s, q);
    var np := s1.nodes[p];
    s1.(nodes := (s1.nodes - {q})[p := np.(pages := Wrap(np.pages + s.nodes[q].pages))],
        workIndex := s1.workIndex - {a})
  }

  /** Lines 84-122: the span registered at `a`, the address just past the released one,
      is merged into `p` when it is on its free chain. */
  ghost function MergeNext(s: PageState, p: nat, a: nat): (r: PageState)
    requires Inv(s) && p in s.nodes && !OnFreeChain(s, p)
    ensures p in r.nodes && r.freeIndex.Keys == r.chains.Keys
  {
    if a !in s.workIndex then s
    else
      var q := s.workIndex[a];
      var s0 := Touch(s, s.nodes[q].pages);
      if q in s0.chains[s.nodes[q].pages] then Absorb(s0, p, q, a) else s0
  }

  /** `DeleteCacheByPageNum(ptr, nPageNum)`: an unknown address is ignored; otherwise the
      span is merged with the free span registered at `a`, the address just past it
      (`ptr + nPageNum * PAGESIZE`, line 84), and pushed on the chain of its page count.
      It stays in the work index. A span already on a free chain is not released again:
      its node would be linked to itself. */
  ghost function Release(s: PageState, ptr: nat, a: nat): PageState
    requires Inv(s)
    requires ptr in s.workIndex ==> !OnFreeChain(s, s.workIndex[ptr])
  {
    if ptr !in s.workIndex then s
    else
      var p := s.workIndex[ptr];
      Push(MergeNext(s, p, a), p)
  }

  /** Inserting a key with a null head keeps the chains well formed. */
  lemma TouchChains(s: PageState, key: SizeT)
    requires ChainsOk(s) && ChainPagesOk(s) && key !in s.freeIndex
    ensures ChainsOk(Touch(s, key)) && ChainPagesOk(Touch(s, key))
  {
    var s0 := Touch(s, key);
    forall k | k in s0.chains ensures IsList(Links(s0.nodes), s0.freeIndex[k], s0.chains[k]) {
      if k != key {
        assert s0.chains[k] == s.chains[k] && s0.freeIndex[k] == s.freeIndex[k];
      }
    }
    forall k, id | k in s0.chains && id in s0.chains[k]
      ensures id in s0.nodes && s0.nodes[id].pages == k
    {
      assert k != key;
      assert id in s.chains[k];
    }
  }

  /** Inserting a key with a null head puts no node on a chain. */
  lemma TouchFree(s: PageState, key: SizeT)
    requires s.freeIndex.Keys == s.chains.Keys && key !in s.freeIndex
    ensures FreeIds(Touch(s, key)) == FreeIds(s)
  {
    var s0 := Touch(s, key);
    forall id | id in s.nodes ensures OnFreeChain(s0, id) <==> OnFreeChain(s, id) {
      if s.nodes[id].pages != key && s.nodes[id].pages in s.chains {
        assert s0.chains[s.nodes[id].pages] == s.chains[s.nodes[id].pages];
      }
    }
  }

  /** Inserting a key with a null head keeps the invariant and changes no free node. */
  lemma TouchKeeps(s: PageState, key: SizeT)
    requires Inv(s)
    ensures var s0 := Touch(s, key);
            && Inv(s0)
            && s0.nodes == s.nodes && s0.workIndex == s.workIndex
            && FreeIds(s0) == FreeIds(s)
            && (forall k | k in s.chains :: k in s0.chains && s0.chains[k] == s.chains[k])
  {
    if key !in s.freeIndex {
      TouchChains(s, key);
      TouchFree(s, key);
      var s0 := Touch(s, key);
      assert TotalPages(s0) == TotalPages(s);
    }
  }

  /** Pushing a node that is on no chain keeps the chains well formed. */
  lemma PushChains(s: PageState, p: nat)
    requires Inv(s) && p in s.nodes
    requires forall k | k in s.chains :: p !in s.chains[k]
    ensures ChainsOk(Push(s, p))
  {
    var key := s.nodes[p].pages;
    TouchKeeps(s, key);
    var s0 := Touch(s, key);
    var s1 := Push(s, p);
    var nd := s0.nodes[p].(next := s0.freeIndex[key]);
    assert IsList(Links(s0.nodes), s0.freeIndex[key], s0.chains[key]);
    ListPush(Links(s0.nodes), s0.freeIndex[key], s0.chains[key], p);
    LinksUpdate(s0.nodes, p, nd);
    forall k | k in s1.chains && k != key
      ensures IsList(Links(s1.nodes), s1.freeIndex[k], s1.chains[k])
    {
      ChainKept(s0.nodes, s1.nodes, s0.freeIndex[k], s0.chains[k]);
    }
  }

  /** What pushing `p` needs: the free index and the chains have the same keys, the
      chains hold nodes of their own page count, and `p` is a node on no chain. */
  ghost predicate PushReady(s: PageState, p: nat)
  {
    && s.freeIndex.Keys == s.chains.Keys && ChainPagesOk(s) && p in s.nodes
    && (forall k | k in s.chains :: p !in s.chains[k])
  }

  /** Pushing a node that is on no chain puts it, and nothing else, on the chain of its
      page count, at its head; only its link changes. */
  lemma PushPlaces(s: PageState, p: nat)
    requires PushReady(s, p)
    ensures var s1 := Push(s, p);
            && ChainPagesOk(s1)
            && OnFreeChain(s1, p) && s1.freeIndex[s.nodes[p].pages] == p
            && FreeIds(s1) == FreeIds(s) + {p}
            && s1.nodes.Keys == s.nodes.Keys && s1.workIndex == s.workIndex
            && s1.nodes[p].addr == s.nodes[p].addr && s1.nodes[p].pages == s.nodes[p].pages
            && (forall id | id in s.nodes && id != p :: s1.nodes[id] == s.nodes[id])
  {
    var key := s.nodes[p].pages;
    var s0 := Touch(s, key);
    var s1 := Push(s, p);
    assert forall k | k in s0.chains && k != key :: k in s.chains && s0.chains[k] == s.chains[k];
    assert key in s.chains ==> s0.chains[key] == s.chains[key];
    forall k, id | k in s1.chains && id in s1.chains[k]
      ensures id in s1.nodes && s1.nodes[id].pages == k
    {
      if id != p {
        assert id in s0.chains[k];
        assert k in s.chains && id in s.chains[k];
      }
    }
    forall id ensures id in FreeIds(s1) <==> id in FreeIds(s) + {p} {
      if id in s1.nodes && id != p {
        var k := s1.nodes[id].pages;
        if k == key {
          assert id in s1.chains[key] <==> id in s0.chains[key];
        } else {
          assert k in s1.chains <==> k in s.chains;
          assert k in s.chains ==> s1.chains[k] == s.chains[k];
        }
      }
    }
  }

  /** Pushing a node that is on no chain keeps the invariant and makes the node free. */
  lemma PushKeeps(s: PageState, p: nat)
    requires Inv(s) && p in s.nodes
    requires forall k | k in s.chains :: p !in s.chains[k]
    ensures Inv(Push(s, p)) && OnFreeChain(Push(s, p), p)
    ensures FreeIds(Push(s, p)) == FreeIds(s) + {p}
  {
    PushChains(s, p);
    PushPlaces(s, p);
    PushCounts(s, p);
    PushWork(s, p);
  }

  /** Pushing changes no node identity, address or registration. */
  lemma PushWork(s: PageState, p: nat)
    requires NodesOk(s) && WorkOk(s) && PushReady(s, p)
    ensures NodesOk(Push(s, p)) && WorkOk(Push(s, p))
  {
    PushPlaces(s, p);
    var s1 := Push(s, p);
    forall a | a in s1.workIndex
      ensures s1.workIndex[a] in s1.nodes && s1.nodes[s1.workIndex[a]].addr == a
    {
      var id := s.workIndex[a];
      assert id == p || s1.nodes[id] == s.nodes[id];
    }
  }

  /** Pushing a node that is on no chain adds its pages to the free ones and no page to
      the total. */
  lemma PushCounts(s: PageState, p: nat)
    requires PushReady(s, p)
    ensures FreePages(Push(s, p)) == FreePages(s) + s.nodes[p].pages
    ensures TotalPages(Push(s, p)) == TotalPages(s)
  {
    PushPlaces(s, p);
    var s1 := Push(s, p);
    PagesInAgree(s.nodes, s1.nodes, s.nodes.Keys);
    assert p !in FreeIds(s);
    PagesInAdd(s.nodes, FreeIds(s), p, s.nodes[p]);
    assert s.nodes[p := s.nodes[p]] == s.nodes;
    PagesInAgree(s.nodes, s1.nodes, FreeIds(s1));
  }

  /** What merging needs: `q`, registered at `a`, is on the chain of its page count and
      `p`, another node, is on no chain. */
  ghost predicate CanAbsorb(s: PageState, p: nat, q: nat, a: nat)
  {
    && Inv(s) && Absorbable(s, p, q)
    && a in s.workIndex && s.workIndex[a] == q
  }

  /** What unlinking `q` and merging it into `p` needs of the chains: `q` is on the
      well-formed chain of its page count and `p`, another node, is on no chain. */
  ghost predicate Absorbable(s: PageState, p: nat, q: nat)
  {
    && s.freeIndex.Keys == s.chains.Keys && ChainPagesOk(s)
    && p in s.nodes && p != q
    && (forall k | k in s.chains :: p !in s.chains[k])
    && OnFreeChain(s, q)
    && IsList(Links(s.nodes), s.freeIndex[s.nodes[q].pages], s.chains[s.nodes[q].pages])
  }

  /** Unlinking `q` leaves the rest of its chain well formed. */
  lemma AbsorbOwnChain(s: PageState, p: nat, q: nat, a: nat)
    requires Absorbable(s, p, q)
    ensures var key := s.nodes[q].pages;
            var r := Absorb(s, p, q, a);
            && key in r.chains && key in r.freeIndex
            && IsList(Links(r.nodes), r.freeIndex[key], r.chains[key])
  {
    var key := s.nodes[q].pages;
    var c := s.chains[key];
    var j := IndexOf(c, q);
    var nq := s.nodes[q];
    var h := s.freeIndex[key];
    var L := Links(s.nodes);
    var r := Absorb(s, p, q, a);
    var D := c[..j] + c[j + 1..];
    assert IsList(L, h, c);
    ListDistinct(L, h, c, j);
    assert q !in D;
    assert p !in D;
    if j == 0 {
      ListNext(L, h, c);
      assert D == c[1..];
      ChainKept(s.nodes, r.nodes, nq.next, D);
    } else {
      var pred := c[j - 1];
      assert pred in c;
      var nodes1 := s.nodes[pred := s.nodes[pred].(next := nq.next)];
      ListLink(L, h, c, j - 1);
      Unlink(L, h, c, j);
      LinksUpdate(s.nodes, pred, s.nodes[pred].(next := nq.next));
      ChainKept(nodes1, r.nodes, h, D);
    }
  }

  /** Absorbing `q` keeps the link of every node whose page count differs from `q`'s. */
  lemma AbsorbNodes(s: PageState, p: nat, q: nat, a: nat)
    requires Absorbable(s, p, q)
    ensures var key := s.nodes[q].pages;
            var r := Absorb(s, p, q, a);
            forall x | x in s.nodes && s.nodes[x].pages != key :: x in r.nodes && r.nodes[x].next == s.nodes[x].next
  {
    UnlinkShape(s, q);
  }

  /** Unlinking `q` leaves every other chain as it was. */
  lemma AbsorbOtherChains(s: PageState, p: nat, q: nat, a: nat)
    requires ChainsOk(s) && Absorbable(s, p, q)
    ensures var key := s.nodes[q].pages;
            var r := Absorb(s, p, q, a);
            && r.chains.Keys == s.chains.Keys && r.freeIndex.Keys == s.freeIndex.Keys
            && forall k | k in r.chains && k != key :: IsList(Links(r.nodes), r.freeIndex[k], r.chains[k])
  {
    var key := s.nodes[q].pages;
    var r := Absorb(s, p, q, a);
    UnlinkShape(s, q);
    AbsorbNodes(s, p, q, a);
    forall k | k in r.chains && k != key
      ensures IsList(Links(r.nodes), r.freeIndex[k], r.chains[k])
    {
      assert r.chains[k] == s.chains[k] && r.freeIndex[k] == s.freeIndex[k];
      ChainKept(s.nodes, r.nodes, s.freeIndex[k], s.chains[k]);
    }
  }

  /** Taking position `j` out of a sequence keeps every other element. */
  lemma InRemoved(c: seq<nat>, j: nat, x: nat)
    requires j < |c| && x != c[j]
    ensures x in c <==> x in c[..j] + c[j + 1..]
  {
    if x in c {
      var i :| 0 <= i < |c| && c[i] == x;
      if i < j {
        assert (c[..j] + c[j + 1..])[i] == x;
      } else {
        assert (c[..j] + c[j + 1..])[i - 1] == x;
      }
    }
  }

  /** Unlinking only takes `q` off a chain: every node on a chain afterwards was on the
      same chain before, and is not `q`. */
  lemma UnlinkShrinks(s: PageState, q: nat)
    requires s.freeIndex.Keys == s.chains.Keys && ChainPagesOk(s) && OnFreeChain(s, q)
    requires IsList(Links(s.nodes), s.freeIndex[s.nodes[q].pages], s.chains[s.nodes[q].pages])
    ensures var r := UnlinkFree(s, q);
            forall k, id | k in r.chains && id in r.chains[k] :: k in s.chains && id in s.chains[k] && id != q
  {
    var key := s.nodes[q].pages;
    var c := s.chains[key];
    var j := IndexOf(c, q);
    var r := UnlinkFree(s, q);
    ListDistinct(Links(s.nodes), s.freeIndex[key], c, j);
    forall k, id | k in r.chains && id in r.chains[k]
      ensures k in s.chains && id in s.chains[k] && id != q
    {
      if k == key {
        InRemoved(c, j, id);
      } else {
        assert r.chains[k] == s.chains[k];
      }
    }
  }

  /** Merging only takes `q` off a chain: every node on a chain afterwards was on the
      same chain before, with the same page count, and is neither `q` nor `p`. */
  lemma AbsorbShrinks(s: PageState, p: nat, q: nat, a: nat)
    requires Absorbable(s, p, q)
    ensures var r := Absorb(s, p, q, a);
            forall k, id | k in r.chains && id in r.chains[k] ::
              && k in s.chains && id in s.chains[k] && id != q && id != p
              && id in r.nodes && r.nodes[id].pages == s.nodes[id].pages
  {
    UnlinkShrinks(s, q);
    UnlinkShape(s, q);
  }

  /** After merging, every node on a chain still has the chain's page count and `p` is on
      no chain. */
  lemma AbsorbPlaces(s: PageState, p: nat, q: nat, a: nat)
    requires Absorbable(s, p, q)
    ensures var r := Absorb(s, p, q, a);
            && ChainPagesOk(r)
            && (forall k | k in r.chains :: p !in r.chains[k])
  {
    AbsorbShrinks(s, p, q, a);
  }

  /** Merging takes `q`, and only `q`, off the free chains. */
  lemma AbsorbFreeIds(s: PageState, p: nat, q: nat, a: nat)
    requires Absorbable(s, p, q)
    ensures FreeIds(Absorb(s, p, q, a)) == FreeIds(s) - {q}
  {
    var key := s.nodes[q].pages;
    var c := s.chains[key];
    var j := IndexOf(c, q);
    var r := Absorb(s, p, q, a);
    AbsorbPlaces(s, p, q, a);
    forall id ensures id in FreeIds(r) <==> id in FreeIds(s) - {q} {
      if id in r.nodes && id != p && r.nodes[id].pages == key {
        InRemoved(c, j, id);
      }
    }
  }

  /** Two distinct nodes hold at most the total pages between them. */
  lemma PagesOfTwo(s: PageState, x: nat, y: nat)
    requires x in s.nodes && y in s.nodes && x != y
    ensures s.nodes[x].pages + s.nodes[y].pages <= TotalPages(s)
  {
    PagesInRemove(s.nodes, s.nodes.Keys, x);
    PagesInRemove(s.nodes, s.nodes.Keys - {x}, y);
  }

  /** Moving the pages of `q` into `p` and dropping `q` keeps the total of the rest. */
  lemma PagesInMove(nodes: map<nat, PageNode>, ids: set<nat>, p: nat, q: nat, np: PageNode)
    requires ids <= nodes.Keys && p in ids && q in ids && p != q
    requires np.pages == nodes[p].pages + nodes[q].pages
    ensures PagesIn((nodes - {q})[p := np], ids - {q}) == PagesIn(nodes, ids)
  {
    PagesInDrop(nodes, ids, q);
    PagesInUpdate(nodes - {q}, ids - {q}, p, np);
  }

  /** Merging moves `q`'s pages into `p` without wrapping and keeps the total. */
  lemma AbsorbPages(s: PageState, p: nat, q: nat, a: nat)
    requires PagesOk(s) && Absorbable(s, p, q)
    ensures var r := Absorb(s, p, q, a);
            && r.nodes.Keys == s.nodes.Keys - {q}
            && r.chains.Keys == s.chains.Keys && r.freeIndex.Keys == s.freeIndex.Keys
            && s.nodes[p].pages + s.nodes[q].pages < SIZE_T_LIMIT
            && r.nodes[p] == s.nodes[p].(pages := s.nodes[p].pages + s.nodes[q].pages)
            && PagesOk(r)
  {
    UnlinkShape(s, q);
    PagesOfTwo(s, p, q);
    var s1 := UnlinkFree(s, q);
    var np' := s.nodes[p].(pages := s.nodes[p].pages + s.nodes[q].pages);
    PagesInAgree(s.nodes, s1.nodes, s.nodes.Keys);
    PagesInMove(s1.nodes, s1.nodes.Keys, p, q, np');
  }

  /** Merging keeps node identities and the work index consistent. */
  lemma AbsorbWork(s: PageState, p: nat, q: nat, a: nat)
    requires NodesOk(s) && WorkOk(s) && Absorbable(s, p, q)
    requires a in s.workIndex && s.workIndex[a] == q
    ensures var r := Absorb(s, p, q, a);
            && r.workIndex == s.workIndex - {a}
            && NodesOk(r) && WorkOk(r)
  {
    UnlinkShape(s, q);
    var r := Absorb(s, p, q, a);
    forall b | b in r.workIndex ensures r.workIndex[b] in r.nodes && r.nodes[r.workIndex[b]].addr == b {
      assert r.workIndex[b] == s.workIndex[b] != q;
    }
  }

  /** Merging keeps the invariant and leaves `p` on no chain. */
  lemma AbsorbKeeps(s: PageState, p: nat, q: nat, a: nat)
    requires CanAbsorb(s, p, q, a)
    ensures var r := Absorb(s, p, q, a);
            && Inv(r)
            && p in r.nodes && (forall k | k in r.chains :: p !in r.chains[k])
  {
    AbsorbOwnChain(s, p, q, a);
    AbsorbOtherChains(s, p, q, a);
    AbsorbPlaces(s, p, q, a);
    AbsorbPages(s, p, q, a);
    AbsorbWork(s, p, q, a);
  }

  /** Merging takes `q`'s pages off the free ones. */
  lemma AbsorbFreePages(s: PageState, p: nat, q: nat, a: nat)
    requires PagesOk(s) && Absorbable(s, p, q)
    ensures FreePages(Absorb(s, p, q, a)) + s.nodes[q].pages == FreePages(s)
  {
    AbsorbFreeIds(s, p, q, a);
    AbsorbPages(s, p, q, a);
    var r := Absorb(s, p, q, a);
    assert q in FreeIds(s) && p !in FreeIds(s);
    PagesInRemove(s.nodes, FreeIds(s), q);
    forall id | id in FreeIds(s) - {q} ensures r.nodes[id].pages == s.nodes[id].pages {
      assert id != p && id in r.nodes;
    }
    PagesInAgree(s.nodes, r.nodes, FreeIds(s) - {q});
  }

  /** The span at address `a` is merged exactly when it is registered and free. */
  ghost predicate Merges(s: PageState, a: nat)
  {
    a in s.workIndex && OnFreeChain(s, s.workIndex[a])
  }

  /** Merging with the span registered at `a`, when it is free, moves its pages into `p`
      and takes it off the nodes, the work index and the free chains; otherwise no node,
      registration or free chain changes. `p` keeps its address and stays on no chain. */
  lemma MergeNextEffect(s: PageState, p: nat, a: nat)
    requires Inv(s) && p in s.nodes && forall k | k in s.chains :: p !in s.chains[k]
    ensures !OnFreeChain(s, p)
    ensures var r := MergeNext(s, p, a);
            && PushReady(r, p)
            && r.nodes[p].addr == s.nodes[p].addr
            && TotalPages(r) == TotalPages(s)
            && (Merges(s, a) ==>
                  var q := s.workIndex[a];
                  && q != p
                  && r.nodes.Keys == s.nodes.Keys - {q}
                  && r.nodes[p].pages == s.nodes[p].pages + s.nodes[q].pages
                  && r.workIndex == s.workIndex - {a}
                  && FreeIds(r) == FreeIds(s) - {q}
                  && FreePages(r) + s.nodes[q].pages == FreePages(s))
            && (!Merges(s, a) ==>
                  && r.nodes == s.nodes && r.workIndex == s.workIndex
                  && FreeIds(r) == FreeIds(s))
  {
    if a in s.workIndex {
      var q := s.workIndex[a];
      var key := s.nodes[q].pages;
      TouchKeeps(s, key);
      var s0 := Touch(s, key);
      assert q in s0.chains[key] <==> OnFreeChain(s, q);
      if OnFreeChain(s, q) {
        assert s0 == s;
        assert CanAbsorb(s, p, q, a);
        AbsorbPlaces(s, p, q, a);
        AbsorbPages(s, p, q, a);
        AbsorbWork(s, p, q, a);
        AbsorbFreeIds(s, p, q, a);
        AbsorbFreePages(s, p, q, a);
      }
    }
  }

  /** Merging keeps the invariant and leaves `p` on no chain. */
  lemma MergeNextKeeps(s: PageState, p: nat, a: nat)
    requires Inv(s) && p in s.nodes && forall k | k in s.chains :: p !in s.chains[k]
    ensures !OnFreeChain(s, p)
    ensures var r := MergeNext(s, p, a);
            Inv(r) && forall k | k in r.chains :: p !in r.chains[k]
  {
    if a in s.workIndex {
      var q := s.workIndex[a];
      var key := s.nodes[q].pages;
      TouchKeeps(s, key);
      if OnFreeChain(s, q) {
        assert CanAbsorb(s, p, q, a);
        AbsorbKeeps(s, p, q, a);
      }
    }
  }

  /** Under the invariant, a node off the chain of its page count is on no chain. */
  lemma OnNoChain(s: PageState, p: nat)
    requires Inv(s) && p in s.nodes && !OnFreeChain(s, p)
    ensures forall k | k in s.chains :: p !in s.chains[k]
  {
    forall k | k in s.chains ensures p !in s.chains[k] {
      if p in s.chains[k] {
        OnSomeChain(s, k, p);
      }
    }
  }

  /** Releasing keeps the invariant. */
  lemma ReleaseKeeps(s: PageState, ptr: nat, a: nat)
    requires Inv(s)
    requires ptr in s.workIndex ==> !OnFreeChain(s, s.workIndex[ptr])
    ensures Inv(Release(s, ptr, a))
  {
    if ptr in s.workIndex {
      var p := s.workIndex[ptr];
      OnNoChain(s, p);
      MergeNextKeeps(s, p, a);
      PushKeeps(MergeNext(s, p, a), p);
    }
  }

  /** An unknown address changes nothing; a known one stays registered, its span becomes
      the head of the chain of its (possibly merged) page count, and its pages join the
      free ones while the total stays put. */
  lemma ReleaseFrees(s: PageState, ptr: nat, a: nat)
    requires Inv(s)
    requires ptr in s.workIndex ==> !OnFreeChain(s, s.workIndex[ptr])
    ensures var s' := Release(s, ptr, a);
            && (ptr !in s.workIndex ==> s' == s)
            && (ptr in s.workIndex ==>
                  var p := s.workIndex[ptr];
                  && ptr in s'.workIndex && s'.workIndex[ptr] == p
                  && OnFreeChain(s', p) && s'.freeIndex[s'.nodes[p].pages] == p
                  && FreePages(s') == FreePages(s) + s.nodes[p].pages
                  && TotalPages(s') == TotalPages(s))
  {
    if ptr in s.workIndex {
      var p := s.workIndex[ptr];
      OnNoChain(s, p);
      MergeNextEffect(s, p, a);
      var r := MergeNext(s, p, a);
      PushPlaces(r, p);
      PushCounts(r, p);
      assert ptr in r.workIndex && r.workIndex[ptr] == p by {
        if Merges(s, a) {
          assert a != ptr;
        }
      }
    }
  }

  /** The span is merged exactly when the span registered at `a` is free: it then
      takes that span's pages, which leaves the nodes, the work index and the free chains;
      otherwise it keeps its pages and the work index is unchanged. */
  lemma ReleaseMerge(s: PageState, ptr: nat, a: nat)
    requires Inv(s)
    requires ptr in s.workIndex && !OnFreeChain(s, s.workIndex[ptr])
    ensures var s' := Release(s, ptr, a);
            var p := s.workIndex[ptr];
            && (Merges(s, a) ==>
                  var q := s.workIndex[a];
                  && s'.nodes[p].pages == s.nodes[p].pages + s.nodes[q].pages
                  && q !in s'.nodes && a !in s'.workIndex
                  && FreeIds(s') == FreeIds(s) - {q} + {p})
            && (!Merges(s, a) ==>
                  && s'.nodes[p].pages == s.nodes[p].pages
                  && s'.workIndex == s.workIndex
                  && FreeIds(s') == FreeIds(s) + {p})
  {
    var p := s.workIndex[ptr];
    OnNoChain(s, p);
    MergeNextEffect(s, p, a);
    var r := MergeNext(s, p, a);
    PushPlaces(r, p);
    var s' := Release(s, ptr, a);
    if Merges(s, a) {
      var q := s.workIndex[a];
      assert s'.nodes.Keys == r.nodes.Keys && s'.workIndex == r.workIndex;
    } else {
      assert r.nodes == s.nodes && r.workIndex == s.workIndex;
      assert s'.nodes[p].pages == r.nodes[p].pages;
    }
  }

  /** A span just released is the one the next request for its page count gets back. */
  lemma ReleaseThenAllocate(s: PageState, ptr: nat, a: nat)
    requires Inv(s)
    requires ptr in s.workIndex && !OnFreeChain(s, s.workIndex[ptr])
    ensures Inv(Release(s, ptr, a))
    ensures var s' := Release(s, ptr, a);
            Allocate(s', s'.nodes[s.workIndex[ptr]].pages).1 == Granted(ptr)
  {
    ReleaseKeeps(s, ptr, a);
    ReleaseFrees(s, ptr, a);
    var s' := Release(s, ptr, a);
    var p := s.workIndex[ptr];
    LowerBoundPresent(s'.freeIndex.Keys, s'.nodes[p].pages);
  }

  /** Two one-page spans in use at the first two pages after the null page, the
      second already released: the only node of the one-page chain. */
  function TwoSpans(): PageState
  {
    PageState(map[1 := PageNode(PAGESIZE, 1, 0), 2 := PageNode(2 * PAGESIZE, 1, 0)],
              map[1 := 2], map[PAGESIZE := 1, 2 * PAGESIZE := 2], 3, 3 * PAGESIZE, map[1 := [2]])
  }

  lemma TwoSpansOk()
    ensures Inv(TwoSpans()) && NoNullHeads(TwoSpans())
    ensures 1 !in TwoSpans().chains[1]
  {
    var s := TwoSpans();
    assert IsList(Links(s.nodes), 2, [2]);
    PagesInRemove(s.nodes, {1, 2}, 1);
    PagesInRemove(s.nodes, {2}, 2);
    assert s.nodes.Keys == {1, 2} && {1, 2} - {1} == {2};
  }

  /** Releasing the first span merges the second and leaves the one-page key with a null
      head (line 97). */
  lemma TwoSpansRelease()
    ensures Inv(TwoSpans()) && !OnFreeChain(TwoSpans(), 1)
    ensures var s' := Release(TwoSpans(), PAGESIZE, 2 * PAGESIZE);
            s'.freeIndex == map[1 := 0, 2 := 1]
  {
    TwoSpansOk();
    var s := TwoSpans();
    assert IndexOf([2], 2) == 0;
    var r := MergeNext(s, 1, 2 * PAGESIZE);
    assert r.freeIndex == map[1 := 0] && r.nodes[1].pages == 2;
  }

  /** A free span that is the only node of its chain, merged into a released neighbour,
      leaves its key with a null head; the next request that key fits then dereferences
      the null head (line 16). */
  lemma ReleaseLeavesNullHead()
    ensures exists s: PageState, ptr: nat, a: nat ::
              && Inv(s) && NoNullHeads(s)
              && ptr in s.workIndex && !OnFreeChain(s, s.workIndex[ptr])
              && Inv(Release(s, ptr, a)) && !NoNullHeads(Release(s, ptr, a))
              && Allocate(Release(s, ptr, a), 1).1 == NullHeadFault
  {
    TwoSpansOk();
    TwoSpansRelease();
    ReleaseKeeps(TwoSpans(), PAGESIZE, 2 * PAGESIZE);
    var s := TwoSpans();
    var s' := Release(s, PAGESIZE, 2 * PAGESIZE);
    LowerBoundPresent(s'.freeIndex.Keys, 1);
    assert Allocate(s', 1).1 == NullHeadFault;
    assert s.workIndex[PAGESIZE] == 1;
  }

  /** `MahjongPageCache`: the nodes, the free index and the work index, and the next
      address the system maps. The lock that serialises its methods is left out. */
  class MahjongPageCache {
    var nodes: map<nat, PageNode>
    var freeIndex: map<SizeT, nat>
    var workIndex: map<nat, nat>
    var nextId: nat
    var brk: nat
    ghost var chains: map<SizeT, seq<nat>>

    ghost function State(): PageState
      reads this
    {
      PageState(nodes, freeIndex, workIndex, nextId, brk, chains)
    }

    ghost predicate Valid()
      reads this
    {
      Inv(State())
    }

    constructor ()
      ensures State() == Empty() && Valid() && NoNullHeads(State())
    {
      nodes := map[];
      freeIndex := map[];
      workIndex := map[];
      nextId := 1;
      brk := PAGESIZE;
      chains := map[];
    }

    /** `NewCacheBySystem` (lines 131-145): `n` fresh pages at the next address, or null
        when the system refuses them. */
    method NewCacheBySystem(n: SizeT) returns (a: nat)
      modifies this
      ensures SystemRefuses(old(State()), n) ==> a == 0 && State() == old(State())
      ensures !SystemRefuses(old(State()), n) ==>
                a == old(brk) && State() == old(State()).(brk := old(brk) + n * PAGESIZE)
    {
      if n == 0 || SIZE_T_LIMIT < brk + n * PAGESIZE {
        return 0;
      }
      a := brk;
      brk := brk + n * PAGESIZE;
    }

    /** Lines 19-26: the head `h` of the chain of `k` leaves it. */
    method TakeFreeHead(k: SizeT, h: nat)
      requires h in nodes && k in chains && chains[k] != []
      modifies this
      ensures State() == TakeHead(old(State()), k, h)
    {
      var next := nodes[h].next;
      if next != 0 {
        freeIndex := freeIndex[k := next];
        chains := chains[k := chains[k][1..]];
      } else {
        freeIndex := freeIndex - {k};
        chains := chains - {k};
      }
    }

    /** Lines 29-44: `h` keeps its first `n` pages; a new node takes the rest to the head
        of their chain. */
    method SplitSpan(h: nat, n: SizeT)
      requires h in nodes && n < nodes[h].pages
      modifies this
      ensures State() == Split(old(State()), h, n)
    {
      var node := nodes[h];
      var r := nextId;
      nextId := nextId + 1;
      var rest: SizeT := node.pages - n;
      var head := if rest in freeIndex then freeIndex[rest] else 0;
      ghost var tail := if rest in chains then chains[rest] else [];
      nodes := nodes[r := PageNode(node.addr + n * PAGESIZE, rest, head)];
      freeIndex := freeIndex[rest := r];
      chains := chains[rest := [r] + tail];
      nodes := nodes[h := node.(pages := n)];
    }

    /** `NewCacheByPageNum(n)` (lines 8-67). */
    method NewCacheByPageNum(n: SizeT) returns (g: Grant)
      requires Valid()
      modifies this
      ensures Valid()
      ensures (State(), g) == Allocate(old(State()), n)
    {
      ghost var s := State();
      AllocateKeeps(s, n);
      ghost var s' := Allocate(s, n).0;
      var lb := LowerBound(freeIndex.Keys, n);
      if lb.Some? {
        var k := lb.value;
        var h := freeIndex[k];
        if h == 0 {
          return NullHeadFault;
        }
        HeadOf(s, k);
        var node := nodes[h];
        TakeFreeHead(k, h);
        if node.pages > n {
          SplitSpan(h, n);
        }
        workIndex := workIndex[node.addr := h];
        assert State() == s';
        return Granted(node.addr);
      }
      var a := NewCacheBySystem(n);
      if a == 0 {
        return Refused;
      }
      var id := nextId;
      nextId := nextId + 1;
      nodes := nodes[id := PageNode(a, n, 0)];
      workIndex := workIndex[a := id];
      assert State() == s';
      return Granted(a);
    }

    /** `m_FreePageNode[key]` (lines 92, 125): the key is inserted with a null head when
        it is absent. */
    method TouchKey(key: SizeT)
      requires freeIndex.Keys == chains.Keys
      modifies this
      ensures State() == Touch(old(State()), key)
    {
      if key !in freeIndex {
        freeIndex := freeIndex[key := 0];
        chains := chains[key := []];
      }
    }

    /** Lines 95-113: `q` is looked for on the chain of its page count, first at the head
        and then by walking the links, and unlinked where it is found. */
    method UnlinkNext(q: nat) returns (found: bool)
      requires ChainsOk(State()) && ChainPagesOk(State())
      requires q != 0 && q in nodes && nodes[q].pages in freeIndex
      modifies this
      ensures found <==> q in old(chains)[old(nodes)[q].pages]
      ensures found ==> State() == UnlinkFree(old(State()), q)
      ensures !found ==> State() == old(State())
    {
      ghost var s := State();
      var key := nodes[q].pages;
      var head := freeIndex[key];
      ghost var c := chains[key];
      ghost var L := Links(nodes);
      assert IsList(L, head, c);
      ListNonNull(L, head, c);
      if head == q {
        UnlinkAt(s, q, 0);
        freeIndex := freeIndex[key := nodes[q].next];
        chains := chains[key := c[1..]];
        return true;
      }
      if head == 0 {
        return false;
      }
      assert forall id | id in c :: id in nodes by {
        assert key in s.chains;
      }
      var prev: nat;
      ghost var j: nat;
      prev, found, j := FindPrev(head, q, c);
      if found {
        UnlinkAt(s, q, j);
        nodes := nodes[prev := nodes[prev].(next := nodes[q].next)];
        chains := chains[key := c[..j] + c[j + 1..]];
      }
    }

    /** Lines 100-112: the walk along a chain whose head is not `q`, looking for the node
        that links to `q`. */
    method FindPrev(head: nat, q: nat, ghost c: seq<nat>) returns (prev: nat, found: bool, ghost j: nat)
      requires IsList(Links(nodes), head, c) && head != 0 && head != q
      requires forall id | id in c :: id in nodes
      ensures found <==> q in c
      ensures found ==> 0 < j < |c| && c[j] == q && c[j - 1] == prev && q !in c[..j]
    {
      ghost var L := Links(nodes);
      ListNonNull(L, head, c);
      prev := head;
      j := 0;
      found := false;
      while nodes[prev].next != 0
        invariant j < |c| && prev == c[j] && prev in nodes
        invariant q !in c[..j + 1]
        decreases |c| - j
      {
        ListLink(L, head, c, j);
        var next := nodes[prev].next;
        if next == q {
          found := true;
          j := j + 1;
          return;
        }
        assert c[..j + 2] == c[..j + 1] + [next];
        prev := next;
        j := j + 1;
      }
      assert Load(L, prev) == 0;
      ListLink(L, head, c, j);
      assert c[..j + 1] == c;
    }

    /** Lines 125-127: `p` becomes the head of the chain of its page count. */
    method PushSpan(p: nat)
      requires freeIndex.Keys == chains.Keys && p in nodes
      modifies this
      ensures State() == Push(old(State()), p)
    {
      var key := nodes[p].pages;
      TouchKey(key);
      nodes := nodes[p := nodes[p].(next := freeIndex[key])];
      freeIndex := freeIndex[key := p];
      chains := chains[key := [p] + chains[key]];
    }

    /** Lines 116-121 once `q` is unlinked from the state `s0`: its pages are added to
        `p`'s, and it leaves the work index and the nodes. */
    method AbsorbSpan(ghost s0: PageState, p: nat, q: nat, a: nat)
      requires s0.freeIndex.Keys == s0.chains.Keys && ChainPagesOk(s0) && p in s0.nodes && q in s0.nodes
      requires s0.nodes[q].pages in s0.chains && q in s0.chains[s0.nodes[q].pages]
      requires State() == UnlinkFree(s0, q)
      modifies this
      ensures State() == Absorb(s0, p, q, a)
    {
      UnlinkShape(s0, q);
      nodes := (nodes - {q})[p := nodes[p].(pages := Wrap(nodes[p].pages + nodes[q].pages))];
      workIndex := workIndex - {a};
    }

    /** Lines 84-122: the span registered at `a` is merged into `p` when it is free. */
    method MergeNextSpan(p: nat, a: nat)
      requires Valid() && p in nodes && !OnFreeChain(State(), p)
      modifies this
      ensures State() == MergeNext(old(State()), p, a)
    {
      ghost var s := State();
      if a in workIndex {
        var q := workIndex[a];
        TouchKeeps(s, nodes[q].pages);
        TouchKey(nodes[q].pages);
        ghost var s0 := State();
        var found := UnlinkNext(q);
        if found {
          AbsorbSpan(s0, p, q, a);
        }
      }
    }

    /** `DeleteCacheByPageNum(ptr, n)` (lines 70-128). */
    method DeleteCacheByPageNum(ptr: nat, n: SizeT)
      requires Valid()
      requires ptr in workIndex ==> !OnFreeChain(State(), workIndex[ptr])
      modifies this
      ensures Valid()
      ensures State() == Release(old(State()), ptr, SpanEnd(ptr, n))
    {
      ghost var s := State();
      if ptr !in workIndex {
        return;
      }
      var p := workIndex[ptr];
      var nextAddr := SpanEnd(ptr, n);
      ReleaseKeeps(s, ptr, nextAddr);
      MergeNextSpan(p, nextAddr);
      ghost var s1 := State();
      PushSpan(p);
      assert State() == Push(s1, p) == Release(s, ptr, nextAddr);
    }
  }
}
