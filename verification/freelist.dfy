/** The intrusive free lists of the thread and central caches. While a block is free,
    its first machine word holds the address of the next free block of its list, and
    0 (null) ends the list. `Memory` holds those words; `Walk` and `Advance` say what
    following them does, and `IsList` what a well-formed list is. */
module FreeList {

  import opened Common

  /** The first word of every block, by block address. A word the allocator never
      wrote reads as 0. */
  class Memory {
    var words: map<nat, nat>

    constructor ()
      ensures words == map[]
    {
      words := map[];
    }
  }

  function Load(words: map<nat, nat>, a: nat): nat
  {
    if a in words then words[a] else 0
  }

  /** The blocks visited by following at most `k` links from `h`, stopping at null. */
  function Walk(words: map<nat, nat>, h: nat, k: nat): (r: seq<nat>)
    ensures |r| <= k
    ensures h != 0 && k > 0 <==> r != []
    ensures r != [] ==> r[0] == h
    ensures forall i | 0 <= i < |r| :: r[i] != 0
    ensures forall i | 0 <= i < |r| - 1 :: Load(words, r[i]) == r[i + 1]
    decreases k
  {
    if h == 0 || k == 0 then [] else [h] + Walk(words, Load(words, h), k - 1)
  }

  /** The block reached after following `k` links from `h` (null once null is reached). */
  function Advance(words: map<nat, nat>, h: nat, k: nat): nat
    decreases k
  {
    if h == 0 || k == 0 then h else Advance(words, Load(words, h), k - 1)
  }

  /** `L` is the list whose head is `h`: distinct non-null blocks, each block's word
      pointing at the next block and the last one's at null. */
  ghost predicate IsList(words: map<nat, nat>, h: nat, L: seq<nat>)
    decreases |L|
  {
    if L == [] then h == 0
    else h == L[0] && h != 0 && h !in L[1..] && IsList(words, Load(words, h), L[1..])
  }

  /** One more step of a walk that has not yet met null. */
  lemma {:induction false} WalkStep(words: map<nat, nat>, h: nat, c: nat)
    requires |Walk(words, h, c)| == c
    requires Advance(words, h, c) != 0
    ensures Walk(words, h, c + 1) == Walk(words, h, c) + [Advance(words, h, c)]
    ensures Advance(words, h, c + 1) == Load(words, Advance(words, h, c))
    decreases c
  {
    if c > 0 {
      WalkStep(words, Load(words, h), c - 1);
    }
  }

  /** Once a walk has met null, walking further adds nothing. */
  lemma {:induction false} WalkStops(words: map<nat, nat>, h: nat, c: nat, k: nat)
    requires c <= k
    requires Advance(words, h, c) == 0
    ensures Walk(words, h, k) == Walk(words, h, c)
    ensures Advance(words, h, k) == 0
    decreases c
  {
    if h != 0 && c > 0 {
      WalkStops(words, Load(words, h), c - 1, k - 1);
    }
  }

  /** A count bound of 0 still visits one block. */
  function Max1(k: nat): nat { if k == 0 then 1 else k }

  /** On a well-formed list a walk of `k` steps visits the first `k` blocks and stops at
      the block after them. */
  lemma {:induction false} WalkOfList(words: map<nat, nat>, h: nat, L: seq<nat>, k: nat)
    requires IsList(words, h, L)
    ensures Walk(words, h, k) == L[..Min(k, |L|)]
    ensures Advance(words, h, k) == if k < |L| then L[k] else 0
    decreases k
  {
    if L != [] && k > 0 {
      WalkOfList(words, Load(words, h), L[1..], k - 1);
      assert L[..Min(k, |L|)] == [h] + L[1..][..Min(k - 1, |L| - 1)];
    }
  }

  /** The head's word is the second block, or null on a one-block list, and the blocks
      after the head form the list it heads. */
  lemma ListNext(words: map<nat, nat>, h: nat, L: seq<nat>)
    requires IsList(words, h, L) && L != []
    ensures Load(words, h) == if |L| > 1 then L[1] else 0
    ensures IsList(words, Load(words, h), L[1..])
  {
    assert IsList(words, Load(words, h), L[1..]);
  }

  /** Every block of a list is non-null. */
  lemma {:induction false} ListNonNull(words: map<nat, nat>, h: nat, L: seq<nat>)
    requires IsList(words, h, L)
    ensures 0 !in L
    decreases |L|
  {
    if L != [] {
      ListNonNull(words, Load(words, h), L[1..]);
      assert L == [h] + L[1..];
    }
  }

  /** The blocks from position `m` on form the list headed by block `m`. */
  lemma {:induction false} ListSuffix(words: map<nat, nat>, h: nat, L: seq<nat>, m: nat)
    requires IsList(words, h, L)
    requires m <= |L|
    ensures IsList(words, if m < |L| then L[m] else 0, L[m..])
    decreases m
  {
    if m > 0 {
      ListSuffix(words, Load(words, h), L[1..], m - 1);
      assert L[1..][m - 1..] == L[m..];
    }
  }

  /** No block occurs twice: block `i` is not among the blocks after it. */
  lemma ListDistinct(words: map<nat, nat>, h: nat, L: seq<nat>, i: nat)
    requires IsList(words, h, L)
    requires i < |L|
    ensures L[i] !in L[i + 1..]
  {
    ListSuffix(words, h, L, i);
    assert L[i..][1..] == L[i + 1..];
  }

  /** The word of block `i` is block `i + 1`, or null for the last block. */
  lemma ListLink(words: map<nat, nat>, h: nat, L: seq<nat>, i: nat)
    requires IsList(words, h, L)
    requires i < |L|
    ensures Load(words, L[i]) == if i + 1 < |L| then L[i + 1] else 0
  {
    ListSuffix(words, h, L, i);
    ListNext(words, L[i], L[i..]);
  }

  /** A list depends only on the words of its own blocks. */
  lemma {:induction false} ListAgree(words: map<nat, nat>, words': map<nat, nat>, h: nat, L: seq<nat>)
    requires IsList(words, h, L)
    requires forall x | x in L :: Load(words', x) == Load(words, x)
    ensures IsList(words', h, L)
    decreases |L|
  {
    if L != [] {
      assert L[0] in L;
      ListAgree(words, words', Load(words, h), L[1..]);
    }
  }

  /** Writing a word outside a list leaves the list intact. */
  lemma ListFrame(words: map<nat, nat>, h: nat, L: seq<nat>, a: nat, v: nat)
    requires IsList(words, h, L)
    requires a !in L
    ensures IsList(words[a := v], h, L)
  {
    ListAgree(words, words[a := v], h, L);
  }

  /** Pushing a block that is on no list: its word takes the old head and it becomes
      the head. */
  lemma ListPush(words: map<nat, nat>, h: nat, L: seq<nat>, p: nat)
    requires IsList(words, h, L)
    requires p != 0 && p !in L
    ensures IsList(words[p := h], p, [p] + L)
  {
    ListFrame(words, h, L, p, h);
    assert ([p] + L)[1..] == L;
  }

  /** Cutting a list after its first `m` blocks: null-terminating block `m - 1` leaves the
      first `m` blocks as a list. */
  lemma {:induction false} CutFront(words: map<nat, nat>, h: nat, L: seq<nat>, m: nat)
    requires IsList(words, h, L)
    requires 0 < m <= |L|
    ensures IsList(words[L[m - 1] := 0], h, L[..m])
    decreases m
  {
    var words' := words[L[m - 1] := 0];
    if m == 1 {
      assert L[..m] == [h];
    } else {
      CutFront(words, Load(words, h), L[1..], m - 1);
      assert L[1..][m - 2] == L[m - 1];
      assert L[m - 1] in L[1..];
      assert L[..m] == [h] + L[1..][..m - 1];
      assert L[..m][1..] == L[1..][..m - 1];
    }
  }

  /** ... and leaves the blocks after them as a list headed by block `m`. */
  lemma CutBack(words: map<nat, nat>, h: nat, L: seq<nat>, m: nat)
    requires IsList(words, h, L)
    requires 0 < m <= |L|
    ensures IsList(words[L[m - 1] := 0], if m < |L| then L[m] else 0, L[m..])
  {
    ListSuffix(words, h, L, m - 1);
    assert L[m - 1..][1..] == L[m..];
    ListSuffix(words, h, L, m);
    ListFrame(words, if m < |L| then L[m] else 0, L[m..], L[m - 1], 0);
  }

  /** Detaching the first `k` blocks: null-terminating the last detached block leaves
      two lists, the first `min(k, |L|)` blocks and the rest. */
  lemma Detach(words: map<nat, nat>, h: nat, L: seq<nat>, k: nat)
    requires IsList(words, h, L)
    requires L != [] && k > 0
    ensures var m := Min(k, |L|);
            var words' := words[L[m - 1] := 0];
            && Walk(words, h, k) == L[..m]
            && IsList(words', h, L[..m])
            && IsList(words', Advance(words, h, k), L[m..])
  {
    WalkOfList(words, h, L, k);
    CutFront(words, h, L, Min(k, |L|));
    CutBack(words, h, L, Min(k, |L|));
  }

  /** Linking the last block of a list to the head of a disjoint list yields their
      concatenation. */
  lemma {:induction false} Append(words: map<nat, nat>, s: nat, L: seq<nat>, h: nat, C: seq<nat>)
    requires IsList(words, s, L) && IsList(words, h, C)
    requires L != []
    requires forall x | x in L :: x !in C
    ensures IsList(words[L[|L| - 1] := h], s, L + C)
    decreases |L|
  {
    var last := L[|L| - 1];
    assert s in L && last in L;
    ListFrame(words, h, C, last, h);
    if |L| == 1 {
      assert L + C == [s] + C;
    } else {
      Append(words, Load(words, s), L[1..], h, C);
      assert L[1..][|L| - 2] == last && last in L[1..];
      assert (L + C)[1..] == L[1..] + C;
    }
  }

  /** Prepending a chain of at most `max(k, 1)` blocks to a disjoint list `C`: the walk
      finds the chain's last block, and linking it to `C`'s head yields `L + C`. */
  lemma Prepend(words: map<nat, nat>, s: nat, L: seq<nat>, h: nat, C: seq<nat>, k: nat)
    requires IsList(words, s, L) && IsList(words, h, C)
    requires L != [] && |L| <= Max1(k)
    requires forall x | x in L :: x !in C
    ensures Walk(words, s, Max1(k)) == L
    ensures IsList(words[L[|L| - 1] := h], s, L + C)
  {
    WalkOfList(words, s, L, Max1(k));
    Append(words, s, L, h, C);
  }

  /** Unlinking block `j > 0`: pointing its predecessor at its successor leaves the list
      without it. */
  lemma {:induction false} Unlink(words: map<nat, nat>, h: nat, C: seq<nat>, j: nat)
    requires IsList(words, h, C)
    requires 0 < j < |C|
    ensures IsList(words[C[j - 1] := Load(words, C[j])], h, C[..j] + C[j + 1..])
    decreases j
  {
    var words' := words[C[j - 1] := Load(words, C[j])];
    var D := C[..j] + C[j + 1..];
    if j == 1 {
      var h1 := Load(words, h);
      assert IsList(words, Load(words, h1), C[2..]) by {
        assert C[1..][1..] == C[2..];
      }
      assert h !in C[2..] by {
        assert forall x | x in C[2..] :: x in C[1..];
      }
      ListFrame(words, Load(words, h1), C[2..], h, Load(words, h1));
      assert D == [h] + C[2..];
    } else {
      Unlink(words, Load(words, h), C[1..], j - 1);
      assert C[1..][j - 2] == C[j - 1] && C[1..][j - 1] == C[j];
      assert C[1..][..j - 1] + C[1..][j..] == D[1..];
      assert C[j - 1] in C[1..];
      assert forall x | x in D[1..] :: x in C[1..];
    }
  }

  /** Distinct non-null blocks, each block's word naming the next block and the last
      block's word null, form a list. */
  lemma {:induction false} ListFromLinks(words: map<nat, nat>, L: seq<nat>)
    requires L != [] && 0 !in L
    requires forall i, j | 0 <= i < j < |L| :: L[i] != L[j]
    requires forall k | 0 <= k < |L| - 1 :: Load(words, L[k]) == L[k + 1]
    requires Load(words, L[|L| - 1]) == 0
    ensures IsList(words, L[0], L)
    decreases |L|
  {
    if |L| == 1 {
      assert L[1..] == [];
    } else {
      ListFromLinks(words, L[1..]);
      assert L[0] !in L[1..] by {
        assert forall k | 0 <= k < |L| - 1 :: L[1..][k] == L[k + 1];
      }
    }
  }

  /** The first `m` blocks of a list and the blocks after them have none in common. */
  lemma ListSplitApart(words: map<nat, nat>, h: nat, L: seq<nat>, m: nat)
    requires IsList(words, h, L) && m <= |L|
    ensures forall x | x in L[..m] :: x !in L[m..]
  {
    forall i | 0 <= i < m ensures L[i] !in L[m..] {
      ListDistinct(words, h, L, i);
      assert forall y | y in L[m..] :: y in L[i + 1..];
    }
  }

  /** Linking the first `m` blocks of a list to the head of a list `H` disjoint from them,
      by writing the word of block `m - 1`, chains the `m` blocks in front of `H`. */
  lemma PrefixAppend(words: map<nat, nat>, s: nat, C: seq<nat>, m: nat, h: nat, H: seq<nat>)
    requires IsList(words, s, C) && IsList(words, h, H)
    requires 0 < m <= |C|
    requires forall x | x in C[..m] :: x !in H
    ensures IsList(words[C[m - 1] := h], s, C[..m] + H)
  {
    var R := C[..m];
    assert R[m - 1] == C[m - 1] && C[m - 1] in R;
    CutFront(words, s, C, m);
    ListFrame(words, h, H, C[m - 1], 0);
    Append(words[C[m - 1] := 0], s, R, h, H);
    assert words[C[m - 1] := 0][C[m - 1] := h] == words[C[m - 1] := h];
  }

  /** `lists[i]` is the list headed by `heads[i]`, for every `i`. */
  ghost predicate ListsOk(words: map<nat, nat>, heads: seq<nat>, lists: seq<seq<nat>>)
  {
    |heads| == |lists| && forall i | 0 <= i < |lists| :: IsList(words, heads[i], lists[i])
  }

  /** No block is on two of the lists. */
  ghost predicate Disjoint(lists: seq<seq<nat>>)
  {
    forall i, j, x | 0 <= i < |lists| && 0 <= j < |lists| && x in lists[i] && x in lists[j] :: i == j
  }

  /** No block is on a list of `A` and on a list of `B`. */
  ghost predicate Apart(A: seq<seq<nat>>, B: seq<seq<nat>>)
  {
    forall i, j, x | 0 <= i < |A| && 0 <= j < |B| && x in A[i] :: x !in B[j]
  }

  /** Block `x` is on none of the lists. */
  ghost predicate OnNone(lists: seq<seq<nat>>, x: nat)
  {
    forall i | 0 <= i < |lists| :: x !in lists[i]
  }

  /** Every block of the lists lies below `bound`. */
  ghost predicate Below(lists: seq<seq<nat>>, bound: nat)
  {
    forall i, x | 0 <= i < |lists| && x in lists[i] :: x < bound
  }

  /** Lists whose blocks keep their words stay well formed; list `i` may be replaced by
      any list under the new words. */
  lemma ListsReplace(words: map<nat, nat>, words': map<nat, nat>, heads: seq<nat>, lists: seq<seq<nat>>,
                     i: nat, h: nat, L: seq<nat>)
    requires ListsOk(words, heads, lists) && i < |lists|
    requires forall j, x | 0 <= j < |lists| && j != i && x in lists[j] :: Load(words', x) == Load(words, x)
    requires IsList(words', h, L)
    ensures ListsOk(words', heads[i := h], lists[i := L])
  {
    forall j | 0 <= j < |lists| && j != i ensures IsList(words', heads[j], lists[j]) {
      ListAgree(words, words', heads[j], lists[j]);
    }
  }

  /** Lists whose blocks all keep their words stay well formed. */
  lemma ListsAgree(words: map<nat, nat>, words': map<nat, nat>, heads: seq<nat>, lists: seq<seq<nat>>)
    requires ListsOk(words, heads, lists)
    requires forall j, x | 0 <= j < |lists| && x in lists[j] :: Load(words', x) == Load(words, x)
    ensures ListsOk(words', heads, lists)
  {
    forall j | 0 <= j < |lists| ensures IsList(words', heads[j], lists[j]) {
      ListAgree(words, words', heads[j], lists[j]);
    }
  }

  /** Writing the word of a block on none of the lists keeps them all. */
  lemma ListsWrite(words: map<nat, nat>, heads: seq<nat>, lists: seq<seq<nat>>, a: nat, v: nat)
    requires ListsOk(words, heads, lists) && OnNone(lists, a)
    ensures ListsOk(words[a := v], heads, lists)
  {
    forall j | 0 <= j < |lists| ensures IsList(words[a := v], heads[j], lists[j]) {
      ListFrame(words, heads[j], lists[j], a, v);
    }
  }

  /** Replacing list `i` by a list whose blocks are on no other list keeps them disjoint. */
  lemma DisjointReplace(lists: seq<seq<nat>>, i: nat, L: seq<nat>)
    requires Disjoint(lists) && i < |lists|
    requires forall j, x | 0 <= j < |lists| && j != i && x in L :: x !in lists[j]
    ensures Disjoint(lists[i := L])
  {
  }

  /** No word at or above `bound` has been written. */
  ghost predicate FreshAbove(words: map<nat, nat>, bound: nat)
  {
    forall x: nat | bound <= x :: Load(words, x) == 0
  }
}
