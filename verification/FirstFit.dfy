// Which block the search of the free list takes.
module FirstFits {
  import opened BlockTable
  import opened HeapModel
  import opened Wrappers

  lemma {:induction false} ScanShortens(h: HeapState, i: nat, need: nat)
    requires WellFormed(h) && i <= |h.order|
    ensures |Scan(h, i, need).heap.order| <= |h.order|
    decreases |h.order|, |h.order| - i
  {
    if i < |h.order| {
      var c := h.order[i];
      assert c in h.order;
      if h.blocks[c].size < need {
        if CanMerge(h, c) {
          MergeKeepsWellFormed(h, i);
          ScanShortens(Merge(h, i), IndexOf(Without(h.order, i), h.blocks[c].left) + 1, need);
        } else {
          ScanShortens(h, i + 1, need);
        }
      }
    }
  }

  /** The first block at or behind index i that is large enough stands at index k;
      there is none if k is the end. */
  predicate IsFirstFit(h: HeapState, i: nat, need: nat, k: nat) {
    && i <= k <= |h.order|
    && (forall j :: i <= j < k ==> h.order[j] in h.blocks && h.blocks[h.order[j]].size < need)
    && (k < |h.order| ==> h.order[k] in h.blocks && h.blocks[h.order[k]].size >= need)
  }

  /** The scan is a first-fit search exactly when none of the blocks in front of
      the first fit has a free left neighbour it can be merged into. */
  lemma {:induction false} FirstFitIff(h: HeapState, i: nat, need: nat, k: nat)
    requires WellFormed(h) && IsFirstFit(h, i, need, k)
    ensures Scan(h, i, need) == ScanResult(h, if k < |h.order| then Some(k) else None) <==>
            forall j :: i <= j < k ==> h.order[j] in h.blocks && !CanMerge(h, h.order[j])
    decreases k - i
  {
    if i < k {
      var c := h.order[i];
      if CanMerge(h, c) {
        MergeKeepsWellFormed(h, i);
        ScanShortens(Merge(h, i), IndexOf(Without(h.order, i), h.blocks[c].left) + 1, need);
      } else {
        FirstFitIff(h, i + 1, need, k);
      }
    }
  }

  // The block that is taken

  /** The block that a scan from index i takes. */
  function Taken(h: HeapState, i: nat, need: nat): Option<nat>
    requires WellFormed(h) && i <= |h.order|
  {
    var r := Scan(h, i, need);
    ScanKeeps(h, i, need);
    match r.hit
    case None => None
    case Some(k) => Some(r.heap.order[k])
  }

  lemma AllocateTakes(h: HeapState, n: nat, reservation: nat, protect: bool)
    requires WellFormed(h) && Taken(h, 0, Align(n)).Some?
    ensures Allocate(h, n, reservation, protect).block == Taken(h, 0, Align(n))
  {
  }

  /** The leftmost of the free blocks that lie side by side up to c: in the end it
      has taken them all. */
  function Head(h: HeapState, c: nat): nat
    requires c in h.blocks
    decreases c
  {
    if LeftIsFree(h, c) && h.blocks[c].left < c then Head(h, h.blocks[c].left) else c
  }

  /** The size of the block that these would make together. */
  function Joint(h: HeapState, c: nat): int
    requires c in h.blocks
  {
    End(h.blocks, c) - Head(h, c) - BLOCK
  }

  /** The block at index j stands behind its free left neighbour, if it has one. */
  predicate StandsBehind(h: HeapState, j: nat) {
    && j < |h.order| && h.order[j] in h.blocks
    && (LeftIsFree(h, h.order[j]) ==> h.blocks[h.order[j]].left in h.order[..j])
  }

  /** So do the first k blocks. */
  ghost predicate Backward(h: HeapState, k: nat) {
    k <= |h.order| && forall j: nat {:trigger StandsBehind(h, j)} :: j < k ==> StandsBehind(h, j)
  }

  /** They are never too large to be merged. */
  ghost predicate Bounded(h: HeapState, k: nat) {
    k <= |h.order| && forall j {:trigger h.order[j]} :: 0 <= j < k ==>
      h.order[j] in h.blocks && Joint(h, h.order[j]) <= INT_MAX
  }

  /** The first i blocks have no free left neighbour. */
  ghost predicate Settled(h: HeapState, i: nat) {
    i <= |h.order| && forall j {:trigger h.order[j]} :: 0 <= j < i ==>
      h.order[j] in h.blocks && !LeftIsFree(h, h.order[j])
  }

  /** Up to the block at index b, blocks that lie side by side make one that is large
      enough, at index p. Behind b in the list, the block at index c is merged into
      one that stands before that, at index q. */
  predicate Overtakes(h: HeapState, need: nat, k: nat, b: nat, c: nat, p: nat, q: nat) {
    && b < c < k <= |h.order| && q < p < |h.order|
    && h.order[b] in h.blocks && h.order[c] in h.blocks
    && Joint(h, h.order[b]) >= need && LeftIsFree(h, h.order[c])
    && Head(h, h.order[b]) == h.order[p] && Head(h, h.order[c]) == h.order[q]
  }

  ghost predicate Overtaken(h: HeapState, need: nat, k: nat) {
    exists b, c, p, q :: Overtakes(h, need, k, b, c, p, q)
  }

  predicate Fits(h: HeapState, need: nat, j: nat) {
    j < |h.order| && h.order[j] in h.blocks && h.blocks[h.order[j]].size >= need
  }

  /** A block between the cursor and index k is large enough as it is. */
  ghost predicate FitsEarlier(h: HeapState, i: nat, need: nat, k: nat) {
    exists j: nat :: i <= j < k && Fits(h, need, j)
  }

  // One merge

  lemma {:induction false} HeadBefore(h: HeapState, c: nat)
    requires c in h.blocks
    ensures Head(h, c) <= c
    decreases c
  {
    if LeftIsFree(h, c) && h.blocks[c].left < c {
      HeadBefore(h, h.blocks[c].left);
    }
  }

  /** The scan may merge the block at index i, whose left neighbour stands at m. */
  ghost predicate Merges(h: HeapState, i: nat, m: nat) {
    && WellFormed(h) && i < |h.order| && h.order[i] in h.blocks && h.order[i] != h.large
    && Placed(h.blocks, h.base, h.large, h.order[i])
    && CanMerge(h, h.order[i])
    && m < |h.order| && h.order[m] == h.blocks[h.order[i]].left
  }

  lemma {:induction false} HeadMerged(h: HeapState, i: nat, m: nat, x: nat)
    requires Merges(h, i, m) && x in Merge(h, i).blocks
    ensures x in h.blocks && LeftIsFree(Merge(h, i), x) == LeftIsFree(h, x)
    ensures Head(Merge(h, i), x) == Head(h, x)
    decreases x
  {
    var h', c := Merge(h, i), h.order[i];
    assert c in h.order;
    TiledPlaced(h.blocks, h.base, h.large, x);
    if LeftIsFree(h, x) && h.blocks[x].left < x {
      var l := h'.blocks[x].left;
      assert l in h'.blocks;
      HeadMerged(h, i, m, l);
    }
  }

  lemma JointMerged(h: HeapState, i: nat, m: nat, x: nat)
    requires Merges(h, i, m) && x in Merge(h, i).blocks
    ensures x in h.blocks
    ensures Joint(Merge(h, i), x) == Joint(h, if x == h.order[m] then h.order[i] else x)
  {
    HeadMerged(h, i, m, x);
  }

  function After(i: nat, x: nat): nat
    requires x != i
  {
    if x < i then x else x - 1
  }

  lemma MovedUp(h: HeapState, i: nat, m: nat, x: nat)
    requires Merges(h, i, m) && x < |h.order| && x != i
    ensures var h' := Merge(h, i);
            && After(i, x) < |h'.order| && h'.order[After(i, x)] == h.order[x]
            && h.order[x] in h'.blocks && h.order[x] != h.order[i] && (h.order[x] == h.order[m] <==> x == m)
            && (x != m ==> h'.blocks[h.order[x]].size == h.blocks[h.order[x]].size)
  {
    assert h.order[x] in h.order && h.order[i] in h.order && h.order[m] in h.order;
  }

  /** What the search of an ordered list keeps in front of index k. */
  ghost predicate Sorted(h: HeapState, i: nat, k: nat) {
    Backward(h, k) && Bounded(h, k) && Settled(h, i) && i <= k
  }

  lemma MergeKeepsSettled(h: HeapState, i: nat, m: nat, k: nat)
    requires Merges(h, i, m) && Sorted(h, i, k) && i < k
    ensures m < i && Settled(Merge(h, i), m + 1)
  {
    var h', l := Merge(h, i), h.order[m];
    assert StandsBehind(h, i);
    var m' :| 0 <= m' < i && h.order[m'] == l;
    assert m' == m;
    forall j {:trigger h'.order[j]} | 0 <= j < m + 1
      ensures h'.order[j] in h'.blocks && !LeftIsFree(h', h'.order[j])
    {
      MovedUp(h, i, m, j);
      HeadMerged(h, i, m, h.order[j]);
    }
  }

  lemma MergeKeepsBounded(h: HeapState, i: nat, m: nat, k: nat)
    requires Merges(h, i, m) && Bounded(h, k) && i < k
    ensures Bounded(Merge(h, i), k - 1)
  {
    var h' := Merge(h, i);
    forall j {:trigger h'.order[j]} | 0 <= j < k - 1
      ensures h'.order[j] in h'.blocks && Joint(h', h'.order[j]) <= INT_MAX
    {
      MovedUp(h, i, m, Before(i, j));
      JointMerged(h, i, m, h'.order[j]);
      assert h.order[i] in h.blocks;
    }
  }

  /** The merged block has the head of its left part, which stands elsewhere. */
  lemma MergedHead(h: HeapState, i: nat, m: nat)
    requires Merges(h, i, m)
    ensures h.order[i] in h.blocks && h.blocks[h.order[i]].left in h.blocks && End(h.blocks, h.order[i]) in h.blocks
    ensures LeftIsFree(h, h.order[i]) && h.order[m] in h.blocks && m != i
    ensures |Merge(h, i).order| == |h.order| - 1
    ensures Head(h, h.order[i]) == Head(h, h.order[m])
    ensures Joint(h, h.order[i]) >= Joint(h, h.order[m])
  {
    assert h.order[m] in h.order;
    TiledPlaced(h.blocks, h.base, h.large, h.order[i]);
    TiledPlaced(h.blocks, h.base, h.large, h.order[m]);
  }

  lemma LeftMerged(h: HeapState, i: nat, m: nat, x: nat)
    requires Merges(h, i, m) && x in Merge(h, i).blocks
    ensures x in h.blocks && LeftIsFree(Merge(h, i), x) == LeftIsFree(h, x)
    ensures LeftIsFree(h, x) ==>
              Merge(h, i).blocks[x].left == if h.blocks[x].left == h.order[i] then h.order[m] else h.blocks[x].left
  {
    HeadMerged(h, i, m, x);
    TiledPlaced(h.blocks, h.base, h.large, x);
  }

  lemma MovedBackward(h: HeapState, i: nat, m: nat, k: nat, j: nat)
    requires Merges(h, i, m) && Backward(h, k) && i < k && m < i && j < k - 1
    ensures StandsBehind(Merge(h, i), j)
  {
    MergedHead(h, i, m);
    MovedUp(h, i, m, Before(i, j));
    hide Merges, Merge, LeftIsFree;
    var h' := Merge(h, i);
    var x, j0 := h'.order[j], Before(i, j);
    LeftMerged(h, i, m, x);
    if LeftIsFree(h', x) {
      assert h.order[j0] == x && StandsBehind(h, j0);
      var y :| 0 <= y < j0 && h.order[y] == h.blocks[x].left;
      var z := if y == i then m else y;
      MovedUp(h, i, m, z);
      assert After(i, z) < j && h'.order[After(i, z)] == h'.blocks[x].left;
      assert h'.order[..j][After(i, z)] == h'.blocks[x].left;
    }
  }

  lemma MergeKeepsBackward(h: HeapState, i: nat, m: nat, k: nat)
    requires Merges(h, i, m) && Sorted(h, i, k) && i < k
    ensures Backward(Merge(h, i), k - 1)
  {
    MergeKeepsSettled(h, i, m, k);
    MovedUp(h, i, m, m);
    hide Merges, LeftIsFree;
    forall j: nat {:trigger StandsBehind(Merge(h, i), j)} | j < k - 1 ensures StandsBehind(Merge(h, i), j) {
      MovedBackward(h, i, m, k, j);
    }
  }

  lemma {:induction false} HeadStands(h: HeapState, c: nat)
    requires WellFormed(h) && c in h.blocks
    ensures Head(h, c) in h.blocks && !LeftIsFree(h, Head(h, c))
    decreases c
  {
    TiledPlaced(h.blocks, h.base, h.large, c);
    if LeftIsFree(h, c) {
      HeadStands(h, h.blocks[c].left);
    }
  }

  lemma SettledHead(h: HeapState, i: nat, j: nat)
    requires Settled(h, i) && j < i
    ensures h.order[j] in h.blocks && Head(h, h.order[j]) == h.order[j]
    ensures Joint(h, h.order[j]) == h.blocks[h.order[j]].size
  {
  }

  /** All of this for the entry at index x. */
  lemma Carried(h: HeapState, i: nat, m: nat, x: nat)
    requires Merges(h, i, m) && x < |h.order| && x != i
    ensures var h', a := Merge(h, i), h.order[x];
            && |h'.order| == |h.order| - 1
            && After(i, x) < |h'.order| && h'.order[After(i, x)] == a
            && a in h.blocks && a in h'.blocks
            && LeftIsFree(h', a) == LeftIsFree(h, a) && Head(h', a) == Head(h, a)
            && Joint(h', a) == Joint(h, if x == m then h.order[i] else a)
  {
    MovedUp(h, i, m, x);
    HeadMerged(h, i, m, h.order[x]);
    JointMerged(h, i, m, h.order[x]);
  }

  /** No head has a free left neighbour, so it is not the block to be merged. */
  lemma HeadElsewhere(h: HeapState, i: nat, m: nat, x: nat, p: nat)
    requires Merges(h, i, m) && x in h.blocks && p < |h.order| && Head(h, x) == h.order[p]
    ensures p != i
  {
    HeadStands(h, x);
  }

  /** What is overtaken after a merge was so before it. */
  lemma OvertakenBefore(h: HeapState, i: nat, need: nat, k: nat, m: nat, b: nat, c: nat, p: nat, q: nat)
    requires Merges(h, i, m) && Settled(h, i) && i < k && m < i
    requires Overtakes(Merge(h, i), need, k - 1, b, c, p, q)
    ensures Overtaken(h, need, k)
  {
    hide Merges, Merge, Head, LeftIsFree, Joint, WellFormed, Tiled;
    var b0 := if b == m then i else Before(i, b);
    MergedHead(h, i, m);
    Carried(h, i, m, Before(i, b));
    Carried(h, i, m, Before(i, c));
    Carried(h, i, m, Before(i, p));
    Carried(h, i, m, Before(i, q));
    assert Before(i, c) > i;
    assert Overtakes(h, need, k, b0, Before(i, c), Before(i, p), Before(i, q));
  }

  /** A block passed over by the cursor that is large enough is overtaken by the
      merge, which sends the cursor back to before it. */
  lemma FitsBefore(h: HeapState, i: nat, need: nat, k: nat, m: nat, j: nat)
    requires Merges(h, i, m) && Sorted(h, i, k) && i < k && m < i
    requires m + 1 <= j < k - 1 && Fits(Merge(h, i), need, j)
    ensures FitsEarlier(h, i, need, k) || Overtaken(h, need, k)
  {
    hide Merges, Merge, Head, LeftIsFree, Joint, WellFormed;
    var j0 := Before(i, j);
    MergedHead(h, i, m);
    MovedUp(h, i, m, j0);
    Carried(h, i, m, j0);
    if j0 >= i {
      assert Fits(h, need, j0);
    } else {
      SettledHead(h, i, j0);
      SettledHead(h, i, m);
      assert Overtakes(h, need, k, j0, i, j0, m);
    }
  }

  lemma FitsAfter(h: HeapState, i: nat, need: nat, k: nat, m: nat, j: nat)
    requires Merges(h, i, m) && i < j < k && m < i && Fits(h, need, j)
    ensures FitsEarlier(Merge(h, i), m + 1, need, k - 1)
  {
    MovedUp(h, i, m, j);
    assert Fits(Merge(h, i), need, j - 1);
  }

  lemma OvertakenAfter(h: HeapState, i: nat, need: nat, k: nat, m: nat, b: nat, c: nat, p: nat, q: nat)
    requires Merges(h, i, m) && Settled(h, i) && i < k && m < i && Overtakes(h, need, k, b, c, p, q) && c != i
    ensures Overtaken(Merge(h, i), need, k - 1)
  {
    hide Merges, Merge, Head, LeftIsFree, Joint, WellFormed, Tiled;
    var b' := if b == i then m else After(i, b);
    HeadElsewhere(h, i, m, h.order[b], p);
    HeadElsewhere(h, i, m, h.order[c], q);
    MergedHead(h, i, m);
    Carried(h, i, m, if b == i then m else b);
    Carried(h, i, m, c);
    Carried(h, i, m, p);
    Carried(h, i, m, q);
    assert c > i;
    assert Overtakes(Merge(h, i), need, k - 1, b', c - 1, After(i, p), After(i, q));
  }

  /** The merge itself overtakes: the block made large enough is before the cursor
      again. */
  lemma OvertakenNow(h: HeapState, i: nat, need: nat, k: nat, m: nat, b: nat, p: nat, q: nat)
    requires Merges(h, i, m) && Settled(h, i) && i < k && m < i && Overtakes(h, need, k, b, i, p, q)
    ensures FitsEarlier(Merge(h, i), m + 1, need, k - 1)
  {
    SettledHead(h, i, b);
    SettledHead(h, i, m);
    MergedHead(h, i, m);
    assert b == p && m == q;
    MovedUp(h, i, m, b);
    assert Fits(Merge(h, i), need, b);
  }

  lemma MergeKeepsOvertaken(h: HeapState, i: nat, need: nat, k: nat, m: nat)
    requires Merges(h, i, m) && Sorted(h, i, k) && i < k && !Fits(h, need, i) && m < i
    ensures FitsEarlier(h, i, need, k) || Overtaken(h, need, k) <==>
            FitsEarlier(Merge(h, i), m + 1, need, k - 1) || Overtaken(Merge(h, i), need, k - 1)
  {
    hide Merges, Merge, Overtakes, Fits, WellFormed;
    MergedHead(h, i, m);
    var h' := Merge(h, i);
    if FitsEarlier(h, i, need, k) {
      var j: nat :| i <= j < k && Fits(h, need, j);
      FitsAfter(h, i, need, k, m, j);
    }
    if Overtaken(h, need, k) {
      var b, c, p, q :| Overtakes(h, need, k, b, c, p, q);
      if c == i {
        OvertakenNow(h, i, need, k, m, b, p, q);
      } else {
        OvertakenAfter(h, i, need, k, m, b, c, p, q);
      }
    }
    if FitsEarlier(h', m + 1, need, k - 1) {
      var j: nat :| m + 1 <= j < k - 1 && Fits(h', need, j);
      FitsBefore(h, i, need, k, m, j);
    }
    if Overtaken(h', need, k - 1) {
      var b, c, p, q :| Overtakes(h', need, k - 1, b, c, p, q);
      OvertakenBefore(h, i, need, k, m, b, c, p, q);
    }
  }

  // The whole search

  lemma AtFit(h: HeapState, i: nat, need: nat, k: nat)
    requires WellFormed(h) && Sorted(h, i, k) && Fits(h, need, k) && Fits(h, need, i)
    ensures Taken(h, i, need) == Some(h.order[i])
    ensures Taken(h, i, need) == Some(h.order[k]) <==> !FitsEarlier(h, i, need, k) && !Overtaken(h, need, k)
  {
    assert i == k ==> !Overtaken(h, need, k);
  }

  lemma MergePoint(h: HeapState, i: nat, k: nat) returns (m: nat)
    requires WellFormed(h) && Sorted(h, i, k) && i < k && h.order[i] in h.blocks && LeftIsFree(h, h.order[i])
    ensures Merges(h, i, m) && m < i
  {
    var c := h.order[i];
    var l := h.blocks[c].left;
    assert StandsBehind(h, i);
    m :| 0 <= m < i && h.order[m] == l;
    assert c in h.order;
    TiledPlaced(h.blocks, h.base, h.large, c);
    HeadBefore(h, l);
    assert Joint(h, c) <= INT_MAX;
  }

  lemma FitStays(h: HeapState, i: nat, need: nat, k: nat, m: nat)
    requires Merges(h, i, m) && i < k && Fits(h, need, k) && m < i
    ensures Fits(Merge(h, i), need, k - 1) && Merge(h, i).order[k - 1] == h.order[k]
  {
    MovedUp(h, i, m, k);
  }

  lemma AfterMerge(h: HeapState, i: nat, need: nat, m: nat)
    requires Merges(h, i, m) && !Fits(h, need, i) && m < i
    ensures WellFormed(Merge(h, i)) && Taken(h, i, need) == Taken(Merge(h, i), m + 1, need)
  {
    MergeKeepsWellFormed(h, i);
    MovedUp(h, i, m, m);
  }

  lemma CursorInside(h: HeapState, i: nat, need: nat, k: nat)
    requires WellFormed(h) && Sorted(h, i, k) && Fits(h, need, k)
    ensures i <= k < |h.order| && h.order[i] in h.blocks
    ensures !Fits(h, need, i) ==> i < k
  {
    assert h.order[i] in h.order;
  }

  lemma MergeKeepsSorted(h: HeapState, i: nat, m: nat, k: nat)
    requires Merges(h, i, m) && Sorted(h, i, k) && i < k && m < i
    ensures h.order[i] in h.blocks && h.blocks[h.order[i]].left in h.blocks && End(h.blocks, h.order[i]) in h.blocks
    ensures WellFormed(Merge(h, i)) && Sorted(Merge(h, i), m + 1, k - 1)
    ensures |Merge(h, i).order| == |h.order| - 1
  {
    MergeKeepsWellFormed(h, i);
    MergeKeepsSettled(h, i, m, k);
    MergeKeepsBounded(h, i, m, k);
    MergeKeepsBackward(h, i, m, k);
    MergedHead(h, i, m);
  }

  lemma PassTaken(h: HeapState, i: nat, need: nat)
    requires WellFormed(h) && i < |h.order| && h.order[i] in h.blocks
    requires !Fits(h, need, i) && !LeftIsFree(h, h.order[i])
    ensures Taken(h, i, need) == Taken(h, i + 1, need)
  {
  }

  /** A block too small, without a free left neighbour. */
  lemma PassOn(h: HeapState, i: nat, need: nat, k: nat)
    requires WellFormed(h) && Sorted(h, i, k) && i < k && h.order[i] in h.blocks
    requires !Fits(h, need, i) && !LeftIsFree(h, h.order[i])
    ensures Sorted(h, i + 1, k) && Taken(h, i, need) == Taken(h, i + 1, need)
    ensures FitsEarlier(h, i, need, k) <==> FitsEarlier(h, i + 1, need, k)
  {
    hide Fits;
    if FitsEarlier(h, i, need, k) {
      var j: nat :| i <= j < k && Fits(h, need, j);
      assert i + 1 <= j;
    }
    PassTaken(h, i, need);
  }

  /** In front of a block that fits, at index k, the cursor stands at index i. */
  lemma {:induction false} TakenFrom(h: HeapState, i: nat, need: nat, k: nat)
    requires WellFormed(h) && Sorted(h, i, k) && Fits(h, need, k)
    ensures Taken(h, i, need).Some?
    ensures Taken(h, i, need) == Some(h.order[k]) <==> !FitsEarlier(h, i, need, k) && !Overtaken(h, need, k)
    decreases |h.order|, |h.order| - i
  {
    hide Sorted, FitsEarlier, Overtaken, Taken, Merge, Merges, Fits;
    CursorInside(h, i, need, k);
    var c := h.order[i];
    if Fits(h, need, i) {
      AtFit(h, i, need, k);
    } else if LeftIsFree(h, c) {
      var m := MergePoint(h, i, k);
      MergeKeepsSorted(h, i, m, k);
      MergeKeepsOvertaken(h, i, need, k, m);
      FitStays(h, i, need, k, m);
      TakenFrom(Merge(h, i), m + 1, need, k - 1);
      AfterMerge(h, i, need, m);
    } else {
      PassOn(h, i, need, k);
      TakenFrom(h, i + 1, need, k);
    }
  }

  /** Of a list whose first k blocks stand behind their free left neighbours, the
      scan takes the first fit, exactly unless it is overtaken. */
  lemma FirstFitTakenIff(h: HeapState, need: nat, k: nat)
    requires WellFormed(h) && IsFirstFit(h, 0, need, k) && k < |h.order| && Backward(h, k) && Bounded(h, k)
    ensures Taken(h, 0, need).Some?
    ensures Taken(h, 0, need) == Some(h.order[k]) <==> !Overtaken(h, need, k)
  {
    TakenFrom(h, 0, need, k);
  }

  /** An ordered list is such a list. */
  lemma OrderedIsBackward(h: HeapState, need: nat, k: nat)
    requires WellFormed(h) && OrderedFor(h, need) && IsFirstFit(h, 0, need, k)
    ensures Backward(h, k)
  {
    forall j: nat {:trigger StandsBehind(h, j)} | j < k ensures StandsBehind(h, j) {
      var c := h.order[j];
      assert c in h.order;
      TiledPlaced(h.blocks, h.base, h.large, c);
      if LeftIsFree(h, c) {
        var l := h.blocks[c].left;
        TiledPlaced(h.blocks, h.base, h.large, l);
        assert l in h.order;
        var m := IndexOf(h.order, l);
        assert End(h.blocks, h.order[m]) == h.order[j];
        assert h.order[..j][m] == l;
      }
    }
  }
}
