// The blocks of a heap as values: what the headers say, when they tile the
// region, and what splitting, merging and carving do to them.
module BlockTable {

  const BLOCK: nat := 16                 // sizeof(Block), release layout
  const LARGE: nat := 24                 // sizeof(LargeBlock), release layout
  const ALIGNMENT: nat := 8              // sizeof(void*)
  const FREE_BIT: nat := 0x8000_0000
  const INT_MAX: nat := 0x7FFF_FFFF

  /** What one header records; left is the address of the block before it, or
      0 (no address of the heap) for the first block. */
  datatype Info = Info(size: nat, free: bool, left: nat)

  type Table = map<nat, Info>

  function End(t: Table, a: nat): nat
    requires a in t
  {
    a + BLOCK + t[a].size
  }

  /** Where block a lies and which neighbours its header reaches. */
  ghost predicate Placed(t: Table, base: nat, large: nat, a: nat)
    requires a in t
  {
    && base <= a <= large && a % ALIGNMENT == 0
    && (a != large ==>
          && 0 < t[a].size < INT_MAX && t[a].size % ALIGNMENT == 0
          && End(t, a) in t && t[End(t, a)].left == a)
    && (a == base ==> t[a].left == 0)
    && (a != base ==> t[a].left in t && t[a].left != large && End(t, t[a].left) == a)
  }

  ghost predicate Apart(t: Table, a: nat, b: nat)
    requires a in t && b in t
  {
    a < b ==> End(t, a) <= b
  }

  /** The blocks tile the addresses from base up to the sentinel at `large`,
      the links to the left and to the right are inverse, and the sentinel is
      the only free block of size 0. */
  ghost predicate Tiled(t: Table, base: nat, large: nat) {
    && 0 < base && base % ALIGNMENT == 0
    && base in t && large in t
    && t[large].free && t[large].size == 0
    && (forall a {:trigger Placed(t, base, large, a)} :: a in t ==> Placed(t, base, large, a))
    && (forall a, b {:trigger Apart(t, a, b)} :: a in t && b in t ==> Apart(t, a, b))
  }

  // Splitting, merging, carving

  function SetFreeTable(t: Table, a: nat, free: bool): Table
    requires a in t
  {
    t[a := t[a].(free := free)]
  }

  /** Block::Splice: b keeps `keep` bytes and the rest becomes a free block. */
  function SpliceTable(t: Table, b: nat, keep: nat): Table
    requires b in t && keep + BLOCK <= t[b].size && End(t, b) in t
  {
    var rest := b + BLOCK + keep;
    var right := End(t, b);
    t[b := t[b].(size := keep)]
     [rest := Info(t[b].size - keep - BLOCK, true, b)]
     [right := t[right].(left := rest)]
  }

  /** Block::EatLeftBlock: c becomes part of the block to its left. */
  function MergeTable(t: Table, c: nat): Table
    requires c in t && t[c].left in t && End(t, c) in t
  {
    var l := t[c].left;
    var right := End(t, c);
    (t - {c})[l := t[l].(size := t[l].size + t[c].size + BLOCK)][right := t[right].(left := l)]
  }

  /** LargeBlock::AllocateBlock: the sentinel's header becomes a block of
      `size` bytes and a new sentinel follows it. */
  function CarveTable(t: Table, large: nat, size: nat): Table
    requires large in t
  {
    t[large := Info(size, false, t[large].left)][large + BLOCK + size := Info(0, true, large)]
  }

  /** LargeBlock::EatLeftBlock: the sentinel takes the place of the block
      before it. */
  function UncarveTable(t: Table, large: nat): Table
    requires large in t && t[large].left in t
  {
    var l := t[large].left;
    (t - {large})[l := Info(0, true, t[l].left)]
  }

  lemma TiledPlaced(t: Table, base: nat, large: nat, a: nat)
    requires Tiled(t, base, large) && a in t
    ensures Placed(t, base, large, a)
  {
  }

  lemma TiledApart(t: Table, base: nat, large: nat, a: nat, b: nat)
    requires Tiled(t, base, large) && a in t && b in t
    ensures Apart(t, a, b)
  {
  }

  lemma SetFreeKeepsTiling(t: Table, base: nat, large: nat, b: nat, free: bool)
    requires Tiled(t, base, large) && b in t && b != large
    ensures Tiled(SetFreeTable(t, b, free), base, large)
  {
    var t' := SetFreeTable(t, b, free);
    forall x | x in t' ensures Placed(t', base, large, x) {
      assert Placed(t, base, large, x);
    }
    forall x, y | x in t' && y in t' ensures Apart(t', x, y) {
      assert Apart(t, x, y);
    }
  }

  lemma SplicePlaced(t: Table, base: nat, large: nat, b: nat, keep: nat, x: nat)
    requires Tiled(t, base, large) && b in t && b != large
    requires Placed(t, base, large, b)
    requires 0 < keep && keep % ALIGNMENT == 0 && keep + BLOCK < t[b].size
    requires b + BLOCK + keep !in t
    requires x in t && Placed(t, base, large, x)
    ensures Placed(SpliceTable(t, b, keep), base, large, x)
  {
  }

  lemma SpliceRestPlaced(t: Table, base: nat, large: nat, b: nat, keep: nat)
    requires Tiled(t, base, large) && b in t && b != large
    requires Placed(t, base, large, b)
    requires 0 < keep && keep % ALIGNMENT == 0 && keep + BLOCK < t[b].size
    requires b + BLOCK + keep !in t
    ensures Placed(SpliceTable(t, b, keep), base, large, b + BLOCK + keep)
  {
    var t' := SpliceTable(t, b, keep);
    var rest, right := b + BLOCK + keep, End(t, b);
    assert Placed(t, base, large, right);
    assert t'[rest] == Info(t[b].size - keep - BLOCK, true, b);
    assert End(t', rest) == right && t'[right].left == rest;
    assert t'[b].size == keep;
  }

  lemma SpliceApart(t: Table, base: nat, large: nat, b: nat, keep: nat, x: nat, y: nat)
    requires Tiled(t, base, large) && b in t && b != large
    requires Placed(t, base, large, b)
    requires keep + BLOCK < t[b].size
    requires b + BLOCK + keep !in t
    requires x in t && y in t && Apart(t, x, y)
    requires Apart(t, x, b) && Apart(t, b, x) && Apart(t, b, y) && Apart(t, y, b)
    ensures Apart(SpliceTable(t, b, keep), x, y)
    ensures Apart(SpliceTable(t, b, keep), x, b + BLOCK + keep)
    ensures Apart(SpliceTable(t, b, keep), b + BLOCK + keep, y)
  {
  }

  lemma SpliceKeepsTiling(t: Table, base: nat, large: nat, b: nat, keep: nat)
    requires Tiled(t, base, large) && b in t && b != large
    requires 0 < keep && keep % ALIGNMENT == 0 && keep + BLOCK < t[b].size
    requires Placed(t, base, large, b)
    ensures b + BLOCK + keep !in t
    ensures Tiled(SpliceTable(t, b, keep), base, large)
  {
    var t' := SpliceTable(t, b, keep);
    var rest := b + BLOCK + keep;
    assert rest !in t by { if rest in t { TiledApart(t, base, large, b, rest); } }
    SpliceRestPlaced(t, base, large, b, keep);
    forall x {:trigger Placed(t', base, large, x)} | x in t' ensures Placed(t', base, large, x) {
      if x != rest {
        SplicePlaced(t, base, large, b, keep, x);
      }
    }
    forall x, y {:trigger Apart(t', x, y)} | x in t' && y in t' ensures Apart(t', x, y) {
      SpliceApart(t, base, large, b, keep, if x == rest then b else x, if y == rest then b else y);
    }
  }

  lemma MergePlaced(t: Table, base: nat, large: nat, c: nat, x: nat)
    requires Tiled(t, base, large) && c in t && c != large && c != base
    requires Placed(t, base, large, c) && Placed(t, base, large, t[c].left)
    requires t[t[c].left].size + t[c].size + BLOCK < INT_MAX
    requires x in t && x != c && Placed(t, base, large, x)
    ensures Placed(MergeTable(t, c), base, large, x)
  {
  }

  lemma MergeApart(t: Table, base: nat, large: nat, c: nat, x: nat, y: nat)
    requires Tiled(t, base, large) && c in t && c != large && c != base
    requires Placed(t, base, large, c)
    requires x in t && y in t && x != c && y != c
    requires Apart(t, x, y) && Apart(t, c, y) && Apart(t, y, c)
    ensures Apart(MergeTable(t, c), x, y)
  {
    assert Apart(t, t[c].left, y);
  }

  lemma MergeKeepsTiling(t: Table, base: nat, large: nat, c: nat)
    requires Tiled(t, base, large) && c in t && c != large && c != base
    requires Placed(t, base, large, c)
    requires t[t[c].left].size + t[c].size + BLOCK < INT_MAX
    ensures Tiled(MergeTable(t, c), base, large)
  {
    var t' := MergeTable(t, c);
    assert Placed(t, base, large, t[c].left);
    forall x {:trigger Placed(t', base, large, x)} | x in t' ensures Placed(t', base, large, x) {
      MergePlaced(t, base, large, c, x);
    }
    forall x, y {:trigger Apart(t', x, y)} | x in t' && y in t' ensures Apart(t', x, y) {
      MergeApart(t, base, large, c, x, y);
    }
  }

  lemma CarveKeepsTiling(t: Table, base: nat, large: nat, size: nat)
    requires Tiled(t, base, large)
    requires 0 < size < INT_MAX && size % ALIGNMENT == 0
    ensures large + BLOCK + size !in t
    ensures Tiled(CarveTable(t, large, size), base, large + BLOCK + size)
  {
    var t' := CarveTable(t, large, size);
    var large' := large + BLOCK + size;
    assert large' !in t by { if large' in t { TiledPlaced(t, base, large, large'); } }
    assert Placed(t, base, large, large);
    forall x {:trigger Placed(t', base, large', x)} | x in t' ensures Placed(t', base, large', x) {
      if x != large' {
        assert Placed(t, base, large, x);
      }
    }
    forall x, y {:trigger Apart(t', x, y)} | x in t' && y in t' ensures Apart(t', x, y) {
      if x != large' {
        assert Placed(t, base, large, x);
        assert Apart(t, x, large);
        if y != large' {
          assert Placed(t, base, large, y) && Apart(t, x, y);
        }
      } else if y != large' {
        assert Placed(t, base, large, y);
      }
    }
  }

  lemma UncarveKeepsTiling(t: Table, base: nat, large: nat)
    requires Tiled(t, base, large) && large != base
    requires Placed(t, base, large, large)
    ensures Tiled(UncarveTable(t, large), base, t[large].left)
  {
    var t' := UncarveTable(t, large);
    var l := t[large].left;
    assert Placed(t, base, large, l);
    forall x {:trigger Placed(t', base, l, x)} | x in t' ensures Placed(t', base, l, x) {
      assert Placed(t, base, large, x) && Apart(t, l, x);
      if x != l {
        assert Apart(t, x, large) && Apart(t, x, l);
      }
      if x != base {
        assert Placed(t, base, large, t[x].left);
      }
    }
    forall x, y {:trigger Apart(t', x, y)} | x in t' && y in t' ensures Apart(t', x, y) {
      assert Apart(t, x, y) && Placed(t, base, large, y);
      assert Placed(t', base, l, y);
    }
  }

  lemma SpliceThenMerge(t: Table, base: nat, large: nat, b: nat, keep: nat)
    requires Tiled(t, base, large) && b in t && b != large
    requires Placed(t, base, large, b)
    requires 0 < keep && keep % ALIGNMENT == 0 && keep + BLOCK < t[b].size
    ensures MergeTable(SpliceTable(t, b, keep), b + BLOCK + keep) == t
  {
    var rest := b + BLOCK + keep;
    assert rest !in t by { if rest in t { TiledApart(t, base, large, b, rest); } }
  }

  lemma CarveThenUncarve(t: Table, base: nat, large: nat, size: nat)
    requires Tiled(t, base, large)
    ensures UncarveTable(CarveTable(t, large, size), large + BLOCK + size) == t
  {
    var large' := large + BLOCK + size;
    assert large' !in t by { if large' in t { TiledPlaced(t, base, large, large'); } }
  }
}
