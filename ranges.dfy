/**
 * The dyadic range decomposition behind the range-count queries of the
 * CountMin sketch: `find_ranges(lo, hi, r)` splits [lo, hi] into blocks
 * [m * 2^l, (m + 1) * 2^l - 1] and writes them, in ascending order, into the
 * `spans` array of a `rangelist`, advancing its `emptyoffset` cursor.
 *
 * `Cover` is the reference definition (a recursive split of the node
 * [base, base + 2^power - 1] that holds the range); the methods fill the
 * fixed-size span array and are proved to produce exactly `Cover`.
 */
module DyadicRanges {
  import opened CountMin

  /** One inclusive span [lo, hi], a row of `rangelist.spans`. */
  datatype Span = Span(lo: int, hi: int)

  /** The last key of the node of width 2^power starting at base. */
  function NodeTop(base: int, power: nat): int
  {
    base + Pow2(power) - 1
  }

  /**
   * The canonical dyadic covering of [lo, hi] inside the node
   * [base, NodeTop(base, power)]: the whole node when the range is the node,
   * otherwise the coverings inside the one or two halves the range meets.
   */
  function Cover(lo: int, hi: int, base: int, power: nat): (r: seq<Span>)
    requires base <= lo <= hi <= NodeTop(base, power)
    ensures 1 <= |r|
    decreases power
  {
    if lo == base && hi == NodeTop(base, power) then [Span(lo, hi)]
    else if power == 0 then assert false; []
    else
      var mid := base + Pow2(power - 1);
      if hi < mid then Cover(lo, hi, base, power - 1)
      else if lo >= mid then Cover(lo, hi, mid, power - 1)
      else Cover(lo, mid - 1, base, power - 1) + Cover(mid, hi, mid, power - 1)
  }

  /** The covering `find_ranges` produces: from the root node [MINVAL, MAXVAL]. */
  function Decompose(lo: int, hi: int): (r: seq<Span>)
    requires lo <= hi ==> MINVAL <= lo && hi <= MAXVAL
    ensures lo > hi ==> r == []
  {
    if lo > hi then []
    else
      DomainConstants();
      Cover(lo, hi, MINVAL, RANGES - 1)
  }

  // ---------------------------------------------------------------------------
  // Tiling: the spans are ascending, contiguous and their union is [lo, hi]
  // ---------------------------------------------------------------------------

  /** `spans` tiles [lo, hi]: each starts where the previous one ended. */
  ghost predicate Tiles(spans: seq<Span>, lo: int, hi: int)
    decreases |spans|
  {
    if spans == [] then lo == hi + 1
    else spans[0].lo == lo && spans[0].lo <= spans[0].hi && Tiles(spans[1..], spans[0].hi + 1, hi)
  }

  lemma {:induction false} TilesConcat(a: seq<Span>, b: seq<Span>, lo: int, mid: int, hi: int)
    requires Tiles(a, lo, mid - 1) && Tiles(b, mid, hi)
    ensures Tiles(a + b, lo, hi)
    decreases |a|
  {
    if a != [] {
      TilesConcat(a[1..], b, a[0].hi + 1, mid, hi);
      assert (a + b)[1..] == a[1..] + b;
    } else {
      assert a + b == b;
    }
  }

  lemma {:induction false} CoverTiles(lo: int, hi: int, base: int, power: nat)
    requires base <= lo <= hi <= NodeTop(base, power)
    ensures Tiles(Cover(lo, hi, base, power), lo, hi)
    decreases power
  {
    if lo == base && hi == NodeTop(base, power) {
      assert Cover(lo, hi, base, power)[1..] == [];
    } else {
      var mid := base + Pow2(power - 1);
      if hi < mid {
        CoverTiles(lo, hi, base, power - 1);
      } else if lo >= mid {
        CoverTiles(lo, hi, mid, power - 1);
      } else {
        CoverTiles(lo, mid - 1, base, power - 1);
        CoverTiles(mid, hi, mid, power - 1);
        TilesConcat(Cover(lo, mid - 1, base, power - 1), Cover(mid, hi, mid, power - 1), lo, mid, hi);
      }
    }
  }

  /** Key x lies in span s. */
  predicate InSpan(s: Span, x: int)
  {
    s.lo <= x <= s.hi
  }

  /** Key x lies in one of the spans. */
  ghost predicate Covered(spans: seq<Span>, x: int)
  {
    exists i :: 0 <= i < |spans| && InSpan(spans[i], x)
  }

  /** What tiling means: ordered, disjoint spans whose union is exactly [lo, hi]. */
  lemma {:induction false} TilesMeaning(spans: seq<Span>, lo: int, hi: int)
    requires Tiles(spans, lo, hi)
    ensures forall i :: 0 <= i < |spans| ==> lo <= spans[i].lo <= spans[i].hi <= hi
    ensures forall i, j :: 0 <= i < j < |spans| ==> spans[i].hi < spans[j].lo
    ensures forall x :: lo <= x <= hi <==> Covered(spans, x)
    decreases |spans|
  {
    if spans != [] {
      var rest := spans[1..];
      TilesMeaning(rest, spans[0].hi + 1, hi);
      forall i, j | 0 <= i < j < |spans|
        ensures spans[i].hi < spans[j].lo
      {
        assert spans[j] == rest[j - 1];
        if i > 0 { assert spans[i] == rest[i - 1]; }
      }
      forall x | lo <= x <= hi
        ensures Covered(spans, x)
      {
        if x > spans[0].hi {
          assert Covered(rest, x);
          var k :| 0 <= k < |rest| && InSpan(rest[k], x);
          assert spans[k + 1] == rest[k];
        } else {
          assert InSpan(spans[0], x);
        }
      }
      forall x | Covered(spans, x)
        ensures lo <= x <= hi
      {
        var k :| 0 <= k < |spans| && InSpan(spans[k], x);
        if k > 0 { assert spans[k] == rest[k - 1]; }
      }
      forall i | 0 <= i < |spans|
        ensures lo <= spans[i].lo <= spans[i].hi <= hi
      {
        if i > 0 { assert spans[i] == rest[i - 1]; }
      }
    }
  }

  /** Decompose(lo, hi) covers every key of [lo, hi] once and nothing else. */
  lemma DecomposeTiles(lo: int, hi: int)
    requires lo <= hi && MINVAL <= lo && hi <= MAXVAL
    ensures Tiles(Decompose(lo, hi), lo, hi)
    ensures var r := Decompose(lo, hi);
      && (forall i, j :: 0 <= i < j < |r| ==> r[i].hi < r[j].lo)
      && (forall x :: lo <= x <= hi <==> Covered(r, x))
  {
    DomainConstants();
    CoverTiles(lo, hi, MINVAL, RANGES - 1);
    TilesMeaning(Decompose(lo, hi), lo, hi);
  }

  // ---------------------------------------------------------------------------
  // Every span is a dyadic block
  // ---------------------------------------------------------------------------

  /** s is the block [m * 2^level, (m + 1) * 2^level - 1]. */
  predicate DyadicBlock(s: Span, level: nat, m: int)
  {
    s.lo == m * Pow2(level) && s.hi == s.lo + Pow2(level) - 1
  }

  /** s is a dyadic block of one of the LONGBITS levels. */
  ghost predicate Dyadic(s: Span)
  {
    exists level: nat, m: int :: level < LONGBITS && DyadicBlock(s, level, m)
  }

  lemma {:induction false} CoverDyadic(lo: int, hi: int, base: int, power: nat, m: int)
    requires base <= lo <= hi <= NodeTop(base, power)
    requires power < LONGBITS && base == m * Pow2(power)
    ensures forall i :: 0 <= i < |Cover(lo, hi, base, power)| ==> Dyadic(Cover(lo, hi, base, power)[i])
    decreases power
  {
    var r := Cover(lo, hi, base, power);
    if lo == base && hi == NodeTop(base, power) {
      assert DyadicBlock(r[0], power, m);
    } else {
      var half := Pow2(power - 1);
      var mid := base + half;
      ChildMultipliers(m, half);
      if hi < mid {
        CoverDyadic(lo, hi, base, power - 1, 2 * m);
      } else if lo >= mid {
        CoverDyadic(lo, hi, mid, power - 1, 2 * m + 1);
      } else {
        var left, right := Cover(lo, mid - 1, base, power - 1), Cover(mid, hi, mid, power - 1);
        CoverDyadic(lo, mid - 1, base, power - 1, 2 * m);
        CoverDyadic(mid, hi, mid, power - 1, 2 * m + 1);
        forall i | 0 <= i < |r|
          ensures Dyadic(r[i])
        {
          if i >= |left| { assert r[i] == right[i - |left|]; }
          else { assert r[i] == left[i]; }
        }
      }
    }
  }

  lemma ChildMultipliers(m: int, half: int)
    ensures m * (2 * half) == (2 * m) * half
    ensures (2 * m) * half + half == (2 * m + 1) * half
  {
  }

  /** Every span of a decomposition narrower than the whole domain is dyadic. */
  lemma DecomposeDyadic(lo: int, hi: int)
    requires lo <= hi && MINVAL <= lo && hi <= MAXVAL
    requires hi - lo + 1 < Pow2(RANGES - 1)
    ensures forall i :: 0 <= i < |Decompose(lo, hi)| ==> Dyadic(Decompose(lo, hi)[i])
  {
    DomainConstants();
    var half: int := Pow2(62);
    var r := Decompose(lo, hi);
    assert MINVAL == -1 * half;
    assert MINVAL + Pow2(62) == 0;
    if hi < 0 {
      assert r == Cover(lo, hi, MINVAL, 62);
      CoverDyadic(lo, hi, MINVAL, 62, -1);
    } else if lo >= 0 {
      assert r == Cover(lo, hi, 0, 62);
      CoverDyadic(lo, hi, 0, 62, 0);
    } else {
      var left, right := Cover(lo, -1, MINVAL, 62), Cover(0, hi, 0, 62);
      CoverDyadic(lo, -1, MINVAL, 62, -1);
      CoverDyadic(0, hi, 0, 62, 0);
      forall i | 0 <= i < |r|
        ensures Dyadic(r[i])
      {
        if i >= |left| { assert r[i] == right[i - |left|]; }
        else { assert r[i] == left[i]; }
      }
    }
  }

  // ---------------------------------------------------------------------------
  // How many spans: at most 2k for a range narrower than 2^k
  // ---------------------------------------------------------------------------

  lemma Pow2Below(a: nat, b: nat)
    requires Pow2(a) < Pow2(b)
    ensures a < b
  {
    if b <= a { Pow2Monotone(b, a); }
  }

  /** A range that ends where its node ends needs at most k spans. */
  lemma {:induction false} SuffixCount(lo: int, base: int, power: nat, k: nat)
    requires base <= lo <= NodeTop(base, power)
    requires NodeTop(base, power) - lo + 1 < Pow2(k)
    ensures |Cover(lo, NodeTop(base, power), base, power)| <= k
    decreases power
  {
    var top := NodeTop(base, power);
    if lo == base {
    } else {
      var mid := base + Pow2(power - 1);
      assert NodeTop(mid, power - 1) == top;
      if lo >= mid {
        SuffixCount(lo, mid, power - 1, k);
      } else {
        Pow2Below(power - 1, k);
        Pow2Monotone(power - 1, k - 1);
        SuffixCount(lo, base, power - 1, k - 1);
        assert |Cover(mid, top, mid, power - 1)| == 1;
      }
    }
  }

  /** A range that starts where its node starts needs at most k spans. */
  lemma {:induction false} PrefixCount(hi: int, base: int, power: nat, k: nat)
    requires base <= hi <= NodeTop(base, power)
    requires hi - base + 1 < Pow2(k)
    ensures |Cover(base, hi, base, power)| <= k
    decreases power
  {
    if hi == NodeTop(base, power) {
    } else {
      var mid := base + Pow2(power - 1);
      if hi < mid {
        PrefixCount(hi, base, power - 1, k);
      } else {
        Pow2Below(power - 1, k);
        Pow2Monotone(power - 1, k - 1);
        PrefixCount(hi, mid, power - 1, k - 1);
        assert |Cover(base, mid - 1, base, power - 1)| == 1;
      }
    }
  }

  /** Any range narrower than 2^k needs at most 2k spans. */
  lemma {:induction false} CoverCount(lo: int, hi: int, base: int, power: nat, k: nat)
    requires base <= lo <= hi <= NodeTop(base, power)
    requires hi - lo + 1 < Pow2(k)
    ensures |Cover(lo, hi, base, power)| <= 2 * k
    decreases power
  {
    if lo == base && hi == NodeTop(base, power) {
    } else {
      var mid := base + Pow2(power - 1);
      if hi < mid {
        CoverCount(lo, hi, base, power - 1, k);
      } else if lo >= mid {
        CoverCount(lo, hi, mid, power - 1, k);
      } else {
        SuffixCount(lo, base, power - 1, k);
        PrefixCount(hi, mid, power - 1, k);
      }
    }
  }

  /** The widest range whose decomposition fits the LONGBITS rows of `spans`. */
  const MAX_WIDTH: nat := Pow2(LONGBITS / 2) - 1

  /** A range of at most MAX_WIDTH keys fits the span array. */
  lemma DecomposeFits(lo: int, hi: int)
    requires lo <= hi && MINVAL <= lo && hi <= MAXVAL
    requires hi - lo + 1 <= MAX_WIDTH
    ensures |Decompose(lo, hi)| <= LONGBITS
  {
    DomainConstants();
    CoverCount(lo, hi, MINVAL, RANGES - 1, LONGBITS / 2);
  }

  /** A node without its first key splits into exactly one span per level. */
  lemma {:induction false} SuffixExact(base: int, power: nat)
    requires power >= 1
    ensures |Cover(base + 1, NodeTop(base, power), base, power)| == power
    decreases power
  {
    var mid := base + Pow2(power - 1);
    if power > 1 {
      Pow2Monotone(1, power - 1);
      assert Cover(base + 1, NodeTop(base, power), base, power)
          == Cover(base + 1, mid - 1, base, power - 1) + Cover(mid, NodeTop(base, power), mid, power - 1);
      SuffixExact(base, power - 1);
    }
  }

  /** A node without its last key splits into exactly one span per level. */
  lemma {:induction false} PrefixExact(base: int, power: nat)
    requires power >= 1
    ensures |Cover(base, NodeTop(base, power) - 1, base, power)| == power
    decreases power
  {
    var mid := base + Pow2(power - 1);
    if power > 1 {
      Pow2Monotone(1, power - 1);
      assert Cover(base, NodeTop(base, power) - 1, base, power)
          == Cover(base, mid - 1, base, power - 1) + Cover(mid, NodeTop(base, power) - 1, mid, power - 1);
      PrefixExact(mid, power - 1);
    }
  }

  /** A range that meets both halves of a node splits at the midpoint. */
  lemma CoverStraddle(lo: int, hi: int, base: int, power: nat)
    requires power >= 1
    requires base <= lo < base + Pow2(power - 1) <= hi <= NodeTop(base, power)
    requires lo != base || hi != NodeTop(base, power)
    ensures Cover(lo, hi, base, power)
         == Cover(lo, base + Pow2(power - 1) - 1, base, power - 1) + Cover(base + Pow2(power - 1), hi, base + Pow2(power - 1), power - 1)
  {
  }

  /** A range of non-negative keys is split inside the upper half of the root. */
  lemma DecomposeUpper(lo: int, hi: int)
    requires 0 <= lo <= hi <= MAXVAL
    ensures MAXVAL == NodeTop(0, RANGES - 2) && Decompose(lo, hi) == Cover(lo, hi, 0, RANGES - 2)
  {
    DomainConstants();
    assert MINVAL + Pow2(RANGES - 2) == 0;
  }

  /** A node without its first and last keys splits into two spans per level below it. */
  lemma NodeInterior(base: int, power: nat)
    requires power >= 2
    ensures Pow2(power) >= 4 && |Cover(base + 1, NodeTop(base, power) - 1, base, power)| == 2 * (power - 1)
  {
    Pow2Monotone(1, power - 1);
    var mid := base + Pow2(power - 1);
    CoverStraddle(base + 1, NodeTop(base, power) - 1, base, power);
    assert NodeTop(base, power) - 1 == NodeTop(mid, power - 1) - 1;
    SuffixExact(base, power - 1);
    PrefixExact(mid, power - 1);
  }

  /** The upper half of the root is the node [0, MAXVAL], wide enough for [1, MAXVAL - 1]. */
  lemma UpperNode()
    ensures MINVAL <= 1 && 2 <= MAXVAL && MAXVAL == NodeTop(0, RANGES - 2)
  {
    DomainConstants();
  }

  /**
   * Without a width bound the span array can overflow: the range
   * [1, MAXVAL - 1] of the domain needs 122 spans, more than LONGBITS.
   */
  lemma DomainRangeOverflows()
    ensures MINVAL <= 1 <= MAXVAL - 1 <= MAXVAL
    ensures |Decompose(1, MAXVAL - 1)| == 122 > LONGBITS
  {
    UpperNode();
    DecomposeUpper(1, MAXVAL - 1);
    NodeInterior(0, RANGES - 2);
  }

  /** The example the header documents: 14..48 becomes four spans. */
  lemma DocumentedExample()
    ensures Decompose(14, 48) == [Span(14, 15), Span(16, 31), Span(32, 47), Span(48, 48)]
  {
    DomainConstants();
    NarrowRoot(14, 48, 62, 6);
    SmallPowers();
    assert Cover(14, 48, 0, 6) == Cover(14, 31, 0, 5) + Cover(32, 48, 32, 5);
    ExampleLeft();
    ExampleRight();
  }

  lemma SmallPowers()
    ensures Pow2(0) == 1 && Pow2(1) == 2 && Pow2(2) == 4 && Pow2(3) == 8
    ensures Pow2(4) == 16 && Pow2(5) == 32 && Pow2(6) == 64
  {
  }

  /** The lower half of the example: 14..31 inside [0, 31]. */
  lemma ExampleLeft()
    ensures Cover(14, 31, 0, 5) == [Span(14, 15), Span(16, 31)]
  {
    SmallPowers();
    assert Cover(14, 15, 12, 2) == Cover(14, 15, 14, 1) == [Span(14, 15)];
    assert Cover(14, 15, 0, 4) == Cover(14, 15, 8, 3) == Cover(14, 15, 12, 2);
    assert Cover(14, 31, 0, 5) == Cover(14, 15, 0, 4) + Cover(16, 31, 16, 4);
  }

  /** The upper half of the example: 32..48 inside [32, 63]. */
  lemma ExampleRight()
    ensures Cover(32, 48, 32, 5) == [Span(32, 47), Span(48, 48)]
  {
    SmallPowers();
    assert Cover(48, 48, 48, 1) == Cover(48, 48, 48, 0) == [Span(48, 48)];
    assert Cover(48, 48, 48, 4) == Cover(48, 48, 48, 3) == Cover(48, 48, 48, 2) == Cover(48, 48, 48, 1);
    assert Cover(32, 48, 32, 5) == Cover(32, 47, 32, 4) + Cover(48, 48, 48, 4);
  }

  /** Below the root, a range of non-negative keys under 2^q lives in node [0, 2^q - 1]. */
  lemma {:induction false} NarrowRoot(lo: int, hi: int, p: nat, q: nat)
    requires 0 <= lo <= hi < Pow2(q) && q <= p <= 62
    ensures MINVAL <= lo && hi <= MAXVAL
    ensures Decompose(lo, hi) == Cover(lo, hi, 0, q)
  {
    DomainConstants();
    Pow2Monotone(q, 62);
    NarrowNode(lo, hi, 62, q);
    assert Decompose(lo, hi) == Cover(lo, hi, 0, 62);
  }

  lemma {:induction false} NarrowNode(lo: int, hi: int, p: nat, q: nat)
    requires 0 <= lo <= hi < Pow2(q) && q <= p && hi < Pow2(p)
    ensures Cover(lo, hi, 0, p) == Cover(lo, hi, 0, q)
    decreases p
  {
    if p > q {
      Pow2Monotone(q, p - 1);
      Pow2Monotone(0, q);
      NarrowNode(lo, hi, p - 1, q);
    }
  }

  // ---------------------------------------------------------------------------
  // The rangelist in place
  // ---------------------------------------------------------------------------

  /** `rangelist`: LONGBITS rows of [lo, hi] and the next-empty cursor. */
  class RangeList {
    var spans: array2<int>
    var emptyOffset: int

    ghost predicate Valid()
      reads this
    {
      spans.Length0 == LONGBITS && spans.Length1 == 2 && 0 <= emptyOffset <= LONGBITS
    }

    /** The spans filled so far, rows 0 .. emptyoffset - 1. */
    ghost function Contents(): (s: seq<Span>)
      reads this, spans
      requires Valid()
      ensures |s| == emptyOffset
    {
      var n, a := emptyOffset, spans;
      seq(n, i requires 0 <= i < n reads a => Span(a[i, 0], a[i, 1]))
    }

    constructor ()
      ensures Valid() && fresh(spans) && Contents() == []
    {
      spans := new int[LONGBITS, 2];
      emptyOffset := 0;
    }

    /** Writes [lo, hi] into the next empty row and advances the cursor. */
    method AddRange(lo: int, hi: int)
      requires Valid() && emptyOffset < LONGBITS
      modifies this, spans
      ensures Valid() && spans == old(spans)
      ensures Contents() == old(Contents()) + [Span(lo, hi)]
    {
      spans[emptyOffset, 0] := lo;
      spans[emptyOffset, 1] := hi;
      emptyOffset := emptyOffset + 1;
    }
  }

  /** `find_ranges_internal`: appends the covering of [lo, hi] in its node. */
  method FindRangesInternal(lo: int, hi: int, base: int, power: nat, r: RangeList)
    requires r.Valid() && base <= lo <= hi <= NodeTop(base, power)
    requires r.emptyOffset + |Cover(lo, hi, base, power)| <= LONGBITS
    modifies r, r.spans
    ensures r.Valid() && r.spans == old(r.spans)
    ensures r.Contents() == old(r.Contents()) + Cover(lo, hi, base, power)
    decreases power
  {
    if lo == base && hi == base + Pow2(power) - 1 {
      r.AddRange(lo, hi);
    } else {
      var mid := base + Pow2(power - 1);
      if hi < mid {
        FindRangesInternal(lo, hi, base, power - 1, r);
      } else if lo >= mid {
        FindRangesInternal(lo, hi, mid, power - 1, r);
      } else {
        FindRangesInternal(lo, mid - 1, base, power - 1, r);
        FindRangesInternal(mid, hi, mid, power - 1, r);
      }
    }
  }

  /**
   * `find_ranges`: the covering of [lo, hi] from the root node, written from
   * row 0. An empty range (lo > hi) leaves no spans.
   */
  method FindRanges(lo: int, hi: int, r: RangeList)
    requires r.Valid()
    requires lo <= hi ==> MINVAL <= lo && hi <= MAXVAL && hi - lo + 1 <= MAX_WIDTH
    modifies r, r.spans
    ensures r.Valid() && r.spans == old(r.spans)
    ensures r.Contents() == Decompose(lo, hi)
  {
    r.emptyOffset := 0;
    assert r.Contents() == [];
    if lo <= hi {
      DomainConstants();
      DecomposeFits(lo, hi);
      FindRangesInternal(lo, hi, MINVAL, RANGES - 1, r);
    }
  }
}
