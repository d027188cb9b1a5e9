/** Whether user memory is mapped (CheckRegion in `syscall/syscall_pub.c`), in 32-bit arithmetic. */
module Regions {
  import opened Fnv
  import opened PathCache

  const WORDS: int := 0x1_0000_0000

  datatype Region = Region(base: Word, size: Word)

  /** Not empty, and within the address space; it may reach up to its end. */
  predicate Proper(r: Region)
  {
    r.size > 0 && r.base + r.size <= WORDS
  }

  predicate Contains(r: Region, a: int)
  {
    r.base <= a < r.base + r.size
  }

  /** The regions of an address space: proper, and without overlap. */
  ghost predicate Space(regions: seq<Region>)
  {
    && (forall r | r in regions :: Proper(r))
    && (forall r, q, a: int | r in regions && q in regions && Contains(r, a) && Contains(q, a) :: r == q)
  }

  predicate Mapped(regions: seq<Region>, a: int)
  {
    exists r :: r in regions && Contains(r, a)
  }

  ghost predicate Covered(regions: seq<Region>, from: int, to: int)
  {
    forall a: int | from <= a < to :: Mapped(regions, a)
  }

  /** `a` lies in the region that reaches up to the end of the address space. */
  ghost predicate AtTop(regions: seq<Region>, a: int)
  {
    exists r :: r in regions && Contains(r, a) && r.base + r.size == WORDS
  }

  /** LOS_RegionFind */
  function RegionFind(regions: seq<Region>, a: Word): (found: Option<Region>)
    ensures found.Some? ==> found.value in regions && Contains(found.value, a)
    ensures found.None? ==> !Mapped(regions, a)
  {
    if regions == [] then None
    else if Contains(regions[0], a) then Some(regions[0])
    else
      var rest := RegionFind(regions[1..], a);
      assert regions == [regions[0]] + regions[1..];
      rest
  }

  /** What is mapped, what it means to lie at the top, and what an address space is, in plain terms. */
  lemma MappedMeans(regions: seq<Region>, a: Word, from: int, to: int)
    ensures Mapped(regions, a) <==> exists r :: r in regions && r.base <= a < r.base + r.size
    ensures to <= from ==> Covered(regions, from, to)
    ensures Covered(regions, a, to + 1) <==> (a <= to ==> Covered(regions, a, to) && Mapped(regions, to))
    ensures AtTop(regions, a) <==> exists r :: r in regions && r.base <= a < r.base + r.size == 0x1_0000_0000
    ensures RegionFind(regions, a).Some? <==> exists r :: r in regions && r.base <= a < r.base + r.size
  {
    if r :| r in regions && r.base <= a < r.base + r.size {
      assert Contains(r, a);
    }
    if r :| r in regions && r.base <= a < r.base + r.size == 0x1_0000_0000 {
      assert Contains(r, a);
    }
  }

  lemma SpaceMeans(regions: seq<Region>)
    ensures Space(regions) <==>
              && (forall r | r in regions :: r.size > 0 && r.base + r.size <= 0x1_0000_0000)
              && (forall r, q | r in regions && q in regions && r != q ::
                    r.base + r.size <= q.base || q.base + q.size <= r.base)
  {
    if Space(regions) {
      forall r, q | r in regions && q in regions && r != q
        ensures r.base + r.size <= q.base || q.base + q.size <= r.base
      {
        var a := if r.base < q.base then q.base else r.base;
        assert Proper(r) && Proper(q) && !(Contains(r, a) && Contains(q, a));
      }
    }
  }

  function Wrap(a: int): Word
  {
    a % WORDS
  }

  /**
   CheckRegion: 0 if the range is accepted, -1 if not.  `depth` bounds the recursion: None says
   that the answer takes more calls than that.
   */
  function CheckRegion(regions: seq<Region>, ptr: Word, len: Word, depth: nat): (r: Option<int>)
    ensures r.Some? ==> r.value == 0 || r.value == -1
    decreases depth
  {
    if depth == 0 then None
    else
      match RegionFind(regions, ptr)
      case None => Some(-1)
      case Some(region) =>
        var end := Wrap(region.base + region.size);
        if Wrap(ptr + len) <= end then Some(0)
        else CheckRegion(regions, end, Wrap(Wrap(ptr + len) - end), depth - 1)
  }

  /** Enough depth for every call that ends, see CheckRegionEnds. */
  const DEPTH: nat := 2 * WORDS

  // ----- one call -----

  lemma NoWrap(a: int)
    requires 0 <= a < WORDS
    ensures Wrap(a) == a
  {
  }

  lemma FindNone(regions: seq<Region>, ptr: Word, to: int)
    requires RegionFind(regions, ptr).None? && ptr < to
    ensures !Covered(regions, ptr, to)
  {
    assert !Mapped(regions, ptr);
  }

  /** Up to its end, the region covers the range. */
  lemma RegionCovers(regions: seq<Region>, region: Region, ptr: int, to: int)
    requires region in regions && Contains(region, ptr)
    ensures to <= region.base + region.size ==> Covered(regions, ptr, to)
    ensures to > region.base + region.size ==>
              (Covered(regions, ptr, to) <==> Covered(regions, region.base + region.size, to))
  {
    forall a: int | ptr <= a < region.base + region.size ensures Mapped(regions, a) {
      assert Contains(region, a);
    }
  }

  /** Without overlap, the region of `ptr` reaches up to the end or ends before the one that does. */
  lemma TopLast(regions: seq<Region>, region: Region, ptr: int, a: int)
    requires Space(regions) && region in regions && Contains(region, ptr) && ptr <= a < WORDS
    ensures AtTop(regions, a) && a < region.base + region.size ==> region.base + region.size == WORDS
    ensures region.base + region.size == WORDS ==> AtTop(regions, a)
  {
    if a < region.base + region.size {
      assert Contains(region, a);
    }
  }

  // ----- ranges that do not wrap -----

  /**
   Outside of the region at the top, and whenever the range has a hole, the answer comes and is
   right: the range is accepted if and only if all of its addresses are mapped.
   */
  lemma {:induction false} CheckRegionRight(regions: seq<Region>, ptr: Word, len: Word, depth: nat)
    requires Space(regions) && len > 0 && ptr + len < WORDS && depth >= WORDS - ptr
    requires !(AtTop(regions, ptr + len - 1) && Covered(regions, ptr, ptr + len))
    ensures CheckRegion(regions, ptr, len, depth) == Some(if Covered(regions, ptr, ptr + len) then 0 else -1)
    decreases WORDS - ptr
  {
    hide Covered, Mapped, Wrap, Space, AtTop;
    NoWrap(ptr + len);
    match RegionFind(regions, ptr)
    case None =>
      FindNone(regions, ptr, ptr + len);
    case Some(region) =>
      var end := region.base + region.size;
      EndWithin(regions, region);
      RegionCovers(regions, region, ptr, ptr + len);
      TopLast(regions, region, ptr, ptr + len - 1);
      if end < WORDS {
        NoWrap(end);
        if ptr + len > end {
          NoWrap(ptr + len - end);
          CheckRegionRight(regions, end, ptr + len - end, depth - 1);
        }
      }
  }

  lemma EndWithin(regions: seq<Region>, region: Region)
    requires Space(regions) && region in regions
    ensures region.base + region.size <= WORDS
  {
  }

  /**
   A covered range that ends in the region at the top: the end of that region wraps to 0, and
   after `n` calls it is the addresses below the end of the range that are checked instead.
   */
  lemma {:induction false} CheckRegionTop(regions: seq<Region>, ptr: Word, len: Word, depth: nat) returns (n: nat)
    requires Space(regions) && len > 0 && ptr + len < WORDS
    requires AtTop(regions, ptr + len - 1) && Covered(regions, ptr, ptr + len)
    ensures 1 <= n <= WORDS - ptr
    ensures CheckRegion(regions, ptr, len, depth)
         == if depth < n then None else CheckRegion(regions, 0, ptr + len, depth - n)
    decreases WORDS - ptr
  {
    hide Covered, Mapped, Wrap, Space, AtTop;
    NoWrap(ptr + len);
    n := 1;
    match RegionFind(regions, ptr)
    case None =>
      FindNone(regions, ptr, ptr + len);
    case Some(region) =>
      var end := region.base + region.size;
      EndWithin(regions, region);
      RegionCovers(regions, region, ptr, ptr + len);
      TopLast(regions, region, ptr, ptr + len - 1);
      if end == WORDS {
        WrapTop();
      } else {
        NoWrap(end);
        NoWrap(ptr + len - end);
        n := CheckRegionTop(regions, end, ptr + len - end, if depth > 0 then depth - 1 else 0);
        n := n + 1;
      }
  }

  lemma WrapTop()
    ensures Wrap(WORDS) == 0
  {
  }

  /** If the addresses below are not all mapped, the range is rejected although all of it is mapped. */
  lemma CheckRegionRejects(regions: seq<Region>, ptr: Word, len: Word, depth: nat)
    requires Space(regions) && len > 0 && ptr + len < WORDS && depth >= DEPTH
    requires AtTop(regions, ptr + len - 1) && Covered(regions, ptr, ptr + len) && !Covered(regions, 0, ptr + len)
    ensures CheckRegion(regions, ptr, len, depth) == Some(-1)
  {
    hide Covered, Space, AtTop;
    var n := CheckRegionTop(regions, ptr, len, depth);
    CheckRegionRight(regions, 0, ptr + len, depth - n);
  }

  /** If they are all mapped, the recursion has no end. */
  lemma {:induction false} CheckRegionLoops(regions: seq<Region>, ptr: Word, len: Word, depth: nat)
    requires Space(regions) && len > 0 && ptr + len < WORDS
    requires AtTop(regions, ptr + len - 1) && Covered(regions, ptr, ptr + len) && Covered(regions, 0, ptr + len)
    ensures CheckRegion(regions, ptr, len, depth) == None
    decreases depth
  {
    hide Covered, Space, AtTop;
    var n := CheckRegionTop(regions, ptr, len, depth);
    if n <= depth {
      CheckRegionLoops(regions, 0, ptr + len, depth - n);
    }
  }

  // ----- when CheckRegion is right -----

  /** The call ends, and accepts the range if and only if all of its addresses are mapped. */
  ghost predicate Right(regions: seq<Region>, ptr: Word, len: Word)
  {
    forall depth | depth >= DEPTH ::
      CheckRegion(regions, ptr, len, depth) == Some(if Covered(regions, ptr, ptr + len) then 0 else -1)
  }

  /** The call ends, with whatever answer. */
  ghost predicate Ends(regions: seq<Region>, ptr: Word, len: Word)
  {
    exists depth: nat :: CheckRegion(regions, ptr, len, depth).Some?
  }

  /**
   For a range that is not empty and does not wrap, CheckRegion is right unless the range ends in
   the region at the top of the address space; there it is right only about ranges with a hole.
   It fails to end if moreover everything below is mapped.
   */
  lemma CheckRegionCovers(regions: seq<Region>, ptr: Word, len: Word)
    requires Space(regions) && len > 0 && ptr + len < WORDS
    ensures Right(regions, ptr, len) <==> !AtTop(regions, ptr + len - 1) || !Covered(regions, ptr, ptr + len)
    ensures Ends(regions, ptr, len) <==>
            !AtTop(regions, ptr + len - 1) || !Covered(regions, ptr, ptr + len) || !Covered(regions, 0, ptr + len)
  {
    hide Covered, Space, AtTop, CheckRegion;
    if !AtTop(regions, ptr + len - 1) || !Covered(regions, ptr, ptr + len) {
      forall depth | depth >= DEPTH
        ensures CheckRegion(regions, ptr, len, depth) == Some(if Covered(regions, ptr, ptr + len) then 0 else -1)
      {
        CheckRegionRight(regions, ptr, len, depth);
      }
      assert CheckRegion(regions, ptr, len, DEPTH).Some?;
    } else if Covered(regions, 0, ptr + len) {
      forall depth: nat ensures CheckRegion(regions, ptr, len, depth) == None {
        CheckRegionLoops(regions, ptr, len, depth);
      }
      assert CheckRegion(regions, ptr, len, DEPTH) == None;
    } else {
      CheckRegionRejects(regions, ptr, len, DEPTH);
      assert CheckRegion(regions, ptr, len, DEPTH).Some?;
    }
  }

  /** A user region that ends at 2^32: a covered range of 16 octets in it is rejected. */
  lemma TopRejected(depth: nat)
    requires depth >= DEPTH
    ensures var regions, ptr := [Region(0x8000_0000, 0x8000_0000)], 0x8000_0000;
            Covered(regions, ptr, ptr + 16) && CheckRegion(regions, ptr, 16, depth) == Some(-1)
  {
    var top := Region(0x8000_0000, 0x8000_0000);
    forall a: int | 0x8000_0000 <= a < 0x8000_0010 ensures Mapped([top], a) {
      assert top in [top] && Contains(top, a);
    }
    assert RegionFind([top], 0) == None;
    assert CheckRegion([top], 0, 0x8000_0010, depth - 1) == Some(-1);
  }

  /**
   The rest: for an empty range, or one that wraps, only the region of its first address counts,
   or, if that is the region at the top, what lies below the wrapped end of the range.
   */
  lemma CheckRegionOtherwise(regions: seq<Region>, ptr: Word, len: Word, depth: nat)
    requires Space(regions) && (len == 0 || ptr + len >= WORDS)
    ensures CheckRegion(regions, ptr, len, depth + 1)
         == if !Mapped(regions, ptr) then Some(-1)
            else if !AtTop(regions, ptr) || Wrap(ptr + len) == 0 then Some(0)
            else CheckRegion(regions, 0, Wrap(ptr + len), depth)
  {
    match RegionFind(regions, ptr)
    case None =>
    case Some(region) =>
      var end := region.base + region.size;
      TopLast(regions, region, ptr, ptr);
      WrapTop();
      assert Contains(region, ptr);
      assert Wrap(ptr + len) <= ptr;
      NoWrap(Wrap(ptr + len));
      if end < WORDS {
        NoWrap(end);
      }
  }
}
