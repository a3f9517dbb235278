/** The list of virtual memory areas of an address space. */
module VmAreas {
  import opened Common
  import opened Paging

  const KBASE := 0xffff_ffff_8000_0000

  datatype Area = Area(base: nat, end: nat)

  /** The test both allocators make: the ranges intersect, or one encloses the other. */
  predicate Meets(base: nat, end: nat, a: Area) {
    || (base >= a.base && base < a.end)
    || (end > a.base && end <= a.end)
    || (base < a.base && end > a.end)
  }

  /** `size` bytes fit at `base`. */
  predicate Fits(areas: seq<Area>, base: nat, size: nat) {
    forall i :: 0 <= i < |areas| ==> !Meets(base, base + size, areas[i])
  }

  /** In address order and without overlap. */
  predicate Ordered(areas: seq<Area>) {
    && (forall i :: 0 <= i < |areas| ==> areas[i].base <= areas[i].end)
    && (forall i, j :: 0 <= i < j < |areas| ==> areas[i].end <= areas[j].base)
  }

  /** The ranges share an address, or the first is empty and lies strictly inside the second. */
  predicate Overlaps(base: nat, end: nat, a: Area) { a.base < end && base < a.end }

  predicate Clear(areas: seq<Area>, base: nat, size: nat) {
    forall i :: 0 <= i < |areas| ==> !Overlaps(base, base + size, areas[i])
  }

  /** The lowest place from `PAGE4K` up where `size` bytes overlap nothing. */
  ghost predicate Lowest(areas: seq<Area>, base: nat, size: nat) {
    && PAGE4K <= base && Clear(areas, base, size)
    && forall b: nat :: PAGE4K <= b < base ==> !Clear(areas, b, size)
  }

  lemma LowestUnique(areas: seq<Area>, b: nat, b': nat, size: nat)
    requires Lowest(areas, b, size) && Lowest(areas, b', size)
    ensures b == b'
  {
    assert b < b' ==> !Clear(areas, b, size);
    assert b' < b ==> !Clear(areas, b', size);
  }

  /** For a range that is not empty the test of the allocators is overlap. */
  lemma FitsIsClear(areas: seq<Area>, base: nat, size: nat)
    requires Ordered(areas) && size > 0
    ensures Fits(areas, base, size) == Clear(areas, base, size)
  {
    forall i | 0 <= i < |areas| ensures Meets(base, base + size, areas[i]) == Overlaps(base, base + size, areas[i]) {}
  }

  /** Meeting half-open ranges that are not empty is sharing an address. */
  lemma MeetsIsOverlap(base: nat, end: nat, a: Area)
    requires base < end && a.base < a.end
    ensures Meets(base, end, a) <==> exists x :: InRange(x, base, end) && InRange(x, a.base, a.end)
  {
    var x := if base < a.base then a.base else base;
    assert Meets(base, end, a) ==> InRange(x, base, end) && InRange(x, a.base, a.end);
  }

  predicate InRange(x: nat, lo: nat, hi: nat) { lo <= x < hi }

  /** For an empty range the test is stricter: it also meets an area at its start and at its end. */
  lemma EmptyRangeMeets(x: nat, a: Area)
    requires a.base <= a.end
    ensures Meets(x, x, a) <==> a.base < a.end && a.base <= x <= a.end
  {}

  /** So the lowest clear place of an empty range, where `vm_map_alloc` puts it, is one that `vm_map_allocat` would
      accept exactly when it would accept an empty range at the first page. */
  lemma EmptyRangePlaced(areas: seq<Area>, base: nat)
    requires Ordered(areas) && Lowest(areas, base, 0)
    ensures Fits(areas, base, 0) <==> Fits(areas, PAGE4K, 0)
  {
    if base != PAGE4K {
      assert !Clear(areas, PAGE4K, 0);
      var i :| 0 <= i < |areas| && Overlaps(PAGE4K, PAGE4K, areas[i]);
      var e := areas[i].end;
      assert Clear(areas, e, 0);
      assert !Overlaps(base, base, areas[i]);
      assert base == e && Meets(base, base, areas[i]) && Meets(PAGE4K, PAGE4K, areas[i]);
    }
  }

  /** Where a range that does not lie in front of an area meets it, every higher place below the area's end overlaps. */
  lemma MeetsHigher(base: nat, b: nat, size: nat, a: Area)
    requires a.base < base + size && base <= b < a.end
    ensures Overlaps(b, b + size, a)
  {}

  /** A range that does not meet an area lies on one side of it. */
  lemma Sides(base: nat, end: nat, a: Area)
    requires base <= end && a.base <= a.end && !Meets(base, end, a)
    ensures a.end <= base || end <= a.base
  {}

  function Insert(areas: seq<Area>, i: nat, a: Area): seq<Area>
    requires i <= |areas|
  {
    areas[..i] + [a] + areas[i..]
  }

  lemma InsertOrdered(areas: seq<Area>, i: nat, a: Area)
    requires Ordered(areas) && i <= |areas| && a.base <= a.end
    requires forall j :: 0 <= j < i ==> areas[j].end <= a.base
    requires forall j :: i <= j < |areas| ==> a.end <= areas[j].base
    ensures Ordered(Insert(areas, i, a))
  {}

  /** The place is above every area and would reach the kernel. */
  ghost predicate NoRoomBelowKernel(areas: seq<Area>, b: nat, sz: nat) {
    b + sz >= KBASE && forall i :: 0 <= i < |areas| ==> areas[i].base < b + sz
  }

  class AreaList {
    var areas: seq<Area>
    /** `vm_areas.size`: counts appended areas, not inserted ones. */
    var size: nat

    ghost predicate Valid()
      reads this
    {
      Ordered(areas) && (size == 0 <==> areas == [])
    }

    constructor ()
      ensures Valid() && areas == []
    {
      areas, size := [], 0;
    }

    /** `list_insert_before`, which leaves `size` alone. */
    method InsertBefore(i: nat, a: Area)
      requires i < |areas|
      modifies this
      ensures areas == Insert(old(areas), i, a) && size == old(size)
    {
      areas := areas[..i] + [a] + areas[i..];
    }

    /** `list_enqueue` */
    method Enqueue(a: Area)
      modifies this
      ensures areas == Insert(old(areas), |old(areas)|, a) && size == old(size) + 1
    {
      areas, size := areas + [a], size + 1;
      assert areas == Insert(old(areas), |old(areas)|, a);
    }

    /** `vm_map_alloc`: takes the lowest place that overlaps nothing; fails only if that place is above every area and
        would reach the kernel.  An empty range may be put where `vm_map_allocat` would refuse it. */
    method Alloc(sz: nat) returns (r: Option<Area>)
      requires Valid()
      modifies this
      ensures Valid()
      ensures r.Some? ==> r.value.end == r.value.base + sz && Lowest(old(areas), r.value.base, sz)
      ensures r.Some? && sz > 0 ==> Fits(old(areas), r.value.base, sz)
      ensures r.Some? && sz == 0 ==> (Fits(old(areas), r.value.base, 0) <==> Fits(old(areas), PAGE4K, 0))
      ensures r.Some? ==> exists i :: 0 <= i <= |old(areas)| && areas == Insert(old(areas), i, r.value)
      ensures r.None? <==> exists b: nat :: Lowest(old(areas), b, sz) && NoRoomBelowKernel(old(areas), b, sz)
      ensures r.None? ==> areas == old(areas) && size == old(size)
    {
      var base, end := PAGE4K, PAGE4K + sz;
      var i := 0;
      while i < |areas|
        invariant 0 <= i <= |areas| && end == base + sz && PAGE4K <= base
        invariant areas == old(areas) && size == old(size)
        invariant forall j :: 0 <= j < i ==> areas[j].end <= base && areas[j].base < end
        invariant forall b :: PAGE4K <= b < base ==> !Clear(areas, b, sz)
      {
        var area := areas[i];
        if area.base >= end {
          Place(areas, i, base, sz);
          OnlyPlace(areas, base, sz);
          assert !NoRoomBelowKernel(areas, base, sz);
          var a := Area(base, end);
          InsertBefore(i, a);
          return Some(a);
        }
        if (base >= area.base && base < area.end) || (end > area.base && end <= area.end)
          || (base < area.base && end > area.end)
        {
          forall b | base <= b < area.end ensures !Clear(areas, b, sz) {
            MeetsHigher(base, b, sz, areas[i]);
          }
          base, end := area.end, area.end + sz;
        } else {
          Sides(base, end, area);
        }
        i := i + 1;
      }
      Place(areas, |areas|, base, sz);
      OnlyPlace(areas, base, sz);
      if end < KBASE {
        var a := Area(base, end);
        Enqueue(a);
        return Some(a);
      }
      assert Lowest(old(areas), base, sz) && NoRoomBelowKernel(old(areas), base, sz);
      return None;
    }

    /** `vm_map_allocat`: succeeds exactly when the range meets no area. */
    method AllocAt(base: nat, sz: nat) returns (r: Option<Area>)
      requires Valid()
      modifies this
      ensures Valid()
      ensures r.Some? <==> Fits(old(areas), base, sz)
      ensures r.Some? ==> r.value == Area(base, base + sz)
      ensures r.Some? ==> exists i :: 0 <= i <= |old(areas)| && areas == Insert(old(areas), i, r.value)
      ensures r.None? ==> areas == old(areas) && size == old(size)
    {
      var end := base + sz;
      var a := Area(base, end);
      var i := 0;
      while i < |areas|
        invariant 0 <= i <= |areas| && areas == old(areas) && size == old(size)
        invariant forall j :: 0 <= j < i ==> areas[j].end <= base && !Meets(base, end, areas[j])
      {
        var area := areas[i];
        if (base >= area.base && base < area.end) || (end > area.base && end <= area.end)
          || (base < area.base && end > area.end)
        {
          return None;
        }
        Sides(base, end, area);
        if area.end <= base {
          i := i + 1;
          continue;
        }
        InsertOrdered(areas, i, a);
        InsertBefore(i, a);
        return Some(a);
      }
      InsertOrdered(areas, |areas|, a);
      if size == 0 || areas[|areas| - 1].end <= base {
        Enqueue(a);
        return Some(a);
      }
      return None;
    }

    /** `alloc_vmarea`: the wanted place if there is one and it is free, else the lowest unless the
        place was fixed. */
    method AllocArea(base: nat, sz: nat, fixed: bool) returns (r: Option<Area>)
      requires Valid()
      modifies this
      ensures Valid()
      ensures base != 0 && Fits(old(areas), base, sz) ==> r == Some(Area(base, base + sz))
      ensures base != 0 && !Fits(old(areas), base, sz) && fixed ==> r == None
      ensures base == 0 || (!Fits(old(areas), base, sz) && !fixed) ==>
        if r.Some? then Lowest(old(areas), r.value.base, sz)
        else exists b: nat :: Lowest(old(areas), b, sz) && NoRoomBelowKernel(old(areas), b, sz)
      ensures r.None? ==> areas == old(areas)
      ensures r.Some? ==> r.value.end == r.value.base + sz
      ensures r.Some? ==> exists i :: 0 <= i <= |old(areas)| && areas == Insert(old(areas), i, r.value)
    {
      if base != 0 {
        r := AllocAt(base, sz);
        if r.Some? || fixed { return; }
      }
      r := Alloc(sz);
    }
  }

  /** Past the areas before `i` and in front of the others, a range overlaps nothing, at the lowest place. */
  lemma Place(areas: seq<Area>, i: nat, base: nat, sz: nat)
    requires Ordered(areas) && i <= |areas| && PAGE4K <= base
    requires forall j :: 0 <= j < i ==> areas[j].end <= base
    requires i < |areas| ==> base + sz <= areas[i].base
    requires forall b :: PAGE4K <= b < base ==> !Clear(areas, b, sz)
    ensures Lowest(areas, base, sz) && Ordered(Insert(areas, i, Area(base, base + sz)))
  {
    InsertOrdered(areas, i, Area(base, base + sz));
  }

  /** What is known of the lowest place. */
  lemma OnlyPlace(areas: seq<Area>, base: nat, sz: nat)
    requires Ordered(areas) && Lowest(areas, base, sz)
    ensures forall b: nat :: Lowest(areas, b, sz) ==> b == base
    ensures sz > 0 ==> Fits(areas, base, sz)
    ensures sz == 0 ==> (Fits(areas, base, 0) <==> Fits(areas, PAGE4K, 0))
  {
    forall b: nat | Lowest(areas, b, sz) ensures b == base {
      LowestUnique(areas, b, base, sz);
    }
    if sz > 0 {
      FitsIsClear(areas, base, sz);
    } else {
      EmptyRangePlaced(areas, base);
    }
  }

  /** With one area from the first page on, `vm_map_allocat` refuses an empty range there and `vm_map_alloc` puts it
      there. */
  method EmptyRangeExample() returns (p: Option<Area>, q: Option<Area>)
    ensures p == None && q == Some(Area(PAGE4K, PAGE4K))
  {
    var l := new AreaList();
    var a := l.AllocAt(PAGE4K, PAGE4K);
    assert l.areas == [Area(PAGE4K, 2 * PAGE4K)];
    p := l.AllocAt(PAGE4K, 0);
    assert Meets(PAGE4K, PAGE4K, l.areas[0]);
    ghost var areas := l.areas;
    q := l.Alloc(0);
    assert Lowest(areas, PAGE4K, 0);
    OnlyPlace(areas, PAGE4K, 0);
  }
}
