/** The physical frame bitmap: one bit per 4 KiB frame, set when the frame is in use. */
module PhysMem {
  import opened Paging

  const BUF_SZ := 200000
  const FRAMES := 8 * BUF_SZ

  /** `1 << k` */
  function Mask(k: nat): bv8
    requires k < 8
  {
    [1, 2, 4, 8, 16, 32, 64, 128][k]
  }

  predicate HasBit(x: bv8, k: nat)
    requires k < 8
  {
    x & Mask(k) != 0
  }

  lemma OrMask(x: bv8, j: nat, k: nat)
    requires j < 8 && k < 8
    ensures HasBit(x | Mask(j), k) <==> j == k || HasBit(x, k)
  {}

  lemma AndNotMask(x: bv8, j: nat, k: nat)
    requires j < 8 && k < 8
    ensures HasBit(x & !Mask(j), k) <==> j != k && HasBit(x, k)
  {}

  lemma FullByte(x: bv8)
    ensures x == 0xff <==> forall k :: 0 <= k < 8 ==> HasBit(x, k)
  {
    assert HasBit(x, 0) && HasBit(x, 1) && HasBit(x, 2) && HasBit(x, 3) ==> x & 0xf == 0xf;
    assert HasBit(x, 4) && HasBit(x, 5) && HasBit(x, 6) && HasBit(x, 7) ==> x & 0xf0 == 0xf0;
  }

  /** The numbers `a, a + 1, ..., a + n - 1`. */
  ghost function Range(a: nat, n: nat): (s: set<nat>)
    ensures forall f: nat :: f in s <==> a <= f < a + n
  {
    if n == 0 then {} else Range(a, n - 1) + {a + n - 1}
  }

  predicate BitSet(bmp: seq<bv8>, f: nat)
    requires f < 8 * |bmp|
  {
    HasBit(bmp[f / 8], f % 8)
  }

  class PhysMem {
    const bmp: array<bv8>

    ghost predicate Valid() reads this { bmp.Length == BUF_SZ }

    /** The frames in use. */
    ghost function Used(): (s: set<nat>)
      requires Valid()
      reads this, bmp
      ensures forall f :: f in s <==> 0 <= f < FRAMES && BitSet(bmp[..], f)
    {
      set f: nat | f < FRAMES && BitSet(bmp[..], f)
    }

    /** `mmu_phys_init`: at boot every frame counts as used. */
    constructor ()
      ensures Valid() && fresh(bmp) && Used() == Range(0, FRAMES)
    {
      bmp := new bv8[BUF_SZ](_ => 0xff);
      new;
      forall f: nat | f < FRAMES ensures BitSet(bmp[..], f) {
        FullByte(0xff);
      }
    }

    /** `mmu_alloc_phys_at` */
    method AllocPhysAt(p: nat, cnt: nat) returns (r: nat)
      requires Valid() && p / PAGE4K + cnt <= FRAMES
      modifies bmp
      ensures r == p
      ensures Used() == old(Used()) + Range(p / PAGE4K, cnt)
    {
      var strt := p / PAGE4K;
      var i := strt;
      while i < strt + cnt
        invariant strt <= i <= strt + cnt
        invariant forall f: nat :: f < FRAMES ==> (BitSet(bmp[..], f) <==> BitSet(old(bmp[..]), f) || strt <= f < i)
      {
        ghost var before := bmp[..];
        bmp[i / 8] := bmp[i / 8] | Mask(i % 8);
        SetOne(before, bmp[..], i);
        i := i + 1;
      }
      return p;
    }

    lemma SetOne(b: seq<bv8>, b': seq<bv8>, i: nat)
      requires i < 8 * |b| && b' == b[i / 8 := b[i / 8] | Mask(i % 8)]
      ensures forall f: nat :: f < 8 * |b| ==> (BitSet(b', f) <==> f == i || BitSet(b, f))
    {
      forall f: nat | f < 8 * |b| ensures BitSet(b', f) <==> f == i || BitSet(b, f) {
        if f / 8 == i / 8 {
          OrMask(b[i / 8], i % 8, f % 8);
        }
      }
    }

    lemma ClearOne(b: seq<bv8>, b': seq<bv8>, i: nat)
      requires i < 8 * |b| && b' == b[i / 8 := b[i / 8] & !Mask(i % 8)]
      ensures forall f: nat :: f < 8 * |b| ==> (BitSet(b', f) <==> f != i && BitSet(b, f))
    {
      forall f: nat | f < 8 * |b| ensures BitSet(b', f) <==> f != i && BitSet(b, f) {
        if f / 8 == i / 8 {
          AndNotMask(b[i / 8], i % 8, f % 8);
        }
      }
    }

    /** `mmu_alloc_phys`: the lowest free frame; the source prints a message and returns 0 when there is none. */
    method AllocPhys() returns (ok: bool, addr: nat)
      requires Valid()
      modifies bmp
      ensures ok <==> exists f: nat :: f < FRAMES && f !in old(Used())
      ensures !ok ==> addr == 0 && Used() == old(Used())
      ensures ok ==> addr % PAGE4K == 0 && addr / PAGE4K < FRAMES && addr / PAGE4K !in old(Used())
      ensures ok ==> Used() == old(Used()) + {addr / PAGE4K}
      ensures ok ==> forall f: nat :: f < addr / PAGE4K ==> f in old(Used())
    {
      var f := FirstFree();
      ghost var used := Used();
      if f == FRAMES {
        assert forall g: nat :: g < FRAMES ==> g in used;
        return false, 0;
      }
      assert f !in used && Range(f, 1) == {f};
      addr := AllocPhysAt(f * PAGE4K, 1);
      ok := true;
    }

    /** The scan of `mmu_alloc_phys`: whole bytes first, then the bits of one byte. */
    method FirstFree() returns (f: nat)
      requires Valid()
      ensures f <= FRAMES && (f < FRAMES ==> !BitSet(bmp[..], f))
      ensures forall g: nat :: g < f ==> BitSet(bmp[..], g)
    {
      for i := 0 to BUF_SZ
        invariant forall f: nat :: f < 8 * i ==> BitSet(bmp[..], f)
      {
        var j := FirstClearBit(bmp[i]);
        BitsOfByte(bmp[..], i, j);
        if j < 8 {
          assert (i * 8 + j) / 8 == i && (i * 8 + j) % 8 == j;
          return i * 8 + j;
        }
      }
      return FRAMES;
    }

    /** A byte of all ones is passed over without looking at its bits. */
    method FirstClearBit(x: bv8) returns (j: nat)
      ensures j <= 8 && (j < 8 ==> !HasBit(x, j)) && forall k :: 0 <= k < j ==> HasBit(x, k)
    {
      if x == 0xff {
        FullByte(x);
        return 8;
      }
      j := 0;
      while j < 8 && HasBit(x, j)
        invariant 0 <= j <= 8
        invariant forall k :: 0 <= k < j ==> HasBit(x, k)
      {
        j := j + 1;
      }
    }

    lemma BitsOfByte(b: seq<bv8>, i: nat, j: nat)
      requires i < |b| && j <= 8
      requires forall f: nat :: f < 8 * i ==> BitSet(b, f)
      requires forall k :: 0 <= k < j ==> HasBit(b[i], k)
      ensures forall f: nat :: f < 8 * i + j ==> BitSet(b, f)
    {
      forall f: nat | f < 8 * i + j ensures BitSet(b, f) {
        if f >= 8 * i {
          assert f / 8 == i && f % 8 == f - 8 * i;
        }
      }
    }

    /** `mmu_free_phys` */
    method FreePhys(p: nat, cnt: nat)
      requires Valid() && p / PAGE4K + cnt <= FRAMES
      modifies bmp
      ensures Used() == old(Used()) - Range(p / PAGE4K, cnt)
    {
      var strt, end := p / PAGE4K, p / PAGE4K + cnt;
      var it := strt;
      while it < end
        invariant strt <= it <= end
        invariant forall f: nat :: f < FRAMES ==> (BitSet(bmp[..], f) <==> BitSet(old(bmp[..]), f) && !(strt <= f < it))
      {
        ghost var before := bmp[..];
        var i, j := it % 8, it / 8;
        bmp[j] := bmp[j] & !Mask(i);
        ClearOne(before, bmp[..], it);
        it := it + 1;
      }
    }
  }
}
