/** Raw memory: bytes, copying ranges of them, and little-endian integers. */
module Bytes {
  type byte = x: int | 0 <= x < 256

  /** `memcpy(dst + off, src, |src|)`. */
  function Blit<T>(dst: seq<T>, off: nat, src: seq<T>): (r: seq<T>)
    requires off + |src| <= |dst|
    ensures |r| == |dst|
    ensures forall k :: 0 <= k < |dst| ==>
      r[k] == if off <= k < off + |src| then src[k - off] else dst[k]
  {
    seq(|dst|, k requires 0 <= k < |dst| => if off <= k < off + |src| then src[k - off] else dst[k])
  }

  function U16(b: seq<byte>, o: nat): (v: nat)
    requires o + 2 <= |b|
    ensures v < 0x1_0000
  {
    b[o] as int + 256 * (b[o + 1] as int)
  }

  function U32(b: seq<byte>, o: nat): (v: nat)
    requires o + 4 <= |b|
    ensures v < 0x1_0000_0000
  {
    b[o] as int + 256 * (b[o + 1] as int) + 65536 * (b[o + 2] as int) + 16777216 * (b[o + 3] as int)
  }

  function Enc16(v: nat): (b: seq<byte>)
    requires v < 0x1_0000
    ensures |b| == 2 && U16(b, 0) == v
  {
    [v % 256, v / 256]
  }

  function Enc32(v: nat): (b: seq<byte>)
    requires v < 0x1_0000_0000
    ensures |b| == 4 && U32(b, 0) == v
  {
    assert v / 65536 == v / 256 / 256 && v / 16777216 == v / 65536 / 256;
    [v % 256, v / 256 % 256, v / 65536 % 256, v / 16777216]
  }

  /** A field is read where it lies. */
  lemma U32Field(a: seq<byte>, v: nat, b: seq<byte>)
    requires v < 0x1_0000_0000
    ensures U32(a + Enc32(v) + b, |a|) == v
  {
    var s, e := a + Enc32(v) + b, Enc32(v);
    assert s[|a|] == e[0] && s[|a| + 1] == e[1] && s[|a| + 2] == e[2] && s[|a| + 3] == e[3];
  }

  lemma U16Field(a: seq<byte>, v: nat, b: seq<byte>)
    requires v < 0x1_0000
    ensures U16(a + Enc16(v) + b, |a|) == v
  {
    var s, e := a + Enc16(v) + b, Enc16(v);
    assert s[|a|] == e[0] && s[|a| + 1] == e[1];
  }

  lemma U16Blit(b: seq<byte>, o: nat, v: nat)
    requires o + 2 <= |b| && v < 0x1_0000
    ensures U16(Blit(b, o, Enc16(v)), o) == v
  {
    var e := Enc16(v);
    assert Blit(b, o, e)[o] == e[0] && Blit(b, o, e)[o + 1] == e[1];
  }
}
