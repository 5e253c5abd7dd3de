/** Byte strings as numbers: big-endian, little-endian, reversal and comparison, at any length. */
module ByteOrder {
  import opened Modular

  type byte = b: int | 0 <= b < 256

  function Pow256(n: nat): (r: int)
    ensures r > 0
  {
    if n == 0 then 1 else 256 * Pow256(n - 1)
  }

  /** What 32 bytes can hold, two to the power of 256. */
  const FIELD_BOUND: int :=
    0x1_0000_0000_0000_0000_0000_0000_0000_0000_0000_0000_0000_0000_0000_0000_0000_0000

  lemma FieldBoundIs32Bytes()
    ensures Pow256(32) == FIELD_BOUND
  {
    assert Pow256(8) == 0x1_0000_0000_0000_0000;
    assert Pow256(16) == Pow256(8) * 0x1_0000_0000_0000_0000;
    assert Pow256(24) == Pow256(16) * 0x1_0000_0000_0000_0000;
    assert Pow256(32) == Pow256(24) * 0x1_0000_0000_0000_0000;
  }

  function BeValue(s: seq<byte>): (v: int)
    ensures v >= 0
  {
    if s == [] then 0 else 256 * BeValue(s[..|s| - 1]) + s[|s| - 1]
  }

  function LeValue(s: seq<byte>): (v: int)
    ensures v >= 0
  {
    if s == [] then 0 else s[0] + 256 * LeValue(s[1..])
  }

  /** `v` written big-endian in `n` bytes; a value that does not fit loses its high part. */
  function ToBe(v: int, n: nat): (s: seq<byte>)
    ensures |s| == n
    decreases n
  {
    if n == 0 then [] else ToBe(v / 256, n - 1) + [v % 256]
  }

  function Reversed(s: seq<byte>): (r: seq<byte>)
    ensures |r| == |s|
    ensures forall i :: 0 <= i < |s| ==> r[i] == s[|s| - 1 - i]
  {
    seq(|s|, i requires 0 <= i < |s| => s[|s| - 1 - i])
  }

  lemma ReversedTwice(s: seq<byte>)
    ensures Reversed(Reversed(s)) == s
  {
    forall i | 0 <= i < |s| ensures Reversed(Reversed(s))[i] == s[i] {
      assert Reversed(s)[|s| - 1 - i] == s[i];
    }
  }

  /** Reversal turns the big-endian value into the little-endian one. */
  lemma {:induction false} ReversedValue(s: seq<byte>)
    ensures LeValue(Reversed(s)) == BeValue(s)
  {
    if s == [] {
    } else {
      var init := s[..|s| - 1];
      ReversedValue(init);
      assert Reversed(s)[1..] == Reversed(init);
    }
  }

  lemma {:induction false} BeBound(s: seq<byte>)
    ensures BeValue(s) < Pow256(|s|)
  {
    if s == [] {
    } else {
      BeBound(s[..|s| - 1]);
    }
  }

  lemma {:induction false} BeOfToBe(v: int, n: nat)
    requires 0 <= v < Pow256(n)
    ensures BeValue(ToBe(v, n)) == v
  {
    if n == 0 {
    } else {
      BeOfToBe(v / 256, n - 1);
      assert ToBe(v, n)[..n - 1] == ToBe(v / 256, n - 1);
    }
  }

  lemma BeOfToBe32(v: int)
    requires 0 <= v < FIELD_BOUND
    ensures BeValue(ToBe(v, 32)) == v
  {
    FieldBoundIs32Bytes();
    BeOfToBe(v, 32);
  }

  lemma {:induction false} ToBeOfBe(s: seq<byte>)
    ensures ToBe(BeValue(s), |s|) == s
  {
    if s == [] {
    } else {
      ToBeOfBe(s[..|s| - 1]);
    }
  }

  /** The sign `memcmp` gives: the first differing byte decides. */
  function Memcmp(s: seq<byte>, t: seq<byte>): (r: int)
    requires |s| == |t|
  {
    if s == [] then 0
    else if s[0] != t[0] then s[0] - t[0]
    else Memcmp(s[1..], t[1..])
  }

  lemma {:induction false} BeHead(s: seq<byte>)
    requires s != []
    ensures BeValue(s) == s[0] * Pow256(|s| - 1) + BeValue(s[1..])
  {
    if |s| == 1 {
      assert s[1..] == [] && s[..0] == [];
    } else {
      var init := s[..|s| - 1];
      BeHead(init);
      assert init[1..] == s[1..][..|s| - 2];
      assert 256 * (s[0] * Pow256(|s| - 2)) == s[0] * Pow256(|s| - 1);
    }
  }

  lemma HeadDecides(g: int, u: int, h: int, v: int, w: int)
    requires g < h && 0 <= u < w && 0 <= v
    ensures g * w + u < h * w + v
  {
    var q := h - g - 1;
    assert q * w >= 0;
    assert h * w == (g + q + 1) * w == g * w + q * w + w;
  }

  /** For strings of one length, comparing bytes from the left compares the numbers they write. */
  lemma {:induction false} MemcmpIsNumeric(s: seq<byte>, t: seq<byte>)
    requires |s| == |t|
    ensures Memcmp(s, t) < 0 <==> BeValue(s) < BeValue(t)
    ensures Memcmp(s, t) == 0 <==> BeValue(s) == BeValue(t)
  {
    if s == [] {
    } else {
      BeHead(s);
      BeHead(t);
      BeBound(s[1..]);
      BeBound(t[1..]);
      var w := Pow256(|s| - 1);
      if s[0] == t[0] {
        MemcmpIsNumeric(s[1..], t[1..]);
      } else if s[0] < t[0] {
        HeadDecides(s[0], BeValue(s[1..]), t[0], BeValue(t[1..]), w);
      } else {
        HeadDecides(t[0], BeValue(t[1..]), s[0], BeValue(s[1..]), w);
      }
    }
  }

  lemma {:induction false} BeZero(s: seq<byte>)
    ensures BeValue(s) == 0 <==> forall i :: 0 <= i < |s| ==> s[i] == 0
  {
    if s == [] {
    } else {
      var init := s[..|s| - 1];
      BeZero(init);
      assert forall i :: 0 <= i < |init| ==> init[i] == s[i];
    }
  }

  /** Copies `src` backwards into `dst` from `off` on; the source may be of any length. */
  method ReverseBytes(dst: array<byte>, off: nat, src: seq<byte>)
    requires off + |src| <= dst.Length
    modifies dst
    ensures dst[..] == old(dst[..off]) + Reversed(src) + old(dst[off + |src|..])
  {
    var i := 0;
    while i < |src|
      invariant 0 <= i <= |src|
      invariant dst[off..off + i] == Reversed(src)[..i]
      invariant dst[..off] == old(dst[..off])
      invariant dst[off + |src|..] == old(dst[off + |src|..])
    {
      dst[off + i] := src[|src| - 1 - i];
      assert dst[off..off + i + 1] == dst[off..off + i] + [dst[off + i]];
      i := i + 1;
    }
    assert dst[..] == dst[..off] + dst[off..off + |src|] + dst[off + |src|..];
    assert Reversed(src)[..|src|] == Reversed(src);
  }

  method BeLt(a: seq<byte>, b: seq<byte>) returns (lt: bool)
    requires |a| == |b|
    ensures lt <==> BeValue(a) < BeValue(b)
  {
    MemcmpIsNumeric(a, b);
    lt := Memcmp(a, b) < 0;
  }

  /** Accumulates every byte, so the time taken does not depend on where a nonzero byte sits. */
  method BeIsZero(a: seq<byte>) returns (zero: bool)
    ensures zero <==> BeValue(a) == 0
  {
    var acc: bv8 := 0;
    for i := 0 to |a|
      invariant acc == 0 <==> forall j :: 0 <= j < i ==> a[j] == 0
    {
      ByteAsBits(a[i]);
      OrZero(acc, a[i] as bv8);
      acc := acc | (a[i] as bv8);
    }
    BeZero(a);
    zero := acc == 0;
  }

  lemma ByteAsBits(b: byte)
    ensures (b as bv8) == 0 <==> b == 0
  {
    if (b as bv8) == 0 {
      assert ((b as bv8) as int) == b;
    }
  }

  lemma OrZero(x: bv8, y: bv8)
    ensures x | y == 0 <==> x == 0 && y == 0
  {
  }
}
