/** The domain parameters of secp256r1 (SEC 2 v2.0, section 2.4.2), as the byte strings the driver stores. */
module Secp256r1 {
  import opened Modular
  import opened ByteOrder
  import opened Curve
  import opened Psa
  import opened EcdsaSpec
  import opened EccDriver

  /** Eight bytes of a stored constant. */
  type Row = s: seq<byte> | |s| == 8 witness seq(8, i => 0)

  const P0: Row := [0xff, 0xff, 0xff, 0xff, 0x00, 0x00, 0x00, 0x01]
  const P1: Row := [0x00, 0x00, 0x00, 0x00, 0x00, 0x00, 0x00, 0x00]
  const P2: Row := [0x00, 0x00, 0x00, 0x00, 0xff, 0xff, 0xff, 0xff]
  const P3: Row := [0xff, 0xff, 0xff, 0xff, 0xff, 0xff, 0xff, 0xff]
  const P_BE: Bytes32 := P0 + P1 + P2 + P3

  const N0: Row := [0xff, 0xff, 0xff, 0xff, 0x00, 0x00, 0x00, 0x00]
  const N1: Row := [0xff, 0xff, 0xff, 0xff, 0xff, 0xff, 0xff, 0xff]
  const N2: Row := [0xbc, 0xe6, 0xfa, 0xad, 0xa7, 0x17, 0x9e, 0x84]
  const N3: Row := [0xf3, 0xb9, 0xca, 0xc2, 0xfc, 0x63, 0x25, 0x51]
  const N_BE: Bytes32 := N0 + N1 + N2 + N3

  const GX0: Row := [0x6b, 0x17, 0xd1, 0xf2, 0xe1, 0x2c, 0x42, 0x47]
  const GX1: Row := [0xf8, 0xbc, 0xe6, 0xe5, 0x63, 0xa4, 0x40, 0xf2]
  const GX2: Row := [0x77, 0x03, 0x7d, 0x81, 0x2d, 0xeb, 0x33, 0xa0]
  const GX3: Row := [0xf4, 0xa1, 0x39, 0x45, 0xd8, 0x98, 0xc2, 0x96]
  const GX_BE: Bytes32 := GX0 + GX1 + GX2 + GX3

  const GY0: Row := [0x4f, 0xe3, 0x42, 0xe2, 0xfe, 0x1a, 0x7f, 0x9b]
  const GY1: Row := [0x8e, 0xe7, 0xeb, 0x4a, 0x7c, 0x0f, 0x9e, 0x16]
  const GY2: Row := [0x2b, 0xce, 0x33, 0x57, 0x6b, 0x31, 0x5e, 0xce]
  const GY3: Row := [0xcb, 0xb6, 0x40, 0x68, 0x37, 0xbf, 0x51, 0xf5]
  const GY_BE: Bytes32 := GY0 + GY1 + GY2 + GY3

  const P := 0xffffffff00000001000000000000000000000000ffffffffffffffffffffffff
  const N := 0xffffffff00000000ffffffffffffffffbce6faada7179e84f3b9cac2fc632551
  const GX := 0x6b17d1f2e12c4247f8bce6e563a440f277037d812deb33a0f4a13945d898c296
  const GY := 0x4fe342e2fe1a7f9b8ee7eb4a7c0f9e162bce33576b315ececbb6406837bf51f5

  /** The curve coefficients the engine is wired for: a = -3 and the b of section 2.4.2. */
  const SECP256R1 := Domain(P, P - 3, 0x5ac635d8aa3a93e7b3ebbd55769886bc651d06b0cc53b0f63bce3c3e27d2604b, GX, GY, N)

  /** The 32-bit word at byte offset i. */
  function Word(s: seq<byte>, i: nat): int
    requires i + 4 <= |s|
  {
    var b0: int, b1: int, b2: int, b3: int := s[i], s[i + 1], s[i + 2], s[i + 3];
    ((b0 * 256 + b1) * 256 + b2) * 256 + b3
  }

  lemma BeWord(s: seq<byte>, i: nat)
    requires i + 4 <= |s|
    ensures BeValue(s[..i + 4]) == BeValue(s[..i]) * 0x1_0000_0000 + Word(s, i)
  {
    assert s[..i + 4][..i + 3] == s[..i + 3];
    assert s[..i + 3][..i + 2] == s[..i + 2];
    assert s[..i + 2][..i + 1] == s[..i + 1];
    assert s[..i + 1][..i] == s[..i];
    assert BeValue(s[..i + 1]) == 256 * BeValue(s[..i]) + s[i];
    assert BeValue(s[..i + 2]) == 256 * BeValue(s[..i + 1]) + s[i + 1];
    assert BeValue(s[..i + 3]) == 256 * BeValue(s[..i + 2]) + s[i + 2];
    assert BeValue(s[..i + 4]) == 256 * BeValue(s[..i + 3]) + s[i + 3];
  }

  function TwoWords(s: seq<byte>, i: nat): int
    requires i + 8 <= |s|
  {
    Word(s, i) * 0x1_0000_0000 + Word(s, i + 4)
  }

  lemma BeTwoWords(s: seq<byte>, i: nat)
    requires i + 8 <= |s|
    ensures BeValue(s[..i + 8]) == BeValue(s[..i]) * 0x1_0000_0000_0000_0000 + TwoWords(s, i)
  {
    BeWord(s, i);
    BeWord(s, i + 4);
  }

  /** A row put behind a string shifts it by 64 bits. */
  lemma BeRow(s: seq<byte>, row: Row)
    ensures BeValue(s + row) == BeValue(s) * 0x1_0000_0000_0000_0000 + TwoWords(row, 0)
  {
    var t := s + row;
    BeTwoWords(t, |s|);
    assert t[..|s|] == s && t[..|s| + 8] == t;
    assert forall i :: 0 <= i < 8 ==> t[|s| + i] == row[i];
  }

  /** A stored constant from the values of its rows. */
  lemma BeRows(r0: Row, r1: Row, r2: Row, r3: Row)
    ensures BeValue(r0 + r1 + r2 + r3)
         == ((TwoWords(r0, 0) * 0x1_0000_0000_0000_0000 + TwoWords(r1, 0)) * 0x1_0000_0000_0000_0000
             + TwoWords(r2, 0)) * 0x1_0000_0000_0000_0000 + TwoWords(r3, 0)
  {
    BeRow([], r0);
    assert [] + r0 == r0;
    BeRow(r0, r1);
    BeRow(r0 + r1, r2);
    BeRow(r0 + r1 + r2, r3);
  }

  lemma TopRowsOfP()
    ensures TwoWords(P0, 0) == 0xffffffff00000001 && TwoWords(P1, 0) == 0x0000000000000000
  {
  }

  lemma BottomRowsOfP()
    ensures TwoWords(P2, 0) == 0x00000000ffffffff && TwoWords(P3, 0) == 0xffffffffffffffff
  {
  }

  lemma StoredP()
    ensures BeValue(P_BE) == P
  {
    BeRows(P0, P1, P2, P3);
    TopRowsOfP();
    BottomRowsOfP();
  }

  lemma RowsOfN()
    ensures TwoWords(N0, 0) == 0xffffffff00000000 && TwoWords(N1, 0) == 0xffffffffffffffff
    ensures TwoWords(N2, 0) == 0xbce6faada7179e84 && TwoWords(N3, 0) == 0xf3b9cac2fc632551
  {
  }

  lemma StoredN()
    ensures BeValue(N_BE) == N
  {
    BeRows(N0, N1, N2, N3);
    RowsOfN();
  }

  lemma RowsOfGx()
    ensures TwoWords(GX0, 0) == 0x6b17d1f2e12c4247 && TwoWords(GX1, 0) == 0xf8bce6e563a440f2
    ensures TwoWords(GX2, 0) == 0x77037d812deb33a0 && TwoWords(GX3, 0) == 0xf4a13945d898c296
  {
  }

  lemma StoredGx()
    ensures BeValue(GX_BE) == GX
  {
    BeRows(GX0, GX1, GX2, GX3);
    RowsOfGx();
  }

  lemma RowsOfGy()
    ensures TwoWords(GY0, 0) == 0x4fe342e2fe1a7f9b && TwoWords(GY1, 0) == 0x8ee7eb4a7c0f9e16
    ensures TwoWords(GY2, 0) == 0x2bce33576b315ece && TwoWords(GY3, 0) == 0xcbb6406837bf51f5
  {
  }

  lemma StoredGy()
    ensures BeValue(GY_BE) == GY
  {
    BeRows(GY0, GY1, GY2, GY3);
    RowsOfGy();
  }

  const TWO_96: int := 0x1_0000_0000_0000_0000_0000_0000
  const TWO_128: int := 0x1_0000_0000_0000_0000_0000_0000_0000_0000
  const TWO_192: int := 0x1_0000_0000_0000_0000_0000_0000_0000_0000_0000_0000_0000_0000
  const TWO_224: int := 0x1_0000_0000_0000_0000_0000_0000_0000_0000_0000_0000_0000_0000_0000_0000

  /** p = 2^256 - 2^224 + 2^192 + 2^96 - 1, the base point satisfies the curve equation, and n is where a
   group order can be. */
  lemma BasePointOnCurve()
    ensures OnCurve(SECP256R1, SECP256R1.G())
    ensures SECP256R1.n < SECP256R1.p
    ensures SECP256R1.p == FIELD_BOUND - TWO_224 + TWO_192 + TWO_96 - 1 && SECP256R1.a == SECP256R1.p - 3
    ensures SECP256R1.p + 1 - SECP256R1.n < TWO_128 + TWO_128
  {
    var quotient := (GY * GY - Cubic(SECP256R1, GX)) / P;
    assert GY * GY - Cubic(SECP256R1, GX) == quotient * P;
    CongBy(GY * GY, Cubic(SECP256R1, GX), P, quotient);
  }

  /**
   The stored bytes are those parameters: what is left to assume for the driver's theorems is the
   primality of p and n, the group law, and the engine.
   */
  lemma DeviceValid(hw: Engine)
    requires Prime(P) && Prime(N)
    requires forall A, B, C :: Associates(SECP256R1, A, B, C)
    requires forall A :: Annihilates(SECP256R1, A)
    requires EngineCorrect(hw, SECP256R1)
    ensures Valid(Device(SECP256R1, P_BE, N_BE, GX_BE, GY_BE, hw))
  {
    StoredP();
    StoredN();
    StoredGx();
    StoredGy();
    BasePointOnCurve();
  }
}
