/**
 The PSA transparent driver: each entry point computes the outcome `EcdsaSpec` states for it, on
 top of an engine that only multiplies points, and bignums that may run out of memory.
 */
module EccDriver {
  import opened Modular
  import opened ByteOrder
  import opened Curve
  import opened Psa
  import opened EcdsaSpec
  import opened Wrappers

  /** `esp_ecc_point_multiply`: little-endian scalar and coordinates in, little-endian point out, or refusal. */
  datatype Engine = Engine(multiply: (seq<byte>, seq<byte>, seq<byte>, bool) -> Option<(seq<byte>, seq<byte>)>)

  /** What is relied on for one call; off the curve, unverified, the engine may do anything. */
  ghost predicate EngineCorrectAt(hw: Engine, c: Domain, k: seq<byte>, x: seq<byte>, y: seq<byte>, verify: bool)
    requires c.p > 1
  {
    |k| == 32 && |x| == 32 && |y| == 32 ==>
      var P := Affine(LeValue(x), LeValue(y));
      var answer := hw.multiply(k, x, y, verify);
      && (verify && !OnCurve(c, P) ==> answer.None?)
      && (OnCurve(c, P) && Mul(c, LeValue(k), P).Affine? ==>
            && answer.Some?
            && |answer.value.0| == 32 && |answer.value.1| == 32
            && LeValue(answer.value.0) == Mul(c, LeValue(k), P).x
            && LeValue(answer.value.1) == Mul(c, LeValue(k), P).y)
      && (answer.Some? ==> |answer.value.0| == 32 && |answer.value.1| == 32)
  }

  ghost predicate EngineCorrect(hw: Engine, c: Domain)
    requires c.p > 1
  {
    forall k, x, y, verify :: EngineCorrectAt(hw, c, k, x, y, verify)
  }

  /** The domain parameters as the file stores them, with the engine that serves them. */
  datatype Device = Device(c: Domain, pBe: Bytes32, nBe: Bytes32, gxBe: Bytes32, gyBe: Bytes32, hw: Engine)

  ghost predicate Valid(dev: Device) {
    && BeValue(dev.pBe) == dev.c.p && BeValue(dev.nBe) == dev.c.n
    && BeValue(dev.gxBe) == dev.c.gx && BeValue(dev.gyBe) == dev.c.gy
    && Lawful(dev.c)
    && EngineCorrect(dev.hw, dev.c)
  }

  lemma ModuliFit(dev: Device)
    requires Valid(dev)
    ensures 1 < dev.c.p <= FIELD_BOUND && 1 < dev.c.n <= FIELD_BOUND
  {
    BeBound(dev.pBe);
    BeBound(dev.nBe);
    FieldBoundIs32Bytes();
  }

  /** Decides whether the bytes are a valid private scalar. */
  method ScalarBeInRange(dev: Device, dBe: Bytes32) returns (ok: bool)
    requires Valid(dev)
    ensures ok <==> InRange(dev.c, BeValue(dBe))
  {
    var zero := BeIsZero(dBe);
    var below := BeLt(dBe, dev.nBe);
    ok := !zero && below;
  }

  method RandomScalarBe(dev: Device, rng: Rng, out: array<byte>) returns (status: Status)
    requires Valid(dev) && out.Length == 32
    modifies rng`next, out
    ensures var r := DrawScalar(dev.c, rng.draws, old(rng.next), DRAW_TRIES);
            status == r.status && rng.next == r.next && (status == Success ==> BeValue(out[..]) == r.scalar)
  {
    ghost var goal := DrawScalar(dev.c, rng.draws, rng.next, DRAW_TRIES);
    for i := 0 to DRAW_TRIES
      invariant DrawScalar(dev.c, rng.draws, rng.next, DRAW_TRIES - i) == goal
    {
      status := rng.Generate(out);
      if status != Success {
        return;
      }
      var ok := ScalarBeInRange(dev, out[..]);
      if ok {
        return;
      }
    }
    status := InsufficientEntropy;
  }

  lemma BytesOfLe(le: seq<byte>, v: int)
    requires |le| == 32 && LeValue(le) == v
    ensures Reversed(le) == ToBe(v, 32)
  {
    ReversedTwice(le);
    ReversedValue(Reversed(le));
    ToBeOfBe(Reversed(le));
  }

  lemma Spliced(a: seq<byte>, off: nat, x: seq<byte>, b: seq<byte>)
    requires off + |x| <= |a| && b == a[..off] + x + a[off + |x|..]
    ensures b[..off] == a[..off] && b[off..off + |x|] == x && b[off + |x|..] == a[off + |x|..]
  {
  }

  /** Two windows of one buffer, filled one after the other: the rest of it stays. */
  lemma TwoWindows(a: seq<byte>, xOff: nat, x: seq<byte>, b: seq<byte>, yOff: nat, y: seq<byte>, d: seq<byte>)
    requires xOff + |x| <= yOff && yOff + |y| <= |a|
    requires b == a[..xOff] + x + a[xOff + |x|..] && d == b[..yOff] + y + b[yOff + |y|..]
    ensures d[..xOff] == a[..xOff] && d[xOff..xOff + |x|] == x
    ensures d[xOff + |x|..yOff] == a[xOff + |x|..yOff]
  {
    assert |b| == |a| && |d| == |a|;
    assert forall i :: 0 <= i < yOff ==> d[i] == b[i];
    assert forall i :: 0 <= i < |x| ==> b[xOff + i] == x[i];
    assert forall i :: xOff + |x| <= i < |a| ==> b[i] == a[i];
  }

  /** Both coordinates, reversed, into their windows. */
  method WriteReversed(rx: array<byte>, xOff: nat, ry: array<byte>, yOff: nat, x: seq<byte>, y: seq<byte>)
    requires |x| == 32 && |y| == 32
    requires xOff + 32 <= rx.Length && yOff + 32 <= ry.Length
    requires rx == ry ==> xOff + 32 <= yOff
    modifies rx, ry
    ensures rx[xOff..xOff + 32] == Reversed(x) && ry[yOff..yOff + 32] == Reversed(y)
    ensures rx[..xOff] == old(rx[..xOff]) && ry[yOff + 32..] == old(ry[yOff + 32..])
    ensures if rx == ry then rx[xOff + 32..yOff] == old(rx[xOff + 32..yOff])
            else rx[xOff + 32..] == old(rx[xOff + 32..]) && ry[..yOff] == old(ry[..yOff])
  {
    ghost var rx0 := rx[..];
    ReverseBytes(rx, xOff, x);
    ghost var rx1, ry1 := rx[..], ry[..];
    Spliced(rx0, xOff, Reversed(x), rx1);
    ReverseBytes(ry, yOff, y);
    Spliced(ry1, yOff, Reversed(y), ry[..]);
    if rx == ry {
      TwoWindows(rx0, xOff, Reversed(x), rx1, yOff, Reversed(y), rx[..]);
    }
  }

  /**
   (rx, ry) = scalar * (px, py), big-endian in and out: the engine's little-endian operation between
   two byte reversals.
   */
  method HwPointMul(dev: Device, scalar: Bytes32, px: Bytes32, py: Bytes32, verify: bool,
                    rx: array<byte>, xOff: nat, ry: array<byte>, yOff: nat) returns (status: Status)
    requires Valid(dev)
    requires xOff + 32 <= rx.Length && yOff + 32 <= ry.Length
    requires rx == ry ==> xOff + 32 <= yOff
    modifies rx, ry
    ensures status == Success || status == InvalidArgument
    ensures status != Success ==> rx[..] == old(rx[..]) && ry[..] == old(ry[..])
    ensures rx[..xOff] == old(rx[..xOff]) && ry[yOff + 32..] == old(ry[yOff + 32..])
    ensures if rx == ry then rx[xOff + 32..yOff] == old(rx[xOff + 32..yOff])
            else rx[xOff + 32..] == old(rx[xOff + 32..]) && ry[..yOff] == old(ry[..yOff])
    ensures var P := Affine(BeValue(px), BeValue(py));
            var R := Mul(dev.c, BeValue(scalar), P);
            && (verify && !OnCurve(dev.c, P) ==> status == InvalidArgument)
            && (OnCurve(dev.c, P) && R.Affine? ==>
                  && status == Success
                  && rx[xOff..xOff + 32] == ToBe(R.x, 32) && ry[yOff..yOff + 32] == ToBe(R.y, 32))
  {
    ReversedValue(px);
    ReversedValue(py);
    ReversedValue(scalar);
    assert EngineCorrectAt(dev.hw, dev.c, Reversed(scalar), Reversed(px), Reversed(py), verify);
    var answer := dev.hw.multiply(Reversed(scalar), Reversed(px), Reversed(py), verify);
    if answer.None? {
      return InvalidArgument;
    }
    var (x, y) := answer.value;
    BytesOfLe(x, LeValue(x));
    BytesOfLe(y, LeValue(y));
    WriteReversed(rx, xOff, ry, yOff, x, y);
    status := Success;
  }

  method GenerateKey(dev: Device, rng: Rng, key: array<byte>) returns (status: Status, length: nat)
    requires Valid(dev)
    modifies rng`next, key
    ensures key.Length != PRIVKEY_LEN ==> status == BufferTooSmall && rng.next == old(rng.next)
    ensures key.Length == PRIVKEY_LEN ==>
              var r := DrawScalar(dev.c, rng.draws, old(rng.next), DRAW_TRIES);
              && status == r.status && rng.next == r.next
              && (status == Success ==> length == PRIVKEY_LEN && BeValue(key[..]) == r.scalar)
  {
    length := 0;
    if key.Length != PRIVKEY_LEN {
      return BufferTooSmall, 0;
    }
    status := RandomScalarBe(dev, rng, key);
    if status == Success {
      length := PRIVKEY_LEN;
    }
  }

  method ExportPublicKey(dev: Device, attributes: Attributes, key: seq<byte>, data: array<byte>)
    returns (status: Status, length: nat)
    requires Valid(dev)
    modifies data
    ensures var o := ExportOutcome(dev.c, attributes, key, data.Length);
            && status == o.status
            && (status == Success ==> length == PUBKEY_LEN && data[..] == o.bytes + old(data[PUBKEY_LEN..]))
            && (status != Success ==> data[..] == old(data[..]))
  {
    length := 0;
    if !IsP256KeyPair(attributes) {
      return NotSupported, 0;
    }
    if |key| != PRIVKEY_LEN {
      return InvalidArgument, 0;
    }
    if data.Length < PUBKEY_LEN {
      return BufferTooSmall, 0;
    }
    var inRange := ScalarBeInRange(dev, key);
    if !inRange {
      return InvalidArgument, 0;
    }
    MulAffine(dev.c, BeValue(key), dev.c.G());
    status := HwPointMul(dev, key, dev.gxBe, dev.gyBe, false, data, 1, data, 1 + PRIVKEY_LEN);
    if status != Success {
      return;
    }
    data[0] := PUBKEY_HEADER;
    length := PUBKEY_LEN;
    assert data[..] == [data[0]] + data[1..33] + data[33..65] + data[65..];
  }

  method KeyAgreement(dev: Device, key: seq<byte>, alg: Algorithm, peer: seq<byte>, secret: array<byte>)
    returns (status: Status, length: nat)
    requires Valid(dev)
    modifies secret
    ensures var o := AgreementOutcome(dev.c, key, alg, peer, secret.Length);
            && status == o.status
            && (status == Success ==> length == SECRET_LEN && secret[..] == o.bytes + old(secret[SECRET_LEN..]))
            && (status != Success ==> secret[..] == old(secret[..]))
  {
    length := 0;
    if alg != Ecdh {
      return NotSupported, 0;
    }
    if |key| != PRIVKEY_LEN || |peer| != PUBKEY_LEN || peer[0] != PUBKEY_HEADER {
      return InvalidArgument, 0;
    }
    if secret.Length < SECRET_LEN {
      return BufferTooSmall, 0;
    }
    var inRange := ScalarBeInRange(dev, key);
    if !inRange {
      return InvalidArgument, 0;
    }
    var peerX, peerY := peer[1..33], peer[33..65];
    var xOk := BeLt(peerX, dev.pBe);
    var yOk := BeLt(peerY, dev.pBe);
    if !xOk || !yOk {
      return InvalidArgument, 0;
    }
    var sharedY := new byte[PRIVKEY_LEN];
    ghost var Q := Affine(BeValue(peerX), BeValue(peerY));
    if OnCurve(dev.c, Q) {
      MulAffine(dev.c, BeValue(key), Q);
    }
    status := HwPointMul(dev, key, peerX, peerY, true, secret, 0, sharedY, 0);
    if status != Success {
      return;
    }
    length := SECRET_LEN;
    assert secret[..] == secret[0..32] + secret[32..];
  }

  /** The s of SEC 1, obtained without ever inverting the bare nonce. */
  method BlindedS(dev: Device, mpi: Bignum, r: int, d: int, e: int, kBe: seq<byte>, tBe: seq<byte>)
    returns (status: Status, s: int)
    requires Valid(dev) && InRange(dev.c, BeValue(kBe)) && InRange(dev.c, BeValue(tBe))
    modifies mpi`calls
    ensures mpi.InOrder(old(mpi.calls), mpi.calls)
    ensures if mpi.Refused(old(mpi.calls), mpi.calls) then status == InsufficientMemory
            else status == Success && s == SignS(dev.c, d, e, BeValue(kBe), r)
  {
    status, s := GenericError, 0;
    var n := dev.c.n;
    var k :- mpi.ReadBinary(kBe);
    var t :- mpi.ReadBinary(tBe);
    s :- mpi.MulMpi(r, d);
    s :- mpi.AddMpi(s, e);
    s :- mpi.MulMpi(s, t);
    s :- mpi.ModMpi(s, n);
    var u :- mpi.MulMpi(k, t);
    u :- mpi.ModMpi(u, n);
    BlindingTransparent(n, k, t, e, r, d);
    u :- mpi.InvMod(u, n);
    s :- mpi.MulMpi(s, u);
    s :- mpi.ModMpi(s, n);
    status := Success;
  }

  /** The abscissa of k*G modulo n. */
  method NonceAbscissa(dev: Device, mpi: Bignum, kBe: Bytes32) returns (status: Status, r: int)
    requires Valid(dev) && InRange(dev.c, BeValue(kBe))
    modifies mpi`calls
    ensures mpi.InOrder(old(mpi.calls), mpi.calls)
    ensures if mpi.Refused(old(mpi.calls), mpi.calls) then status == InsufficientMemory
            else status == Success && r == NonceX(dev.c, BeValue(kBe)) % dev.c.n
  {
    ghost var R := Mul(dev.c, BeValue(kBe), dev.c.G());
    ModuliFit(dev);
    MulAffine(dev.c, BeValue(kBe), dev.c.G());
    CoordinatesFit(dev.c, R);
    r := 0;
    var rxBe, ryBe := new byte[PRIVKEY_LEN], new byte[PRIVKEY_LEN];
    status := HwPointMul(dev, kBe, dev.gxBe, dev.gyBe, false, rxBe, 0, ryBe, 0);
    if status != Success {
      return;
    }
    assert rxBe[..] == rxBe[0..32];
    r :- mpi.ReadBinary(rxBe[..]);
    r :- mpi.ModMpi(r, dev.c.n);
  }

  datatype Attempt = Retry | Stop(status: Status, r: int, s: int)

  /** One pass of the retry loop: it stops with the whole run's answer, or the rest of the run has it. */
  method SignAttempt(dev: Device, mpi: Bignum, rng: Rng, d: int, e: int, ghost tries: nat) returns (a: Attempt)
    requires Valid(dev) && tries > 0
    modifies mpi`calls, rng`next
    ensures mpi.InOrder(old(mpi.calls), mpi.calls)
    ensures var goal := Sign(dev.c, rng.draws, old(rng.next), d, e, tries);
            if mpi.Refused(old(mpi.calls), mpi.calls) then a.Stop? && a.status == InsufficientMemory
            else
              match a
              case Retry => Sign(dev.c, rng.draws, rng.next, d, e, tries - 1) == goal
              case Stop(status, r, s) =>
                && goal == Signing(status, r, s, rng.next)
                && (status == Success ==> InRange(dev.c, r) && InRange(dev.c, s))
  {
    var kBe, tBe := new byte[PRIVKEY_LEN], new byte[PRIVKEY_LEN];
    var status := RandomScalarBe(dev, rng, kBe);
    if status != Success {
      return Stop(status, 0, 0);
    }
    var kBytes := kBe[..];
    var r: int;
    status, r := NonceAbscissa(dev, mpi, kBytes);
    if status != Success {
      return Stop(status, 0, 0);
    }
    if r == 0 {
      return Retry;
    }
    status := RandomScalarBe(dev, rng, tBe);
    if status != Success {
      return Stop(status, 0, 0);
    }
    var s: int;
    status, s := BlindedS(dev, mpi, r, d, e, kBytes, tBe[..]);
    if status != Success {
      return Stop(status, 0, 0);
    }
    if s == 0 {
      return Retry;
    }
    return Stop(Success, r, s);
  }

  /**
   Signing draws, retries and fails exactly as `SignOutcome` says, unless some bignum call found no
   memory; the buffer is written only on success, but for r when memory runs out right after it.
   */
  method SignHash(dev: Device, mpi: Bignum, rng: Rng, attributes: Attributes, key: seq<byte>, alg: Algorithm,
                  hash: seq<byte>, signature: array<byte>) returns (status: Status, length: nat)
    requires Valid(dev)
    modifies mpi`calls, rng`next, signature
    ensures mpi.InOrder(old(mpi.calls), mpi.calls)
    ensures var o := SignOutcome(dev.c, attributes, key, alg, hash, signature.Length, rng.draws, old(rng.next));
            if mpi.Refused(old(mpi.calls), mpi.calls) then
              && status == InsufficientMemory
              && (signature[..] == old(signature[..]) ||
                  (o.status == Success && signature[..] == ToBe(o.r, 32) + old(signature[32..])))
            else
              && status == o.status && rng.next == o.next
              && (status == Success ==>
                    length == SIGNATURE_LEN && signature[..] == EncodeSignature(o.r, o.s) + old(signature[64..]))
              && (status != Success ==> signature[..] == old(signature[..]))
  {
    length := 0;
    if !IsP256KeyPair(attributes) || alg != RandomizedEcdsa {
      return NotSupported, 0;
    }
    if |key| != PRIVKEY_LEN {
      return InvalidArgument, 0;
    }
    if signature.Length < SIGNATURE_LEN {
      return BufferTooSmall, 0;
    }
    var inRange := ScalarBeInRange(dev, key);
    if !inRange {
      return InvalidArgument, 0;
    }
    status := SignWithKey(dev, mpi, rng, key, hash, signature);
    if status == Success {
      length := SIGNATURE_LEN;
    }
  }

  /** The bignum part, behind the guards. */
  method SignWithKey(dev: Device, mpi: Bignum, rng: Rng, key: Bytes32, hash: seq<byte>, signature: array<byte>)
    returns (status: Status)
    requires Valid(dev) && InRange(dev.c, BeValue(key)) && signature.Length >= SIGNATURE_LEN
    modifies mpi`calls, rng`next, signature
    ensures mpi.InOrder(old(mpi.calls), mpi.calls)
    ensures var o := Sign(dev.c, rng.draws, old(rng.next), BeValue(key), HashToInt(hash), SIGN_TRIES);
            if mpi.Refused(old(mpi.calls), mpi.calls) then
              && status == InsufficientMemory
              && (signature[..] == old(signature[..]) ||
                  (o.status == Success && signature[..] == ToBe(o.r, 32) + old(signature[32..])))
            else
              && status == o.status && rng.next == o.next
              && signature[..] == if status == Success then EncodeSignature(o.r, o.s) + old(signature[64..])
                                  else old(signature[..])
  {
    var eLen := if |hash| < PRIVKEY_LEN then |hash| else PRIVKEY_LEN;
    status := GenericError;
    var n :- mpi.ReadBinary(dev.nBe);
    var d :- mpi.ReadBinary(key);
    var e :- mpi.ReadBinary(hash[..eLen]);
    assert hash[..eLen] == if |hash| < PRIVKEY_LEN then hash else hash[..PRIVKEY_LEN];
    status := SignWithScalars(dev, mpi, rng, d, e, signature);
  }

  /** The retry loop. */
  method SignWithScalars(dev: Device, mpi: Bignum, rng: Rng, d: int, e: int, signature: array<byte>)
    returns (status: Status)
    requires Valid(dev) && signature.Length >= SIGNATURE_LEN
    modifies mpi`calls, rng`next, signature
    ensures mpi.InOrder(old(mpi.calls), mpi.calls)
    ensures var o := Sign(dev.c, rng.draws, old(rng.next), d, e, SIGN_TRIES);
            if mpi.Refused(old(mpi.calls), mpi.calls) then
              && status == InsufficientMemory
              && (signature[..] == old(signature[..]) ||
                  (o.status == Success && signature[..] == ToBe(o.r, 32) + old(signature[32..])))
            else
              && status == o.status && rng.next == o.next
              && signature[..] == if status == Success then EncodeSignature(o.r, o.s) + old(signature[64..])
                                  else old(signature[..])
  {
    ghost var goal := Sign(dev.c, rng.draws, rng.next, d, e, SIGN_TRIES);
    for attempt := 0 to SIGN_TRIES
      invariant mpi.InOrder(old(mpi.calls), mpi.calls) && !mpi.Refused(old(mpi.calls), mpi.calls)
      invariant Sign(dev.c, rng.draws, rng.next, d, e, SIGN_TRIES - attempt) == goal
      invariant signature[..] == old(signature[..])
    {
      var a := SignAttempt(dev, mpi, rng, d, e, SIGN_TRIES - attempt);
      if a.Stop? {
        status := a.status;
        if status == Success {
          status := WriteSignature(dev, mpi, a.r, a.s, signature);
        }
        return;
      }
    }
    status := InsufficientEntropy;
  }

  method WriteSignature(dev: Device, mpi: Bignum, r: int, s: int, signature: array<byte>) returns (status: Status)
    requires Valid(dev) && 0 <= r < dev.c.n && 0 <= s < dev.c.n && signature.Length >= SIGNATURE_LEN
    modifies mpi`calls, signature
    ensures mpi.InOrder(old(mpi.calls), mpi.calls)
    ensures if mpi.Refused(old(mpi.calls), mpi.calls) then
              && status == InsufficientMemory
              && (signature[..] == old(signature[..]) || signature[..] == ToBe(r, 32) + old(signature[32..]))
            else status == Success && signature[..] == EncodeSignature(r, s) + old(signature[64..])
  {
    ModuliFit(dev);
    status := GenericError;
    :- mpi.WriteBinary(r, signature, 0);
    ghost var rWritten := signature[..];
    assert rWritten == ToBe(r, 32) + old(signature[..])[32..];
    :- mpi.WriteBinary(s, signature, PRIVKEY_LEN);
    SplicedTwice(old(signature[..]), rWritten, ToBe(r, 32), ToBe(s, 32));
    status := Success;
  }

  lemma SplicedTwice(a: seq<byte>, b: seq<byte>, x: seq<byte>, y: seq<byte>)
    requires |x| == 32 && |y| == 32 && |a| >= 64 && b == x + a[32..]
    ensures b[..32] + y + b[64..] == x + y + a[64..]
  {
    assert b[..32] == x && b[64..] == a[64..];
  }

  /** Reducing the numerator and denominator late or early makes no difference to the slope. */
  lemma ChordSlope(c: Domain, x1: int, y1: int, x2: int, y2: int)
    requires Prime(c.p) && 0 <= x1 < c.p && 0 <= x2 < c.p && x1 != x2
    ensures var den := (x2 - x1) % c.p;
            && Gcd(den, c.p) == 1
            && (Inverse(den, c.p) * (y2 - y1)) % c.p == Slope(c, x1, y1, x2, y2)
  {
    var p := c.p;
    var den := (x2 - x1) % p;
    DistinctAbscissas(x1, x2, p);
    CongIffSameResidue(x2 - x1, 0, p);
    DivModUnique(0, p, 0, 0);
    DivModUnique(den, p, 0, den);
    PrimeGcd(den, p);
    assert Inverse(den, p) == Inverse(x2 - x1, p);
    assert Inverse(den, p) * (y2 - y1) == (y2 - y1) * Inverse(den, p);
  }

  /** The abscissa from the reduced difference of abscissas, every intermediate reduced where the code reduces. */
  function ReducedChord(p: int, den: int, x1: int, y1: int, x2: int, y2: int): int
    requires p > 1
  {
    ReducedThird(p, ReducedSlope(p, den, y1, y2), x1, x2)
  }

  function ReducedSlope(p: int, den: int, y1: int, y2: int): int
    requires p > 1
  {
    (Inverse(den, p) * (y2 - y1)) % p
  }

  function ReducedThird(p: int, lam: int, x1: int, x2: int): int
    requires p > 1
  {
    (lam * lam - x1 - x2) % p
  }

  /** That is the abscissa of the sum, a curve point, and the inverse exists. */
  lemma ChordComputed(c: Domain, x1: int, y1: int, x2: int, y2: int)
    requires Prime(c.p) && OnCurve(c, Affine(x1, y1)) && OnCurve(c, Affine(x2, y2)) && x1 != x2
    ensures var R := Add(c, Affine(x1, y1), Affine(x2, y2));
            && Gcd((x2 - x1) % c.p, c.p) == 1
            && R.Affine? && OnCurve(c, R) && R.x == ReducedChord(c.p, (x2 - x1) % c.p, x1, y1, x2, y2)
  {
    ChordSlope(c, x1, y1, x2, y2);
    AddClosed(c, Affine(x1, y1), Affine(x2, y2));
    var lam := Slope(c, x1, y1, x2, y2);
    assert (lam * lam - x1 - x2) % c.p == ThirdX(c, lam, x1, x2);
  }

  method SlopeOf(mpi: Bignum, p: int, x1: int, y1: int, x2: int, y2: int) returns (status: Status, lam: int)
    requires p > 1 && Gcd((x2 - x1) % p, p) == 1
    modifies mpi`calls
    ensures mpi.InOrder(old(mpi.calls), mpi.calls)
    ensures if mpi.Refused(old(mpi.calls), mpi.calls) then status == InsufficientMemory
            else status == Success && lam == ReducedSlope(p, (x2 - x1) % p, y1, y2)
  {
    status, lam := GenericError, 0;
    lam :- mpi.SubMpi(x2, x1);
    lam :- mpi.ModMpi(lam, p);
    lam :- mpi.InvMod(lam, p);
    var v :- mpi.SubMpi(y2, y1);
    lam :- mpi.MulMpi(lam, v);
    lam :- mpi.ModMpi(lam, p);
    status := Success;
  }

  method ThirdOf(mpi: Bignum, p: int, lam: int, x1: int, x2: int) returns (status: Status, v: int)
    requires p > 1
    modifies mpi`calls
    ensures mpi.InOrder(old(mpi.calls), mpi.calls)
    ensures if mpi.Refused(old(mpi.calls), mpi.calls) then status == InsufficientMemory
            else status == Success && v == ReducedThird(p, lam, x1, x2)
  {
    status, v := GenericError, 0;
    v :- mpi.MulMpi(lam, lam);
    v :- mpi.SubMpi(v, x1);
    v :- mpi.SubMpi(v, x2);
    v :- mpi.ModMpi(v, p);
    status := Success;
  }

  /**
   The one affine addition, abscissa only. Intermediate differences may be negative; the result is
   the abscissa of the sum, which is again a point of the curve.
   */
  method ChordAbscissa(dev: Device, mpi: Bignum, x1Be: Bytes32, y1Be: Bytes32, x2Be: Bytes32, y2Be: Bytes32)
    returns (status: Status, v: int)
    requires Valid(dev)
    requires OnCurve(dev.c, Affine(BeValue(x1Be), BeValue(y1Be)))
    requires OnCurve(dev.c, Affine(BeValue(x2Be), BeValue(y2Be)))
    requires BeValue(x1Be) != BeValue(x2Be)
    modifies mpi`calls
    ensures mpi.InOrder(old(mpi.calls), mpi.calls)
    ensures var R := Add(dev.c, Affine(BeValue(x1Be), BeValue(y1Be)), Affine(BeValue(x2Be), BeValue(y2Be)));
            if mpi.Refused(old(mpi.calls), mpi.calls) then status == InsufficientMemory
            else status == Success && R.Affine? && OnCurve(dev.c, R) && v == R.x
  {
    status, v := GenericError, 0;
    ChordComputed(dev.c, BeValue(x1Be), BeValue(y1Be), BeValue(x2Be), BeValue(y2Be));
    var x1 :- mpi.ReadBinary(x1Be);
    var y1 :- mpi.ReadBinary(y1Be);
    var x2 :- mpi.ReadBinary(x2Be);
    var y2 :- mpi.ReadBinary(y2Be);
    var lam: int;
    status, lam := SlopeOf(mpi, dev.c.p, x1, y1, x2, y2);
    if status != Success {
      return;
    }
    status, v := ThirdOf(mpi, dev.c.p, lam, x1, x2);
  }

  /** w = s^-1, u1 = e*w, u2 = r*w modulo n, with u2 never zero. */
  method VerificationScalars(dev: Device, mpi: Bignum, e: int, r: int, s: int)
    returns (status: Status, u1: int, u2: int)
    requires Valid(dev) && InRange(dev.c, r) && InRange(dev.c, s)
    modifies mpi`calls
    ensures mpi.InOrder(old(mpi.calls), mpi.calls)
    ensures if mpi.Refused(old(mpi.calls), mpi.calls) then status == InsufficientMemory
            else status == Success && u1 == U1(dev.c, e, s) && u2 == U2(dev.c, r, s)
  {
    status, u1, u2 := GenericError, 0, 0;
    var n := dev.c.n;
    DivModUnique(s, n, 0, s);
    PrimeGcd(s, n);
    var w :- mpi.InvMod(s, n);
    u1 :- mpi.MulMpi(e, w);
    u1 :- mpi.ModMpi(u1, n);
    u2 :- mpi.MulMpi(r, w);
    u2 :- mpi.ModMpi(u2, n);
    status := Success;
  }

  /** The affine coordinates of Q, unchecked beyond their range; the engine checks the rest. */
  method PublicCoordinates(dev: Device, isPublic: bool, key: seq<byte>)
    returns (status: Status, qxBe: Bytes32, qyBe: Bytes32)
    requires Valid(dev)
    ensures status == Success || status == InvalidArgument
    ensures var Q := VerificationPoint(dev.c, isPublic, key);
            && (Q.Some? ==> status == Success && Q.value == Affine(BeValue(qxBe), BeValue(qyBe)))
            && (Q.None? && status == Success ==> !OnCurve(dev.c, Affine(BeValue(qxBe), BeValue(qyBe))))
  {
    qxBe, qyBe := dev.gxBe, dev.gyBe;
    if isPublic {
      if |key| != PUBKEY_LEN || key[0] != PUBKEY_HEADER {
        status := InvalidArgument;
        return;
      }
      qxBe, qyBe := key[1..33], key[33..65];
    } else {
      if |key| != PRIVKEY_LEN {
        status := InvalidArgument;
        return;
      }
      var inRange := ScalarBeInRange(dev, key);
      if !inRange {
        status := InvalidArgument;
        return;
      }
      status, qxBe, qyBe := BaseMultiple(dev, key);
      if status != Success {
        return;
      }
    }
    var xOk := BeLt(qxBe, dev.pBe);
    var yOk := BeLt(qyBe, dev.pBe);
    status := if xOk && yOk then Success else InvalidArgument;
  }

  /** k*G on the engine, for k in [1, n). */
  method BaseMultiple(dev: Device, kBe: Bytes32) returns (status: Status, xBe: Bytes32, yBe: Bytes32)
    requires Valid(dev) && InRange(dev.c, BeValue(kBe))
    ensures status == Success
    ensures Mul(dev.c, BeValue(kBe), dev.c.G()) == Affine(BeValue(xBe), BeValue(yBe))
    ensures OnCurve(dev.c, Affine(BeValue(xBe), BeValue(yBe)))
  {
    MulAffine(dev.c, BeValue(kBe), dev.c.G());
    status, xBe, yBe := PointMultiple(dev, kBe, dev.gxBe, dev.gyBe, false);
  }

  /** k*P on the engine into fresh buffers, for k in [1, n). */
  method PointMultiple(dev: Device, kBe: Bytes32, pxBe: Bytes32, pyBe: Bytes32, verify: bool)
    returns (status: Status, xBe: Bytes32, yBe: Bytes32)
    requires Valid(dev) && InRange(dev.c, BeValue(kBe))
    requires verify || OnCurve(dev.c, Affine(BeValue(pxBe), BeValue(pyBe)))
    ensures var P := Affine(BeValue(pxBe), BeValue(pyBe));
            if OnCurve(dev.c, P) then
              && status == Success
              && Mul(dev.c, BeValue(kBe), P) == Affine(BeValue(xBe), BeValue(yBe))
              && OnCurve(dev.c, Affine(BeValue(xBe), BeValue(yBe)))
            else status == InvalidArgument
  {
    ghost var P := Affine(BeValue(pxBe), BeValue(pyBe));
    ModuliFit(dev);
    if OnCurve(dev.c, P) {
      MulAffine(dev.c, BeValue(kBe), P);
      CoordinatesFit(dev.c, Mul(dev.c, BeValue(kBe), P));
    }
    var x, y := new byte[PRIVKEY_LEN], new byte[PRIVKEY_LEN];
    status := HwPointMul(dev, kBe, pxBe, pyBe, verify, x, 0, y, 0);
    xBe, yBe := x[..], y[..];
    assert x[..] == x[0..32] && y[..] == y[0..32];
  }

  /** u*P on the engine for a bignum u in [1, n). */
  method ScalarMultiple(dev: Device, mpi: Bignum, u: int, pxBe: Bytes32, pyBe: Bytes32, verify: bool)
    returns (status: Status, xBe: Bytes32, yBe: Bytes32)
    requires Valid(dev) && InRange(dev.c, u)
    requires verify || OnCurve(dev.c, Affine(BeValue(pxBe), BeValue(pyBe)))
    modifies mpi`calls
    ensures mpi.InOrder(old(mpi.calls), mpi.calls)
    ensures var P := Affine(BeValue(pxBe), BeValue(pyBe));
            if mpi.Refused(old(mpi.calls), mpi.calls) then status == InsufficientMemory
            else if OnCurve(dev.c, P) then
              && status == Success
              && Mul(dev.c, u, P) == Affine(BeValue(xBe), BeValue(yBe))
              && OnCurve(dev.c, Affine(BeValue(xBe), BeValue(yBe)))
            else status == InvalidArgument
  {
    status, xBe, yBe := GenericError, dev.gxBe, dev.gyBe;
    ModuliFit(dev);
    var uBe := new byte[PRIVKEY_LEN];
    :- mpi.WriteBinary(u, uBe, 0);
    assert uBe[..] == ToBe(u, 32);
    BeOfToBe32(u);
    status, xBe, yBe := PointMultiple(dev, uBe[..], pxBe, pyBe, verify);
  }

  /** From a key and an in-range (r, s) to the answer: accept, reject, or decline on a shared abscissa. */
  method VerifyEquation(dev: Device, mpi: Bignum, qxBe: Bytes32, qyBe: Bytes32, e: int, r: int, s: int)
    returns (status: Status)
    requires Valid(dev) && InRange(dev.c, r) && InRange(dev.c, s)
    modifies mpi`calls
    ensures mpi.InOrder(old(mpi.calls), mpi.calls)
    ensures var Q := Affine(BeValue(qxBe), BeValue(qyBe));
            status == if mpi.Refused(old(mpi.calls), mpi.calls) then InsufficientMemory
                      else if !OnCurve(dev.c, Q) then InvalidArgument
                      else if SharesAbscissa(dev.c, Q, e, r, s) then NotSupported
                      else if Accepts(dev.c, Q, e, r, s) then Success
                      else InvalidSignature
  {
    U2Nonzero(dev.c, r, s);
    var u1, u2: int;
    status, u1, u2 := VerificationScalars(dev, mpi, e, r, s);
    if status != Success {
      return;
    }
    var r2x, r2y: Bytes32;
    status, r2x, r2y := ScalarMultiple(dev, mpi, u2, qxBe, qyBe, true);
    if status != Success {
      return;
    }
    var v: int;
    status, v := SumAbscissa(dev, mpi, u1, r2x, r2y);
    if status != Success {
      return;
    }
    v :- mpi.ModMpi(v, dev.c.n);
    status := if v == r then Success else InvalidSignature;
  }

  /** The abscissa of u1*G + R2: R2 outright when u1 is zero, declined when both terms share theirs. */
  method SumAbscissa(dev: Device, mpi: Bignum, u1: int, r2x: Bytes32, r2y: Bytes32) returns (status: Status, v: int)
    requires Valid(dev) && 0 <= u1 < dev.c.n
    requires OnCurve(dev.c, Affine(BeValue(r2x), BeValue(r2y)))
    modifies mpi`calls
    ensures mpi.InOrder(old(mpi.calls), mpi.calls)
    ensures var R1, R2 := Mul(dev.c, u1, dev.c.G()), Affine(BeValue(r2x), BeValue(r2y));
            var R := Add(dev.c, R1, R2);
            if mpi.Refused(old(mpi.calls), mpi.calls) then status == InsufficientMemory
            else if R1.Affine? && R1.x == R2.x then status == NotSupported
            else status == Success && R.Affine? && v == R.x
  {
    status, v := GenericError, 0;
    if u1 == 0 {
      v :- mpi.ReadBinary(r2x);
      return Success, v;
    }
    var r1x, r1y: Bytes32;
    status, r1x, r1y := ScalarMultiple(dev, mpi, u1, dev.gxBe, dev.gyBe, false);
    if status != Success {
      return;
    }
    MemcmpIsNumeric(r1x, r2x);
    if Memcmp(r1x, r2x) == 0 {
      return NotSupported, 0;
    }
    status, v := ChordAbscissa(dev, mpi, r1x, r1y, r2x, r2y);
  }

  /** Verification answers as `VerifyOutcome` says, unless some bignum call found no memory. */
  method VerifyHash(dev: Device, mpi: Bignum, attributes: Attributes, key: seq<byte>, alg: Algorithm,
                    hash: seq<byte>, signature: seq<byte>) returns (status: Status)
    requires Valid(dev)
    modifies mpi`calls
    ensures mpi.InOrder(old(mpi.calls), mpi.calls)
    ensures status == if mpi.Refused(old(mpi.calls), mpi.calls) then InsufficientMemory
                      else VerifyOutcome(dev.c, attributes, key, alg, hash, signature)
  {
    var isPair := attributes.keyType == EccKeyPair(SecpR1);
    var isPub := attributes.keyType == EccPublicKey(SecpR1);
    if (!isPair && !isPub) || attributes.bits != 256 || !IsEcdsa(alg) {
      return NotSupported;
    }
    if |signature| != SIGNATURE_LEN {
      return InvalidSignature;
    }
    var rBe, sBe := signature[..32], signature[32..];
    var rOk := ScalarBeInRange(dev, rBe);
    var sOk := ScalarBeInRange(dev, sBe);
    if !rOk || !sOk {
      return InvalidSignature;
    }
    var qxBe, qyBe: Bytes32;
    status, qxBe, qyBe := PublicCoordinates(dev, isPub, key);
    if status != Success {
      return;
    }
    PointOfKey(dev, isPub, key);
    status := VerifyDecoded(dev, mpi, qxBe, qyBe, hash, rBe, sBe);
  }

  /** The bignum part, behind the guards. */
  method VerifyDecoded(dev: Device, mpi: Bignum, qxBe: Bytes32, qyBe: Bytes32, hash: seq<byte>,
                       rBe: Bytes32, sBe: Bytes32) returns (status: Status)
    requires Valid(dev) && InRange(dev.c, BeValue(rBe)) && InRange(dev.c, BeValue(sBe))
    modifies mpi`calls
    ensures mpi.InOrder(old(mpi.calls), mpi.calls)
    ensures var Q := Affine(BeValue(qxBe), BeValue(qyBe));
            var e, r, s := HashToInt(hash), BeValue(rBe), BeValue(sBe);
            status == if mpi.Refused(old(mpi.calls), mpi.calls) then InsufficientMemory
                      else if !OnCurve(dev.c, Q) then InvalidArgument
                      else if SharesAbscissa(dev.c, Q, e, r, s) then NotSupported
                      else if Accepts(dev.c, Q, e, r, s) then Success
                      else InvalidSignature
  {
    var eLen := if |hash| < PRIVKEY_LEN then |hash| else PRIVKEY_LEN;
    assert hash[..eLen] == if |hash| < PRIVKEY_LEN then hash else hash[..PRIVKEY_LEN];
    status := GenericError;
    var n :- mpi.ReadBinary(dev.nBe);
    var p :- mpi.ReadBinary(dev.pBe);
    var e :- mpi.ReadBinary(hash[..eLen]);
    var r :- mpi.ReadBinary(rBe);
    var s :- mpi.ReadBinary(sBe);
    status := VerifyEquation(dev, mpi, qxBe, qyBe, e, r, s);
  }

  /** A key that decodes gives an affine curve point. */
  lemma PointOfKey(dev: Device, isPublic: bool, key: seq<byte>)
    requires Valid(dev)
    ensures var Q := VerificationPoint(dev.c, isPublic, key);
            Q.Some? ==> Q.value.Affine? && OnCurve(dev.c, Q.value)
  {
    if !isPublic && |key| == PRIVKEY_LEN && InRange(dev.c, BeValue(key)) {
      MulAffine(dev.c, BeValue(key), dev.c.G());
    }
  }
}
