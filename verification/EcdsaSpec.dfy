/**
 ECDSA and ECDH over a curve as SEC 1 v2.0 states them, the outcome the driver promises for every
 input, and the theorems that tie signing, verification, export and agreement together.
 */
module EcdsaSpec {
  import opened Modular
  import opened ByteOrder
  import opened Curve
  import opened Psa
  import opened Wrappers

  predicate InRange(c: Domain, d: int) {
    1 <= d < c.n
  }

  /** The leftmost 256 bits of the hash; a shorter hash is used whole (section 4.1.3 step 5). */
  function HashToInt(hash: seq<byte>): (e: int)
    ensures e >= 0
  {
    BeValue(if |hash| < PRIVKEY_LEN then hash else hash[..PRIVKEY_LEN])
  }

  /** A hash of up to 32 bytes counts whole, and from the 32nd byte on nothing does. */
  lemma HashLeftmost(hash: seq<byte>, more: seq<byte>)
    ensures |hash| <= 32 ==> HashToInt(hash) == BeValue(hash)
    ensures |hash| >= 32 ==> HashToInt(hash + more) == HashToInt(hash) == BeValue(hash[..32])
  {
    if |hash| >= 32 {
      assert (hash + more)[..32] == hash[..32];
      assert |hash| == 32 ==> hash[..32] == hash;
    }
  }

  // ----- drawing scalars and signing -----

  datatype ScalarDraw = ScalarDraw(status: Status, scalar: int, next: nat)

  /** The first of at most `tries` draws that lies in [1, n). */
  function DrawScalar(c: Domain, draws: nat -> Draw, next: nat, tries: nat): (r: ScalarDraw)
    ensures r.status == Success ==> InRange(c, r.scalar)
    decreases tries, next
  {
    if tries == 0 then ScalarDraw(InsufficientEntropy, 0, next)
    else
      match draws(next)
      case DrawFailed(error) => ScalarDraw(error, 0, next + 1)
      case Drawn(bytes) =>
        if InRange(c, BeValue(bytes)) then ScalarDraw(Success, BeValue(bytes), next + 1)
        else DrawScalar(c, draws, next + 1, tries - 1)
  }

  /** The draw is neither a failure nor in range. */
  predicate Rejected(c: Domain, draw: Draw) {
    draw.Drawn? && !(1 <= BeValue(draw.bytes) < c.n)
  }

  lemma {:induction false} DrawsPast(c: Domain, draws: nat -> Draw, next: nat, i: nat, tries: nat)
    requires i <= tries && forall j: nat :: next <= j < next + i ==> Rejected(c, draws(j))
    ensures DrawScalar(c, draws, next, tries) == DrawScalar(c, draws, next + i, tries - i)
    decreases i
  {
    if i > 0 {
      assert Rejected(c, draws(next));
      DrawsPast(c, draws, next + 1, i - 1, tries - 1);
    }
  }

  /** After fewer than 32 rejected draws the next one decides: its scalar, or its error. */
  lemma DrawDecides(c: Domain, draws: nat -> Draw, next: nat, i: nat)
    requires i < 32 && forall j: nat :: next <= j < next + i ==> Rejected(c, draws(j))
    requires !Rejected(c, draws(next + i))
    ensures DrawScalar(c, draws, next, DRAW_TRIES) ==
              match draws(next + i)
              case Drawn(bytes) => ScalarDraw(Success, BeValue(bytes), next + i + 1)
              case DrawFailed(error) => ScalarDraw(error, 0, next + i + 1)
  {
    DrawsPast(c, draws, next, i, DRAW_TRIES);
  }

  /** And 32 rejected draws are one too many. */
  lemma DrawsExhausted(c: Domain, draws: nat -> Draw, next: nat)
    requires forall j: nat :: next <= j < next + 32 ==> Rejected(c, draws(j))
    ensures DrawScalar(c, draws, next, DRAW_TRIES) == ScalarDraw(InsufficientEntropy, 0, next + 32)
  {
    DrawsPast(c, draws, next, 32, DRAW_TRIES);
  }

  const DRAW_TRIES: nat := 32
  const SIGN_TRIES: nat := 8

  datatype Signing = Signing(status: Status, r: int, s: int, next: nat)

  function NonceX(c: Domain, k: nat): int
    requires c.p > 1
  {
    match Mul(c, k, c.G())
    case Infinity => 0
    case Affine(x, _) => x
  }

  /** s = (e + r*d) / k modulo n: no blinding here. */
  function SignS(c: Domain, d: int, e: int, k: int, r: int): int
    requires c.n > 1
  {
    ((e + r * d) * Inverse(k, c.n)) % c.n
  }

  /** Section 4.1.3 over the draws: retry on r = 0 or s = 0, give up after `tries` attempts. */
  function Sign(c: Domain, draws: nat -> Draw, next: nat, d: int, e: int, tries: nat): (o: Signing)
    requires c.p > 1 && c.n > 1
    decreases tries, next
  {
    if tries == 0 then Signing(InsufficientEntropy, 0, 0, next)
    else
      var k := DrawScalar(c, draws, next, DRAW_TRIES);
      if k.status != Success then Signing(k.status, 0, 0, k.next)
      else
        var r := NonceX(c, k.scalar) % c.n;
        if r == 0 then Sign(c, draws, k.next, d, e, tries - 1)
        else
          var t := DrawScalar(c, draws, k.next, DRAW_TRIES);
          if t.status != Success then Signing(t.status, 0, 0, t.next)
          else
            var s := SignS(c, d, e, k.scalar, r);
            if s == 0 then Sign(c, draws, t.next, d, e, tries - 1)
            else Signing(Success, r, s, t.next)
  }

  /** (r, s) is a signature of e under d for some nonce. */
  ghost predicate IsSignature(c: Domain, d: int, e: int, r: int, s: int)
    requires c.p > 1 && c.n > 1
  {
    && InRange(c, r) && InRange(c, s)
    && exists k :: SignedWith(c, d, e, r, s, k)
  }

  ghost predicate SignedWith(c: Domain, d: int, e: int, r: int, s: int, k: int)
    requires c.p > 1 && c.n > 1
  {
    InRange(c, k) && r == NonceX(c, k) % c.n && s == SignS(c, d, e, k, r)
  }

  lemma {:induction false} SignIsSignature(c: Domain, draws: nat -> Draw, next: nat, d: int, e: int, tries: nat)
    requires c.p > 1 && c.n > 1
    ensures var o := Sign(c, draws, next, d, e, tries);
            o.status == Success ==> IsSignature(c, d, e, o.r, o.s)
    decreases tries, next
  {
    if tries == 0 {
    } else {
      var k := DrawScalar(c, draws, next, DRAW_TRIES);
      if k.status == Success {
        var r := NonceX(c, k.scalar) % c.n;
        if r == 0 {
          SignIsSignature(c, draws, k.next, d, e, tries - 1);
        } else {
          var t := DrawScalar(c, draws, k.next, DRAW_TRIES);
          if t.status == Success {
            var s := SignS(c, d, e, k.scalar, r);
            if s == 0 {
              SignIsSignature(c, draws, t.next, d, e, tries - 1);
            } else {
              assert SignedWith(c, d, e, r, s, k.scalar);
            }
          }
        }
      }
    }
  }

  function SignOutcome(c: Domain, attributes: Attributes, key: seq<byte>, alg: Algorithm, hash: seq<byte>,
                       size: nat, draws: nat -> Draw, next: nat): (o: Signing)
    requires c.p > 1 && c.n > 1
  {
    if !IsP256KeyPair(attributes) || alg != RandomizedEcdsa then Signing(NotSupported, 0, 0, next)
    else if |key| != PRIVKEY_LEN then Signing(InvalidArgument, 0, 0, next)
    else if size < SIGNATURE_LEN then Signing(BufferTooSmall, 0, 0, next)
    else if !InRange(c, BeValue(key)) then Signing(InvalidArgument, 0, 0, next)
    else Sign(c, draws, next, BeValue(key), HashToInt(hash), SIGN_TRIES)
  }

  /** Signing's guards, in order. */
  lemma SignGuards(c: Domain, attributes: Attributes, key: seq<byte>, alg: Algorithm, hash: seq<byte>,
                   size: nat, draws: nat -> Draw, next: nat)
    requires c.p > 1 && c.n > 1
    ensures var o := SignOutcome(c, attributes, key, alg, hash, size, draws, next);
            if attributes != Attributes(EccKeyPair(SecpR1), 256) || alg != RandomizedEcdsa then
              o.status == NotSupported && o.next == next
            else if |key| != 32 then o.status == InvalidArgument && o.next == next
            else if size < 64 then o.status == BufferTooSmall && o.next == next
            else !(1 <= BeValue(key) < c.n) ==> o.status == InvalidArgument && o.next == next
  {
  }

  /** An attempt that draws a failing nonce or blind stops with that error. */
  lemma SignStops(c: Domain, draws: nat -> Draw, next: nat, d: int, e: int, tries: nat)
    requires c.p > 1 && c.n > 1 && tries > 0
    ensures draws(next).DrawFailed? ==>
              var o := Sign(c, draws, next, d, e, tries);
              o.status == draws(next).error && o.next == next + 1
    ensures draws(next).Drawn? && !Rejected(c, draws(next)) && draws(next + 1).DrawFailed?
            && NonceX(c, BeValue(draws(next).bytes)) % c.n != 0 ==>
              var o := Sign(c, draws, next, d, e, tries);
              o.status == draws(next + 1).error && o.next == next + 2
  {
    if draws(next).Drawn? && !Rejected(c, draws(next)) {
      DrawsAtOnce(c, draws, next, draws(next).bytes);
    }
  }

  /** An attempt that comes upon r = 0 or s = 0 leaves the answer to the remaining ones. */
  lemma SignRetries(c: Domain, draws: nat -> Draw, next: nat, d: int, e: int, tries: nat)
    requires c.p > 1 && c.n > 1 && tries > 0 && draws(next).Drawn? && !Rejected(c, draws(next))
    ensures var r := NonceX(c, BeValue(draws(next).bytes)) % c.n;
            && (r == 0 ==> Sign(c, draws, next, d, e, tries) == Sign(c, draws, next + 1, d, e, tries - 1))
            && (r != 0 && draws(next + 1).Drawn? && !Rejected(c, draws(next + 1))
                && SignS(c, d, e, BeValue(draws(next).bytes), r) == 0 ==>
                  Sign(c, draws, next, d, e, tries) == Sign(c, draws, next + 2, d, e, tries - 1))
  {
    DrawsAtOnce(c, draws, next, draws(next).bytes);
    if draws(next + 1).Drawn? && !Rejected(c, draws(next + 1)) {
      DrawsAtOnce(c, draws, next + 1, draws(next + 1).bytes);
    }
  }

  /** Eight attempts, and no more: a generator that only ever yields nonces with r = 0 ends in an error. */
  lemma {:induction false} SignGivesUp(c: Domain, draws: nat -> Draw, next: nat, d: int, e: int, tries: nat)
    requires c.p > 1 && c.n > 1
    requires forall j: nat :: next <= j < next + tries ==>
               draws(j).Drawn? && !Rejected(c, draws(j)) && NonceX(c, BeValue(draws(j).bytes)) % c.n == 0
    ensures Sign(c, draws, next, d, e, tries) == Signing(InsufficientEntropy, 0, 0, next + tries)
    decreases tries
  {
    if tries > 0 {
      assert !Rejected(c, draws(next));
      DrawsAtOnce(c, draws, next, draws(next).bytes);
      SignGivesUp(c, draws, next + 1, d, e, tries - 1);
    }
  }

  lemma SignTriesEightTimes(c: Domain, attributes: Attributes, key: Bytes32, hash: seq<byte>, draws: nat -> Draw,
                            next: nat)
    requires c.p > 1 && c.n > 1 && IsP256KeyPair(attributes) && InRange(c, BeValue(key))
    requires forall j: nat :: next <= j < next + 8 ==>
               draws(j).Drawn? && !Rejected(c, draws(j)) && NonceX(c, BeValue(draws(j).bytes)) % c.n == 0
    ensures SignOutcome(c, attributes, key, RandomizedEcdsa, hash, SIGNATURE_LEN, draws, next)
         == Signing(InsufficientEntropy, 0, 0, next + 8)
  {
    OutcomeIsSign(c, attributes, key, hash, draws, next, HashToInt(hash));
    SignGivesUp(c, draws, next, BeValue(key), HashToInt(hash), SIGN_TRIES);
  }

  /** Blinding with t leaves s as section 4.1.3 has it, and what gets inverted is always invertible. */
  lemma BlindingTransparent(n: int, k: int, t: int, e: int, r: int, d: int)
    requires Prime(n) && 0 < k < n && 0 < t < n
    ensures (k * t) % n != 0 && Gcd((k * t) % n, n) == 1
    ensures (((((r * d + e) * t) % n) * Inverse((k * t) % n, n)) % n) == ((e + r * d) * Inverse(k, n)) % n
  {
    var m, u := r * d + e, (k * t) % n;
    SmallNonzero(k, n);
    SmallNonzero(t, n);
    CongProductNonzero(k, t, n);
    CongIffSameResidue(k * t, 0, n);
    DivModUnique(0, n, 0, 0);
    DivModUnique(u, n, 0, u);
    PrimeGcd(u, n);
    var w, v := Inverse(k, n), Inverse(u, n);
    PrimeInverse(k, n);
    InverseCorrect(u, n);
    // (m*t mod n)*v is m*t*v, and multiplying by k*w (which is 1) regroups it as m*w*(k*t*v)
    CongMod(m * t, n);
    CongRefl(v, n);
    CongMul((m * t) % n, m * t, v, v, n);
    CongSymm(k * w, 1, n);
    CongRefl(m * t * v, n);
    CongMul(m * t * v, m * t * v, 1, k * w, n);
    Regroup(m, t, v, k, w);
    CongTrans(((m * t) % n) * v, m * t * v, m * w * (k * t * v), n);
    CongMod(k * t, n);
    CongMul(k * t, u, v, v, n);
    CongTrans(k * t * v, u * v, 1, n);
    CongRefl(m * w, n);
    CongMul(m * w, m * w, k * t * v, 1, n);
    CongTrans(((m * t) % n) * v, m * w * (k * t * v), m * w, n);
    CongIffSameResidue(((m * t) % n) * v, m * w, n);
  }

  lemma Regroup(m: int, t: int, v: int, k: int, w: int)
    ensures m * t * v * (k * w) == m * w * (k * t * v)
  {
    calc {
      m * t * v * (k * w);
      m * (t * v * (k * w));
      { assert t * v * (k * w) == w * (k * t * v); }
      m * (w * (k * t * v));
      m * w * (k * t * v);
    }
  }

  lemma SmallNonzero(a: int, n: int)
    requires 0 < a < n
    ensures !Cong(a, 0, n)
  {
    if Cong(a, 0, n) {
      CongSmall(a, 0, n);
    }
  }

  // ----- verification -----

  function U1(c: Domain, e: int, s: int): (u: int)
    requires c.n > 1
    ensures 0 <= u < c.n
  {
    (e * Inverse(s, c.n)) % c.n
  }

  function U2(c: Domain, r: int, s: int): (u: int)
    requires c.n > 1
    ensures 0 <= u < c.n
  {
    (r * Inverse(s, c.n)) % c.n
  }

  /** Section 4.1.4: R = u1*G + u2*Q is not infinity and its abscissa reduces to r. */
  predicate Accepts(c: Domain, Q: Point, e: int, r: int, s: int)
    requires c.p > 1 && c.n > 1
  {
    InRange(c, r) && InRange(c, s) && ReducesTo(c, Add(c, Mul(c, U1(c, e, s), c.G()), Mul(c, U2(c, r, s), Q)), r)
  }

  predicate ReducesTo(c: Domain, R: Point, r: int)
    requires c.n > 1
  {
    R.Affine? && R.x % c.n == r
  }

  /** The public point an uncompressed encoding stands for, if it stands for one. */
  ghost function DecodePoint(c: Domain, key: seq<byte>): Option<Point> {
    if |key| != PUBKEY_LEN || key[0] != PUBKEY_HEADER then None
    else
      var P := Affine(BeValue(key[1..33]), BeValue(key[33..65]));
      if OnCurve(c, P) then Some(P) else None
  }

  function EncodePoint(P: Point): (s: seq<byte>)
    requires P.Affine?
    ensures |s| == PUBKEY_LEN
  {
    [PUBKEY_HEADER] + ToBe(P.x, 32) + ToBe(P.y, 32)
  }

  ghost function VerificationPoint(c: Domain, isPublic: bool, key: seq<byte>): Option<Point>
    requires c.p > 1
  {
    if isPublic then DecodePoint(c, key)
    else if |key| == PRIVKEY_LEN && InRange(c, BeValue(key)) then Some(Mul(c, BeValue(key), c.G()))
    else None
  }

  predicate VerifySupported(attributes: Attributes, alg: Algorithm) {
    && (attributes.keyType == EccKeyPair(SecpR1) || attributes.keyType == EccPublicKey(SecpR1))
    && attributes.bits == 256
    && IsEcdsa(alg)
  }

  /** u1*G and u2*Q share an abscissa: the one addition the driver leaves to software. */
  predicate SharesAbscissa(c: Domain, Q: Point, e: int, r: int, s: int)
    requires c.p > 1 && c.n > 1
  {
    var R1, R2 := Mul(c, U1(c, e, s), c.G()), Mul(c, U2(c, r, s), Q);
    R1.Affine? && R2.Affine? && R1.x == R2.x
  }

  /** The signature as SEC 1 judges it, with no special cases: what correct software answers. */
  ghost function VerifyReference(c: Domain, attributes: Attributes, key: seq<byte>, hash: seq<byte>,
                                 signature: seq<byte>): Status
    requires c.p > 1 && c.n > 1
  {
    if |signature| != SIGNATURE_LEN then InvalidSignature
    else
      var r, s := BeValue(signature[..32]), BeValue(signature[32..]);
      if !InRange(c, r) || !InRange(c, s) then InvalidSignature
      else
        match VerificationPoint(c, attributes.keyType.EccPublicKey?, key)
        case None => InvalidArgument
        case Some(Q) => if Accepts(c, Q, HashToInt(hash), r, s) then Success else InvalidSignature
  }

  /** The driver's answer: the reference, except where it declines. */
  ghost function VerifyOutcome(c: Domain, attributes: Attributes, key: seq<byte>, alg: Algorithm, hash: seq<byte>,
                               signature: seq<byte>): Status
    requires c.p > 1 && c.n > 1
  {
    if !VerifySupported(attributes, alg) || Declines(c, attributes, key, hash, signature) then NotSupported
    else VerifyReference(c, attributes, key, hash, signature)
  }

  ghost predicate Declines(c: Domain, attributes: Attributes, key: seq<byte>, hash: seq<byte>,
                           signature: seq<byte>)
    requires c.p > 1 && c.n > 1
  {
    && |signature| == SIGNATURE_LEN
    && var r, s := BeValue(signature[..32]), BeValue(signature[32..]);
       var Q := VerificationPoint(c, attributes.keyType.EccPublicKey?, key);
       InRange(c, r) && InRange(c, s) && Q.Some? && SharesAbscissa(c, Q.value, HashToInt(hash), r, s)
  }

  lemma Collect(e: int, r: int, d: int, w: int)
    ensures e * w + r * w * d == (e + r * d) * w
  {
    assert r * w * d == r * d * w;
  }

  lemma SignatureTimesNonce(c: Domain, d: int, e: int, r: int, k: int)
    requires Prime(c.n) && InRange(c, k)
    ensures Cong(SignS(c, d, e, k, r) * k, e + r * d, c.n)
  {
    SmallNonzero(k, c.n);
    QuotientCorrect(e + r * d, k, c.n);
  }

  lemma WeightedSum(e: int, r: int, d: int, w: int, n: int)
    requires n > 1
    ensures Cong((e * w) % n + ((r * w) % n) * d, (e + r * d) * w, n)
  {
    CongMod(e * w, n);
    CongMod(r * w, n);
    CongRefl(d, n);
    CongMul((r * w) % n, r * w, d, d, n);
    CongAdd((e * w) % n, e * w, ((r * w) % n) * d, r * w * d, n);
    Collect(e, r, d, w);
  }

  /** m*w is s*k*w, that is k. */
  lemma CancelInverse(u: int, m: int, w: int, s: int, k: int, n: int)
    requires Cong(u, m * w, n) && Cong(s * k, m, n) && Cong(s * w, 1, n)
    ensures Cong(u, k, n)
  {
    CongSymm(s * k, m, n);
    CongRefl(w, n);
    CongMul(m, s * k, w, w, n);
    CongRefl(k, n);
    CongMul(s * w, 1, k, k, n);
    MulSwap(s, k, w);
    CongTrans(u, m * w, s * w * k, n);
    CongTrans(u, s * w * k, k, n);
  }

  /** The scalars verification derives recombine to the nonce. */
  lemma ScalarsRecombine(c: Domain, d: int, e: int, r: int, s: int, k: int)
    requires Prime(c.n) && InRange(c, k) && InRange(c, s)
    requires s == SignS(c, d, e, k, r)
    ensures (U1(c, e, s) + U2(c, r, s) * d) % c.n == k
  {
    var n, m := c.n, e + r * d;
    var w, u := Inverse(s, n), U1(c, e, s) + U2(c, r, s) * d;
    SmallNonzero(s, n);
    PrimeInverse(s, n);
    SignatureTimesNonce(c, d, e, r, k);
    WeightedSum(e, r, d, w, n);
    CancelInverse(u, m, w, s, k, n);
    CongIffSameResidue(u, k, n);
    DivModUnique(k, n, 0, k);
  }

  lemma ReducedMultiple(c: Domain, m: nat, k: nat)
    requires Lawful(c) && m % c.n == k
    ensures Mul(c, m, c.G()) == Mul(c, k, c.G())
  {
    MulMod(c, m, c.G());
  }

  /** u1*G + S is k*G when S is a multiple of G and the scalars add up to k. */
  lemma CombinedMultiple(c: Domain, u1: nat, j: nat, S: Point, k: nat)
    requires Lawful(c) && Mul(c, j, c.G()) == S && (u1 + j) % c.n == k
    ensures Add(c, Mul(c, u1, c.G()), S) == Mul(c, k, c.G())
  {
    var m := u1 + j;
    ReducedMultiple(c, m, k);
    MulSum(c, u1, j, m, c.G());
  }

  lemma MultipleOfMultiple(c: Domain, d: nat, u2: nat, j: nat)
    requires Lawful(c) && j == u2 * d
    ensures Mul(c, j, c.G()) == Mul(c, u2, Mul(c, d, c.G()))
  {
    MulMul(c, u2, d, c.G());
  }

  /** u1*G + u2*(d*G) is k*G when the scalars recombine to k. */
  lemma RecombinedMultiple(c: Domain, d: nat, u1: nat, u2: nat, j: nat, k: nat)
    requires Lawful(c) && j == u2 * d && (u1 + j) % c.n == k
    ensures Add(c, Mul(c, u1, c.G()), Mul(c, u2, Mul(c, d, c.G()))) == Mul(c, k, c.G())
  {
    MultipleOfMultiple(c, d, u2, j);
    CombinedMultiple(c, u1, j, Mul(c, u2, Mul(c, d, c.G())), k);
  }

  lemma RecombinedIsNonce(c: Domain, d: nat, u1: nat, u2: nat, k: nat, r: int)
    requires Lawful(c) && InRange(c, k) && (u1 + u2 * d) % c.n == k && r == NonceX(c, k) % c.n
    ensures ReducesTo(c, Add(c, Mul(c, u1, c.G()), Mul(c, u2, Mul(c, d, c.G()))), r)
  {
    RecombinedMultiple(c, d, u1, u2, u2 * d, k);
    MulAffine(c, k, c.G());
  }

  /** SEC 1 accepts every signature section 4.1.3 produces. */
  lemma SignedIsAccepted(c: Domain, d: int, e: int, r: int, s: int)
    requires Lawful(c) && InRange(c, d) && IsSignature(c, d, e, r, s)
    ensures Accepts(c, Mul(c, d, c.G()), e, r, s)
  {
    var k :| SignedWith(c, d, e, r, s, k);
    ScalarsRecombine(c, d, e, r, s, k);
    RecombinedIsNonce(c, d, U1(c, e, s), U2(c, r, s), k, r);
  }

  // ----- exactly what is accepted -----

  /** The equation of section 4.1.3: k signs with (r, s) exactly if r is the abscissa of k*G and s*k is e + r*d. */
  lemma SignedWithIff(c: Domain, d: int, e: int, r: int, s: int, k: int)
    requires Lawful(c) && 1 <= s < c.n
    ensures SignedWith(c, d, e, r, s, k) <==>
              && 1 <= k < c.n
              && Mul(c, k, c.G()).Affine? && Mul(c, k, c.G()).x % c.n == r
              && Cong(s * k, e + r * d, c.n)
  {
    if 1 <= k < c.n {
      var q := SignS(c, d, e, k, r);
      MulAffine(c, k, c.G());
      SignatureTimesNonce(c, d, e, r, k);
      if Cong(s * k, e + r * d, c.n) {
        SmallNonzero(k, c.n);
        CongSymm(q * k, e + r * d, c.n);
        CongTrans(s * k, e + r * d, q * k, c.n);
        CongCancel(s, q, k, c.n);
        CongSmall(s, q, c.n);
      }
    }
  }

  /** The nonce the verifier recovers from a pair it accepts. */
  function RecoveredNonce(c: Domain, d: nat, e: int, r: int, s: int): (k: int)
    requires c.n > 1
    ensures 0 <= k < c.n
  {
    (U1(c, e, s) + U2(c, r, s) * d) % c.n
  }

  /** s times the recovered nonce is e + r*d. */
  lemma RecoveredNonceWorks(c: Domain, d: nat, e: int, r: int, s: int)
    requires Prime(c.n) && InRange(c, s)
    ensures Cong(s * RecoveredNonce(c, d, e, r, s), e + r * d, c.n)
  {
    var n, m, w := c.n, e + r * d, Inverse(s, c.n);
    var u, k := U1(c, e, s) + U2(c, r, s) * d, RecoveredNonce(c, d, e, r, s);
    SmallNonzero(s, n);
    PrimeInverse(s, n);
    WeightedSum(e, r, d, w, n);
    CongMod(u, n);
    CongTrans(k, u, m * w, n);
    CongRefl(s, n);
    CongMul(s, s, k, m * w, n);
    CongRefl(m, n);
    CongMul(m, m, s * w, 1, n);
    ScaledBack(s, m, w);
    CongTrans(s * k, m * (s * w), m, n);
  }

  lemma ScaledBack(s: int, m: int, w: int)
    ensures s * (m * w) == m * (s * w)
  {
  }

  /** Section 4.1.4 accepts a pair exactly if it satisfies the signature equation: no forgery, no false alarm. */
  lemma AcceptsIff(c: Domain, d: int, e: int, r: int, s: int)
    requires Lawful(c) && InRange(c, d)
    ensures Accepts(c, Mul(c, d, c.G()), e, r, s) <==> IsSignature(c, d, e, r, s)
    ensures Accepts(c, Mul(c, d, c.G()), e, r, s)
       <==> 1 <= r < c.n && 1 <= s < c.n && SignedWith(c, d, e, r, s, RecoveredNonce(c, d, e, r, s))
  {
    if InRange(c, r) && InRange(c, s) {
      var k := RecoveredNonce(c, d, e, r, s);
      RecombinedMultiple(c, d, U1(c, e, s), U2(c, r, s), U2(c, r, s) * d, k);
      if Accepts(c, Mul(c, d, c.G()), e, r, s) {
        RecoveredNonceWorks(c, d, e, r, s);
        SignedWithIff(c, d, e, r, s, k);
      }
      if IsSignature(c, d, e, r, s) {
        SignedIsAccepted(c, d, e, r, s);
        RecoveredNonceWorks(c, d, e, r, s);
        SignedWithIff(c, d, e, r, s, k);
      }
    }
  }

  // ----- when the driver declines -----

  lemma U2Nonzero(c: Domain, r: int, s: int)
    requires Prime(c.n) && InRange(c, r) && InRange(c, s)
    ensures U2(c, r, s) != 0
  {
    var n := c.n;
    SmallNonzero(r, n);
    SmallNonzero(s, n);
    PrimeInverse(s, n);
    SmallNonzero(Inverse(s, n), n);
    CongProductNonzero(r, Inverse(s, n), n);
    CongIffSameResidue(r * Inverse(s, n), 0, n);
    DivModUnique(0, n, 0, 0);
  }

  /** u2*Q as a multiple of the base point. */
  function BaseScalar(c: Domain, d: int, r: int, s: int): (j: int)
    requires c.n > 1
    ensures 0 <= j < c.n
  {
    (U2(c, r, s) * d) % c.n
  }

  lemma BaseScalarWorks(c: Domain, d: int, r: int, s: int)
    requires Lawful(c) && InRange(c, d) && InRange(c, r) && InRange(c, s)
    ensures BaseScalar(c, d, r, s) != 0
    ensures Mul(c, U2(c, r, s), Mul(c, d, c.G())) == Mul(c, BaseScalar(c, d, r, s), c.G())
  {
    var n, u2 := c.n, U2(c, r, s);
    U2Nonzero(c, r, s);
    SmallNonzero(u2, n);
    SmallNonzero(d, n);
    CongProductNonzero(u2, d, n);
    CongIffSameResidue(u2 * d, 0, n);
    DivModUnique(0, n, 0, 0);
    MulMul(c, u2, d, c.G());
    MulMod(c, u2 * d, c.G());
  }

  /** For a key d*G the two terms share an abscissa exactly if u1 is nonzero and equal or opposite to u2*d. */
  lemma SharesAbscissaIff(c: Domain, d: int, e: int, r: int, s: int)
    requires Lawful(c) && InRange(c, d) && InRange(c, r) && InRange(c, s)
    ensures var u1, j := U1(c, e, s), BaseScalar(c, d, r, s);
            SharesAbscissa(c, Mul(c, d, c.G()), e, r, s) <==> u1 != 0 && (u1 == j || u1 + j == c.n)
  {
    var u1, j := U1(c, e, s), BaseScalar(c, d, r, s);
    BaseScalarWorks(c, d, r, s);
    if u1 != 0 {
      MultiplesShareAbscissaIff(c, u1, j, c.G());
    }
  }

  /** u1 is u2*d exactly if e is r*d, all modulo n. */
  lemma EqualScalarsIff(c: Domain, d: int, e: int, r: int, s: int)
    requires Prime(c.n) && InRange(c, s)
    ensures U1(c, e, s) == BaseScalar(c, d, r, s) <==> e % c.n == (r * d) % c.n
  {
    var n, w := c.n, Inverse(s, c.n);
    SmallNonzero(s, n);
    PrimeInverse(s, n);
    SmallNonzero(w, n);
    // u2*d is r*d*w
    CongMod(r * w, n);
    CongRefl(d, n);
    CongMul((r * w) % n, r * w, d, d, n);
    MulSwap(r, w, d);
    CongIffSameResidue(((r * w) % n) * d, r * d * w, n);
    CongIffSameResidue(e * w, r * d * w, n);
    CongIffSameResidue(e, r * d, n);
    if Cong(e, r * d, n) {
      CongRefl(w, n);
      CongMul(e, r * d, w, w, n);
    }
    if Cong(e * w, r * d * w, n) {
      CongCancel(e, r * d, w, n);
    }
  }

  lemma ResidueOfSum(u: int, v: int, n: int)
    requires n > 0
    ensures (u + v % n) % n == (u + v) % n
  {
    CongMod(v, n);
    CongRefl(u, n);
    CongAdd(u, u, v % n, v, n);
    CongIffSameResidue(u + v % n, u + v, n);
  }

  /** A genuine signature is declined exactly if its hash is r*d modulo n. */
  lemma GenuineDeclinedIff(c: Domain, d: int, e: int, r: int, s: int)
    requires Lawful(c) && InRange(c, d) && IsSignature(c, d, e, r, s)
    ensures SharesAbscissa(c, Mul(c, d, c.G()), e, r, s) <==> e % c.n == (r * d) % c.n
  {
    var k :| SignedWith(c, d, e, r, s, k);
    var u1, j := U1(c, e, s), BaseScalar(c, d, r, s);
    ScalarsRecombine(c, d, e, r, s, k);
    ResidueOfSum(u1, U2(c, r, s) * d, c.n);
    DivModUnique(c.n, c.n, 1, 0);
    BaseScalarWorks(c, d, r, s);
    SharesAbscissaIff(c, d, e, r, s);
    EqualScalarsIff(c, d, e, r, s);
  }

  lemma CoordinatesFit(c: Domain, P: Point)
    requires c.p <= FIELD_BOUND && OnCurve(c, P) && P.Affine?
    ensures BeValue(ToBe(P.x, 32)) == P.x && BeValue(ToBe(P.y, 32)) == P.y
  {
    BeOfToBe32(P.x);
    BeOfToBe32(P.y);
  }

  lemma DecodeEncoded(c: Domain, P: Point)
    requires c.p <= FIELD_BOUND && OnCurve(c, P) && P.Affine?
    ensures DecodePoint(c, EncodePoint(P)) == Some(P)
  {
    CoordinatesFit(c, P);
    var key := EncodePoint(P);
    assert key[1..33] == ToBe(P.x, 32);
    assert key[33..65] == ToBe(P.y, 32);
  }

  /** The uncompressed encoding: 0x04, then the abscissa, then the ordinate, 32 bytes each. */
  lemma EncodingLayout(c: Domain, P: Point)
    requires c.p <= FIELD_BOUND && OnCurve(c, P) && P.Affine?
    ensures |EncodePoint(P)| == 65 && EncodePoint(P)[0] == 4
    ensures BeValue(EncodePoint(P)[1..33]) == P.x && BeValue(EncodePoint(P)[33..65]) == P.y
  {
    CoordinatesFit(c, P);
    assert EncodePoint(P)[1..33] == ToBe(P.x, 32);
    assert EncodePoint(P)[33..65] == ToBe(P.y, 32);
  }

  /** r and s as the driver lays them out. */
  function EncodeSignature(r: int, s: int): (b: seq<byte>)
    ensures |b| == SIGNATURE_LEN
  {
    ToBe(r, 32) + ToBe(s, 32)
  }

  lemma DecodeSignature(c: Domain, r: int, s: int)
    requires c.n <= FIELD_BOUND && InRange(c, r) && InRange(c, s)
    ensures BeValue(EncodeSignature(r, s)[..32]) == r && BeValue(EncodeSignature(r, s)[32..]) == s
  {
    BeOfToBe32(r);
    BeOfToBe32(s);
    assert EncodeSignature(r, s)[..32] == ToBe(r, 32);
    assert EncodeSignature(r, s)[32..] == ToBe(s, 32);
  }

  /** The key encodings that match the private scalar `d`: the pair itself and its public half. */
  predicate MatchingKey(c: Domain, d: nat, attributes: Attributes, key: seq<byte>)
    requires c.p > 1
  {
    || (IsP256KeyPair(attributes) && |key| == PRIVKEY_LEN && BeValue(key) == d)
    || (attributes == Attributes(EccPublicKey(SecpR1), 256) && Mul(c, d, c.G()).Affine?
        && key == EncodePoint(Mul(c, d, c.G())))
  }

  lemma SignOutcomeIsSignature(c: Domain, attributes: Attributes, key: seq<byte>, alg: Algorithm, hash: seq<byte>,
                               size: nat, draws: nat -> Draw, next: nat)
    requires c.p > 1 && c.n > 1
    ensures var o := SignOutcome(c, attributes, key, alg, hash, size, draws, next);
            o.status == Success ==>
              |key| == PRIVKEY_LEN && InRange(c, BeValue(key)) &&
              IsSignature(c, BeValue(key), HashToInt(hash), o.r, o.s)
  {
    SignIsSignature(c, draws, next, BeValue(key), HashToInt(hash), SIGN_TRIES);
  }

  lemma SignedVerifies(c: Domain, d: nat, hash: seq<byte>, r: int, s: int, verifier: Attributes, key: seq<byte>)
    requires Lawful(c) && c.p <= FIELD_BOUND && c.n <= FIELD_BOUND
    requires InRange(c, d) && IsSignature(c, d, HashToInt(hash), r, s) && MatchingKey(c, d, verifier, key)
    ensures VerifyReference(c, verifier, key, hash, EncodeSignature(r, s)) == Success
  {
    DecodeSignature(c, r, s);
    SignedIsAccepted(c, d, HashToInt(hash), r, s);
    MulAffine(c, d, c.G());
    DecodeEncoded(c, Mul(c, d, c.G()));
  }

  lemma SignedDeclinedIff(c: Domain, d: nat, hash: seq<byte>, r: int, s: int, verifier: Attributes, key: seq<byte>)
    requires Lawful(c) && c.p <= FIELD_BOUND && c.n <= FIELD_BOUND
    requires InRange(c, d) && IsSignature(c, d, HashToInt(hash), r, s) && MatchingKey(c, d, verifier, key)
    ensures Declines(c, verifier, key, hash, EncodeSignature(r, s)) <==> HashToInt(hash) % c.n == (r * d) % c.n
  {
    DecodeSignature(c, r, s);
    GenuineDeclinedIff(c, d, HashToInt(hash), r, s);
    MulAffine(c, d, c.G());
    DecodeEncoded(c, Mul(c, d, c.G()));
  }

  /** Verification's guards, in order. */
  lemma VerifyGuards(c: Domain, attributes: Attributes, key: seq<byte>, alg: Algorithm, hash: seq<byte>,
                     signature: seq<byte>)
    requires c.p > 1 && c.n > 1
    ensures var o := VerifyOutcome(c, attributes, key, alg, hash, signature);
            var isPublic := attributes == Attributes(EccPublicKey(SecpR1), 256);
            if !isPublic && attributes != Attributes(EccKeyPair(SecpR1), 256) then o == NotSupported
            else if alg != RandomizedEcdsa && alg != DeterministicEcdsa then o == NotSupported
            else if |signature| != 64 then o == InvalidSignature
            else if !(1 <= BeValue(signature[..32]) < c.n && 1 <= BeValue(signature[32..]) < c.n) then
              o == InvalidSignature
            else if isPublic then
              |key| != 65 || key[0] != 4 || !OnCurve(c, Affine(BeValue(key[1..33]), BeValue(key[33..65]))) ==>
                o == InvalidArgument
            else |key| != 32 || !(1 <= BeValue(key) < c.n) ==> o == InvalidArgument
  {
  }

  /** Under a matching key the reference accepts the genuine signatures and rejects all others. */
  lemma ReferenceIff(c: Domain, d: nat, verifier: Attributes, key: seq<byte>, hash: seq<byte>, signature: seq<byte>)
    requires Lawful(c) && c.p <= FIELD_BOUND && InRange(c, d) && MatchingKey(c, d, verifier, key)
    ensures VerifyReference(c, verifier, key, hash, signature)
         == if |signature| == 64
               && IsSignature(c, d, HashToInt(hash), BeValue(signature[..32]), BeValue(signature[32..]))
            then Success else InvalidSignature
  {
    MulAffine(c, d, c.G());
    DecodeEncoded(c, Mul(c, d, c.G()));
    if |signature| == 64 {
      AcceptsIff(c, d, HashToInt(hash), BeValue(signature[..32]), BeValue(signature[32..]));
    }
  }

  // ----- dispatch -----

  /** The wrapper's guard on the verify path. */
  predicate OffersVerify(attributes: Attributes, alg: Algorithm) {
    && (attributes.keyType.EccKeyPair? || attributes.keyType.EccPublicKey?)
    && IsEcdsa(alg)
    && attributes.keyType.family == SecpR1
    && attributes.bits == 256
  }

  /** An accelerated answer stands unless it is NOT_SUPPORTED; then software is asked. */
  function Dispatch(offered: bool, driver: Status, builtin: Status): Status {
    if offered && driver != NotSupported then driver else builtin
  }

  /**
   Under a matching key the driver accepts exactly the genuine signatures it does not decline, and rejects
   the rest; through the wrapper software is asked exactly about the declined ones, and its answer stands.
   */
  lemma VerifyDecides(c: Domain, d: nat, verifier: Attributes, key: seq<byte>, alg: Algorithm, hash: seq<byte>,
                      signature: seq<byte>, software: Status)
    requires Lawful(c) && c.p <= FIELD_BOUND && InRange(c, d) && MatchingKey(c, d, verifier, key) && IsEcdsa(alg)
    ensures var driver := VerifyOutcome(c, verifier, key, alg, hash, signature);
            var genuine := && |signature| == 64
                           && IsSignature(c, d, HashToInt(hash), BeValue(signature[..32]), BeValue(signature[32..]));
            var verdict := if genuine then Success else InvalidSignature;
            var declines := Declines(c, verifier, key, hash, signature);
            && driver == (if declines then NotSupported else verdict)
            && Dispatch(OffersVerify(verifier, alg), driver, software) == (if declines then software else verdict)
  {
    ReferenceIff(c, d, verifier, key, hash, signature);
  }

  /** What is not offered to the driver is software's, whatever the driver would have said. */
  lemma DispatchUnoffered(attributes: Attributes, alg: Algorithm, driver: Status, software: Status)
    requires attributes.keyType.OtherKeyType? || attributes.keyType.family != SecpR1 || attributes.bits != 256
             || (alg != RandomizedEcdsa && alg != DeterministicEcdsa)
    ensures Dispatch(OffersVerify(attributes, alg), driver, software) == software
  {
  }

  /**
   Sign then verify: whatever signing returned with success, under every nonce and blind the
   generator may have drawn, verification under a matching key never rejects. It declines exactly if
   the hash is r*d modulo n and accepts otherwise, and through the wrapper, with correct software
   behind it, it always accepts.
   */
  lemma SignThenVerify(c: Domain, signer: Attributes, key: seq<byte>, alg: Algorithm, hash: seq<byte>, size: nat,
                       draws: nat -> Draw, next: nat, verifier: Attributes, verifyKey: seq<byte>,
                       verifyAlg: Algorithm)
    requires Lawful(c) && c.p <= FIELD_BOUND && c.n <= FIELD_BOUND
    requires SignOutcome(c, signer, key, alg, hash, size, draws, next).status == Success
    requires MatchingKey(c, BeValue(key), verifier, verifyKey) && IsEcdsa(verifyAlg)
    ensures var o := SignOutcome(c, signer, key, alg, hash, size, draws, next);
            var signature := EncodeSignature(o.r, o.s);
            var reference := VerifyReference(c, verifier, verifyKey, hash, signature);
            var driver := VerifyOutcome(c, verifier, verifyKey, verifyAlg, hash, signature);
            && InRange(c, o.r) && InRange(c, o.s)
            && reference == Success
            && driver == (if HashToInt(hash) % c.n == (o.r * BeValue(key)) % c.n then NotSupported else Success)
            && Dispatch(OffersVerify(verifier, verifyAlg), driver, reference) == Success
  {
    SignOutcomeIsSignature(c, signer, key, alg, hash, size, draws, next);
    var o := SignOutcome(c, signer, key, alg, hash, size, draws, next);
    SignedVerifies(c, BeValue(key), hash, o.r, o.s, verifier, verifyKey);
    SignedDeclinedIff(c, BeValue(key), hash, o.r, o.s, verifier, verifyKey);
  }

  lemma DoubledNonzero(n: int, r: int, d: int, e: int, w: int)
    requires Prime(n) && n > 2 && 0 < r < n && 0 < d < n && 0 < w < n && e == (r * d) % n
    ensures ((e + r * d) * w) % n != 0
  {
    SmallNonzero(r, n);
    SmallNonzero(d, n);
    SmallNonzero(2, n);
    SmallNonzero(w, n);
    CongProductNonzero(r, d, n);
    CongProductNonzero(2, r * d, n);
    CongMod(r * d, n);
    CongRefl(r * d, n);
    CongAdd(r * d, e, r * d, r * d, n);
    if Cong(e + r * d, 0, n) {
      CongTrans(2 * (r * d), e + r * d, 0, n);
    }
    CongProductNonzero(e + r * d, w, n);
    CongIffSameResidue((e + r * d) * w, 0, n);
    DivModUnique(0, n, 0, 0);
  }

  lemma DrawsAtOnce(c: Domain, draws: nat -> Draw, next: nat, bytes: Bytes32)
    requires draws(next) == Drawn(bytes) && InRange(c, BeValue(bytes))
    ensures DrawScalar(c, draws, next, DRAW_TRIES) == ScalarDraw(Success, BeValue(bytes), next + 1)
  {
  }

  /** With a nonce and then a blind drawn at once, and r and s nonzero, the first attempt signs with that nonce. */
  lemma SignsAtOnce(c: Domain, draws: nat -> Draw, next: nat, k: Bytes32, t: Bytes32, d: int, e: int, tries: nat)
    requires c.p > 1 && c.n > 1 && tries > 0
    requires InRange(c, BeValue(k)) && draws(next) == Drawn(k) && InRange(c, BeValue(t)) && draws(next + 1) == Drawn(t)
    ensures var r := NonceX(c, BeValue(k)) % c.n;
            var s := SignS(c, d, e, BeValue(k), r);
            r != 0 && s != 0 ==> Sign(c, draws, next, d, e, tries) == Signing(Success, r, s, next + 2)
  {
    DrawsAtOnce(c, draws, next, k);
    DrawsAtOnce(c, draws, next + 1, t);
  }

  /** What signing returns for a good request whose first draws k and t are in range, in the terms of section 4.1.3. */
  lemma SignAnswers(c: Domain, attributes: Attributes, key: Bytes32, hash: seq<byte>, size: nat, draws: nat -> Draw,
                    next: nat, k: Bytes32, t: Bytes32)
    requires Lawful(c) && IsP256KeyPair(attributes) && size >= 64 && 1 <= BeValue(key) < c.n
    requires 1 <= BeValue(k) < c.n && draws(next) == Drawn(k) && 1 <= BeValue(t) < c.n && draws(next + 1) == Drawn(t)
    ensures Mul(c, BeValue(k), c.G()).Affine?
    ensures var r := Mul(c, BeValue(k), c.G()).x % c.n;
            var m := HashToInt(hash) + r * BeValue(key);
            r != 0 && m % c.n != 0 ==>
              var o := SignOutcome(c, attributes, key, RandomizedEcdsa, hash, size, draws, next);
              o.status == Success && o.r == r && 1 <= o.s < c.n && Cong(o.s * BeValue(k), m, c.n) && o.next == next + 2
  {
    MulAffine(c, BeValue(k), c.G());
    var d, e, nonce := BeValue(key), HashToInt(hash), BeValue(k);
    var r := NonceX(c, nonce) % c.n;
    SmallNonzero(nonce, c.n);
    PrimeInverse(nonce, c.n);
    if r != 0 && (e + r * d) % c.n != 0 {
      QuotientNonzero(e + r * d, Inverse(nonce, c.n), c.n);
      SignatureTimesNonce(c, d, e, r, nonce);
      SignsAtOnce(c, draws, next, k, t, d, e, SIGN_TRIES);
    }
  }

  lemma QuotientNonzero(m: int, w: int, n: int)
    requires Prime(n) && m % n != 0 && 0 < w < n
    ensures 0 < (m * w) % n < n
  {
    SmallNonzero(w, n);
    DivModUnique(0, n, 0, 0);
    CongIffSameResidue(m, 0, n);
    CongProductNonzero(m, w, n);
    CongIffSameResidue(m * w, 0, n);
  }

  lemma HashOfInt(e: int)
    requires 0 <= e < FIELD_BOUND
    ensures HashToInt(ToBe(e, 32)) == e
  {
    BeOfToBe32(e);
    assert ToBe(e, 32)[..PRIVKEY_LEN] == ToBe(e, 32);
  }

  lemma DecliningScalars(c: Domain, d: int, k: int, r: int, e: int)
    requires c.p > 1 && Prime(c.n) && c.n > 2
    requires InRange(c, d) && InRange(c, k) && InRange(c, r) && e == (r * d) % c.n
    ensures SignS(c, d, e, k, r) != 0 && e % c.n == e
  {
    SmallNonzero(k, c.n);
    PrimeInverse(k, c.n);
    DoubledNonzero(c.n, r, d, e, Inverse(k, c.n));
    DivModUnique(e, c.n, 0, e);
  }

  lemma OutcomeIsSign(c: Domain, attributes: Attributes, key: Bytes32, hash: seq<byte>, draws: nat -> Draw,
                      next: nat, e: int)
    requires c.p > 1 && c.n > 1 && IsP256KeyPair(attributes) && InRange(c, BeValue(key)) && e == HashToInt(hash)
    ensures SignOutcome(c, attributes, key, RandomizedEcdsa, hash, SIGNATURE_LEN, draws, next)
         == Sign(c, draws, next, BeValue(key), e, SIGN_TRIES)
  {
  }

  lemma DecliningHash(c: Domain, attributes: Attributes, key: Bytes32, nonce: Bytes32, blind: Bytes32,
                      draws: nat -> Draw, next: nat)
    returns (hash: seq<byte>, o: Signing)
    requires c.p > 1 && Prime(c.n) && 2 < c.n <= FIELD_BOUND && IsP256KeyPair(attributes)
    requires InRange(c, BeValue(key)) && InRange(c, BeValue(nonce)) && draws(next) == Drawn(nonce)
    requires InRange(c, BeValue(blind)) && draws(next + 1) == Drawn(blind)
    requires NonceX(c, BeValue(nonce)) % c.n != 0
    ensures o == SignOutcome(c, attributes, key, RandomizedEcdsa, hash, SIGNATURE_LEN, draws, next)
    ensures o.status == Success && HashToInt(hash) % c.n == (o.r * BeValue(key)) % c.n
  {
    var d, k := BeValue(key), BeValue(nonce);
    var r := NonceX(c, k) % c.n;
    var e := (r * d) % c.n;
    hash := ToBe(e, 32);
    HashOfInt(e);
    DecliningScalars(c, d, k, r, e);
    OutcomeIsSign(c, attributes, key, hash, draws, next, e);
    SignsAtOnce(c, draws, next, nonce, blind, d, e, SIGN_TRIES);
    o := Signing(Success, r, SignS(c, d, e, k, r), next + 2);
  }

  /**
   Declining is reached: for every key and every nonce whose r is not zero there is a hash whose
   signature, made by the driver itself with that nonce, the driver then declines to verify.
   */
  lemma SomeSignatureIsDeclined(c: Domain, attributes: Attributes, key: Bytes32, nonce: Bytes32, blind: Bytes32,
                                draws: nat -> Draw, next: nat)
    returns (hash: seq<byte>)
    requires Lawful(c) && 2 < c.n <= FIELD_BOUND && c.p <= FIELD_BOUND && IsP256KeyPair(attributes)
    requires InRange(c, BeValue(key)) && InRange(c, BeValue(nonce)) && draws(next) == Drawn(nonce)
    requires InRange(c, BeValue(blind)) && draws(next + 1) == Drawn(blind)
    requires NonceX(c, BeValue(nonce)) % c.n != 0
    ensures var o := SignOutcome(c, attributes, key, RandomizedEcdsa, hash, SIGNATURE_LEN, draws, next);
            && o.status == Success
            && VerifyOutcome(c, attributes, key, RandomizedEcdsa, hash, EncodeSignature(o.r, o.s)) == NotSupported
  {
    var o: Signing;
    hash, o := DecliningHash(c, attributes, key, nonce, blind, draws, next);
    SignThenVerify(c, attributes, key, RandomizedEcdsa, hash, SIGNATURE_LEN, draws, next, attributes, key,
                   RandomizedEcdsa);
  }

  // ----- public key export and key agreement -----

  datatype Exchange = Exchange(status: Status, bytes: seq<byte>)

  function ExportOutcome(c: Domain, attributes: Attributes, key: seq<byte>, size: nat): Exchange
    requires c.p > 1
  {
    if !IsP256KeyPair(attributes) then Exchange(NotSupported, [])
    else if |key| != PRIVKEY_LEN then Exchange(InvalidArgument, [])
    else if size < PUBKEY_LEN then Exchange(BufferTooSmall, [])
    else if !InRange(c, BeValue(key)) then Exchange(InvalidArgument, [])
    else
      match Mul(c, BeValue(key), c.G())
      case Infinity => Exchange(InvalidArgument, [])
      case Affine(x, y) => Exchange(Success, EncodePoint(Affine(x, y)))
  }

  ghost function AgreementOutcome(c: Domain, key: seq<byte>, alg: Algorithm, peer: seq<byte>, size: nat): Exchange
    requires c.p > 1
  {
    if alg != Ecdh then Exchange(NotSupported, [])
    else if |key| != PRIVKEY_LEN || |peer| != PUBKEY_LEN || peer[0] != PUBKEY_HEADER then
      Exchange(InvalidArgument, [])
    else if size < SECRET_LEN then Exchange(BufferTooSmall, [])
    else if !InRange(c, BeValue(key)) then Exchange(InvalidArgument, [])
    else
      match DecodePoint(c, peer)
      case None => Exchange(InvalidArgument, [])
      case Some(Q) =>
        match Mul(c, BeValue(key), Q)
        case Infinity => Exchange(InvalidArgument, [])
        case Affine(x, _) => Exchange(Success, ToBe(x, 32))
  }

  /** Export's guards, in order, and what a success holds. */
  lemma ExportAnswers(c: Domain, attributes: Attributes, key: seq<byte>, size: nat)
    requires Lawful(c) && c.p <= FIELD_BOUND
    ensures var o := ExportOutcome(c, attributes, key, size);
            if attributes != Attributes(EccKeyPair(SecpR1), 256) then o.status == NotSupported
            else if |key| != 32 then o.status == InvalidArgument
            else if size < 65 then o.status == BufferTooSmall
            else if !(1 <= BeValue(key) < c.n) then o.status == InvalidArgument
            else
              && o.status == Success && |o.bytes| == 65 && o.bytes[0] == 4
              && Mul(c, BeValue(key), c.G()) == Affine(BeValue(o.bytes[1..33]), BeValue(o.bytes[33..65]))
  {
    if |key| == 32 && 1 <= BeValue(key) < c.n {
      MulAffine(c, BeValue(key), c.G());
      EncodingLayout(c, Mul(c, BeValue(key), c.G()));
    }
  }

  /** Agreement's guards, in order; the secret is the abscissa of d*Q, and nothing else. */
  lemma AgreementAnswers(c: Domain, key: seq<byte>, alg: Algorithm, peer: seq<byte>, size: nat)
    requires Lawful(c) && c.p <= FIELD_BOUND
    ensures var o := AgreementOutcome(c, key, alg, peer, size);
            if alg != Ecdh then o.status == NotSupported
            else if |key| != 32 || |peer| != 65 || peer[0] != 4 then o.status == InvalidArgument
            else if size < 32 then o.status == BufferTooSmall
            else if !(1 <= BeValue(key) < c.n) then o.status == InvalidArgument
            else
              var Q := Affine(BeValue(peer[1..33]), BeValue(peer[33..65]));
              if !OnCurve(c, Q) then o.status == InvalidArgument
              else
                && o.status == Success && |o.bytes| == 32
                && Mul(c, BeValue(key), Q).Affine? && BeValue(o.bytes) == Mul(c, BeValue(key), Q).x
  {
    if |key| == 32 && |peer| == 65 && 1 <= BeValue(key) < c.n {
      var Q := Affine(BeValue(peer[1..33]), BeValue(peer[33..65]));
      if OnCurve(c, Q) {
        MulAffine(c, BeValue(key), Q);
        CoordinatesFit(c, Mul(c, BeValue(key), Q));
      }
    }
  }

  lemma ProductMultiple(c: Domain, d: nat, f: nat)
    requires Lawful(c)
    ensures Mul(c, (d * f) % c.n, c.G()) == Mul(c, d, Mul(c, f, c.G()))
  {
    MulMul(c, d, f, c.G());
    MulMod(c, d * f, c.G());
  }

  /**
   Section 3.3.1: two parties who exchange their exported public keys compute one secret, the abscissa
   of the base point times the product of the two private keys.
   */
  lemma AgreementSymmetric(c: Domain, attributes: Attributes, mine: seq<byte>, theirs: seq<byte>,
                           dataSize: nat, secretSize: nat)
    requires Lawful(c) && c.p <= FIELD_BOUND
    requires IsP256KeyPair(attributes) && |mine| == PRIVKEY_LEN && |theirs| == PRIVKEY_LEN
    requires InRange(c, BeValue(mine)) && InRange(c, BeValue(theirs))
    requires dataSize >= PUBKEY_LEN && secretSize >= SECRET_LEN
    ensures var myPublic := ExportOutcome(c, attributes, mine, dataSize);
            var theirPublic := ExportOutcome(c, attributes, theirs, dataSize);
            var mySecret := AgreementOutcome(c, mine, Ecdh, theirPublic.bytes, secretSize);
            var theirSecret := AgreementOutcome(c, theirs, Ecdh, myPublic.bytes, secretSize);
            && myPublic.status == theirPublic.status == Success
            && mySecret.status == theirSecret.status == Success
            && mySecret.bytes == theirSecret.bytes && |mySecret.bytes| == SECRET_LEN
            && var R := Mul(c, (BeValue(mine) * BeValue(theirs)) % c.n, c.G());
               R.Affine? && BeValue(mySecret.bytes) == R.x
  {
    var d, f, G := BeValue(mine), BeValue(theirs), c.G();
    MulAffine(c, d, G);
    MulAffine(c, f, G);
    DecodeEncoded(c, Mul(c, d, G));
    DecodeEncoded(c, Mul(c, f, G));
    MulAffine(c, d, Mul(c, f, G));
    MulCommutes(c, d, f, G);
    ProductMultiple(c, d, f);
    CoordinatesFit(c, Mul(c, d, Mul(c, f, G)));
  }
}
