/** The PSA vocabulary the driver speaks, and the bignum calls it makes. */
module Psa {
  import opened Modular
  import opened ByteOrder

  const PRIVKEY_LEN: nat := 32
  const PUBKEY_LEN: nat := 65
  const PUBKEY_HEADER: byte := 4
  const SECRET_LEN: nat := 32
  const SIGNATURE_LEN: nat := 64

  datatype Status =
    | Success
    | NotSupported
    | InvalidArgument
    | BufferTooSmall
    | InvalidSignature
    | InsufficientMemory
    | InsufficientEntropy
    | GenericError
    | OtherError(code: int)

  datatype Family = SecpR1 | OtherFamily

  datatype KeyType = EccKeyPair(family: Family) | EccPublicKey(family: Family) | OtherKeyType

  datatype Attributes = Attributes(keyType: KeyType, bits: nat)

  datatype Algorithm = RandomizedEcdsa | DeterministicEcdsa | Ecdh | OtherAlgorithm

  predicate IsP256KeyPair(attributes: Attributes) {
    attributes.keyType == EccKeyPair(SecpR1) && attributes.bits == 256
  }

  predicate IsEcdsa(alg: Algorithm) {
    alg.RandomizedEcdsa? || alg.DeterministicEcdsa?
  }

  // ----- randomness -----

  type Bytes32 = s: seq<byte> | |s| == 32 witness seq(32, i => 0)

  type Failure = s: Status | s != Success witness GenericError

  datatype Draw = Drawn(bytes: Bytes32) | DrawFailed(error: Failure)

  /** `psa_generate_random`: an arbitrary endless sequence of answers, and how many were consumed. */
  class Rng {
    const draws: nat -> Draw
    var next: nat

    constructor (draws: nat -> Draw)
      ensures this.draws == draws && next == 0
    {
      this.draws := draws;
      next := 0;
    }

    method Generate(out: array<byte>) returns (status: Status)
      requires out.Length == 32
      modifies this`next, out
      ensures next == old(next) + 1
      ensures match draws(old(next))
              case Drawn(bytes) => status == Success && out[..] == bytes
              case DrawFailed(error) => status == error
    {
      match draws(next) {
        case Drawn(bytes) =>
          forall i | 0 <= i < 32 {
            out[i] := bytes[i];
          }
          status := Success;
        case DrawFailed(error) =>
          status := error;
      }
      next := next + 1;
    }
  }

  // ----- bignum calls: exact integers, any of which may find no memory -----

  datatype MpiError = AllocFailed | NotAcceptable | TooSmall

  function MpiToPsaError(error: MpiError): Status {
    if error.AllocFailed? then InsufficientMemory else GenericError
  }

  /** The outcome of a call that yields a number; `:-` plays the part of ECC_MPI_CHK. */
  datatype Mpi = Ok(value: int) | Err(error: MpiError) {
    predicate IsFailure() {
      Err?
    }

    function PropagateFailure(): Status
      requires Err?
    {
      MpiToPsaError(error)
    }

    function Extract(): int
      requires Ok?
    {
      value
    }
  }

  /** The outcome of a call that yields nothing. */
  datatype MpiDone = Done | Failed(error: MpiError) {
    predicate IsFailure() {
      Failed?
    }

    function PropagateFailure(): Status
      requires Failed?
    {
      MpiToPsaError(error)
    }
  }

  /** The bignum library: which of the calls to come find no memory is arbitrary, but decided beforehand. */
  class Bignum {
    const refuses: nat -> bool
    var calls: nat

    constructor (refuses: nat -> bool)
      ensures this.refuses == refuses && calls == 0
    {
      this.refuses := refuses;
      calls := 0;
    }

    /** How many of the first n calls find no memory. */
    ghost function Failures(n: nat): nat {
      if n == 0 then 0 else Failures(n - 1) + if refuses(n - 1) then 1 else 0
    }

    /** Some call of the given stretch found no memory. */
    ghost predicate Refused(from: nat, to: nat) {
      Failures(from) < Failures(to)
    }

    ghost predicate InOrder(from: nat, to: nat) {
      from <= to && Failures(from) <= Failures(to)
    }

    /** With memory for every call of the stretch nothing is refused, and only then. */
    lemma {:induction false} RefusedIff(from: nat, to: nat)
      requires from <= to
      ensures InOrder(from, to)
      ensures Refused(from, to) <==> exists i :: from <= i < to && refuses(i)
    {
      if from < to {
        RefusedIff(from, to - 1);
        if refuses(to - 1) {
          assert from <= to - 1 < to;
        }
      }
    }

    method Allocate() returns (ok: bool)
      modifies this`calls
      ensures InOrder(old(calls), calls)
      ensures ok <==> !Refused(old(calls), calls)
    {
      ok := !refuses(calls);
      calls := calls + 1;
    }

    method ReadBinary(bytes: seq<byte>) returns (r: Mpi)
      modifies this`calls
      ensures InOrder(old(calls), calls)
      ensures r == if Refused(old(calls), calls) then Err(AllocFailed) else Ok(BeValue(bytes))
    {
      var ok := Allocate();
      return if ok then Ok(BeValue(bytes)) else Err(AllocFailed);
    }

    method WriteBinary(v: int, out: array<byte>, off: nat) returns (r: MpiDone)
      requires v >= 0 && off + 32 <= out.Length
      modifies this`calls, out
      ensures InOrder(old(calls), calls)
      ensures r == if Refused(old(calls), calls) then Failed(AllocFailed)
                   else if v < FIELD_BOUND then Done else Failed(TooSmall)
      ensures out[..] == if r.Done? then old(out[..off]) + ToBe(v, 32) + old(out[off + 32..]) else old(out[..])
    {
      var ok := Allocate();
      if !ok {
        return Failed(AllocFailed);
      }
      if v >= FIELD_BOUND {
        return Failed(TooSmall);
      }
      var bytes := ToBe(v, 32);
      forall i | 0 <= i < 32 {
        out[off + i] := bytes[i];
      }
      return Done;
    }

    method AddMpi(a: int, b: int) returns (r: Mpi)
      modifies this`calls
      ensures InOrder(old(calls), calls)
      ensures r == if Refused(old(calls), calls) then Err(AllocFailed) else Ok(a + b)
    {
      var ok := Allocate();
      return if ok then Ok(a + b) else Err(AllocFailed);
    }

    method SubMpi(a: int, b: int) returns (r: Mpi)
      modifies this`calls
      ensures InOrder(old(calls), calls)
      ensures r == if Refused(old(calls), calls) then Err(AllocFailed) else Ok(a - b)
    {
      var ok := Allocate();
      return if ok then Ok(a - b) else Err(AllocFailed);
    }

    method MulMpi(a: int, b: int) returns (r: Mpi)
      modifies this`calls
      ensures InOrder(old(calls), calls)
      ensures r == if Refused(old(calls), calls) then Err(AllocFailed) else Ok(a * b)
    {
      var ok := Allocate();
      return if ok then Ok(a * b) else Err(AllocFailed);
    }

    /** The residue is never negative, whatever the sign of `a`. */
    method ModMpi(a: int, m: int) returns (r: Mpi)
      requires m > 0
      modifies this`calls
      ensures InOrder(old(calls), calls)
      ensures r == if Refused(old(calls), calls) then Err(AllocFailed) else Ok(a % m)
    {
      var ok := Allocate();
      return if ok then Ok(a % m) else Err(AllocFailed);
    }

    method InvMod(a: int, m: int) returns (r: Mpi)
      requires m > 1
      modifies this`calls
      ensures InOrder(old(calls), calls)
      ensures r == if Refused(old(calls), calls) then Err(AllocFailed)
                   else if Gcd(a, m) == 1 then Ok(Inverse(a, m)) else Err(NotAcceptable)
    {
      var ok := Allocate();
      if !ok {
        return Err(AllocFailed);
      }
      if Gcd(a, m) != 1 {
        return Err(NotAcceptable);
      }
      return Ok(Inverse(a, m));
    }
  }
}
