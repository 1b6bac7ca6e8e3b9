/** Bitstring status lists: the byte array against the set of revoked indices it stands for. */
module StatusList {
  import opened Results
  import opened Bytes

  const MIN_SIZE := 131_072

  /** Limit on the decompressed bitstring a verifier reads, in bytes. */
  const READ_LIMIT := 16 * 1024 * 1024

  /** 1 << k. */
  function Bit(k: nat): Byte
    requires k < 8
  {
    if k == 0 then 1 else if k == 1 then 2 else if k == 2 then 4 else if k == 3 then 8
    else if k == 4 then 16 else if k == 5 then 32 else if k == 6 then 64 else 128
  }

  predicate Has(b: Byte, k: nat)
    requires k < 8
  {
    b & Bit(k) != 0
  }

  function With(b: Byte, k: nat): Byte
    requires k < 8
  {
    b | Bit(k)
  }

  function Without(b: Byte, k: nat): Byte
    requires k < 8
  {
    b & !Bit(k)
  }

  lemma OneBit(b: Byte, k: nat, j: nat)
    requires k < 8 && j < 8
    ensures Has(With(b, k), j) <==> Has(b, j) || j == k
    ensures Has(Without(b, k), j) <==> Has(b, j) && j != k
    ensures !Has(0, k)
  {
  }

  predicate IsSet(bits: Bytes, i: nat)
    requires i < 8 * |bits|
  {
    Has(bits[i / 8], i % 8)
  }

  /** Index i is bit i % 8, counted from the least significant, of byte i / 8. */
  lemma BitPosition(bits: Bytes, i: nat)
    requires i < 8 * |bits|
    ensures IsSet(bits, i) <==> (bits[i / 8] >> (i % 8)) & 1 == 1
  {
    ShiftedBit(bits[i / 8], i % 8);
  }

  lemma ShiftedBit(b: Byte, k: nat)
    requires k < 8
    ensures Has(b, k) <==> (b >> k) & 1 == 1
  {
  }

  /** The revoked indices a bitstring represents. */
  ghost function Indices(bits: Bytes): set<nat> {
    set i: nat | i < 8 * |bits| && IsSet(bits, i)
  }

  function Put(bits: Bytes, i: nat): (r: Bytes)
    requires i < 8 * |bits|
    ensures |r| == |bits|
  {
    bits[i / 8 := With(bits[i / 8], i % 8)]
  }

  function Clear(bits: Bytes, i: nat): (r: Bytes)
    requires i < 8 * |bits|
    ensures |r| == |bits|
  {
    bits[i / 8 := Without(bits[i / 8], i % 8)]
  }

  lemma PutClearAt(bits: Bytes, i: nat, j: nat)
    requires i < 8 * |bits| && j < 8 * |bits|
    ensures IsSet(Put(bits, i), j) <==> IsSet(bits, j) || j == i
    ensures IsSet(Clear(bits, i), j) <==> IsSet(bits, j) && j != i
  {
    hide Has, With, Without;
    OneBit(bits[i / 8], i % 8, j % 8);
    assert j / 8 == i / 8 && j % 8 == i % 8 ==> j == i;
  }

  /** Setting and clearing change membership of that index and of no other. */
  lemma {:induction false} PutClear(bits: Bytes, i: nat)
    requires i < 8 * |bits|
    ensures Indices(Put(bits, i)) == Indices(bits) + {i}
    ensures Indices(Clear(bits, i)) == Indices(bits) - {i}
  {
    hide IsSet, Put, Clear;
    forall j: nat | j < 8 * |bits|
      ensures IsSet(Put(bits, i), j) <==> IsSet(bits, j) || j == i
      ensures IsSet(Clear(bits, i), j) <==> IsSet(bits, j) && j != i
    {
      PutClearAt(bits, i, j);
    }
  }

  // ----- whole runs -----

  datatype Op = RevokeOp(index: int) | UnrevokeOp(index: int)

  predicate InRange(bits: Bytes, index: int) {
    0 <= index < 8 * |bits|
  }

  function RunBits(bits: Bytes, ops: seq<Op>): (r: Bytes)
    ensures |r| == |bits|
    decreases |ops|
  {
    if ops == [] then bits
    else
      var before := RunBits(bits, ops[..|ops| - 1]);
      match ops[|ops| - 1]
      case RevokeOp(i) => if InRange(before, i) then Put(before, i) else before
      case UnrevokeOp(i) => if InRange(before, i) then Clear(before, i) else before
  }

  /** The same calls on a set of indices below the size. */
  function RunSet(size: nat, start: set<nat>, ops: seq<Op>): set<nat>
    decreases |ops|
  {
    if ops == [] then start
    else
      var before := RunSet(size, start, ops[..|ops| - 1]);
      match ops[|ops| - 1]
      case RevokeOp(i) => if 0 <= i < size then before + {i} else before
      case UnrevokeOp(i) => if 0 <= i < size then before - {i} else before
  }

  /** After any calls the byte array stands for exactly the currently revoked indices. */
  lemma {:induction false} BitsRefineSet(bits: Bytes, ops: seq<Op>)
    ensures Indices(RunBits(bits, ops)) == RunSet(8 * |bits|, Indices(bits), ops)
    decreases |ops|
  {
    hide Indices, Put, Clear;
    if ops != [] {
      var before := RunBits(bits, ops[..|ops| - 1]);
      BitsRefineSet(bits, ops[..|ops| - 1]);
      var i := ops[|ops| - 1].index;
      if InRange(before, i) {
        PutClear(before, i);
      }
    }
  }

  class StatusList {
    var bits: array<Byte>
    var size: nat

    ghost predicate Valid()
      reads this
    {
      size == 8 * bits.Length
    }

    ghost function Revoked(): set<nat>
      reads this, bits
    {
      Indices(bits[..])
    }

    constructor (requested: int)
      ensures Valid() && fresh(bits) && Revoked() == {} && size >= 131_072 && size >= requested
      ensures var n := if requested < 131_072 then 131_072 else requested; size == (n + 7) / 8 * 8
    {
      var n := if requested < MIN_SIZE then MIN_SIZE else requested;
      var byteLen := (n + 7) / 8;
      bits := new Byte[byteLen](_ => 0);
      size := byteLen * 8;
      new;
      forall i: nat | i < 8 * |bits[..]| ensures !IsSet(bits[..], i) {
        OneBit(0, i % 8, i % 8);
      }
    }

    method Revoke(index: int) returns (ok: bool)
      requires Valid()
      modifies bits
      ensures ok <==> 0 <= index < size
      ensures Revoked() == if ok then old(Revoked()) + {index as nat} else old(Revoked())
    {
      hide IsSet, With, Without, Bit;
      if index < 0 || index >= size {
        return false;
      }
      PutClear(bits[..], index);
      ghost var after := Put(bits[..], index);
      bits[index / 8] := With(bits[index / 8], index % 8);
      assert bits[..] == after;
      ok := true;
    }

    method Unrevoke(index: int) returns (ok: bool)
      requires Valid()
      modifies bits
      ensures ok <==> 0 <= index < size
      ensures Revoked() == if ok then old(Revoked()) - {index as nat} else old(Revoked())
    {
      hide IsSet, With, Without, Bit;
      if index < 0 || index >= size {
        return false;
      }
      PutClear(bits[..], index);
      ghost var after := Clear(bits[..], index);
      bits[index / 8] := Without(bits[index / 8], index % 8);
      assert bits[..] == after;
      ok := true;
    }

    method IsRevoked(index: int) returns (r: Result<bool>)
      requires Valid()
      ensures r.Ok? <==> 0 <= index < size
      ensures r.Ok? ==> (r.value <==> index in Revoked())
    {
      if index < 0 || index >= size {
        return Err("status list: index out of range");
      }
      assert IsSet(bits[..], index) <==> index in Revoked();
      r := Ok(Has(bits[index / 8], index % 8));
    }
  }

  // ----- checking a published list -----

  /** CheckStatus reads outside the slice for indices of -8 and below. */
  datatype Check = Fine | RevokedCredential | OutOfRange | Panics

  /** CheckStatus; Go divides toward zero and converts a negative index modulo 2^64. */
  function CheckStatus(bits: Bytes, index: int): Check {
    var byteIdx := if index < 0 then -(-index / 8) else index / 8;
    if byteIdx >= |bits| then OutOfRange
    else if byteIdx < 0 then Panics
    else if Has(bits[byteIdx], index % 8) then RevokedCredential
    else Fine
  }

  /** What ParseEncodedList recovers of a published bitstring. */
  function Published(bits: Bytes): Bytes {
    if |bits| > READ_LIMIT then bits[..READ_LIMIT] else bits
  }

  /** On a published list the check answers as the list itself would exactly for indices that are
      not negative and lie within the bytes a verifier reads, or beyond the list altogether. */
  lemma {:induction false} CheckAgreesIff(bits: Bytes, index: int)
    requires bits != []
    ensures CheckStatus(Published(bits), index) ==
              (if index < 0 || index >= 8 * |bits| then OutOfRange
               else if index in Indices(bits) then RevokedCredential else Fine)
            <==> index >= 0 && (index < 134_217_728 || index >= 8 * |bits|)
  {
    if index < 0 {
      assert -index / 8 >= 0;
    } else if index < 8 * |bits| {
      assert index in Indices(bits) <==> IsSet(bits, index);
      assert index < 8 * READ_LIMIT ==> index / 8 < READ_LIMIT;
      hide Has;
    }
  }

  /** Just below zero the check reads byte 0 from the top; further down it reads out of bounds. */
  lemma {:induction false} CheckBelowZero(bits: Bytes, index: int)
    requires bits != [] && index < 0
    ensures index <= -8 ==> CheckStatus(bits, index).Panics?
    ensures index > -8 ==> CheckStatus(bits, index) == CheckStatus(bits, index + 8)
  {
    if index > -8 {
      assert (index + 8) % 8 == index % 8;
      assert -index / 8 == 0 && (index + 8) / 8 == 0;
    }
    hide Has;
  }
}
