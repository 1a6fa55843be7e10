/**
  The Decimal logical type of Apache Avro, as the Rust crate stores it:
  an unscaled signed integer of unbounded magnitude and the byte length
  it was decoded from (or should be encoded to). Its wire form is the
  big-endian two's-complement encoding that the Avro specification
  requires for decimals ("Logical Types", "Decimal").
 */
module AvroDecimal {
  import opened TwosComplement

  /** A decimal's unscaled value and its remembered byte length. */
  datatype Decimal = Decimal(value: int, len: nat)

  /** The codec's one error: the requested length cannot hold the value. */
  datatype Error = SignExtend(requested: nat, needed: nat)

  datatype Result<T, E> = Ok(value: T) | Err(error: E)

  /** Rust's `i64`. */
  newtype I64 = x: int | -0x8000_0000_0000_0000 <= x < 0x8000_0000_0000_0000

  /** The serializer's custom error, carrying its message. */
  datatype SerializeError = Custom(message: string)

  /** The message with which narrowing to `i64` fails. */
  const TooBigMessage: string := "to big int"

  /**
    `PartialEq::eq`: decimals are equal when their values are, whatever their
    lengths, which is when their minimal encodings are the same bytes.
   */
  predicate Eq(a: Decimal, b: Decimal)
    ensures Eq(a, b) <==> ToSignedBytesBe(a.value) == ToSignedBytesBe(b.value)
  {
    a.value == b.value
  }

  /** The remembered byte length: for a decoded decimal, the input's byte count. */
  function Len(d: Decimal): (n: nat)
    ensures forall bytes :: d == FromBytes(bytes) ==> n == |bytes|
  {
    d.len
  }

  /**
    The fill byte of a sign extension: 0xFF for a negative value, 0x00
    otherwise, so that as a one-byte string it reads as -1 or as 0.
   */
  function SignByte(value: int): (b: Byte)
    ensures FromSignedBytesBe([b]) == (if value < 0 then -1 else 0)
  {
    if value < 0 then 0xFF else 0x00
  }

  /**
    `From<Vec<u8>>`: the bytes are read as big-endian two's complement and
    their count is kept as the length, redundant leading bytes included.
   */
  function FromBytes(bytes: seq<Byte>): (d: Decimal)
    ensures d.len == |bytes|
    ensures d.value == TwosComplementValue(bytes)
    ensures |bytes| >= 1 ==> MinLen(d.value) <= d.len
  {
    FromSignedBytesBeIsTwosComplement(bytes);
    if |bytes| >= 1 then
      DecodeFits(bytes);
      MinLenIsLeast(FromSignedBytesBe(bytes), |bytes|);
      Decimal(FromSignedBytesBe(bytes), |bytes|)
    else
      Decimal(FromSignedBytesBe(bytes), |bytes|)
  }

  /**
    What `to_sign_extended_bytes_with_len` computes: a buffer of `len` sign
    bytes whose tail is overwritten by the minimal encoding, or a
    `SignExtend` error when the minimal encoding is longer than `len`.
   */
  function SignExtendedBytes(value: int, len: nat): (r: Result<seq<Byte>, Error>)
    ensures r.Err? <==> len < MinLen(value)
    ensures r.Err? ==> r.error == SignExtend(len, MinLen(value))
    ensures r.Ok? ==> |r.value| == len
  {
    var raw := ToSignedBytesBe(value);
    if len < |raw| then Err(SignExtend(len, |raw|))
    else Ok(seq(len - |raw|, _ => SignByte(value)) + raw)
  }

  /**
    `to_sign_extended_bytes_with_len`: allocates `len` sign bytes, then
    copies the minimal encoding into the tail of the buffer.
   */
  method ToSignExtendedBytesWithLen(d: Decimal, len: nat) returns (r: Result<seq<Byte>, Error>)
    ensures r == SignExtendedBytes(d.value, len)
    ensures r.Err? <==> len < MinLen(d.value)
    ensures r.Err? ==> r.error == SignExtend(len, MinLen(d.value))
    ensures r.Ok? ==> |r.value| == len
    ensures r.Ok? ==> forall i :: 0 <= i < len - MinLen(d.value) ==> r.value[i] == SignByte(d.value)
    ensures r.Ok? ==> r.value[len - MinLen(d.value)..] == ToSignedBytesBe(d.value)
    ensures r.Ok? ==> FromSignedBytesBe(r.value) == d.value
  {
    var signByte := SignByte(d.value);
    var decimalBytes := new Byte[len](_ => signByte);
    var rawBytes := ToSignedBytesBe(d.value);
    var numRawBytes := |rawBytes|;
    if len < numRawBytes {
      return Err(SignExtend(len, numRawBytes));
    }
    var startByteIndex := len - numRawBytes;
    var i := 0;
    while i < numRawBytes
      invariant 0 <= i <= numRawBytes
      invariant forall k :: 0 <= k < startByteIndex ==> decimalBytes[k] == signByte
      invariant forall k :: startByteIndex <= k < startByteIndex + i ==>
                  decimalBytes[k] == rawBytes[k - startByteIndex]
    {
      decimalBytes[startByteIndex + i] := rawBytes[i];
      i := i + 1;
    }
    assert decimalBytes[..] == seq(startByteIndex, _ => signByte) + rawBytes;
    r := Ok(decimalBytes[..]);
    SignExtendedBytesPreservesValue(d.value, len);
  }

  /** `to_vec`: the sign-extended encoding at the remembered length. */
  method ToVec(d: Decimal) returns (r: Result<seq<Byte>, Error>)
    ensures r == SignExtendedBytes(d.value, d.len)
    ensures r.Err? <==> d.len < MinLen(d.value)
    ensures r.Ok? ==> |r.value| == d.len && FromSignedBytesBe(r.value) == d.value
  {
    r := ToSignExtendedBytesWithLen(d, d.len);
  }

  /** `TryFrom<&Decimal> for Vec<u8>`: the same as `to_vec`. */
  method TryFrom(d: Decimal) returns (r: Result<seq<Byte>, Error>)
    ensures r == SignExtendedBytes(d.value, d.len)
    ensures r.Err? ==> r.error == SignExtend(d.len, MinLen(d.value))
  {
    r := ToVec(d);
  }

  /**
    The decision in `Serialize::serialize`: the value as an `i64` when it
    is in range, otherwise the custom "to big int" error. What the
    serializer then does with the `i64` is not part of this model.
   */
  function Serialize(d: Decimal): (r: Result<I64, SerializeError>)
    ensures r.Ok? <==> -0x8000_0000_0000_0000 <= d.value <= 0x7FFF_FFFF_FFFF_FFFF
    ensures r.Ok? <==> MinLen(d.value) <= 8
    ensures r.Ok? ==> r.value as int == d.value
    ensures r.Err? ==> r.error == Custom(TooBigMessage)
  {
    MinLenIsLeast(d.value, 8);
    assert Half(8) == 0x8000_0000_0000_0000;
    if -0x8000_0000_0000_0000 <= d.value <= 0x7FFF_FFFF_FFFF_FFFF then Ok(d.value as I64)
    else Err(Custom(TooBigMessage))
  }

  // Properties of the codec.

  /** Equality is an equivalence relation. */
  lemma EqIsEquivalence(a: Decimal, b: Decimal, c: Decimal)
    ensures Eq(a, a)
    ensures Eq(a, b) ==> Eq(b, a)
    ensures Eq(a, b) && Eq(b, c) ==> Eq(a, c)
  {
  }

  /** Equal values, different lengths: a redundant leading zero byte is kept but ignored by Eq. */
  lemma EqIgnoresLen()
    ensures Eq(FromBytes([0x00, 0x05]), FromBytes([0x05]))
    ensures Len(FromBytes([0x00, 0x05])) == 2 && Len(FromBytes([0x05])) == 1
  {
  }

  /**
    Two non-empty byte strings decode to equal decimals exactly when the
    longer is the shorter one sign-extended by copies of its sign byte.
   */
  lemma {:induction false} EqIffSignExtension(a: seq<Byte>, b: seq<Byte>)
    requires 1 <= |a| <= |b|
    ensures Eq(FromBytes(a), FromBytes(b))
        <==> b == seq(|b| - |a|, _ => if a[0] >= 128 then 0xFF else 0x00) + a
  {
    var v := FromSignedBytesBe(a);
    var fill: Byte := if a[0] >= 128 then 0xFF else 0x00;
    DecodeFits(a);
    EncodeDecode(a);
    SignExtension(v, |a|, |b|);
    assert ToBytesAt(v, |b|) == seq(|b| - |a|, _ => fill) + a;
    MinLenIsLeast(v, |a|);
    MinLenIsLeast(v, |b|);
    DecodeEncode(v, |b|);
    EncodeDecode(b);
  }

  /** The empty string decodes equal to exactly the all-zero strings. */
  lemma EqEmptyIffAllZero(b: seq<Byte>)
    ensures Eq(FromBytes([]), FromBytes(b)) <==> b == seq(|b|, _ => 0x00)
  {
    if Eq(FromBytes([]), FromBytes(b)) {
      EncodeDecode(b);
      ToBytesAtSignOnly(0, |b|);
    }
    if b == seq(|b|, _ => 0x00) && |b| >= 1 {
      ToBytesAtSignOnly(0, |b|);
      MinLenIsLeast(0, |b|);
      DecodeEncode(0, |b|);
    }
  }

  /**
    A successful encode is the len-byte two's-complement representation of
    the value, so decoding it gives the value back.
   */
  lemma SignExtendedBytesPreservesValue(value: int, len: nat)
    requires MinLen(value) <= len
    ensures SignExtendedBytes(value, len) == Ok(ToBytesAt(value, len))
    ensures FromSignedBytesBe(ToBytesAt(value, len)) == value
    ensures ToBytesAt(value, len)[len - MinLen(value)..] == ToSignedBytesBe(value)
    ensures forall i :: 0 <= i < len - MinLen(value) ==> ToBytesAt(value, len)[i] == SignByte(value)
  {
    var m := MinLen(value);
    MinLenIsLeast(value, m);
    SignExtension(value, m, len);
    MinLenIsLeast(value, len);
    DecodeEncode(value, len);
  }

  /** Decoding a non-empty byte string and re-encoding at its stored length gives the string back. */
  lemma RoundTrip(bytes: seq<Byte>)
    requires |bytes| >= 1
    ensures SignExtendedBytes(FromBytes(bytes).value, FromBytes(bytes).len) == Ok(bytes)
  {
    var d := FromBytes(bytes);
    SignExtendedBytesPreservesValue(d.value, d.len);
    EncodeDecode(bytes);
  }

  /** The empty byte string decodes to zero at length 0, which cannot be re-encoded. */
  lemma EmptyDoesNotRoundTrip()
    ensures FromBytes([]) == Decimal(0, 0)
    ensures SignExtendedBytes(FromBytes([]).value, FromBytes([]).len) == Err(SignExtend(0, 1))
  {
  }

  /** Sign extension and the one-byte boundaries. */
  lemma SignExtendedBytesExamples()
    ensures SignExtendedBytes(-1, 3) == Ok([0xFF, 0xFF, 0xFF])
    ensures SignExtendedBytes(5, 3) == Ok([0x00, 0x00, 0x05])
    ensures SignExtendedBytes(127, 1) == Ok([0x7F])
    ensures SignExtendedBytes(128, 1) == Err(SignExtend(1, 2))
    ensures SignExtendedBytes(-128, 1) == Ok([0x80])
    ensures SignExtendedBytes(-129, 1) == Err(SignExtend(1, 2))
  {
    MinimalEncodingExamples();
    assert seq(2, _ => SignByte(-1)) + [0xFF] == [0xFF, 0xFF, 0xFF];
    assert seq(2, _ => SignByte(5)) + [0x05] == [0x00, 0x00, 0x05];
    assert seq(0, _ => SignByte(127)) + [0x7F] == [0x7F];
    assert seq(0, _ => SignByte(-128)) + [0x80] == [0x80];
  }

  /** Narrowing at the edges of the `i64` range, whatever the stored length. */
  lemma SerializeBoundaries(len: nat)
    ensures Serialize(Decimal(0x7FFF_FFFF_FFFF_FFFF, len)) == Ok(0x7FFF_FFFF_FFFF_FFFF)
    ensures Serialize(Decimal(0x8000_0000_0000_0000, len)) == Err(Custom(TooBigMessage))
    ensures Serialize(Decimal(-0x8000_0000_0000_0000, len)) == Ok(-0x8000_0000_0000_0000)
    ensures Serialize(Decimal(-0x8000_0000_0000_0001, len)) == Err(Custom(TooBigMessage))
  {
  }
}
