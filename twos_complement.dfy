/**
  Big-endian two's-complement byte encodings of unbounded integers.

  This module stands in for the two foreign calls the Decimal codec makes
  into its big-integer library: `from_signed_bytes_be` (read a byte string
  as a signed integer) and `to_signed_bytes_be` (the shortest such byte
  string for an integer). Integers are Dafny's unbounded `int`.
 */
module TwosComplement {

  /** An octet, the element type of a `Vec<u8>`. */
  type Byte = b: int | 0 <= b < 256

  /** 256^n, the number of distinct n-byte strings. */
  function Pow256(n: nat): (r: int)
    ensures r >= 1
  {
    if n == 0 then 1 else 256 * Pow256(n - 1)
  }

  /** 2^(8n-1): an n-byte two's-complement integer lies in [-Half(n), Half(n)). */
  function Half(n: nat): (h: int)
    requires n >= 1
  {
    128 * Pow256(n - 1)
  }

  /** True when v is representable in exactly n two's-complement bytes. */
  predicate Fits(v: int, n: nat) {
    n >= 1 && -Half(n) <= v < Half(n)
  }

  /** The bytes read as an unsigned big-endian number. */
  function Unsigned(s: seq<Byte>): (u: nat) {
    if s == [] then 0 else Unsigned(s[..|s| - 1]) * 256 + s[|s| - 1]
  }

  /**
    The textbook reading of a two's-complement string: the unsigned value,
    less 256^n when the most significant bit of the first byte is set.
   */
  function TwosComplementValue(s: seq<Byte>): (v: int) {
    Unsigned(s) - (if |s| > 0 && s[0] >= 128 then Pow256(|s|) else 0)
  }

  /**
    Model of `BigInt::from_signed_bytes_be`: the first byte is read as a
    signed octet and every following byte shifts it left by eight bits.
    The empty string reads as zero.
   */
  function FromSignedBytesBe(s: seq<Byte>): (v: int)
    ensures |s| >= 1 ==> (v < 0 <==> s[0] >= 128)
  {
    if |s| == 0 then 0
    else if |s| == 1 then (if s[0] < 128 then s[0] else s[0] - 256)
    else
      assert s[..|s| - 1][0] == s[0];
      FromSignedBytesBe(s[..|s| - 1]) * 256 + s[|s| - 1]
  }

  /** The n low-order bytes of v's two's-complement representation, most significant first. */
  function ToBytesAt(v: int, n: nat): (r: seq<Byte>)
    ensures |r| == n
    decreases n
  {
    if n == 0 then [] else ToBytesAt(v / 256, n - 1) + [v % 256]
  }

  /** The number of bytes of v's shortest two's-complement representation. */
  function MinLen(v: int): (n: nat)
    ensures n >= 1
    decreases if v < 0 then -v else v
  {
    if -128 <= v < 128 then 1 else 1 + MinLen(v / 256)
  }

  /**
    Model of `BigInt::to_signed_bytes_be`: the shortest big-endian
    two's-complement encoding of v, so zero encodes as one zero byte.
   */
  function ToSignedBytesBe(v: int): (r: seq<Byte>)
    ensures |r| == MinLen(v)
    ensures FromSignedBytesBe(r) == v
  {
    MinLenIsLeast(v, MinLen(v));
    DecodeEncode(v, MinLen(v));
    ToBytesAt(v, MinLen(v))
  }

  /** The decoder agrees with the textbook reading of a two's-complement string. */
  lemma {:induction false} FromSignedBytesBeIsTwosComplement(s: seq<Byte>)
    ensures FromSignedBytesBe(s) == TwosComplementValue(s)
  {
    if |s| == 1 {
      assert Unsigned(s) == s[0] by { assert s[..0] == []; }
      assert Pow256(1) == 256;
    } else if |s| > 1 {
      var p := s[..|s| - 1];
      FromSignedBytesBeIsTwosComplement(p);
      assert p[0] == s[0];
      assert Pow256(|s|) == 256 * Pow256(|p|);
    }
  }

  /** A string of n >= 1 bytes holds a value representable in n bytes. */
  lemma {:induction false} DecodeFits(s: seq<Byte>)
    requires |s| >= 1
    ensures Fits(FromSignedBytesBe(s), |s|)
  {
    if |s| > 1 {
      var p := s[..|s| - 1];
      DecodeFits(p);
      assert Half(|s|) == 256 * Half(|p|);
    }
  }

  /** Dropping the last byte of an encoding divides the value by 256, rounding down. */
  lemma FitsShift(v: int, n: nat)
    requires n >= 2
    ensures Fits(v, n) <==> Fits(v / 256, n - 1)
  {
    assert Half(n) == 256 * Half(n - 1);
  }

  /** MinLen(v) is the least byte count at which v is representable. */
  lemma {:induction false} MinLenIsLeast(v: int, n: nat)
    ensures Fits(v, n) <==> MinLen(v) <= n
    decreases if v < 0 then -v else v
  {
    if n >= 2 {
      FitsShift(v, n);
      if !(-128 <= v < 128) {
        MinLenIsLeast(v / 256, n - 1);
      } else {
        assert Half(n) >= 128 by { assert Pow256(n - 1) >= 1; }
      }
    }
  }

  /** Encoding a representable value at n bytes and decoding gives the value back. */
  lemma {:induction false} DecodeEncode(v: int, n: nat)
    requires Fits(v, n)
    ensures FromSignedBytesBe(ToBytesAt(v, n)) == v
    decreases n
  {
    if n > 1 {
      FitsShift(v, n);
      DecodeEncode(v / 256, n - 1);
      var s := ToBytesAt(v, n);
      assert s[..|s| - 1] == ToBytesAt(v / 256, n - 1);
    }
  }

  /** Decoding a string and re-encoding at its own length gives the string back. */
  lemma {:induction false} EncodeDecode(s: seq<Byte>)
    ensures ToBytesAt(FromSignedBytesBe(s), |s|) == s
  {
    if |s| > 1 {
      var p := s[..|s| - 1];
      EncodeDecode(p);
      assert s == p + [s[|s| - 1]];
    }
  }

  /** The n-byte encodings of 0 and of -1 are all 0x00 and all 0xFF bytes. */
  lemma {:induction false} ToBytesAtSignOnly(v: int, n: nat)
    requires v == 0 || v == -1
    ensures ToBytesAt(v, n) == seq(n, _ => if v < 0 then 0xFF else 0x00)
  {
    if n > 0 {
      ToBytesAtSignOnly(v, n - 1);
    }
  }

  /**
    Sign extension: widening the encoding of a value representable in m
    bytes to n bytes prepends n - m copies of the sign byte.
   */
  lemma {:induction false} SignExtension(v: int, m: nat, n: nat)
    requires Fits(v, m) && m <= n
    ensures ToBytesAt(v, n) == seq(n - m, _ => if v < 0 then 0xFF else 0x00) + ToBytesAt(v, m)
    decreases m
  {
    var fill: Byte := if v < 0 then 0xFF else 0x00;
    if m == 1 {
      ToBytesAtSignOnly(v / 256, n - 1);
    } else {
      FitsShift(v, m);
      SignExtension(v / 256, m - 1, n - 1);
      assert ToBytesAt(v / 256, n - 1)
          == seq(n - m, _ => fill) + ToBytesAt(v / 256, m - 1);
    }
  }

  /** No non-empty encoding of v is shorter than the minimal one. */
  lemma ToSignedBytesBeIsShortest(v: int, s: seq<Byte>)
    requires |s| >= 1 && FromSignedBytesBe(s) == v
    ensures |ToSignedBytesBe(v)| <= |s|
  {
    DecodeFits(s);
    MinLenIsLeast(v, |s|);
  }

  /** Concrete minimal encodings at the one-byte/two-byte boundary. */
  lemma MinimalEncodingExamples()
    ensures ToSignedBytesBe(0) == [0x00]
    ensures ToSignedBytesBe(5) == [0x05]
    ensures ToSignedBytesBe(-1) == [0xFF]
    ensures ToSignedBytesBe(127) == [0x7F]
    ensures ToSignedBytesBe(128) == [0x00, 0x80]
    ensures ToSignedBytesBe(-128) == [0x80]
    ensures ToSignedBytesBe(-129) == [0xFF, 0x7F]
  {
  }
}
