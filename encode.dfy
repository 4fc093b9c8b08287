/**
 * Byte-level helpers of the ledger: the fixed-width integer codec that
 * replaces rbc's `encode` (a raw memory copy of a value), the SHA-256 digest shape
 * and the lower-case hexadecimal rendering that proof-of-work inspects.
 */
module Encode {

  type byte = x: int | 0 <= x < 256

  /** Unsigned machine integers of the record layout. */
  type u32 = x: nat | x < 0x1_0000_0000
  type usize = x: nat | x < 0x1_0000_0000_0000_0000
  type u128 = x: nat | x < 0x1_0000_0000_0000_0000_0000_0000_0000_0000

  /** Field widths of the explicit, packed, little-endian record layout. */
  const U32_SIZE: nat := 4
  const WORD_SIZE: nat := 8
  const U128_SIZE: nat := 16
  const BOOL_SIZE: nat := 1

  const SHA256_HASH_SIZE: nat := 32

  /** `n` zero bytes. */
  function Zeros(n: nat): (z: seq<byte>)
    ensures |z| == n && forall i :: 0 <= i < n ==> z[i] == 0
  {
    if n == 0 then [] else [0] + Zeros(n - 1)
  }

  type Digest = s: seq<byte> | |s| == SHA256_HASH_SIZE witness Zeros(32)

  /** The all-zero digest, used as the genesis block's previous hash. */
  const ZERO_DIGEST: Digest := Zeros(SHA256_HASH_SIZE)

  /** The hash primitive: any function from byte strings to 32-byte digests. */
  type Hasher = seq<byte> -> Digest

  /** sha256_hash: the digest of `bytes` under the hash primitive `sha256`. */
  function Sha256Hash(sha256: Hasher, bytes: seq<byte>): (h: seq<byte>)
    ensures |h| == SHA256_HASH_SIZE
  {
    sha256(bytes)
  }

  // ---------------------------------------------------------------------
  // Fixed-width little-endian integers
  // ---------------------------------------------------------------------

  function Pow256(width: nat): (r: nat)
    ensures r > 0
  {
    if width == 0 then 1 else 256 * Pow256(width - 1)
  }

  lemma WidthBounds()
    ensures Pow256(U32_SIZE) == 0x1_0000_0000
    ensures Pow256(WORD_SIZE) == 0x1_0000_0000_0000_0000
    ensures Pow256(U128_SIZE) == 0x1_0000_0000_0000_0000_0000_0000_0000_0000
  {
    assert Pow256(4) == 0x1_0000_0000;
    assert Pow256(8) == 0x1_0000_0000_0000_0000 by {
      assert Pow256(8) == Pow256(4) * Pow256(4) by { PowAdd(4, 4); }
    }
    assert Pow256(16) == Pow256(8) * Pow256(8) by { PowAdd(8, 8); }
  }

  lemma {:induction false} PowAdd(a: nat, b: nat)
    ensures Pow256(a + b) == Pow256(a) * Pow256(b)
  {
    if a > 0 {
      PowAdd(a - 1, b);
      assert Pow256(a + b) == 256 * Pow256(a - 1 + b);
    }
  }

  /** The `width` low-order bytes of `n`, least significant first. */
  function ToLE(n: nat, width: nat): (bs: seq<byte>)
    ensures |bs| == width
  {
    if width == 0 then [] else [n % 256] + ToLE(n / 256, width - 1)
  }

  /** The number whose little-endian representation is `bs`. */
  function FromLE(bs: seq<byte>): (n: nat)
    ensures n < Pow256(|bs|)
  {
    if |bs| == 0 then 0 else bs[0] + 256 * FromLE(bs[1..])
  }

  /** Decoding an encoded integer that fits the width gives it back. */
  lemma {:induction false} FromToLE(n: nat, width: nat)
    requires n < Pow256(width)
    ensures FromLE(ToLE(n, width)) == n
  {
    if width > 0 {
      assert n / 256 < Pow256(width - 1);
      FromToLE(n / 256, width - 1);
      assert ToLE(n, width)[1..] == ToLE(n / 256, width - 1);
    }
  }

  /** Encoding a decoded byte string gives the same bytes back. */
  lemma {:induction false} ToFromLE(bs: seq<byte>)
    ensures ToLE(FromLE(bs), |bs|) == bs
  {
    if |bs| > 0 {
      var n := FromLE(bs);
      assert n % 256 == bs[0] && n / 256 == FromLE(bs[1..]);
      ToFromLE(bs[1..]);
    }
  }

  /**
   * encode: writes the `width` bytes of `n` one at a time; the replacement
   * for rbc's `encode`, which copies a value's memory byte by byte.
   */
  method EncodeInt(n: nat, width: nat) returns (bytes: seq<byte>)
    ensures |bytes| == width
    ensures bytes == ToLE(n, width)
  {
    bytes := [];
    var rest := n;
    var i := 0;
    while i < width
      invariant 0 <= i <= width
      invariant |bytes| == i
      invariant bytes + ToLE(rest, width - i) == ToLE(n, width)
    {
      assert ToLE(rest, width - i) == [rest % 256] + ToLE(rest / 256, width - i - 1);
      bytes := bytes + [rest % 256];
      rest := rest / 256;
      i := i + 1;
    }
  }

  // ---------------------------------------------------------------------
  // Hexadecimal rendering
  // ---------------------------------------------------------------------

  /** One lower-case hexadecimal digit. */
  function HexDigit(n: nat): char
    requires n < 16
  {
    if n < 10 then (n + 48) as char else (n - 10 + 97) as char
  }

  predicate IsHexDigit(ch: char)
  {
    '0' <= ch <= '9' || 'a' <= ch <= 'f'
  }

  /** The value of a lower-case hexadecimal digit. */
  function DigitValue(ch: char): (n: nat)
    requires IsHexDigit(ch)
    ensures n < 16
  {
    if ch <= '9' then ch as int - 48 else ch as int - 97 + 10
  }

  /** format!("{:02x}", b): two digits, high nibble first. */
  function HexByte(b: byte): (s: string)
    ensures |s| == 2
  {
    [HexDigit(b / 16), HexDigit(b % 16)]
  }

  /** hex: the concatenation of the two-digit renderings of every byte. */
  function HexOf(bytes: seq<byte>): (s: string)
    ensures |s| == 2 * |bytes|
  {
    if |bytes| == 0 then "" else HexOf(bytes[..|bytes| - 1]) + HexByte(bytes[|bytes| - 1])
  }

  /** Every rendered byte is two lower-case digits from which the byte is read back. */
  lemma HexByteRoundTrip(b: byte)
    ensures IsHexDigit(HexByte(b)[0]) && IsHexDigit(HexByte(b)[1])
    ensures 16 * DigitValue(HexByte(b)[0]) + DigitValue(HexByte(b)[1]) == b
  {
  }

  /** A byte renders as "00" exactly when it is zero. */
  lemma HexByteZero(b: byte)
    ensures HexByte(b) == "00" <==> b == 0
  {
    if HexByte(b) == "00" {
      assert HexByte(b)[0] == '0' && HexByte(b)[1] == '0';
    }
  }

  lemma {:induction false} HexAppend(a: seq<byte>, b: seq<byte>)
    ensures HexOf(a + b) == HexOf(a) + HexOf(b)
  {
    if |b| > 0 {
      var ab := a + b;
      assert ab[..|ab| - 1] == a + b[..|b| - 1];
      HexAppend(a, b[..|b| - 1]);
    } else {
      assert a + b == a;
    }
  }

  /** Byte i of the input is rendered at characters 2i and 2i+1. */
  lemma {:induction false} HexAt(bytes: seq<byte>, i: nat)
    requires i < |bytes|
    ensures HexOf(bytes)[2 * i] == HexDigit(bytes[i] / 16)
    ensures HexOf(bytes)[2 * i + 1] == HexDigit(bytes[i] % 16)
  {
    var n := |bytes|;
    if i < n - 1 {
      HexAt(bytes[..n - 1], i);
    }
  }

  /** The first `d` characters of `s` are the digit '0'. */
  predicate HasLeadingZeros(s: string, d: nat)
  {
    d <= |s| && forall i :: 0 <= i < d ==> s[i] == '0'
  }

  /** The byte-level condition for `d` leading zero digits. */
  predicate ZeroDigitPrefix(bytes: seq<byte>, d: nat)
    requires d <= 2 * |bytes|
  {
    (forall i :: 0 <= i < d / 2 ==> bytes[i] == 0) && (d % 2 == 1 ==> bytes[d / 2] / 16 == 0)
  }

  lemma HexDigitZero(n: nat)
    requires n < 16
    ensures HexDigit(n) == '0' <==> n == 0
  {
  }

  /** A byte is zero exactly when both its digits are '0'. */
  lemma HexPairZero(bytes: seq<byte>, i: nat)
    requires i < |bytes|
    ensures HexOf(bytes)[2 * i] == '0' <==> bytes[i] / 16 == 0
    ensures HexOf(bytes)[2 * i + 1] == '0' <==> bytes[i] % 16 == 0
    ensures bytes[i] == 0 <==> bytes[i] / 16 == 0 && bytes[i] % 16 == 0
  {
    HexAt(bytes, i);
    HexDigitZero(bytes[i] / 16);
    HexDigitZero(bytes[i] % 16);
  }

  lemma LeadingZerosToBytes(bytes: seq<byte>, d: nat)
    requires d <= 2 * |bytes|
    requires HasLeadingZeros(HexOf(bytes), d)
    ensures ZeroDigitPrefix(bytes, d)
  {
    var s := HexOf(bytes);
    var h := d / 2;
    assert d == 2 * h + d % 2;
    forall i | 0 <= i < h ensures bytes[i] == 0 {
      assert 2 * i + 1 < d;
      HexPairZero(bytes, i);
    }
    if d % 2 == 1 {
      assert 2 * h < d;
      HexPairZero(bytes, h);
    }
  }

  lemma BytesToLeadingZeros(bytes: seq<byte>, d: nat)
    requires d <= 2 * |bytes|
    requires ZeroDigitPrefix(bytes, d)
    ensures HasLeadingZeros(HexOf(bytes), d)
  {
    var s := HexOf(bytes);
    forall k | 0 <= k < d ensures s[k] == '0' {
      var j := k / 2;
      HexPairZero(bytes, j);
      if k % 2 == 0 {
        assert k == 2 * j;
        if j >= d / 2 {
          assert d % 2 == 1 && j == d / 2;
        }
      } else {
        assert k == 2 * j + 1;
        assert j < d / 2;
      }
    }
  }

  /**
   * The hex rendering starts with `d` zeros exactly when the first d/2
   * bytes are zero and, for odd d, the high nibble of the next byte is zero.
   */
  lemma LeadingZeroDigits(bytes: seq<byte>, d: nat)
    requires d <= 2 * |bytes|
    ensures HasLeadingZeros(HexOf(bytes), d) <==> ZeroDigitPrefix(bytes, d)
  {
    if HasLeadingZeros(HexOf(bytes), d) {
      LeadingZerosToBytes(bytes, d);
    }
    if ZeroDigitPrefix(bytes, d) {
      BytesToLeadingZeros(bytes, d);
    }
  }

  /** hex starts with 2k zeros exactly when the first k bytes are zero. */
  lemma LeadingZeroBytes(bytes: seq<byte>, k: nat)
    requires k <= |bytes|
    ensures HasLeadingZeros(HexOf(bytes), 2 * k) <==> forall i :: 0 <= i < k ==> bytes[i] == 0
  {
    LeadingZeroDigits(bytes, 2 * k);
  }

  /** hex: builds the rendering by appending two digits per byte. */
  method Hex(bytes: seq<byte>) returns (s: string)
    ensures s == HexOf(bytes)
  {
    s := "";
    for i := 0 to |bytes|
      invariant s == HexOf(bytes[..i])
    {
      assert bytes[..i + 1][..i] == bytes[..i];
      s := s + HexByte(bytes[i]);
    }
    assert bytes[..|bytes|] == bytes;
  }
}
