/**
 * The hexadecimal spellings of an MD5 digest that the caches use as file
 * names. The digest itself is an input: the MD5 algorithm is not modelled.
 *
 * The Java caches append, byte by byte, the last two characters of
 * `Integer.toHexString((b & 0xFF) | 0x100)`; the Kotlin caches print the
 * digest as one unsigned number with `BigInteger.toString(16)` and left-pad
 * it with '0' to 32 characters. Both spell a 16-byte digest the same way.
 */
module Md5Hex {

  newtype byte = x: int | 0 <= x < 256

  predicate IsLowerHex(c: char) {
    '0' <= c <= '9' || 'a' <= c <= 'f'
  }

  function HexDigit(n: nat): (c: char)
    requires n < 16
    ensures IsLowerHex(c)
  {
    "0123456789abcdef"[n]
  }

  /** The value of a lowercase hex digit: `Character.digit(c, 16)`. */
  function DigitValue(c: char): (n: nat)
    ensures n < 16
  {
    if '0' <= c <= '9' then (c - '0') as nat
    else if 'a' <= c <= 'f' then (c - 'a') as nat + 10
    else 0
  }

  lemma DigitRoundTrip(n: nat)
    requires n < 16
    ensures DigitValue(HexDigit(n)) == n
  {
  }

  function Pow16(k: nat): (p: nat)
    ensures p >= 1
  {
    if k == 0 then 1 else 16 * Pow16(k - 1)
  }

  /**
   * `Integer.toHexString(n)` and `BigInteger.toString(16)` of a non-negative
   * number: lowercase digits, no leading zero, "0" for zero.
   */
  function ToHex(n: nat): (s: string)
    ensures s != []
  {
    if n < 16 then [HexDigit(n)] else ToHex(n / 16) + [HexDigit(n % 16)]
  }

  /** The last k hex digits of n, leading zeros included. */
  function Fixed(n: nat, k: nat): (s: string)
    ensures |s| == k
  {
    if k == 0 then [] else Fixed(n / 16, k - 1) + [HexDigit(n % 16)]
  }

  /** Kotlin `padStart(k, c)`. */
  function PadStart(s: string, k: nat, c: char): (r: string)
    ensures |r| == if |s| >= k then |s| else k
    ensures EndsWithPart(r, s)
  {
    if |s| >= k then s else seq(k - |s|, _ => c) + s
  }

  predicate EndsWithPart(r: string, s: string) {
    |s| <= |r| && r[|r| - |s|..] == s
  }

  /** `BigInteger(1, digest)`: the digest read as an unsigned big-endian number. */
  function Value(d: seq<byte>): nat {
    if d == [] then 0 else Value(d[..|d| - 1]) * 256 + d[|d| - 1] as nat
  }

  lemma ByteShape(b: byte)
    ensures ToHex(b as nat + 256) == ['1', HexDigit(b as nat / 16), HexDigit(b as nat % 16)]
  {
    var n, hi, lo := b as nat + 256, b as nat / 16, b as nat % 16;
    assert hi < 16 && b as nat == 16 * hi + lo;
    DivMod16(n, 16 + hi, lo);
    DivMod16(16 + hi, 1, hi);
    assert ToHex(16 + hi) == ToHex(1) + [HexDigit(hi)];
  }

  /** The two characters appended for one byte: `toHexString((b & 0xFF) | 0x100).substring(1, 3)`. */
  function ByteHex(b: byte): (s: string)
    ensures s == [HexDigit(b as nat / 16), HexDigit(b as nat % 16)]
  {
    ByteShape(b);
    ToHex(b as nat + 256)[1..3]
  }

  /** The Java `md5`: the bytes' two-digit spellings, in order. */
  function PerByteHex(d: seq<byte>): string {
    if d == [] then [] else PerByteHex(d[..|d| - 1]) + ByteHex(d[|d| - 1])
  }

  /** The Kotlin `md5`: the digest's number in hex, padded with '0' to 32 digits. */
  function PaddedHex(d: seq<byte>): string {
    PadStart(ToHex(Value(d)), 32, '0')
  }

  /** The `StringBuilder` loop of the Java `md5`. */
  method PerByteMd5(digest: seq<byte>) returns (s: string)
    ensures s == PerByteHex(digest)
  {
    s := "";
    for i := 0 to |digest|
      invariant s == PerByteHex(digest[..i])
    {
      assert digest[..i + 1][..i] == digest[..i];
      s := s + ByteHex(digest[i]);
    }
    assert digest[..|digest|] == digest;
  }

  // ---------------------------------------------------------------- shape

  /** Two lowercase hex digits per byte, so the name is twice the digest long. */
  lemma {:induction false} PerByteShape(d: seq<byte>)
    ensures |PerByteHex(d)| == 2 * |d|
    ensures forall i :: 0 <= i < |PerByteHex(d)| ==> IsLowerHex(PerByteHex(d)[i])
  {
    if d != [] {
      PerByteShape(d[..|d| - 1]);
    }
  }

  /** Characters 2i and 2i + 1 spell byte i, so the digest can be read back. */
  lemma {:induction false} PerBytePair(d: seq<byte>, i: nat)
    requires i < |d|
    ensures |PerByteHex(d)| == 2 * |d|
    ensures PerByteHex(d)[2 * i] == HexDigit(d[i] as nat / 16)
    ensures PerByteHex(d)[2 * i + 1] == HexDigit(d[i] as nat % 16)
  {
    var init := d[..|d| - 1];
    PerByteShape(d);
    PerByteShape(init);
    assert PerByteHex(d) == PerByteHex(init) + ByteHex(d[|d| - 1]);
    if i < |d| - 1 {
      PerBytePair(init, i);
      assert init[i] == d[i];
    }
  }

  /** Distinct digests of one length get distinct Java names. */
  lemma PerByteInjective(a: seq<byte>, b: seq<byte>)
    requires |a| == |b| && PerByteHex(a) == PerByteHex(b)
    ensures a == b
  {
    forall i | 0 <= i < |a| ensures a[i] == b[i] {
      PerBytePair(a, i);
      PerBytePair(b, i);
      var x, y := a[i] as nat, b[i] as nat;
      DigitRoundTrip(x / 16);
      DigitRoundTrip(y / 16);
      DigitRoundTrip(x % 16);
      DigitRoundTrip(y % 16);
      assert x == 16 * (x / 16) + x % 16;
      assert y == 16 * (y / 16) + y % 16;
    }
  }

  // ---------------------------------------------------- the two spellings

  lemma {:induction false} FixedZero(k: nat)
    ensures Fixed(0, k) == seq(k, _ => '0')
  {
    if k > 0 {
      FixedZero(k - 1);
    }
  }

  lemma {:induction false} ToHexLength(n: nat, k: nat)
    requires k >= 1 && n < Pow16(k)
    ensures |ToHex(n)| <= k
  {
    if n >= 16 {
      assert k >= 2;
      ToHexLength(n / 16, k - 1);
    }
  }

  lemma PadAppend(h: string, x: char, k: nat)
    requires |h| < k
    ensures PadStart(h + [x], k, '0') == PadStart(h, k - 1, '0') + [x]
  {
    if |h| < k - 1 {
      assert seq(k - |h + [x]|, _ => '0') == seq(k - 1 - |h|, _ => '0');
    }
  }

  /** Padding the shortest spelling to k digits gives the k-digit spelling. */
  lemma {:induction false} PadIsFixed(n: nat, k: nat)
    requires k >= 1 && n < Pow16(k)
    ensures PadStart(ToHex(n), k, '0') == Fixed(n, k)
  {
    var q, r := n / 16, n % 16;
    if n < 16 {
      assert q == 0 && r == n;
      FixedStep(n, k, 0, n);
      FixedZero(k - 1);
    } else {
      assert k >= 2;
      assert ToHex(n) == ToHex(q) + [HexDigit(r)];
      ToHexLength(q, k - 1);
      PadIsFixed(q, k - 1);
      PadAppend(ToHex(q), HexDigit(r), k);
      FixedStep(n, k, q, r);
    }
  }

  /** Division by 16 read back from a quotient and a remainder. */
  lemma DivMod16(n: nat, q: nat, r: nat)
    requires n == 16 * q + r && r < 16
    ensures n / 16 == q && n % 16 == r
  {
  }

  /** The two hex digits a byte adds below a number already spelled. */
  lemma SplitByte(v: nat, b: nat)
    requires b < 256
    ensures (v * 256 + b) / 16 == v * 16 + b / 16
    ensures (v * 256 + b) % 16 == b % 16
    ensures (v * 16 + b / 16) / 16 == v
    ensures (v * 16 + b / 16) % 16 == b / 16
  {
    var hi, lo := b / 16, b % 16;
    assert b == 16 * hi + lo;
    DivMod16(v * 256 + b, v * 16 + hi, lo);
    DivMod16(v * 16 + hi, v, hi);
  }

  lemma {:induction false} ValueBound(d: seq<byte>)
    ensures Value(d) < Pow16(2 * |d|)
  {
    if d != [] {
      var init := d[..|d| - 1];
      ValueBound(init);
      assert Pow16(2 * |d|) == 256 * Pow16(2 * |init|);
      assert Value(d) <= (Pow16(2 * |init|) - 1) * 256 + 255;
    }
  }

  /** One step of the k-digit spelling: the last digit, after the spelling of n / 16. */
  lemma FixedStep(n: nat, k: nat, q: nat, r: nat)
    requires k >= 1 && n / 16 == q && n % 16 == r
    ensures Fixed(n, k) == Fixed(q, k - 1) + [HexDigit(r)]
  {
  }

  /** A byte appended below a number adds its two digits at the end of the spelling. */
  lemma FixedByte(n: nat, v: nat, b: byte, m: nat)
    requires n == v * 256 + b as nat
    ensures Fixed(n, m + 2) == Fixed(v, m) + ByteHex(b)
  {
    SplitByte(v, b as nat);
    var q := v * 16 + b as nat / 16;
    FixedStep(n, m + 2, q, b as nat % 16);
    FixedStep(q, m + 1, v, b as nat / 16);
  }

  lemma {:induction false} PerByteIsFixed(d: seq<byte>)
    ensures PerByteHex(d) == Fixed(Value(d), 2 * |d|)
  {
    if d != [] {
      var init := d[..|d| - 1];
      var last := d[|d| - 1];
      PerByteIsFixed(init);
      FixedByte(Value(d), Value(init), last, 2 * |init|);
      assert 2 * |d| == 2 * |init| + 2;
    }
  }

  /** The Kotlin and the Java `md5` name a 16-byte digest identically. */
  lemma SpellingsAgree(d: seq<byte>)
    requires |d| == 16
    ensures PaddedHex(d) == PerByteHex(d)
    ensures |PaddedHex(d)| == 32
  {
    ValueBound(d);
    PadIsFixed(Value(d), 32);
    PerByteIsFixed(d);
  }
}
