/** The text conversions the signing code relies on: `%d` of a length,
    byte-to-hex (`util_uint8_to_hex`), and `%.*s` of a byte string that is
    not NUL-terminated. Each comes with its inverse or the law that pins it down. */
module Format {
  import opened Bytes

  predicate IsDigit(c: byte)
  {
    0x30 <= c <= 0x39
  }

  predicate AllDigits(s: seq<byte>)
  {
    forall i :: 0 <= i < |s| ==> IsDigit(s[i])
  }

  /** The ASCII character of a decimal digit value. */
  function DigitChar(d: nat): byte
    requires d < 10
  {
    (0x30 + d) as byte
  }

  /** `%d` of a non-negative number: its decimal digits, most significant
      first, with no sign and no leading zero. */
  function Decimal(n: nat): (r: seq<byte>)
    ensures 1 <= |r| && AllDigits(r)
    ensures r[0] == 0x30 ==> n == 0
  {
    if n < 10 then [DigitChar(n)] else Decimal(n / 10) + [DigitChar(n % 10)]
  }

  /** The number a string of decimal digits denotes. */
  function ParseDecimal(s: seq<byte>): nat
    requires AllDigits(s)
  {
    if s == [] then 0 else ParseDecimal(s[..|s| - 1]) * 10 + (s[|s| - 1] as int - 0x30)
  }

  lemma {:induction false} DecimalRoundTrip(n: nat)
    ensures ParseDecimal(Decimal(n)) == n
  {
    if n >= 10 {
      var d := Decimal(n);
      assert d[..|d| - 1] == Decimal(n / 10);
      DecimalRoundTrip(n / 10);
    }
  }

  function Pow10(k: nat): (p: nat)
    ensures p >= 1
  {
    if k == 0 then 1 else 10 * Pow10(k - 1)
  }

  /** A number below 10^k needs at most k digits. */
  lemma {:induction false} DecimalLengthBound(n: nat, k: nat)
    requires 1 <= k && n < Pow10(k)
    ensures |Decimal(n)| <= k
  {
    if n >= 10 {
      assert k >= 2;
      assert n / 10 < Pow10(k - 1);
      DecimalLengthBound(n / 10, k - 1);
    }
  }

  /** A larger number never has fewer digits. */
  lemma {:induction false} DecimalLengthMonotone(a: nat, b: nat)
    requires a <= b
    ensures |Decimal(a)| <= |Decimal(b)|
  {
    if a >= 10 {
      DecimalLengthMonotone(a / 10, b / 10);
    }
  }

  predicate IsHexDigit(c: byte)
  {
    0x30 <= c <= 0x39 || 0x61 <= c <= 0x66
  }

  predicate AllHexDigits(s: seq<byte>)
  {
    forall i :: 0 <= i < |s| ==> IsHexDigit(s[i])
  }

  /** The ASCII character of a nibble; lower-case letters are chosen here. */
  function HexDigit(v: nat): (c: byte)
    requires v < 16
    ensures IsHexDigit(c)
  {
    if v < 10 then (0x30 + v) as byte else (0x61 + v - 10) as byte
  }

  /** The nibble a hex character stands for; 0 for any other byte. */
  function HexValue(c: byte): (v: nat)
    ensures v < 16
  {
    if 0x30 <= c <= 0x39 then c as int - 0x30
    else if 0x61 <= c <= 0x66 then c as int - 0x61 + 10
    else 0
  }

  /** The two characters `util_uint8_to_hex` writes for one byte. */
  function HexPair(b: byte): seq<byte>
  {
    [HexDigit(b as int / 16), HexDigit(b as int % 16)]
  }

  /** `util_uint8_to_hex` of a byte string: two hex characters per byte, none of them NUL. */
  function Hex(s: seq<byte>): (r: seq<byte>)
    ensures |r| == 2 * |s|
    ensures AllHexDigits(r) && NoZero(r)
  {
    if s == [] then [] else Hex(s[..|s| - 1]) + HexPair(s[|s| - 1])
  }

  /** Reads hex text back into bytes, two characters per byte. */
  function UnHex(r: seq<byte>): seq<byte>
  {
    if |r| < 2 then []
    else UnHex(r[..|r| - 2]) + [(HexValue(r[|r| - 2]) * 16 + HexValue(r[|r| - 1])) as byte]
  }

  lemma {:induction false} HexRoundTrip(s: seq<byte>)
    ensures UnHex(Hex(s)) == s
  {
    if s != [] {
      var r := Hex(s);
      var last := s[|s| - 1];
      assert r[..|r| - 2] == Hex(s[..|s| - 1]);
      HexRoundTrip(s[..|s| - 1]);
      assert HexValue(r[|r| - 2]) == last as int / 16;
      assert HexValue(r[|r| - 1]) == last as int % 16;
      assert s == s[..|s| - 1] + [last];
    }
  }

  /** Byte `i` of the input becomes characters `2i` and `2i + 1` of the hex text. */
  lemma {:induction false} HexAt(s: seq<byte>, i: nat)
    requires i < |s|
    ensures Hex(s)[2 * i] == HexDigit(s[i] as int / 16)
    ensures Hex(s)[2 * i + 1] == HexDigit(s[i] as int % 16)
  {
    if i < |s| - 1 {
      HexAt(s[..|s| - 1], i);
    }
  }

  /** `util_uint8_to_hex(src, |src|, &buf[at])`. */
  method PutHex(buf: array<byte>, at: nat, src: seq<byte>)
    requires at + 2 * |src| <= buf.Length
    modifies buf
    ensures buf[..] == Spliced(old(buf[..]), at, Hex(src))
  {
    ghost var hex := Hex(src);
    for i := 0 to |src|
      invariant forall k :: 0 <= k < buf.Length ==>
        buf[k] == if at <= k < at + 2 * i then hex[k - at] else old(buf[k])
    {
      HexAt(src, i);
      buf[at + 2 * i] := HexDigit(src[i] as int / 16);
      buf[at + 2 * i + 1] := HexDigit(src[i] as int % 16);
    }
    assert buf[..] == Spliced(old(buf[..]), at, hex);
  }

  /** `%.*s` with precision `p` applied to `src`: it prints bytes of `src`
      until it meets a NUL or has printed `p` of them, whichever comes first. */
  method PutPrecision(buf: array<byte>, at: nat, src: seq<byte>, p: nat) returns (n: nat)
    requires p <= |src| && at + p <= buf.Length
    modifies buf
    ensures n == |CString(src[..p])| && n <= p
    ensures buf[..] == Spliced(old(buf[..]), at, CString(src[..p]))
  {
    n := 0;
    while n < p && src[n] != 0
      invariant n <= p
      invariant forall j :: 0 <= j < n ==> src[j] != 0
      invariant forall k :: 0 <= k < buf.Length ==>
        buf[k] == if at <= k < at + n then src[k - at] else old(buf[k])
    {
      buf[at + n] := src[n];
      n := n + 1;
    }
    assert NoZero(src[..n]);
    PrecisionStop(src, p, n);
    assert buf[..] == Spliced(old(buf[..]), at, src[..n]);
  }

  /** Where `%.*s` stops: at the precision, or earlier at a NUL. */
  lemma PrecisionStop(src: seq<byte>, p: nat, n: nat)
    requires n <= p <= |src| && NoZero(src[..n])
    requires n < p ==> src[n] == 0
    ensures CString(src[..p]) == src[..n]
  {
    if n == p {
      CStringOfZeroFree(src[..p]);
    } else {
      assert src[..p] == src[..n] + src[n..p];
      CStringOfTerminated(src[..n], src[n..p]);
    }
  }
}
