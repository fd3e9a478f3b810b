/** What `app_eth_sign_msg` builds from the payload before anything is signed:
    the EIP-191 "personal message" preimage that is hashed, the
    classification of the payload as printable or not, and the bounded
    display body and title the user confirms. Each is a specification
    function with its properties, and a method that fills the source's
    fixed-size buffer in place and is proved to produce it. */
module EthMessage {
  import opened Bytes
  import opened Format

  /** The largest payload the request may carry. */
  const MaxPayload: nat := 1024

  /** `"\x19" "Ethereum Signed Message:\n"`, 26 bytes without its terminator. */
  const Header: seq<byte> := [0x19] + Ascii("Ethereum Signed Message:\n")

  /** The most digits the decimal length of an accepted payload can have. */
  const MaxLengthDigits: nat := 4

  /** Size of the `msg` buffer: header, the payload's capacity and four digits. */
  const PreimageCapacity: nat := |Header| + MaxPayload + MaxLengthDigits

  /** Size of the `body` buffer: 64 characters, an ellipsis and a terminator. */
  const BodyCapacity: nat := 64 + 3 + 1

  const Ellipsis: seq<byte> := [0x2e, 0x2e, 0x2e]

  const MessageTitle: seq<byte> := Ascii("Sign\nETH Message")
  const HexMessageTitle: seq<byte> := Ascii("Sign\nETH Message (hex)")

  // ---------------------------------------------------------------------------
  // The preimage

  /** The bytes that are hashed: header, decimal length, payload. */
  function Preimage(msg: seq<byte>): (r: seq<byte>)
    ensures |Header| + |msg| < |r|
    ensures r[..|Header|] == Header && r[|r| - |msg|..] == msg
  {
    Header + Decimal(|msg|) + msg
  }

  /** Where the payload starts in the preimage: the value `snprintf` returns. */
  function PayloadOffset(msg: seq<byte>): nat
  {
    |Header| + |Decimal(|msg|)|
  }

  /** The preimage holds the header, then the length in one to four digits,
      then the payload, and never needs more than the `msg` buffer offers;
      it fills that buffer exactly when the payload has the largest size. */
  lemma PreimageLayout(msg: seq<byte>)
    requires |msg| <= MaxPayload
    ensures |Header| == 26
    ensures |Header| + 1 <= PayloadOffset(msg) <= |Header| + MaxLengthDigits
    ensures Preimage(msg)[..|Header|] == Header
    ensures AllDigits(Preimage(msg)[|Header|..PayloadOffset(msg)])
    ensures ParseDecimal(Preimage(msg)[|Header|..PayloadOffset(msg)]) == |msg|
    ensures Preimage(msg)[PayloadOffset(msg)..] == msg
    ensures |Preimage(msg)| == PayloadOffset(msg) + |msg| <= PreimageCapacity
    ensures |Preimage(msg)| == PreimageCapacity <==> |msg| == MaxPayload
  {
    var p := Preimage(msg);
    assert p[..|Header|] == Header;
    assert p[|Header|..PayloadOffset(msg)] == Decimal(|msg|);
    assert p[PayloadOffset(msg)..] == msg;
    DecimalRoundTrip(|msg|);
    DecimalLengthBound(|msg|, MaxLengthDigits);
    if |msg| == MaxPayload {
      assert Decimal(1024) == Decimal(102) + [DigitChar(4)];
      assert Decimal(102) == Decimal(10) + [DigitChar(2)];
      assert Decimal(10) == Decimal(1) + [DigitChar(0)];
    } else {
      assert |msg| < 1000 ==> |Decimal(|msg|)| <= 3 by {
        if |msg| < 1000 {
          DecimalLengthBound(|msg|, 3);
        }
      }
    }
  }

  /** The used part of the `msg` buffer never exceeds its capacity. */
  lemma PreimageFits(msg: seq<byte>)
    requires |msg| <= MaxPayload
    ensures |Preimage(msg)| == PayloadOffset(msg) + |msg| <= PreimageCapacity
  {
    DecimalLengthBound(|msg|, MaxLengthDigits);
  }

  /** Distinct payloads have distinct preimages: the decimal length prefix
      leaves no two ways to split a preimage into length and payload. */
  lemma PreimageInjective(a: seq<byte>, b: seq<byte>)
    requires Preimage(a) == Preimage(b)
    ensures a == b
  {
    if |a| <= |b| {
      DecimalLengthMonotone(|a|, |b|);
    } else {
      DecimalLengthMonotone(|b|, |a|);
    }
    assert |a| == |b|;
    assert a == Preimage(a)[PayloadOffset(a)..];
    assert b == Preimage(b)[PayloadOffset(b)..];
  }

  /** Fills a fresh zero-initialised `msg` buffer with the header and the
      decimal length and copies the payload behind them. The buffer then
      holds the preimage and nothing but zeros after it. */
  method BuildPreimage(msg: seq<byte>) returns (buf: array<byte>, payloadOffset: nat)
    requires |msg| <= MaxPayload
    ensures buf.Length == PreimageCapacity
    ensures payloadOffset == PayloadOffset(msg)
    ensures payloadOffset + |msg| <= buf.Length
    ensures buf[..] == Preimage(msg) + Zeros(PreimageCapacity - |Preimage(msg)|)
  {
    buf := new byte[PreimageCapacity](_ => 0);
    payloadOffset := PutHeader(buf, |msg|);
    // memcpy(&msg[payload_offset], request->msg.bytes, request->msg.size)
    PutBytes(buf, payloadOffset, msg);
    WriteAfterPrefix(Header + Decimal(|msg|), msg, PreimageCapacity - payloadOffset);
    assert Header + Decimal(|msg|) + msg == Preimage(msg);
  }

  /** `snprintf(msg, sizeof(msg), "%s%d", msg_header, size)` on a zeroed
      buffer: the header, the decimal size and a terminator; it returns the
      number of characters written. */
  method PutHeader(buf: array<byte>, size: nat) returns (written: nat)
    requires size <= MaxPayload
    requires buf.Length == PreimageCapacity && buf[..] == Zeros(PreimageCapacity)
    modifies buf
    ensures written == |Header| + |Decimal(size)| && written + size <= buf.Length
    ensures buf[..] == Header + Decimal(size) + Zeros(PreimageCapacity - written)
  {
    var digits := Decimal(size);
    DecimalLengthBound(size, MaxLengthDigits);
    assert |Header| == 26;
    var capacity := PreimageCapacity;
    assert buf[..] == [] + Zeros(capacity);
    PutBytes(buf, 0, Header);
    WriteAfterPrefix([], Header, capacity);
    assert buf[..] == Header + Zeros(capacity - |Header|);
    PutBytes(buf, |Header|, digits);
    WriteAfterPrefix(Header, digits, capacity - |Header|);
    written := |Header| + |digits|;
    ghost var formatted := buf[..];
    assert formatted[written] == 0;
    buf[written] := 0;
    assert buf[..] == formatted;
  }

  // ---------------------------------------------------------------------------
  // Classification

  /** The byte test the signing code applies, with its bounds as written:
      decimal 20 to 127, both included. */
  predicate Printable(b: byte)
  {
    20 <= b <= 127
  }

  /** Every byte of the payload passes the test. Such a payload has no NUL
      byte, so a `%s`-style conversion of it prints all of it. */
  predicate AllAscii(msg: seq<byte>): (r: bool)
    ensures r ==> NoZero(msg)
  {
    forall i :: 0 <= i < |msg| ==> Printable(msg[i])
  }

  /** The classification loop: it clears the flag at every byte outside the
      range and never stops early. */
  method ClassifyAscii(msg: seq<byte>) returns (allAscii: bool)
    ensures allAscii <==> AllAscii(msg)
  {
    allAscii := true;
    for i := 0 to |msg|
      invariant allAscii <==> forall j :: 0 <= j < i ==> Printable(msg[j])
    {
      if msg[i] < 20 || msg[i] > 127 {
        allAscii := false;
      }
    }
  }

  // ---------------------------------------------------------------------------
  // The display body and title

  /** The text the body buffer holds, branch by branch as the code builds it;
      `%.32s` and `%.*s` stop early at a NUL, which `CString` captures. */
  function Body(msg: seq<byte>): (r: seq<byte>)
    ensures |r| <= BodyCapacity - 1 && NoZero(r)
  {
    if AllAscii(msg) && |msg| > 67 then
      CString(msg[..32]) + Ellipsis + CString(msg[|msg| - 32..])
    else if !AllAscii(msg) && |msg| > 33 then
      Hex(msg[..16]) + Ellipsis + Hex(msg[|msg| - 16..])
    else if AllAscii(msg) then
      CString(msg)
    else
      Hex(msg)
  }

  /** The title of the content prompt follows the classification. */
  function Title(allAscii: bool): (t: seq<byte>)
    ensures t == MessageTitle <==> allAscii
    ensures !allAscii ==> t == HexMessageTitle
  {
    if allAscii then MessageTitle else HexMessageTitle
  }

  /** The four shapes of the display body. Because a printable payload has
      no NUL, the `%.32s` and `%.*s` conversions print every byte asked for. */
  lemma BodyShapes(msg: seq<byte>)
    ensures AllAscii(msg) && |msg| > 67 ==>
      Body(msg) == msg[..32] + Ellipsis + msg[|msg| - 32..] && |Body(msg)| == 67
    ensures !AllAscii(msg) && |msg| > 33 ==>
      Body(msg) == Hex(msg[..16]) + Ellipsis + Hex(msg[|msg| - 16..]) && |Body(msg)| == 67
    ensures AllAscii(msg) && |msg| <= 67 ==> Body(msg) == msg
    ensures !AllAscii(msg) && |msg| <= 33 ==> Body(msg) == Hex(msg) && |Body(msg)| == 2 * |msg|
  {
    if AllAscii(msg) {
      if |msg| > 67 {
        CStringOfZeroFree(msg[..32]);
        CStringOfZeroFree(msg[|msg| - 32..]);
      } else {
        CStringOfZeroFree(msg);
      }
    }
  }

  /** What a user can read back from a content prompt: the text itself, or
      the bytes behind its hex under the hex title. */
  function ReadBack(title: seq<byte>, body: seq<byte>): seq<byte>
  {
    if title == HexMessageTitle then UnHex(body) else body
  }

  /** A payload short enough not to be elided is shown in full: the title
      and body determine it exactly. */
  lemma ShortPayloadShownInFull(msg: seq<byte>)
    requires AllAscii(msg) ==> |msg| <= 67
    requires !AllAscii(msg) ==> |msg| <= 33
    ensures ReadBack(Title(AllAscii(msg)), Body(msg)) == msg
  {
    BodyShapes(msg);
    if !AllAscii(msg) {
      HexRoundTrip(msg);
    }
  }

  /** A longer payload is shown by its two ends, exactly: 32 bytes at each end
      of a printable payload, the hex of 16 bytes at each end otherwise. */
  lemma LongPayloadShowsBothEnds(msg: seq<byte>)
    requires AllAscii(msg) ==> |msg| > 67
    requires !AllAscii(msg) ==> |msg| > 33
    ensures |Body(msg)| == 67 && Body(msg)[32..35] == Ellipsis
    ensures AllAscii(msg) ==> Body(msg)[..32] == msg[..32] && Body(msg)[35..] == msg[|msg| - 32..]
    ensures !AllAscii(msg) ==>
      UnHex(Body(msg)[..32]) == msg[..16] && UnHex(Body(msg)[35..]) == msg[|msg| - 16..]
  {
    BodyShapes(msg);
    var b := Body(msg);
    if AllAscii(msg) {
      assert b[..32] == msg[..32];
      assert b[35..] == msg[|msg| - 32..];
    } else {
      assert b[..32] == Hex(msg[..16]);
      assert b[35..] == Hex(msg[|msg| - 16..]);
      HexRoundTrip(msg[..16]);
      HexRoundTrip(msg[|msg| - 16..]);
    }
  }

  /** The five-byte payload "hello": preimage, display body and title. */
  lemma HelloExample()
    ensures Preimage(Ascii("hello")) == Header + [0x35] + Ascii("hello")
    ensures Body(Ascii("hello")) == Ascii("hello")
    ensures Title(AllAscii(Ascii("hello"))) == MessageTitle
  {
    var hello := Ascii("hello");
    assert AllAscii(hello);
    BodyShapes(hello);
  }

  /** Fills a fresh zero-initialised `body` buffer by the four branches of the
      code. Every write stays inside the 68 bytes and the text is followed by
      zeros, so the prompt reads exactly `Body(msg)`. */
  method BuildBody(msg: seq<byte>, allAscii: bool) returns (body: array<byte>)
    requires allAscii <==> AllAscii(msg)
    ensures body.Length == BodyCapacity
    ensures body[..] == Body(msg) + Zeros(BodyCapacity - |Body(msg)|)
    ensures CString(body[..]) == Body(msg)
  {
    body := new byte[BodyCapacity](_ => 0);
    if allAscii && |msg| > 67 {
      PutElidedText(body, msg);
    } else if !allAscii && |msg| > 33 {
      PutElidedHex(body, msg);
    } else if allAscii {
      PutText(body, msg);
    } else {
      PutHex(body, 0, msg);
      WriteAfterPrefix([], Hex(msg), BodyCapacity);
    }
    BodyBufferReadsBack(msg);
  }

  /** The body buffer, read as a C string, gives back the display text. */
  lemma BodyBufferReadsBack(msg: seq<byte>)
    ensures CString(Body(msg) + Zeros(BodyCapacity - |Body(msg)|)) == Body(msg)
  {
    CStringOfTerminated(Body(msg), Zeros(BodyCapacity - |Body(msg)|));
  }

  /** `snprintf(body, sizeof(body), "%.32s...%.32s", msg, &msg[size - 32])`. */
  method PutElidedText(body: array<byte>, msg: seq<byte>)
    requires AllAscii(msg) && |msg| > 67
    requires body.Length == BodyCapacity && body[..] == Zeros(BodyCapacity)
    modifies body
    ensures body[..] == Body(msg) + Zeros(BodyCapacity - |Body(msg)|)
  {
    var capacity := BodyCapacity;
    ghost var head, tail := CString(msg[..32]), CString(msg[|msg| - 32..]);
    assert body[..] == [] + Zeros(capacity);
    var m := PutPrecision(body, 0, msg, 32);
    WriteAfterPrefix([], head, capacity);
    assert body[..] == head + Zeros(capacity - m);
    PutBytes(body, m, Ellipsis);
    WriteAfterPrefix(head, Ellipsis, capacity - m);
    assert body[..] == head + Ellipsis + Zeros(capacity - m - 3);
    var n := PutPrecision(body, m + 3, msg[|msg| - 32..], 32);
    assert msg[|msg| - 32..][..32] == msg[|msg| - 32..];
    WriteAfterPrefix(head + Ellipsis, tail, capacity - m - 3);
    assert head + Ellipsis + tail == Body(msg);
    ghost var formatted := body[..];
    assert formatted == Body(msg) + Zeros(capacity - m - 3 - n);
    assert formatted[m + 3 + n] == 0;
    body[m + 3 + n] := 0;
    assert body[..] == formatted;
  }

  /** `util_uint8_to_hex` of the first 16 bytes, `memset` of three dots at
      offset 32, `util_uint8_to_hex` of the last 16 bytes at offset 35. */
  method PutElidedHex(body: array<byte>, msg: seq<byte>)
    requires !AllAscii(msg) && |msg| > 33
    requires body.Length == BodyCapacity && body[..] == Zeros(BodyCapacity)
    modifies body
    ensures body[..] == Body(msg) + Zeros(BodyCapacity - |Body(msg)|)
  {
    var capacity := BodyCapacity;
    ghost var head, tail := Hex(msg[..16]), Hex(msg[|msg| - 16..]);
    assert body[..] == [] + Zeros(capacity);
    PutHex(body, 0, msg[..16]);
    WriteAfterPrefix([], head, capacity);
    assert body[..] == head + Zeros(capacity - 32);
    Fill(body, 32, 0x2e, 3);
    assert seq(3, _ => 0x2e as byte) == Ellipsis;
    WriteAfterPrefix(head, Ellipsis, capacity - 32);
    assert body[..] == head + Ellipsis + Zeros(capacity - 35);
    PutHex(body, 35, msg[|msg| - 16..]);
    WriteAfterPrefix(head + Ellipsis, tail, capacity - 35);
  }

  /** `snprintf(body, sizeof(body), "%.*s", size, msg)`. */
  method PutText(body: array<byte>, msg: seq<byte>)
    requires AllAscii(msg) && |msg| <= 67
    requires body.Length == BodyCapacity && body[..] == Zeros(BodyCapacity)
    modifies body
    ensures body[..] == Body(msg) + Zeros(BodyCapacity - |Body(msg)|)
  {
    var capacity := BodyCapacity;
    assert body[..] == [] + Zeros(capacity);
    var n := PutPrecision(body, 0, msg, |msg|);
    assert msg[..|msg|] == msg;
    WriteAfterPrefix([], CString(msg), capacity);
    assert [] + CString(msg) == CString(msg) == Body(msg);
    ghost var formatted := body[..];
    assert formatted == Body(msg) + Zeros(capacity - n);
    assert formatted[n] == 0;
    body[n] := 0;
    assert body[..] == formatted;
  }
}
