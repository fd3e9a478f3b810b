/** Byte-level building blocks of the message-signing model: the C integer
    types it needs, zero-initialised buffers, what a write into a buffer does
    (`memcpy`, `memset`) and what a C string function sees in a buffer. */
module Bytes {

  /** `uint8_t` and `char`. */
  newtype byte = x: int | 0 <= x < 0x100

  /** `uint32_t`, the element type of a key path. */
  newtype uint32 = x: int | 0 <= x < 0x1_0000_0000

  /** `n` zero bytes: a buffer declared with `= {0}`. */
  function Zeros(n: nat): (z: seq<byte>)
    ensures |z| == n
    ensures forall i :: 0 <= i < n ==> z[i] == 0
  {
    seq(n, _ => 0)
  }

  predicate NoZero(s: seq<byte>)
  {
    forall i :: 0 <= i < |s| ==> s[i] != 0
  }

  /** Text made of characters below 256, as the bytes a C string literal holds. */
  function Ascii(s: string): (r: seq<byte>)
    ensures |r| == |s|
  {
    seq(|s|, i requires 0 <= i < |s| => (s[i] as int % 0x100) as byte)
  }

  /** The buffer `s` after the bytes `t` have been written at offset `at`. */
  function Spliced(s: seq<byte>, at: nat, t: seq<byte>): (r: seq<byte>)
    requires at + |t| <= |s|
    ensures |r| == |s|
  {
    s[..at] + t + s[at + |t|..]
  }

  /** Writing right after the filled prefix of a buffer whose rest is still
      zero extends the prefix and leaves the rest zero. */
  lemma WriteAfterPrefix(t: seq<byte>, u: seq<byte>, k: nat)
    requires |u| <= k
    ensures Spliced(t + Zeros(k), |t|, u) == t + u + Zeros(k - |u|)
  {
    var s := t + Zeros(k);
    assert s[..|t|] == t;
    assert s[|t| + |u|..] == Zeros(k - |u|);
  }

  /** What `strlen`, `%s` and a display routine see in a buffer: every byte
      before the first NUL, or all of it when there is none. */
  function CString(s: seq<byte>): (r: seq<byte>)
    ensures NoZero(r)
    ensures |r| <= |s| && r == s[..|r|]
    ensures |r| < |s| ==> s[|r|] == 0
  {
    if s == [] || s[0] == 0 then [] else [s[0]] + CString(s[1..])
  }

  /** A buffer holding zero-free text followed by a NUL reads back as that text. */
  lemma {:induction false} CStringOfTerminated(t: seq<byte>, rest: seq<byte>)
    requires NoZero(t) && rest != [] && rest[0] == 0
    ensures CString(t + rest) == t
  {
    if t != [] {
      assert (t + rest)[1..] == t[1..] + rest;
      CStringOfTerminated(t[1..], rest);
    }
  }

  /** Text without a NUL reads back whole. */
  lemma CStringOfZeroFree(t: seq<byte>)
    requires NoZero(t)
    ensures CString(t) == t
  {
  }

  /** `memcpy(&buf[at], src, |src|)`. */
  method PutBytes(buf: array<byte>, at: nat, src: seq<byte>)
    requires at + |src| <= buf.Length
    modifies buf
    ensures buf[..] == Spliced(old(buf[..]), at, src)
  {
    for i := 0 to |src|
      invariant forall k :: 0 <= k < buf.Length ==>
        buf[k] == if at <= k < at + i then src[k - at] else old(buf[k])
    {
      buf[at + i] := src[i];
    }
    assert buf[..] == Spliced(old(buf[..]), at, src);
  }

  /** `memset(&buf[at], value, count)`. */
  method Fill(buf: array<byte>, at: nat, value: byte, count: nat)
    requires at + count <= buf.Length
    modifies buf
    ensures buf[..] == Spliced(old(buf[..]), at, seq(count, _ => value))
  {
    for i := 0 to count
      invariant forall k :: 0 <= k < buf.Length ==>
        buf[k] == if at <= k < at + i then value else old(buf[k])
    {
      buf[at + i] := value;
    }
    assert buf[..] == Spliced(old(buf[..]), at, seq(count, _ => value));
  }
}
