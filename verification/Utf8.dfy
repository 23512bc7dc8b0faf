/** The UTF-8 encoding (section 3 of RFC 3629) whose length the size limits count. */
module Utf8 {
  import opened Tables
  import opened Json
  import opened JsonStrings
  import opened ResultReferences

  /** The bytes of one code point. */
  function Encode(code: int): seq<int> {
    if code < 0x80 then [code]
    else if code < 0x800 then [0xC0 + code / 64, 0x80 + code % 64]
    else if code < 0x1_0000 then [0xE0 + code / 4096, 0x80 + code / 64 % 64, 0x80 + code % 64]
    else [0xF0 + code / 262144, 0x80 + code / 4096 % 64, 0x80 + code / 64 % 64, 0x80 + code % 64]
  }

  /** The code point at the start of a sequence of bytes. */
  function Decode(bytes: seq<int>): int
    requires bytes != []
  {
    if bytes[0] < 0xC0 || |bytes| < 2 then bytes[0]
    else if bytes[0] < 0xE0 || |bytes| < 3 then (bytes[0] - 0xC0) * 64 + (bytes[1] - 0x80)
    else if bytes[0] < 0xF0 || |bytes| < 4 then
      (bytes[0] - 0xE0) * 4096 + (bytes[1] - 0x80) * 64 + (bytes[2] - 0x80)
    else (bytes[0] - 0xF0) * 262144 + (bytes[1] - 0x80) * 4096 + (bytes[2] - 0x80) * 64 + (bytes[3] - 0x80)
  }

  /** An encoding is read back whatever follows it, and consists of bytes. */
  lemma DecodeEncode(code: int, rest: seq<int>)
    requires 0 <= code < 0x11_0000
    ensures Decode(Encode(code) + rest) == code
    ensures forall b | b in Encode(code) :: 0 <= b < 0x100
  {
    assert code / 4096 == code / 262144 * 64 + code / 4096 % 64;
    assert code / 64 == code / 4096 * 64 + code / 64 % 64;
    assert code == code / 64 * 64 + code % 64;
  }

  /** The bytes of a string. */
  function EncodeString(s: string): seq<int> {
    if s == "" then [] else Encode(s[0] as int) + EncodeString(s[1..])
  }

  lemma {:induction false} BytesAppend(s: string, t: string)
    ensures Bytes(s + t) == Bytes(s) + Bytes(t)
  {
    if t == "" {
      assert s + t == s;
    } else {
      var n := |t| - 1;
      BytesAppend(s, t[..n]);
      assert (s + t)[..|s + t| - 1] == s + t[..n] && (s + t)[|s + t| - 1] == t[n];
    }
  }

  /** What the store counts is the length of the encoding. */
  lemma {:induction false} BytesAreEncoded(s: string)
    ensures Bytes(s) == |EncodeString(s)|
  {
    if s != "" {
      BytesAreEncoded(s[1..]);
      BytesAppend([s[0]], s[1..]);
      assert [s[0]] + s[1..] == s;
      assert Bytes([s[0]]) == BytesOf(s[0] as int) by {
        assert [s[0]][..0] == "";
      }
    }
  }

  /** The code point of a surrogate pair. */
  function PairCode(lead: Unit, trail: Unit): int {
    0x1_0000 + (lead - 0xD800) * 0x400 + (trail - 0xDC00)
  }

  /** The bytes of a text of UTF-16 units; a lone surrogate is replaced by U+FFFD. */
  function EncodeText(t: Text): seq<int> {
    if t == [] then []
    else if |t| >= 2 && 0xD800 <= t[0] <= 0xDBFF && 0xDC00 <= t[1] <= 0xDFFF then
      Encode(PairCode(t[0], t[1])) + EncodeText(t[2..])
    else Encode(if 0xD800 <= t[0] <= 0xDFFF then 0xFFFD else t[0]) + EncodeText(t[1..])
  }

  /** The length that limits paths and resolved payloads is that of the encoding. */
  lemma {:induction false} Utf8LengthIsEncoded(t: Text)
    ensures Utf8Length(t) == |EncodeText(t)|
  {
    if t == [] {
    } else if |t| >= 2 && IsLead(t[0]) && IsTrail(t[1]) {
      Utf8LengthIsEncoded(t[2..]);
    } else {
      Utf8LengthIsEncoded(t[1..]);
    }
  }
}
