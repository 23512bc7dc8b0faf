/** How JSON.stringify prints a string, and why the printed string can be read back (section 7 of RFC 8259). */
module JsonStrings {
  import opened Json

  predicate IsLead(u: Unit) {
    0xD800 <= u <= 0xDBFF
  }

  predicate IsTrail(u: Unit) {
    0xDC00 <= u <= 0xDFFF
  }

  /** Lower-case hexadecimal digit. */
  function Hex(d: int): Unit
    requires 0 <= d < 16
  {
    if d < 10 then 48 + d else 87 + d
  }

  function HexValue(u: Unit): int {
    if IsDigit(u) then u - 48 else u - 87
  }

  function UnicodeEscape(u: Unit): Text {
    [BACKSLASH, 117, Hex(u / 4096), Hex(u / 256 % 16), Hex(u / 16 % 16), Hex(u % 16)]
  }

  /** The letter of a two-character escape, or 0. */
  function ShortEscape(u: Unit): Unit {
    if u == 8 then 98 else if u == 9 then 116 else if u == 10 then 110 else if u == 12 then 102 else if u == 13 then 114
    else if u == QUOTE || u == BACKSLASH then u else 0
  }

  function EscapeUnit(u: Unit): Text {
    if ShortEscape(u) != 0 then [BACKSLASH, ShortEscape(u)]
    else if u < 32 || IsLead(u) || IsTrail(u) then UnicodeEscape(u)
    else [u]
  }

  /** Surrogate pairs are copied; a surrogate without its partner is escaped. */
  function Escape(s: Text): Text {
    if s == [] then []
    else if |s| >= 2 && IsLead(s[0]) && IsTrail(s[1]) then s[..2] + Escape(s[2..])
    else EscapeUnit(s[0]) + Escape(s[1..])
  }

  function Quote(s: Text): Text {
    [QUOTE] + Escape(s) + [QUOTE]
  }

  // ----- reading back -----

  function Unescape(letter: Unit): Unit {
    if letter == 98 then 8 else if letter == 116 then 9 else if letter == 110 then 10 else if letter == 102 then 12
    else if letter == 114 then 13 else letter
  }

  function Low(x: int): Unit {
    x % 0x1_0000
  }

  /** The content of a string literal up to its closing quote, and what follows the quote. */
  function Read(t: Text): (Text, Text) {
    if t == [] || t[0] == QUOTE then ([], if t == [] then [] else t[1..])
    else if t[0] == BACKSLASH && |t| >= 6 && t[1] == 117 then
      var rest := Read(t[6..]);
      ([Low(HexValue(t[2]) * 4096 + HexValue(t[3]) * 256 + HexValue(t[4]) * 16 + HexValue(t[5]))] + rest.0, rest.1)
    else if t[0] == BACKSLASH && |t| >= 2 then
      var rest := Read(t[2..]);
      ([Unescape(t[1])] + rest.0, rest.1)
    else
      var rest := Read(t[1..]);
      ([t[0]] + rest.0, rest.1)
  }

  lemma HexRoundTrip(u: Unit)
    ensures HexValue(Hex(u / 4096)) * 4096 + HexValue(Hex(u / 256 % 16)) * 256 + HexValue(Hex(u / 16 % 16)) * 16
            + HexValue(Hex(u % 16)) == u
  {
    assert u / 256 == u / 4096 * 16 + u / 256 % 16;
    assert u / 16 == u / 256 * 16 + u / 16 % 16;
    assert u == u / 16 * 16 + u % 16;
  }

  lemma ReadPlain(u: Unit, rest: Text)
    requires u != QUOTE && u != BACKSLASH
    ensures Read([u] + rest) == ([u] + Read(rest).0, Read(rest).1)
  {
    assert ([u] + rest)[1..] == rest;
  }

  lemma ReadShort(letter: Unit, rest: Text)
    requires letter != 117
    ensures Read([BACKSLASH, letter] + rest) == ([Unescape(letter)] + Read(rest).0, Read(rest).1)
  {
    assert ([BACKSLASH, letter] + rest)[2..] == rest;
  }

  lemma ReadUnicode(u: Unit, rest: Text)
    ensures Read(UnicodeEscape(u) + rest) == ([u] + Read(rest).0, Read(rest).1)
  {
    var t := UnicodeEscape(u) + rest;
    assert t[6..] == rest;
    assert t[0] == BACKSLASH && t[1] == 117;
    assert Low(HexValue(t[2]) * 4096 + HexValue(t[3]) * 256 + HexValue(t[4]) * 16 + HexValue(t[5])) == u by {
      HexRoundTrip(u);
    }
  }

  lemma ReadUnit(u: Unit, rest: Text)
    ensures Read(EscapeUnit(u) + rest) == ([u] + Read(rest).0, Read(rest).1)
  {
    if ShortEscape(u) != 0 {
      ReadShort(ShortEscape(u), rest);
    } else if u < 32 || IsLead(u) || IsTrail(u) {
      ReadUnicode(u, rest);
    } else {
      ReadPlain(u, rest);
    }
  }

  lemma ReadPair(a: Unit, b: Unit, rest: Text)
    requires IsLead(a) && IsTrail(b)
    ensures Read([a, b] + rest) == ([a, b] + Read(rest).0, Read(rest).1)
  {
    ReadPlain(b, rest);
    ReadPlain(a, [b] + rest);
    assert [a, b] + rest == [a] + ([b] + rest);
    assert [a, b] + Read(rest).0 == [a] + ([b] + Read(rest).0);
  }

  lemma ReadEnd(rest: Text)
    ensures Read([QUOTE] + rest) == ([], rest)
  {
    assert ([QUOTE] + rest)[1..] == rest;
  }

  /** Reading a printed string gives back the string and everything after it. */
  lemma {:induction false} ReadQuoted(s: Text, rest: Text)
    ensures Read(Escape(s) + ([QUOTE] + rest)) == (s, rest)
  {
    var tail := [QUOTE] + rest;
    if s == [] {
      ReadEnd(rest);
      assert [] + tail == tail;
    } else {
      var n := if |s| >= 2 && IsLead(s[0]) && IsTrail(s[1]) then 2 else 1;
      var first := if n == 2 then s[..2] else EscapeUnit(s[0]);
      var inner := Escape(s[n..]) + tail;
      ReadQuoted(s[n..], rest);
      assert (first + Escape(s[n..])) + tail == first + inner;
      assert s == s[..n] + s[n..];
      if n == 2 {
        ReadPair(s[0], s[1], inner);
        assert first == [s[0], s[1]];
      } else {
        ReadUnit(s[0], inner);
        assert s[..1] == [s[0]];
      }
    }
  }

  /** Printed strings are self-delimiting: whatever follows them, they can be told apart. */
  lemma QuoteSelfDelimiting(s: Text, t: Text, x: Text, y: Text)
    requires Quote(s) + x == Quote(t) + y
    ensures s == t && x == y
  {
    assert (Quote(s) + x)[1..] == Escape(s) + ([QUOTE] + x);
    assert (Quote(t) + y)[1..] == Escape(t) + ([QUOTE] + y);
    ReadQuoted(s, x);
    ReadQuoted(t, y);
  }

  // ----- well-formed UTF-16 -----

  /** Every surrogate is half of a pair, so encoding the text as UTF-8 loses nothing. */
  predicate Paired(t: Text) {
    if t == [] then true
    else if IsLead(t[0]) then |t| >= 2 && IsTrail(t[1]) && Paired(t[2..])
    else !IsTrail(t[0]) && Paired(t[1..])
  }

  lemma {:induction false} PairedConcat(a: Text, b: Text)
    requires Paired(a) && Paired(b)
    ensures Paired(a + b)
  {
    if a == [] {
      assert a + b == b;
    } else if IsLead(a[0]) {
      PairedConcat(a[2..], b);
      assert (a + b)[2..] == a[2..] + b;
    } else {
      PairedConcat(a[1..], b);
      assert (a + b)[1..] == a[1..] + b;
    }
  }

  lemma {:induction false} PlainIsPaired(t: Text)
    requires forall u | u in t :: !IsLead(u) && !IsTrail(u)
    ensures Paired(t)
  {
    if t != [] {
      PlainIsPaired(t[1..]);
    }
  }

  lemma {:induction false} EscapeIsPaired(s: Text)
    ensures Paired(Escape(s))
  {
    if s == [] {
    } else if |s| >= 2 && IsLead(s[0]) && IsTrail(s[1]) {
      EscapeIsPaired(s[2..]);
      assert (s[..2] + Escape(s[2..]))[2..] == Escape(s[2..]);
    } else {
      EscapeIsPaired(s[1..]);
      PlainIsPaired(EscapeUnit(s[0]));
      PairedConcat(EscapeUnit(s[0]), Escape(s[1..]));
    }
  }

  lemma QuoteIsPaired(s: Text)
    ensures Paired(Quote(s))
  {
    EscapeIsPaired(s);
    PlainIsPaired([QUOTE]);
    PairedConcat([QUOTE], Escape(s));
    PairedConcat([QUOTE] + Escape(s), [QUOTE]);
  }
}
