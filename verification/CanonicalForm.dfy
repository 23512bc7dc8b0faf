/** What a canonical text looks like, without its printer. */
module CanonicalForm {
  import opened Json
  import opened JsonStrings
  import opened Lexicographic
  import opened CanonicalJson

  /** The first unit in which the texts differ is smaller in the first one, or the first one is a proper prefix. */
  ghost predicate UnitsBefore(a: Text, b: Text) {
    exists p :: 0 <= p <= |a| && p < |b| && a[..p] == b[..p] && (p == |a| || a[p] < b[p])
  }

  function Commas(texts: seq<Text>): Text {
    if texts == [] then [] else if |texts| == 1 then texts[0] else texts[0] + [44] + Commas(texts[1..])
  }

  /** `order` names the fields in ascending order of their keys. */
  ghost predicate AscendingKeys(fields: seq<Field>, order: seq<nat>) {
    && |order| == |fields|
    && (forall i | 0 <= i < |order| :: order[i] < |fields|)
    && (forall i, k | 0 <= i < k < |order| :: UnitsBefore(fields[order[i]].key, fields[order[k]].key))
  }

  /** The printed fields of an object, of which the printed values are given. */
  ghost predicate FieldsPrinted(fields: seq<Field>, values: seq<Text>, texts: seq<Text>)
    requires |values| == |fields|
  {
    exists order: seq<nat> ::
      && AscendingKeys(fields, order) && |texts| == |order|
      && forall i | 0 <= i < |order| ::
           texts[i] == [34] + Escape(fields[order[i]].key) + [34, 58] + values[order[i]]
  }

  /**
   * The text of the value: items in order, fields in ascending order of their keys compared unit by unit, and
   * no white space.
   */
  ghost predicate Printed(j: Json, t: Text)
    decreases j
  {
    match j
    case Null => t == [110, 117, 108, 108]
    case Bool(b) => t == if b then [116, 114, 117, 101] else [102, 97, 108, 115, 101]
    case Num(text) => t == text
    case Str(text) => t == [34] + Escape(text) + [34]
    case Arr(items) =>
      exists texts: seq<Text> ::
        && |texts| == |items| && t == [91] + Commas(texts) + [93]
        && forall i | 0 <= i < |items| :: Printed(items[i], texts[i])
    case Obj(fields) =>
      exists values: seq<Text>, texts: seq<Text> ::
        && |values| == |fields| && FieldsPrinted(fields, values, texts) && t == [123] + Commas(texts) + [125]
        && forall k | 0 <= k < |fields| :: Printed(fields[k].value, values[k])
  }

  lemma LessMeans(a: Text, b: Text)
    requires Less(UnitOrder(), a, b)
    ensures UnitsBefore(a, b)
  {
    var p := FirstDifference(UnitOrder(), a, b);
    assert a[..p] == b[..p];
  }

  lemma {:induction false} ListedIsCommas(texts: seq<Text>, close: Unit)
    ensures Listed(texts, close) == Commas(texts) + [close]
  {
    if |texts| > 1 {
      ListedIsCommas(texts[1..], close);
    }
  }

  /** The order in which the fields of an object are printed. */
  lemma PrintingOrder(fields: seq<Field>) returns (order: seq<nat>)
    requires DistinctKeys(fields)
    ensures AscendingKeys(fields, order)
    ensures |order| == |SortedTexts(fields)| && forall i | 0 <= i < |order| ::
              SortedTexts(fields)[i] == FieldText(fields[order[i]].key, Canonical(fields[order[i]].value))
  {
    var sorted := SortEntries(Entries(fields));
    SortAscends(Entries(fields));
    order := [];
    while |order| < |sorted|
      invariant |order| <= |sorted|
      invariant forall i | 0 <= i < |order| :: order[i] < |fields| && sorted[i] == Entries(fields)[order[i]]
    {
      var k := EntryField(fields, |order|);
      order := order + [k];
    }
    forall i, k | 0 <= i < k < |order| ensures UnitsBefore(fields[order[i]].key, fields[order[k]].key) {
      LessMeans(sorted[i].key, sorted[k].key);
    }
  }

  lemma ArrayIsPrinted(items: seq<Json>)
    requires forall i | 0 <= i < |items| :: Printed(items[i], Items(items)[i])
    ensures Printed(Arr(items), Canonical(Arr(items)))
  {
    ListedIsCommas(Items(items), 93);
    assert Canonical(Arr(items)) == [91] + Commas(Items(items)) + [93];
  }

  lemma FieldIsPrinted(key: Text, value: Text)
    ensures FieldText(key, value) == [34] + Escape(key) + [34, 58] + value
  {
  }

  lemma FieldsArePrinted(fields: seq<Field>, values: seq<Text>)
    requires DistinctKeys(fields) && |values| == |fields|
    requires forall k | 0 <= k < |fields| :: values[k] == Canonical(fields[k].value)
    ensures FieldsPrinted(fields, values, SortedTexts(fields))
  {
    var order := PrintingOrder(fields);
    forall i | 0 <= i < |order|
      ensures SortedTexts(fields)[i] == [34] + Escape(fields[order[i]].key) + [34, 58] + values[order[i]]
    {
      FieldIsPrinted(fields[order[i]].key, values[order[i]]);
    }
  }

  lemma ObjectIsPrinted(fields: seq<Field>, values: seq<Text>)
    requires |values| == |fields| && FieldsPrinted(fields, values, SortedTexts(fields))
    requires forall k | 0 <= k < |fields| :: Printed(fields[k].value, values[k])
    ensures Printed(Obj(fields), Canonical(Obj(fields)))
  {
    ObjectText(fields);
  }

  lemma ObjectText(fields: seq<Field>)
    ensures Canonical(Obj(fields)) == [123] + Commas(SortedTexts(fields)) + [125]
  {
    ListedIsCommas(SortedTexts(fields), 125);
  }

  /** The canonical text of a value has that form. */
  lemma {:induction false} CanonicalIsPrinted(j: Json)
    requires WellFormed(j)
    ensures Printed(j, Canonical(j))
    decreases j
  {
    match j {
      case Arr(items) =>
        forall i | 0 <= i < |items| ensures Printed(items[i], Items(items)[i]) {
          CanonicalIsPrinted(items[i]);
        }
        ArrayIsPrinted(items);
      case Obj(fields) =>
        var values := seq(|fields|, k requires 0 <= k < |fields| => Canonical(fields[k].value));
        forall k | 0 <= k < |fields| ensures Printed(fields[k].value, values[k]) {
          CanonicalIsPrinted(fields[k].value);
        }
        FieldsArePrinted(fields, values);
        ObjectIsPrinted(fields, values);
      case _ => ScalarIsPrinted(j);
    }
  }

  lemma ScalarIsPrinted(j: Json)
    requires !j.Arr? && !j.Obj?
    ensures Printed(j, Canonical(j))
  {
  }

  // ----- how strings are escaped -----

  /** A hexadecimal digit, in lower case, and its value. */
  predicate IsHex(u: Unit, value: int) {
    if 0 <= value < 10 then u == 48 + value else 10 <= value < 16 && u == 97 + value - 10
  }

  /** Backslash, u and four digits for the unit. */
  ghost predicate IsUnicodeEscape(t: Text, u: Unit) {
    && |t| == 6 && t[..2] == [92, 117]
    && exists a, b, c, d :: IsHex(t[2], a) && IsHex(t[3], b) && IsHex(t[4], c) && IsHex(t[5], d)
                            && u == a * 4096 + b * 256 + c * 16 + d
  }

  lemma FourDigits(u: Unit)
    ensures IsUnicodeEscape(UnicodeEscape(u), u)
  {
    var a, b, c, d := u / 4096, u / 256 % 16, u / 16 % 16, u % 16;
    var t := UnicodeEscape(u);
    assert IsHex(t[2], a) && IsHex(t[3], b) && IsHex(t[4], c) && IsHex(t[5], d);
    assert u / 16 == u / 256 * 16 + c && u / 256 == a * 16 + b;
  }

  /**
   * Quotation marks, backslashes and five control characters have an escape of two units; the other control
   * characters and lone surrogates are written as backslash, u and four digits; everything else is copied.
   */
  lemma UnitsAreEscaped(u: Unit)
    ensures match u
            case 8 => Escape([u]) == [92, 98]
            case 9 => Escape([u]) == [92, 116]
            case 10 => Escape([u]) == [92, 110]
            case 12 => Escape([u]) == [92, 102]
            case 13 => Escape([u]) == [92, 114]
            case 34 => Escape([u]) == [92, 34]
            case 92 => Escape([u]) == [92, 92]
            case _ => if u < 32 || 0xD800 <= u <= 0xDFFF then IsUnicodeEscape(Escape([u]), u) else Escape([u]) == [u]
  {
    assert [u][1..] == [] && Escape([u]) == EscapeUnit(u) + [];
    assert EscapeUnit(u) + [] == EscapeUnit(u);
    FourDigits(u);
  }

  lemma OneAtATime(s: Text, t: Text)
    requires s != [] && !(|s + t| >= 2 && IsLead(s[0]) && IsTrail((s + t)[1]))
    ensures Escape(s + t) == EscapeUnit(s[0]) + Escape(s[1..] + t)
  {
    assert (s + t)[1..] == s[1..] + t;
  }

  lemma PairAtATime(s: Text, t: Text)
    requires |s| >= 2 && IsLead(s[0]) && IsTrail(s[1])
    ensures Escape(s + t) == s[..2] + Escape(s[2..] + t)
  {
    assert (s + t)[2..] == s[2..] + t && (s + t)[..2] == s[..2];
  }

  lemma Regrouped(a: Text, b: Text, c: Text, whole: Text, first: Text)
    requires whole == a + (b + c) && first == a + b
    ensures whole == first + c
  {
  }

  /** A surrogate pair is copied; elsewhere the parts of a text are escaped one by one. */
  lemma {:induction false} PartsAreEscaped(s: Text, t: Text)
    requires s != [] && t != [] ==> !(0xD800 <= s[|s| - 1] <= 0xDBFF && 0xDC00 <= t[0] <= 0xDFFF)
    ensures Escape(s + t) == Escape(s) + Escape(t)
    ensures |s| == 2 && 0xD800 <= s[0] <= 0xDBFF && 0xDC00 <= s[1] <= 0xDFFF ==> Escape(s) == s
    decreases |s|
  {
    if s == [] {
      assert s + t == t;
    } else {
      var n := if |s| >= 2 && IsLead(s[0]) && IsTrail(s[1]) then 2 else 1;
      var head := if n == 2 then s[..2] else EscapeUnit(s[0]);
      PartsAreEscaped(s[n..], t);
      assert s + [] == s && s[n..] + [] == s[n..];
      if n == 2 {
        PairAtATime(s, t);
        PairAtATime(s, []);
      } else {
        OneAtATime(s, t);
        OneAtATime(s, []);
      }
      Regrouped(head, Escape(s[n..]), Escape(t), Escape(s + t), Escape(s));
    }
  }
}
