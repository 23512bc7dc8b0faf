/** The canonical printer behind the idempotency fingerprint, and what equality of its output means. */
module CanonicalJson {
  import opened Json
  import opened JsonStrings
  import opened Lexicographic
  import opened Sorting

  /** One printed field: its key and its text `"key":value`. */
  datatype Entry = Entry(key: Text, text: Text)

  function UnitOrder(): Unit -> int {
    (u: Unit) => u
  }

  function KeyBefore(): (Entry, Entry) -> bool {
    (e: Entry, f: Entry) => Less(UnitOrder(), e.key, f.key)
  }

  function SortEntries(entries: seq<Entry>): (r: seq<Entry>)
    ensures forall x :: x in r <==> x in entries
    ensures |r| == |entries|
  {
    SameMembers(KeyBefore(), entries);
    Sort(KeyBefore(), entries)
  }

  /** The texts separated by commas and ended by `close`. */
  function Listed(texts: seq<Text>, close: Unit): Text {
    if texts == [] then [close]
    else if |texts| == 1 then texts[0] + [close]
    else texts[0] + ([COMMA] + Listed(texts[1..], close))
  }

  function Texts(entries: seq<Entry>): seq<Text> {
    seq(|entries|, i requires 0 <= i < |entries| => entries[i].text)
  }

  const NULL_TEXT: Text := [110, 117, 108, 108]
  const TRUE_TEXT: Text := [116, 114, 117, 101]
  const FALSE_TEXT: Text := [102, 97, 108, 115, 101]

  function Canonical(j: Json): Text {
    match j
    case Null => NULL_TEXT
    case Bool(b) => if b then TRUE_TEXT else FALSE_TEXT
    case Num(t) => t
    case Str(s) => Quote(s)
    case Arr(items) =>
      [OPEN_BRACKET] + Listed(seq(|items|, i requires 0 <= i < |items| => Canonical(items[i])), CLOSE_BRACKET)
    case Obj(fields) => [OPEN_BRACE] + Listed(Texts(SortEntries(Entries(fields))), CLOSE_BRACE)
  }

  function FieldText(key: Text, value: Text): Text {
    Quote(key) + ([COLON] + value)
  }

  function Entries(fields: seq<Field>): seq<Entry> {
    seq(|fields|, i requires 0 <= i < |fields| =>
      Entry(fields[i].key, FieldText(fields[i].key, Canonical(fields[i].value))))
  }

  // ----- sorting by key -----

  ghost predicate KeysAscend(entries: seq<Entry>) {
    forall i, j | 0 <= i < j < |entries| :: Less(UnitOrder(), entries[i].key, entries[j].key)
  }

  lemma SortAscends(entries: seq<Entry>)
    requires forall i, j | 0 <= i < j < |entries| :: entries[i].key != entries[j].key
    ensures KeysAscend(SortEntries(entries))
  {
    forall x, y | x in entries && y in entries ensures KeyBefore()(x, y) || x == y || KeyBefore()(y, x) {
      LessIsTotal(UnitOrder(), x.key, y.key);
    }
    forall x, y, z | x in entries && y in entries && z in entries && KeyBefore()(x, y) && KeyBefore()(y, z)
      ensures KeyBefore()(x, z)
    {
      LessIsTransitive(UnitOrder(), x.key, y.key, z.key);
    }
    SortSorts(KeyBefore(), entries, entries);
    SortKeepsDistinct(KeyBefore(), entries);
  }

  /** An ascending list is determined by what is in it. */
  lemma {:induction false} AscendingIsUnique(a: seq<Entry>, b: seq<Entry>)
    requires |a| == |b| && KeysAscend(a) && KeysAscend(b) && forall x :: x in a <==> x in b
    ensures a == b
  {
    if a != [] {
      assert a[0] in b;
      assert b[0] in a;
      LessIsTotal(UnitOrder(), a[0].key, b[0].key);
      assert a[0] == b[0];
      forall x ensures x in a[1..] <==> x in b[1..] {
        LessIsTotal(UnitOrder(), a[0].key, a[0].key);
        assert x in a[1..] ==> x in a && x.key != a[0].key;
        assert x in b[1..] ==> x in b && x.key != b[0].key;
      }
      AscendingIsUnique(a[1..], b[1..]);
      assert a == [a[0]] + a[1..] && b == [b[0]] + b[1..];
    }
  }

  // ----- self-delimiting texts -----

  /** What may follow a printed value. */
  predicate AfterValue(t: Text) {
    t == [] || t[0] == COMMA || t[0] == CLOSE_BRACKET || t[0] == CLOSE_BRACE
  }

  /** With something after them that may follow a value, the two texts are told apart. */
  ghost predicate Apart(t: Text, u: Text) {
    forall x, y | AfterValue(x) && AfterValue(y) && t + x == u + y :: t == u && x == y
  }

  /** A text that can stand in a list: not empty, and not starting like what may follow a value. */
  predicate Starts(t: Text) {
    t != [] && !AfterValue(t)
  }

  function AfterFirst(texts: seq<Text>, close: Unit): Text
    requires texts != []
  {
    if |texts| == 1 then [close] else [COMMA] + Listed(texts[1..], close)
  }

  lemma ListedSplits(texts: seq<Text>, close: Unit, x: Text)
    requires texts != []
    ensures Listed(texts, close) + x == texts[0] + (AfterFirst(texts, close) + x)
  {
  }

  lemma ListedHead(texts: seq<Text>, close: Unit, x: Text)
    requires texts == [] || Starts(texts[0])
    ensures Listed(texts, close) + x != []
    ensures (Listed(texts, close) + x)[0] == if texts == [] then close else texts[0][0]
    ensures texts == [] ==> (Listed(texts, close) + x)[1..] == x
  {
  }

  lemma AfterFirstHead(texts: seq<Text>, close: Unit, x: Text)
    requires texts != []
    ensures (AfterFirst(texts, close) + x)[0] == if |texts| == 1 then close else COMMA
    ensures (AfterFirst(texts, close) + x)[1..] == if |texts| == 1 then x else Listed(texts[1..], close) + x
  {
  }

  /** Lists of texts that are pairwise apart are told apart by their printed forms. */
  lemma {:induction false} ListsApart(a: seq<Text>, b: seq<Text>, close: Unit, x: Text, y: Text)
    requires close == CLOSE_BRACKET || close == CLOSE_BRACE
    requires forall i, j | 0 <= i < |a| && 0 <= j < |b| :: Apart(a[i], b[j])
    requires (forall i | 0 <= i < |a| :: Starts(a[i])) && forall j | 0 <= j < |b| :: Starts(b[j])
    requires Listed(a, close) + x == Listed(b, close) + y
    ensures a == b && x == y
  {
    ListedHead(a, close, x);
    ListedHead(b, close, y);
    if a != [] && b != [] {
      ListedSplits(a, close, x);
      ListedSplits(b, close, y);
      AfterFirstHead(a, close, x);
      AfterFirstHead(b, close, y);
      assert Apart(a[0], b[0]);
      if |a| > 1 && |b| > 1 {
        ListsApart(a[1..], b[1..], close, x, y);
      }
      assert a == [a[0]] + a[1..] && b == [b[0]] + b[1..];
    }
  }

  lemma FirstUnit(j: Json)
    requires WellFormed(j)
    ensures Starts(Canonical(j))
    ensures Canonical(j)[0] == match j
                               case Null => 110
                               case Bool(b) => (if b then 116 else 102)
                               case Num(t) => t[0]
                               case Str(_) => QUOTE
                               case Arr(_) => OPEN_BRACKET
                               case Obj(_) => OPEN_BRACE
  {
  }

  function NumberLength(t: Text): nat {
    if t == [] || !IsNumberUnit(t[0]) then 0 else 1 + NumberLength(t[1..])
  }

  lemma {:induction false} NumberEnds(t: Text, x: Text)
    requires (forall u | u in t :: IsNumberUnit(u)) && AfterValue(x)
    ensures NumberLength(t + x) == |t|
  {
    if t == [] {
      assert t + x == x;
    } else {
      NumberEnds(t[1..], x);
      assert (t + x)[1..] == t[1..] + x;
    }
  }

  lemma NumbersApart(t: Text, u: Text, x: Text, y: Text)
    requires IsNumberText(t) && IsNumberText(u) && AfterValue(x) && AfterValue(y) && t + x == u + y
    ensures t == u && x == y
  {
    NumberEnds(t, x);
    NumberEnds(u, y);
    SameLength(t, u, x, y);
  }

  lemma FieldSplits(key: Text, value: Text, x: Text)
    ensures FieldText(key, value) + x == Quote(key) + ([COLON] + (value + x))
  {
  }

  lemma FieldsAgree(k: Text, v: Text, l: Text, w: Text, x: Text, y: Text)
    requires FieldText(k, v) + x == FieldText(l, w) + y
    ensures k == l && v + x == w + y
  {
    FieldSplits(k, v, x);
    FieldSplits(l, w, y);
    QuoteSelfDelimiting(k, l, [COLON] + (v + x), [COLON] + (w + y));
    assert ([COLON] + (v + x))[1..] == v + x && ([COLON] + (w + y))[1..] == w + y;
  }

  lemma FieldsApart(k: Text, v: Text, l: Text, w: Text)
    requires Apart(v, w)
    ensures Apart(FieldText(k, v), FieldText(l, w))
  {
    forall x, y | AfterValue(x) && AfterValue(y) && FieldText(k, v) + x == FieldText(l, w) + y
      ensures FieldText(k, v) == FieldText(l, w) && x == y
    {
      FieldsAgree(k, v, l, w, x, y);
    }
  }

  /** Printed values are self-delimiting. */
  lemma {:induction false} ValuesApart(a: Json, b: Json)
    requires WellFormed(a) && WellFormed(b)
    ensures Apart(Canonical(a), Canonical(b))
    decreases a
  {
    forall x, y | AfterValue(x) && AfterValue(y) && Canonical(a) + x == Canonical(b) + y
      ensures Canonical(a) == Canonical(b) && x == y
    {
      FirstUnit(a);
      FirstUnit(b);
      assert (Canonical(a) + x)[0] == Canonical(a)[0] && (Canonical(b) + y)[0] == Canonical(b)[0];
      match a {
        case Null => SameLength(Canonical(a), Canonical(b), x, y);
        case Bool(_) => SameLength(Canonical(a), Canonical(b), x, y);
        case Num(t) => NumbersApart(t, b.text, x, y);
        case Str(s) => QuoteSelfDelimiting(s, b.text, x, y);
        case Arr(items) => ArraysApart(items, b.items, x, y);
        case Obj(fields) => ObjectsApart(fields, b.fields, x, y);
      }
    }
  }

  lemma SameLength(t: Text, u: Text, x: Text, y: Text)
    requires |t| == |u| && t + x == u + y
    ensures t == u && x == y
  {
    assert t == (t + x)[..|t|] && u == (u + y)[..|t|];
    assert x == (t + x)[|t|..] && y == (u + y)[|t|..];
  }

  function Items(items: seq<Json>): seq<Text> {
    seq(|items|, i requires 0 <= i < |items| => Canonical(items[i]))
  }

  lemma ArraysApart(xs: seq<Json>, ys: seq<Json>, x: Text, y: Text)
    requires WellFormed(Arr(xs)) && WellFormed(Arr(ys)) && Canonical(Arr(xs)) + x == Canonical(Arr(ys)) + y
    ensures Items(xs) == Items(ys) && x == y
    decreases xs
  {
    var a, b := Items(xs), Items(ys);
    forall i, j | 0 <= i < |a| && 0 <= j < |b| ensures Apart(a[i], b[j]) {
      ValuesApart(xs[i], ys[j]);
    }
    ItemsStart(xs);
    ItemsStart(ys);
    DropFirst(OPEN_BRACKET, Listed(a, CLOSE_BRACKET), x);
    DropFirst(OPEN_BRACKET, Listed(b, CLOSE_BRACKET), y);
    ListsApart(a, b, CLOSE_BRACKET, x, y);
  }

  lemma ItemsStart(items: seq<Json>)
    requires WellFormed(Arr(items))
    ensures forall i | 0 <= i < |items| :: Starts(Items(items)[i])
  {
    forall i | 0 <= i < |items| ensures Starts(Items(items)[i]) { FirstUnit(items[i]); }
  }

  lemma DropFirst(u: Unit, t: Text, x: Text)
    ensures ([u] + t + x)[1..] == t + x
  {
  }

  function SortedTexts(fields: seq<Field>): seq<Text> {
    Texts(SortEntries(Entries(fields)))
  }

  lemma SortedTextsApart(fs: seq<Field>, gs: seq<Field>)
    requires WellFormed(Obj(fs)) && WellFormed(Obj(gs))
    ensures forall i, j | 0 <= i < |SortedTexts(fs)| && 0 <= j < |SortedTexts(gs)| ::
              Apart(SortedTexts(fs)[i], SortedTexts(gs)[j])
    decreases fs, 0
  {
    forall i, j | 0 <= i < |SortedTexts(fs)| && 0 <= j < |SortedTexts(gs)|
      ensures Apart(SortedTexts(fs)[i], SortedTexts(gs)[j])
    {
      var k := EntryField(fs, i);
      var l := EntryField(gs, j);
      ValuesApart(fs[k].value, gs[l].value);
      FieldsApart(fs[k].key, Canonical(fs[k].value), gs[l].key, Canonical(gs[l].value));
    }
  }

  lemma ObjectsApart(fs: seq<Field>, gs: seq<Field>, x: Text, y: Text)
    requires WellFormed(Obj(fs)) && WellFormed(Obj(gs)) && Canonical(Obj(fs)) + x == Canonical(Obj(gs)) + y
    ensures SortedTexts(fs) == SortedTexts(gs) && x == y
    decreases fs, 1
  {
    var a, b := SortedTexts(fs), SortedTexts(gs);
    SortedTextsApart(fs, gs);
    SortedTextsStart(fs);
    SortedTextsStart(gs);
    DropFirst(OPEN_BRACE, Listed(a, CLOSE_BRACE), x);
    DropFirst(OPEN_BRACE, Listed(b, CLOSE_BRACE), y);
    ListsApart(a, b, CLOSE_BRACE, x, y);
  }

  lemma SortedTextsStart(fs: seq<Field>)
    ensures forall i | 0 <= i < |SortedTexts(fs)| :: Starts(SortedTexts(fs)[i])
  {
    forall i | 0 <= i < |SortedTexts(fs)| ensures Starts(SortedTexts(fs)[i]) { var k := EntryField(fs, i); }
  }

  /** The field a sorted entry was printed from. */
  lemma EntryField(fs: seq<Field>, i: nat) returns (k: nat)
    requires i < |SortEntries(Entries(fs))|
    ensures k < |fs| && SortEntries(Entries(fs))[i] == Entries(fs)[k]
    ensures SortedTexts(fs)[i] == FieldText(fs[k].key, Canonical(fs[k].value)) && Starts(SortedTexts(fs)[i])
  {
    assert SortEntries(Entries(fs))[i] in Entries(fs);
    k :| 0 <= k < |fs| && Entries(fs)[k] == SortEntries(Entries(fs))[i];
  }

  // ----- what equal output means -----

  /** Equal canonical texts come from equal values. */
  lemma {:induction false} EqualTextsMeanSame(a: Json, b: Json)
    requires WellFormed(a) && WellFormed(b) && Canonical(a) == Canonical(b)
    ensures Same(a, b)
    decreases a
  {
    FirstUnit(a);
    FirstUnit(b);
    match a
    case Null =>
    case Bool(_) =>
    case Num(_) =>
    case Str(s) => QuoteSelfDelimiting(s, b.text, [], []);
    case Arr(items) =>
      ArraysApart(items, b.items, [], []);
      forall i | 0 <= i < |items| ensures Same(items[i], b.items[i]) {
        assert Items(items)[i] == Items(b.items)[i];
        EqualTextsMeanSame(items[i], b.items[i]);
      }
    case Obj(fs) => EqualObjectsMeanSame(fs, b.fields);
  }

  lemma EqualObjectsMeanSame(fs: seq<Field>, gs: seq<Field>)
    requires WellFormed(Obj(fs)) && WellFormed(Obj(gs)) && Canonical(Obj(fs)) == Canonical(Obj(gs))
    ensures Same(Obj(fs), Obj(gs))
    decreases fs
  {
    ObjectsApart(fs, gs, [], []);
    EqualTextsSameKeys(fs, gs);
    EqualTextsSameKeys(gs, fs);
    assert Keys(fs) == Keys(gs);
    forall i, k | 0 <= i < |fs| && 0 <= k < |gs| && fs[i].key == gs[k].key ensures Same(fs[i].value, gs[k].value) {
      var l := MatchingField(fs, gs, i);
      assert k == l;
      EqualTextsMeanSame(fs[i].value, gs[k].value);
    }
  }

  lemma EqualTextsSameKeys(fs: seq<Field>, gs: seq<Field>)
    requires SortedTexts(fs) == SortedTexts(gs)
    ensures Keys(fs) <= Keys(gs)
  {
    forall i | 0 <= i < |fs| ensures fs[i].key in Keys(gs) {
      var k := MatchingField(fs, gs, i);
    }
  }

  lemma MatchingField(fs: seq<Field>, gs: seq<Field>, i: nat) returns (k: nat)
    requires i < |fs| && SortedTexts(fs) == SortedTexts(gs)
    ensures k < |gs| && fs[i].key == gs[k].key && Canonical(fs[i].value) == Canonical(gs[k].value)
  {
    assert Entries(fs)[i] in SortEntries(Entries(fs));
    var p :| 0 <= p < |SortEntries(Entries(fs))| && SortEntries(Entries(fs))[p] == Entries(fs)[i];
    assert SortedTexts(fs)[p] == SortedTexts(gs)[p];
    k := EntryField(gs, p);
    FieldsAgree(fs[i].key, Canonical(fs[i].value), gs[k].key, Canonical(gs[k].value), [], []);
    assert Canonical(fs[i].value) + [] == Canonical(fs[i].value);
    assert Canonical(gs[k].value) + [] == Canonical(gs[k].value);
  }

  lemma {:induction false} KeyCount(fields: seq<Field>)
    requires DistinctKeys(fields)
    ensures |Keys(fields)| == |fields|
  {
    if fields != [] {
      var n := |fields| - 1;
      KeyCount(fields[..n]);
      assert Keys(fields) == Keys(fields[..n]) + {fields[n].key};
    }
  }

  /** Values that differ only in the order of keys have the same canonical text. */
  lemma {:induction false} SameHaveEqualTexts(a: Json, b: Json)
    requires WellFormed(a) && WellFormed(b) && Same(a, b)
    ensures Canonical(a) == Canonical(b)
    decreases a
  {
    match a
    case Null =>
    case Bool(_) =>
    case Num(_) =>
    case Str(_) =>
    case Arr(items) =>
      forall i | 0 <= i < |items| ensures Canonical(items[i]) == Canonical(b.items[i]) {
        SameHaveEqualTexts(items[i], b.items[i]);
      }
      assert Items(items) == Items(b.items);
    case Obj(fs) => SameObjectsHaveEqualTexts(fs, b.fields);
  }

  lemma SameObjectsHaveEqualTexts(fs: seq<Field>, gs: seq<Field>)
    requires WellFormed(Obj(fs)) && WellFormed(Obj(gs)) && Same(Obj(fs), Obj(gs))
    ensures Canonical(Obj(fs)) == Canonical(Obj(gs))
    decreases fs
  {
    forall i, k | 0 <= i < |fs| && 0 <= k < |gs| && fs[i].key == gs[k].key
      ensures Canonical(fs[i].value) == Canonical(gs[k].value)
    {
      SameHaveEqualTexts(fs[i].value, gs[k].value);
    }
    SameEntries(fs, gs);
    KeyCount(fs);
    KeyCount(gs);
    SortAscends(Entries(fs));
    SortAscends(Entries(gs));
    AscendingIsUnique(SortEntries(Entries(fs)), SortEntries(Entries(gs)));
  }

  lemma SameEntries(fs: seq<Field>, gs: seq<Field>)
    requires Keys(fs) == Keys(gs)
    requires forall i, k | 0 <= i < |fs| && 0 <= k < |gs| && fs[i].key == gs[k].key ::
               Canonical(fs[i].value) == Canonical(gs[k].value)
    ensures forall x :: x in Entries(fs) <==> x in Entries(gs)
  {
    forall i | 0 <= i < |fs| ensures Entries(fs)[i] in Entries(gs) {
      assert fs[i].key in Keys(gs);
      var k :| 0 <= k < |gs| && gs[k].key == fs[i].key;
      assert Entries(gs)[k] == Entries(fs)[i];
    }
    forall k | 0 <= k < |gs| ensures Entries(gs)[k] in Entries(fs) {
      assert gs[k].key in Keys(fs);
      var i :| 0 <= i < |fs| && fs[i].key == gs[k].key;
      assert Entries(fs)[i] == Entries(gs)[k];
    }
  }

  /** The canonical text decides equality up to key order, in both directions. */
  lemma CanonicalDecidesSame(a: Json, b: Json)
    requires WellFormed(a) && WellFormed(b)
    ensures Canonical(a) == Canonical(b) <==> Same(a, b)
  {
    if Canonical(a) == Canonical(b) {
      EqualTextsMeanSame(a, b);
    }
    if Same(a, b) {
      SameHaveEqualTexts(a, b);
    }
  }

  // ----- the output is well-formed UTF-16 -----

  lemma {:induction false} ListedIsPaired(texts: seq<Text>, close: Unit)
    requires (forall i | 0 <= i < |texts| :: Paired(texts[i])) && !IsLead(close) && !IsTrail(close)
    ensures Paired(Listed(texts, close))
  {
    PlainIsPaired([close]);
    PlainIsPaired([COMMA]);
    if |texts| == 1 {
      PairedConcat(texts[0], [close]);
    } else if texts != [] {
      ListedIsPaired(texts[1..], close);
      PairedConcat([COMMA], Listed(texts[1..], close));
      PairedConcat(texts[0], [COMMA] + Listed(texts[1..], close));
    }
  }

  /**
   * Whatever lone surrogates a value contains, its canonical text has none, so hashing its UTF-8 form merges nothing.
   */
  lemma {:induction false} CanonicalIsPaired(j: Json)
    requires WellFormed(j)
    ensures Paired(Canonical(j))
  {
    match j
    case Null => PlainIsPaired(NULL_TEXT);
    case Bool(b) =>
      PlainIsPaired(TRUE_TEXT);
      PlainIsPaired(FALSE_TEXT);
    case Num(t) => PlainIsPaired(t);
    case Str(s) => QuoteIsPaired(s);
    case Arr(items) =>
      forall i | 0 <= i < |items| ensures Paired(Items(items)[i]) {
        CanonicalIsPaired(items[i]);
      }
      ListedIsPaired(Items(items), CLOSE_BRACKET);
      PlainIsPaired([OPEN_BRACKET]);
      PairedConcat([OPEN_BRACKET], Listed(Items(items), CLOSE_BRACKET));
    case Obj(fields) =>
      forall i | 0 <= i < |SortedTexts(fields)| ensures Paired(SortedTexts(fields)[i]) {
        var k := EntryField(fields, i);
        CanonicalIsPaired(fields[k].value);
        QuoteIsPaired(fields[k].key);
        PlainIsPaired([COLON]);
        PairedConcat([COLON], Canonical(fields[k].value));
        PairedConcat(Quote(fields[k].key), [COLON] + Canonical(fields[k].value));
      }
      ListedIsPaired(SortedTexts(fields), CLOSE_BRACE);
      PlainIsPaired([OPEN_BRACE]);
      PairedConcat([OPEN_BRACE], Listed(SortedTexts(fields), CLOSE_BRACE));
  }

  // ----- the request fingerprint -----

  /** The contract a client asks for. */
  datatype Request = Request(kind: Text, queueKind: Text, priority: int, maxRetries: int, payload: Json)

  const CONTRACT_VERSION_KEY: Text := [99, 111, 110, 116, 114, 97, 99, 116, 95, 118, 101, 114, 115, 105, 111, 110]
  const TYPE_KEY: Text := [116, 121, 112, 101]
  const QUEUE_KIND_KEY: Text := [113, 117, 101, 117, 101, 95, 107, 105, 110, 100]
  const PRIORITY_KEY: Text := [112, 114, 105, 111, 114, 105, 116, 121]
  const MAX_RETRIES_KEY: Text := [109, 97, 120, 95, 114, 101, 116, 114, 105, 101, 115]
  const PAYLOAD_KEY: Text := [112, 97, 121, 108, 111, 97, 100]

  function Contract(r: Request): Json {
    Obj([
      Field(CONTRACT_VERSION_KEY, Num(Decimal(1))),
      Field(TYPE_KEY, Str(r.kind)),
      Field(QUEUE_KIND_KEY, Str(r.queueKind)),
      Field(PRIORITY_KEY, Num(Decimal(r.priority))),
      Field(MAX_RETRIES_KEY, Num(Decimal(r.maxRetries))),
      Field(PAYLOAD_KEY, r.payload)])
  }

  ghost predicate SameRequest(a: Request, b: Request) {
    && a.kind == b.kind && a.queueKind == b.queueKind && a.priority == b.priority && a.maxRetries == b.maxRetries
    && Same(a.payload, b.payload)
  }

  /**
   * With a hash of the UTF-8 bytes that is injective where the encoding is, on well-formed UTF-16, two requests
   * have the same fingerprint if and only if they ask for the same contract.
   */
  lemma FingerprintIsContractEquality<Digest(!new)>(hash: Text -> Digest, a: Request, b: Request)
    requires forall s, t | Paired(s) && Paired(t) :: hash(s) == hash(t) ==> s == t
    requires WellFormed(a.payload) && WellFormed(b.payload)
    ensures hash(Canonical(Contract(a))) == hash(Canonical(Contract(b))) <==> SameRequest(a, b)
  {
    ContractIsWellFormed(a);
    ContractIsWellFormed(b);
    CanonicalIsPaired(Contract(a));
    CanonicalIsPaired(Contract(b));
    CanonicalDecidesSame(Contract(a), Contract(b));
    SameContracts(a, b);
  }

  lemma ContractKeysDistinct(r: Request)
    ensures DistinctKeys(Contract(r).fields)
  {
    assert |CONTRACT_VERSION_KEY| == 16 && |TYPE_KEY| == 4 && |QUEUE_KIND_KEY| == 10 && |PRIORITY_KEY| == 8
           && |MAX_RETRIES_KEY| == 11 && |PAYLOAD_KEY| == 7;
  }

  lemma ContractIsWellFormed(r: Request)
    requires WellFormed(r.payload)
    ensures WellFormed(Contract(r))
  {
    DecimalIsNumberText(1);
    DecimalIsNumberText(r.priority);
    DecimalIsNumberText(r.maxRetries);
    ContractKeysDistinct(r);
  }

  /** Objects with the same keys in the same places are compared place by place. */
  lemma AlignedSame(fs: seq<Field>, gs: seq<Field>)
    requires |fs| == |gs| && DistinctKeys(gs) && forall i | 0 <= i < |fs| :: fs[i].key == gs[i].key
    ensures Same(Obj(fs), Obj(gs)) <==> forall i | 0 <= i < |fs| :: Same(fs[i].value, gs[i].value)
  {
    assert forall x :: x in Keys(fs) <==> x in Keys(gs);
  }

  lemma SameContracts(a: Request, b: Request)
    ensures Same(Contract(a), Contract(b)) <==> SameRequest(a, b)
  {
    var fs, gs := Contract(a).fields, Contract(b).fields;
    ContractKeysDistinct(b);
    AlignedSame(fs, gs);
    SixAligned(fs, gs);
    NumbersSame(1, 1);
    NumbersSame(a.priority, b.priority);
    NumbersSame(a.maxRetries, b.maxRetries);
  }

  lemma SixAligned(fs: seq<Field>, gs: seq<Field>)
    requires |fs| == |gs| == 6
    ensures (forall i | 0 <= i < |fs| :: Same(fs[i].value, gs[i].value)) <==>
            Same(fs[0].value, gs[0].value) && Same(fs[1].value, gs[1].value) && Same(fs[2].value, gs[2].value)
            && Same(fs[3].value, gs[3].value) && Same(fs[4].value, gs[4].value) && Same(fs[5].value, gs[5].value)
  {
  }

  lemma NumbersSame(m: int, n: int)
    ensures Same(Num(Decimal(m)), Num(Decimal(n))) <==> m == n
  {
    if Decimal(m) == Decimal(n) {
      DecimalInjective(m, n);
    }
  }
}
