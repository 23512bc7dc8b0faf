/** Replacing the references of a step's payload by values selected from the results of earlier steps. */
module ResultResolution {
  import opened Tables
  import opened Json
  import opened CanonicalJson
  import opened ResultReferences

  datatype Outcome = Resolved(value: Json) | ReferenceError | ReadError

  /** What the result endpoint answers for a task: its stored projection, or any of its read errors. */
  type Endpoint = int -> Option<seq<Field>>

  // ----- selecting -----

  function Number(t: Text): nat
    requires forall u | u in t :: IsDigit(u)
  {
    if t == [] then 0
    else
      assert IsDigit(t[|t| - 1]);
      Number(t[..|t| - 1]) * 10 + (t[|t| - 1] - 48)
  }

  function Child(v: Json, segment: Text): Option<Json> {
    match v
    case Arr(items) =>
      if IsArrayIndex(segment) && Number(segment) < |items| then Some(items[Number(segment)]) else None
    case Obj(fields) => Get(fields, segment)
    case _ => None
  }

  function Navigate(v: Json, segments: seq<Text>): Option<Json>
    decreases |segments|
  {
    if segments == [] then Some(v)
    else
      match Child(v, segments[0])
      case None => None
      case Some(child) => Navigate(child, segments[1..])
  }

  lemma DigitsAppend(m: nat, d: nat)
    requires d < 10
    ensures m >= 1 ==> Digits(m * 10 + d) == Digits(m) + [48 + d]
  {
    assert (m * 10 + d) / 10 == m && (m * 10 + d) % 10 == d;
  }

  /** An index segment is the decimal text of its number, and of no other. */
  lemma {:induction false} IndexIsDecimal(t: Text)
    requires IsArrayIndex(t)
    ensures Digits(Number(t)) == t && (t[0] != 48 ==> Number(t) >= 1)
  {
    var n := |t| - 1;
    assert t[n] in t && t == t[..n] + [t[n]];
    if n > 0 {
      assert forall u | u in t[..n] :: u in t;
      IndexIsDecimal(t[..n]);
      DigitsAppend(Number(t[..n]), t[n] - 48);
    } else {
      assert t[..0] == [];
    }
  }

  function Pow10(n: nat): (p: nat)
    ensures p >= 1
  {
    if n == 0 then 1 else 10 * Pow10(n - 1)
  }

  lemma {:induction false} DecimalIsIndex(n: nat, most: nat)
    requires n < Pow10(most) && 1 <= most <= 6
    ensures |Digits(n)| <= most && IsArrayIndex(Digits(n)) && Number(Digits(n)) == n
  {
    var t := Digits(n);
    DigitsAreDigits(n);
    if n >= 10 {
      DecimalIsIndex(n / 10, most - 1);
      assert t[..|t| - 1] == Digits(n / 10);
      assert Digits(n / 10)[0] != 48;
    } else {
      assert t[..0] == [];
    }
  }

  /**
   * The segments lead from one value to the other: an element of an array by the decimal text of its position, below
   * a million, and a field of an object by its key.
   */
  ghost predicate Leads(v: Json, segments: seq<Text>, w: Json)
    decreases |segments|
  {
    if segments == [] then v == w
    else
      match v
      case Arr(items) =>
        exists i :: 0 <= i < |items| && i < 1000000 && Digits(i) == segments[0] && Leads(items[i], segments[1..], w)
      case Obj(fields) =>
        exists i :: 0 <= i < |fields| && IsField(fields, i, segments[0]) && Leads(fields[i].value, segments[1..], w)
      case _ => false
  }

  /** The field with this key; no earlier one has it. */
  ghost predicate IsField(fields: seq<Field>, i: int, key: Text)
    requires 0 <= i < |fields|
  {
    fields[i].key == key && forall k | 0 <= k < i :: fields[k].key != key
  }

  lemma {:induction false} GetIsField(fields: seq<Field>, key: Text, i: nat)
    requires i < |fields| && IsField(fields, i, key)
    ensures Get(fields, key) == Some(fields[i].value)
  {
    if i > 0 {
      GetIsField(fields[1..], key, i - 1);
    }
  }

  lemma {:induction false} GetFinds(fields: seq<Field>, key: Text) returns (i: nat)
    requires Get(fields, key).Some?
    ensures i < |fields| && IsField(fields, i, key)
  {
    if fields[0].key == key {
      i := 0;
    } else {
      i := GetFinds(fields[1..], key);
      i := i + 1;
    }
  }

  lemma IndexBelowMillion(t: Text)
    requires IsArrayIndex(t)
    ensures Number(t) < 1000000 && Digits(Number(t)) == t
  {
    IndexIsDecimal(t);
    NumberBound(t);
    assert Pow10(6) == 10 * Pow10(5) && Pow10(5) == 10 * Pow10(4) && Pow10(4) == 10 * Pow10(3);
    Pow10Grows(|t|, 6);
  }

  lemma {:induction false} Pow10Grows(m: nat, n: nat)
    requires m <= n
    ensures Pow10(m) <= Pow10(n)
  {
    if m < n {
      Pow10Grows(m, n - 1);
    }
  }

  lemma {:induction false} NumberBound(t: Text)
    requires forall u | u in t :: IsDigit(u)
    ensures Number(t) < Pow10(|t|)
  {
    if t != [] {
      assert IsDigit(t[|t| - 1]);
      NumberBound(t[..|t| - 1]);
    }
  }

  lemma DigitsIsIndex(i: nat)
    requires i < 1000000
    ensures IsArrayIndex(Digits(i)) && Number(Digits(i)) == i
  {
    assert Pow10(6) == 10 * Pow10(5) && Pow10(5) == 10 * Pow10(4) && Pow10(4) == 10 * Pow10(3);
    DecimalIsIndex(i, 6);
  }

  /** Navigation finds what the segments lead to, and nothing else. */
  lemma {:induction false} NavigateLeads(v: Json, segments: seq<Text>, w: Json)
    ensures Navigate(v, segments) == Some(w) <==> Leads(v, segments, w)
    decreases |segments|
  {
    if segments != [] {
      var key, rest := segments[0], segments[1..];
      match v {
        case Arr(items) =>
          if IsArrayIndex(key) && Number(key) < |items| {
            IndexBelowMillion(key);
            NavigateLeads(items[Number(key)], rest, w);
          }
          forall i | 0 <= i < |items| && i < 1000000 && Digits(i) == key ensures IsArrayIndex(key) && Number(key) == i {
            DigitsIsIndex(i);
          }
        case Obj(fields) =>
          if Get(fields, key).Some? {
            var i := GetFinds(fields, key);
            GetIsField(fields, key, i);
            NavigateLeads(fields[i].value, rest, w);
          }
          forall i | 0 <= i < |fields| && IsField(fields, i, key) ensures Get(fields, key) == Some(fields[i].value) {
            GetIsField(fields, key, i);
          }
        case _ =>
      }
    }
  }

  /** A path of a field name and a decimal position selects that element of an array, and nothing past its end. */
  lemma ElementIsSelected(projection: seq<Field>, f: nat, name: Text, position: nat)
    requires f < |projection| && IsField(projection, f, name) && projection[f].value.Arr?
    requires IsPathSegment(name) && position < 1000000
    ensures var xs, path := projection[f].value.items, name + [46] + Digits(position);
      && ParsePath(path) == Some([name, Digits(position)])
      && forall w :: Leads(Obj(projection), [name, Digits(position)], w) <==> position < |xs| && w == xs[position]
  {
    var digits, xs := Digits(position), projection[f].value.items;
    DigitsIsIndex(position);
    TwoSegments(name, digits);
    assert [name, digits][1..] == [digits];
    forall w ensures Leads(Obj(projection), [name, digits], w) <==> position < |xs| && w == xs[position] {
      ElementLeads(xs, position, w);
      assert Leads(Arr(xs), [digits], w) <==> position < |xs| && w == xs[position];
    }
  }

  lemma TwoSegments(a: Text, b: Text)
    requires IsPathSegment(a) && IsPathSegment(b)
    ensures ParsePath(a + [46] + b) == Some([a, b])
  {
    SegmentIsWord(a);
    SegmentIsWord(b);
    assert forall u | u in a + [46] + b :: u < 128;
    AsciiLength(a + [46] + b);
    SegmentIsFieldName(a);
    SegmentIsFieldName(b);
    assert [a, b][1..] == [b] && Join([a, b]) == a + [46] + b;
    PathIsItsSegments(a + [46] + b, [a, b]);
  }

  lemma ElementLeads(xs: seq<Json>, position: nat, w: Json)
    requires position < 1000000
    ensures Leads(Arr(xs), [Digits(position)], w) <==> position < |xs| && w == xs[position]
  {
    forall i | 0 <= i < |xs| && Digits(i) == Digits(position) ensures i == position {
      DigitsInjective(i, position);
    }
    assert [Digits(position)][1..] == [];
  }

  /** A path of one field name selects the value stored under it, wherever the field stands. */
  lemma FieldIsSelected(projection: seq<Field>, name: Text, w: Json)
    requires IsPathSegment(name) && DistinctKeys(projection)
    ensures ParsePath(name) == Some([name])
    ensures Leads(Obj(projection), [name], w) <==> Field(name, w) in projection
  {
    assert Join([name]) == name && [name][1..] == [];
    SegmentIsWord(name);
    AsciiLength(name);
    SegmentIsFieldName(name);
    PathIsItsSegments(name, [name]);
    if i :| 0 <= i < |projection| && projection[i] == Field(name, w) {
      assert IsField(projection, i, name);
    }
  }

  lemma SegmentIsWord(t: Text)
    requires IsPathSegment(t)
    ensures 1 <= |t| <= 64 && forall u | u in t :: u < 128
  {
  }

  lemma {:induction false} AsciiLength(t: Text)
    requires forall u | u in t :: u < 128
    ensures Utf8Length(t) == |t|
  {
    if t != [] {
      assert t[0] in t && forall u | u in t[1..] :: u in t;
      AsciiLength(t[1..]);
    }
  }

  /** Answers with the value that the segments of the path lead to; it is a read error if they lead nowhere. */
  method SelectPath(projection: seq<Field>, path: Text) returns (r: Outcome)
    ensures r == ReferenceError <==> ParsePath(path).None?
    ensures ParsePath(path).Some? ==>
              match Navigate(Obj(projection), ParsePath(path).value)
              case Some(v) => r == Resolved(v)
              case None => r == ReadError
    ensures forall segments | ParsePath(path) == Some(segments) ::
              && (forall w :: r == Resolved(w) <==> Leads(Obj(projection), segments, w))
              && (r == ReadError <==> forall w :: !Leads(Obj(projection), segments, w))
  {
    var parsed := ParsePath(path);
    if parsed.None? {
      return ReferenceError;
    }
    var segments := parsed.value;
    forall w ensures Navigate(Obj(projection), segments) == Some(w) <==> Leads(Obj(projection), segments, w) {
      NavigateLeads(Obj(projection), segments, w);
    }
    var current := Obj(projection);
    for i := 0 to |segments|
      invariant Navigate(Obj(projection), segments) == Navigate(current, segments[i..])
    {
      var next := Child(current, segments[i]);
      assert segments[i..][1..] == segments[i + 1..];
      if next.None? {
        assert Navigate(Obj(projection), segments) == None;
        return ReadError;
      }
      current := next.value;
    }
    assert Navigate(Obj(projection), segments) == Some(current);
    assert Leads(Obj(projection), segments, current);
    r := Resolved(current);
  }

  // ----- substituting -----

  /** Assigning to `__proto__` of a plain object creates no property. */
  function Put(output: seq<Field>, key: Text, value: Json): seq<Field> {
    if key == PROTO then output else output + [Field(key, value)]
  }

  /** The payload with every reference replaced; a replacement is not looked into. */
  function Substitute(v: Json, chosen: Reference -> Json): Json {
    match v
    case Arr(items) => Arr(SubstituteItems(items, chosen))
    case Obj(fields) =>
      (match ParseReference(fields)
       case Parsed(r) => chosen(r)
       case _ => Obj(SubstituteFields(fields, chosen)))
    case _ => v
  }

  function SubstituteItems(items: seq<Json>, chosen: Reference -> Json): (r: seq<Json>) {
    var n := |items|;
    if n == 0 then [] else SubstituteItems(items[..n - 1], chosen) + [Substitute(items[n - 1], chosen)]
  }

  function SubstituteFields(fields: seq<Field>, chosen: Reference -> Json): (r: seq<Field>) {
    var n := |fields|;
    if n == 0 then []
    else Put(SubstituteFields(fields[..n - 1], chosen), fields[n - 1].key, Substitute(fields[n - 1].value, chosen))
  }

  // ----- resolving -----

  function Selected(r: Reference, sources: map<Text, int>, fetch: Endpoint): Option<Json> {
    if r.source !in sources || ParsePath(r.path).None? then None
    else
      match fetch(sources[r.source])
      case None => None
      case Some(projection) => Navigate(Obj(projection), ParsePath(r.path).value)
  }

  ghost function Chosen(sources: map<Text, int>, fetch: Endpoint): Reference -> Json {
    (r: Reference) => match Selected(r, sources, fetch) case Some(v) => v case None => Null
  }

  ghost predicate AllSelected(references: seq<Reference>, sources: map<Text, int>, fetch: Endpoint) {
    forall r | r in references :: Selected(r, sources, fetch).Some?
  }

  /** The endpoint has a result for the task of the source, and the path leads to this value in it. */
  ghost predicate Delivers(r: Reference, sources: map<Text, int>, fetch: Endpoint, w: Json) {
    && r.source in sources && fetch(sources[r.source]).Some? && ParsePath(r.path).Some?
    && Leads(Obj(fetch(sources[r.source]).value), ParsePath(r.path).value, w)
  }

  lemma SelectedDelivers(r: Reference, sources: map<Text, int>, fetch: Endpoint, w: Json)
    ensures Selected(r, sources, fetch) == Some(w) <==> Delivers(r, sources, fetch, w)
  {
    if r.source in sources && fetch(sources[r.source]).Some? && ParsePath(r.path).Some? {
      NavigateLeads(Obj(fetch(sources[r.source]).value), ParsePath(r.path).value, w);
    }
  }

  /** What resolving an acceptable payload comes to. */
  ghost function Resolution(v: Json, sources: map<Text, int>, fetch: Endpoint): Outcome {
    if AllSelected(References(v), sources, fetch) then Resolved(Substitute(v, Chosen(sources, fetch))) else ReadError
  }

  /** Resolution puts in what each reference delivers, and fails only if one of them delivers nothing. */
  lemma ResolutionDelivers(v: Json, sources: map<Text, int>, fetch: Endpoint)
    ensures var chosen := Chosen(sources, fetch);
            if exists r :: r in References(v) && forall w :: !Delivers(r, sources, fetch, w)
            then Resolution(v, sources, fetch) == ReadError
            else Resolution(v, sources, fetch) == Resolved(Substitute(v, chosen))
                 && forall r | r in References(v) :: Delivers(r, sources, fetch, chosen(r))
  {
    var references := References(v);
    forall r, w ensures Selected(r, sources, fetch) == Some(w) <==> Delivers(r, sources, fetch, w) {
      SelectedDelivers(r, sources, fetch, w);
    }
    if AllSelected(references, sources, fetch) {
      forall r | r in references ensures Delivers(r, sources, fetch, Chosen(sources, fetch)(r)) {
        assert Selected(r, sources, fetch) == Some(Chosen(sources, fetch)(r));
      }
    } else {
      var r :| r in references && Selected(r, sources, fetch).None?;
      assert forall w :: !Delivers(r, sources, fetch, w);
    }
  }

  class Resolver {
    const sources: map<Text, int>
    const fetch: Endpoint
    var references: nat
    var cache: map<int, seq<Field>>

    ghost predicate Valid() reads this {
      forall id | id in cache :: fetch(id) == Some(cache[id])
    }

    constructor (sources: map<Text, int>, fetch: Endpoint)
      ensures Valid() && this.sources == sources && this.fetch == fetch && references == 0
    {
      this.sources, this.fetch := sources, fetch;
      references, cache := 0, map[];
    }

    method ResolveReference(r: Reference) returns (result: Outcome)
      requires Valid() && ParsePath(r.path).Some?
      modifies this`references, this`cache
      ensures Valid() && references == old(references) + 1
      ensures result == ReferenceError <==> references > MAX_REFERENCES || r.source !in sources
      ensures result != ReferenceError ==>
                match Selected(r, sources, fetch)
                case Some(v) => result == Resolved(v)
                case None => result == ReadError
    {
      references := references + 1;
      if references > MAX_REFERENCES || r.source !in sources {
        return ReferenceError;
      }
      var id := sources[r.source];
      if id !in cache {
        var fetched := fetch(id);
        if fetched.None? {
          return ReadError;
        }
        cache := cache[id := fetched.value];
      }
      result := SelectPath(cache[id], r.path);
    }

    /** A payload acceptable here meets none of the reference errors again. */
    method Resolve(v: Json, depth: nat) returns (result: Outcome)
      requires Valid()
      modifies this`references, this`cache
      ensures Valid()
      ensures Acceptable(v, depth, old(references), sources.Keys) ==>
                && result == Resolution(v, sources, fetch)
                && (result.Resolved? ==> references == old(references) + |References(v)|)
      decreases v, 1
    {
      if depth > MAX_DEPTH {
        return ReferenceError;
      }
      match v {
        case Arr(_) => result := ResolveItems(v, depth);
        case Obj(fields) =>
          match ParseReference(fields) {
            case Malformed => result := ReferenceError;
            case Parsed(r) =>
              result := ResolveReference(r);
              OneReference(v, r, sources, fetch);
            case NotAReference => result := ResolveFields(v, depth);
          }
        case _ => result := Resolved(v);
      }
    }

    method ResolveItems(v: Json, depth: nat) returns (result: Outcome)
      requires Valid() && v.Arr? && depth <= MAX_DEPTH
      modifies this`references, this`cache
      ensures Valid()
      ensures Acceptable(v, depth, old(references), sources.Keys) ==>
                && result == Resolution(v, sources, fetch)
                && (result.Resolved? ==> references == old(references) + |References(v)|)
      decreases v, 0
    {
      ghost var acceptable := Acceptable(v, depth, old(references), sources.Keys);
      var output: seq<Json> := [];
      for i := 0 to |v.items|
        invariant Valid()
        invariant acceptable ==>
                    && references == old(references) + |ReferencesOfItems(v.items[..i])|
                    && AllSelected(ReferencesOfItems(v.items[..i]), sources, fetch)
                    && output == SubstituteItems(v.items[..i], Chosen(sources, fetch))
      {
        if acceptable {
          ItemAcceptable(v.items, i, depth, old(references), sources.Keys);
        }
        ItemsPrefix(v.items, i);
        ItemsSuffix(v.items, i + 1);
        result := Resolve(v.items[i], depth + 1);
        if !result.Resolved? {
          if acceptable {
            PartNotSelected(ReferencesOfItems(v.items[..i]), References(v.items[i]), References(v), sources, fetch);
          }
          return;
        }
        assert v.items[..i + 1][..i] == v.items[..i];
        output := output + [result.value];
      }
      assert v.items[..|v.items|] == v.items;
      result := Resolved(Arr(output));
    }

    method ResolveFields(v: Json, depth: nat) returns (result: Outcome)
      requires Valid() && v.Obj? && ParseReference(v.fields) == NotAReference && depth <= MAX_DEPTH
      modifies this`references, this`cache
      ensures Valid()
      ensures Acceptable(v, depth, old(references), sources.Keys) ==>
                && result == Resolution(v, sources, fetch)
                && (result.Resolved? ==> references == old(references) + |References(v)|)
      decreases v, 0
    {
      ghost var acceptable := Acceptable(v, depth, old(references), sources.Keys);
      var output: seq<Field> := [];
      for i := 0 to |v.fields|
        invariant Valid()
        invariant acceptable ==>
                    && references == old(references) + |ReferencesOfFields(v.fields[..i])|
                    && AllSelected(ReferencesOfFields(v.fields[..i]), sources, fetch)
                    && output == SubstituteFields(v.fields[..i], Chosen(sources, fetch))
      {
        if acceptable {
          FieldAcceptable(v.fields, i, depth, old(references), sources.Keys);
        }
        FieldsPrefix(v.fields, i);
        FieldsSuffix(v.fields, i + 1);
        result := Resolve(v.fields[i].value, depth + 1);
        if !result.Resolved? {
          if acceptable {
            PartNotSelected(
              ReferencesOfFields(v.fields[..i]), References(v.fields[i].value), References(v), sources, fetch);
          }
          return;
        }
        assert v.fields[..i + 1][..i] == v.fields[..i];
        output := Put(output, v.fields[i].key, result.value);
      }
      assert v.fields[..|v.fields|] == v.fields;
      result := Resolved(Obj(output));
    }
  }

  lemma OneReference(v: Json, r: Reference, sources: map<Text, int>, fetch: Endpoint)
    requires v.Obj? && ParseReference(v.fields) == Parsed(r)
    ensures References(v) == [r] && r in References(v)
    ensures Selected(r, sources, fetch).Some? <==> AllSelected(References(v), sources, fetch)
  {
    assert References(v) == [r];
    assert r == References(v)[0];
  }

  lemma PartNotSelected(
      before: seq<Reference>, some: seq<Reference>, all: seq<Reference>, sources: map<Text, int>, fetch: Endpoint)
    requires before + some <= all && !AllSelected(some, sources, fetch)
    ensures !AllSelected(all, sources, fetch)
  {
    var r :| r in some && Selected(r, sources, fetch).None?;
    assert r in before + some;
    assert r in all;
  }

  /** What JSON.stringify prints. */
  function Stringify(v: Json): Text {
    match v
    case Arr(items) =>
      [OPEN_BRACKET] + Listed(seq(|items|, i requires 0 <= i < |items| => Stringify(items[i])), CLOSE_BRACKET)
    case Obj(fields) =>
      var texts := seq(|fields|, i requires 0 <= i < |fields| => FieldText(fields[i].key, Stringify(fields[i].value)));
      [OPEN_BRACE] + Listed(texts, CLOSE_BRACE)
    case _ => Canonical(v)
  }

  predicate Fits(v: Json) {
    Utf8Length(Stringify(v)) <= MAX_RESOLVED_BYTES
  }

  /**
   * A reference error is raised exactly for payloads that validation rejects with the sources as allowed steps:
   * whatever was accepted against a step's ancestors never raises one when those ancestors are the sources.
   */
  method ResolveResultReferences(payload: Json, sources: map<Text, int>, fetch: Endpoint) returns (result: Outcome)
    ensures result == ReferenceError <==> !Acceptable(payload, 0, 0, sources.Keys)
    ensures result.Resolved? ==>
              && AllSelected(References(payload), sources, fetch)
              && result.value == Substitute(payload, Chosen(sources, fetch))
              && (forall r | r in References(payload) :: Delivers(r, sources, fetch, Chosen(sources, fetch)(r)))
              && Utf8Length(Stringify(result.value)) <= 262144
    ensures result == ReadError ==>
              || (!AllSelected(References(payload), sources, fetch)
                  && exists r :: r in References(payload) && forall w :: !Delivers(r, sources, fetch, w))
              || Utf8Length(Stringify(Substitute(payload, Chosen(sources, fetch)))) > 262144
  {
    var count := ValidatePayload(payload, sources.Keys);
    if count.None? {
      return ReferenceError;
    }
    ResolutionDelivers(payload, sources, fetch);
    var resolver := new Resolver(sources, fetch);
    result := resolver.Resolve(payload, 0);
    if result.Resolved? && !Fits(result.value) {
      result := ReadError;
    }
  }
}
