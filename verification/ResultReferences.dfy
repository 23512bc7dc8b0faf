/** References to the results of earlier steps inside a step's payload: checking, selecting and substituting. */
module ResultReferences {
  import opened Tables
  import opened Json
  import opened JsonStrings

  const MAX_REFERENCES := 64
  const MAX_PATH_SEGMENTS := 8
  const MAX_PATH_BYTES := 256
  const MAX_RESOLVED_BYTES := 256 * 1024
  const MAX_DEPTH := 32

  const FROM: Text := [36, 102, 114, 111, 109]  // $from
  const PATH: Text := [112, 97, 116, 104]  // path
  const PROTO: Text := [95, 95, 112, 114, 111, 116, 111, 95, 95]  // __proto__
  const PROTOTYPE: Text := [112, 114, 111, 116, 111, 116, 121, 112, 101]  // prototype
  const CONSTRUCTOR: Text := [99, 111, 110, 115, 116, 114, 117, 99, 116, 111, 114]  // constructor

  // ----- reference syntax -----

  predicate IsWordUnit(u: Unit) {
    IsDigit(u) || 65 <= u <= 90 || 97 <= u <= 122 || u == 95 || u == MINUS
  }

  predicate IsSafeStepId(t: Text) {
    1 <= |t| <= 64 && forall u | u in t :: IsWordUnit(u) || u == DOT || u == COLON
  }

  /** Up to `most` letters, digits, underscores, dashes, points and colons. */
  ghost predicate IsName(t: Text, most: nat) {
    && 1 <= |t| <= most
    && forall i | 0 <= i < |t| ::
         48 <= t[i] <= 57 || 65 <= t[i] <= 90 || 97 <= t[i] <= 122 || t[i] == 95 || 45 <= t[i] <= 46 || t[i] == 58
  }

  lemma SafeStepIdIsName(t: Text)
    ensures IsSafeStepId(t) <==> IsName(t, 64)
  {
    assert forall i | 0 <= i < |t| :: t[i] in t;
  }

  predicate IsArrayIndex(t: Text) {
    1 <= |t| <= 6 && (forall u | u in t :: IsDigit(u)) && (t[0] == 48 ==> |t| == 1)
  }

  predicate IsPathSegment(t: Text) {
    && t != PROTO && t != PROTOTYPE && t != CONSTRUCTOR
    && ((1 <= |t| <= 64 && forall u | u in t :: IsWordUnit(u)) || IsArrayIndex(t))
  }

  /** Bytes of the UTF-8 encoding; a lone surrogate is encoded as U+FFFD. */
  function Utf8Length(t: Text): nat {
    if t == [] then 0
    else if |t| >= 2 && IsLead(t[0]) && IsTrail(t[1]) then 4 + Utf8Length(t[2..])
    else (if t[0] < 0x80 then 1 else if t[0] < 0x800 then 2 else 3) + Utf8Length(t[1..])
  }

  function Split(t: Text): (parts: seq<Text>)
    ensures parts != []
  {
    if t == [] then [[]]
    else
      var rest := Split(t[1..]);
      if t[0] == DOT then [[]] + rest else [[t[0]] + rest[0]] + rest[1..]
  }

  function ParsePath(raw: Text): Option<seq<Text>> {
    if raw == [] || Utf8Length(raw) > MAX_PATH_BYTES then None
    else if |Split(raw)| > MAX_PATH_SEGMENTS then None
    else if exists i | 0 <= i < |Split(raw)| :: !IsPathSegment(Split(raw)[i]) then None
    else Some(Split(raw))
  }

  /** The segments with a point between any two. */
  function Join(segments: seq<Text>): Text
    requires segments != []
  {
    if |segments| == 1 then segments[0] else segments[0] + [46] + Join(segments[1..])
  }

  lemma {:induction false} SplitJoins(t: Text)
    ensures Join(Split(t)) == t && forall i | 0 <= i < |Split(t)| :: 46 !in Split(t)[i]
  {
    if t != [] {
      SplitJoins(t[1..]);
      var rest, parts := Split(t[1..]), Split(t);
      if t[0] == 46 {
        assert parts[1..] == rest;
        assert [] + [46] + Join(rest) == t;
      } else {
        assert parts[1..] == rest[1..];
        assert Join(parts) == [t[0]] + Join(rest);
      }
    }
  }

  lemma SplitUnit(u: Unit, first: Text, rest: seq<Text>, t: Text)
    requires u != 46 && Split(t) == [first] + rest
    ensures Split([u] + t) == [[u] + first] + rest
  {
    assert ([u] + t)[1..] == t && ([first] + rest)[1..] == rest;
  }

  lemma SplitPoint(t: Text)
    ensures Split([46] + t) == [[]] + Split(t)
  {
    assert ([46] + t)[1..] == t;
  }

  lemma {:induction false} SplitSegment(first: Text, t: Text)
    requires 46 !in first && (t == [] || t[0] == 46)
    ensures Split(first + t) == [first] + Split(t)[1..]
  {
    if first == [] {
      assert first + t == t && Split(t)[0] == [];
    } else {
      assert first[0] in first && forall u | u in first[1..] :: u in first;
      SplitSegment(first[1..], t);
      SplitUnit(first[0], first[1..], Split(t)[1..], first[1..] + t);
      assert [first[0]] + (first[1..] + t) == first + t && [first[0]] + first[1..] == first;
    }
  }

  lemma {:induction false} JoinSplits(segments: seq<Text>)
    requires segments != [] && forall i | 0 <= i < |segments| :: 46 !in segments[i]
    ensures Split(Join(segments)) == segments
  {
    if |segments| == 1 {
      SplitSegment(segments[0], []);
      assert segments[0] + [] == segments[0];
    } else {
      JoinSplits(segments[1..]);
      SplitPoint(Join(segments[1..]));
      SplitSegment(segments[0], [46] + Join(segments[1..]));
      assert segments[0] + ([46] + Join(segments[1..])) == Join(segments);
    }
  }

  /** A name without points and colons that is none of `__proto__`, `prototype` and `constructor`. */
  ghost predicate IsFieldName(t: Text) {
    && IsName(t, 64) && (forall i | 0 <= i < |t| :: t[i] != 46 && t[i] != 58)
    && t != [95, 95, 112, 114, 111, 116, 111, 95, 95]
    && t != [112, 114, 111, 116, 111, 116, 121, 112, 101]
    && t != [99, 111, 110, 115, 116, 114, 117, 99, 116, 111, 114]
  }

  lemma SegmentIsFieldName(t: Text)
    ensures IsPathSegment(t) <==> IsFieldName(t)
  {
    assert forall i | 0 <= i < |t| :: t[i] in t;
    assert IsArrayIndex(t) ==> forall u | u in t :: IsWordUnit(u);
  }

  /** A path is one to eight field names or positions with points between them, of at most 256 bytes. */
  lemma PathIsItsSegments(path: Text, segments: seq<Text>)
    ensures ParsePath(path) == Some(segments) <==>
              && 1 <= |segments| <= 8 && Join(segments) == path && Utf8Length(path) <= 256
              && forall i | 0 <= i < |segments| :: IsFieldName(segments[i])
  {
    SplitJoins(path);
    forall t ensures IsPathSegment(t) <==> IsFieldName(t) {
      SegmentIsFieldName(t);
    }
    if segments != [] && Join(segments) == path && forall i | 0 <= i < |segments| :: IsPathSegment(segments[i]) {
      JoinSplits(segments);
    }
  }

  function Get(fields: seq<Field>, key: Text): Option<Json> {
    if fields == [] then None
    else if fields[0].key == key then Some(fields[0].value)
    else Get(fields[1..], key)
  }

  datatype Reference = Reference(source: Text, path: Text)

  datatype Parsed = NotAReference | Malformed | Parsed(reference: Reference)

  function ParseReference(fields: seq<Field>): Parsed {
    if Get(fields, FROM).None? then NotAReference
    else if |fields| != 2 || Get(fields, PATH).None? then Malformed
    else
      match (Get(fields, FROM).value, Get(fields, PATH).value)
      case (Str(source), Str(path)) =>
        if !IsSafeStepId(source) || ParsePath(path).None? then Malformed else Parsed(Reference(source, path))
      case _ => Malformed
  }

  /** A reference is an object of the two fields `$from` and `path`, in either order, with a step id and a path. */
  lemma ReferenceSyntax(fields: seq<Field>, source: Text, path: Text)
    requires DistinctKeys(fields)
    ensures var from, to := Field([36, 102, 114, 111, 109], Str(source)), Field([112, 97, 116, 104], Str(path));
            ParseReference(fields) == Parsed(Reference(source, path)) <==>
              (fields == [from, to] || fields == [to, from]) && IsName(source, 64) && ParsePath(path).Some?
    ensures ParseReference(fields) == NotAReference <==>
              forall i | 0 <= i < |fields| :: fields[i].key != [36, 102, 114, 111, 109]
  {
    SafeStepIdIsName(source);
    GetMeans(fields, FROM);
    GetMeans(fields, PATH);
    assert FROM[0] != PATH[0];
    if |fields| == 2 {
      assert fields == [fields[0], fields[1]];
    }
  }

  lemma {:induction false} GetMeans(fields: seq<Field>, key: Text)
    requires DistinctKeys(fields)
    ensures forall i | 0 <= i < |fields| && fields[i].key == key :: Get(fields, key) == Some(fields[i].value)
    ensures (forall i | 0 <= i < |fields| :: fields[i].key != key) ==> Get(fields, key) == None
  {
    if fields != [] {
      GetMeans(fields[1..], key);
      assert forall i | 1 <= i < |fields| :: fields[i] == fields[1..][i - 1];
    }
  }

  // ----- what a payload refers to -----

  /** The references of a payload in document order; nothing inside a reference is looked at. */
  function References(v: Json): seq<Reference> {
    match v
    case Arr(items) => ReferencesOfItems(items)
    case Obj(fields) =>
      (match ParseReference(fields)
       case Parsed(r) => [r]
       case _ => ReferencesOfFields(fields))
    case _ => []
  }

  function ReferencesOfItems(items: seq<Json>): seq<Reference> {
    if items == [] then [] else ReferencesOfItems(items[..|items| - 1]) + References(items[|items| - 1])
  }

  function ReferencesOfFields(fields: seq<Field>): seq<Reference> {
    if fields == [] then [] else ReferencesOfFields(fields[..|fields| - 1]) + References(fields[|fields| - 1].value)
  }

  /** Nesting within the limit and no malformed reference. */
  predicate WellShaped(v: Json, depth: nat) {
    && depth <= 32
    && match v
       case Arr(items) => forall i | 0 <= i < |items| :: WellShaped(items[i], depth + 1)
       case Obj(fields) =>
         (match ParseReference(fields)
          case Malformed => false
          case Parsed(_) => true
          case NotAReference => forall i | 0 <= i < |fields| :: WellShaped(fields[i].value, depth + 1))
       case _ => true
  }

  predicate FromAllowed(references: seq<Reference>, allowed: set<Text>) {
    forall r | r in references :: r.source in allowed
  }

  /** What validation accepts, given the references counted so far. */
  predicate Acceptable(v: Json, depth: nat, counted: nat, allowed: set<Text>) {
    WellShaped(v, depth) && counted + |References(v)| <= 64 && FromAllowed(References(v), allowed)
  }

  class Validator {
    var references: nat

    constructor ()
      ensures references == 0
    {
      references := 0;
    }

    method Count(r: Reference, allowed: set<Text>) returns (ok: bool)
      modifies this
      ensures references == old(references) + 1
      ensures ok <==> references <= MAX_REFERENCES && r.source in allowed
    {
      references := references + 1;
      ok := references <= MAX_REFERENCES && r.source in allowed;
    }

    method Walk(v: Json, depth: nat, allowed: set<Text>) returns (ok: bool)
      requires references <= MAX_REFERENCES
      modifies this
      ensures ok <==> Acceptable(v, depth, old(references), allowed)
      ensures ok ==> references == old(references) + |References(v)|
      decreases v, 1
    {
      if depth > MAX_DEPTH {
        return false;
      }
      match v {
        case Arr(_) => ok := WalkItems(v, depth, allowed);
        case Obj(fields) =>
          match ParseReference(fields) {
            case Malformed => ok := false;
            case Parsed(r) => ok := Count(r, allowed);
            case NotAReference => ok := WalkFields(v, depth, allowed);
          }
        case _ => ok := true;
      }
    }

    method WalkItems(v: Json, depth: nat, allowed: set<Text>) returns (ok: bool)
      requires v.Arr? && depth <= MAX_DEPTH && references <= MAX_REFERENCES
      modifies this
      ensures ok <==> Acceptable(v, depth, old(references), allowed)
      ensures ok ==> references == old(references) + |References(v)|
      decreases v, 0
    {
      for i := 0 to |v.items|
        invariant references == old(references) + |ReferencesOfItems(v.items[..i])| <= MAX_REFERENCES
        invariant FromAllowed(ReferencesOfItems(v.items[..i]), allowed)
        invariant forall k | 0 <= k < i :: WellShaped(v.items[k], depth + 1)
      {
        ItemsPrefix(v.items, i);
        ok := Walk(v.items[i], depth + 1, allowed);
        if !ok {
          if Acceptable(v, depth, old(references), allowed) {
            ItemAcceptable(v.items, i, depth, old(references), allowed);
          }
          return;
        }
      }
      assert v.items[..|v.items|] == v.items;
      ok := true;
    }

    method WalkFields(v: Json, depth: nat, allowed: set<Text>) returns (ok: bool)
      requires v.Obj? && ParseReference(v.fields) == NotAReference
      requires depth <= MAX_DEPTH && references <= MAX_REFERENCES
      modifies this
      ensures ok <==> Acceptable(v, depth, old(references), allowed)
      ensures ok ==> references == old(references) + |References(v)|
      decreases v, 0
    {
      for i := 0 to |v.fields|
        invariant references == old(references) + |ReferencesOfFields(v.fields[..i])| <= MAX_REFERENCES
        invariant FromAllowed(ReferencesOfFields(v.fields[..i]), allowed)
        invariant forall k | 0 <= k < i :: WellShaped(v.fields[k].value, depth + 1)
      {
        FieldsPrefix(v.fields, i);
        ok := Walk(v.fields[i].value, depth + 1, allowed);
        if !ok {
          if Acceptable(v, depth, old(references), allowed) {
            FieldAcceptable(v.fields, i, depth, old(references), allowed);
          }
          return;
        }
      }
      assert v.fields[..|v.fields|] == v.fields;
      ok := true;
    }
  }

  /** A part of an accepted array is accepted with what was counted before it. */
  lemma ItemAcceptable(items: seq<Json>, i: nat, depth: nat, counted: nat, allowed: set<Text>)
    requires i < |items| && Acceptable(Arr(items), depth, counted, allowed)
    ensures Acceptable(items[i], depth + 1, counted + |ReferencesOfItems(items[..i])|, allowed)
  {
    ItemsPrefix(items, i);
    ItemsSuffix(items, i + 1);
    ghost var before, some := ReferencesOfItems(items[..i]), References(items[i]);
    ghost var all := ReferencesOfItems(items);
    assert References(Arr(items)) == all;
    PartAllowed(before, some, all, allowed);
  }

  lemma FieldAcceptable(fields: seq<Field>, i: nat, depth: nat, counted: nat, allowed: set<Text>)
    requires i < |fields| && ParseReference(fields) == NotAReference && Acceptable(Obj(fields), depth, counted, allowed)
    ensures Acceptable(fields[i].value, depth + 1, counted + |ReferencesOfFields(fields[..i])|, allowed)
  {
    FieldsPrefix(fields, i);
    FieldsSuffix(fields, i + 1);
    ghost var before, some := ReferencesOfFields(fields[..i]), References(fields[i].value);
    ghost var all := ReferencesOfFields(fields);
    assert References(Obj(fields)) == all;
    PartAllowed(before, some, all, allowed);
  }

  lemma PartAllowed(before: seq<Reference>, some: seq<Reference>, all: seq<Reference>, allowed: set<Text>)
    requires before + some <= all && FromAllowed(all, allowed)
    ensures FromAllowed(some, allowed)
  {
    forall r | r in some ensures r in all {
      assert r in before + some;
    }
  }

  lemma ItemsPrefix(items: seq<Json>, i: nat)
    requires i < |items|
    ensures ReferencesOfItems(items[..i + 1]) == ReferencesOfItems(items[..i]) + References(items[i])
  {
    assert items[..i + 1][..i] == items[..i];
  }

  lemma FieldsPrefix(fields: seq<Field>, i: nat)
    requires i < |fields|
    ensures ReferencesOfFields(fields[..i + 1]) == ReferencesOfFields(fields[..i]) + References(fields[i].value)
  {
    assert fields[..i + 1][..i] == fields[..i];
  }

  /** The references of a prefix are a prefix of the references. */
  lemma {:induction false} ItemsSuffix(items: seq<Json>, i: nat)
    requires i <= |items|
    ensures ReferencesOfItems(items[..i]) <= ReferencesOfItems(items)
    decreases |items| - i
  {
    if i < |items| {
      ItemsPrefix(items, i);
      ItemsSuffix(items, i + 1);
    } else {
      assert items[..i] == items;
    }
  }

  lemma {:induction false} FieldsSuffix(fields: seq<Field>, i: nat)
    requires i <= |fields|
    ensures ReferencesOfFields(fields[..i]) <= ReferencesOfFields(fields)
    decreases |fields| - i
  {
    if i < |fields| {
      FieldsPrefix(fields, i);
      FieldsSuffix(fields, i + 1);
    } else {
      assert fields[..i] == fields;
    }
  }

  /** Accepts a payload if and only if it is well shaped, has at most 64 references and each is to an allowed step. */
  method ValidatePayload(payload: Json, allowed: set<Text>) returns (count: Option<nat>)
    ensures count.Some? <==> Acceptable(payload, 0, 0, allowed)
    ensures count.Some? <==>
              && WellShaped(payload, 0) && |References(payload)| <= 64
              && forall r | r in References(payload) :: r.source in allowed
    ensures count.Some? ==> count.value == |References(payload)|
  {
    var validator := new Validator();
    var ok := validator.Walk(payload, 0, allowed);
    count := if ok then Some(validator.references) else None;
  }
}
