/** Resolution touches the references of a payload and nothing else. */
module Substitution {
  import opened Tables
  import opened Json
  import opened ResultReferences
  import opened ResultResolution

  datatype Hop = Index(i: nat) | Key(key: Text)

  function Hopped(v: Json, hop: Hop): Option<Json> {
    match (v, hop)
    case (Arr(items), Index(i)) => if i < |items| then Some(items[i]) else None
    case (Obj(fields), Key(k)) => Get(fields, k)
    case _ => None
  }

  /** The part of a value at a position. */
  function At(v: Json, position: seq<Hop>): Option<Json>
    decreases |position|
  {
    if position == [] then Some(v)
    else
      match Hopped(v, position[0])
      case None => None
      case Some(part) => At(part, position[1..])
  }

  predicate IsReference(v: Json) {
    v.Obj? && ParseReference(v.fields).Parsed?
  }

  /** The position exists, is not inside a reference, and does not pass through a key `__proto__`. */
  predicate Outside(v: Json, position: seq<Hop>)
    decreases |position|
  {
    position != [] ==>
      && !IsReference(v) && position[0] != Key(PROTO)
      && Hopped(v, position[0]).Some? && Outside(Hopped(v, position[0]).value, position[1..])
  }

  function KeptKeys(fields: seq<Field>): seq<Text> {
    var n := |fields|;
    if n == 0 then []
    else KeptKeys(fields[..n - 1]) + (if fields[n - 1].key == PROTO then [] else [fields[n - 1].key])
  }

  function KeyList(fields: seq<Field>): seq<Text> {
    seq(|fields|, i requires 0 <= i < |fields| => fields[i].key)
  }

  /** The same node, whatever its parts: an equal scalar, an array as long, an object with the same keys in order. */
  ghost predicate SameNode(a: Json, b: Json) {
    match (a, b)
    case (Arr(xs), Arr(ys)) => |xs| == |ys|
    case (Obj(fs), Obj(gs)) => KeyList(gs) == KeptKeys(fs)
    case _ => a == b && !a.Arr? && !a.Obj?
  }

  /**
   * Outside references every node stays the node it was, and a reference becomes the selected value itself:
   * the value is put in unexamined, even when it looks like a reference.
   */
  lemma {:induction false} OnlyReferencesAreReplaced(v: Json, position: seq<Hop>, chosen: Reference -> Json)
    requires Outside(v, position)
    ensures At(v, position).Some? && At(Substitute(v, chosen), position).Some?
    ensures var was, became := At(v, position).value, At(Substitute(v, chosen), position).value;
      if IsReference(was) then became == chosen(ParseReference(was.fields).reference) else SameNode(was, became)
    decreases |position|
  {
    if position != [] {
      HopOfSubstitute(v, position[0], chosen);
      OnlyReferencesAreReplaced(Hopped(v, position[0]).value, position[1..], chosen);
    } else if v.Arr? {
      ItemsSubstituted(v.items, chosen);
    } else if v.Obj? {
      FieldsSubstituted(v.fields, chosen);
    }
  }

  lemma HopOfSubstitute(v: Json, hop: Hop, chosen: Reference -> Json)
    requires !IsReference(v) && hop != Key(PROTO) && Hopped(v, hop).Some?
    ensures Hopped(Substitute(v, chosen), hop) == Some(Substitute(Hopped(v, hop).value, chosen))
  {
    if v.Arr? {
      ItemsSubstituted(v.items, chosen);
    } else {
      FieldSubstituted(v.fields, hop.key, chosen);
    }
  }

  lemma {:induction false} ItemsSubstituted(items: seq<Json>, chosen: Reference -> Json)
    ensures |SubstituteItems(items, chosen)| == |items|
    ensures forall i | 0 <= i < |items| :: SubstituteItems(items, chosen)[i] == Substitute(items[i], chosen)
  {
    if items != [] {
      ItemsSubstituted(items[..|items| - 1], chosen);
    }
  }

  lemma {:induction false} FieldsSubstituted(fields: seq<Field>, chosen: Reference -> Json)
    ensures KeyList(SubstituteFields(fields, chosen)) == KeptKeys(fields)
    ensures |SubstituteFields(fields, chosen)| <= |fields|
  {
    if fields != [] {
      FieldsSubstituted(fields[..|fields| - 1], chosen);
    }
  }

  lemma {:induction false} GetLast(fields: seq<Field>, key: Text)
    requires fields != []
    ensures var n := |fields| - 1;
      Get(fields, key) ==
        if Get(fields[..n], key).Some? then Get(fields[..n], key)
        else if fields[n].key == key then Some(fields[n].value)
        else None
  {
    if |fields| > 1 {
      assert fields[1..][..|fields| - 2] == fields[..|fields| - 1][1..];
      GetLast(fields[1..], key);
    }
  }

  lemma {:induction false} FieldSubstituted(fields: seq<Field>, key: Text, chosen: Reference -> Json)
    requires key != PROTO
    ensures Get(SubstituteFields(fields, chosen), key) ==
      match Get(fields, key) case None => None case Some(v) => Some(Substitute(v, chosen))
  {
    if fields != [] {
      var n := |fields| - 1;
      FieldSubstituted(fields[..n], key, chosen);
      GetLast(fields, key);
      var before := SubstituteFields(fields[..n], chosen);
      if fields[n].key != PROTO {
        var after := before + [Field(fields[n].key, Substitute(fields[n].value, chosen))];
        assert after[..|after| - 1] == before;
        GetLast(after, key);
      }
    }
  }

  // ----- payloads without references -----

  predicate NoProto(v: Json) {
    match v
    case Arr(items) => forall i | 0 <= i < |items| :: NoProto(items[i])
    case Obj(fields) => forall i | 0 <= i < |fields| :: fields[i].key != PROTO && NoProto(fields[i].value)
    case _ => true
  }

  ghost predicate UnchangedIffNoProto(v: Json, chosen: Reference -> Json) {
    References(v) == [] ==> (Substitute(v, chosen) == v <==> NoProto(v))
  }

  /** Without references resolution is the identity, exactly when no object has a key `__proto__`. */
  lemma {:induction false} IdentityWithoutReferences(v: Json, chosen: Reference -> Json)
    ensures References(v) == [] ==> (Substitute(v, chosen) == v <==> NoProto(v))
    decreases v
  {
    if v.Arr? {
      forall i | 0 <= i < |v.items| ensures UnchangedIffNoProto(v.items[i], chosen) {
        IdentityWithoutReferences(v.items[i], chosen);
      }
      ItemsIdentity(v.items, chosen);
    } else if v.Obj? {
      forall i | 0 <= i < |v.fields| ensures UnchangedIffNoProto(v.fields[i].value, chosen) {
        IdentityWithoutReferences(v.fields[i].value, chosen);
      }
      FieldsIdentity(v.fields, chosen);
    }
  }

  lemma {:induction false} ItemsIdentity(items: seq<Json>, chosen: Reference -> Json)
    requires forall i | 0 <= i < |items| :: UnchangedIffNoProto(items[i], chosen)
    ensures ReferencesOfItems(items) == [] ==>
      (SubstituteItems(items, chosen) == items <==> forall i | 0 <= i < |items| :: NoProto(items[i]))
  {
    var n := |items| - 1;
    if n >= 0 && ReferencesOfItems(items) == [] {
      ItemsIdentity(items[..n], chosen);
      assert UnchangedIffNoProto(items[n], chosen);
      Extends(SubstituteItems(items[..n], chosen), Substitute(items[n], chosen), items);
    }
  }

  lemma {:induction false} FieldsIdentity(fields: seq<Field>, chosen: Reference -> Json)
    requires forall i | 0 <= i < |fields| :: UnchangedIffNoProto(fields[i].value, chosen)
    ensures ReferencesOfFields(fields) == [] ==>
      (SubstituteFields(fields, chosen) == fields <==>
       forall i | 0 <= i < |fields| :: fields[i].key != PROTO && NoProto(fields[i].value))
  {
    var n := |fields| - 1;
    if n >= 0 && ReferencesOfFields(fields) == [] {
      FieldsIdentity(fields[..n], chosen);
      FieldsSubstituted(fields[..n], chosen);
      var last := fields[n];
      assert UnchangedIffNoProto(last.value, chosen);
      if last.key != PROTO {
        Extends(SubstituteFields(fields[..n], chosen), Field(last.key, Substitute(last.value, chosen)), fields);
      }
    }
  }

  lemma Extends<T>(before: seq<T>, last: T, whole: seq<T>)
    requires whole != []
    ensures before + [last] == whole <==> before == whole[..|whole| - 1] && last == whole[|whole| - 1]
  {
    if before + [last] == whole {
      assert whole[..|whole| - 1] == before;
    }
  }

  /** A payload that loses its only field, although it refers to nothing. */
  lemma ProtoIsLost(chosen: Reference -> Json)
    ensures var payload := Obj([Field(PROTO, Null)]);
      References(payload) == [] && Substitute(payload, chosen) == Obj([]) && Acceptable(payload, 0, 0, {})
  {
    var fields := [Field(PROTO, Null)];
    assert fields[..0] == [];
    assert Get(fields[1..], FROM) == None;
    assert PROTO[0] != FROM[0];
    assert ParseReference(fields) == NotAReference;
    assert ReferencesOfFields(fields) == ReferencesOfFields([]) + References(Null);
    assert SubstituteFields(fields, chosen) == SubstituteFields([], chosen);
    assert WellShaped(fields[0].value, 1);
  }
}
