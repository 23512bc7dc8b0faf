/** JSON values as JavaScript sees them: strings are sequences of UTF-16 code units. */
module Json {

  type Unit = u: int | 0 <= u < 0x1_0000

  type Text = seq<Unit>

  /** A number is given by the text JavaScript prints for it; an object by its fields in insertion order. */
  datatype Json =
    | Null | Bool(value: bool) | Num(text: Text) | Str(text: Text)
    | Arr(items: seq<Json>) | Obj(fields: seq<Field>)

  datatype Field = Field(key: Text, value: Json)

  const QUOTE: Unit := 34
  const COMMA: Unit := 44
  const MINUS: Unit := 45
  const DOT: Unit := 46
  const COLON: Unit := 58
  const OPEN_BRACKET: Unit := 91
  const BACKSLASH: Unit := 92
  const CLOSE_BRACKET: Unit := 93
  const OPEN_BRACE: Unit := 123
  const CLOSE_BRACE: Unit := 125

  predicate IsDigit(u: Unit) {
    48 <= u <= 57
  }

  /** Digits, sign, point and exponent: what the number printer uses. */
  predicate IsNumberUnit(u: Unit) {
    IsDigit(u) || u == MINUS || u == DOT || u == 43 || u == 101
  }

  predicate IsNumberText(t: Text) {
    t != [] && (IsDigit(t[0]) || t[0] == MINUS) && forall u | u in t :: IsNumberUnit(u)
  }

  predicate DistinctKeys(fields: seq<Field>) {
    forall i, j | 0 <= i < j < |fields| :: fields[i].key != fields[j].key
  }

  predicate WellFormed(j: Json) {
    match j
    case Num(t) => IsNumberText(t)
    case Arr(items) => forall i | 0 <= i < |items| :: WellFormed(items[i])
    case Obj(fields) => DistinctKeys(fields) && forall i | 0 <= i < |fields| :: WellFormed(fields[i].value)
    case _ => true
  }

  function Keys(fields: seq<Field>): set<Text> {
    set i | 0 <= i < |fields| :: fields[i].key
  }

  /** Equality of values when the order of object keys does not matter. */
  ghost predicate Same(a: Json, b: Json) {
    match (a, b)
    case (Arr(xs), Arr(ys)) => |xs| == |ys| && forall i | 0 <= i < |xs| :: Same(xs[i], ys[i])
    case (Obj(fs), Obj(gs)) =>
      && Keys(fs) == Keys(gs)
      && forall i, k | 0 <= i < |fs| && 0 <= k < |gs| && fs[i].key == gs[k].key :: Same(fs[i].value, gs[k].value)
    case _ => a == b
  }

  // ----- decimal integers -----

  function Digits(n: nat): Text {
    if n < 10 then [48 + n] else Digits(n / 10) + [48 + n % 10]
  }

  function Decimal(n: int): Text {
    if n < 0 then [MINUS] + Digits(-n) else Digits(n)
  }

  lemma {:induction false} DigitsAreDigits(n: nat)
    ensures Digits(n) != [] && forall u | u in Digits(n) :: IsDigit(u)
  {
    if n >= 10 {
      DigitsAreDigits(n / 10);
    }
  }

  lemma DecimalIsNumberText(n: int)
    ensures IsNumberText(Decimal(n))
  {
    DigitsAreDigits(if n < 0 then -n else n);
  }

  lemma {:induction false} DigitsInjective(m: nat, n: nat)
    requires Digits(m) == Digits(n)
    ensures m == n
  {
    DigitsAreDigits(m / 10);
    DigitsAreDigits(n / 10);
    assert Digits(m)[|Digits(m)| - 1] == 48 + m % 10;
    assert Digits(n)[|Digits(n)| - 1] == 48 + n % 10;
    if m >= 10 && n >= 10 {
      assert Digits(m)[..|Digits(m)| - 1] == Digits(m / 10);
      assert Digits(n)[..|Digits(n)| - 1] == Digits(n / 10);
      DigitsInjective(m / 10, n / 10);
    }
  }

  lemma DecimalInjective(m: int, n: int)
    requires Decimal(m) == Decimal(n)
    ensures m == n
  {
    DigitsAreDigits(if m < 0 then -m else m);
    DigitsAreDigits(if n < 0 then -n else n);
    assert (m < 0) == !IsDigit(Decimal(m)[0]) && (n < 0) == !IsDigit(Decimal(n)[0]);
    if m < 0 {
      assert Decimal(m)[1..] == Digits(-m) && Decimal(n)[1..] == Digits(-n);
      DigitsInjective(-m, -n);
    } else {
      DigitsInjective(m, n);
    }
  }
}
