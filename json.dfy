/**
 * The parsed JSON values that appear as metadata values and attribute values,
 * and JavaScript's `String(v)` conversion of them, which the normaliser uses to
 * build annotation ids.
 */
module Json {

  /** A JSON scalar. Numbers are unbounded integers here (offsets are character
      positions); JavaScript's double precision is not modelled. */
  datatype Value = Null | Bool(b: bool) | Number(n: int) | Str(s: string)

  function Digit(d: nat): char
    requires d < 10
  {
    "0123456789"[d]
  }

  /** The decimal digits of a non-negative integer, most significant first. */
  function DecimalNat(n: nat): (s: string)
    ensures |s| >= 1
    ensures forall i :: 0 <= i < |s| ==> '0' <= s[i] <= '9'
  {
    if n < 10 then [Digit(n)] else DecimalNat(n / 10) + [Digit(n % 10)]
  }

  /** An integer written as an optional minus sign and its decimal digits. This is
      JavaScript's `String(n)` for integers of magnitude below 10^21 that a double
      holds exactly; larger numbers print in exponent notation there. */
  function Decimal(n: int): string
  {
    if n < 0 then "-" + DecimalNat(-n) else DecimalNat(n)
  }

  /** `String(v)`: a string is itself, and a number prints without an underscore, so
      the underscore an id puts before its offset is the id's last one. */
  function ToJsString(v: Value): (r: string)
    ensures v.Str? ==> r == v.s
    ensures v.Number? ==> '_' !in r
  {
    match v
    case Null => "null"
    case Bool(b) => if b then "true" else "false"
    case Number(n) => Decimal(n)
    case Str(s) => s
  }

  lemma DigitInjective(a: nat, b: nat)
    requires a < 10 && b < 10 && Digit(a) == Digit(b)
    ensures a == b
  {
  }

  lemma DecimalNatShape(n: nat)
    ensures var s := DecimalNat(n);
      && s[|s| - 1] == Digit(n % 10)
      && (n < 10 ==> |s| == 1)
      && (n >= 10 ==> |s| >= 2 && s[..|s| - 1] == DecimalNat(n / 10))
  {
    if n >= 10 {
      var s := DecimalNat(n);
      assert s == DecimalNat(n / 10) + [Digit(n % 10)];
    }
  }

  lemma {:induction false} DecimalNatInjective(a: nat, b: nat)
    requires DecimalNat(a) == DecimalNat(b)
    ensures a == b
  {
    DecimalNatShape(a);
    DecimalNatShape(b);
    DigitInjective(a % 10, b % 10);
    if a >= 10 && b >= 10 {
      DecimalNatInjective(a / 10, b / 10);
    }
  }

  /** Distinct integers print differently, and the printed form has no `_`. */
  lemma {:induction false} DecimalInjective(a: int, b: int)
    ensures Decimal(a) == Decimal(b) <==> a == b
    ensures '_' !in Decimal(a)
  {
    var da, db := Decimal(a), Decimal(b);
    var nb := DecimalNat(if b < 0 then -b else b);
    assert '-' !in nb;
    if a < 0 {
      var na := DecimalNat(-a);
      assert '-' !in na && '_' !in na;
      assert da == "-" + na;
      if da == db {
        assert da[0] == '-';
        assert db[0] == '-';
        assert na == da[1..] == db[1..] == nb;
        DecimalNatInjective(-a, -b);
      }
    } else {
      var na := DecimalNat(a);
      assert '_' !in na;
      if da == db {
        assert da[0] in na;
        DecimalNatInjective(a, b);
      }
    }
  }
}
