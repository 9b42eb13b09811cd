/**
 * The dynamically typed values the program reads from its JSON state file and
 * from the two web services, together with the few Python built-ins it applies
 * to them: truthiness (`if v`, `v or d`), `dict.get`, `str(v)`, `int(s)` on a
 * digit string, and `int(x)` on a non-integral quantity (truncation toward zero).
 */
module Py {

  import opened Wrappers

  /** A JSON value as Python's `json` module hands it over. Numbers are integers here. */
  datatype Value =
    | Null
    | Bool(b: bool)
    | Int(i: int)
    | Str(s: string)
    | List(items: seq<Value>)
    | Object(fields: map<string, Value>)

  /** Python truthiness: `None`, `False`, `0`, `""`, `[]` and `{}` are false. */
  predicate Truthy(v: Value) {
    match v
    case Null => false
    case Bool(b) => b
    case Int(i) => i != 0
    case Str(s) => s != ""
    case List(xs) => xs != []
    case Object(m) => m != map[]
  }

  /** Python's `v or d`. */
  function Or(v: Value, d: Value): Value {
    if Truthy(v) then v else d
  }

  /** Python's `m.get(k, d)`. */
  function GetOr(m: map<string, Value>, k: string, d: Value): Value {
    if k in m then m[k] else d
  }

  /** Python's `m.get(k)`: a missing key reads as `None`. */
  function Get(m: map<string, Value>, k: string): Value {
    GetOr(m, k, Null)
  }

  predicate IsDigit(c: char) {
    '0' <= c <= '9'
  }

  /** True of a non-empty string of ASCII digits (`str.isdigit` restricted to ASCII). */
  predicate IsDigits(s: string) {
    s != [] && forall i :: 0 <= i < |s| ==> IsDigit(s[i])
  }

  /** The decimal spelling of a natural number, without leading zeros. */
  function NatToString(n: nat): (r: string)
    ensures IsDigits(r)
    ensures r[0] == '0' ==> n == 0
  {
    if n < 10 then ["0123456789"[n]]
    else NatToString(n / 10) + ["0123456789"[n % 10]]
  }

  /** Python's `str(n)` on an integer. */
  function IntToString(n: int): (r: string)
    ensures r != []
  {
    if n < 0 then "-" + NatToString(-n) else NatToString(n)
  }

  /** The number a string of ASCII digits denotes (Python's `int(s)` on such a string). */
  function DigitsValue(s: string): nat
    requires forall i :: 0 <= i < |s| ==> IsDigit(s[i])
  {
    if s == [] then 0
    else
      assert IsDigit(s[|s| - 1]);
      DigitsValue(s[..|s| - 1]) * 10 + (s[|s| - 1] as int - '0' as int)
  }

  /** Reading back the decimal spelling of `n` gives `n`. */
  lemma {:induction false} NatToStringRoundTrip(n: nat)
    ensures DigitsValue(NatToString(n)) == n
  {
    if n >= 10 {
      var s := NatToString(n / 10);
      var c := "0123456789"[n % 10];
      assert (s + [c])[..|s + [c]| - 1] == s;
      NatToStringRoundTrip(n / 10);
    }
  }

  /** Reading an optional minus sign and a digit string (the inverse of `IntToString`). */
  function ParseInt(s: string): Option<int> {
    if s != [] && s[0] == '-' then
      if IsDigits(s[1..]) && s[1] != '0' then Some(0 - DigitsValue(s[1..])) else None
    else if IsDigits(s) then Some(DigitsValue(s) as int)
    else None
  }

  /** `str(n)` is read back by `ParseInt`; hence distinct integers have distinct spellings. */
  lemma {:induction false} IntToStringRoundTrip(n: int)
    ensures ParseInt(IntToString(n)) == Some(n)
  {
    var s := IntToString(n);
    if n < 0 {
      var d := NatToString(-n);
      assert s == "-" + d;
      assert s[1..] == d;
      assert d[0] != '0';
      NatToStringRoundTrip(-n);
      assert ParseInt(s) == Some(0 - DigitsValue(d));
    } else {
      assert IsDigit(s[0]);
      NatToStringRoundTrip(n);
    }
  }

  /** Python's `str(v)`. Lists and objects are rendered as fixed markers, not as Python's repr. */
  function PyStr(v: Value): (r: string)
    ensures v.Str? ==> r == v.s
    ensures r == "" <==> v == Str("")
  {
    match v
    case Null => "None"
    case Bool(b) => if b then "True" else "False"
    case Int(i) => IntToString(i)
    case Str(s) => s
    case List(_) => "[...]"
    case Object(_) => "{...}"
  }

  /** The idiom `str(v or "")` the program uses to read an optional text field. */
  function TextField(v: Value): (r: string)
    ensures r == "" <==> !Truthy(v)
    ensures v.Str? ==> r == v.s
  {
    PyStr(Or(v, Str("")))
  }

  /**
   * `int(x)` applied to the quotient `a / b` of a float division: truncation toward
   * zero, which differs from Dafny's Euclidean `/` when `a` is negative.
   */
  function TruncDiv(a: int, b: int): (q: int)
    requires b > 0
    ensures a >= 0 ==> 0 <= q * b <= a < q * b + b
    ensures a < 0 ==> q * b - b < a <= q * b <= 0
  {
    DivBounds(if a >= 0 then a else -a, b);
    if a >= 0 then a / b else -((-a) / b)
  }

  lemma DivBounds(a: nat, b: int)
    requires b > 0
    ensures 0 <= (a / b) * b <= a < (a / b) * b + b
  {
    assert a == (a / b) * b + a % b;
  }
}
