/**
 * The values held in the JSON-like Python dicts the pipeline passes around
 * (catalog records, feature properties), and the few built-in operations the
 * core applies to them: truthiness, `str()`, `float()` and `int()` of text.
 */
module Values {
  import opened Wrappers

  datatype Value =
    | VNone
    | VBool(b: bool)
    | VInt(i: int)
    | VFloat(r: real)
    | VStr(s: string)
    | VList(items: seq<Value>)
    | VDict(entries: map<string, Value>)
    | VShape(cells: set<int>)    // a shapely geometry, abstracted to its cells

  /** A Python dict with string keys; key order is not kept. */
  type Record = map<string, Value>

  /** No element occurs twice (dict keys; distinct objects). */
  predicate NoDuplicates<T(==)>(xs: seq<T>)
  {
    forall i, j :: 0 <= i < j < |xs| ==> xs[i] != xs[j]
  }

  /** `dict.get(k, default)` */
  function Get(d: Record, k: string, default: Value): (v: Value)
    ensures k in d ==> v == d[k]
    ensures k !in d ==> v == default
  {
    if k in d then d[k] else default
  }

  /** Python's `bool(v)`. */
  predicate Truthy(v: Value)
  {
    match v
    case VNone => false
    case VBool(b) => b
    case VInt(i) => i != 0
    case VFloat(r) => r != 0.0
    case VStr(s) => s != ""
    case VList(xs) => xs != []
    case VDict(m) => m != map[]
    case VShape(c) => c != {}
  }

  // ---------------------------------------------------------------- decimal text

  predicate IsDigit(c: char) { '0' <= c <= '9' }

  predicate AllDigits(s: string) { forall i :: 0 <= i < |s| ==> IsDigit(s[i]) }

  function DigitChar(d: nat): (c: char)
    requires d < 10
    ensures IsDigit(c) && (c as int) - ('0' as int) == d
  {
    (('0' as int) + d) as char
  }

  /** Decimal digits of `n`, most significant first, without leading zeros. */
  function NatText(n: nat): (s: string)
    ensures s != [] && AllDigits(s)
  {
    if n < 10 then [DigitChar(n)] else NatText(n / 10) + [DigitChar(n % 10)]
  }

  /** `str(i)` for a Python int. */
  function IntText(i: int): (s: string)
    ensures s != []
  {
    if i < 0 then "-" + NatText(-i) else NatText(i)
  }

  /** `str(i)` is made of digits and at most a leading '-'. */
  lemma IntTextChars(i: int)
    ensures forall j :: 0 <= j < |IntText(i)| ==> IsDigit(IntText(i)[j]) || IntText(i)[j] == '-'
  {
    if i < 0 {
      var d := NatText(-i);
      assert forall j :: 1 <= j < |IntText(i)| ==> IntText(i)[j] == d[j - 1];
    }
  }

  /** The number a run of decimal digits denotes (0 for the empty run). */
  function DigitsValue(s: string): nat
    requires AllDigits(s)
  {
    if s == [] then 0
    else DigitsValue(s[..|s| - 1]) * 10 + ((s[|s| - 1] as int) - ('0' as int))
  }

  lemma {:induction false} DigitsValueOfNatText(n: nat)
    ensures DigitsValue(NatText(n)) == n
  {
    if n >= 10 {
      var s := NatText(n);
      assert s[..|s| - 1] == NatText(n / 10);
      DigitsValueOfNatText(n / 10);
    }
  }

  /** `int(s)` for text: an optional sign followed by at least one decimal digit. */
  function ParseInt(s: string): (r: Option<int>)
    ensures r.Some? ==> s != []
  {
    if s != [] && (s[0] == '-' || s[0] == '+') then
      var digits := s[1..];
      if digits != [] && AllDigits(digits) then
        var n: int := DigitsValue(digits);
        Some(if s[0] == '-' then -n else n)
      else None
    else if s != [] && AllDigits(s) then Some(DigitsValue(s))
    else None
  }

  /** Parsing the text `str()` gives for an int returns that int. */
  lemma {:induction false} ParseIntText(i: int)
    ensures ParseInt(IntText(i)) == Some(i)
  {
    if i < 0 {
      var digits := NatText(-i);
      assert IntText(i) == "-" + digits;
      assert ("-" + digits)[1..] == digits;
      DigitsValueOfNatText(-i);
    } else {
      var digits := NatText(i);
      assert digits[0] != '-' && digits[0] != '+' by { assert IsDigit(digits[0]); }
      DigitsValueOfNatText(i);
    }
  }

  function IndexOf(s: string, c: char): (k: nat)
    ensures k <= |s|
    ensures k < |s| ==> s[k] == c
    ensures forall j :: 0 <= j < k ==> s[j] != c
  {
    if s == [] then 0 else if s[0] == c then 0 else 1 + IndexOf(s[1..], c)
  }

  /** The first `c` of `a + b` is where `b` starts, when `a` has none and `b` starts with one (or is empty). */
  lemma IndexOfAfter(a: string, b: string, c: char)
    requires c !in a
    requires b == [] || b[0] == c
    ensures IndexOf(a + b, c) == |a|
  {
    assert forall j :: 0 <= j < |a| ==> (a + b)[j] == a[j];
    assert b != [] ==> (a + b)[|a|] == b[0];
  }

  /** Text split at the first `c`: when neither head has a `c`, equal joins have equal parts. */
  lemma SplitAtFirst(a: string, b: string, x: string, y: string, c: char)
    requires c !in a && c !in x
    requires a + [c] + b == x + [c] + y
    ensures a == x && b == y
  {
    assert a + [c] + b == a + ([c] + b) && x + [c] + y == x + ([c] + y);
    IndexOfAfter(a, [c] + b, c);
    IndexOfAfter(x, [c] + y, c);
    assert a == (a + [c] + b)[..|a|] && x == (x + [c] + y)[..|x|];
    assert b == (a + [c] + b)[|a| + 1..] && y == (x + [c] + y)[|x| + 1..];
  }

  function Pow10(k: nat): (p: nat)
    ensures p >= 1
  {
    if k == 0 then 1 else 10 * Pow10(k - 1)
  }

  /** Unsigned decimal text: digits with at most one '.', at least one digit in all. */
  function ParseUnsignedDecimal(s: string): Option<real>
  {
    var k := IndexOf(s, '.');
    var whole, frac := s[..k], if k < |s| then s[k + 1..] else [];
    if whole == [] && frac == [] then None
    else if !AllDigits(whole) || !AllDigits(frac) then None
    else Some(DigitsValue(whole) as real + DigitsValue(frac) as real / Pow10(|frac|) as real)
  }

  /** `float(s)` for text of the form [sign] digits [. digits]. */
  function ParseFloat(s: string): Option<real>
  {
    if s != [] && (s[0] == '-' || s[0] == '+') then
      match ParseUnsignedDecimal(s[1..])
      case None => None
      case Some(r) => Some(if s[0] == '-' then -r else r)
    else ParseUnsignedDecimal(s)
  }

  /** Python's `float(v)`: numbers and booleans convert, text is parsed, the rest raise. */
  function ToFloat(v: Value): (r: Result<real>)
    ensures v.VInt? ==> r == Ok(v.i as real)
    ensures v.VFloat? ==> r == Ok(v.r)
    ensures v.VNone? || v.VList? || v.VDict? || v.VShape? ==> r.Err?
  {
    match v
    case VBool(b) => Ok(if b then 1.0 else 0.0)
    case VInt(i) => Ok(i as real)
    case VFloat(r) => Ok(r)
    case VStr(s) =>
      (match ParseFloat(s) case Some(r) => Ok(r) case None => Err(ValueError))
    case VNone => Err(TypeError)
    case VList(_) => Err(TypeError)
    case VDict(_) => Err(TypeError)
    case VShape(_) => Err(TypeError)
  }

  /** Text of an integer parses to that integer as a float. */
  lemma ParseFloatIntText(n: nat)
    ensures ParseFloat(NatText(n)) == Some(n as real)
  {
    var s := NatText(n);
    assert forall j :: 0 <= j < |s| ==> s[j] != '.' by {
      forall j | 0 <= j < |s| ensures s[j] != '.' { assert IsDigit(s[j]); }
    }
    assert s[0] != '-' && s[0] != '+' by { assert IsDigit(s[0]); }
    assert s[..|s|] == s;
    DigitsValueOfNatText(n);
  }

  /**
   * Python's `str(v)`. Text and scalars render as Python renders them; floats
   * only when integral, and lists, dicts and shapes render to a fixed marker.
   */
  function Str(v: Value): (s: string)
    ensures v.VStr? ==> s == v.s
    ensures v.VNone? ==> s == "None"
  {
    match v
    case VNone => "None"
    case VBool(b) => if b then "True" else "False"
    case VInt(i) => IntText(i)
    case VFloat(r) => if r.Floor as real == r then IntText(r.Floor) + ".0" else "<float>"
    case VStr(s) => s
    case VList(_) => "<list>"
    case VDict(_) => "<dict>"
    case VShape(_) => "<shape>"
  }

  /** `needle in hay` for two strings: a contiguous occurrence. */
  predicate HasSubstring(hay: string, needle: string)
  {
    exists i :: 0 <= i <= |hay| && OccursAt(hay, needle, i)
  }

  predicate OccursAt(hay: string, needle: string, i: nat)
  {
    i + |needle| <= |hay| && hay[i..i + |needle|] == needle
  }
}
