/** Decoded JSON and YAML values, and the small set of dynamic-typing rules of the
    host language that the modelled code relies on: truthiness, `strip`, and the
    conversions `str(value or "").strip()` that it calls `_text`. */
module JsonValues {

  function Fraction(n: int, d: int): real
    requires d > 0
  {
    n as real / d as real
  }

  ghost predicate IsFraction(r: real) {
    exists n: int, d: int :: d > 0 && Fraction(n, d) == r
  }

  lemma ZeroIsFraction()
    ensures IsFraction(0.0)
  {
    assert Fraction(0, 1) == 0.0;
  }

  /** The finite floating-point numbers are fractions; in particular there are only
      countably many of them. */
  type float = r: real | IsFraction(r) witness (ZeroIsFraction(); 0.0)

  datatype Json =
    | Null
    | Bool(b: bool)
    | Int(i: int)
    | Real(r: float)
    | Str(s: string)
    | Arr(a: seq<Json>)
    | Obj(m: map<string, Json>)

  /** How a value that is not a string prints; left open, so that every result
      holds for every printing. */
  type Printer = Json -> string

  type Digest = map<string, Json> -> string

  /** The two objects are not a collision of the digest. */
  predicate Distinguishes(digest: Digest, a: map<string, Json>, b: map<string, Json>) {
    digest(a) == digest(b) ==> a == b
  }

  ghost predicate NeverCollides(digest: Digest) {
    forall a, b :: Distinguishes(digest, a, b)
  }

  function Get(m: map<string, Json>, key: string): Json {
    if key in m then m[key] else Null
  }

  /** The field is there and is exactly this value. */
  predicate Has(m: map<string, Json>, key: string, v: Json) {
    key in m && m[key] == v
  }

  function ObjectOrEmpty(v: Json): map<string, Json> {
    if v.Obj? then v.m else map[]
  }

  function ListOrEmpty(v: Json): seq<Json> {
    if v.Arr? then v.a else []
  }

  predicate Truthy(v: Json) {
    match v
    case Null => false
    case Bool(b) => b
    case Int(i) => i != 0
    case Real(r) => r != 0.0
    case Str(s) => s != ""
    case Arr(a) => a != []
    case Obj(m) => m != map[]
  }

  /** `isinstance(value, int)`: a boolean is an integer too. */
  predicate IsInt(v: Json) {
    v.Int? || v.Bool?
  }

  predicate IsNumber(v: Json) {
    v.Bool? || v.Int? || v.Real?
  }

  function NumberOf(v: Json): real
    requires IsNumber(v)
  {
    match v
    case Bool(b) => if b then 1.0 else 0.0
    case Int(i) => i as real
    case Real(r) => r
  }

  /** `==` between decoded values, where booleans, integers and floats compare as numbers. */
  predicate PyEq(a: Json, b: Json) {
    if IsNumber(a) && IsNumber(b) then NumberOf(a) == NumberOf(b) else a == b
  }

  predicate IsSpace(c: char) {
    var x := c as int;
    || 0x09 <= x <= 0x0D || 0x1C <= x <= 0x20 || x == 0x85 || x == 0xA0 || x == 0x1680
    || 0x2000 <= x <= 0x200A || x == 0x2028 || x == 0x2029 || x == 0x202F || x == 0x205F || x == 0x3000
  }

  function StripLeft(s: string): string {
    if s != "" && IsSpace(s[0]) then StripLeft(s[1..]) else s
  }

  function StripRight(s: string): string {
    if s != "" && IsSpace(s[|s| - 1]) then StripRight(s[..|s| - 1]) else s
  }

  function Strip(s: string): string {
    StripRight(StripLeft(s))
  }

  function Text(v: Json, printer: Printer): string {
    if !Truthy(v) then "" else if v.Str? then Strip(v.s) else Strip(printer(v))
  }

  /** `str(value or "")`, not stripped. */
  function RawText(v: Json, printer: Printer): string {
    if !Truthy(v) then "" else if v.Str? then v.s else printer(v)
  }

  predicate StartsWith(s: string, prefix: string) {
    prefix <= s
  }

  predicate EndsWith(s: string, suffix: string) {
    |suffix| <= |s| && s[|s| - |suffix|..] == suffix
  }

  // ---- What these rules come to ----

  lemma FalsyExactlyWhen(v: Json)
    ensures !Truthy(v) <==>
            v == Null || v == Bool(false) || v == Int(0) || (v.Real? && v.r == 0.0) || v == Str("") || v == Arr([])
            || v == Obj(map[])
  {
  }

  lemma {:induction false} StripLeftCuts(s: string) returns (n: nat)
    ensures n <= |s| && StripLeft(s) == s[n..] && forall i :: 0 <= i < n ==> IsSpace(s[i])
    ensures n < |s| ==> !IsSpace(s[n])
  {
    hide IsSpace;
    if s != "" && IsSpace(s[0]) {
      var m := StripLeftCuts(s[1..]);
      n := m + 1;
      assert forall i :: 0 < i < n ==> s[i] == s[1..][i - 1];
    } else {
      n := 0;
    }
  }

  lemma {:induction false} StripRightCuts(s: string) returns (n: nat)
    ensures n <= |s| && StripRight(s) == s[..n] && forall i :: n <= i < |s| ==> IsSpace(s[i])
    ensures n > 0 ==> !IsSpace(s[n - 1])
  {
    hide IsSpace;
    if s != "" && IsSpace(s[|s| - 1]) {
      n := StripRightCuts(s[..|s| - 1]);
    } else {
      n := |s|;
    }
  }

  /** Stripping takes the white space off both ends, all of it and nothing else. */
  lemma StripMeans(s: string) returns (i: nat, j: nat)
    ensures i <= j <= |s| && Strip(s) == s[i..j]
    ensures forall k :: 0 <= k < i || j <= k < |s| ==> IsSpace(s[k])
    ensures i < j ==> !IsSpace(s[i]) && !IsSpace(s[j - 1])
  {
    hide IsSpace;
    i := StripLeftCuts(s);
    var n := StripRightCuts(s[i..]);
    j := i + n;
    assert s[i..][..n] == s[i..j];
    if n > 0 {
      assert s[i..][n - 1] == s[j - 1];
    }
    forall k | j <= k < |s|
      ensures IsSpace(s[k])
    {
      assert s[k] == s[i..][k - i];
    }
  }

  lemma {:induction false} StripRightDone(s: string)
    ensures var t := StripRight(s); t == "" || !IsSpace(t[|t| - 1])
    ensures StripRight(StripRight(s)) == StripRight(s) && StripRight(s) <= s
  {
    if s != "" && IsSpace(s[|s| - 1]) {
      StripRightDone(s[..|s| - 1]);
    }
  }

  lemma {:induction false} StripLeftDone(s: string)
    ensures var t := StripLeft(s); t == "" || !IsSpace(t[0])
  {
    if s != "" && IsSpace(s[0]) {
      StripLeftDone(s[1..]);
    }
  }

  lemma StripTwice(s: string)
    ensures Strip(Strip(s)) == Strip(s)
  {
    var left := StripLeft(s);
    StripLeftDone(s);
    StripRightDone(left);
    assert Strip(s) == "" || Strip(s)[0] == left[0];
  }

  /** The white space of the host language. */
  lemma WhiteSpace(c: char)
    ensures IsSpace(c) <==> c as int in {
      0x09, 0x0A, 0x0B, 0x0C, 0x0D, 0x1C, 0x1D, 0x1E, 0x1F, 0x20, 0x85, 0xA0, 0x1680,
      0x2000, 0x2001, 0x2002, 0x2003, 0x2004, 0x2005, 0x2006, 0x2007, 0x2008, 0x2009, 0x200A,
      0x2028, 0x2029, 0x202F, 0x205F, 0x3000}
  {
  }

  /** Equality follows the numbers, never the kind of number. */
  lemma EqualNumbers(a: Json, b: Json)
    ensures PyEq(a, b) <==>
            || a == b
            || (a.Int? && b.Bool? && a.i == if b.b then 1 else 0)
            || (a.Bool? && b.Int? && b.i == if a.b then 1 else 0)
            || (a.Int? && b.Real? && a.i as real == b.r) || (a.Real? && b.Int? && a.r == b.i as real)
            || (a.Bool? && b.Real? && b.r == if a.b then 1.0 else 0.0)
            || (a.Real? && b.Bool? && a.r == if b.b then 1.0 else 0.0)
  {
  }

  lemma HasExactlyWhen(m: map<string, Json>, key: string, v: Json)
    requires v != Null
    ensures Has(m, key, v) <==> Get(m, key) == v
  {
  }

  /** `str(value or "")` of a text, of nothing, and of any other value. */
  lemma TextMeans(v: Json, printer: Printer)
    ensures v.Str? ==> RawText(v, printer) == v.s && Text(v, printer) == Strip(v.s)
    ensures v in {Null, Bool(false), Int(0), Arr([]), Obj(map[])} ==> RawText(v, printer) == "" == Text(v, printer)
    ensures !v.Str? && Truthy(v) ==> RawText(v, printer) == printer(v) && Text(v, printer) == Strip(printer(v))
  {
  }

  lemma EndsWithMeans(s: string, suffix: string)
    ensures EndsWith(s, suffix) <==> exists front :: s == front + suffix
  {
    if EndsWith(s, suffix) {
      assert s == s[..|s| - |suffix|] + suffix;
    }
  }
}
