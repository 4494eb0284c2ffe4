/** A text for every decoded value from which the value can be read back. It shows
    that a digest without collisions is a condition that can be met. */
module CanonicalText {
  import opened JsonValues

  function Unary(n: nat): string {
    if n == 0 then "." else "1" + Unary(n - 1)
  }

  function Sign(i: int): char {
    if i < 0 then '-' else '+'
  }

  function Magnitude(i: int): nat {
    if i < 0 then -i else i
  }

  function IntCode(i: int): string {
    [Sign(i)] + Unary(Magnitude(i))
  }

  function TextCode(s: string): string {
    Unary(|s|) + s
  }

  ghost function Parts(r: float): (p: (int, int))
    ensures p.1 > 0 && Fraction(p.0, p.1) == r
  {
    assert IsFraction(r);
    var n: int, d: int :| d > 0 && Fraction(n, d) == r;
    (n, d)
  }

  /** The keys in some order; which one does not matter to reading back. */
  ghost function Ordered(keys: set<string>): (order: seq<string>)
    ensures |order| == |keys| && forall k :: k in order <==> k in keys
  {
    if keys == {} then [] else var k :| k in keys; [k] + Ordered(keys - {k})
  }

  ghost function Code(v: Json): string
    decreases v
  {
    match v
    case Null => "n"
    case Bool(b) => if b then "t" else "f"
    case Int(i) => "i" + IntCode(i)
    case Real(r) => "r" + IntCode(Parts(r).0) + Unary(Parts(r).1)
    case Str(s) => "s" + TextCode(s)
    case Arr(a) => "a" + Unary(|a|) + Elements(v, 0)
    case Obj(m) => "o" + Unary(|m|) + Entries(v, Ordered(m.Keys))
  }

  ghost function Elements(v: Json, i: nat): string
    requires v.Arr? && i <= |v.a|
    decreases v, |v.a| - i
  {
    if i == |v.a| then "" else Code(v.a[i]) + Elements(v, i + 1)
  }

  ghost function Entries(v: Json, keys: seq<string>): string
    requires v.Obj? && forall k :: k in keys ==> k in v.m
    decreases v, |keys|
  {
    if keys == [] then "" else TextCode(keys[0]) + Code(v.m[keys[0]]) + Entries(v, keys[1..])
  }

  // ---- Reading back ----

  lemma {:induction false} UnaryReads(m: nat, n: nat, x: string, y: string)
    requires Unary(m) + x == Unary(n) + y
    ensures m == n && x == y
  {
    var s, t := Unary(m) + x, Unary(n) + y;
    assert s[0] == t[0];
    if m == 0 || n == 0 {
      assert s[1..] == x && t[1..] == y;
    } else {
      assert s[1..] == Unary(m - 1) + x && t[1..] == Unary(n - 1) + y;
      UnaryReads(m - 1, n - 1, x, y);
    }
  }

  /** Texts that agree agree after their first character. */
  lemma HeadReads(c: char, d: char, s: string, t: string, x: string, y: string)
    requires [c] + s + x == [d] + t + y
    ensures c == d && s + x == t + y
  {
    var p, q := [c] + s + x, [d] + t + y;
    assert p[0] == c && q[0] == d;
    assert p[1..] == s + x && q[1..] == t + y;
  }

  lemma IntReads(i: int, j: int, x: string, y: string)
    requires IntCode(i) + x == IntCode(j) + y
    ensures i == j && x == y
  {
    hide Unary;
    HeadReads(Sign(i), Sign(j), Unary(Magnitude(i)), Unary(Magnitude(j)), x, y);
    UnaryReads(Magnitude(i), Magnitude(j), x, y);
  }

  lemma TextReads(a: string, b: string, x: string, y: string)
    requires TextCode(a) + x == TextCode(b) + y
    ensures a == b && x == y
  {
    hide Unary;
    assert TextCode(a) + x == Unary(|a|) + (a + x) && TextCode(b) + y == Unary(|b|) + (b + y);
    UnaryReads(|a|, |b|, a + x, b + y);
    assert a == (a + x)[..|a|] && b == (b + y)[..|b|];
    assert x == (a + x)[|a|..] && y == (b + y)[|b|..];
  }

  /** Every code starts with the letter of its constructor. */
  function Letter(v: Json): char {
    match v
    case Null => 'n'
    case Bool(b) => if b then 't' else 'f'
    case Int(_) => 'i'
    case Real(_) => 'r'
    case Str(_) => 's'
    case Arr(_) => 'a'
    case Obj(_) => 'o'
  }

  ghost function Rest(v: Json): string {
    Code(v)[1..]
  }

  lemma CodeStarts(v: Json)
    ensures Code(v) == [Letter(v)] + Rest(v)
    ensures v.Int? ==> Rest(v) == IntCode(v.i)
    ensures v.Real? ==> Rest(v) == IntCode(Parts(v.r).0) + Unary(Parts(v.r).1)
    ensures v.Str? ==> Rest(v) == TextCode(v.s)
    ensures v.Arr? ==> Rest(v) == Unary(|v.a|) + Elements(v, 0)
    ensures v.Obj? ==> Rest(v) == Unary(|v.m|) + Entries(v, Ordered(v.m.Keys))
    ensures v.Null? || v.Bool? ==> Rest(v) == ""
  {
    hide Unary;
    hide IntCode;
    hide TextCode;
    hide Elements;
    hide Entries;
    assert Code(v)[0] == Letter(v);
  }

  lemma SameShape(v: Json, w: Json)
    requires Letter(v) == Letter(w)
    ensures v.Null? == w.Null? && v.Bool? == w.Bool? && v.Int? == w.Int? && v.Real? == w.Real?
    ensures v.Str? == w.Str? && v.Arr? == w.Arr? && v.Obj? == w.Obj?
    ensures v.Null? || v.Bool? ==> v == w
  {
  }

  /** No code is the beginning of another: equal texts have equal first values. */
  lemma {:induction false} CodeReads(v: Json, w: Json, x: string, y: string)
    requires Code(v) + x == Code(w) + y
    ensures v == w && x == y
    decreases v
  {
    hide Code;
    hide Unary;
    hide IntCode;
    hide TextCode;
    hide Elements;
    hide Entries;
    hide Rest;
    hide Letter;
    CodeStarts(v);
    CodeStarts(w);
    HeadReads(Letter(v), Letter(w), Rest(v), Rest(w), x, y);
    SameShape(v, w);
    assert "" + x == x && "" + y == y;
    match v
    case Null =>
    case Bool(_) =>
    case Int(i) => IntReads(i, w.i, x, y);
    case Real(r) => FractionReads(r, w.r, x, y);
    case Str(s) => TextReads(s, w.s, x, y);
    case Arr(_) => ArrayReads(v, w, x, y);
    case Obj(_) => ObjectReads(v, w, x, y);
  }

  lemma ArrayReads(v: Json, w: Json, x: string, y: string)
    requires v.Arr? && w.Arr?
    requires Unary(|v.a|) + Elements(v, 0) + x == Unary(|w.a|) + Elements(w, 0) + y
    ensures v == w && x == y
    decreases v, |v.a| + 1
  {
    hide Unary;
    hide Elements;
    assert Unary(|v.a|) + Elements(v, 0) + x == Unary(|v.a|) + (Elements(v, 0) + x);
    assert Unary(|w.a|) + Elements(w, 0) + y == Unary(|w.a|) + (Elements(w, 0) + y);
    UnaryReads(|v.a|, |w.a|, Elements(v, 0) + x, Elements(w, 0) + y);
    ElementsRead(v, w, 0, x, y);
    assert v.a[0..] == v.a && w.a[0..] == w.a;
  }

  lemma ObjectReads(v: Json, w: Json, x: string, y: string)
    requires v.Obj? && w.Obj?
    requires Unary(|v.m|) + Entries(v, Ordered(v.m.Keys)) + x == Unary(|w.m|) + Entries(w, Ordered(w.m.Keys)) + y
    ensures v == w && x == y
    decreases v, |v.m.Keys| + 1
  {
    hide Unary;
    hide Entries;
    hide Ordered;
    var keys, others := Ordered(v.m.Keys), Ordered(w.m.Keys);
    assert Unary(|v.m|) + Entries(v, keys) + x == Unary(|v.m|) + (Entries(v, keys) + x);
    assert Unary(|w.m|) + Entries(w, others) + y == Unary(|w.m|) + (Entries(w, others) + y);
    UnaryReads(|v.m|, |w.m|, Entries(v, keys) + x, Entries(w, others) + y);
    assert |v.m| == |v.m.Keys| && |w.m| == |w.m.Keys|;
    EntriesRead(v, w, keys, others, x, y);
    assert v.m == w.m by {
      assert forall k :: k in v.m.Keys <==> k in w.m.Keys;
    }
  }

  lemma FractionReads(q: float, r: float, x: string, y: string)
    requires IntCode(Parts(q).0) + Unary(Parts(q).1) + x == IntCode(Parts(r).0) + Unary(Parts(r).1) + y
    ensures q == r && x == y
  {
    hide Unary;
    hide IntCode;
    var (a, b) := Parts(q);
    var (c, d) := Parts(r);
    assert IntCode(a) + Unary(b) + x == IntCode(a) + (Unary(b) + x);
    assert IntCode(c) + Unary(d) + y == IntCode(c) + (Unary(d) + y);
    IntReads(a, c, Unary(b) + x, Unary(d) + y);
    UnaryReads(b, d, x, y);
  }

  lemma {:induction false} ElementsRead(v: Json, w: Json, i: nat, x: string, y: string)
    requires v.Arr? && w.Arr? && |v.a| == |w.a| && i <= |v.a|
    requires Elements(v, i) + x == Elements(w, i) + y
    ensures v.a[i..] == w.a[i..] && x == y
    decreases v, |v.a| - i
  {
    hide Code;
    if i == |v.a| {
      assert "" + x == x && "" + y == y;
    } else {
      assert Elements(v, i) + x == Code(v.a[i]) + (Elements(v, i + 1) + x);
      assert Elements(w, i) + y == Code(w.a[i]) + (Elements(w, i + 1) + y);
      CodeReads(v.a[i], w.a[i], Elements(v, i + 1) + x, Elements(w, i + 1) + y);
      ElementsRead(v, w, i + 1, x, y);
      assert v.a[i..] == [v.a[i]] + v.a[i + 1..] && w.a[i..] == [w.a[i]] + w.a[i + 1..];
    }
  }

  lemma {:induction false} EntriesRead(v: Json, w: Json, keys: seq<string>, others: seq<string>, x: string, y: string)
    requires v.Obj? && w.Obj? && |keys| == |others|
    requires (forall k :: k in keys ==> k in v.m) && (forall k :: k in others ==> k in w.m)
    requires Entries(v, keys) + x == Entries(w, others) + y
    ensures keys == others && x == y && forall k :: k in keys ==> v.m[k] == w.m[k]
    decreases v, |keys|
  {
    hide Code;
    hide TextCode;
    if keys == [] {
      assert "" + x == x && "" + y == y;
    } else {
      var k, l := keys[0], others[0];
      var more, rest := Entries(v, keys[1..]) + x, Entries(w, others[1..]) + y;
      assert Entries(v, keys) + x == TextCode(k) + (Code(v.m[k]) + more);
      assert Entries(w, others) + y == TextCode(l) + (Code(w.m[l]) + rest);
      TextReads(k, l, Code(v.m[k]) + more, Code(w.m[l]) + rest);
      CodeReads(v.m[k], w.m[l], more, rest);
      EntriesRead(v, w, keys[1..], others[1..], x, y);
      assert keys == [k] + keys[1..] && others == [l] + others[1..];
    }
  }

  ghost function ObjectCode(m: map<string, Json>): string {
    Code(Obj(m))
  }

  /** There is a digest that never collides. */
  lemma SomeDigestNeverCollides()
    ensures exists digest: Digest :: NeverCollides(digest)
  {
    ghost var digest: Digest := m => ObjectCode(m);
    forall a, b
      ensures Distinguishes(digest, a, b)
    {
      if digest(a) == digest(b) {
        assert Code(Obj(a)) + "" == Code(Obj(b)) + "";
        CodeReads(Obj(a), Obj(b), "", "");
      }
    }
    assert NeverCollides(digest);
  }
}
