/** POSIX paths as text and as components: reading, printing and lexical
    normalisation, none of which touches the file system. */
module LexicalPath {

  /** Exactly two leading slashes are a root of their own. */
  datatype Root = NoRoot | Single | Double

  datatype Path = Path(root: Root, parts: seq<string>)

  predicate Absolute(p: Path) {
    !p.root.NoRoot?
  }

  predicate NoSlash(s: string) {
    forall i :: 0 <= i < |s| ==> s[i] != '/'
  }

  predicate Component(s: string) {
    s != "" && s != "." && NoSlash(s)
  }

  predicate Components(parts: seq<string>) {
    forall i :: 0 <= i < |parts| ==> Component(parts[i])
  }

  predicate WellFormed(p: Path) {
    Components(p.parts)
  }

  // ---- Reading and printing ----

  /** The pieces between slashes, empty ones included; never no piece at all. */
  function Split(s: string): (r: seq<string>)
    ensures r != []
  {
    if s == "" then [""]
    else
      var rest := Split(s[1..]);
      if s[0] == '/' then [""] + rest else [[s[0]] + rest[0]] + rest[1..]
  }

  function Join(parts: seq<string>): string {
    if parts == [] then "" else if |parts| == 1 then parts[0] else parts[0] + "/" + Join(parts[1..])
  }

  function Keep(pieces: seq<string>): seq<string> {
    if pieces == [] then []
    else (if pieces[0] == "" || pieces[0] == "." then [] else [pieces[0]]) + Keep(pieces[1..])
  }

  function RootOf(s: string): Root {
    if !("/" <= s) then NoRoot else if "//" <= s && !("///" <= s) then Double else Single
  }

  /** `Path(text)`. */
  function Parse(s: string): Path {
    Path(RootOf(s), Keep(Split(s)))
  }

  function RootText(r: Root): string {
    match r
    case NoRoot => ""
    case Single => "/"
    case Double => "//"
  }

  /** `str(path)`. */
  function Render(p: Path): string {
    var s := RootText(p.root) + Join(p.parts);
    if s == "" then "." else s
  }

  lemma {:induction false} SplitNoSlash(s: string)
    requires NoSlash(s)
    ensures Split(s) == [s]
  {
    if s != "" {
      SplitNoSlash(s[1..]);
      assert [s[0]] + s[1..] == s;
    }
  }

  lemma {:induction false} SplitAtSlash(first: string, rest: string)
    requires NoSlash(first)
    ensures Split(first + "/" + rest) == [first] + Split(rest)
  {
    var s := first + "/" + rest;
    if first == "" {
      assert s[1..] == rest;
    } else {
      assert s[1..] == first[1..] + "/" + rest;
      SplitAtSlash(first[1..], rest);
      assert [first[0]] + first[1..] == first;
    }
  }

  lemma {:induction false} SplitJoin(parts: seq<string>)
    requires parts != [] && forall i :: 0 <= i < |parts| ==> NoSlash(parts[i])
    ensures Split(Join(parts)) == parts
  {
    if |parts| == 1 {
      SplitNoSlash(parts[0]);
    } else {
      SplitAtSlash(parts[0], Join(parts[1..]));
      SplitJoin(parts[1..]);
      assert parts == [parts[0]] + parts[1..];
    }
  }

  lemma {:induction false} KeepAll(parts: seq<string>)
    requires Components(parts)
    ensures Keep(parts) == parts
  {
    if parts != [] {
      KeepAll(parts[1..]);
      assert parts == [parts[0]] + parts[1..];
    }
  }

  lemma {:induction false} SplitPieces(s: string)
    ensures forall i :: 0 <= i < |Split(s)| ==> NoSlash(Split(s)[i])
  {
    if s != "" {
      SplitPieces(s[1..]);
    }
  }

  lemma {:induction false} KeepComponents(pieces: seq<string>)
    requires forall i :: 0 <= i < |pieces| ==> NoSlash(pieces[i])
    ensures Components(Keep(pieces))
  {
    if pieces != [] {
      KeepComponents(pieces[1..]);
    }
  }

  lemma ParseIsWellFormed(s: string)
    ensures WellFormed(Parse(s))
  {
    SplitPieces(s);
    KeepComponents(Split(s));
  }

  lemma JoinStart(parts: seq<string>)
    requires parts != [] && Components(parts)
    ensures Join(parts) != "" && Join(parts)[0] != '/'
  {
    assert Component(parts[0]);
  }

  lemma RootOfText(root: Root, body: string)
    requires body == "" || body[0] != '/'
    ensures RootOf(RootText(root) + body) == root
  {
    var s := RootText(root) + body;
    match root
    case NoRoot => assert s == body;
    case Single => assert |s| > 1 ==> s[1] == body[0];
    case Double => assert |s| > 2 ==> s[2] == body[0];
  }

  lemma PiecesOfText(root: Root, body: string)
    ensures Keep(Split(RootText(root) + body)) == Keep(Split(body))
  {
    match root
    case NoRoot => assert "" + body == body;
    case Single =>
      assert "/" + body == "" + "/" + body;
      SplitAtSlash("", body);
      assert ([""] + Split(body))[1..] == Split(body);
    case Double =>
      assert "//" + body == "" + "/" + ("" + "/" + body);
      SplitAtSlash("", "" + "/" + body);
      SplitAtSlash("", body);
      var once := [""] + Split(body);
      assert once[1..] == Split(body) && ([""] + once)[1..] == once;
  }

  lemma PiecesOfBody(parts: seq<string>)
    requires Components(parts)
    ensures Keep(Split(Join(parts))) == parts
  {
    if parts == [] {
      assert Split("") == [""] && Keep([""]) == [""][1..];
    } else {
      SplitJoin(parts);
      KeepAll(parts);
    }
  }

  lemma DotIsEmpty()
    ensures Parse(".") == Path(NoRoot, []) && Join([]) == ""
  {
    SplitNoSlash(".");
  }

  /** Reading a printed path gives the path back. */
  lemma ParseRender(p: Path)
    requires WellFormed(p)
    ensures Parse(Render(p)) == p
  {
    hide RootOf;
    hide Split;
    hide Keep;
    hide Join;
    var body := Join(p.parts);
    DotIsEmpty();
    if p.parts != [] { JoinStart(p.parts); }
    PiecesOfBody(p.parts);
    RootOfText(p.root, body);
    PiecesOfText(p.root, body);
  }

  // ---- Normalisation ----

  /** `os.path.normpath` on components: `..` takes back the last one, and is dropped
      at a root. */
  function Fold(absolute: bool, done: seq<string>, todo: seq<string>): seq<string>
    decreases |todo|
  {
    if todo == [] then done
    else if todo[0] != ".." || (!absolute && done == []) || (done != [] && done[|done| - 1] == "..")
    then Fold(absolute, done + [todo[0]], todo[1..])
    else if done != [] then Fold(absolute, done[..|done| - 1], todo[1..])
    else Fold(absolute, done, todo[1..])
  }

  function NormText(s: string): string {
    var p := Parse(s);
    Render(Path(p.root, Fold(Absolute(p), [], p.parts)))
  }

  /** `_canonical_lexical`, through the text as the program goes. */
  function Canonical(p: Path): Path {
    Parse(NormText(Render(p)))
  }

  function Folded(p: Path): Path {
    Path(p.root, Fold(Absolute(p), [], p.parts))
  }

  predicate NoDotDot(parts: seq<string>) {
    forall i :: 0 <= i < |parts| ==> parts[i] != ".."
  }

  /** Folding keeps components, and an absolute fold leaves no `..`. */
  lemma {:induction false} FoldKeeps(absolute: bool, done: seq<string>, todo: seq<string>)
    requires Components(done) && Components(todo)
    ensures Components(Fold(absolute, done, todo))
    ensures absolute && NoDotDot(done) ==> NoDotDot(Fold(absolute, done, todo))
    decreases |todo|
  {
    hide Component;
    if todo == [] {
    } else if todo[0] != ".." || (!absolute && done == []) || (done != [] && done[|done| - 1] == "..") {
      assert Components(done + [todo[0]]);
      FoldKeeps(absolute, done + [todo[0]], todo[1..]);
    } else if done != [] {
      FoldKeeps(absolute, done[..|done| - 1], todo[1..]);
    } else {
      FoldKeeps(absolute, done, todo[1..]);
    }
  }

  /** Going through the text loses nothing. */
  lemma CanonicalIsFolded(p: Path)
    requires WellFormed(p)
    ensures Canonical(p) == Folded(p) && WellFormed(Folded(p))
    ensures Absolute(p) ==> NoDotDot(Folded(p).parts)
  {
    ParseRender(p);
    FoldKeeps(Absolute(p), [], p.parts);
    ParseRender(Folded(p));
  }

  lemma {:induction false} FoldPlain(absolute: bool, done: seq<string>, todo: seq<string>)
    requires NoDotDot(todo)
    ensures Fold(absolute, done, todo) == done + todo
    decreases |todo|
  {
    if todo == [] {
      assert done + todo == done;
    } else {
      FoldPlain(absolute, done + [todo[0]], todo[1..]);
      assert done + [todo[0]] + todo[1..] == done + todo;
    }
  }

  /** Components as a fold leaves them: `..` only in front, and none at a root. */
  predicate Normal(absolute: bool, parts: seq<string>) {
    && (absolute ==> NoDotDot(parts))
    && forall i :: 0 < i < |parts| && parts[i] == ".." ==> parts[i - 1] == ".."
  }

  lemma {:induction false} FoldIsNormal(absolute: bool, done: seq<string>, todo: seq<string>)
    requires Normal(absolute, done)
    ensures Normal(absolute, Fold(absolute, done, todo))
    decreases |todo|
  {
    if todo == [] {
    } else if todo[0] != ".." || (!absolute && done == []) || (done != [] && done[|done| - 1] == "..") {
      FoldIsNormal(absolute, done + [todo[0]], todo[1..]);
    } else if done != [] {
      FoldIsNormal(absolute, done[..|done| - 1], todo[1..]);
    } else {
      FoldIsNormal(absolute, done, todo[1..]);
    }
  }

  lemma {:induction false} FoldNormal(absolute: bool, done: seq<string>, todo: seq<string>)
    requires Normal(absolute, done + todo)
    ensures Fold(absolute, done, todo) == done + todo
    decreases |todo|
  {
    if todo == [] {
      assert done + todo == done;
    } else {
      var all, n := done + todo, |done|;
      assert all[n] == todo[0] && (n > 0 ==> all[n - 1] == done[n - 1]);
      assert done + [todo[0]] + todo[1..] == all;
      FoldNormal(absolute, done + [todo[0]], todo[1..]);
    }
  }

  /** A normalised path is its own normal form. */
  lemma CanonicalTwice(p: Path)
    requires WellFormed(p)
    ensures Canonical(Canonical(p)) == Canonical(p)
  {
    CanonicalIsFolded(p);
    CanonicalIsFolded(Folded(p));
    FoldIsNormal(Absolute(p), [], p.parts);
    var folded := Folded(p).parts;
    assert [] + folded == folded;
    FoldNormal(Absolute(p), [], folded);
  }

  // ---- Laws of reading, printing and normalising ----

  lemma {:induction false} SplitConcat(s: string, t: string)
    ensures Split(s + "/" + t) == Split(s) + Split(t)
  {
    var text := s + "/" + t;
    if s == "" {
      assert text[1..] == t;
    } else {
      assert text[1..] == s[1..] + "/" + t;
      SplitConcat(s[1..], t);
    }
  }

  lemma {:induction false} KeepConcat(p: seq<string>, q: seq<string>)
    ensures Keep(p + q) == Keep(p) + Keep(q)
  {
    if p == [] {
      assert p + q == q;
    } else {
      assert (p + q)[1..] == p[1..] + q;
      KeepConcat(p[1..], q);
    }
  }

  /** Reading, piece by piece: a slash separates, and a piece is a component unless it
      is empty or a dot. The slashes in front decide the root. */
  lemma ParseLaws(s: string, t: string, c: string)
    requires NoSlash(c)
    ensures Parse(s + "/" + t).parts == Parse(s).parts + Parse(t).parts
    ensures Parse(c) == Path(NoRoot, if c == "" || c == "." then [] else [c])
    ensures Parse(s).root == if s == "" || s[0] != '/' then NoRoot
                             else if |s| >= 2 && s[1] == '/' && (|s| == 2 || s[2] != '/') then Double
                             else Single
  {
    SplitConcat(s, t);
    KeepConcat(Split(s), Split(t));
    SplitNoSlash(c);
    hide Split;
    assert [c][1..] == [];
    assert Keep([c]) == if c == "" || c == "." then [] else [c];
  }

  lemma {:induction false} JoinSnoc(parts: seq<string>, c: string)
    requires parts != []
    ensures Join(parts + [c]) == Join(parts) + "/" + c
  {
    if |parts| == 1 {
      assert (parts + [c])[1..] == [c];
    } else {
      assert (parts + [c])[1..] == parts[1..] + [c];
      JoinSnoc(parts[1..], c);
    }
  }

  /** Printing, component by component. */
  lemma RenderLaws(root: Root, parts: seq<string>, c: string)
    requires Components(parts) && c != ""
    ensures Render(Path(NoRoot, [])) == "." && Render(Path(NoRoot, [c])) == c
    ensures Render(Path(Single, [])) == "/" && Render(Path(Single, [c])) == "/" + c
    ensures Render(Path(Double, [])) == "//" && Render(Path(Double, [c])) == "//" + c
    ensures parts != [] ==> Render(Path(root, parts + [c])) == Render(Path(root, parts)) + "/" + c
  {
    if parts != [] {
      JoinSnoc(parts, c);
      JoinStart(parts);
      assert RootText(root) + (Join(parts) + "/" + c) == RootText(root) + Join(parts) + "/" + c;
    }
  }

  lemma {:induction false} FoldConcat(absolute: bool, done: seq<string>, first: seq<string>, rest: seq<string>)
    ensures Fold(absolute, done, first + rest) == Fold(absolute, Fold(absolute, done, first), rest)
    decreases |first|
  {
    if first == [] {
      assert first + rest == rest;
    } else {
      assert (first + rest)[1..] == first[1..] + rest;
      if first[0] != ".." || (!absolute && done == []) || (done != [] && done[|done| - 1] == "..") {
        FoldConcat(absolute, done + [first[0]], first[1..], rest);
      } else if done != [] {
        FoldConcat(absolute, done[..|done| - 1], first[1..], rest);
      } else {
        FoldConcat(absolute, done, first[1..], rest);
      }
    }
  }

  lemma FoldCancels(absolute: bool, done: seq<string>, c: string, rest: seq<string>)
    requires c != ".."
    ensures Fold(absolute, done, [c, ".."] + rest) == Fold(absolute, done, rest)
  {
    assert ([c, ".."] + rest)[1..] == [".."] + rest;
    assert ([".."] + rest)[1..] == rest;
    var more := done + [c];
    assert more[|more| - 1] == c && more[..|more| - 1] == done;
  }

  lemma FoldLaws(absolute: bool, pre: seq<string>, c: string, post: seq<string>)
    requires c != ".."
    ensures Fold(absolute, [], pre + [c, ".."] + post) == Fold(absolute, [], pre + post)
    ensures Fold(true, [], [".."] + post) == Fold(true, [], post)
  {
    assert pre + [c, ".."] + post == pre + ([c, ".."] + post);
    FoldConcat(absolute, [], pre, [c, ".."] + post);
    FoldConcat(absolute, [], pre, post);
    FoldCancels(absolute, Fold(absolute, [], pre), c, post);
    assert ([".."] + post)[1..] == post;
  }

  /** What normalising must do, with no word about how: a name followed by `..` takes
      nothing away from the meaning, wherever it stands; `..` at a root is the root. */
  lemma CanonicalLaws(root: Root, pre: seq<string>, c: string, post: seq<string>)
    requires Components(pre) && Component(c) && Components(post) && c != ".."
    ensures Canonical(Path(root, pre + [c, ".."] + post)) == Canonical(Path(root, pre + post))
    ensures !root.NoRoot? ==> Canonical(Path(root, [".."] + post)) == Canonical(Path(root, post))
  {
    assert Component("..");
    hide Component;
    hide Fold;
    hide Canonical;
    CanonicalIsFolded(Path(root, pre + [c, ".."] + post));
    CanonicalIsFolded(Path(root, pre + post));
    CanonicalIsFolded(Path(root, [".."] + post));
    CanonicalIsFolded(Path(root, post));
    FoldLaws(!root.NoRoot?, pre, c, post);
  }

  /** Without them nothing changes: `..` in front of a relative path stays. */
  lemma CanonicalPlain(root: Root, ups: seq<string>, names: seq<string>)
    requires Components(names) && NoDotDot(names)
    requires (forall i :: 0 <= i < |ups| ==> ups[i] == "..") && (root.NoRoot? || ups == [])
    ensures Canonical(Path(root, ups + names)) == Path(root, ups + names)
  {
    CanonicalIsFolded(Path(root, ups + names));
    hide Canonical;
    var parts := ups + names;
    assert [] + parts == parts;
    FoldNormal(!root.NoRoot?, [], parts);
  }

  // ---- Prefixes ----

  /** `candidate.relative_to(prefix)` succeeds. */
  predicate IsUnder(candidate: Path, prefix: Path) {
    candidate.root == prefix.root && prefix.parts <= candidate.parts
  }

  /** `base / relative` for a relative path of these components. */
  function Append(base: Path, relative: seq<string>): Path {
    Path(base.root, base.parts + relative)
  }

  lemma UnderMeans(candidate: Path, prefix: Path)
    ensures IsUnder(candidate, prefix) <==> exists rest :: candidate == Path(prefix.root, prefix.parts + rest)
  {
    if IsUnder(candidate, prefix) {
      assert candidate == Path(prefix.root, prefix.parts + candidate.parts[|prefix.parts|..]);
    }
  }
}
