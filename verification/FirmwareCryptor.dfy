/** The firmware cryptor: a byte-wise stream cipher whose key schedule is driven
    by the plaintext it has already seen. Machine words are bit-vectors; a byte is
    a 16-bit word below 0x100, so that the byte ranges below are results. */
module FirmwareCryptor {
  import opened Core

  type word = bv16

  /** `acc`, `y` and `z` of one cryptor. */
  datatype State = State(acc: word, y: word, z: word)

  const INITIAL := State(0, 0, 0)

  /** One row of the table for one value of `acc`: the pair stored, with the LCG output second. */
  datatype Step = Step(y: word, t: word)

  // ---- The key ----

  predicate Ascii(secret: string) {
    forall i :: 0 <= i < |secret| ==> secret[i] as int < 0x80
  }

  /** The number of key pairs. */
  function Pairs(secret: string): nat {
    |secret| / 2
  }

  function CharWord(c: char): (w: word)
    requires c as int < 0x80
    ensures w < 0x80
  {
    c as int as word
  }

  /** The secret as words; one zero is appended when the number of pairs is even. */
  function KeyWords(secret: string): (k: seq<word>)
    requires Ascii(secret)
    ensures |k| >= 2 * Pairs(secret)
    ensures forall i :: 0 <= i < |k| ==> k[i] < 0x100
  {
    seq(|secret|, i requires 0 <= i < |secret| => CharWord(secret[i]))
    + if Pairs(secret) % 2 == 0 then [0] else []
  }

  /** `char` below 0x80, and `char - 0x101` above it, in 32-bit two's complement. */
  function Promote(c: word): bv32 {
    if c < 0x80 then c as bv32 else c as bv32 - 0x101
  }

  function KeyWord(secret: string, a: word, i: nat): bv32
    requires Ascii(secret) && i < Pairs(secret)
  {
    var k := KeyWords(secret);
    PairWord(k[2 * i], k[2 * i + 1], a)
  }

  function PairWord(first: word, second: word, a: word): bv32 {
    (Promote(first ^ a) << 8) + (second ^ a) as bv32
  }

  function Lcg(x: bv32): word {
    ((0x4e35 * x + 1) & 0xffff) as word
  }

  function Scale(x: bv32): word {
    ((0x15a * x) & 0xffff) as word
  }

  /** The first `n` rows of the table for `a`, scanned from state 0. */
  function Table(secret: string, a: word, n: nat): (rows: seq<Step>)
    requires Ascii(secret) && n <= Pairs(secret)
    ensures |rows| == n
  {
    if n == 0 then []
    else
      var before := Table(secret, a, n - 1);
      before + [Row(secret, a, Carried(before, n - 1), n - 1)]
  }

  /** The state that the scan carries into row `i`: the LCG output of the row before. */
  function Carried(rows: seq<Step>, i: nat): word
    requires i <= |rows|
  {
    if i == 0 then 0 else rows[i - 1].t
  }

  function Row(secret: string, a: word, carried: word, i: nat): Step
    requires Ascii(secret) && i < Pairs(secret)
  {
    ScanStep(carried, KeyWord(secret, a, i))
  }

  function ScanStep(carried: word, key: bv32): Step {
    var x := carried as bv32 ^ key;
    Step(Scale(x), Lcg(x))
  }

  /** The table is one scan: a longer table only adds rows, and each row is computed
      from the LCG output of the row before it. */
  lemma {:induction false} TableIsScan(secret: string, a: word, n: nat, i: nat)
    requires Ascii(secret) && i < n <= Pairs(secret)
    ensures
      var rows := Table(secret, a, n);
      rows[..i] == Table(secret, a, i) && rows[i] == Row(secret, a, Carried(rows, i), i)
  {
    hide Row;
    hide Ascii;
    var rows, shorter := Table(secret, a, n), Table(secret, a, n - 1);
    if i < n - 1 {
      TableIsScan(secret, a, n - 1, i);
      assert rows[..i] == shorter[..i];
      assert Carried(rows, i) == Carried(shorter, i);
    } else {
      assert rows[..i] == shorter;
      assert Carried(rows, i) == Carried(shorter, i);
    }
  }

  // ---- Key derivation ----

  datatype Mix = Mix(y: word, z: word, res: word)

  /** The loop of `kdf` after `i` rows. */
  function Mixed(rows: seq<Step>, s: State, i: nat): Mix
    requires i <= |rows|
  {
    if i == 0 then Mix(s.y, s.z, 0)
    else
      var m := Mixed(rows, s, i - 1);
      var y := rows[i - 1].y;
      var z := MixZ(y, m.y, m.z, i - 1);
      Mix(y, z, Xor(Xor(m.res, rows[i - 1].t), z))
  }

  /** `0xffff & (y + yy + 0x4e35 * (z + i))`. */
  function MixZ(y: word, yy: word, z: word, i: nat): word {
    y + yy + 0x4e35 * (z + (i % 0x10000) as word)
  }

  function Xor(a: word, b: word): word {
    a ^ b
  }

  function LowByte(a: word): word {
    0xff & a
  }

  function Fold(res: word): word {
    Xor(res >> 8, LowByte(res))
  }

  function Kdf(secret: string, s: State): (word, State)
    requires Ascii(secret)
  {
    var m := Mixed(Table(secret, s.acc, Pairs(secret)), s, Pairs(secret));
    (Fold(m.res), State(s.acc, m.y, m.z))
  }

  lemma FoldIsByte(res: word)
    ensures Fold(res) < 0x100
  {
    assert res >> 8 < 0x100;
    XorOfBytes(res >> 8, LowByte(res));
  }

  lemma XorOfBytes(a: word, b: word)
    requires a < 0x100 && b < 0x100
    ensures Xor(a, b) < 0x100
  {
  }

  lemma LowByteOfByte(a: word)
    requires a < 0x100
    ensures LowByte(a) == a
  {
  }

  lemma XorTwice(v: word, k: word)
    ensures Xor(Xor(v, k), k) == v
  {
  }

  // ---- One byte ----

  function EncryptByte(secret: string, s: State, v: word): (word, State)
    requires Ascii(secret)
  {
    var (k, s') := Kdf(secret, s);
    (LowByte(Xor(v, k)), State(Xor(s'.acc, v), s'.y, s'.z))
  }

  function DecryptByte(secret: string, s: State, v: word): (word, State)
    requires Ascii(secret)
  {
    var (k, s') := Kdf(secret, s);
    var r := LowByte(Xor(v, k));
    (r, State(Xor(s'.acc, r), s'.y, s'.z))
  }

  // ---- Whole prefixes ----

  predicate Bytes(p: seq<word>) {
    forall i :: 0 <= i < |p| ==> p[i] < 0x100
  }

  function Encrypt(secret: string, s: State, p: seq<word>): (r: (seq<word>, State))
    requires Ascii(secret)
    ensures |r.0| == |p|
  {
    if p == [] then ([], s)
    else
      var (before, t) := Encrypt(secret, s, p[..|p| - 1]);
      var (c, u) := EncryptByte(secret, t, p[|p| - 1]);
      (before + [c], u)
  }

  function Decrypt(secret: string, s: State, c: seq<word>): (r: (seq<word>, State))
    requires Ascii(secret)
    ensures |r.0| == |c|
  {
    if c == [] then ([], s)
    else
      var (before, t) := Decrypt(secret, s, c[..|c| - 1]);
      var (p, u) := DecryptByte(secret, t, c[|c| - 1]);
      (before + [p], u)
  }

  lemma KeyIsByte(secret: string, s: State)
    requires Ascii(secret)
    ensures Kdf(secret, s).0 < 0x100 && Kdf(secret, s).1.acc == s.acc
  {
    hide Mixed;
    hide Table;
    hide Fold;
    FoldIsByte(Mixed(Table(secret, s.acc, Pairs(secret)), s, Pairs(secret)).res);
  }

  /** Every key byte is below 0x100, and `acc` stays there, so that the lookup of
      the table for `acc` never misses and no ciphertext byte is truncated. */
  lemma ByteStepInRange(secret: string, s: State, v: word)
    requires Ascii(secret) && s.acc < 0x100 && v < 0x100
    ensures Kdf(secret, s).0 < 0x100
    ensures EncryptByte(secret, s, v).1.acc < 0x100 && EncryptByte(secret, s, v).0 == Xor(v, Kdf(secret, s).0) < 0x100
    ensures DecryptByte(secret, s, v).1.acc < 0x100 && DecryptByte(secret, s, v).0 == Xor(v, Kdf(secret, s).0)
  {
    hide Kdf;
    hide Xor;
    hide LowByte;
    KeyIsByte(secret, s);
    var k := Kdf(secret, s).0;
    XorOfBytes(v, k);
    LowByteOfByte(Xor(v, k));
    XorOfBytes(s.acc, v);
    XorOfBytes(s.acc, Xor(v, k));
  }

  /** One byte round trip: decryption in the same state recovers the byte and
      reaches the same state. */
  lemma ByteLockstep(secret: string, s: State, v: word)
    requires Ascii(secret) && s.acc < 0x100 && v < 0x100
    ensures DecryptByte(secret, s, EncryptByte(secret, s, v).0) == (v, EncryptByte(secret, s, v).1)
  {
    hide Kdf;
    hide Xor;
    hide LowByte;
    ByteStepInRange(secret, s, v);
    var k := Kdf(secret, s).0;
    ByteStepInRange(secret, s, Xor(v, k));
    XorTwice(v, k);
  }

  lemma {:induction false} EncryptInRange(secret: string, s: State, p: seq<word>)
    requires Ascii(secret) && s.acc < 0x100 && Bytes(p)
    ensures Bytes(Encrypt(secret, s, p).0) && Encrypt(secret, s, p).1.acc < 0x100
  {
    if p != [] {
      hide EncryptByte;
      hide Kdf;
      var init := p[..|p| - 1];
      EncryptInRange(secret, s, init);
      var (c, t) := Encrypt(secret, s, init);
      ByteStepInRange(secret, t, p[|p| - 1]);
    }
  }

  /** The two cryptors stay in lockstep: decrypting any prefix of a ciphertext
      recovers that prefix of the plaintext and leaves the encryptor's state. */
  lemma {:induction false} Lockstep(secret: string, s: State, p: seq<word>)
    requires Ascii(secret) && s.acc < 0x100 && Bytes(p)
    ensures Decrypt(secret, s, Encrypt(secret, s, p).0) == (p, Encrypt(secret, s, p).1)
  {
    if p != [] {
      hide EncryptByte;
      hide DecryptByte;
      var init := p[..|p| - 1];
      Lockstep(secret, s, init);
      EncryptInRange(secret, s, init);
      var (before, t) := Encrypt(secret, s, init);
      ByteLockstep(secret, t, p[|p| - 1]);
      var c := Encrypt(secret, s, p).0;
      assert c[..|c| - 1] == before;
      assert p == init + [p[|p| - 1]];
    }
  }

  /** Processing in chunks is processing the whole: cutting a plaintext anywhere
      and carrying the state over changes nothing. */
  lemma {:induction false} EncryptInChunks(secret: string, s: State, p: seq<word>, q: seq<word>)
    requires Ascii(secret)
    ensures
      var (c, t) := Encrypt(secret, s, p);
      var (d, u) := Encrypt(secret, t, q);
      Encrypt(secret, s, p + q) == (c + d, u)
  {
    if q == [] {
      assert p + q == p;
      var c := Encrypt(secret, s, p).0;
      assert c + [] == c;
    } else {
      hide EncryptByte;
      var init := q[..|q| - 1];
      EncryptInChunks(secret, s, p, init);
      assert (p + q)[..|p + q| - 1] == p + init;
      assert (p + q)[|p + q| - 1] == q[|q| - 1];
      var (c, t) := Encrypt(secret, s, p);
      var (d, u) := Encrypt(secret, t, init);
      var (x, v) := EncryptByte(secret, u, q[|q| - 1]);
      assert Encrypt(secret, s, p + q) == (c + d + [x], v);
      assert Encrypt(secret, t, q) == (d + [x], v);
      assert c + d + [x] == c + (d + [x]);
    }
  }

  lemma {:induction false} DecryptInChunks(secret: string, s: State, p: seq<word>, q: seq<word>)
    requires Ascii(secret)
    ensures
      var (c, t) := Decrypt(secret, s, p);
      var (d, u) := Decrypt(secret, t, q);
      Decrypt(secret, s, p + q) == (c + d, u)
  {
    if q == [] {
      assert p + q == p;
      var c := Decrypt(secret, s, p).0;
      assert c + [] == c;
    } else {
      hide DecryptByte;
      var init := q[..|q| - 1];
      DecryptInChunks(secret, s, p, init);
      assert (p + q)[..|p + q| - 1] == p + init;
      assert (p + q)[|p + q| - 1] == q[|q| - 1];
      var (c, t) := Decrypt(secret, s, p);
      var (d, u) := Decrypt(secret, t, init);
      var (x, v) := DecryptByte(secret, u, q[|q| - 1]);
      assert Decrypt(secret, s, p + q) == (c + d + [x], v);
      assert Decrypt(secret, t, q) == (d + [x], v);
      assert c + d + [x] == c + (d + [x]);
    }
  }

  // ---- The cipher, written out ----

  // The operations on words, each by itself.

  lemma XorIs(a: word, b: word)
    ensures Xor(a, b) == a ^ b
  {
  }

  lemma LowByteIs(a: word)
    ensures LowByte(a) == a & 0xff
  {
  }

  lemma PromoteIs(c: word)
    ensures c < 0x80 ==> Promote(c) == c as bv32
    ensures c >= 0x80 ==> Promote(c) == c as bv32 - 0x101
  {
  }

  lemma FoldIs(a: word)
    ensures Fold(a) == Xor(a >> 8, a & 0xff)
  {
    hide Xor;
  }

  lemma PairIs(first: word, second: word, a: word)
    ensures PairWord(first, second, a) == (Promote(first ^ a) << 8) + (second ^ a) as bv32
  {
    hide Promote;
  }

  lemma ScanIs(carried: word, key: bv32)
    ensures ScanStep(carried, key) == Step(Scale(carried as bv32 ^ key), Lcg(carried as bv32 ^ key))
  {
    hide Scale;
    hide Lcg;
  }

  lemma GeneratorsAre(x: bv32)
    ensures Lcg(x) == ((0x4e35 * x + 1) & 0xffff) as word && Scale(x) == ((0x15a * x) & 0xffff) as word
  {
  }

  lemma MixZIs(y: word, yy: word, z: word, i: nat)
    ensures MixZ(y, yy, z, i) == y + yy + 0x4e35 * (z + (i % 0x10000) as word)
  {
  }

  lemma KeyCharacters(secret: string, i: nat)
    requires Ascii(secret) && i < |secret|
    ensures i < |KeyWords(secret)| && KeyWords(secret)[i] == CharWord(secret[i])
  {
    hide CharWord;
  }

  /** Row `i` of the table for `a`: its pair of characters, under the LCG output of the
      row before it. */
  lemma TableExactly(secret: string, a: word, n: nat, i: nat)
    requires Ascii(secret) && i < n <= |secret| / 2
    ensures
      var rows := Table(secret, a, n);
      var key := PairWord(CharWord(secret[2 * i]), CharWord(secret[2 * i + 1]), a);
      rows[i] == ScanStep(if i == 0 then 0 else rows[i - 1].t, key)
  {
    hide KeyWord;
    hide ScanStep;
    hide PairWord;
    hide CharWord;
    TableIsScan(secret, a, n, i);
    hide Table;
    KeyWordExactly(secret, a, i);
    hide KeyWords;
  }

  lemma KeyWordExactly(secret: string, a: word, i: nat)
    requires Ascii(secret) && i < Pairs(secret)
    ensures KeyWord(secret, a, i) == PairWord(CharWord(secret[2 * i]), CharWord(secret[2 * i + 1]), a)
  {
    hide PairWord;
    hide CharWord;
    hide KeyWords;
    KeyCharacters(secret, 2 * i);
    KeyCharacters(secret, 2 * i + 1);
  }

  /** One row mixed in: `z` follows both values of `y`, and the result takes in both outputs. */
  predicate Mixes(row: Step, i: nat, before: Mix, after: Mix) {
    && after.y == row.y
    && after.z == MixZ(row.y, before.y, before.z, i)
    && after.res == Xor(before.res, Xor(row.t, after.z))
  }

  predicate Derives(rows: seq<Step>, s: State, mixes: seq<Mix>) {
    && |mixes| == |rows| + 1 && mixes[0] == Mix(s.y, s.z, 0)
    && forall i :: 0 <= i < |rows| ==> Mixes(rows[i], i, mixes[i], mixes[i + 1])
  }

  lemma XorRegroups(a: word, b: word, c: word)
    ensures Xor(Xor(a, b), c) == Xor(a, Xor(b, c))
  {
  }

  lemma OneRowMixes(row: Step, i: nat, m: Mix)
    ensures var z := MixZ(row.y, m.y, m.z, i);
            Mixes(row, i, m, Mix(row.y, z, Xor(Xor(m.res, row.t), z)))
  {
    hide MixZ;
    hide Xor;
    XorRegroups(m.res, row.t, MixZ(row.y, m.y, m.z, i));
  }

  lemma {:induction false} MixedDerives(rows: seq<Step>, s: State, n: nat) returns (mixes: seq<Mix>)
    requires n <= |rows|
    ensures Derives(rows[..n], s, mixes) && Mixed(rows, s, n) == mixes[n]
  {
    hide Mixes;
    hide MixZ;
    hide Xor;
    if n == 0 {
      mixes := [Mix(s.y, s.z, 0)];
    } else {
      var before := MixedDerives(rows, s, n - 1);
      OneRowMixes(rows[n - 1], n - 1, Mixed(rows, s, n - 1));
      mixes := before + [Mixed(rows, s, n)];
      assert forall i :: 0 <= i < n - 1 ==> rows[..n - 1][i] == rows[..n][i];
    }
  }

  /** One key byte: both halves of the last result, with the state left behind. */
  lemma KdfExactly(secret: string, s: State) returns (mixes: seq<Mix>)
    requires Ascii(secret)
    ensures
      var n := |secret| / 2;
      && Derives(Table(secret, s.acc, n), s, mixes)
      && Kdf(secret, s) == (Fold(mixes[n].res), State(s.acc, mixes[n].y, mixes[n].z))
  {
    hide Mixes;
    hide Mixed;
    hide Table;
    hide Fold;
    var n := Pairs(secret);
    var rows := Table(secret, s.acc, n);
    mixes := MixedDerives(rows, s, n);
    assert rows[..n] == rows;
  }

  lemma EncryptAt(secret: string, s: State, p: seq<word>, i: nat)
    requires Ascii(secret) && i < |p|
    ensures
      var t := Encrypt(secret, s, p[..i]).1;
      && EncryptByte(secret, t, p[i]) == (Encrypt(secret, s, p).0[i], Encrypt(secret, s, p[..i + 1]).1)
  {
    hide EncryptByte;
    var q := p[..i + 1];
    EncryptInChunks(secret, s, q, p[i + 1..]);
    assert q + p[i + 1..] == p;
    assert q[..i] == p[..i] && q[i] == p[i];
  }

  /** Each byte goes out under the key of the state that the bytes before it have made,
      and is then mixed into `acc`. */
  lemma EncryptExactly(secret: string, s: State, p: seq<word>, i: nat)
    requires Ascii(secret) && i < |p|
    ensures Encrypt(secret, s, []) == ([], s)
    ensures
      var t := Encrypt(secret, s, p[..i]).1;
      var (k, u) := Kdf(secret, t);
      && Encrypt(secret, s, p).0[i] == LowByte(Xor(p[i], k))
      && Encrypt(secret, s, p[..i + 1]).1 == State(Xor(t.acc, p[i]), u.y, u.z)
  {
    hide Kdf;
    hide Xor;
    hide LowByte;
    var t := Encrypt(secret, s, p[..i]).1;
    KeyIsByte(secret, t);
    EncryptAt(secret, s, p, i);
  }

  // ---- The last character of an odd secret ----

  lemma KeyWordOfPair(secret: string, c: char, a: word, i: nat)
    requires Ascii(secret) && Ascii(secret + [c]) && |secret| % 2 == 0 && i < Pairs(secret)
    ensures KeyWord(secret + [c], a, i) == KeyWord(secret, a, i)
  {
    hide KeyWords;
    hide CharWord;
    hide PairWord;
    KeyCharacters(secret, 2 * i);
    KeyCharacters(secret, 2 * i + 1);
    KeyCharacters(secret + [c], 2 * i);
    KeyCharacters(secret + [c], 2 * i + 1);
  }

  lemma RowOfPair(secret: string, c: char, a: word, carried: word, i: nat)
    requires Ascii(secret) && Ascii(secret + [c]) && |secret| % 2 == 0 && i < Pairs(secret)
    ensures Row(secret + [c], a, carried, i) == Row(secret, a, carried, i)
  {
    hide KeyWord;
    hide ScanStep;
    KeyWordOfPair(secret, c, a, i);
  }

  lemma {:induction false} TableOfPairs(secret: string, c: char, a: word, n: nat)
    requires Ascii(secret) && Ascii(secret + [c]) && |secret| % 2 == 0 && n <= Pairs(secret)
    ensures Table(secret + [c], a, n) == Table(secret, a, n)
  {
    if n > 0 {
      hide Row;
      hide Ascii;
      TableOfPairs(secret, c, a, n - 1);
      var before := Table(secret, a, n - 1);
      RowOfPair(secret, c, a, Carried(before, n - 1), n - 1);
      hide Carried;
      assert Table(secret + [c], a, n) == before + [Row(secret + [c], a, Carried(before, n - 1), n - 1)];
    }
  }

  lemma KdfOfPairs(secret: string, c: char, s: State)
    requires Ascii(secret) && Ascii(secret + [c]) && |secret| % 2 == 0
    ensures Kdf(secret + [c], s) == Kdf(secret, s)
  {
    TableOfPairs(secret, c, s.acc, Pairs(secret));
    hide Table;
    hide Mixed;
    hide Fold;
    hide Ascii;
  }

  /** A secret of odd length encrypts exactly as it does without its last character. */
  lemma {:induction false} OddCharacterIsIgnored(secret: string, c: char, s: State, p: seq<word>)
    requires Ascii(secret) && Ascii(secret + [c]) && |secret| % 2 == 0
    ensures Encrypt(secret + [c], s, p) == Encrypt(secret, s, p)
  {
    hide Kdf;
    hide Xor;
    hide LowByte;
    hide Ascii;
    if p != [] {
      OddCharacterIsIgnored(secret, c, s, p[..|p| - 1]);
      KdfOfPairs(secret, c, Encrypt(secret, s, p[..|p| - 1]).1);
    }
  }

  // ---- The cryptor object ----

  class Cryptor {
    const secret: string
    var acc: word
    var y: word
    var z: word

    constructor (secret: string)
      ensures this.secret == secret && Current() == INITIAL
    {
      this.secret := secret;
      acc, y, z := 0, 0, 0;
    }

    function Current(): State
      reads this
    {
      State(acc, y, z)
    }

    method NextKey() returns (k: word)
      requires Ascii(secret)
      modifies this
      ensures (k, Current()) == Kdf(secret, old(Current()))
    {
      hide MixZ;
      hide Fold;
      hide Xor;
      var rows := Table(secret, acc, Pairs(secret));
      var res: word := 0;
      ghost var s := Current();
      for i := 0 to Pairs(secret)
        invariant Mix(y, z, res) == Mixed(rows, s, i) && acc == s.acc
      {
        var yy := y;
        y := rows[i].y;
        z := MixZ(y, yy, z, i);
        res := Xor(Xor(res, rows[i].t), z);
      }
      k := Fold(res);
    }

    method EncryptChunk(chunk: seq<word>) returns (c: seq<word>)
      requires Ascii(secret)
      modifies this
      ensures (c, Current()) == Encrypt(secret, old(Current()), chunk)
    {
      hide Kdf;
      hide Xor;
      hide LowByte;
      c := [];
      ghost var s := Current();
      for i := 0 to |chunk|
        invariant (c, Current()) == Encrypt(secret, s, chunk[..i])
      {
        assert chunk[..i + 1][..i] == chunk[..i];
        var k := NextKey();
        acc := Xor(acc, chunk[i]);
        c := c + [LowByte(Xor(chunk[i], k))];
      }
      assert chunk[..|chunk|] == chunk;
    }

    method DecryptChunk(chunk: seq<word>) returns (p: seq<word>)
      requires Ascii(secret)
      modifies this
      ensures (p, Current()) == Decrypt(secret, old(Current()), chunk)
    {
      hide Kdf;
      hide Xor;
      hide LowByte;
      p := [];
      ghost var s := Current();
      for i := 0 to |chunk|
        invariant (p, Current()) == Decrypt(secret, s, chunk[..i])
      {
        assert chunk[..i + 1][..i] == chunk[..i];
        var k := NextKey();
        var r := LowByte(Xor(chunk[i], k));
        acc := Xor(acc, r);
        p := p + [r];
      }
      assert chunk[..|chunk|] == chunk;
    }
  }
}
