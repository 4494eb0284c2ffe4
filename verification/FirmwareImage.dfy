/** The firmware image around the cryptor: an encrypted prefix, the rest in the
    clear, and a 74-byte footer that records the length of the prefix. */
module FirmwareImage {
  import opened Core
  import opened FirmwareCryptor

  const FOOTER := 74
  const CRYPT_BLOCK := 1024
  const COPY_BLOCK := 4 * 0x100000

  /** How a run ends without output: `Stuck` is a loop that never leaves the end of file. */
  datatype ImageError = SecretNotAscii | LengthNotPackable | FileTooShort | SignatureMismatch | LabelNotAscii | Stuck

  // ---- The footer ----

  function Letters(s: string): (w: seq<word>)
    requires Ascii(s)
    ensures |w| == |s|
  {
    seq(|s|, i requires 0 <= i < |s| => CharWord(s[i]))
  }

  function Zeros(n: nat): (z: seq<word>)
    ensures |z| == n
  {
    seq(n, i => 0)
  }

  /** A string packed into 16 bytes. */
  function Packed(s: string): (b: seq<word>)
    requires Ascii(s) && |s| <= 16
    ensures |b| == 16
  {
    Letters(s) + Zeros(16 - |s|)
  }

  const SIGNATURE := "icpnas"

  /** A 32-bit signed integer, low byte first. */
  function PackInt(n: nat): (b: seq<word>)
    requires n < 0x8000_0000
    ensures |b| == 4
  {
    [ByteWord(n % 0x100), ByteWord(n / 0x100 % 0x100), ByteWord(n / 0x1_0000 % 0x100), ByteWord(n / 0x100_0000 % 0x100)]
  }

  function Put(on: bool, mask: word): word {
    if on then mask else 0
  }

  /** A byte as a machine word, bit by bit. */
  function ByteWord(b: byte): word {
    var h1 := Half(b);
    var h2 := Half(h1);
    var h3 := Half(h2);
    var h4 := Half(h3);
    var h5 := Half(h4);
    var h6 := Half(h5);
    var h7 := Half(h6);
    Bits(Odd(b), Odd(h1), Odd(h2), Odd(h3), Odd(h4), Odd(h5), Odd(h6), Odd(h7))
  }

  function Bits(b0: bool, b1: bool, b2: bool, b3: bool, b4: bool, b5: bool, b6: bool, b7: bool): word {
    Put(b0, 1) | Put(b1, 2) | Put(b2, 4) | Put(b3, 8) | Put(b4, 16) | Put(b5, 32) | Put(b6, 64) | Put(b7, 128)
  }

  function Bit(w: word, mask: word): int {
    if w & mask != 0 then 1 else 0
  }

  function WordInt(w: word): int {
    Bit(w, 1) + 2 * Bit(w, 2) + 4 * Bit(w, 4) + 8 * Bit(w, 8)
    + 16 * Bit(w, 16) + 32 * Bit(w, 32) + 64 * Bit(w, 64) + 128 * Bit(w, 128)
  }

  function UnpackInt(b: seq<word>): int
    requires |b| == 4
  {
    var u := WordInt(b[0]) + 0x100 * WordInt(b[1]) + 0x1_0000 * WordInt(b[2]) + 0x100_0000 * WordInt(b[3]);
    if u < 0x8000_0000 then u else u - 0x1_0000_0000
  }

  function Footer(prefix: nat): (f: seq<word>)
    requires prefix < 0x8000_0000
    ensures |f| == FOOTER
  {
    Letters(SIGNATURE) + PackInt(prefix) + Packed("MODEL-UNKNOWN") + Packed("0.0.0") + Packed("19700101") + Zeros(16)
  }

  // ---- Whole images ----

  function MinInt(a: int, b: int): int {
    if a <= b then a else b
  }

  /** The output of `do_encrypt`. */
  function EncryptImage(secret: string, prefixlen: int, plain: seq<word>): Result<seq<word>, ImageError> {
    var prefix := MinInt(prefixlen, |plain|);
    if !Ascii(secret) then Err(SecretNotAscii)
    else if prefix < 0 then Err(Stuck)
    else if prefix >= 0x8000_0000 then Err(LengthNotPackable)
    else Ok(Encrypt(secret, INITIAL, plain[..prefix]).0 + plain[prefix..] + Footer(prefix))
  }

  /** Everything that `do_encrypt` writes, a failed or hanging run included: a negative
      prefix copies the whole input before it hangs, and a length that cannot be packed
      fails after the body. */
  function EncryptWrites(secret: string, prefixlen: int, plain: seq<word>): seq<word> {
    match EncryptImage(secret, prefixlen, plain)
    case Ok(image) => image
    case Err(e) =>
      if e.Stuck? then plain
      else if e.LengthNotPackable? && Ascii(secret) then
        var prefix := MinInt(prefixlen, |plain|);
        if prefix < 0 then plain else Encrypt(secret, INITIAL, plain[..prefix]).0 + plain[prefix..]
      else []
  }

  /** The length of the encrypted prefix that a file's footer records. */
  function FooterLength(file: seq<word>): Result<int, ImageError> {
    var body := |file| - FOOTER;
    if body < 0 then Err(FileTooShort)
    else if file[body..body + 6] != Letters(SIGNATURE) then Err(SignatureMismatch)
    else if !AllBelow(file[body + 10..body + 42], 0x80) then Err(LabelNotAscii)
    else Ok(UnpackInt(file[body + 6..body + 10]))
  }

  predicate AllBelow(s: seq<word>, limit: word) {
    forall i :: 0 <= i < |s| ==> s[i] < limit
  }

  /** The body of `do_decrypt` for a recorded length, negative ones included. */
  function DecryptBodyOf(secret: string, file: seq<word>, recorded: int): Result<seq<word>, ImageError>
    requires Ascii(secret) && |file| >= FOOTER
  {
    var body, length := |file| - FOOTER, MinInt(recorded, |file|);
    if length < 0 then
      if body - length > |file| then Err(Stuck) else Ok(file[..body - length])
    else
      var plain := Decrypt(secret, INITIAL, file[..length]).0;
      Ok(plain + if length < body then file[length..body] else [])
  }

  /** The output of `do_decrypt`. */
  function DecryptImage(secret: string, file: seq<word>): Result<seq<word>, ImageError> {
    match FooterLength(file)
    case Err(e) => Err(e)
    case Ok(recorded) =>
      if !Ascii(secret) then Err(SecretNotAscii) else DecryptBodyOf(secret, file, recorded)
  }

  /** Everything that `do_decrypt` writes: the whole file before it hangs, nothing before
      any other failure. */
  function DecryptWrites(secret: string, file: seq<word>): seq<word> {
    match DecryptImage(secret, file)
    case Ok(plain) => plain
    case Err(e) => if e.Stuck? then file else []
  }

  /** Decryption never ends exactly for a readable footer whose recorded length is
      negative by more than the size of the footer. */
  lemma DecryptHangsExactlyWhen(secret: string, file: seq<word>)
    ensures DecryptImage(secret, file) == Err(Stuck)
       <==> Ascii(secret) && FooterLength(file).Ok? && FooterLength(file).value < -FOOTER
  {
    hide Decrypt;
    hide UnpackInt;
    hide Letters;
  }

  /** Encryption never ends exactly for a negative prefix length. */
  lemma EncryptHangsExactlyWhen(secret: string, prefixlen: int, plain: seq<word>)
    ensures EncryptImage(secret, prefixlen, plain) == Err(Stuck) <==> Ascii(secret) && prefixlen < 0
  {
    hide Encrypt;
    hide Footer;
  }

  lemma BitsBack(b0: bool, b1: bool, b2: bool, b3: bool, b4: bool, b5: bool, b6: bool, b7: bool)
    ensures
      var w := Bits(b0, b1, b2, b3, b4, b5, b6, b7);
      && (w & 1 != 0 <==> b0) && (w & 2 != 0 <==> b1) && (w & 4 != 0 <==> b2) && (w & 8 != 0 <==> b3)
      && (w & 16 != 0 <==> b4) && (w & 32 != 0 <==> b5) && (w & 64 != 0 <==> b6) && (w & 128 != 0 <==> b7)
  {
  }

  function IntOf(on: bool): int {
    if on then 1 else 0
  }

  lemma WordIntOfBits(w: word, b0: bool, b1: bool, b2: bool, b3: bool, b4: bool, b5: bool, b6: bool, b7: bool)
    requires w == Bits(b0, b1, b2, b3, b4, b5, b6, b7)
    ensures WordInt(w)
         == IntOf(b0) + 2 * IntOf(b1) + 4 * IntOf(b2) + 8 * IntOf(b3)
            + 16 * IntOf(b4) + 32 * IntOf(b5) + 64 * IntOf(b6) + 128 * IntOf(b7)
  {
    hide Bits;
    BitsBack(b0, b1, b2, b3, b4, b5, b6, b7);
  }

  function Odd(n: nat): bool {
    n % 2 == 1
  }

  function Half(n: nat): nat {
    n / 2
  }

  lemma Halve(n: nat, k: nat)
    requires n < 2 * k
    ensures n == 2 * Half(n) + IntOf(Odd(n)) && Half(n) < k
  {
  }

  function DigitSum(b: byte): int {
    var h1 := Half(b);
    var h2 := Half(h1);
    var h3 := Half(h2);
    var h4 := Half(h3);
    var h5 := Half(h4);
    var h6 := Half(h5);
    var h7 := Half(h6);
    IntOf(Odd(b)) + 2 * IntOf(Odd(h1)) + 4 * IntOf(Odd(h2)) + 8 * IntOf(Odd(h3))
    + 16 * IntOf(Odd(h4)) + 32 * IntOf(Odd(h5)) + 64 * IntOf(Odd(h6)) + 128 * IntOf(Odd(h7))
  }

  lemma DigitSumIsByte(b: byte)
    ensures DigitSum(b) == b
  {
    hide IntOf;
    hide Odd;
    hide Half;
    var h1 := Half(b);
    var h2 := Half(h1);
    var h3 := Half(h2);
    var h4 := Half(h3);
    var h5 := Half(h4);
    var h6 := Half(h5);
    var h7 := Half(h6);
    Halve(b, 128);
    Halve(h1, 64);
    Halve(h2, 32);
    Halve(h3, 16);
    Halve(h4, 8);
    Halve(h5, 4);
    Halve(h6, 2);
    Halve(h7, 1);
  }

  lemma ByteWordDigits(b: byte)
    ensures WordInt(ByteWord(b)) == DigitSum(b)
  {
    hide Bits;
    hide WordInt;
    hide IntOf;
    hide Odd;
    hide Half;
    var h1 := Half(b);
    var h2 := Half(h1);
    var h3 := Half(h2);
    var h4 := Half(h3);
    var h5 := Half(h4);
    var h6 := Half(h5);
    var h7 := Half(h6);
    WordIntOfBits(ByteWord(b), Odd(b), Odd(h1), Odd(h2), Odd(h3), Odd(h4), Odd(h5), Odd(h6), Odd(h7));
  }

  lemma ByteWordInt(b: byte)
    ensures WordInt(ByteWord(b)) == b
  {
    hide WordInt;
    hide ByteWord;
    hide DigitSum;
    ByteWordDigits(b);
    DigitSumIsByte(b);
  }

  // ---- A footer on which decryption hangs ----

  const LOWEST: seq<word> := [0, 0, 0, 0x80]

  /** An image of nothing but a footer, whose length field is the lowest integer. */
  function HangingImage(): seq<word> {
    Letters(SIGNATURE) + LOWEST + Zeros(64)
  }

  lemma LowestLength()
    ensures UnpackInt(LOWEST) == -0x8000_0000
  {
    assert WordInt(0) == 0;
    assert WordInt(0x80) == 128;
  }

  /** `do_decrypt` copies this image out and then reads its end for ever. */
  lemma HangingImageHangs(secret: string)
    requires Ascii(secret)
    ensures DecryptImage(secret, HangingImage()) == Err(Stuck)
    ensures DecryptWrites(secret, HangingImage()) == HangingImage()
  {
    hide Letters;
    hide UnpackInt;
    hide DecryptBodyOf;
    var file := HangingImage();
    Slices(Letters(SIGNATURE), LOWEST, Zeros(32), Zeros(32));
    assert file == Letters(SIGNATURE) + LOWEST + Zeros(32) + Zeros(32) by {
      assert Zeros(64) == Zeros(32) + Zeros(32);
    }
    LowestLength();
    assert FooterLength(file) == Ok(-0x8000_0000);
    DecryptHangsExactlyWhen(secret, file);
  }

  lemma FourDigits(n: nat)
    requires n < 0x8000_0000
    ensures n == n % 0x100 + 0x100 * (n / 0x100 % 0x100) + 0x1_0000 * (n / 0x1_0000 % 0x100) + 0x100_0000 * (n / 0x100_0000 % 0x100)
  {
    var a, b, c := n / 0x100, n / 0x1_0000, n / 0x100_0000;
    assert b == a / 0x100 && c == b / 0x100;
    assert n == 0x100 * a + n % 0x100;
    assert a == 0x100 * b + a % 0x100;
    assert b == 0x100 * c + b % 0x100;
    assert c < 0x100;
  }

  lemma PackRoundTrip(n: nat)
    requires n < 0x8000_0000
    ensures UnpackInt(PackInt(n)) == n
  {
    hide ByteWord;
    hide WordInt;
    FourDigits(n);
    ByteWordInt(n % 0x100);
    ByteWordInt(n / 0x100 % 0x100);
    ByteWordInt(n / 0x1_0000 % 0x100);
    ByteWordInt(n / 0x100_0000 % 0x100);
  }

  lemma FooterFields(prefix: nat)
    requires prefix < 0x8000_0000
    ensures
      var f := Footer(prefix);
      && f[..6] == Letters(SIGNATURE) && f[6..10] == PackInt(prefix)
      && AllBelow(f[10..42], 0x80)
  {
    hide Letters;
    hide PackInt;
    var labels := Packed("MODEL-UNKNOWN") + Packed("0.0.0");
    var rest := Packed("19700101") + Zeros(16);
    assert Footer(prefix) == Letters(SIGNATURE) + PackInt(prefix) + labels + rest;
    Slices(Letters(SIGNATURE), PackInt(prefix), labels, rest);
    LettersAscii("MODEL-UNKNOWN");
    LettersAscii("0.0.0");
  }

  lemma Slices(a: seq<word>, b: seq<word>, c: seq<word>, d: seq<word>)
    ensures
      var f, i, j := a + b + c + d, |a| + |b|, |a| + |b| + |c|;
      f[..|a|] == a && f[|a|..i] == b && f[i..j] == c
  {
  }

  lemma LettersAscii(s: string)
    requires Ascii(s)
    ensures forall i :: 0 <= i < |s| ==> Letters(s)[i] < 0x80
  {
    forall i | 0 <= i < |s|
      ensures Letters(s)[i] < 0x80
    {
      var c := s[i] as int;
      assert c < 0x80;
      assert (c as word) < 0x80;
    }
  }

  /** Decryption undoes encryption, for every ASCII secret, every prefix length and
      every content whose encrypted length fits the footer. */
  lemma ImageRoundTrip(secret: string, prefixlen: nat, plain: seq<word>)
    requires Ascii(secret) && Bytes(plain) && MinInt(prefixlen, |plain|) < 0x8000_0000
    ensures EncryptImage(secret, prefixlen, plain).Ok?
    ensures DecryptImage(secret, EncryptImage(secret, prefixlen, plain).value) == Ok(plain)
  {
    hide Footer;
    hide Encrypt;
    hide Decrypt;
    hide PackInt;
    hide UnpackInt;
    hide Letters;
    var prefix := MinInt(prefixlen, |plain|);
    var p := plain[..prefix];
    var c := Encrypt(secret, INITIAL, p).0;
    Lockstep(secret, INITIAL, p);
    var f := Footer(prefix);
    var file := c + plain[prefix..] + f;
    var body := |file| - FOOTER;
    FooterFields(prefix);
    PackRoundTrip(prefix);
    assert file[body..] == f;
    assert file[body..body + 6] == f[..6];
    assert file[body + 6..body + 10] == f[6..10];
    assert file[body + 10..body + 42] == f[10..42];
    assert file[..prefix] == c;
    assert file[prefix..body] == plain[prefix..];
    assert p + plain[prefix..] == plain;
  }

  // ---- The bytes of an image ----

  /** A string as bytes in a field of this width, filled up with zeros. */
  predicate Spells(field: seq<word>, s: string, width: nat) {
    && |field| == width && |s| <= width
    && (forall i :: 0 <= i < |s| ==> s[i] as int < 0x80 && field[i] == CharWord(s[i]))
    && (forall i :: |s| <= i < width ==> field[i] == 0)
  }

  lemma WordIntIs(w: word)
    requires w < 0x100
    ensures WordInt(w) == w as int
  {
  }

  lemma LettersSpell(s: string, width: nat)
    requires Ascii(s) && |s| <= width
    ensures Spells(Letters(s) + Zeros(width - |s|), s, width)
    ensures Spells(Letters(s), s, |s|)
  {
    hide CharWord;
  }

  /** The footer, byte by byte: the signature, the length with its low byte first, three
      labels, and sixteen zeros. */
  lemma FooterBytes(prefix: nat)
    requires prefix < 0x8000_0000
    ensures
      var f := Footer(prefix);
      && |f| == 74 && Spells(f[..6], "icpnas", 6)
      && WordInt(f[6]) == prefix % 0x100 && WordInt(f[7]) == prefix / 0x100 % 0x100
      && WordInt(f[8]) == prefix / 0x1_0000 % 0x100 && WordInt(f[9]) == prefix / 0x100_0000 % 0x100
      && Spells(f[10..26], "MODEL-UNKNOWN", 16) && Spells(f[26..42], "0.0.0", 16)
      && Spells(f[42..58], "19700101", 16) && Spells(f[58..], "", 16)
  {
    hide WordInt;
    hide ByteWord;
    hide Letters;
    hide CharWord;
    hide PackInt;
    hide Spells;
    FooterParts(prefix);
    LabelsSpell();
    LengthBytes(prefix);
  }

  lemma FooterParts(prefix: nat)
    requires prefix < 0x8000_0000
    ensures
      var f, b := Footer(prefix), PackInt(prefix);
      && |f| == 74 && f[..6] == Letters("icpnas") && f[6] == b[0] && f[7] == b[1] && f[8] == b[2] && f[9] == b[3]
      && f[10..26] == Packed("MODEL-UNKNOWN") && f[26..42] == Packed("0.0.0")
      && f[42..58] == Packed("19700101") && f[58..] == Zeros(16)
  {
    hide Letters;
    hide PackInt;
    hide Zeros;
    SixParts(Footer(prefix), Letters("icpnas"), PackInt(prefix), Packed("MODEL-UNKNOWN"), Packed("0.0.0"),
             Packed("19700101"), Zeros(16));
  }

  lemma LabelsSpell()
    ensures Spells(Letters("icpnas"), "icpnas", 6) && Spells(Packed("MODEL-UNKNOWN"), "MODEL-UNKNOWN", 16)
    ensures Spells(Packed("0.0.0"), "0.0.0", 16) && Spells(Packed("19700101"), "19700101", 16)
    ensures Spells(Zeros(16), "", 16)
  {
    LettersSpell("icpnas", 6);
    LettersSpell("MODEL-UNKNOWN", 16);
    LettersSpell("0.0.0", 16);
    LettersSpell("19700101", 16);
    assert Spells(Zeros(16), "", 16);
    hide Letters;
    hide Spells;
    hide Zeros;
  }

  lemma SixParts(f: seq<word>, a: seq<word>, b: seq<word>, c: seq<word>, d: seq<word>, e: seq<word>, z: seq<word>)
    requires |a| == 6 && |b| == 4 && |c| == |d| == |e| == |z| == 16 && f == a + b + c + d + e + z
    ensures |f| == 74 && f[..6] == a && f[6] == b[0] && f[7] == b[1] && f[8] == b[2] && f[9] == b[3]
    ensures f[10..26] == c && f[26..42] == d && f[42..58] == e && f[58..] == z
  {
  }

  lemma LengthBytes(prefix: nat)
    requires prefix < 0x8000_0000
    ensures
      var b := PackInt(prefix);
      && WordInt(b[0]) == prefix % 0x100 && WordInt(b[1]) == prefix / 0x100 % 0x100
      && WordInt(b[2]) == prefix / 0x1_0000 % 0x100 && WordInt(b[3]) == prefix / 0x100_0000 % 0x100
  {
    hide WordInt;
    hide ByteWord;
    ByteWordInt(prefix % 0x100);
    ByteWordInt(prefix / 0x100 % 0x100);
    ByteWordInt(prefix / 0x1_0000 % 0x100);
    ByteWordInt(prefix / 0x100_0000 % 0x100);
  }

  /** The six letters of the signature, as numbers. */
  lemma SignatureBytes()
    ensures Letters("icpnas") == [0x69, 0x63, 0x70, 0x6e, 0x61, 0x73]
  {
  }

  /** The layout of an encrypted image: as long as the content and a footer, with exactly
      the first `prefixlen` bytes changed, or all of a shorter content. */
  lemma EncryptExactlyPrefix(secret: string, prefixlen: int, plain: seq<word>)
    ensures
      var n := if prefixlen <= |plain| then prefixlen else |plain|;
      EncryptImage(secret, prefixlen, plain)
      == if exists i :: 0 <= i < |secret| && secret[i] as int >= 0x80 then Err(SecretNotAscii)
         else if prefixlen < 0 then Err(Stuck)
         else if n >= 0x8000_0000 then Err(LengthNotPackable)
         else Ok(Encrypt(secret, State(0, 0, 0), plain[..n]).0 + plain[n..] + Footer(n))
  {
    hide Encrypt;
    hide Footer;
  }

  /** The number that four bytes stand for, low byte first and signed. */
  lemma UnpackExactly(b: seq<word>)
    requires |b| == 4 && Bytes(b)
    ensures
      var u := b[0] as int + 0x100 * b[1] as int + 0x1_0000 * b[2] as int + 0x100_0000 * b[3] as int;
      UnpackInt(b) == if u < 0x8000_0000 then u else u - 0x1_0000_0000
  {
    WordIntIs(b[0]);
    WordIntIs(b[1]);
    WordIntIs(b[2]);
    WordIntIs(b[3]);
    hide WordInt;
  }

  /** Which footers `do_decrypt` takes, and the length it reads from them. */
  lemma FooterExactly(file: seq<word>)
    ensures
      var r, body := FooterLength(file), |file| - 74;
      if body < 0 then r == Err(FileTooShort)
      else if !Spells(file[body..body + 6], "icpnas", 6) then r == Err(SignatureMismatch)
      else if exists i :: body + 10 <= i < body + 42 && file[i] >= 0x80 then r == Err(LabelNotAscii)
      else r == Ok(UnpackInt(file[body + 6..body + 10]))
  {
    hide Letters;
    hide Spells;
    hide AllBelow;
    hide UnpackInt;
    var body := |file| - 74;
    if body >= 0 {
      SignatureExactly(file[body..body + 6]);
      LabelsExactly(file, body);
    }
  }

  /** Which bytes of a file with such a footer come out decrypted, and which as they are. */
  lemma BodyExactly(secret: string, file: seq<word>, recorded: int)
    requires Ascii(secret) && |file| >= 74
    ensures
      var body, n := |file| - 74, if recorded <= |file| then recorded else |file|;
      DecryptBodyOf(secret, file, recorded)
      == if n < -74 then Err(Stuck)
         else if n < 0 then Ok(file[..body - n])
         else Ok(Decrypt(secret, State(0, 0, 0), file[..n]).0 + if n < body then file[n..body] else [])
  {
    hide Decrypt;
    hide Ascii;
  }

  lemma DecryptExactly(secret: string, file: seq<word>)
    requires FooterLength(file).Ok?
    ensures |file| >= 74
    ensures DecryptImage(secret, file)
         == if exists i :: 0 <= i < |secret| && secret[i] as int >= 0x80 then Err(SecretNotAscii)
            else DecryptBodyOf(secret, file, FooterLength(file).value)
  {
    FooterIsThere(file);
    AsciiExactlyWhen(secret);
    hide Ascii;
    hide FooterLength;
    hide DecryptBodyOf;
  }

  /** Everything that goes out, whether or not a run ends well: encryption writes its body
      before it fails on the length; a run that hangs has copied the whole file. */
  lemma WritesExactly(secret: string, prefixlen: int, plain: seq<word>, file: seq<word>)
    ensures
      var n := if prefixlen <= |plain| then prefixlen else |plain|;
      EncryptWrites(secret, prefixlen, plain)
      == if exists i :: 0 <= i < |secret| && secret[i] as int >= 0x80 then []
         else if prefixlen < 0 then plain
         else Encrypt(secret, State(0, 0, 0), plain[..n]).0 + plain[n..] + if n < 0x8000_0000 then Footer(n) else []
    ensures DecryptWrites(secret, file)
         == match DecryptImage(secret, file)
            case Ok(out) => out
            case Err(e) => if e == Stuck then file else []
  {
    AsciiExactlyWhen(secret);
    hide Ascii;
    hide Encrypt;
    hide Footer;
    hide DecryptImage;
  }

  lemma FooterIsThere(file: seq<word>)
    requires FooterLength(file).Ok?
    ensures |file| >= 74
  {
  }

  lemma AsciiExactlyWhen(secret: string)
    ensures Ascii(secret) <==> !exists i :: 0 <= i < |secret| && secret[i] as int >= 0x80
  {
  }

  lemma SignatureExactly(field: seq<word>)
    requires |field| == 6
    ensures field == Letters(SIGNATURE) <==> Spells(field, "icpnas", 6)
  {
    LettersSpell("icpnas", 6);
    hide CharWord;
    hide Letters;
  }

  lemma LabelsExactly(file: seq<word>, body: nat)
    requires body + 42 <= |file|
    ensures AllBelow(file[body + 10..body + 42], 0x80) <==> !exists i :: body + 10 <= i < body + 42 && file[i] >= 0x80
  {
    var labels := file[body + 10..body + 42];
    assert forall i :: body + 10 <= i < body + 42 ==> file[i] == labels[i - body - 10];
  }

  // ---- Files and block loops ----

  class InputFile {
    const data: seq<word>
    var pos: nat

    constructor (data: seq<word>)
      ensures this.data == data && pos == 0
    {
      this.data := data;
      pos := 0;
    }

    function Remaining(): seq<word>
      reads this
    {
      if pos <= |data| then data[pos..] else []
    }

    method Seek(to: nat)
      modifies this
      ensures pos == to
    {
      pos := to;
    }

    /** At most `n` bytes; nothing at the end of the file. */
    method Read(n: nat) returns (chunk: seq<word>)
      modifies this
      ensures chunk <= old(Remaining()) && |chunk| <= n && Remaining() == old(Remaining())[|chunk|..]
      ensures |chunk| < n ==> chunk == old(Remaining())
    {
      var rest := Remaining();
      var k := if n <= |rest| then n else |rest|;
      chunk := rest[..k];
      pos := pos + k;
    }
  }

  class OutputFile {
    var written: seq<word>

    constructor ()
      ensures written == []
    {
      written := [];
    }

    method Write(chunk: seq<word>)
      modifies this
      ensures written == old(written) + chunk
    {
      written := written + chunk;
    }
  }

  /** Blocks of which every one but the last is full, and none is empty. */
  predicate FullBlocks(chunks: seq<seq<word>>, blocksize: nat) {
    && (forall i :: 0 <= i < |chunks| ==> 0 < |chunks[i]| <= blocksize)
    && (forall i :: 0 <= i < |chunks| - 1 ==> |chunks[i]| == blocksize)
  }

  lemma AppendBlock(chunks: seq<seq<word>>, chunk: seq<word>, blocksize: nat)
    requires FullBlocks(chunks, blocksize) && 0 < |chunk| <= blocksize
    requires chunks != [] ==> |chunks[|chunks| - 1]| == blocksize
    ensures FullBlocks(chunks + [chunk], blocksize)
    ensures Flatten(chunks + [chunk]) == Flatten(chunks) + chunk
  {
    assert (chunks + [chunk])[..|chunks|] == chunks;
  }

  lemma Advance(start: seq<word>, done: nat, rest: seq<word>, chunk: seq<word>)
    requires done <= |start| && rest == start[done..] && chunk <= rest
    ensures start[..done] + chunk == start[..done + |chunk|] && rest[|chunk|..] == start[done + |chunk|..]
  {
  }

  /** `read_blocks`: exactly the next `total` bytes, in full blocks but for the last
      one. The loop fails to end exactly when the file holds fewer. */
  method ReadBlocks(file: InputFile, blocksize: nat, total: int) returns (chunks: seq<seq<word>>, stuck: bool)
    requires blocksize > 0
    modifies file
    ensures stuck <==> total > |old(file.Remaining())|
    ensures !stuck && total >= 0 ==> Flatten(chunks) == old(file.Remaining())[..total]
                                     && file.Remaining() == old(file.Remaining())[total..]
    ensures total < 0 ==> chunks == [] && file.Remaining() == old(file.Remaining())
    ensures stuck ==> Flatten(chunks) == old(file.Remaining())
    ensures FullBlocks(chunks, blocksize)
  {
    hide FullBlocks;
    hide Flatten;
    NoBlocks(blocksize);
    ghost var start, done := file.Remaining(), 0;
    var left := total;
    chunks, stuck := [], false;
    while left > 0
      invariant left == total - done && 0 <= done <= |start| && (total < 0 ==> chunks == []) && (total >= 0 ==> left >= 0)
      invariant Flatten(chunks) == start[..done] && file.Remaining() == start[done..]
      invariant FullBlocks(chunks, blocksize)
      invariant left > 0 && done < |start| && chunks != [] ==> |chunks[|chunks| - 1]| == blocksize
      decreases left
    {
      var chunk := file.Read(if left <= blocksize then left else blocksize);
      if chunk == [] {
        assert start[..done] == start;
        stuck := true;
        return;
      }
      Advance(start, done, start[done..], chunk);
      AppendBlock(chunks, chunk, blocksize);
      chunks := chunks + [chunk];
      left, done := left - |chunk|, done + |chunk|;
    }
  }

  lemma NoBlocks(blocksize: nat)
    ensures FullBlocks([], blocksize) && Flatten<word>([]) == []
  {
  }

  method EncryptBlocks(secret: string, chunks: seq<seq<word>>, output: OutputFile)
    requires Ascii(secret)
    modifies output
    ensures output.written == old(output.written) + Encrypt(secret, INITIAL, Flatten(chunks)).0
  {
    hide Encrypt;
    var cryptor := new Cryptor(secret);
    EmptyEncrypt(secret, INITIAL);
    ghost var w := output.written;
    for i := 0 to |chunks|
      invariant fresh(cryptor) && cryptor.secret == secret
      invariant output.written == w + Encrypt(secret, INITIAL, Flatten(chunks[..i])).0
      invariant cryptor.Current() == Encrypt(secret, INITIAL, Flatten(chunks[..i])).1
    {
      FlattenTake(chunks, i);
      EncryptInChunks(secret, INITIAL, Flatten(chunks[..i]), chunks[i]);
      var c := cryptor.EncryptChunk(chunks[i]);
      output.Write(c);
    }
    assert chunks[..|chunks|] == chunks;
  }

  lemma EmptyEncrypt(secret: string, s: State)
    requires Ascii(secret)
    ensures Encrypt(secret, s, []) == ([], s) && Decrypt(secret, s, []) == ([], s)
  {
  }

  method DecryptBlocks(secret: string, chunks: seq<seq<word>>, output: OutputFile)
    requires Ascii(secret)
    modifies output
    ensures output.written == old(output.written) + Decrypt(secret, INITIAL, Flatten(chunks)).0
  {
    hide Decrypt;
    var cryptor := new Cryptor(secret);
    EmptyEncrypt(secret, INITIAL);
    ghost var w := output.written;
    for i := 0 to |chunks|
      invariant fresh(cryptor) && cryptor.secret == secret
      invariant output.written == w + Decrypt(secret, INITIAL, Flatten(chunks[..i])).0
      invariant cryptor.Current() == Decrypt(secret, INITIAL, Flatten(chunks[..i])).1
    {
      FlattenTake(chunks, i);
      DecryptInChunks(secret, INITIAL, Flatten(chunks[..i]), chunks[i]);
      var p := cryptor.DecryptChunk(chunks[i]);
      output.Write(p);
    }
    assert chunks[..|chunks|] == chunks;
  }

  method CopyBlocks(chunks: seq<seq<word>>, output: OutputFile)
    modifies output
    ensures output.written == old(output.written) + Flatten(chunks)
  {
    ghost var w := output.written;
    for i := 0 to |chunks|
      invariant output.written == w + Flatten(chunks[..i])
    {
      FlattenTake(chunks, i);
      output.Write(chunks[i]);
    }
    assert chunks[..|chunks|] == chunks;
  }

  /** Encrypt the next `total` bytes of the input onto the output. */
  method EncryptPart(secret: string, input: InputFile, output: OutputFile, total: int) returns (stuck: bool)
    requires Ascii(secret)
    modifies input, output
    ensures stuck <==> total > |old(input.Remaining())|
    ensures !stuck && total >= 0 ==>
              output.written == old(output.written) + Encrypt(secret, INITIAL, old(input.Remaining())[..total]).0
              && input.Remaining() == old(input.Remaining())[total..]
    ensures total < 0 ==> output.written == old(output.written) && input.Remaining() == old(input.Remaining())
  {
    hide Encrypt;
    EmptyEncrypt(secret, INITIAL);
    var chunks;
    chunks, stuck := ReadBlocks(input, CRYPT_BLOCK, total);
    EncryptBlocks(secret, chunks, output);
  }

  /** Decrypt the next `total` bytes of the input onto the output. */
  method DecryptPart(secret: string, input: InputFile, output: OutputFile, total: int) returns (stuck: bool)
    requires Ascii(secret)
    modifies input, output
    ensures stuck <==> total > |old(input.Remaining())|
    ensures !stuck && total >= 0 ==>
              output.written == old(output.written) + Decrypt(secret, INITIAL, old(input.Remaining())[..total]).0
              && input.Remaining() == old(input.Remaining())[total..]
    ensures total < 0 ==> output.written == old(output.written) && input.Remaining() == old(input.Remaining())
  {
    hide Decrypt;
    EmptyEncrypt(secret, INITIAL);
    var chunks;
    chunks, stuck := ReadBlocks(input, CRYPT_BLOCK, total);
    DecryptBlocks(secret, chunks, output);
  }

  /** Copy the next `total` bytes of the input onto the output. */
  method CopyPart(input: InputFile, output: OutputFile, total: int) returns (stuck: bool)
    modifies input, output
    ensures stuck <==> total > |old(input.Remaining())|
    ensures !stuck && total >= 0 ==>
              output.written == old(output.written) + old(input.Remaining())[..total]
              && input.Remaining() == old(input.Remaining())[total..]
    ensures total < 0 ==> output.written == old(output.written) && input.Remaining() == old(input.Remaining())
    ensures stuck ==> output.written == old(output.written) + old(input.Remaining())
  {
    var chunks;
    chunks, stuck := ReadBlocks(input, COPY_BLOCK, total);
    CopyBlocks(chunks, output);
  }

  method EncryptBody(secret: string, prefix: nat, input: InputFile, output: OutputFile)
    requires Ascii(secret) && prefix <= |input.data|
    modifies input, output
    ensures output.written
         == old(output.written) + Encrypt(secret, INITIAL, input.data[..prefix]).0 + input.data[prefix..]
  {
    hide Encrypt;
    hide Ascii;
    input.Seek(0);
    assert input.Remaining() == input.data;
    var stuck := EncryptPart(secret, input, output, prefix);
    ghost var w, rest := output.written, input.data[prefix..];
    stuck := CopyPart(input, output, |input.data| - prefix);
    assert rest[..|rest|] == rest;
    assert output.written == w + rest;
  }

  /** `do_encrypt`, on the two files: what it writes and how it ends. */
  method DoEncrypt(secret: string, prefixlen: int, input: InputFile, output: OutputFile) returns (error: Option<ImageError>)
    modifies input, output
    ensures
      match EncryptImage(secret, prefixlen, input.data)
      case Ok(_) => error == None
      case Err(e) => error == Some(e)
    ensures output.written == old(output.written) + EncryptWrites(secret, prefixlen, input.data)
  {
    hide Encrypt;
    hide Ascii;
    hide Footer;
    var prefix := MinInt(prefixlen, |input.data|);
    if !Ascii(secret) { return Some(SecretNotAscii); }
    ghost var start := output.written;
    if prefix < 0 {
      input.Seek(0);
      assert input.Remaining() == input.data;
      var stuck := CopyPart(input, output, |input.data| - prefix);
      return Some(Stuck);
    }
    EncryptBody(secret, prefix, input, output);
    ghost var body := Encrypt(secret, INITIAL, input.data[..prefix]).0 + input.data[prefix..];
    assert output.written == start + body;
    assert start + body + Footer(0) == start + (body + Footer(0));
    if prefix >= 0x8000_0000 { return Some(LengthNotPackable); }
    output.Write(Footer(prefix));
    return None;
  }

  /** What the first loop leaves decrypted, and where the second one starts. */
  function DecryptedPart(secret: string, file: seq<word>, length: int): seq<word>
    requires Ascii(secret) && length <= |file|
  {
    if length < 0 then [] else Decrypt(secret, INITIAL, file[..length]).0
  }

  /** What the second loop writes; it copies to the end of the file before it hangs. */
  function TailWrites(file: seq<word>, done: nat, left: int): seq<word>
    requires done <= |file|
  {
    if left < 0 then [] else if left > |file| - done then file[done..] else file[done..done + left]
  }

  function BodyWrites(secret: string, file: seq<word>, recorded: int): seq<word>
    requires Ascii(secret) && |file| >= FOOTER
  {
    match DecryptBodyOf(secret, file, recorded)
    case Ok(plain) => plain
    case Err(_) => file
  }

  lemma BodyInTwoParts(secret: string, file: seq<word>, recorded: int)
    requires Ascii(secret) && |file| >= FOOTER
    ensures
      var length := MinInt(recorded, |file|);
      var done, left := if length < 0 then 0 else length, |file| - FOOTER - length;
      && (DecryptBodyOf(secret, file, recorded).Err? <==> left > |file| - done)
      && BodyWrites(secret, file, recorded) == DecryptedPart(secret, file, length) + TailWrites(file, done, left)
  {
    hide Decrypt;
    var length := MinInt(recorded, |file|);
    var left := |file| - FOOTER - length;
    if length < 0 {
      assert [] + TailWrites(file, 0, left) == TailWrites(file, 0, left);
    } else if left == 0 {
      assert file[length..length] == [];
    }
  }

  method CopyTail(input: InputFile, output: OutputFile, done: nat, left: int) returns (stuck: bool)
    requires done <= |input.data| && input.Remaining() == input.data[done..]
    modifies input, output
    ensures stuck <==> left > |input.data| - done
    ensures output.written == old(output.written) + TailWrites(input.data, done, left)
  {
    ghost var start, rest := output.written, input.data[done..];
    stuck := CopyPart(input, output, left);
    if !stuck && left >= 0 {
      assert rest[..left] == input.data[done..done + left];
    } else if !stuck {
      assert start + [] == start;
    }
  }

  method DecryptHead(secret: string, length: int, input: InputFile, output: OutputFile)
    requires Ascii(secret) && length <= |input.data|
    modifies input, output
    ensures output.written == old(output.written) + DecryptedPart(secret, input.data, length)
    ensures input.Remaining() == input.data[if length < 0 then 0 else length..]
  {
    hide Decrypt;
    hide Ascii;
    input.Seek(0);
    assert input.Remaining() == input.data && input.data[0..] == input.data;
    ghost var start := output.written;
    var stuck := DecryptPart(secret, input, output, length);
    assert start + [] == start;
  }

  method DecryptBody(secret: string, recorded: int, input: InputFile, output: OutputFile) returns (stuck: bool)
    requires Ascii(secret) && |input.data| >= FOOTER
    modifies input, output
    ensures stuck <==> DecryptBodyOf(secret, input.data, recorded).Err?
    ensures output.written == old(output.written) + BodyWrites(secret, input.data, recorded)
  {
    hide *;
    var length := MinInt(recorded, |input.data|);
    MinBound(recorded, |input.data|);
    var done := if length < 0 then 0 else length;
    var left := |input.data| - FOOTER - length;
    BodyInTwoParts(secret, input.data, recorded);
    ghost var start := output.written;
    DecryptHead(secret, length, input, output);
    stuck := CopyTail(input, output, done, left);
    Regroup(start, DecryptedPart(secret, input.data, length), TailWrites(input.data, done, left));
  }

  lemma MinBound(a: int, b: int)
    ensures MinInt(a, b) <= b
  {
  }

  lemma Regroup(a: seq<word>, b: seq<word>, c: seq<word>)
    ensures (a + b) + c == a + (b + c)
  {
  }

  /** `do_decrypt`, on the two files: what it writes and how it ends. */
  method DoDecrypt(secret: string, input: InputFile, output: OutputFile) returns (error: Option<ImageError>)
    modifies input, output
    ensures
      match DecryptImage(secret, input.data)
      case Ok(_) => error == None
      case Err(e) => error == Some(e)
    ensures output.written == old(output.written) + DecryptWrites(secret, input.data)
  {
    hide DecryptBodyOf;
    hide FooterLength;
    hide Ascii;
    assert output.written + [] == output.written;
    var recorded := ReadFooter(input);
    if recorded.Err? { return Some(recorded.error); }
    if !Ascii(secret) { return Some(SecretNotAscii); }
    var stuck := DecryptBody(secret, recorded.value, input, output);
    OnlyStuck(secret, input.data, recorded.value);
    if stuck { return Some(Stuck); }
    return None;
  }

  lemma OnlyStuck(secret: string, file: seq<word>, recorded: int)
    requires Ascii(secret) && |file| >= FOOTER
    ensures DecryptBodyOf(secret, file, recorded).Err? ==> DecryptBodyOf(secret, file, recorded).error == Stuck
  {
    hide Decrypt;
  }

  method ReadFooter(input: InputFile) returns (r: Result<int, ImageError>)
    modifies input
    ensures r == FooterLength(input.data)
    ensures r.Err? ==> !r.error.Stuck?
    ensures r.Ok? ==> |input.data| >= FOOTER
  {
    hide UnpackInt;
    hide Letters;
    var body := |input.data| - FOOTER;
    if body < 0 { return Err(FileTooShort); }
    input.Seek(body);
    assert input.Remaining() == input.data[body..];
    var signature := input.Read(6);
    var field := input.Read(4);
    var labels := input.Read(32);
    assert |signature| == 6 && |field| == 4 && |labels| == 32;
    assert signature == input.data[body..body + 6];
    assert field == input.data[body + 6..body + 10];
    assert labels == input.data[body + 10..body + 42];
    if signature != Letters(SIGNATURE) { return Err(SignatureMismatch); }
    if !AllBelow(labels, 0x80) { return Err(LabelNotAscii); }
    return Ok(UnpackInt(field));
  }

  /** Encrypting a file and decrypting the result restores it, through the block loops. */
  method FileRoundTrip(secret: string, prefixlen: nat, plain: seq<word>) returns (restored: seq<word>)
    requires Ascii(secret) && Bytes(plain) && MinInt(prefixlen, |plain|) < 0x8000_0000
    ensures restored == plain
  {
    hide EncryptImage;
    hide DecryptImage;
    ImageRoundTrip(secret, prefixlen, plain);
    var original := new InputFile(plain);
    var image := new OutputFile();
    var e := DoEncrypt(secret, prefixlen, original, image);
    var encrypted := new InputFile(image.written);
    var output := new OutputFile();
    assert encrypted.data == EncryptImage(secret, prefixlen, plain).value;
    e := DoDecrypt(secret, encrypted, output);
    restored := output.written;
  }
}
