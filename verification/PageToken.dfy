/** Opaque keyset cursors: unpadded base64url over the cursor's text, a number in decimal or a name.

    Text is modelled as its UTF-8 bytes. */
module PageToken {
  import opened Prelude

  type Byte = n: nat | n < 256

  type Text = seq<Byte>

  // ---------- base64url (section 5 of RFC 4648, padding omitted per section 3.2) ----------

  function ToChar(n: nat): char
    requires n < 64
  {
    if n < 26 then 'A' + (n as char)
    else if n < 52 then 'a' + ((n - 26) as char)
    else if n < 62 then '0' + ((n - 52) as char)
    else if n == 62 then '-'
    else '_'
  }

  function FromChar(c: char): (r: Option<nat>)
    ensures r.Some? ==> r.value < 64
  {
    if 'A' <= c <= 'Z' then Some(c as int - 'A' as int)
    else if 'a' <= c <= 'z' then Some(c as int - 'a' as int + 26)
    else if '0' <= c <= '9' then Some(c as int - '0' as int + 52)
    else if c == '-' then Some(62)
    else if c == '_' then Some(63)
    else None
  }

  lemma CharRoundTrip(n: nat)
    requires n < 64
    ensures FromChar(ToChar(n)) == Some(n)
  {}

  /** The alphabet: encoding writes the capitals for the first 26 values, then the small letters, the digits, the
      hyphen and the underscore, and decoding reads a character as a value exactly when encoding writes it. */
  lemma CharactersAreTheAlphabet(n: nat, c: char)
    requires n < 64
    ensures n < 26 ==> ToChar(n) == "ABCDEFGHIJKLMNOPQRSTUVWXYZ"[n]
    ensures 26 <= n < 52 ==> ToChar(n) == "abcdefghijklmnopqrstuvwxyz"[n - 26]
    ensures 52 <= n ==> ToChar(n) == "0123456789-_"[n - 52]
    ensures FromChar(c) == Some(n) <==> c == ToChar(n)
  {
    assert FromChar(c) == Some(n) <==> c == ToChar(n) by { ReadsWhatIsWritten(n, c); }
    if n < 26 { Capitals(n); }
    else if n < 52 { SmallLetters(n - 26); }
    else { DigitsAndMarks(n - 52); }
  }

  lemma ReadsWhatIsWritten(n: nat, c: char)
    requires n < 64
    ensures FromChar(c) == Some(n) <==> c == ToChar(n)
  {}

  lemma Capitals(n: nat)
    requires n < 26
    ensures ToChar(n) == "ABCDEFGHIJKLMNOPQRSTUVWXYZ"[n]
  {}

  lemma SmallLetters(n: nat)
    requires n < 26
    ensures ToChar(n + 26) == "abcdefghijklmnopqrstuvwxyz"[n]
  {}

  lemma DigitsAndMarks(n: nat)
    requires n < 12
    ensures ToChar(n + 52) == "0123456789-_"[n]
  {}

  function Base64(b: Text): string {
    if b == [] then ""
    else if |b| == 1 then [ToChar(b[0] / 4), ToChar(b[0] % 4 * 16)]
    else if |b| == 2 then [ToChar(b[0] / 4), ToChar(b[0] % 4 * 16 + b[1] / 16), ToChar(b[1] % 16 * 4)]
    else
      [ToChar(b[0] / 4), ToChar(b[0] % 4 * 16 + b[1] / 16), ToChar(b[1] % 16 * 4 + b[2] / 64), ToChar(b[2] % 64)]
      + Base64(b[3..])
  }

  predicate Padded(s: string) {
    |s| == 4 && s[3] == '='
  }

  /** The last quantum: two or three characters, with or without their padding. Surplus bits are ignored. */
  function Tail(s: string): Option<Text> {
    var body := if !Padded(s) then s else if s[2] == '=' then s[..2] else s[..3];
    if |body| == 2 && FromChar(body[0]).Some? && FromChar(body[1]).Some? then
      var x, y := FromChar(body[0]).value, FromChar(body[1]).value;
      Some([x * 4 + y / 16])
    else if |body| == 3 && FromChar(body[0]).Some? && FromChar(body[1]).Some? && FromChar(body[2]).Some? then
      var x, y, z := FromChar(body[0]).value, FromChar(body[1]).value, FromChar(body[2]).value;
      Some([x * 4 + y / 16, y % 16 * 16 + z / 4])
    else None
  }

  predicate FullQuantum(s: string) {
    |s| >= 4 && FromChar(s[0]).Some? && FromChar(s[1]).Some? && FromChar(s[2]).Some? && FromChar(s[3]).Some?
  }

  function Unbase64(s: string): Option<Text> {
    if s == "" then Some([])
    else if FullQuantum(s) then
      var x, y, z, u := FromChar(s[0]).value, FromChar(s[1]).value, FromChar(s[2]).value, FromChar(s[3]).value;
      match Unbase64(s[4..])
      case None => None
      case Some(rest) => Some([x * 4 + y / 16, y % 16 * 16 + z / 4, z % 4 * 64 + u] + rest)
    else Tail(s)
  }

  lemma Quantum(a: Byte, b: Byte, c: Byte)
    ensures
      var x, y, z, u := a / 4, a % 4 * 16 + b / 16, b % 16 * 4 + c / 64, c % 64;
      && x < 64 && y < 64 && z < 64 && u < 64
      && x * 4 + y / 16 == a && y % 16 * 16 + z / 4 == b && z % 4 * 64 + u == c
  {}

  lemma OneByte(a: Byte)
    ensures Unbase64(Base64([a])) == Some([a])
  {
    hide ToChar, FromChar;
    Quantum(a, 0, 0);
    CharRoundTrip(a / 4);
    CharRoundTrip(a % 4 * 16);
  }

  lemma TwoBytes(a: Byte, b: Byte)
    ensures Unbase64(Base64([a, b])) == Some([a, b])
  {
    hide ToChar, FromChar;
    Quantum(a, b, 0);
    CharRoundTrip(a / 4);
    CharRoundTrip(a % 4 * 16 + b / 16);
    CharRoundTrip(b % 16 * 4);
    assert !Padded(Base64([a, b]));
  }

  lemma ThreeBytes(a: Byte, b: Byte, c: Byte, rest: string)
    ensures
      var s := [ToChar(a / 4), ToChar(a % 4 * 16 + b / 16), ToChar(b % 16 * 4 + c / 64), ToChar(c % 64)] + rest;
      && FullQuantum(s)
      && (Unbase64(rest).Some? ==> Unbase64(s) == Some([a, b, c] + Unbase64(rest).value))
  {
    hide ToChar, FromChar;
    Quantum(a, b, c);
    CharRoundTrip(a / 4);
    CharRoundTrip(a % 4 * 16 + b / 16);
    CharRoundTrip(b % 16 * 4 + c / 64);
    CharRoundTrip(c % 64);
    var s := [ToChar(a / 4), ToChar(a % 4 * 16 + b / 16), ToChar(b % 16 * 4 + c / 64), ToChar(c % 64)] + rest;
    assert s[4..] == rest;
  }

  lemma {:induction false} Base64RoundTrip(b: Text)
    ensures Unbase64(Base64(b)) == Some(b)
    ensures b != [] ==> Base64(b) != ""
  {
    hide Unbase64;
    if b == [] {
      assert Unbase64("") == Some([]) by { Empty64(); }
    } else if |b| == 1 {
      assert b == [b[0]];
      OneByte(b[0]);
    } else if |b| == 2 {
      assert b == [b[0], b[1]];
      TwoBytes(b[0], b[1]);
    } else {
      Base64RoundTrip(b[3..]);
      ThreeBytes(b[0], b[1], b[2], Base64(b[3..]));
      assert b == [b[0], b[1], b[2]] + b[3..];
    }
  }

  lemma Empty64()
    ensures Unbase64("") == Some([])
  {}

  // ---------- which tokens decode, and to what ----------

  /** A token less the padding that may complete its last quantum of four. */
  function Unpadded(s: string): string {
    if s == "" || |s| % 4 != 0 || s[|s| - 1] != '=' then s
    else if s[|s| - 2] == '=' then s[..|s| - 2]
    else s[..|s| - 1]
  }

  function Sextet(t: string, i: nat): nat {
    if i < |t| && FromChar(t[i]).Some? then FromChar(t[i]).value else 0
  }

  /** The `i`-th byte of six-bit characters: it straddles two of them, and three bytes span four. */
  function ByteOf(t: string, i: nat): nat {
    var high, low := Sextet(t, i * 4 / 3), Sextet(t, i * 4 / 3 + 1);
    if i % 3 == 0 then high * 4 + low / 16
    else if i % 3 == 1 then high % 16 * 16 + low / 4
    else high % 4 * 64 + low
  }

  predicate AllSextets(t: string) {
    forall i :: 0 <= i < |t| ==> FromChar(t[i]).Some?
  }

  /** Characters of the alphabet that spell out the bytes; bits beyond the last byte are ignored, and one character
      alone is too few for a byte. */
  ghost predicate SpellsPlainly(t: string, b: Text) {
    && AllSextets(t) && |t| % 4 != 1 && |b| == |t| * 3 / 4
    && forall i :: 0 <= i < |b| ==> b[i] == ByteOf(t, i)
  }

  /** `s` is base64url for `b`, with or without padding. */
  ghost predicate Spells(s: string, b: Text) {
    SpellsPlainly(Unpadded(s), b)
  }

  ghost predicate StartsWith(b: Text, x: nat, y: nat, z: nat, u: nat) {
    |b| >= 3 && b[0] == x * 4 + y / 16 && b[1] == y % 16 * 16 + z / 4 && b[2] == z % 4 * 64 + u
  }

  lemma FirstBytes(t: string)
    ensures
      var x, y, z, u := Sextet(t, 0), Sextet(t, 1), Sextet(t, 2), Sextet(t, 3);
      && ByteOf(t, 0) == x * 4 + y / 16 && ByteOf(t, 1) == y % 16 * 16 + z / 4 && ByteOf(t, 2) == z % 4 * 64 + u
  {
    hide Sextet;
  }

  lemma ByteOfRest(t: string, i: nat)
    requires |t| >= 4 && i >= 3
    ensures ByteOf(t, i) == ByteOf(t[4..], i - 3)
  {
    hide FromChar;
    assert (i - 3) * 4 / 3 == i * 4 / 3 - 4 && (i - 3) % 3 == i % 3;
    SextetOfRest(t, i * 4 / 3);
    SextetOfRest(t, i * 4 / 3 + 1);
  }

  lemma SextetOfRest(t: string, i: nat)
    requires |t| >= 4 && i >= 4
    ensures Sextet(t, i) == Sextet(t[4..], i - 4)
  {
    hide FromChar;
    if i < |t| { assert t[4..][i - 4] == t[i]; }
  }

  lemma SextetsOfRest(t: string)
    requires |t| >= 4
    ensures AllSextets(t) <==>
            && FromChar(t[0]).Some? && FromChar(t[1]).Some? && FromChar(t[2]).Some? && FromChar(t[3]).Some?
            && AllSextets(t[4..])
  {
    hide FromChar;
    var rest := t[4..];
    if AllSextets(rest) { assert forall i :: 4 <= i < |t| ==> t[i] == rest[i - 4]; }
  }

  /** A quantum of four characters in front adds its three bytes. */
  lemma SpellsMore(t: string, b: Text)
    requires |t| >= 4 && FromChar(t[0]).Some? && FromChar(t[1]).Some? && FromChar(t[2]).Some? && FromChar(t[3]).Some?
    ensures SpellsPlainly(t, b) <==>
            StartsWith(b, Sextet(t, 0), Sextet(t, 1), Sextet(t, 2), Sextet(t, 3)) && SpellsPlainly(t[4..], b[3..])
  {
    hide FromChar, Sextet, ByteOf, AllSextets;
    SextetsOfRest(t);
    FirstBytes(t);
    assert |t[4..]| * 3 / 4 == |t| * 3 / 4 - 3;
    if |b| == |t| * 3 / 4 {
      var rest := b[3..];
      forall i | 0 <= i < |rest| ensures rest[i] == b[i + 3] && ByteOf(t[4..], i) == ByteOf(t, i + 3) {
        ByteOfRest(t, i + 3);
      }
      if forall i :: 0 <= i < |rest| ==> rest[i] == ByteOf(t[4..], i) {
        assert forall i :: 3 <= i < |b| ==> b[i] == rest[i - 3] && ByteOf(t[4..], i - 3) == ByteOf(t, i);
      }
    }
  }

  /** What one, two or three characters spell. */
  lemma SpellsFew(t: string, b: Text)
    requires 1 <= |t| <= 3
    ensures SpellsPlainly(t, b) <==>
            && |t| >= 2 && AllSextets(t)
            && b == (if |t| == 2 then [Sextet(t, 0) * 4 + Sextet(t, 1) / 16]
                     else [Sextet(t, 0) * 4 + Sextet(t, 1) / 16, Sextet(t, 1) % 16 * 16 + Sextet(t, 2) / 4])
  {
    hide FromChar, Sextet, ByteOf, AllSextets;
    FirstBytes(t);
    assert |t| == 2 ==> |t| * 3 / 4 == 1;
    assert |t| == 3 ==> |t| * 3 / 4 == 2;
  }

  lemma UnpaddedRest(s: string)
    requires FullQuantum(s)
    ensures |Unpadded(s)| >= 4 && Unpadded(s)[..4] == s[..4] && Unpadded(s)[4..] == Unpadded(s[4..])
  {
    assert FromChar('=').None?;
  }

  lemma TailSpells(s: string, b: Text)
    requires s != "" && !FullQuantum(s)
    ensures Tail(s) == Some(b) <==> Spells(s, b)
  {
    var t := Unpadded(s);
    assert FromChar('=').None?;
    if |t| >= 4 {
      assert !AllSextets(t) by { assert t[0] == s[0] && t[1] == s[1] && t[2] == s[2] && t[3] == s[3]; }
    } else {
      TailOfFew(s, b);
      SpellsFew(t, b);
    }
  }

  lemma TailOfFew(s: string, b: Text)
    requires s != "" && |Unpadded(s)| <= 3
    ensures
      var t := Unpadded(s);
      && 1 <= |t|
      && (Tail(s) == Some(b) <==>
            && |t| >= 2 && AllSextets(t)
            && b == (if |t| == 2 then [Sextet(t, 0) * 4 + Sextet(t, 1) / 16]
                     else [Sextet(t, 0) * 4 + Sextet(t, 1) / 16, Sextet(t, 1) % 16 * 16 + Sextet(t, 2) / 4]))
  {
    hide FromChar;
    assert FromChar('=').None? by { PadIsNoCharacter(); }
  }

  lemma PadIsNoCharacter()
    ensures FromChar('=').None?
  {}

  /** Decoding succeeds exactly on what spells some bytes, and yields those. */
  lemma {:induction false} DecodesExactly(s: string, b: Text)
    ensures Unbase64(s) == Some(b) <==> Spells(s, b)
    decreases |s|
  {
    hide FromChar, SpellsPlainly, Tail, Unpadded;
    if s == "" {
      assert Spells("", b) <==> b == [] by { NothingSpellsNothing(b); }
    } else if FullQuantum(s) {
      var t := Unpadded(s);
      UnpaddedRest(s);
      assert t[0] == s[0] && t[1] == s[1] && t[2] == s[2] && t[3] == s[3];
      SpellsMore(t, b);
      if |b| >= 3 {
        DecodesExactly(s[4..], b[3..]);
        assert b == [b[0], b[1], b[2]] + b[3..];
      }
    } else {
      TailSpells(s, b);
    }
  }

  lemma NothingSpellsNothing(b: Text)
    ensures Spells("", b) <==> b == []
  {}

  // ---------- decimal numbers ----------

  const MIN_LONG: int := -0x8000_0000_0000_0000
  const MAX_LONG: int := 0x7fff_ffff_ffff_ffff

  function Digits(n: nat): (t: Text)
    ensures t != []
  {
    if n < 10 then [48 + n] else Digits(n / 10) + [48 + n % 10]
  }

  /** A number as Java prints it. */
  function Decimal(x: int): Text {
    if x < 0 then [45] + Digits(-x) else Digits(x)
  }

  predicate AllDigits(t: Text) {
    forall i :: 0 <= i < |t| ==> 48 <= t[i] <= 57
  }

  function ValueOf(t: Text): nat
    requires AllDigits(t)
  {
    if t == [] then 0 else ValueOf(t[..|t| - 1]) * 10 + (t[|t| - 1] - 48)
  }

  /** A number as Java parses it: an optional sign, at least one digit, and a value that fits 64 bits. */
  function ParseLong(t: Text): Option<int> {
    var signed := t != [] && (t[0] == 45 || t[0] == 43);
    var digits := if signed then t[1..] else t;
    if digits == [] || !AllDigits(digits) then None
    else
      var x := if signed && t[0] == 45 then -(ValueOf(digits) as int) else ValueOf(digits);
      if MIN_LONG <= x <= MAX_LONG then Some(x) else None
  }

  lemma {:induction false} DigitsRoundTrip(n: nat)
    ensures AllDigits(Digits(n)) && ValueOf(Digits(n)) == n
  {
    if n >= 10 {
      DigitsRoundTrip(n / 10);
      assert Digits(n)[..|Digits(n)| - 1] == Digits(n / 10);
    } else {
      assert Digits(n)[..0] == [];
    }
  }

  lemma DecimalRoundTrip(x: int)
    requires MIN_LONG <= x <= MAX_LONG
    ensures Decimal(x) != [] && ParseLong(Decimal(x)) == Some(x)
  {
    var n := if x < 0 then -x else x;
    DigitsRoundTrip(n);
    if x < 0 {
      assert Decimal(x)[1..] == Digits(n);
    } else {
      assert 48 <= Digits(n)[0] <= 57;
    }
  }

  function Zeros(n: nat): (t: Text)
    ensures |t| == n && forall i :: 0 <= i < n ==> t[i] == 48
  {
    seq(n, _ => 48)
  }

  lemma AppendDigit(v: nat, digit: nat)
    requires digit < 10
    ensures Digits(v * 10 + digit) == if v == 0 then [48 + digit] else Digits(v) + [48 + digit]
  {
    assert v > 0 ==> (v * 10 + digit) / 10 == v && (v * 10 + digit) % 10 == digit;
  }

  /** Digits are those of their value, after leading zeros. */
  lemma {:induction false} DigitsOfValue(t: Text)
    requires t != [] && AllDigits(t)
    ensures |Digits(ValueOf(t))| <= |t| && t == Zeros(|t| - |Digits(ValueOf(t))|) + Digits(ValueOf(t))
  {
    hide Digits, Zeros, ValueOf;
    var init, last := t[..|t| - 1], t[|t| - 1] - 48;
    assert t == init + [48 + last];
    ValueOfInit(t);
    var v := ValueOf(init);
    AppendDigit(v, last);
    if init == [] {
      assert t == Zeros(0) + [48 + last];
    } else {
      DigitsOfValue(init);
      if v == 0 {
        AppendDigit(0, 0);
        assert t == Zeros(|t| - 1) + [48 + last];
      } else {
        assert t == Zeros(|init| - |Digits(v)|) + (Digits(v) + [48 + last]);
      }
    }
  }

  lemma ValueOfInit(t: Text)
    requires t != [] && AllDigits(t)
    ensures AllDigits(t[..|t| - 1]) && ValueOf(t) == ValueOf(t[..|t| - 1]) * 10 + (t[|t| - 1] - 48)
    ensures |t| == 1 ==> ValueOf(t[..|t| - 1]) == 0
  {}

  lemma {:induction false} ValueAfterZeros(zeros: nat, t: Text)
    requires AllDigits(t)
    ensures AllDigits(Zeros(zeros) + t) && ValueOf(Zeros(zeros) + t) == ValueOf(t)
    decreases |t| + zeros
  {
    var s := Zeros(zeros) + t;
    if t != [] {
      ValueAfterZeros(zeros, t[..|t| - 1]);
      assert s[..|s| - 1] == Zeros(zeros) + t[..|t| - 1];
    } else if zeros > 0 {
      ValueAfterZeros(zeros - 1, t);
      assert s[..|s| - 1] == Zeros(zeros - 1) + t;
    }
  }

  /** A number written out: a minus sign for a negative one, any or no sign for 0, a plus or none otherwise, then
      zeros, then its digits. */
  ghost predicate Writes(t: Text, x: int) {
    MIN_LONG <= x <= MAX_LONG
    && exists sign: Text, zeros: nat ::
         && t == sign + Zeros(zeros) + Digits(if x < 0 then -x else x)
         && (sign == [] || sign == [43] || sign == [45])
         && (x < 0 ==> sign == [45]) && (x > 0 ==> sign != [45])
  }

  /** Parsing succeeds exactly on the ways to write a 64-bit number, and yields it. */
  lemma ParsesExactly(t: Text, x: int)
    ensures ParseLong(t) == Some(x) <==> Writes(t, x)
  {
    if ParseLong(t) == Some(x) { ParsedIsWritten(t, x); }
    if Writes(t, x) { WrittenIsParsed(t, x); }
  }

  lemma ParsedIsWritten(t: Text, x: int)
    requires ParseLong(t) == Some(x)
    ensures Writes(t, x)
  {
    hide ValueOf, Digits;
    var signed := t[0] == 45 || t[0] == 43;
    var sign, digits := if signed then t[..1] else [], if signed then t[1..] else t;
    DigitsOfValue(digits);
    var zeros := |digits| - |Digits(ValueOf(digits))|;
    assert ValueOf(digits) == if x < 0 then -x else x;
    assert t == sign + Zeros(zeros) + Digits(ValueOf(digits));
  }

  lemma WrittenIsParsed(t: Text, x: int)
    requires Writes(t, x)
    ensures ParseLong(t) == Some(x)
  {
    hide ValueOf, Digits, ParseLong, Zeros;
    var n := if x < 0 then -x else x;
    var sign: Text, zeros: nat :|
      && t == sign + Zeros(zeros) + Digits(n)
      && (sign == [] || sign == [43] || sign == [45])
      && (x < 0 ==> sign == [45]) && (x > 0 ==> sign != [45]);
    DigitsRoundTrip(n);
    ValueAfterZeros(zeros, Digits(n));
    assert t == sign + (Zeros(zeros) + Digits(n));
    ParseOf(sign, Zeros(zeros) + Digits(n));
  }

  lemma ParseOf(sign: Text, digits: Text)
    requires (sign == [] || sign == [43] || sign == [45]) && digits != [] && AllDigits(digits)
    ensures
      var x := if sign == [45] then -(ValueOf(digits) as int) else ValueOf(digits);
      ParseLong(sign + digits) == if MIN_LONG <= x <= MAX_LONG then Some(x) else None
  {
    hide ValueOf;
    var t := sign + digits;
    if sign == [] {
      assert t == digits && t[0] != 45 && t[0] != 43;
    } else {
      assert t[0] == sign[0] && t[1..] == digits;
    }
  }

  // ---------- tokens ----------

  function Encode(cursor: Text): string {
    Base64(cursor)
  }

  function EncodeLong(cursor: int): string {
    Encode(Decimal(cursor))
  }

  /** Nothing for the empty token, which starts from the beginning; an error for a malformed one. */
  function Decode(token: string): Result<Option<Text>> {
    if token == "" then Ok(None)
    else
      match Unbase64(token)
      case None => Err(InvalidArgument)
      case Some(text) => Ok(Some(text))
  }

  function DecodeLong(token: string, defaultValue: int): Result<int> {
    match Decode(token)
    case Err(e) => Err(e)
    case Ok(None) => Ok(defaultValue)
    case Ok(Some(text)) =>
      match ParseLong(text)
      case None => Err(InvalidArgument)
      case Some(x) => Ok(x)
  }

  /** Decoding an encoded cursor gives it back: every non-empty text, and every 64-bit number. */
  lemma TokenRoundTrip(text: Text, x: int, defaultValue: int)
    requires text != [] && MIN_LONG <= x <= MAX_LONG
    ensures Decode(Encode(text)) == Ok(Some(text))
    ensures EncodeLong(x) != "" && DecodeLong(EncodeLong(x), defaultValue) == Ok(x)
  {
    Base64RoundTrip(text);
    DecimalRoundTrip(x);
    Base64RoundTrip(Decimal(x));
  }

  /** A numeric token is accepted exactly when it is empty, which means the default, or when it is base64url for a
      64-bit number written out, which it then means; a name token exactly when it is base64url for some bytes.
      Every other token is an invalid argument. */
  lemma TokensMeanWhatTheySpell(token: string, defaultValue: int, x: int, text: Text)
    ensures DecodeLong(token, defaultValue) == Ok(x) <==>
            if token == "" then x == defaultValue else exists b :: Spells(token, b) && Writes(b, x)
    ensures DecodeLong(token, defaultValue).Err? ==> DecodeLong(token, defaultValue) == Err(InvalidArgument)
    ensures Decode(token) == Ok(Some(text)) <==> token != "" && Spells(token, text)
    ensures Decode(token) == Ok(None) <==> token == ""
    ensures Decode(token).Err? ==> Decode(token) == Err(InvalidArgument)
  {
    hide Spells, Writes, ParseLong, Unbase64;
    DecodesExactly(token, text);
    if Unbase64(token).Some? {
      var b := Unbase64(token).value;
      DecodesExactly(token, b);
      ParsesExactly(b, x);
    }
    if token != "" && exists b :: Spells(token, b) && Writes(b, x) {
      var b :| Spells(token, b) && Writes(b, x);
      DecodesExactly(token, b);
      ParsesExactly(b, x);
    }
  }

  // ---------- ASCII names ----------

  predicate Ascii(s: string) {
    forall i :: 0 <= i < |s| ==> s[i] < 128 as char
  }

  function Utf8(s: string): Text
    requires Ascii(s)
  {
    seq(|s|, i requires 0 <= i < |s| => s[i] as int)
  }

  /** The text of bytes below 128; other bytes have no ASCII reading. */
  function FromUtf8(t: Text): Option<string> {
    if forall i :: 0 <= i < |t| ==> t[i] < 128
    then Some(seq(|t|, i requires 0 <= i < |t| => if t[i] < 128 then t[i] as char else ' '))
    else None
  }

  /** An ASCII name survives the trip through a token. */
  lemma NameRoundTrip(s: string)
    requires s != "" && Ascii(s)
    ensures Decode(Encode(Utf8(s))) == Ok(Some(Utf8(s))) && FromUtf8(Utf8(s)) == Some(s)
  {
    Base64RoundTrip(Utf8(s));
    assert FromUtf8(Utf8(s)).value == s;
  }
}
