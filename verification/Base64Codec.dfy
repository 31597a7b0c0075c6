/** The Base64 encoder and decoder of the script kernel (src/js_repl_bootstrap.js:180-211), for
    the alphabets of sections 4 and 5 of RFC 4648. The decoder's accumulator is a 32-bit word that
    is shifted and never masked. */
module Base64Codec {
  import opened Options
  import opened Utf8

  const UPPER: string := "ABCDEFGHIJKLMNOPQRSTUVWXYZ"
  const LOWER: string := "abcdefghijklmnopqrstuvwxyz"
  const DIGITS: string := "0123456789"
  const ALPHABET: string := UPPER + LOWER + DIGITS + "+/"

  /** Six bits. */
  type Sextet = d: int | 0 <= d < 0x40

  const WORD: nat := 0x1_0000_0000

  /** What a word reads as when its top bit is a sign. */
  function Signed(word: nat): int {
    if word < 0x8000_0000 then word else word - WORD
  }

  // ---- The alphabet ----

  /** The character at a place in the alphabet, and the place of a character, told from their
      codes; `LettersAreTheAlphabet` and `DigitIsIndex` tie both to the table. */
  function Letter(d: Sextet): char {
    if d < 26 then ('A' as int + d) as char
    else if d < 52 then ('a' as int + d - 26) as char
    else if d < 62 then ('0' as int + d - 52) as char
    else if d == 62 then '+' else '/'
  }

  function DigitOf(c: char): Option<Sextet> {
    if 'A' <= c <= 'Z' then Some(c as int - 'A' as int)
    else if 'a' <= c <= 'z' then Some(c as int - 'a' as int + 26)
    else if '0' <= c <= '9' then Some(c as int - '0' as int + 52)
    else if c == '+' then Some(62) else if c == '/' then Some(63) else None
  }

  lemma UpperLetters(k: nat)
    requires k < 26
    ensures |UPPER| == 26 && Letter(k) == UPPER[k]
  {}

  lemma LowerLetters(k: nat)
    requires k < 26
    ensures |LOWER| == 26 && Letter(26 + k) == LOWER[k]
  {}

  lemma DigitLetters(k: nat)
    requires k < 10
    ensures |DIGITS| == 10 && Letter(52 + k) == DIGITS[k]
  {}

  lemma LettersAreTheAlphabet(d: Sextet)
    ensures |ALPHABET| == 64 && Letter(d) == ALPHABET[d]
  {
    if d < 26 {
      UpperLetters(d);
    } else if d < 52 {
      LowerLetters(d - 26);
    } else if d < 62 {
      DigitLetters(d - 52);
    }
  }

  /** `base64Alphabet.indexOf(character)`: the one place of the character, if it has one. */
  lemma DigitIsIndex(c: char, d: Sextet)
    ensures |ALPHABET| == 64 && (DigitOf(c) == Some(d) <==> ALPHABET[d] == c)
  {
    LettersAreTheAlphabet(d);
  }

  // ---- Encoding ----

  /** The three bytes that start a group, missing ones zero, as one number. */
  function Group(b: Bytes): nat
    requires b != []
  {
    b[0] as nat * 0x1_0000 + (if 1 < |b| then b[1] as nat * 0x100 else 0) + (if 2 < |b| then b[2] as nat else 0)
  }

  /** The four characters of the first group. */
  function GroupText(b: Bytes): string
    requires b != []
  {
    var value := Group(b);
    [Letter(value / 0x4_0000 % 0x40), Letter(value / 0x1000 % 0x40),
     if 1 < |b| then Letter(value / 0x40 % 0x40) else '=',
     if 2 < |b| then Letter(value % 0x40) else '=']
  }

  /** A group as section 4 of RFC 4648 cuts it: six bits of the first byte, two of it with four of the
      second, four of that with two of the third, and six of the third; padding for missing bytes. */
  lemma TextOfGroup(b: Bytes)
    requires b != []
    ensures |ALPHABET| == 64
    ensures var x := b[0] as nat;
            var y, z := if 1 < |b| then b[1] as nat else 0, if 2 < |b| then b[2] as nat else 0;
            GroupText(b) == [ALPHABET[x / 4], ALPHABET[x % 4 * 16 + y / 16],
                             if 1 < |b| then ALPHABET[y % 16 * 4 + z / 64] else '=',
                             if 2 < |b| then ALPHABET[z % 64] else '=']
  {
    hide Letter, ALPHABET;
    var x := b[0] as nat;
    var y, z := if 1 < |b| then b[1] as nat else 0, if 2 < |b| then b[2] as nat else 0;
    SixBitsOfGroup(x, y, z);
    LettersAreTheAlphabet(x / 4);
    LettersAreTheAlphabet(x % 4 * 16 + y / 16);
    LettersAreTheAlphabet(y % 16 * 4 + z / 64);
    LettersAreTheAlphabet(z % 64);
  }

  lemma SixBitsOfGroup(x: nat, y: nat, z: nat)
    requires x < 0x100 && y < 0x100 && z < 0x100
    ensures var value := x * 0x1_0000 + y * 0x100 + z;
            && value / 0x4_0000 % 0x40 == x / 4 && value / 0x1000 % 0x40 == x % 4 * 16 + y / 16
            && value / 0x40 % 0x40 == y % 16 * 4 + z / 64 && value % 0x40 == z % 64
  {
    var a, b, c, d := x / 4, x % 4 * 16 + y / 16, y % 16 * 4 + z / 64, z % 64;
    assert x == a * 4 + x % 4 && y == y / 16 * 16 + y % 16 && z == z / 64 * 64 + d;
    FourSextets(a, b, c, d);
  }

  lemma FourSextets(a: Sextet, b: Sextet, c: Sextet, d: Sextet)
    ensures var value := ((a * 0x40 + b) * 0x40 + c) * 0x40 + d;
            && value / 0x4_0000 % 0x40 == a && value / 0x1000 % 0x40 == b
            && value / 0x40 % 0x40 == c && value % 0x40 == d
  {
    var value := ((a * 0x40 + b) * 0x40 + c) * 0x40 + d;
    Divides(value, 0x4_0000, a, (b * 0x40 + c) * 0x40 + d);
    Divides(value, 0x1000, a * 0x40 + b, c * 0x40 + d);
    Divides(value, 0x40, (a * 0x40 + b) * 0x40 + c, d);
    Divides(a * 0x40 + b, 0x40, a, b);
    Divides((a * 0x40 + b) * 0x40 + c, 0x40, a * 0x40 + b, c);
  }

  function AfterGroup(b: Bytes): Bytes {
    if |b| <= 3 then [] else b[3..]
  }

  function Standard(b: Bytes): string
    decreases |b|
  {
    if b == [] then "" else GroupText(b) + Standard(AfterGroup(b))
  }

  function Replaced(s: string, from: char, to: char): (t: string)
    ensures |t| == |s|
  {
    seq(|s|, i requires 0 <= i < |s| => if s[i] == from then to else s[i])
  }

  /** `replace(/=+$/, "")`. */
  function Unpadded(s: string): (t: string)
    ensures t <= s && forall i :: |t| <= i < |s| ==> s[i] == '='
  {
    if s != "" && s[|s| - 1] == '=' then Unpadded(s[..|s| - 1]) else s
  }

  function Encoded64(b: Bytes, urlSafe: bool): string {
    if urlSafe then Unpadded(Replaced(Replaced(Standard(b), '+', '-'), '/', '_')) else Standard(b)
  }

  method Base64Encode(bytes: Bytes, urlSafe: bool) returns (output: string)
    ensures output == Encoded64(bytes, urlSafe)
  {
    hide Standard, Letter, Group, GroupText, From;
    output := "";
    var index := 0;
    FromStart(bytes);
    while index < |bytes|
      invariant 0 <= index
      invariant Standard(bytes) == output + Standard(From(bytes, index))
    {
      StandardStep(bytes, index);
      var remaining := |bytes| - index;
      var second := if index + 1 < |bytes| then bytes[index + 1] else 0;
      var third := if index + 2 < |bytes| then bytes[index + 2] else 0;
      var value := bytes[index] as nat * 0x1_0000 + second as nat * 0x100 + third as nat;
      GroupAt(bytes, index);
      ghost var before := output;
      output := output + [Letter(value / 0x4_0000 % 0x40)];
      output := output + [Letter(value / 0x1000 % 0x40)];
      output := output + (if remaining > 1 then [Letter(value / 0x40 % 0x40)] else "=");
      output := output + (if remaining > 2 then [Letter(value % 0x40)] else "=");
      FourCharacters(before, From(bytes, index));
      index := index + 3;
    }
    StandardOfNothing(bytes, index);
    assert output + "" == output;
    if urlSafe {
      output := Unpadded(Replaced(Replaced(output, '+', '-'), '/', '_'));
    }
  }

  function From(b: Bytes, i: nat): Bytes {
    if i <= |b| then b[i..] else []
  }

  lemma FromStart(b: Bytes)
    ensures From(b, 0) == b
  {}

  lemma GroupAt(b: Bytes, i: nat)
    requires i < |b|
    ensures |From(b, i)| == |b| - i
    ensures var second := if i + 1 < |b| then b[i + 1] else 0;
            var third := if i + 2 < |b| then b[i + 2] else 0;
            Group(From(b, i)) == b[i] as nat * 0x1_0000 + second as nat * 0x100 + third as nat
  {}

  lemma FourCharacters(before: string, b: Bytes)
    requires b != []
    ensures var value := Group(b);
            before + [Letter(value / 0x4_0000 % 0x40)] + [Letter(value / 0x1000 % 0x40)]
              + (if |b| > 1 then [Letter(value / 0x40 % 0x40)] else "=")
              + (if |b| > 2 then [Letter(value % 0x40)] else "=")
            == before + GroupText(b)
  {
    hide Letter, Group;
  }

  lemma StandardStep(b: Bytes, i: nat)
    requires i < |b|
    ensures Standard(From(b, i)) == GroupText(From(b, i)) + Standard(From(b, i + 3))
  {
    hide GroupText;
    assert AfterGroup(From(b, i)) == From(b, i + 3);
  }

  lemma StandardOfNothing(b: Bytes, i: nat)
    requires |b| <= i
    ensures Standard(From(b, i)) == ""
  {}

  // ---- Decoding ----

  predicate IsSpace(c: char) {
    c == '\t' || c == '\n' || c == 12 as char || c == '\r' || c == ' '
  }

  function WithoutSpaces(s: string): string {
    if s == "" then "" else (if IsSpace(s[0]) then "" else [s[0]]) + WithoutSpaces(s[1..])
  }

  function Normalized(s: string): string {
    Replaced(Replaced(WithoutSpaces(s), '-', '+'), '_', '/')
  }

  function Pow2(n: nat): (p: nat)
    ensures p > 0
  {
    if n == 0 then 1 else 2 * Pow2(n - 1)
  }

  /** The accumulator after one more digit: `(value << 6) | digit` on 32 bits. */
  function Shifted(value: int, digit: Sextet): int {
    Signed(value * 0x40 % WORD) + digit
  }

  /** The bytes that the rest of the text yields, with `bits` bits of `value` still to be used. */
  function DecodedFrom(s: string, value: int, bits: nat): Bytes {
    if s == "" || s[0] == '=' then []
    else
      match DigitOf(s[0])
      case None => DecodedFrom(s[1..], value, bits)
      case Some(digit) =>
        var value' := Shifted(value, digit);
        if bits + 6 >= 8 then [(value' / Pow2(bits - 2) % 0x100) as byte] + DecodedFrom(s[1..], value', bits - 2)
        else DecodedFrom(s[1..], value', bits + 6)
  }

  function Decoded64(input: string): Bytes {
    DecodedFrom(Normalized(input), 0, 0)
  }

  method Base64Decode(input: string) returns (output: Bytes)
    ensures output == Decoded64(input)
  {
    var s := Normalized(input);
    output := [];
    var value := 0;
    var bits := 0;
    var index := 0;
    while index < |s|
      invariant 0 <= index <= |s| && 0 <= bits < 8
      invariant Decoded64(input) == output + DecodedFrom(s[index..], value, bits)
    {
      var character := s[index];
      ghost var rest := s[index..];
      assert s[index + 1..] == rest[1..];
      if character == '=' {
        return;
      }
      index := index + 1;
      var digit := DigitOf(character);
      if digit.None? {
        continue;
      }
      value := Signed(value * 0x40 % WORD) + digit.value;
      bits := bits + 6;
      if bits >= 8 {
        bits := bits - 8;
        output := output + [(value / Pow2(bits) % 0x100) as byte];
      }
    }
  }

  // ---- Decoding what was encoded ----

  /** Division with remainder, by its one solution. */
  lemma Divides(x: int, m: int, q: int, r: int)
    requires m > 0 && x == q * m + r && 0 <= r < m
    ensures x / m == q && x % m == r
  {
    var e := x / m - q;
    assert e * m == r - x % m;
    MultipleIsFar(e, m);
  }

  lemma MultipleIsFar(e: int, m: int)
    requires m > 0
    ensures (e >= 1 ==> e * m >= m) && (e <= -1 ==> e * m <= -m)
  {
    assert e >= 1 ==> e * m == m + (e - 1) * m;
    assert e <= -1 ==> e * m == -m - (-e - 1) * m;
  }

  /** One digit into the accumulator: its low bits hold the last two digits, whatever was above
      them and wherever the word wrapped. */
  lemma ShiftKeepsLowBits(value: int, digit: Sextet)
    ensures Shifted(value, digit) % 0x1000 == value % 0x40 * 0x40 + digit
  {
    var wraps := value * 0x40 / WORD + (if value * 0x40 % WORD < 0x8000_0000 then 0 else 1);
    var q := value / 0x40;
    var r := value % 0x40;
    assert Shifted(value, digit) == value * 0x40 - wraps * WORD + digit;
    assert value == q * 0x40 + r;
    Divides(Shifted(value, digit), 0x1000, q - wraps * 0x10_0000, r * 0x40 + digit);
  }

  lemma LetterIsDigit(d: Sextet)
    ensures DigitOf(Letter(d)) == Some(d) && Letter(d) != '='
  {}

  /** The byte that a digit completes, if it completes one. */
  function Completed(value: int, bits: nat): Bytes {
    if bits >= 8 then [(value / Pow2(bits - 8) % 0x100) as byte] else []
  }

  lemma DecodedDigit(d: Sextet, rest: string, value: int, bits: nat)
    requires bits < 8
    ensures DecodedFrom([Letter(d)] + rest, value, bits)
         == Completed(Shifted(value, d), bits + 6) + DecodedFrom(rest, Shifted(value, d), (bits + 6) % 8)
  {
    hide Letter, DigitOf, Shifted, Pow2;
    LetterIsDigit(d);
    assert ([Letter(d)] + rest)[1..] == rest;
  }

  /** The last two digits make the byte that they complete. */
  lemma CompletedByte(value: int, upper: Sextet, lower: Sextet, bits: nat)
    requires bits == 8 || bits == 10 || bits == 12
    ensures Completed(Shifted(Shifted(value, upper), lower), bits) == PairByte(upper * 0x40 + lower, bits)
  {
    hide Shifted;
    var v := Shifted(Shifted(value, upper), lower);
    LastTwoDigits(value, upper, lower);
    LowBits(v, upper * 0x40 + lower);
    CompletedFrom(v, bits);
  }

  /** The byte at `bits` bits of two digits. */
  function PairByte(pair: nat, bits: nat): Bytes {
    [((if bits == 8 then pair else if bits == 10 then pair / 4 else pair / 16) % 0x100) as byte]
  }

  lemma CompletedFrom(v: int, bits: nat)
    requires bits == 8 || bits == 10 || bits == 12
    ensures Completed(v, bits) == [((if bits == 8 then v else if bits == 10 then v / 4 else v / 16) % 0x100) as byte]
  {
    assert Pow2(0) == 1 && Pow2(2) == 4;
    assert Pow2(4) == 2 * Pow2(3) == 16;
  }

  lemma LastTwoDigits(value: int, upper: Sextet, lower: Sextet)
    ensures Shifted(Shifted(value, upper), lower) % 0x1000 == upper * 0x40 + lower
  {
    hide Shifted;
    ShiftKeepsLowBits(value, upper);
    ShiftKeepsLowBits(Shifted(value, upper), lower);
    Divides(value % 0x40 * 0x40 + upper, 0x40, value % 0x40, upper);
    ModOfMod(Shifted(value, upper), upper);
  }

  lemma ModOfMod(v: int, low: Sextet)
    requires v % 0x1000 % 0x40 == low
    ensures v % 0x40 == low
  {
    var q := v / 0x1000;
    var r := v % 0x1000;
    assert v == q * 0x1000 + r;
    Divides(v, 0x40, q * 0x40 + r / 0x40, r % 0x40);
  }

  lemma LowBits(v: int, low: nat)
    requires v % 0x1000 == low
    ensures v % 0x100 == low % 0x100 && v / 4 % 0x100 == low / 4 % 0x100 && v / 16 % 0x100 == low / 16 % 0x100
  {
    var q := v / 0x1000;
    assert v == q * 0x1000 + low;
    Divides(v, 0x100, q * 0x10 + low / 0x100, low % 0x100);
    Divides(v, 4, q * 0x400 + low / 4, low % 4);
    Divides(v / 4, 0x100, q * 4 + low / 4 / 0x100, low / 4 % 0x100);
    Divides(v, 16, q * 0x100 + low / 16, low % 16);
    Divides(v / 16, 0x100, q + low / 16 / 0x100, low / 16 % 0x100);
  }

  /** Four letters give back the three bytes they were made of. */
  lemma DecodedLetters(d0: Sextet, d1: Sextet, d2: Sextet, d3: Sextet, rest: string, value: int)
    ensures DecodedFrom([Letter(d0), Letter(d1), Letter(d2), Letter(d3)] + rest, value, 0)
         == [(d0 * 4 + d1 / 16) as byte, (d1 % 16 * 16 + d2 / 4) as byte, (d2 % 4 * 64 + d3) as byte]
          + DecodedFrom(rest, Shifted(Shifted(Shifted(Shifted(value, d0), d1), d2), d3), 0)
  {
    hide Letter, DecodedFrom, Shifted, Completed;
    DecodedThree(d0, d1, d2, [Letter(d3)] + rest, value);
    DecodedDigit(d3, rest, Shifted(Shifted(Shifted(value, d0), d1), d2), 2);
    CompletedByte(Shifted(Shifted(value, d0), d1), d2, d3, 8);
    FirstThree(d0, d1, d2, d3);
    assert [Letter(d0), Letter(d1), Letter(d2)] + ([Letter(d3)] + rest)
        == [Letter(d0), Letter(d1), Letter(d2), Letter(d3)] + rest;
  }

  lemma FirstThree(d0: Sextet, d1: Sextet, d2: Sextet, d3: Sextet)
    ensures (d2 * 64 + d3) % 0x100 == d2 % 4 * 64 + d3 && (d1 * 64 + d2) / 4 % 0x100 == d1 % 16 * 16 + d2 / 4
    ensures (d0 * 64 + d1) / 16 % 0x100 == d0 * 4 + d1 / 16
  {
    Divides(d2 * 64 + d3, 0x100, d2 / 4, d2 % 4 * 64 + d3);
    Divides(d1 * 64 + d2, 4, d1 * 16 + d2 / 4, d2 % 4);
    Divides(d1 * 16 + d2 / 4, 0x100, d1 / 16, d1 % 16 * 16 + d2 / 4);
    Divides(d0 * 64 + d1, 16, d0 * 4 + d1 / 16, d1 % 16);
  }

  lemma DecodedThree(d0: Sextet, d1: Sextet, d2: Sextet, rest: string, value: int)
    ensures DecodedFrom([Letter(d0), Letter(d1), Letter(d2)] + rest, value, 0)
         == [(d0 * 4 + d1 / 16) as byte, (d1 % 16 * 16 + d2 / 4) as byte]
          + DecodedFrom(rest, Shifted(Shifted(Shifted(value, d0), d1), d2), 2)
  {
    hide Letter, DecodedFrom, Shifted, Completed;
    DecodedTwo(d0, d1, [Letter(d2)] + rest, value);
    DecodedDigit(d2, rest, Shifted(Shifted(value, d0), d1), 4);
    CompletedByte(Shifted(value, d0), d1, d2, 10);
    FirstThree(d0, d1, d2, 0);
    assert [Letter(d0), Letter(d1)] + ([Letter(d2)] + rest) == [Letter(d0), Letter(d1), Letter(d2)] + rest;
  }

  lemma DecodedTwo(d0: Sextet, d1: Sextet, rest: string, value: int)
    ensures DecodedFrom([Letter(d0), Letter(d1)] + rest, value, 0)
         == [(d0 * 4 + d1 / 16) as byte] + DecodedFrom(rest, Shifted(Shifted(value, d0), d1), 4)
  {
    hide Letter, DecodedFrom, Shifted;
    DecodedDigit(d0, [Letter(d1)] + rest, value, 0);
    DecodedDigit(d1, rest, Shifted(value, d0), 6);
    CompletedByte(value, d0, d1, 12);
    FirstThree(d0, d1, 0, 0);
    assert [Letter(d0), Letter(d1)] + rest == [Letter(d0)] + ([Letter(d1)] + rest);
  }

  lemma GroupDigits(b0: byte, b1: byte, b2: byte)
    ensures var v := b0 as nat * 0x1_0000 + b1 as nat * 0x100 + b2 as nat;
            && v / 0x4_0000 % 0x40 == b0 as nat / 4
            && v / 0x1000 % 0x40 == b0 as nat % 4 * 16 + b1 as nat / 16
            && v / 0x40 % 0x40 == b1 as nat % 16 * 4 + b2 as nat / 64
            && v % 0x40 == b2 as nat % 64
  {
    var x, y, z := b0 as nat, b1 as nat, b2 as nat;
    var v := x * 0x1_0000 + y * 0x100 + z;
    Divides(v, 0x4_0000, x / 4, x % 4 * 0x1_0000 + y * 0x100 + z);
    Divides(v, 0x1000, x * 0x10 + y / 16, y % 16 * 0x100 + z);
    Divides(x * 0x10 + y / 16, 0x40, x / 4, x % 4 * 16 + y / 16);
    Divides(v, 0x40, x * 0x400 + y * 4 + z / 64, z % 64);
    Divides(x * 0x400 + y * 4 + z / 64, 0x40, x * 0x10 + y / 16, y % 16 * 4 + z / 64);
    assert x / 4 % 0x40 == x / 4;
  }

  /** The decoder reads back one group, whatever its accumulator held. */
  lemma DecodedGroup(b: Bytes, rest: string, value: int) returns (value': int)
    requires b != [] && (|b| < 3 ==> rest == "")
    ensures DecodedFrom(GroupText(b) + rest, value, 0) == First3(b) + DecodedFrom(rest, value', 0)
  {
    hide Letter, DecodedFrom, Shifted;
    var v := Group(b);
    var d0, d1, d2, d3 := v / 0x4_0000 % 0x40, v / 0x1000 % 0x40, v / 0x40 % 0x40, v % 0x40;
    value' := Shifted(Shifted(Shifted(Shifted(value, d0), d1), d2), d3);
    GroupBytes(b);
    if |b| == 1 {
      DecodedTwo(d0, d1, "==", value);
      Stops("==", Shifted(Shifted(value, d0), d1), 4);
      assert GroupText(b) + rest == [Letter(d0), Letter(d1)] + "==";
    } else if |b| == 2 {
      DecodedThree(d0, d1, d2, "=", value);
      Stops("=", Shifted(Shifted(Shifted(value, d0), d1), d2), 2);
      assert GroupText(b) + rest == [Letter(d0), Letter(d1), Letter(d2)] + "=";
    } else {
      DecodedLetters(d0, d1, d2, d3, rest, value);
    }
    Stops("", value', 0);
  }

  function First3(b: Bytes): Bytes {
    b[..if |b| < 3 then |b| else 3]
  }

  /** The bytes of a group, from the four digits of its number. */
  lemma GroupBytes(b: Bytes)
    requires b != []
    ensures var v := Group(b);
            var d0, d1, d2, d3 := v / 0x4_0000 % 0x40, v / 0x1000 % 0x40, v / 0x40 % 0x40, v % 0x40;
            && b[0] as int == d0 * 4 + d1 / 16
            && (|b| > 1 ==> b[1] as int == d1 % 16 * 16 + d2 / 4)
            && (|b| > 2 ==> b[2] as int == d2 % 4 * 64 + d3)
  {
    GroupDigits(b[0], if 1 < |b| then b[1] else 0, if 2 < |b| then b[2] else 0);
  }

  lemma Stops(pads: string, value: int, bits: nat)
    requires pads == "" || pads[0] == '='
    ensures DecodedFrom(pads, value, bits) == []
  {}

  lemma {:induction false} DecodedStandard(b: Bytes, value: int)
    ensures DecodedFrom(Standard(b), value, 0) == b
    decreases |b|
  {
    hide GroupText, DecodedFrom;
    if b == [] {
      Stops("", value, 0);
    } else {
      var rest := Standard(AfterGroup(b));
      var value' := DecodedGroup(b, rest, value);
      DecodedStandard(AfterGroup(b), value');
      assert b == First3(b) + AfterGroup(b);
    }
  }

  // ---- The URL-safe form ----

  /** How many characters of the text carry bits. */
  function Digits(n: nat): nat {
    (n * 8 + 5) / 6
  }

  /** Standard text is four characters to every three bytes, digits first and padding after. */
  predicate WellPadded(s: string, digits: nat) {
    forall i :: 0 <= i < |s| ==> if i < digits then DigitOf(s[i]).Some? else s[i] == '='
  }

  lemma {:induction false} StandardText(b: Bytes)
    ensures |Standard(b)| == (|b| + 2) / 3 * 4 && WellPadded(Standard(b), Digits(|b|))
    decreases |b|
  {
    hide DigitOf, GroupText, WellPadded;
    if b != [] {
      GroupTextPadded(b);
      StandardText(AfterGroup(b));
      PaddedAfter(GroupText(b), Standard(AfterGroup(b)), Digits(|b|), Digits(|AfterGroup(b)|));
    } else {
      NothingPadded();
    }
  }

  lemma NothingPadded()
    ensures WellPadded("", 0)
  {}

  lemma PaddedAfter(s: string, t: string, digits: nat, digits': nat)
    requires |s| == 4 && WellPadded(s, digits) && WellPadded(t, digits')
    requires if digits <= 4 then t == "" else digits == digits' + 4
    ensures WellPadded(s + t, digits)
  {}

  lemma GroupTextPadded(b: Bytes)
    requires b != []
    ensures |GroupText(b)| == 4 && WellPadded(GroupText(b), Digits(|b|))
  {
    hide Letter, DigitOf;
    var v := Group(b);
    LetterIsDigit(v / 0x4_0000 % 0x40);
    LetterIsDigit(v / 0x1000 % 0x40);
    LetterIsDigit(v / 0x40 % 0x40);
    LetterIsDigit(v % 0x40);
  }

  lemma {:induction false} NothingToStrip(s: string)
    requires forall i :: 0 <= i < |s| ==> !IsSpace(s[i])
    ensures WithoutSpaces(s) == s
  {
    if s != "" {
      NothingToStrip(s[1..]);
    }
  }

  /** Padding after a text adds nothing. */
  lemma {:induction false} PaddingAddsNothing(s: string, pads: string, value: int, bits: nat)
    requires pads != "" ==> pads[0] == '='
    ensures DecodedFrom(s + pads, value, bits) == DecodedFrom(s, value, bits)
  {
    hide DigitOf, Pow2, Shifted;
    if s == "" {
      assert s + pads == pads;
      Stops(pads, value, bits);
    } else if s[0] != '=' {
      assert (s + pads)[1..] == s[1..] + pads;
      match DigitOf(s[0])
      case None => PaddingAddsNothing(s[1..], pads, value, bits);
      case Some(digit) =>
        PaddingAddsNothing(s[1..], pads, Shifted(value, digit), if bits + 6 >= 8 then bits - 2 else bits + 6);
    }
  }

  function UrlSafe(s: string): string {
    Replaced(Replaced(s, '+', '-'), '/', '_')
  }

  lemma {:induction false} UnpaddedIsDigits(s: string, digits: nat)
    requires digits <= |s|
    requires forall i :: 0 <= i < |s| ==> (s[i] == '=' <==> digits <= i)
    ensures Unpadded(s) == s[..digits]
  {
    if digits < |s| {
      UnpaddedIsDigits(s[..|s| - 1], digits);
      assert s[..|s| - 1][..digits] == s[..digits];
    }
  }

  /** What the decoder makes of the standard text and of its URL-safe form before it looks for
      digits. */
  lemma NormalizedStandard(s: string, digits: nat)
    requires WellPadded(s, digits) && digits <= |s|
    ensures Normalized(s) == s
  {
    NothingToStrip(s);
  }

  lemma NormalizedUrlSafe(s: string, digits: nat)
    requires WellPadded(s, digits) && digits <= |s|
    ensures Unpadded(UrlSafe(s)) == UrlSafe(s)[..digits] && Normalized(Unpadded(UrlSafe(s))) == s[..digits]
  {
    var t := UrlSafe(s)[..digits];
    UnpaddedIsDigits(UrlSafe(s), digits);
    NothingToStrip(t);
    assert forall i :: 0 <= i < digits ==> Replaced(Replaced(t, '-', '+'), '_', '/')[i] == s[i];
  }

  /** Decoding gives back every byte sequence, in both alphabets. */
  lemma DecodeEncoded(b: Bytes, urlSafe: bool)
    ensures Decoded64(Encoded64(b, urlSafe)) == b
  {
    hide Standard, DecodedFrom, Normalized, WellPadded, Replaced, Unpadded;
    var s, digits := Standard(b), Digits(|b|);
    StandardText(b);
    DecodedStandard(b, 0);
    if urlSafe {
      NormalizedUrlSafe(s, digits);
      assert s == s[..digits] + s[digits..];
      if digits < |s| {
        PadsStart(s, digits);
      }
      PaddingAddsNothing(s[..digits], s[digits..], 0, 0);
    } else {
      NormalizedStandard(s, digits);
    }
  }

  lemma PadsStart(s: string, digits: nat)
    requires WellPadded(s, digits) && digits < |s|
    ensures s[digits..][0] == '='
  {}

  /** The URL-safe text uses only the alphabet of section 5 of RFC 4648, has no padding and is as
      short as the bits allow. */
  lemma UrlSafeText(b: Bytes)
    ensures |Encoded64(b, true)| == (|b| * 8 + 5) / 6
    ensures forall c <- Encoded64(b, true) :: c == '-' || c == '_' || (DigitOf(c).Some? && c != '+' && c != '/')
  {
    hide Standard, Unpadded, Normalized;
    StandardText(b);
    NormalizedUrlSafe(Standard(b), Digits(|b|));
  }

  // ---- Decoding anything else ----

  /** The characters of the alphabet before the first padding. */
  function DigitsOf(s: string): string {
    if s == "" || s[0] == '=' then ""
    else (if s[0] in ALPHABET then [s[0]] else "") + DigitsOf(s[1..])
  }

  lemma HasDigitIff(c: char)
    ensures DigitOf(c).Some? <==> c in ALPHABET
    ensures c in ALPHABET ==> c != '='
  {
    if DigitOf(c).Some? {
      DigitIsIndex(c, DigitOf(c).value);
    }
    if i :| 0 <= i < |ALPHABET| && ALPHABET[i] == c {
      LettersAreTheAlphabet(0);
      DigitIsIndex(c, i);
    }
  }

  lemma {:induction false} OnlyDigitsCount(s: string, value: int, bits: nat)
    requires bits < 8
    ensures DecodedFrom(s, value, bits) == DecodedFrom(DigitsOf(s), value, bits)
    decreases |s|
  {
    hide DigitOf, Shifted, Pow2, ALPHABET;
    if s != "" && s[0] != '=' {
      HasDigitIff(s[0]);
      if s[0] in ALPHABET {
        assert DigitsOf(s)[0] == s[0] && DigitsOf(s)[1..] == DigitsOf(s[1..]);
        var value' := Shifted(value, DigitOf(s[0]).value);
        OnlyDigitsCount(s[1..], value', if bits + 6 >= 8 then bits - 2 else bits + 6);
      } else {
        assert DigitsOf(s) == DigitsOf(s[1..]);
        OnlyDigitsCount(s[1..], value, bits);
      }
    }
  }

  lemma {:induction false} DigitsGiveBytes(s: string, value: int, bits: nat)
    requires bits < 8 && forall k :: 0 <= k < |s| ==> DigitOf(s[k]).Some? && s[k] != '='
    ensures |DecodedFrom(s, value, bits)| == (bits + 6 * |s|) / 8
    decreases |s|
  {
    hide DigitOf, Shifted, Pow2;
    if s != "" {
      var value' := Shifted(value, DigitOf(s[0]).value);
      DigitsGiveBytes(s[1..], value', if bits + 6 >= 8 then bits - 2 else bits + 6);
    }
  }

  lemma {:induction false} AllAreDigits(s: string)
    ensures forall k :: 0 <= k < |DigitsOf(s)| ==> DigitOf(DigitsOf(s)[k]).Some? && DigitsOf(s)[k] != '='
    decreases |s|
  {
    hide DigitOf, ALPHABET;
    if s != "" && s[0] != '=' {
      HasDigitIff(s[0]);
      AllAreDigits(s[1..]);
    }
  }

  /** Decoding never fails: characters outside the alphabet and all behind the first padding are left
      out, and n digits give as many whole bytes as 6n bits hold, so that a last digit alone is lost. */
  lemma AnythingDecodes(input: string)
    ensures var digits := DigitsOf(Normalized(input));
            Decoded64(input) == DecodedFrom(digits, 0, 0) && |Decoded64(input)| == 6 * |digits| / 8
  {
    hide Normalized, DigitsOf, DecodedFrom, DigitOf;
    var digits := DigitsOf(Normalized(input));
    OnlyDigitsCount(Normalized(input), 0, 0);
    AllAreDigits(Normalized(input));
    DigitsGiveBytes(digits, 0, 0);
  }
}
