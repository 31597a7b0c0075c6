/** The UTF-8 encoder and decoder of the script kernel (src/js_repl_bootstrap.js:119-179).
    Shifts and masks of the source are written as the divisions and remainders they are on these
    small numbers, and `|` of disjoint bits as a sum. */
module Utf8Codec {
  import opened Utf8

  /** A UTF-16 code unit. */
  newtype unit = u: int | 0 <= u < 0x1_0000

  /** A Unicode scalar value: a code point that is not a surrogate. */
  type Scalar = c: int | 0 <= c <= 0x10FFFF && !(0xD800 <= c <= 0xDFFF)

  const REPLACEMENT: Scalar := 0xFFFD

  predicate IsHigh(u: unit) {
    0xD800 <= u <= 0xDBFF
  }

  predicate IsLow(u: unit) {
    0xDC00 <= u <= 0xDFFF
  }

  // ---- Encoding ----

  /** The code point that starts `s` and the number of units it takes; a lone surrogate reads as
      U+FFFD. */
  function ReadUnits(s: seq<unit>): (r: (Scalar, nat))
    requires s != []
    ensures 1 <= r.1 <= |s|
  {
    if IsHigh(s[0]) then
      if 1 < |s| && IsLow(s[1]) then
        (0x10000 + (s[0] as int - 0xD800) * 0x400 + (s[1] as int - 0xDC00), 2)
      else (REPLACEMENT, 1)
    else if IsLow(s[0]) then (REPLACEMENT, 1)
    else (s[0] as int, 1)
  }

  function Shr6(x: nat): nat {
    x / 0x40
  }

  function Trail(x: nat): byte {
    (0x80 + x % 0x40) as byte
  }

  function EncodeScalar(c: Scalar): Bytes {
    if c <= 0x7F then [c as byte]
    else if c <= 0x7FF then [(0xC0 + Shr6(c)) as byte, Trail(c)]
    else if c <= 0xFFFF then [(0xE0 + Shr6(Shr6(c))) as byte, Trail(Shr6(c)), Trail(c)]
    else [(0xF0 + Shr6(Shr6(Shr6(c)))) as byte, Trail(Shr6(Shr6(c))), Trail(Shr6(c)), Trail(c)]
  }

  function Encoded(s: seq<unit>): Bytes
    decreases |s|
  {
    if s == [] then [] else EncodeScalar(ReadUnits(s).0) + Encoded(s[ReadUnits(s).1..])
  }

  method Utf8Encode(s: seq<unit>) returns (output: Bytes)
    ensures output == Encoded(s)
  {
    hide Encoded, EncodeScalar;
    output := [];
    var index := 0;
    while index < |s|
      invariant index <= |s|
      invariant Encoded(s) == output + Encoded(s[index..])
    {
      EncodedStep(s, index);
      ghost var read := ReadUnits(s[index..]);
      ghost var start := index;
      var codePoint := s[index] as int;
      if 0xD800 <= codePoint <= 0xDBFF {
        if index + 1 < |s| && 0xDC00 <= s[index + 1] <= 0xDFFF {
          codePoint := 0x10000 + (codePoint - 0xD800) * 0x400 + (s[index + 1] as int - 0xDC00);
          index := index + 1;
        } else {
          codePoint := 0xFFFD;
        }
      } else if 0xDC00 <= codePoint <= 0xDFFF {
        codePoint := 0xFFFD;
      }
      assert (codePoint, index + 1 - start) == read;
      output := output + EncodeScalar(codePoint);
      index := index + 1;
    }
    NothingEncoded(s, index);
  }

  lemma NothingEncoded(s: seq<unit>, i: nat)
    requires i == |s|
    ensures Encoded(s[i..]) == []
  {}

  lemma EncodedStep(s: seq<unit>, i: nat)
    requires i < |s|
    ensures var (c, n) := ReadUnits(s[i..]); Encoded(s[i..]) == EncodeScalar(c) + Encoded(s[i + n..])
  {
    hide EncodeScalar;
    assert s[i..][ReadUnits(s[i..]).1..] == s[i + ReadUnits(s[i..]).1..];
  }

  // ---- Decoding ----

  /** Continuation bytes that a lead byte asks for; none for a byte that cannot lead. */
  function Remaining(first: byte): (n: nat)
    ensures n <= 3
  {
    if 0xC2 <= first <= 0xDF then 1 else if 0xE0 <= first <= 0xEF then 2 else if 0xF0 <= first <= 0xF4 then 3 else 0
  }

  /** The payload bits of a lead byte. */
  function Payload(first: byte): nat {
    if first <= 0x7F then first as nat
    else if first <= 0xDF then first as nat % 0x20
    else if first <= 0xEF then first as nat % 0x10
    else first as nat % 0x08
  }

  /** The payload of the lead byte followed by those of `n` continuation bytes. */
  function Gathered(s: Bytes, n: nat): nat
    requires n < |s|
  {
    if n == 0 then Payload(s[0]) else Gathered(s, n - 1) * 0x40 + s[n] as nat % 0x40
  }

  predicate Continues(s: Bytes, n: nat)
    requires n < |s|
  {
    forall k | 1 <= k <= n :: IsContinuation(s[k])
  }

  predicate Overlong(n: nat, c: nat) {
    (n == 1 && c < 0x80) || (n == 2 && c < 0x800) || (n == 3 && c < 0x1_0000)
  }

  /** The first character of `s` and the number of bytes it takes; U+FFFD where it is malformed. */
  function ReadBytes(s: Bytes): (r: (Scalar, nat))
    requires s != []
    ensures 1 <= r.1 <= |s|
  {
    var n := Remaining(s[0]);
    if n == 0 then (if s[0] <= 0x7F then s[0] as int else REPLACEMENT, 1)
    else if n >= |s| then (REPLACEMENT, |s|)
    else if !Continues(s, n) then (REPLACEMENT, 1)
    else
      var c := Gathered(s, n);
      (if Overlong(n, c) || c > 0x10FFFF || 0xD800 <= c <= 0xDFFF then REPLACEMENT else c, n + 1)
  }

  /** `String.fromCodePoint`. */
  function Units(c: Scalar): seq<unit> {
    if c <= 0xFFFF then [c as unit]
    else [(0xD800 + (c - 0x10000) / 0x400) as unit, (0xDC00 + (c - 0x10000) % 0x400) as unit]
  }

  function Decoded(s: Bytes): seq<unit>
    decreases |s|
  {
    if s == [] then [] else Units(ReadBytes(s).0) + Decoded(s[ReadBytes(s).1..])
  }

  method Utf8Decode(bytes: Bytes) returns (output: seq<unit>)
    ensures output == Decoded(bytes)
  {
    hide Decoded, Units, Gathered;
    ReplacementIsOneUnit();
    output := [];
    var index := 0;
    while index < |bytes|
      invariant index <= |bytes|
      invariant Decoded(bytes) == output + Decoded(bytes[index..])
      decreases |bytes| - index
    {
      DecodedStep(bytes, index);
      ghost var rest := bytes[index..];
      ghost var read := ReadBytes(rest);
      var first := bytes[index];
      index := index + 1;
      var codePoint: nat := 0;
      var remaining := 0;
      if first <= 0x7F {
        codePoint, remaining := first as nat, 0;
      } else if 0xC2 <= first <= 0xDF {
        codePoint, remaining := first as nat % 0x20, 1;
      } else if 0xE0 <= first <= 0xEF {
        codePoint, remaining := first as nat % 0x10, 2;
      } else if 0xF0 <= first <= 0xF4 {
        codePoint, remaining := first as nat % 0x08, 3;
      } else {
        assert read == (REPLACEMENT, 1);
        output := output + [0xFFFD];
        continue;
      }
      if index + remaining > |bytes| {
        assert read == (REPLACEMENT, |rest|);
        output := output + [0xFFFD];
        index := |bytes|;
        break;
      }
      var valid, gathered := GatherBytes(bytes, index, remaining, codePoint);
      codePoint := gathered;
      if !valid {
        assert read == (REPLACEMENT, 1);
        output := output + [0xFFFD];
        continue;
      }
      index := index + remaining;
      assert read.1 == remaining + 1;
      if (remaining == 1 && codePoint < 0x80) || (remaining == 2 && codePoint < 0x800)
         || (remaining == 3 && codePoint < 0x1_0000) || codePoint > 0x10FFFF || 0xD800 <= codePoint <= 0xDFFF {
        output := output + [0xFFFD];
      } else {
        output := output + Units(codePoint);
      }
    }
    NothingDecoded(bytes, index);
  }

  /** The continuation bytes after the lead byte, up to the first that is not one. */
  method GatherBytes(bytes: Bytes, index: nat, remaining: nat, payload: nat) returns (valid: bool, codePoint: nat)
    requires 0 < index && index + remaining <= |bytes| && payload == Payload(bytes[index - 1])
    ensures valid <==> Continues(bytes[index - 1..], remaining)
    ensures valid ==> codePoint == Gathered(bytes[index - 1..], remaining)
    ensures remaining == 0 ==> codePoint == payload
  {
    ghost var rest := bytes[index - 1..];
    valid, codePoint := true, payload;
    var offset := 0;
    while offset < remaining
      invariant 0 <= offset <= remaining && codePoint == Gathered(rest, offset)
      invariant forall k :: 1 <= k <= offset ==> IsContinuation(rest[k])
    {
      var next := bytes[index + offset];
      assert next == rest[offset + 1];
      if !IsContinuation(next) {
        valid := false;
        return;
      }
      codePoint := codePoint * 0x40 + next as nat % 0x40;
      offset := offset + 1;
    }
  }

  lemma ReplacementIsOneUnit()
    ensures Units(REPLACEMENT) == [0xFFFD]
  {}

  lemma NothingDecoded(s: Bytes, i: nat)
    requires i == |s|
    ensures Decoded(s[i..]) == []
  {}

  lemma DecodedStep(s: Bytes, i: nat)
    requires i < |s|
    ensures var (c, n) := ReadBytes(s[i..]); Decoded(s[i..]) == Units(c) + Decoded(s[i + n..])
  {
    hide Units;
    assert s[i..][ReadBytes(s[i..]).1..] == s[i + ReadBytes(s[i..]).1..];
  }

  // ---- One character ----

  /** An encoded scalar is one well-formed character. */
  lemma EncodedScalarIsChar(c: Scalar)
    ensures IsChar(EncodeScalar(c))
  {}

  /** Reading an encoded scalar, whatever follows, gives it back and takes exactly its bytes. */
  lemma ReadEncodedScalar(c: Scalar, rest: Bytes)
    ensures ReadBytes(EncodeScalar(c) + rest) == (c, |EncodeScalar(c)|)
  {
    hide ReadBytes;
    var s := EncodeScalar(c) + rest;
    if c <= 0x7F {
      ReadOne(s, c);
    } else if c <= 0x7FF {
      ReadTwo(s, c);
    } else if c <= 0xFFFF {
      ReadThree(s, c);
    } else {
      ReadFour(s, c);
    }
  }

  lemma ReadOne(s: Bytes, c: Scalar)
    requires c <= 0x7F && 1 <= |s| && s[0] == c as byte
    ensures ReadBytes(s) == (c, 1)
  {}

  lemma ReadTwo(s: Bytes, c: Scalar)
    requires 0x7F < c <= 0x7FF && 2 <= |s| && s[0] == (0xC0 + Shr6(c)) as byte && s[1] == Trail(c)
    ensures ReadBytes(s) == (c, 2)
  {
    assert Gathered(s, 1) == Gathered(s, 0) * 0x40 + s[1] as nat % 0x40 == c;
  }

  lemma ReadThree(s: Bytes, c: Scalar)
    requires 0x7FF < c <= 0xFFFF && 3 <= |s|
    requires s[0] == (0xE0 + Shr6(Shr6(c))) as byte && s[1] == Trail(Shr6(c)) && s[2] == Trail(c)
    ensures ReadBytes(s) == (c, 3)
  {
    GatheredInThree(s, c);
    assert Continues(s, 2) && Remaining(s[0]) == 2;
  }

  lemma GatheredInThree(s: Bytes, c: Scalar)
    requires 0x7FF < c <= 0xFFFF && 3 <= |s|
    requires s[0] == (0xE0 + Shr6(Shr6(c))) as byte && s[1] == Trail(Shr6(c)) && s[2] == Trail(c)
    ensures Gathered(s, 2) == c
  {
    assert Gathered(s, 1) == Gathered(s, 0) * 0x40 + s[1] as nat % 0x40 == Shr6(c);
    assert Gathered(s, 2) == Gathered(s, 1) * 0x40 + s[2] as nat % 0x40 == c;
  }

  lemma ReadFour(s: Bytes, c: Scalar)
    requires 0xFFFF < c && 4 <= |s|
    requires s[0] == (0xF0 + Shr6(Shr6(Shr6(c)))) as byte && s[1] == Trail(Shr6(Shr6(c)))
    requires s[2] == Trail(Shr6(c)) && s[3] == Trail(c)
    ensures ReadBytes(s) == (c, 4)
  {
    GatheredInFour(s, c);
    assert Continues(s, 3) && Remaining(s[0]) == 3;
  }

  lemma GatheredInFour(s: Bytes, c: Scalar)
    requires 0xFFFF < c && 4 <= |s|
    requires s[0] == (0xF0 + Shr6(Shr6(Shr6(c)))) as byte && s[1] == Trail(Shr6(Shr6(c)))
    requires s[2] == Trail(Shr6(c)) && s[3] == Trail(c)
    ensures Gathered(s, 3) == c
  {
    assert Gathered(s, 1) == Gathered(s, 0) * 0x40 + s[1] as nat % 0x40 == Shr6(Shr6(c));
    assert Gathered(s, 2) == Gathered(s, 1) * 0x40 + s[2] as nat % 0x40 == Shr6(c);
    assert Gathered(s, 3) == Gathered(s, 2) * 0x40 + s[3] as nat % 0x40 == c;
  }

  // ---- Encoding, then decoding ----

  /** Whether the unit at `i` is a surrogate without its other half. */
  predicate IsLone(s: seq<unit>, i: nat)
    requires i < |s|
  {
    || (IsHigh(s[i]) && !(i + 1 < |s| && IsLow(s[i + 1])))
    || (IsLow(s[i]) && !(0 < i && IsHigh(s[i - 1])))
  }

  predicate WellFormed(s: seq<unit>) {
    forall i: nat :: i < |s| ==> !IsLone(s, i)
  }

  /** `s` with U+FFFD in place of each lone surrogate. */
  function Mended(s: seq<unit>): (t: seq<unit>)
    ensures |t| == |s|
  {
    seq(|s|, i requires 0 <= i < |s| => if IsLone(s, i) then 0xFFFD else s[i])
  }

  /** The first step of reading `s` takes units that `Mended` shows as the units of what was read,
      and what follows is mended on its own. */
  lemma MendedStep(s: seq<unit>)
    requires s != []
    ensures var (c, n) := ReadUnits(s); Mended(s) == Units(c) + Mended(s[n..])
  {
    var (c, n) := ReadUnits(s);
    var t := s[n..];
    assert |Units(c)| == n;
    forall i: nat | n <= i < |s|
      ensures IsLone(s, i) <==> IsLone(t, i - n)
    {
      assert s[i] == t[i - n];
      assert i + 1 < |s| ==> s[i + 1] == t[i + 1 - n];
      assert n < i ==> s[i - 1] == t[i - 1 - n];
    }
    assert forall i: nat :: i < n ==> Mended(s)[i] == Units(c)[i];
  }

  lemma {:induction false} DecodeEncoded(s: seq<unit>)
    ensures Decoded(Encoded(s)) == Mended(s)
    decreases |s|
  {
    hide EncodeScalar, Units, ReadBytes, ReadUnits, Mended;
    if s != [] {
      var (c, n) := ReadUnits(s);
      DecodeEncoded(s[n..]);
      MendedStep(s);
      DecodePrepended(c, Encoded(s[n..]));
    } else {
      MendedNothing();
    }
  }

  lemma MendedNothing()
    ensures Mended([]) == []
  {}

  lemma DecodePrepended(c: Scalar, rest: Bytes)
    ensures Decoded(EncodeScalar(c) + rest) == Units(c) + Decoded(rest)
  {
    hide EncodeScalar, Units, ReadBytes;
    EncodedScalarIsChar(c);
    ReadEncodedScalar(c, rest);
    assert (EncodeScalar(c) + rest)[|EncodeScalar(c)|..] == rest;
  }

  /** The round trip gives a string back exactly when it has no lone surrogate. */
  lemma RoundTripIffWellFormed(s: seq<unit>)
    ensures Decoded(Encoded(s)) == s <==> WellFormed(s)
  {
    DecodeEncoded(s);
    if Mended(s) == s {
      forall i: nat | i < |s|
        ensures !IsLone(s, i)
      {
        assert Mended(s)[i] == s[i];
      }
    }
  }

  /** Whatever the string, what the encoder writes is UTF-8. */
  lemma {:induction false} EncodedIsUtf8(s: seq<unit>)
    ensures Valid(Encoded(s))
    decreases |s|
  {
    hide EncodeScalar, Valid;
    if s == [] {
      EmptyIsUtf8();
    } else {
      var (c, n) := ReadUnits(s);
      EncodedIsUtf8(s[n..]);
      EncodedScalarIsChar(c);
      FirstOfPrepended(EncodeScalar(c), Encoded(s[n..]));
    }
  }

  lemma EmptyIsUtf8()
    ensures Valid([])
  {}

  // ---- Decoding, then encoding ----

  /** Every well-formed character is some scalar's encoding, and that scalar is what is read. */
  lemma ReadChar(x: Bytes, rest: Bytes)
    requires IsChar(x)
    ensures var (c, n) := ReadBytes(x + rest); n == |x| && EncodeScalar(c) == x
  {
    var s := x + rest;
    assert forall k :: 0 <= k < |x| ==> s[k] == x[k];
    if |x| == 2 {
      ReadTwoBytes(s);
    } else if |x| == 3 {
      ReadThreeBytes(s);
    } else if |x| == 4 {
      ReadFourBytes(s);
    }
  }

  lemma ReadTwoBytes(s: Bytes)
    requires CharAt(s, 0) && CharLen(s[0]) == 2
    ensures ReadBytes(s).1 == 2 && EncodeScalar(ReadBytes(s).0) == [s[0], s[1]]
  {
    assert Gathered(s, 1) == Gathered(s, 0) * 0x40 + s[1] as nat % 0x40;
  }

  /** Appending six bits and taking them off again. */
  lemma SixBits(x: nat, y: nat)
    requires y < 0x40
    ensures Shr6(x * 0x40 + y) == x && (x * 0x40 + y) % 0x40 == y
  {}

  lemma ContinuationIsTrail(b: byte)
    requires IsContinuation(b)
    ensures (0x80 + b as nat % 0x40) as byte == b
  {}

  lemma ReadThreeBytes(s: Bytes)
    requires CharAt(s, 0) && CharLen(s[0]) == 3
    ensures ReadBytes(s).1 == 3 && EncodeScalar(ReadBytes(s).0) == [s[0], s[1], s[2]]
  {
    hide EncodeScalar;
    var x, y, z := s[0] as nat % 0x10, s[1] as nat % 0x40, s[2] as nat % 0x40;
    GatheredThree(s);
    EncodeThree(x, y, z);
    ContinuationIsTrail(s[1]);
    ContinuationIsTrail(s[2]);
    assert 0x800 <= (x * 0x40 + y) * 0x40 + z <= 0xFFFF;
  }

  lemma EncodeThree(x: nat, y: nat, z: nat)
    requires x < 0x10 && y < 0x40 && z < 0x40
    ensures var c := (x * 0x40 + y) * 0x40 + z;
            0x800 <= c && !(0xD800 <= c <= 0xDFFF) ==>
              EncodeScalar(c) == [(0xE0 + x) as byte, (0x80 + y) as byte, (0x80 + z) as byte]
  {
    SixBits(x * 0x40 + y, z);
    SixBits(x, y);
  }

  lemma GatheredThree(s: Bytes)
    requires 3 <= |s| && 0xE0 <= s[0] <= 0xEF
    ensures Gathered(s, 2) == (s[0] as nat % 0x10 * 0x40 + s[1] as nat % 0x40) * 0x40 + s[2] as nat % 0x40
  {
    assert Gathered(s, 1) == Gathered(s, 0) * 0x40 + s[1] as nat % 0x40;
  }

  lemma ReadFourBytes(s: Bytes)
    requires CharAt(s, 0) && CharLen(s[0]) == 4
    ensures ReadBytes(s).1 == 4 && EncodeScalar(ReadBytes(s).0) == [s[0], s[1], s[2], s[3]]
  {
    hide EncodeScalar;
    var w, x, y, z := s[0] as nat % 0x08, s[1] as nat % 0x40, s[2] as nat % 0x40, s[3] as nat % 0x40;
    GatheredFour(s);
    EncodeFour(w, x, y, z);
    ContinuationIsTrail(s[1]);
    ContinuationIsTrail(s[2]);
    ContinuationIsTrail(s[3]);
    assert 0x10000 <= ((w * 0x40 + x) * 0x40 + y) * 0x40 + z <= 0x10FFFF;
  }

  lemma EncodeFour(w: nat, x: nat, y: nat, z: nat)
    requires w < 0x08 && x < 0x40 && y < 0x40 && z < 0x40
    ensures var c := ((w * 0x40 + x) * 0x40 + y) * 0x40 + z;
            0x10000 <= c <= 0x10FFFF ==>
              EncodeScalar(c) == [(0xF0 + w) as byte, (0x80 + x) as byte, (0x80 + y) as byte, (0x80 + z) as byte]
  {
    SixBits((w * 0x40 + x) * 0x40 + y, z);
    SixBits(w * 0x40 + x, y);
    SixBits(w, x);
  }

  lemma GatheredFour(s: Bytes)
    requires 4 <= |s| && 0xF0 <= s[0] <= 0xF4
    ensures Gathered(s, 3) ==
            ((s[0] as nat % 0x08 * 0x40 + s[1] as nat % 0x40) * 0x40 + s[2] as nat % 0x40) * 0x40 + s[3] as nat % 0x40
  {
    assert Gathered(s, 1) == Gathered(s, 0) * 0x40 + s[1] as nat % 0x40;
    assert Gathered(s, 2) == Gathered(s, 1) * 0x40 + s[2] as nat % 0x40;
  }

  /** The units of a scalar, in front of a string that starts cleanly, read as that scalar. */
  lemma ReadPrependedUnits(c: Scalar, t: seq<unit>)
    ensures ReadUnits(Units(c) + t) == (c, |Units(c)|) && (Units(c) + t)[|Units(c)|..] == t
  {}

  /** Decoding never yields a lone surrogate, whatever the bytes. */
  lemma {:induction false} DecodedIsWellFormed(s: Bytes)
    ensures WellFormed(Decoded(s))
    decreases |s|
  {
    hide ReadBytes, Units;
    if s != [] {
      var (c, n) := ReadBytes(s);
      DecodedIsWellFormed(s[n..]);
      PrependedIsWellFormed(c, Decoded(s[n..]));
    }
  }

  lemma PrependedIsWellFormed(c: Scalar, t: seq<unit>)
    requires WellFormed(t)
    ensures WellFormed(Units(c) + t)
  {
    var s, n := Units(c) + t, |Units(c)|;
    forall i: nat | i < |s|
      ensures !IsLone(s, i)
    {
      if n <= i {
        assert !IsLone(t, i - n);
        assert s[i] == t[i - n];
        assert i + 1 < |s| ==> s[i + 1] == t[i + 1 - n];
        assert n < i ==> s[i - 1] == t[i - 1 - n];
      }
    }
  }

  lemma {:induction false} EncodeDecoded(s: Bytes)
    requires Valid(s)
    ensures Encoded(Decoded(s)) == s
    decreases |s|
  {
    hide EncodeScalar, Units, ReadBytes, ReadUnits, Valid;
    if s != [] {
      FirstAndRest(s);
      ReadChar(First(s), Rest(s));
      var (c, n) := ReadBytes(s);
      EncodeDecoded(Rest(s));
      ReadPrependedUnits(c, Decoded(Rest(s)));
    }
  }

  /** Bytes come back from the round trip exactly when they are UTF-8. */
  lemma RoundTripIffUtf8(s: Bytes)
    ensures Encoded(Decoded(s)) == s <==> Valid(s)
  {
    EncodedIsUtf8(Decoded(s));
    if Valid(s) {
      EncodeDecoded(s);
    }
  }

  // ---- What the bytes and units of a scalar are ----

  /** The bytes of a scalar are those of the table in section 3 of RFC 3629. */
  lemma BytesOfScalar(c: Scalar)
    ensures var e := EncodeScalar(c);
            && (forall k :: 1 <= k < |e| ==> 0x80 <= e[k] <= 0xBF)
            && if c < 0x80 then e == [c as byte]
               else if c < 0x800 then
                 |e| == 2 && 0xC2 <= e[0] <= 0xDF && c == (e[0] as int - 0xC0) * 0x40 + (e[1] as int - 0x80)
               else if c < 0x1_0000 then
                 && |e| == 3 && 0xE0 <= e[0] <= 0xEF
                 && c == ((e[0] as int - 0xE0) * 0x40 + (e[1] as int - 0x80)) * 0x40 + (e[2] as int - 0x80)
               else
                 && |e| == 4 && 0xF0 <= e[0] <= 0xF4
                 && c == (((e[0] as int - 0xF0) * 0x40 + (e[1] as int - 0x80)) * 0x40 + (e[2] as int - 0x80)) * 0x40
                         + (e[3] as int - 0x80)
  {
    SixBitsOf(c);
    SixBitsOf(Shr6(c));
    SixBitsOf(Shr6(Shr6(c)));
  }

  lemma SixBitsOf(x: nat)
    ensures x == Shr6(x) * 0x40 + x % 0x40
  {}

  /** The units of a scalar are those of section 2 of RFC 2781: a pair beyond the basic plane. */
  lemma UnitsOfScalar(c: Scalar)
    ensures var u := Units(c);
            if c < 0x1_0000 then u == [c as unit]
            else
              && |u| == 2 && 0xD800 <= u[0] <= 0xDBFF && 0xDC00 <= u[1] <= 0xDFFF
              && c == 0x1_0000 + (u[0] as int - 0xD800) * 0x400 + (u[1] as int - 0xDC00)
  {}

  // ---- Malformed bytes ----

  /** How many continuation bytes should follow a lead byte of more than one. */
  function Asked(lead: byte): nat {
    if lead <= 0xDF then 1 else if lead <= 0xEF then 2 else 3
  }

  /** How many bytes are left out where no character starts. */
  function Skipped(s: Bytes): (n: nat)
    requires s != []
  {
    if 0x80 <= s[0] <= 0xC1 || s[0] >= 0xF5 then 1
    else if Asked(s[0]) >= |s| then |s|
    else if exists k :: 1 <= k <= Asked(s[0]) && !(0x80 <= s[k] <= 0xBF) then 1
    else Asked(s[0]) + 1
  }

  /** Where no character starts, one U+FFFD is read. A byte that can start none is left out alone, and
      so is a lead byte that is not followed by the continuation bytes it asks for; bytes that end
      within a character are left out together, and so is a whole character that is overlong, a
      surrogate or beyond the last scalar. */
  lemma MalformedDecodes(s: Bytes)
    requires s != [] && !CharAt(s, 0)
    ensures Skipped(s) <= |s| && Decoded(s) == [0xFFFD] + Decoded(s[Skipped(s)..])
  {
    hide Units, ReadBytes, CharAt;
    UnitsOfScalar(REPLACEMENT);
    MalformedReads(s);
  }

  lemma MalformedReads(s: Bytes)
    requires s != [] && !CharAt(s, 0)
    ensures ReadBytes(s) == (REPLACEMENT, Skipped(s))
  {
    hide Gathered, Overlong;
    var n := Remaining(s[0]);
    RemainingIsAsked(s[0]);
    if n == 0 {
      AsciiIsChar(s);
    } else if n < |s| {
      ContinuesIff(s, n);
      if Continues(s, n) {
        WholeIsOutOfRange(s, n);
      }
    }
  }

  lemma RemainingIsAsked(lead: byte)
    ensures Remaining(lead) == if lead < 0xC2 || lead >= 0xF5 then 0 else Asked(lead)
  {}

  lemma AsciiIsChar(s: Bytes)
    requires s != [] && !CharAt(s, 0)
    ensures s[0] >= 0x80
  {}

  lemma ContinuesIff(s: Bytes, n: nat)
    requires n < |s|
    ensures Continues(s, n) <==> !exists k :: 1 <= k <= n && !(0x80 <= s[k] <= 0xBF)
  {}

  /** A whole sequence that is no character stands for no scalar, or for one with fewer bytes. */
  lemma WholeIsOutOfRange(s: Bytes, n: nat)
    requires s != [] && !CharAt(s, 0) && n == Remaining(s[0]) && 0 < n < |s| && Continues(s, n)
    ensures var c := Gathered(s, n); Overlong(n, c) || c > 0x10FFFF || 0xD800 <= c <= 0xDFFF
  {
    hide Gathered;
    if n == 2 {
      GatheredThree(s);
      assert (s[0] == 0xE0 && s[1] < 0xA0) || (s[0] == 0xED && s[1] > 0x9F);
    } else if n == 3 {
      GatheredFour(s);
      assert (s[0] == 0xF0 && s[1] < 0x90) || (s[0] == 0xF4 && s[1] > 0x8F);
    }
  }

  /** Where a character starts, it is read: its bytes are those of the scalar whose units come out. */
  lemma WellFormedDecodes(s: Bytes) returns (c: Scalar)
    requires CharAt(s, 0)
    ensures s != [] && CharLen(s[0]) <= |s|
    ensures var n := CharLen(s[0]);
            EncodeScalar(c) == s[..n] && Decoded(s) == Units(c) + Decoded(s[n..])
  {
    hide Units, EncodeScalar, ReadBytes, CharAt, IsChar;
    CharOfStart(s);
    var n := CharLen(s[0]);
    ReadChar(s[..n], s[n..]);
    assert s[..n] + s[n..] == s;
    c := ReadBytes(s).0;
  }

  lemma CharOfStart(s: Bytes)
    requires CharAt(s, 0)
    ensures s != [] && CharLen(s[0]) <= |s| && IsChar(s[..CharLen(s[0])])
  {
    SameChar(s, 0, s[..CharLen(s[0])], 0);
  }
}
