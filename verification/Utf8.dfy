/** Text as the bytes of a Rust `str` or a JavaScript byte array, and what makes such bytes
    UTF-8: the grammar in section 4 of RFC 3629. */
module Utf8 {

  newtype byte = b: int | 0 <= b < 0x100

  type Bytes = seq<byte>

  /** True of the bytes that continue a character and never start one. */
  predicate IsContinuation(b: byte) {
    0x80 <= b <= 0xBF
  }

  /** Length of the character that a lead byte announces. */
  function CharLen(lead: byte): (n: nat)
    ensures 1 <= n <= 4
  {
    if lead < 0x80 then 1 else if lead < 0xE0 then 2 else if lead < 0xF0 then 3 else 4
  }

  /** The UTF8-char rule of RFC 3629, read at offset `i`. */
  predicate CharAt(s: Bytes, i: nat) {
    && i < |s| && !IsContinuation(s[i]) && s[i] <= 0xF4 && s[i] != 0xC0 && s[i] != 0xC1
    && i + CharLen(s[i]) <= |s|
    && (s[i] >= 0xC0 ==> IsContinuation(s[i + 1]))
    && (s[i] >= 0xE0 ==> IsContinuation(s[i + 2]))
    && (s[i] >= 0xF0 ==> IsContinuation(s[i + 3]))
    && (s[i] == 0xE0 ==> 0xA0 <= s[i + 1])
    && (s[i] == 0xED ==> s[i + 1] <= 0x9F)
    && (s[i] == 0xF0 ==> 0x90 <= s[i + 1])
    && (s[i] == 0xF4 ==> s[i + 1] <= 0x8F)
  }

  /** One well-formed character and nothing else. */
  predicate IsChar(c: Bytes) {
    CharAt(c, 0) && |c| == CharLen(c[0])
  }

  /** `str::is_char_boundary`. */
  predicate IsBoundary(s: Bytes, i: nat) {
    i == 0 || i == |s| || (i < |s| && !IsContinuation(s[i]))
  }

  /** Well-formed UTF-8, told locally: no text starts with a continuation byte, and every other
      byte starts a whole character that runs up to the next. `ValidIffParses` ties this to the
      grammar. */
  ghost predicate Valid(s: Bytes) {
    && (s != [] ==> !IsContinuation(s[0]))
    && forall i: nat {:trigger CharAt(s, i)} ::
         i < |s| && !IsContinuation(s[i]) ==> CharAt(s, i) && IsBoundary(s, i + CharLen(s[i]))
  }

  lemma CharShape(c: Bytes)
    requires IsChar(c)
    ensures 0 < |c| == CharLen(c[0]) && !IsContinuation(c[0])
    ensures forall i :: 0 < i < |c| ==> IsContinuation(c[i])
  {}

  /** The character that starts at boundary `i`: no other boundary inside it, one at its end. */
  lemma CharFrom(s: Bytes, i: nat)
    requires Valid(s) && i < |s| && IsBoundary(s, i)
    ensures CharAt(s, i) && IsBoundary(s, i + CharLen(s[i]))
    ensures forall j :: i < j < i + CharLen(s[i]) ==> IsContinuation(s[j])
  {
    assert CharAt(s, i);
  }

  /** Whether a character starts at `i` depends only on its own bytes. */
  lemma SameChar(s: Bytes, i: nat, t: Bytes, j: nat)
    requires CharAt(s, i) && j + CharLen(s[i]) <= |t|
    requires forall k :: i <= k < i + CharLen(s[i]) ==> s[k] == t[k - i + j]
    ensures CharAt(t, j) && CharLen(t[j]) == CharLen(s[i])
  {
    assert s[i] == t[j];
  }

  lemma Concat(a: Bytes, b: Bytes)
    requires Valid(a) && Valid(b)
    ensures Valid(a + b)
  {
    forall i: nat | i < |a + b| && !IsContinuation((a + b)[i])
      ensures CharAt(a + b, i) && IsBoundary(a + b, i + CharLen((a + b)[i]))
    {
      if i < |a| {
        CharFrom(a, i);
        SameChar(a, i, a + b, i);
      } else {
        CharInSecond(a, b, i - |a|);
      }
    }
  }

  lemma CharInSecond(a: Bytes, b: Bytes, i: nat)
    requires Valid(b) && i < |b| && !IsContinuation(b[i])
    ensures CharAt(a + b, |a| + i) && IsBoundary(a + b, |a| + i + CharLen(b[i]))
  {
    CharFrom(b, i);
    SameChar(b, i, a + b, |a| + i);
  }

  /** Cutting at a boundary leaves two valid texts: what makes a `str` slice legal. */
  lemma Split(s: Bytes, i: nat)
    requires Valid(s) && i <= |s| && IsBoundary(s, i)
    ensures Valid(s[..i]) && Valid(s[i..])
  {
    forall j: nat | j < i && !IsContinuation(s[..i][j])
      ensures CharAt(s[..i], j) && IsBoundary(s[..i], j + CharLen(s[..i][j]))
    {
      SplitBefore(s, i, j);
    }
    forall j: nat | j < |s| - i && !IsContinuation(s[i..][j])
      ensures CharAt(s[i..], j) && IsBoundary(s[i..], j + CharLen(s[i..][j]))
    {
      CharFrom(s, i + j);
      SameChar(s, i + j, s[i..], j);
    }
  }

  lemma SplitBefore(s: Bytes, i: nat, j: nat)
    requires Valid(s) && j < i <= |s| && IsBoundary(s, i) && IsBoundary(s, j)
    ensures CharAt(s[..i], j) && IsBoundary(s[..i], j + CharLen(s[..i][j]))
  {
    CharFrom(s, j);
    assert j + CharLen(s[j]) <= i;
    SameChar(s, j, s[..i], j);
  }

  /** Self-delimitation: what follows a valid prefix of a valid text is itself valid. */
  lemma Cancel(a: Bytes, b: Bytes)
    requires Valid(a) && Valid(a + b)
    ensures Valid(b) && IsBoundary(a + b, |a|)
  {
    var s := a + b;
    if a != [] && b != [] {
      var i := LastStart(a, |a| - 1);
      LastStartIsLast(a, |a| - 1);
      assert s[i] == a[i] && s[|a|] == b[0];
      CharFrom(a, i);
      CharFrom(s, i);
    }
    Split(s, |a|);
    assert s[|a|..] == b;
  }

  /** Where a valid text meets another one there is a boundary, and the boundaries of either
      part are boundaries of the whole. */
  lemma JoinBoundaries(a: Bytes, b: Bytes)
    requires Valid(a) && Valid(b)
    ensures IsBoundary(a + b, |a|)
    ensures forall i: nat :: i <= |a| ==> (IsBoundary(a, i) <==> IsBoundary(a + b, i))
    ensures forall i: nat :: i <= |b| ==> (IsBoundary(b, i) <==> IsBoundary(a + b, |a| + i))
  {
    forall i: nat | i <= |b|
      ensures IsBoundary(b, i) <==> IsBoundary(a + b, |a| + i)
    {
      if i < |b| {
        assert (a + b)[|a| + i] == b[i];
      }
    }
  }

  // ---- Characters from the front ----

  function First(s: Bytes): (c: Bytes)
    requires s != []
  {
    if CharLen(s[0]) <= |s| then s[..CharLen(s[0])] else s
  }

  function Rest(s: Bytes): (t: Bytes)
    requires s != []
    ensures s == First(s) + t && |t| < |s|
  {
    s[|First(s)|..]
  }

  lemma FirstAndRest(s: Bytes)
    requires Valid(s) && s != []
    ensures Valid(First(s)) && Valid(Rest(s)) && |First(s)| == CharLen(s[0]) && IsChar(First(s))
    ensures forall i: nat :: 0 < i <= |s| && IsBoundary(s, i) ==> |First(s)| <= i
    ensures forall i: nat :: i <= |Rest(s)| ==> (IsBoundary(Rest(s), i) <==> IsBoundary(s, |First(s)| + i))
  {
    CharFrom(s, 0);
    Split(s, |First(s)|);
    JoinBoundaries(First(s), Rest(s));
  }

  /** A character in front of a text is its first character. */
  lemma FirstOfPrepended(c: Bytes, s: Bytes)
    requires IsChar(c)
    ensures First(c + s) == c && Rest(c + s) == s
    ensures Valid(s) ==> Valid(c + s)
  {
    CharShape(c);
    assert (c + s)[..|c|] == c && (c + s)[|c|..] == s;
    if Valid(s) {
      Concat(c, s);
    }
  }

  /** Start of the last character that begins at or before `i`. */
  function LastStart(s: Bytes, i: nat): (r: nat)
    requires i < |s|
    ensures r <= i
  {
    if IsBoundary(s, i) then i else LastStart(s, i - 1)
  }

  lemma {:induction false} LastStartIsLast(s: Bytes, i: nat)
    requires i < |s|
    ensures IsBoundary(s, LastStart(s, i))
    ensures forall j :: LastStart(s, i) < j <= i ==> !IsBoundary(s, j)
  {
    if !IsBoundary(s, i) {
      LastStartIsLast(s, i - 1);
    }
  }

  // ---- The grammar ----

  /** The UTF8-octets rule of RFC 3629: a sequence of UTF8-char. */
  predicate Parses(s: Bytes) {
    s == [] || (IsChar(First(s)) && Parses(Rest(s)))
  }

  lemma {:induction false} ValidIffParses(s: Bytes)
    ensures Valid(s) <==> Parses(s)
    decreases |s|
  {
    if s != [] {
      ValidIffParses(Rest(s));
      if Valid(s) {
        FirstAndRest(s);
      }
      if Parses(s) {
        FirstOfPrepended(First(s), Rest(s));
      }
    }
  }
}
