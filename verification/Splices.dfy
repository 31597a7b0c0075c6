/** Splices of UTF-8 text and the trimming of their common affixes (src/input.rs:496-541). */
module Splices {
  import opened Sequences
  import opened Utf8

  datatype Range = Range(start: nat, end: nat)

  predicate Covers(r: Range, at: nat) {
    r.start <= at < r.end
  }

  /** What a range must satisfy for `&content[range]` not to panic. */
  predicate Fits(content: Bytes, range: Range) {
    && range.start <= range.end <= |content|
    && IsBoundary(content, range.start)
    && IsBoundary(content, range.end)
  }

  function Splice(content: Bytes, range: Range, text: Bytes): Bytes
    requires range.start <= range.end <= |content|
  {
    content[..range.start] + text + content[range.end..]
  }

  lemma SliceIsValid(content: Bytes, range: Range)
    requires Valid(content) && Fits(content, range)
    ensures Valid(content[range.start..range.end])
  {
    Split(content, range.end);
    Split(content[..range.end], range.start);
    SliceOfTake(content, range.start, range.end);
  }

  lemma SpliceKeepsUtf8(content: Bytes, range: Range, text: Bytes)
    requires Valid(content) && Fits(content, range) && Valid(text)
    ensures Valid(Splice(content, range, text))
    ensures Fits(Splice(content, range, text), Range(range.start, range.start + |text|))
  {
    var before, after := content[..range.start], content[range.end..];
    Split(content, range.start);
    Split(content, range.end);
    Concat(before, text);
    Concat(before + text, after);
    JoinBoundaries(before, text);
    JoinBoundaries(before + text, after);
  }

  // ---- Shared affixes ----

  /** The first `n` bytes agree and end a character in both texts. */
  predicate SharesPrefix(a: Bytes, b: Bytes, n: nat) {
    n <= |a| && n <= |b| && a[..n] == b[..n] && IsBoundary(a, n) && IsBoundary(b, n)
  }

  /** The last `n` bytes agree and start a character in both texts. */
  predicate SharesSuffix(a: Bytes, b: Bytes, n: nat) {
    n <= |a| && n <= |b| && a[|a| - n..] == b[|b| - n..] && IsBoundary(a, |a| - n) && IsBoundary(b, |b| - n)
  }

  /** The most that is shared, up to `limit` bytes. */
  function SharedPrefix(a: Bytes, b: Bytes, limit: nat): (n: nat)
    ensures SharesPrefix(a, b, n) && n <= limit && n <= |a| && n <= |b| && IsBoundary(a, n) && IsBoundary(b, n)
    ensures forall m: nat :: n < m <= limit ==> !SharesPrefix(a, b, m)
  {
    if limit == 0 || SharesPrefix(a, b, limit) then limit else SharedPrefix(a, b, limit - 1)
  }

  function SharedSuffix(a: Bytes, b: Bytes, limit: nat): (n: nat)
    ensures SharesSuffix(a, b, n) && n <= limit && n <= |a| && n <= |b|
    ensures IsBoundary(a, |a| - n) && IsBoundary(b, |b| - n)
    ensures forall m: nat :: n < m <= limit ==> !SharesSuffix(a, b, m)
  {
    if limit == 0 || SharesSuffix(a, b, limit) then limit else SharedSuffix(a, b, limit - 1)
  }

  /** Backing an equal run of bytes off to a boundary of `a` finds a boundary of `b` too: equal
      bytes are not enough for that, UTF-8 being self-delimiting is. */
  lemma BoundaryOfBoth(a: Bytes, b: Bytes, n: nat)
    requires Valid(a) && Valid(b) && n <= |a| && n <= |b| && a[..n] == b[..n] && IsBoundary(a, n)
    ensures IsBoundary(b, n)
  {
    Split(a, n);
    assert b == b[..n] + b[n..];
    Cancel(b[..n], b[n..]);
  }

  /** Backing an equal start off to a boundary of `a` finds the longest shared prefix. */
  lemma BackedOffPrefix(a: Bytes, b: Bytes, equal: nat, n: nat)
    requires Valid(a) && Valid(b) && equal <= |a| && equal <= |b| && a[..equal] == b[..equal]
    requires equal < |a| && equal < |b| ==> a[equal] != b[equal]
    requires n <= equal && IsBoundary(a, n)
    requires forall j: nat :: n < j <= equal ==> !IsBoundary(a, j)
    ensures n == SharedPrefix(a, b, |a|)
  {
    hide Valid, SharedPrefix;
    ShorterEqualStart(a, b, equal, n);
    BoundaryOfBoth(a, b, n);
    PrefixAgrees(a, b, SharedPrefix(a, b, |a|), equal);
    assert SharesPrefix(a, b, n);
  }

  lemma BackedOffSuffix(a: Bytes, b: Bytes, equal: nat, n: nat)
    requires Valid(a) && equal <= |a| && equal <= |b| && a[|a| - equal..] == b[|b| - equal..]
    requires equal < |a| && equal < |b| ==> a[|a| - 1 - equal] != b[|b| - 1 - equal]
    requires n <= equal && IsBoundary(a, |a| - n)
    requires forall j: nat :: |a| - equal <= j < |a| - n ==> !IsBoundary(a, j)
    ensures n == SharedSuffix(a, b, |a|)
  {
    hide *;
    SuffixIsShared(a, b, equal, n);
    SuffixEnds(a, b, equal, SharedSuffix(a, b, |a|));
    LastBoundary(a, b, equal, n);
  }

  lemma LastBoundary(a: Bytes, b: Bytes, equal: nat, n: nat)
    requires n <= equal <= |a| && SharesSuffix(a, b, n) && SharedSuffix(a, b, |a|) <= equal
    requires forall j: nat :: |a| - equal <= j < |a| - n ==> !IsBoundary(a, j)
    ensures n == SharedSuffix(a, b, |a|)
  {
    hide SharedSuffix, SharesSuffix, IsBoundary;
    var m := SharedSuffix(a, b, |a|);
    assert IsBoundary(a, |a| - m);
  }

  lemma SuffixIsShared(a: Bytes, b: Bytes, equal: nat, n: nat)
    requires Valid(a) && equal <= |a| && equal <= |b| && a[|a| - equal..] == b[|b| - equal..]
    requires n <= equal && IsBoundary(a, |a| - n)
    ensures SharesSuffix(a, b, n)
  {
    ShorterEqualEnd(a, b, equal, n);
  }

  lemma SuffixEnds(a: Bytes, b: Bytes, equal: nat, m: nat)
    requires equal < |a| && equal < |b| ==> a[|a| - 1 - equal] != b[|b| - 1 - equal]
    requires SharesSuffix(a, b, m)
    ensures m <= equal
  {
    SuffixAgrees(a, b, m, equal);
  }

  /** Shared bytes agree one by one. */
  lemma PrefixAgrees(a: Bytes, b: Bytes, m: nat, k: nat)
    requires SharesPrefix(a, b, m)
    ensures k < m ==> a[k] == b[k]
  {
    if k < m {
      ShorterEqualStart(a, b, m, k);
    }
  }

  lemma SuffixAgrees(a: Bytes, b: Bytes, m: nat, k: nat)
    requires SharesSuffix(a, b, m)
    ensures k < m ==> a[|a| - 1 - k] == b[|b| - 1 - k]
  {
    if k < m {
      ShorterEqualEnd(a, b, m, k + 1);
    }
  }

  lemma StartIsBoundary(s: Bytes)
    ensures IsBoundary(s, 0) && IsBoundary(s, |s|)
  {}

  method CommonPrefixLen(a: Bytes, b: Bytes) returns (len: nat)
    requires Valid(a) && Valid(b)
    ensures len == SharedPrefix(a, b, |a|)
  {
    hide EqualFromStart, SharedPrefix, Valid, IsBoundary;
    len := EqualFromStart(a, b, 0);
    while !IsBoundary(a, len)
      invariant len <= EqualFromStart(a, b, 0)
      invariant forall j: nat :: len < j <= EqualFromStart(a, b, 0) ==> !IsBoundary(a, j)
      decreases len
    {
      StartIsBoundary(a);
      len := len - 1;
    }
    BackedOffPrefix(a, b, EqualFromStart(a, b, 0), len);
  }

  method CommonSuffixLen(a: Bytes, b: Bytes) returns (len: nat)
    requires Valid(a)
    ensures len == SharedSuffix(a, b, |a|)
  {
    hide EqualFromEnd, SharedSuffix, Valid, IsBoundary;
    len := EqualFromEnd(a, b);
    while !IsBoundary(a, |a| - len)
      invariant len <= EqualFromEnd(a, b)
      invariant forall j: nat :: |a| - EqualFromEnd(a, b) <= j < |a| - len ==> !IsBoundary(a, j)
      decreases len
    {
      StartIsBoundary(a);
      len := len - 1;
    }
    EqualFromEndIsExact(a, b);
    BackedOffSuffix(a, b, EqualFromEnd(a, b), len);
  }

  // ---- Trimmed splices ----

  /** At `start`, the text `removed` gave way to `inserted`. */
  datatype Edit = Edit(start: nat, removed: Bytes, inserted: Bytes)

  /** `a` and `b` without their shared affixes; the suffix is shared by what the prefix leaves. */
  function Trim(a: Bytes, b: Bytes): Edit {
    var prefix := SharedPrefix(a, b, |a|);
    var suffix := SharedSuffix(a, b, Least(|a|, |b|) - prefix);
    Edit(prefix, a[prefix..|a| - suffix], b[prefix..|b| - suffix])
  }

  function Least(m: nat, n: nat): nat {
    if m < n then m else n
  }

  function Trimmed(content: Bytes, range: Range, text: Bytes): Edit
    requires range.start <= range.end <= |content|
  {
    var edit := Trim(content[range.start..range.end], text);
    edit.(start := range.start + edit.start)
  }

  method TrimmedSplice(content: Bytes, range: Range, text: Bytes) returns (edit: Edit)
    requires Valid(content) && Fits(content, range) && Valid(text)
    ensures edit == Trimmed(content, range, text)
  {
    hide Trim, SharesPrefix, SharesSuffix, Valid, IsBoundary;
    SliceIsValid(content, range);
    var replaced := content[range.start..range.end];
    var prefix := CommonPrefixLen(replaced, text);
    var a, b := replaced[prefix..], text[prefix..];
    SuffixOfTails(replaced, text, prefix);
    var suffix := CommonSuffixLen(a, b);
    edit := Edit(range.start + prefix, a[..|a| - suffix], b[..|b| - suffix]);
    TrimOfTails(replaced, text, prefix, suffix);
  }

  lemma TrimOfTails(a: Bytes, b: Bytes, p: nat, s: nat)
    requires p == SharedPrefix(a, b, |a|) && s == SharedSuffix(a, b, Least(|a|, |b|) - p)
    ensures p + s <= |a| && p + s <= |b|
    ensures Trim(a, b) == Edit(p, a[p..][..|a| - p - s], b[p..][..|b| - p - s])
  {
    hide *;
    TrimSlices(a, b, p, s);
    SliceOfDrop(a, p, |a| - s);
    SliceOfDrop(b, p, |b| - s);
  }

  lemma TrimSlices(a: Bytes, b: Bytes, p: nat, s: nat)
    requires p == SharedPrefix(a, b, |a|) && s == SharedSuffix(a, b, Least(|a|, |b|) - p)
    ensures p + s <= |a| && p + s <= |b| && Trim(a, b) == Edit(p, a[p..|a| - s], b[p..|b| - s])
  {}

  /** After a shared prefix, what the two tails share at their end is what the texts share there. */
  lemma SuffixOfTails(a: Bytes, b: Bytes, p: nat)
    requires Valid(a) && Valid(b) && SharesPrefix(a, b, p)
    ensures Valid(a[p..]) && Valid(b[p..])
    ensures SharedSuffix(a[p..], b[p..], |a| - p) == SharedSuffix(a, b, Least(|a|, |b|) - p)
  {
    Split(a, p);
    Split(b, p);
    forall n: nat | n <= |a| - p && n <= |b| - p
      ensures SharesSuffix(a[p..], b[p..], n) <==> SharesSuffix(a, b, n)
    {
      SuffixOfTail(a, b, p, n);
    }
    SameMost(a[p..], b[p..], |a| - p, a, b, Least(|a|, |b|) - p);
  }

  lemma SuffixOfTail(a: Bytes, b: Bytes, p: nat, n: nat)
    requires p + n <= |a| && p + n <= |b| && IsBoundary(a, p) && IsBoundary(b, p)
    ensures SharesSuffix(a[p..], b[p..], n) <==> SharesSuffix(a, b, n)
  {
    hide IsBoundary;
    DropOfDrop(a, p, |a| - p - n);
    DropOfDrop(b, p, |b| - p - n);
    BoundaryInTail(a, p, |a| - p - n);
    BoundaryInTail(b, p, |b| - p - n);
  }

  lemma BoundaryInTail(s: Bytes, i: nat, k: nat)
    requires i + k <= |s| && IsBoundary(s, i)
    ensures IsBoundary(s[i..], k) <==> IsBoundary(s, i + k)
  {
    if 0 < k < |s| - i {
      assert s[i..][k] == s[i + k];
    }
  }

  lemma SameMost(a: Bytes, b: Bytes, m: nat, c: Bytes, d: Bytes, n: nat)
    requires n <= m && forall i: nat :: i <= n ==> (SharesSuffix(a, b, i) <==> SharesSuffix(c, d, i))
    requires forall i: nat :: n < i <= m ==> !SharesSuffix(a, b, i)
    ensures SharedSuffix(a, b, m) == SharedSuffix(c, d, n)
  {
    var x, y := SharedSuffix(a, b, m), SharedSuffix(c, d, n);
    assert SharesSuffix(a, b, x) && SharesSuffix(c, d, y);
  }

  predicate AppliesTo(content: Bytes, edit: Edit) {
    && edit.start + |edit.removed| <= |content|
    && content[edit.start..edit.start + |edit.removed|] == edit.removed
    && Fits(content, Range(edit.start, edit.start + |edit.removed|))
  }

  /** Trimming takes the same off both texts, and cuts them between characters. */
  lemma TrimIsExact(a: Bytes, b: Bytes)
    requires Valid(a) && Valid(b)
    ensures var edit := Trim(a, b);
            && AppliesTo(a, edit) && Valid(edit.removed) && Valid(edit.inserted)
            && b == Splice(a, Range(edit.start, edit.start + |edit.removed|), edit.inserted)
  {
    hide Valid, SharesPrefix, SharesSuffix, IsBoundary;
    var p := SharedPrefix(a, b, |a|);
    var s := SharedSuffix(a, b, Least(|a|, |b|) - p);
    SliceIsValid(a, Range(p, |a| - s));
    SliceIsValid(b, Range(p, |b| - s));
    SpliceOfMiddle(a, b, p, s);
  }

  lemma SpliceOfMiddle(a: Bytes, b: Bytes, p: nat, s: nat)
    requires SharesPrefix(a, b, p) && SharesSuffix(a, b, s) && p + s <= |a| && p + s <= |b|
    ensures b == Splice(a, Range(p, |a| - s), b[p..|b| - s])
  {
    hide IsBoundary;
    MiddleSplice(a, b, p, s);
  }

  /** No character could be trimmed further. */
  lemma TrimIsMinimal(a: Bytes, b: Bytes, n: nat)
    requires 0 < n
    ensures var edit := Trim(a, b);
            !SharesPrefix(edit.removed, edit.inserted, n) && !SharesSuffix(edit.removed, edit.inserted, n)
  {
    hide SharesPrefix, SharesSuffix;
    var p := SharedPrefix(a, b, |a|);
    var s := SharedSuffix(a, b, Least(|a|, |b|) - p);
    LongerPrefix(a, b, p, s, n);
    LongerSuffix(a, b, p, s, n);
  }

  lemma LongerPrefix(a: Bytes, b: Bytes, p: nat, s: nat, n: nat)
    requires SharesPrefix(a, b, p) && p + s <= |a| && p + s <= |b|
    requires IsBoundary(a, |a| - s) && IsBoundary(b, |b| - s)
    ensures SharesPrefix(a[p..|a| - s], b[p..|b| - s], n) ==> SharesPrefix(a, b, p + n) && p + n <= |a|
  {
    hide IsBoundary;
    if SharesPrefix(a[p..|a| - s], b[p..|b| - s], n) {
      LongerEqualStart(a, |a| - s, b, |b| - s, p, n);
      BoundaryInSlice(a, p, |a| - s, n);
      BoundaryInSlice(b, p, |b| - s, n);
    }
  }

  lemma LongerSuffix(a: Bytes, b: Bytes, p: nat, s: nat, n: nat)
    requires SharesSuffix(a, b, s) && p + s <= |a| && p + s <= |b|
    requires IsBoundary(a, p) && IsBoundary(b, p)
    ensures SharesSuffix(a[p..|a| - s], b[p..|b| - s], n) ==>
              SharesSuffix(a, b, s + n) && s + n <= Least(|a|, |b|) - p
  {
    hide IsBoundary;
    if SharesSuffix(a[p..|a| - s], b[p..|b| - s], n) {
      LongerEqualEnd(a, p, b, p, s, n);
      BoundaryInSlice(a, p, |a| - s, |a| - p - s - n);
      BoundaryInSlice(b, p, |b| - s, |b| - p - s - n);
    }
  }

  /** Boundaries of a slice between two boundaries are boundaries of the whole text. */
  lemma BoundaryInSlice(s: Bytes, i: nat, j: nat, k: nat)
    requires i <= j && Fits(s, Range(i, j)) && k <= j - i
    ensures IsBoundary(s[i..j], k) <==> IsBoundary(s, i + k)
  {
    if 0 < k < j - i {
      assert s[i..j][k] == s[i + k];
    }
  }

  /** The trimmed edit is the same edit, on character boundaries before and after. */
  lemma TrimmedIsSameEdit(content: Bytes, range: Range, text: Bytes)
    requires Valid(content) && Fits(content, range) && Valid(text)
    ensures var edit := Trimmed(content, range, text);
            && AppliesTo(content, edit) && Valid(edit.removed) && Valid(edit.inserted)
            && Splice(content, Range(edit.start, edit.start + |edit.removed|), edit.inserted)
               == Splice(content, range, text)
            && Fits(Splice(content, range, text), Range(edit.start, edit.start + |edit.inserted|))
  {
    hide Trim, Valid, AppliesTo, IsBoundary;
    SliceIsValid(content, range);
    TrimIsExact(content[range.start..range.end], text);
    EditInSlice(content, range, Trim(content[range.start..range.end], text));
  }

  lemma EditInSlice(content: Bytes, range: Range, inner: Edit)
    requires Valid(content) && Fits(content, range)
    requires AppliesTo(content[range.start..range.end], inner) && Valid(inner.inserted)
    ensures var start, end := range.start + inner.start, range.start + inner.start + |inner.removed|;
            var replaced := Range(inner.start, inner.start + |inner.removed|);
            var text := Splice(content[range.start..range.end], replaced, inner.inserted);
            && AppliesTo(content, inner.(start := start))
            && Splice(content, Range(start, end), inner.inserted) == Splice(content, range, text)
            && Fits(Splice(content, range, text), Range(start, start + |inner.inserted|))
  {
    hide Valid, IsBoundary;
    var m, n := inner.start, inner.start + |inner.removed|;
    BoundaryInSlice(content, range.start, range.end, m);
    BoundaryInSlice(content, range.start, range.end, n);
    SliceOfSlice(content, range.start, range.end, m, n);
    SpliceInSlice(content, range.start, range.end, m, n, inner.inserted);
    SpliceKeepsUtf8(content, Range(range.start + m, range.start + n), inner.inserted);
  }

  /** Nothing is left to record exactly when the splice changes nothing. */
  lemma TrimmedIsEmptyIffUnchanged(content: Bytes, range: Range, text: Bytes)
    requires Valid(content) && Fits(content, range) && Valid(text)
    ensures var edit := Trimmed(content, range, text);
            edit.removed == edit.inserted == [] <==> content[range.start..range.end] == text
  {
    hide Trim, Valid, IsBoundary;
    var a := content[range.start..range.end];
    SliceIsValid(content, range);
    TrimIsExact(a, text);
    EmptySplice(a, Trim(a, text).start);
    if a == text {
      TrimOfEquals(a);
    }
  }

  lemma EmptySplice(a: Bytes, i: nat)
    ensures i <= |a| ==> Splice(a, Range(i, i), []) == a
  {}

  lemma TrimOfEquals(a: Bytes)
    ensures Trim(a, a).removed == Trim(a, a).inserted == []
  {
    assert SharesPrefix(a, a, |a|);
  }
}
