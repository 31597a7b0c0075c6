/** Facts about slices of sequences. Each is proved on its own, away from other index terms,
    because a sequence that equals a concatenation of its own slices is costly to reason about. */
module Sequences {

  lemma SliceOfDrop<T>(s: seq<T>, i: nat, j: nat)
    requires i <= j <= |s|
    ensures s[i..][..j - i] == s[i..j]
  {}

  lemma SliceOfTake<T>(s: seq<T>, i: nat, j: nat)
    requires i <= j <= |s|
    ensures s[..j][i..] == s[i..j]
  {}

  lemma DropOfDrop<T>(s: seq<T>, i: nat, j: nat)
    requires i + j <= |s|
    ensures s[i..][j..] == s[i + j..]
  {}

  /** Equal starts followed by equal starts of the next slice. */
  lemma LongerEqualStart<T>(a: seq<T>, i: nat, b: seq<T>, j: nat, p: nat, n: nat)
    requires p + n <= i <= |a| && p + n <= j <= |b|
    requires a[..p] == b[..p] && a[p..i][..n] == b[p..j][..n]
    ensures a[..p + n] == b[..p + n]
  {
    assert a[..p + n] == a[..p] + a[p..i][..n] && b[..p + n] == b[..p] + b[p..j][..n];
  }

  /** Equal ends after equal ends of the slice before. */
  lemma LongerEqualEnd<T>(a: seq<T>, i: nat, b: seq<T>, j: nat, s: nat, n: nat)
    requires i + s + n <= |a| && j + s + n <= |b|
    requires a[|a| - s..] == b[|b| - s..]
    requires a[i..|a| - s][|a| - s - i - n..] == b[j..|b| - s][|b| - s - j - n..]
    ensures a[|a| - (s + n)..] == b[|b| - (s + n)..]
  {
    assert a[|a| - (s + n)..] == a[i..|a| - s][|a| - s - i - n..] + a[|a| - s..];
    assert b[|b| - (s + n)..] == b[j..|b| - s][|b| - s - j - n..] + b[|b| - s..];
  }

  lemma ShorterEqualEnd<T>(a: seq<T>, b: seq<T>, e: nat, n: nat)
    requires n <= e <= |a| && e <= |b| && a[|a| - e..] == b[|b| - e..]
    ensures a[|a| - n..] == b[|b| - n..]
    ensures 0 < n ==> a[|a| - n] == b[|b| - n]
  {
    assert a[|a| - n..] == a[|a| - e..][e - n..] && b[|b| - n..] == b[|b| - e..][e - n..];
    assert 0 < n ==> a[|a| - e..][e - n] == b[|b| - e..][e - n];
  }

  lemma ShorterEqualStart<T>(a: seq<T>, b: seq<T>, e: nat, n: nat)
    requires n <= e <= |a| && e <= |b| && a[..e] == b[..e]
    ensures a[..n] == b[..n]
    ensures n < e ==> a[n] == b[n]
  {
    assert a[..n] == a[..e][..n] && b[..n] == b[..e][..n];
    assert n < e ==> a[..e][n] == b[..e][n];
  }

  /** Two sequences with equal ends differ by a splice of their middles. */
  lemma MiddleSplice<T>(a: seq<T>, b: seq<T>, p: nat, s: nat)
    requires p + s <= |a| && p + s <= |b| && a[..p] == b[..p] && a[|a| - s..] == b[|b| - s..]
    ensures b == a[..p] + b[p..|b| - s] + a[|a| - s..]
  {}

  /** A splice inside the slice `s[i..j]` is a splice of `s`. */
  lemma SpliceInSlice<T>(s: seq<T>, i: nat, j: nat, m: nat, n: nat, t: seq<T>)
    requires i <= j <= |s| && m <= n <= j - i
    ensures s[..i] + (s[i..j][..m] + t + s[i..j][n..]) + s[j..] == s[..i + m] + t + s[i + n..]
  {
    var a, b := s[i..j][..m], s[i..j][n..];
    assert s[..i + m] == s[..i] + a;
    assert s[i + n..] == b + s[j..];
    Regroup(s[..i], a, t, b, s[j..]);
  }

  lemma SliceOfSlice<T>(s: seq<T>, i: nat, j: nat, m: nat, n: nat)
    requires i <= j <= |s| && m <= n <= j - i
    ensures s[i..j][m..n] == s[i + m..i + n]
  {
    assert forall k :: 0 <= k < n - m ==> s[i..j][m..n][k] == s[i..j][m + k] == s[i + m + k];
  }

  lemma Regroup<T>(a: seq<T>, b: seq<T>, c: seq<T>, d: seq<T>, e: seq<T>)
    ensures a + (b + c + d) + e == (a + b) + c + (d + e)
  {}

  /** How far two sequences agree from their start, beyond the `n` elements known to agree. */
  function EqualFromStart<T(==)>(a: seq<T>, b: seq<T>, n: nat): (r: nat)
    requires n <= |a| && n <= |b| && a[..n] == b[..n]
    ensures r <= |a| && r <= |b| && a[..r] == b[..r]
    ensures r < |a| && r < |b| ==> a[r] != b[r]
    decreases |a| - n
  {
    if n < |a| && n < |b| && a[n] == b[n] then EqualFromStart(a, b, n + 1) else n
  }

  /** How far two sequences agree from their end. */
  function EqualFromEnd<T(==)>(a: seq<T>, b: seq<T>): (r: nat)
    ensures r <= |a| && r <= |b|
  {
    if a != [] && b != [] && a[|a| - 1] == b[|b| - 1] then
      1 + EqualFromEnd(a[..|a| - 1], b[..|b| - 1])
    else 0
  }

  lemma {:induction false} EqualFromEndIsExact<T>(a: seq<T>, b: seq<T>)
    ensures var r := EqualFromEnd(a, b);
            && a[|a| - r..] == b[|b| - r..]
            && (r < |a| && r < |b| ==> a[|a| - 1 - r] != b[|b| - 1 - r])
    decreases |a|
  {
    if a != [] && b != [] && a[|a| - 1] == b[|b| - 1] {
      EqualFromEndIsExact(a[..|a| - 1], b[..|b| - 1]);
      EqualEndGrows(a, b, EqualFromEnd(a[..|a| - 1], b[..|b| - 1]));
    }
  }

  lemma EqualEndGrows<T>(a: seq<T>, b: seq<T>, r: nat)
    requires r < |a| && r < |b| && a[|a| - 1] == b[|b| - 1]
    requires a[..|a| - 1][|a| - 1 - r..] == b[..|b| - 1][|b| - 1 - r..]
    requires r < |a| - 1 && r < |b| - 1 ==> a[..|a| - 1][|a| - 2 - r] != b[..|b| - 1][|b| - 2 - r]
    ensures a[|a| - 1 - r..] == b[|b| - 1 - r..]
    ensures r < |a| - 1 && r < |b| - 1 ==> a[|a| - 2 - r] != b[|b| - 2 - r]
  {
    DropBeforeLast(a, r);
    DropBeforeLast(b, r);
  }

  lemma DropBeforeLast<T>(s: seq<T>, r: nat)
    requires r < |s|
    ensures s[|s| - 1 - r..] == s[..|s| - 1][|s| - 1 - r..] + [s[|s| - 1]]
  {}

  function Reversed<T>(s: seq<T>): (r: seq<T>)
    ensures |r| == |s|
  {
    if s == [] then [] else [s[|s| - 1]] + Reversed(s[..|s| - 1])
  }

  /** `a` is what is left of `b` when some elements are taken out. */
  predicate IsPart<T(==)>(a: seq<T>, b: seq<T>)
    decreases |b|
  {
    a == [] ||
    (b != [] && ((a[|a| - 1] == b[|b| - 1] && IsPart(a[..|a| - 1], b[..|b| - 1])) || IsPart(a, b[..|b| - 1])))
  }

  lemma {:induction false} PartOfItself<T>(a: seq<T>)
    ensures IsPart(a, a)
  {
    if a != [] {
      PartOfItself(a[..|a| - 1]);
    }
  }

  lemma {:induction false} PartOfLonger<T>(a: seq<T>, b: seq<T>, c: seq<T>)
    requires IsPart(a, b)
    ensures IsPart(a, b + c)
    decreases |c|
  {
    if c == [] {
      assert b + c == b;
    } else {
      assert (b + c)[..|b + c| - 1] == b + c[..|c| - 1];
      PartOfLonger(a, b, c[..|c| - 1]);
    }
  }

  lemma {:induction false} PartsWithSameEnd<T>(a: seq<T>, b: seq<T>, c: seq<T>)
    requires IsPart(a, b)
    ensures IsPart(a + c, b + c)
    decreases |c|
  {
    if c == [] {
      assert a + c == a && b + c == b;
    } else {
      assert (a + c)[..|a + c| - 1] == a + c[..|c| - 1] && (b + c)[..|b + c| - 1] == b + c[..|c| - 1];
      PartsWithSameEnd(a, b, c[..|c| - 1]);
    }
  }

  lemma {:induction false} PartOfPart<T>(a: seq<T>, b: seq<T>, c: seq<T>)
    requires IsPart(a, b) && IsPart(b, c)
    ensures IsPart(a, c)
    decreases |c|
  {
    if a != [] {
      if b[|b| - 1] == c[|c| - 1] && IsPart(b[..|b| - 1], c[..|c| - 1]) {
        if a[|a| - 1] == b[|b| - 1] && IsPart(a[..|a| - 1], b[..|b| - 1]) {
          PartOfPart(a[..|a| - 1], b[..|b| - 1], c[..|c| - 1]);
        } else {
          PartOfPart(a, b[..|b| - 1], c[..|c| - 1]);
        }
      } else {
        PartOfPart(a, b, c[..|c| - 1]);
      }
    }
  }

  lemma {:induction false} EndIsPart<T>(a: seq<T>, k: nat)
    requires k <= |a|
    ensures IsPart(a[k..], a)
    decreases |a|
  {
    if k < |a| {
      assert a[k..][..|a| - k - 1] == a[..|a| - 1][k..];
      EndIsPart(a[..|a| - 1], k);
    }
  }

  /** The elements of a part are at rising places of the whole. */
  lemma {:induction false} PlacesInWhole<T>(a: seq<T>, b: seq<T>) returns (places: seq<nat>)
    requires IsPart(a, b)
    ensures |places| == |a|
    ensures forall i :: 0 <= i < |a| ==> places[i] < |b| && a[i] == b[places[i]]
    ensures forall i, j :: 0 <= i < j < |a| ==> places[i] < places[j]
    decreases |b|
  {
    if a == [] {
      places := [];
    } else if a[|a| - 1] == b[|b| - 1] && IsPart(a[..|a| - 1], b[..|b| - 1]) {
      places := PlacesInWhole(a[..|a| - 1], b[..|b| - 1]);
      places := places + [|b| - 1];
    } else {
      places := PlacesInWhole(a, b[..|b| - 1]);
    }
  }
}
