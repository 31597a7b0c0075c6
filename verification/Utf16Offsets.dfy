/** Offsets of an input method, which count UTF-16 units, against byte offsets into UTF-8 text
    (src/input.rs:2022-2063). */
module Utf16Offsets {
  import opened Splices
  import opened Utf8
  import Utf8Codec

  /** UTF-16 units of the character that `lead` starts: two beyond the basic plane. */
  function Units(lead: byte): (n: nat)
    ensures 1 <= n <= 2
  {
    if lead < 0xF0 then 1 else 2
  }

  function Next(s: Bytes, i: nat): (n: nat)
    requires i < |s|
    ensures i < n <= |s|
  {
    Least(i + CharLen(s[i]), |s|)
  }

  function Minus(m: nat, n: nat): nat {
    if m < n then 0 else m - n
  }

  /** The byte offset reached from `i` by the fewest whole characters that make up `units`. */
  function FromUtf16(s: Bytes, i: nat, units: nat): nat
    decreases |s| - i
  {
    if i >= |s| || units == 0 then i else FromUtf16(s, Next(s, i), Minus(units, Units(s[i])))
  }

  /** Units of the characters that start at or after `i` and before `offset`. */
  function ToUtf16(s: Bytes, i: nat, offset: nat): nat
    decreases |s| - i
  {
    if i >= |s| || offset <= i then 0 else Units(s[i]) + ToUtf16(s, Next(s, i), offset)
  }

  method OffsetFromUtf16(s: Bytes, offset: nat) returns (utf8Offset: nat)
    ensures utf8Offset == FromUtf16(s, 0, offset)
  {
    utf8Offset := 0;
    var utf16Count: nat := 0;
    while utf8Offset < |s|
      invariant utf8Offset <= |s|
      invariant FromUtf16(s, 0, offset) == FromUtf16(s, utf8Offset, Minus(offset, utf16Count))
    {
      if utf16Count >= offset {
        break;
      }
      utf16Count := utf16Count + Units(s[utf8Offset]);
      utf8Offset := Next(s, utf8Offset);
    }
  }

  method OffsetToUtf16(s: Bytes, offset: nat) returns (utf16Offset: nat)
    ensures utf16Offset == ToUtf16(s, 0, offset)
  {
    utf16Offset := 0;
    var utf8Count: nat := 0;
    while utf8Count < |s|
      invariant utf8Count <= |s|
      invariant ToUtf16(s, 0, offset) == utf16Offset + ToUtf16(s, utf8Count, offset)
    {
      if utf8Count >= offset {
        break;
      }
      utf16Offset := utf16Offset + Units(s[utf8Count]);
      utf8Count := Next(s, utf8Count);
    }
  }

  // ---- Units counted byte by byte ----

  /** Units of the characters whose lead bytes are from `i` on and before `j`. */
  function LeadUnits(s: Bytes, i: nat, j: nat): nat
    requires i <= j <= |s|
    decreases j - i
  {
    if i == j then 0 else (if IsContinuation(s[i]) then 0 else Units(s[i])) + LeadUnits(s, i + 1, j)
  }

  lemma {:induction false} LeadUnitsSplit(s: Bytes, i: nat, j: nat, k: nat)
    requires i <= j <= k <= |s|
    ensures LeadUnits(s, i, k) == LeadUnits(s, i, j) + LeadUnits(s, j, k)
    decreases j - i
  {
    if i < j {
      LeadUnitsSplit(s, i + 1, j, k);
    }
  }

  lemma {:induction false} ContinuationsCountNothing(s: Bytes, i: nat, j: nat)
    requires i <= j <= |s| && forall k :: i <= k < j ==> IsContinuation(s[k])
    ensures LeadUnits(s, i, j) == 0
    decreases j - i
  {
    if i < j {
      ContinuationsCountNothing(s, i + 1, j);
    }
  }

  lemma OneCharCounts(s: Bytes, i: nat)
    requires Valid(s) && i < |s| && IsBoundary(s, i)
    ensures IsBoundary(s, Next(s, i)) && LeadUnits(s, i, Next(s, i)) == Units(s[i])
    ensures forall j: nat :: i < j <= |s| && IsBoundary(s, j) ==> Next(s, i) <= j
  {
    CharFrom(s, i);
    assert !IsContinuation(s[i]);
    ContinuationsCountNothing(s, i + 1, Next(s, i));
  }

  lemma {:induction false} SameLeadUnits(s: Bytes, i: nat, t: Bytes, k: nat, n: nat)
    requires i + n <= |s| && k + n <= |t| && s[i..i + n] == t[k..k + n]
    ensures LeadUnits(s, i, i + n) == LeadUnits(t, k, k + n)
    decreases n
  {
    if n > 0 {
      assert s[i] == s[i..i + n][0] == t[k];
      assert s[i + 1..i + n] == s[i..i + n][1..] == t[k..k + n][1..] == t[k + 1..k + n];
      SameLeadUnits(s, i + 1, t, k + 1, n - 1);
    }
  }

  /** Walking over whole characters up to a boundary counts the units up to there. */
  lemma {:induction false} ToUtf16CountsLeads(s: Bytes, i: nat, b: nat)
    requires Valid(s) && i <= b <= |s| && IsBoundary(s, i) && IsBoundary(s, b)
    ensures ToUtf16(s, i, b) == LeadUnits(s, i, b)
    decreases |s| - i
  {
    if i < b {
      OneCharCounts(s, i);
      ToUtf16CountsLeads(s, Next(s, i), b);
      LeadUnitsSplit(s, i, Next(s, i), b);
    }
  }

  lemma {:induction false} FromUtf16CountsLeads(s: Bytes, i: nat, units: nat, b: nat)
    requires Valid(s) && i <= b <= |s| && IsBoundary(s, i) && IsBoundary(s, b)
    ensures var r := FromUtf16(s, i, units);
            && i <= r <= |s| && IsBoundary(s, r)
            && (r <= b <==> b == |s| || units <= LeadUnits(s, i, b))
    decreases |s| - i
  {
    if i < |s| {
      OneCharCounts(s, i);
      if i < b {
        FromUtf16CountsLeads(s, Next(s, i), Minus(units, Units(s[i])), b);
        LeadUnitsSplit(s, i, Next(s, i), b);
      } else if units > 0 {
        FromUtf16CountsLeads(s, Next(s, i), Minus(units, Units(s[i])), |s|);
      }
    }
  }

  // ---- Real UTF-16 ----

  /** The length in UTF-16 of the text before `b`: that of the string it decodes to. */
  function Utf16Length(s: Bytes, b: nat): nat
    requires b <= |s|
  {
    |Utf8Codec.Decoded(s[..b])|
  }

  /** A character has a surrogate pair exactly when it has four bytes. */
  lemma CharUnits(s: Bytes)
    requires Valid(s) && s != []
    ensures Utf8Codec.ReadBytes(s).1 == |First(s)|
    ensures |Utf8Codec.Units(Utf8Codec.ReadBytes(s).0)| == Units(s[0])
  {
    FirstAndRest(s);
    Utf8Codec.ReadChar(First(s), Rest(s));
  }

  lemma {:induction false} DecodedCountsLeads(s: Bytes)
    requires Valid(s)
    ensures |Utf8Codec.Decoded(s)| == LeadUnits(s, 0, |s|)
    decreases |s|
  {
    hide Utf8Codec.ReadBytes, Utf8Codec.Units, Units, Valid, LeadUnits;
    if s == [] {
      NoLeads(s);
    } else {
      var n := |First(s)|;
      FirstAndRest(s);
      CharUnits(s);
      DecodedCountsLeads(Rest(s));
      FirstCounts(s);
      LeadUnitsSplit(s, 0, n, |s|);
      SameLeadUnits(Rest(s), 0, s, n, |s| - n);
    }
  }

  lemma NoLeads(s: Bytes)
    ensures LeadUnits(s, 0, 0) == 0
  {}

  lemma FirstCounts(s: Bytes)
    requires Valid(s) && s != []
    ensures LeadUnits(s, 0, |First(s)|) == Units(s[0])
  {
    FirstAndRest(s);
    OneCharCounts(s, 0);
  }

  lemma Utf16LengthCountsLeads(s: Bytes, b: nat)
    requires Valid(s) && b <= |s| && IsBoundary(s, b)
    ensures Utf16Length(s, b) == LeadUnits(s, 0, b)
  {
    Split(s, b);
    DecodedCountsLeads(s[..b]);
    SameLeadUnits(s[..b], 0, s, 0, b);
  }

  /** On boundaries the count is the length in UTF-16 of the text before. */
  lemma ToUtf16IsUtf16Length(s: Bytes, b: nat)
    requires Valid(s) && b <= |s| && IsBoundary(s, b)
    ensures ToUtf16(s, 0, b) == Utf16Length(s, b)
  {
    hide Utf16Length;
    ToUtf16CountsLeads(s, 0, b);
    Utf16LengthCountsLeads(s, b);
  }

  /** `FromUtf16` is the least boundary up to which the text has at least that many units, and the
      end of the text when there are not that many. */
  lemma FromUtf16IsLeastBoundary(s: Bytes, units: nat, b: nat)
    requires Valid(s) && b <= |s| && IsBoundary(s, b)
    ensures var r := FromUtf16(s, 0, units);
            && r <= |s| && IsBoundary(s, r)
            && (r <= b <==> b == |s| || units <= Utf16Length(s, b))
  {
    hide Utf16Length;
    FromUtf16CountsLeads(s, 0, units, b);
    Utf16LengthCountsLeads(s, b);
  }

  // ---- How the two conversions fit together ----

  /** Byte offsets on boundaries survive the trip through UTF-16. */
  lemma FromUndoesTo(s: Bytes, b: nat)
    requires Valid(s) && b <= |s| && IsBoundary(s, b)
    ensures FromUtf16(s, 0, ToUtf16(s, 0, b)) == b
  {
    hide Utf16Length;
    ToUtf16IsUtf16Length(s, b);
    var u := Utf16Length(s, b);
    var r := FromUtf16(s, 0, u);
    FromUtf16IsLeastBoundary(s, u, b);
    FromUtf16IsLeastBoundary(s, u, r);
    if r < b {
      LongerHasMoreUnits(s, r, b);
    }
  }

  lemma LongerHasMoreUnits(s: Bytes, b: nat, c: nat)
    requires Valid(s) && b < c <= |s| && IsBoundary(s, b) && IsBoundary(s, c)
    ensures Utf16Length(s, b) < Utf16Length(s, c)
  {
    hide Utf16Length;
    Utf16LengthCountsLeads(s, b);
    Utf16LengthCountsLeads(s, c);
    LeadUnitsSplit(s, 0, b, c);
    OneCharCounts(s, b);
    LeadUnitsSplit(s, b, Next(s, b), c);
  }

  /** A UTF-16 offset survives the trip through bytes exactly when it is the offset of a character,
      that is, neither beyond the text nor between the two halves of a surrogate pair. */
  lemma ToUndoesFromIff(s: Bytes, units: nat)
    requires Valid(s)
    ensures ToUtf16(s, 0, FromUtf16(s, 0, units)) == units
            <==> exists b: nat :: b <= |s| && IsBoundary(s, b) && Utf16Length(s, b) == units
  {
    hide Utf16Length;
    var r := FromUtf16(s, 0, units);
    FromUtf16IsLeastBoundary(s, units, |s|);
    ToUtf16IsUtf16Length(s, r);
    if b: nat :| b <= |s| && IsBoundary(s, b) && Utf16Length(s, b) == units {
      ToUtf16IsUtf16Length(s, b);
      FromUndoesTo(s, b);
    }
  }

  /** Both conversions keep order, `ToUtf16` strictly on boundaries. */
  lemma ConversionsAreMonotone(s: Bytes, u: nat, v: nat, b: nat, c: nat)
    requires Valid(s) && u <= v && b < c <= |s| && IsBoundary(s, b) && IsBoundary(s, c)
    ensures FromUtf16(s, 0, u) <= FromUtf16(s, 0, v)
    ensures ToUtf16(s, 0, b) < ToUtf16(s, 0, c)
  {
    hide Utf16Length;
    FromIsMonotone(s, u, v);
    ToUtf16IsUtf16Length(s, b);
    ToUtf16IsUtf16Length(s, c);
    LongerHasMoreUnits(s, b, c);
  }

  lemma FromIsMonotone(s: Bytes, u: nat, v: nat)
    requires Valid(s) && u <= v
    ensures FromUtf16(s, 0, u) <= FromUtf16(s, 0, v) <= |s|
    ensures IsBoundary(s, FromUtf16(s, 0, u)) && IsBoundary(s, FromUtf16(s, 0, v))
  {
    hide Utf16Length;
    FromUtf16IsLeastBoundary(s, u, |s|);
    FromUtf16IsLeastBoundary(s, v, |s|);
    var r := FromUtf16(s, 0, v);
    FromUtf16IsLeastBoundary(s, v, r);
    FromUtf16IsLeastBoundary(s, u, r);
  }

  /** The offset `b` is what `units` denote in `s`: the first boundary with that many units before it,
      or else the end of the text. */
  ghost predicate Denotes(s: Bytes, units: nat, b: nat) {
    && b <= |s| && IsBoundary(s, b)
    && (b == |s| || units <= Utf16Length(s, b))
    && forall c: nat :: c < b && IsBoundary(s, c) ==> Utf16Length(s, c) < units
  }

  lemma FromUtf16Denotes(s: Bytes, units: nat)
    requires Valid(s)
    ensures Denotes(s, units, FromUtf16(s, 0, units))
  {
    hide Utf16Length;
    var r := FromUtf16(s, 0, units);
    FromUtf16IsLeastBoundary(s, units, 0);
    FromUtf16IsLeastBoundary(s, units, r);
    forall c: nat | c < r && IsBoundary(s, c)
      ensures Utf16Length(s, c) < units
    {
      FromUtf16IsLeastBoundary(s, units, c);
    }
  }

  // ---- Ranges ----

  function RangeFromUtf16(s: Bytes, range: Range): Range {
    Range(FromUtf16(s, 0, range.start), FromUtf16(s, 0, range.end))
  }

  /** A range whose ends count UTF-16 units from the byte offset `from`. */
  function RangeFromRelativeUtf16(s: Bytes, from: nat, range: Range): Range {
    RangeFromUtf16(s, Range(ToUtf16(s, 0, from) + range.start, ToUtf16(s, 0, from) + range.end))
  }

  /** Any ordered UTF-16 range lands on an ordered range of whole characters inside the text. */
  lemma RangeFromUtf16Fits(s: Bytes, range: Range)
    requires Valid(s) && range.start <= range.end
    ensures Fits(s, RangeFromUtf16(s, range))
  {
    FromIsMonotone(s, range.start, range.end);
  }

  /** Both ends of a range are what its units denote. */
  lemma RangeFromUtf16Denotes(s: Bytes, range: Range)
    requires Valid(s)
    ensures Denotes(s, range.start, RangeFromUtf16(s, range).start)
    ensures Denotes(s, range.end, RangeFromUtf16(s, range).end)
  {
    hide Denotes;
    FromUtf16Denotes(s, range.start);
    FromUtf16Denotes(s, range.end);
  }

  /** The ends of a relative range are counted from the units before its base. */
  lemma RelativeRangeDenotes(s: Bytes, from: nat, range: Range)
    requires Valid(s) && from <= |s| && IsBoundary(s, from)
    ensures Denotes(s, Utf16Length(s, from) + range.start, RangeFromRelativeUtf16(s, from, range).start)
    ensures Denotes(s, Utf16Length(s, from) + range.end, RangeFromRelativeUtf16(s, from, range).end)
  {
    hide Denotes, Utf16Length;
    ToUtf16IsUtf16Length(s, from);
    RangeFromUtf16Denotes(s, Range(ToUtf16(s, 0, from) + range.start, ToUtf16(s, 0, from) + range.end));
  }

  /** A range relative to `from` does not start before it, and the empty one stays there. */
  lemma RelativeRangeStartsAtBase(s: Bytes, from: nat, range: Range)
    requires Valid(s) && from <= |s| && IsBoundary(s, from) && range.start <= range.end
    ensures Fits(s, RangeFromRelativeUtf16(s, from, range))
    ensures from <= RangeFromRelativeUtf16(s, from, range).start
    ensures range == Range(0, 0) ==> RangeFromRelativeUtf16(s, from, range) == Range(from, from)
  {
    var u := ToUtf16(s, 0, from);
    RangeFromUtf16Fits(s, Range(u + range.start, u + range.end));
    FromUndoesTo(s, from);
    FromIsMonotone(s, u, u + range.start);
  }
}
