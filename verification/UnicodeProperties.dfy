/** Membership in the pinned property tables by binary search. */
module UnicodeProperties {

  datatype Range = Range(first: nat, last: nat)

  ghost predicate SortedRanges(ranges: seq<Range>) {
    && (forall i :: 0 <= i < |ranges| ==> ranges[i].first <= ranges[i].last)
    && (forall i, j :: 0 <= i < j < |ranges| ==> ranges[i].last < ranges[j].first)
  }

  predicate InSome(ranges: seq<Range>, cp: nat) {
    exists i :: 0 <= i < |ranges| && ranges[i].first <= cp <= ranges[i].last
  }

  // On a sorted table the halving search finds a range exactly when one holds
  // the code point.
  method InRanges(ranges: seq<Range>, cp: nat) returns (found: bool)
    requires SortedRanges(ranges)
    ensures found == InSome(ranges, cp)
  {
    var lo, hi := 0, |ranges|;
    while lo < hi
      invariant 0 <= lo <= hi <= |ranges|
      invariant forall i :: 0 <= i < lo ==> ranges[i].last < cp
      invariant forall i :: hi <= i < |ranges| ==> cp < ranges[i].first
    {
      var mid := lo + (hi - lo) / 2;
      if cp < ranges[mid].first {
        hi := mid;
      } else if cp > ranges[mid].last {
        lo := mid + 1;
      } else {
        return true;
      }
    }
    return false;
  }

  // Default_Ignorable_Code_Point, Unicode 17.0.0.
  const DEFAULT_IGNORABLE: seq<Range> := [
    Range(0x00AD, 0x00AD), Range(0x034F, 0x034F), Range(0x061C, 0x061C),
    Range(0x115F, 0x1160), Range(0x17B4, 0x17B5), Range(0x180B, 0x180F),
    Range(0x200B, 0x200F), Range(0x202A, 0x202E), Range(0x2060, 0x206F),
    Range(0x3164, 0x3164), Range(0xFE00, 0xFE0F), Range(0xFEFF, 0xFEFF),
    Range(0xFFA0, 0xFFA0), Range(0xFFF0, 0xFFF8), Range(0x1BCA0, 0x1BCA3),
    Range(0x1D173, 0x1D17A), Range(0xE0000, 0xE0FFF)]

  // White_Space.
  const WHITE_SPACE: seq<Range> := [
    Range(0x0009, 0x000D), Range(0x0020, 0x0020), Range(0x0085, 0x0085),
    Range(0x00A0, 0x00A0), Range(0x1680, 0x1680), Range(0x2000, 0x200A),
    Range(0x2028, 0x2029), Range(0x202F, 0x202F), Range(0x205F, 0x205F),
    Range(0x3000, 0x3000)]

  // General_Category Cc.
  const CONTROL: seq<Range> := [Range(0x0000, 0x001F), Range(0x007F, 0x009F)]

  // General_Category Cf.
  const FORMAT_CONTROL: seq<Range> := [
    Range(0x00AD, 0x00AD), Range(0x0600, 0x0605), Range(0x061C, 0x061C),
    Range(0x06DD, 0x06DD), Range(0x070F, 0x070F), Range(0x0890, 0x0891),
    Range(0x08E2, 0x08E2), Range(0x180E, 0x180E), Range(0x200B, 0x200F),
    Range(0x202A, 0x202E), Range(0x2060, 0x206F), Range(0xFEFF, 0xFEFF),
    Range(0xFFF9, 0xFFFB), Range(0x110BD, 0x110CD), Range(0x13430, 0x1343F),
    Range(0x1BCA0, 0x1BCA3), Range(0x1D173, 0x1D17A), Range(0xE0001, 0xE0001),
    Range(0xE0020, 0xE007F)]

  lemma TableSorted()
    ensures SortedRanges(DEFAULT_IGNORABLE)
  {
    NeighboursSorted(DEFAULT_IGNORABLE, |DEFAULT_IGNORABLE|);
    assert DEFAULT_IGNORABLE[..|DEFAULT_IGNORABLE|] == DEFAULT_IGNORABLE;
  }

  lemma OtherTablesSorted()
    ensures SortedRanges(WHITE_SPACE) && SortedRanges(CONTROL) && SortedRanges(FORMAT_CONTROL)
  {
    NeighboursSorted(WHITE_SPACE, |WHITE_SPACE|);
    NeighboursSorted(CONTROL, |CONTROL|);
    NeighboursSorted(FORMAT_CONTROL, |FORMAT_CONTROL|);
    assert WHITE_SPACE[..|WHITE_SPACE|] == WHITE_SPACE && CONTROL[..|CONTROL|] == CONTROL;
    assert FORMAT_CONTROL[..|FORMAT_CONTROL|] == FORMAT_CONTROL;
  }

  // Comparing neighbours is enough.
  lemma {:induction false} NeighboursSorted(ranges: seq<Range>, n: nat)
    requires n <= |ranges|
    requires forall i :: 0 <= i < |ranges| ==>
               ranges[i].first <= ranges[i].last && (i > 0 ==> ranges[i - 1].last < ranges[i].first)
    ensures SortedRanges(ranges[..n])
  {
    if n > 0 {
      NeighboursSorted(ranges, n - 1);
      var front := ranges[..n - 1];
      forall i, j | 0 <= i < j < n
        ensures ranges[i].last < ranges[j].first
      {
        if j == n - 1 && i < n - 2 {
          assert front[i].last < front[n - 2].first;
        } else {
          assert j < n - 1 ==> front[i].last < front[j].first;
        }
      }
    }
  }

  predicate Ignorable(cp: nat) {
    InSome(DEFAULT_IGNORABLE, cp)
  }

  method IsIgnorable(cp: nat) returns (r: bool)
    ensures r == Ignorable(cp)
  {
    TableSorted();
    r := InRanges(DEFAULT_IGNORABLE, cp);
  }

  predicate WhiteSpace(cp: nat) {
    InSome(WHITE_SPACE, cp)
  }

  predicate Control(cp: nat) {
    InSome(CONTROL, cp)
  }

  predicate FormatControl(cp: nat) {
    InSome(FORMAT_CONTROL, cp)
  }

  method Properties(cp: nat) returns (space: bool, control: bool, format: bool)
    ensures space == WhiteSpace(cp) && control == Control(cp) && format == FormatControl(cp)
  {
    OtherTablesSorted();
    hide SortedRanges, InSome;
    space := InRanges(WHITE_SPACE, cp);
    control := InRanges(CONTROL, cp);
    format := InRanges(FORMAT_CONTROL, cp);
  }

  // The isolate controls U+2066 to U+2069 are themselves ignorable.
  lemma IsolatesIgnorable(cp: nat)
    requires 0x2066 <= cp <= 0x2069
    ensures Ignorable(cp)
  {
    assert DEFAULT_IGNORABLE[8] == Range(0x2060, 0x206F);
  }
}
