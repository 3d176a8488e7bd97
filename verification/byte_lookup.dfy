/**
  What `lookup(start, end)` returns, stated against the decimal texts of
  `start`..`end`: the patterns of the source cover the interval except when
  `end` is a multiple of 10 reached from below, where the last text is that
  of `start` instead of `end`; the corrected lookup covers every interval.
  Also the pattern shapes the tests `TestByte2Odd` and `TestByte4Odd`
  expect for intervals of two and four bytes, and two intervals of the
  test `TestCIDR2HCMaskGroupTens` and of the source's own comments.
 */
module ByteLookup {
  import opened Wrappers
  import opened Decimal
  import opened Byte
  import opened ByteCoverage

  /** What `lookup(start, end)` as written expands to: `start`..`end - 1`, then the text of `FinalValue`. */
  lemma LookupExpansion(start: nat, end: nat)
    requires start <= end <= 255
    ensures ExpandAll(Lookup(start, end))
      == Some(Decimals(start, end - 1) + [Itoa(if end % 10 != 0 then end else start)])
  {
    WalkExpansion(start, start, end, false);
  }

  /** The corrected lookup stands for exactly the bytes `start`..`end`, in order. */
  lemma LookupFixedCovers(start: nat, end: nat)
    requires start <= end <= 255
    ensures ExpandAll(LookupFixed(start, end)) == Some(Decimals(start, end))
  {
    WalkExpansion(start, start, end, true);
    DecimalsSnoc(start, end);
  }

  /** Two expansions that end in the texts of different numbers differ. */
  lemma LastTextDiffers(a: seq<string>, b: seq<string>, m: nat, n: nat)
    requires m != n
    ensures a + [Itoa(m)] != b + [Itoa(n)]
  {
    if a + [Itoa(m)] == b + [Itoa(n)] {
      assert Itoa(m) == (a + [Itoa(m)])[|a|];
      ItoaInjective(m, n);
    }
  }

  /**
    `lookup` as written stands for exactly `start`..`end` if and only if the
    interval is a single byte or `end` is not a multiple of 10.
   */
  lemma LookupCovers(start: nat, end: nat)
    requires start <= end <= 255
    ensures ExpandAll(Lookup(start, end)) == Some(Decimals(start, end)) <==> start == end || end % 10 != 0
  {
    LookupExpansion(start, end);
    DecimalsSnoc(start, end);
    if start < end && end % 10 == 0 {
      LastTextDiffers(Decimals(start, end - 1), Decimals(start, end - 1), start, end);
    }
  }

  /** The smallest interval the defect shows on: 0..10 gives `?d` and `0`, so 0 twice and no 10. */
  lemma LookupZeroTen()
    ensures Lookup(0, 10) == ["?d", "0"]
    ensures ExpandAll(Lookup(0, 10)) == Some(Decimals(0, 9) + ["0"])
  {
    LookupExpansion(0, 10);
    assert SeedRow(0) == DecadeRow(0, 0, 0, "?d");
    assert DecadeRow(0, 0, 0, "?d") == [RangeMask(9, Prefix(0) + Mask0to9)];
    assert Prefix(0) + Mask0to9 == "?d";
    assert ScanRow(SeedRow(0), 10) == Below(0);
    WalkStepBelow(0, 0, 10, false, 0);
    WalkStepEnd(0, 10, false);
  }

  /** The as-written and the corrected walks agree wherever the walk cannot land on `end` from below. */
  lemma {:induction false} WalkAgree(start: nat, s: nat, end: nat)
    requires s <= end <= 255
    requires s == start || s % 10 == 0
    requires end % 10 != 0 || start == s == end
    ensures Walk(start, s, end, false) == Walk(start, s, end, true)
    decreases end - s
  {
    hide Fragment, SeedRow, DecadeRow, UnitMask, ScanRow, Boundary, Walk, Itoa;
    if s == end {
      WalkStepEnd(start, s, false);
      WalkStepEnd(start, s, true);
    } else {
      match ScanRow(SeedRow(s), end)
      case Exact(k) =>
        WalkStepExact(start, s, end, false, k);
        WalkStepExact(start, s, end, true, k);
      case Below(k) =>
        WalkStepBelow(start, s, end, false, k);
        WalkStepBelow(start, s, end, true, k);
        var e := SeedRow(s)[k].end;
        assert e % 10 == 9;
        WalkAgree(start, e + 1, end);
      case NoFit =>
        if s / 10 < end / 10 {
          var next := Boundary(s, end);
          WalkStepSplit(start, s, end, false);
          WalkStepSplit(start, s, end, true);
          WalkAgree(s, s, next - 1);
          WalkAgree(start, next, end);
        } else {
          WalkStepUnits(start, s, end, false);
          WalkStepUnits(start, s, end, true);
        }
    }
  }

  /** The correction changes `lookup` exactly on the intervals the defect affects. */
  lemma LookupAgrees(start: nat, end: nat)
    requires start <= 255 && end <= 255
    ensures Lookup(start, end) == LookupFixed(start, end) <==> start >= end || end % 10 != 0
  {
    if start < end && end % 10 == 0 {
      LookupCovers(start, end);
      LookupFixedCovers(start, end);
    } else if start <= end {
      WalkAgree(start, start, end);
    }
  }

  /** A byte row other than a seeded decade start or 250 stores no interval. */
  lemma UnseededRow(s: nat)
    requires s < 256 && s != 250 && (s % 10 != 0 || s > 240)
    ensures SeedRow(s) == []
  {
  }

  /** No stored interval of row `s` ends within 4 bytes of `s`. */
  lemma ShortNoFit(s: nat, end: nat)
    requires s < end <= s + 4 && end <= 255
    ensures ScanRow(SeedRow(s), end) == NoFit
  {
    hide DecadeRow;
  }

  /** Two bytes `i`, `i + 1` with `i` even: one pattern declaring the two last digits as `?4`. */
  lemma LookupPair(i: nat)
    requires i % 2 == 0 && i < 255
    ensures Lookup(i, i + 1) == [Digits(i % 10, i % 10 + 1) + "," + Prefix(i / 10) + "?4"]
  {
    ShortNoFit(i, i + 1);
    WalkStepUnits(i, i, i + 1, false);
  }

  /** Four bytes `i`..`i + 3` inside one decade: one pattern declaring the four last digits as `?4`. */
  lemma LookupQuad(i: nat)
    requires i % 2 == 0 && i + 3 <= 255 && i % 10 <= 6
    ensures Lookup(i, i + 3) == [Digits(i % 10, i % 10 + 3) + "," + Prefix(i / 10) + "?4"]
  {
    ShortNoFit(i, i + 3);
    WalkStepUnits(i, i, i + 3, false);
  }

  /** A decade's last two bytes and the next decade's first two are split at the decade boundary. */
  lemma AcrossBoundary(i: nat)
    requires i + 3 <= 255 && i % 10 == 8
    ensures i / 10 < (i + 3) / 10 && Boundary(i, i + 3) == i + 2
  {
  }

  /** The walk over a pair of bytes `s`, `s + 1` with `s` even is its units pattern. */
  lemma WalkPair(start: nat, s: nat)
    requires s % 2 == 0 && s < 255
    ensures Walk(start, s, s + 1, false) == [UnitMask(s / 10, s % 10, s % 10 + 1)]
  {
    hide Walk, UnitMask;
    ShortNoFit(s, s + 1);
    WalkStepUnits(start, s, s + 1, false);
  }

  /** Four bytes `i`..`i + 3` across a decade boundary: `89` of the first decade, then `01` of the next. */
  lemma LookupQuadAcross(i: nat)
    requires i + 3 <= 255 && i % 10 == 8
    ensures Lookup(i, i + 3) == ["89," + Prefix(i / 10) + "?4", "01," + Prefix(i / 10 + 1) + "?4"]
  {
    hide Walk, SeedRow, ScanRow, Boundary, DecadeRow, Fragment, ExpandAll, UnitMask, Prefix;
    ShortNoFit(i, i + 3);
    AcrossBoundary(i);
    WalkStepSplit(i, i, i + 3, false);
    WalkPair(i, i);
    WalkPair(i, i + 2);
    assert i % 10 == 8 && (i + 2) / 10 == i / 10 + 1 && (i + 2) % 10 == 0;
    UnitPairText(i / 10, 8, "89,");
    UnitPairText(i / 10 + 1, 0, "01,");
  }

  /** The pattern of a pair of units that no fixed charset covers. */
  lemma UnitPairText(q: nat, u: nat, head: string)
    requires u % 2 == 0 && u <= 8 && head == Digits(u, u + 1) + ","
    ensures UnitMask(q, u, u + 1) == head + Prefix(q) + "?4"
  {
  }

  /** The units 2..9 of decade 30: no stored interval starts at 32. */
  lemma WalkThirtyTwo()
    ensures Walk(32, 32, 39, false) == ["23456789,3?4"]
  {
    hide Walk, SeedRow, ScanRow;
    UnseededRow(32);
    WalkStepUnits(32, 32, 39, false);
    assert UnitMask(3, 2, 9) == Digits(2, 9) + "," + Prefix(3) + "?4";
    assert Digits(2, 9) == "23456789" && Prefix(3) == "3";
    assert "23456789" + "," + "3" + "?4" == "23456789,3?4";
  }

  /** The scan stops below `end` at the first entry that does not overshoot it, when that entry ends below `end`. */
  lemma ScanBelowAt(row: seq<RangeMask>, end: nat, k: nat)
    requires k < |row| && row[k].end < end
    requires forall j | 0 <= j < k :: row[j].end > end
    ensures ScanRow(row, end) == Below(k)
  {
    hide ScanFrom;
  }

  /** The row of 40 holds the groups ending at 99, 89, 79 and 69, all past 63, then 40..59 declared by the tens `45`. */
  lemma RowForty()
    ensures ScanRow(SeedRow(40), 63) == Below(4)
    ensures SeedRow(40)[4] == RangeMask(59, "45,?4?d")
  {
    hide SeedRow, DecadeRow, ScanRow;
    SeedRowDecade(40);
    DecadeRowEnds(40, 4, 5, "?4?d");
    DecadeRowEntry(40, 4, 5, "?4?d", 4);
    ScanBelowAt(SeedRow(40), 63, 4);
    assert Digits(4, 5) == "45";
  }

  /** The units 0..3 of decade 60: every stored group of 60 ends past 63. */
  lemma WalkSixty(start: nat)
    ensures Walk(start, 60, 63, false) == ["0123,6?4"]
  {
    hide Walk, SeedRow, ScanRow, DecadeRow;
    SeedRowDecade(60);
    DecadeRowEnds(60, 6, 3, "?4?d");
    assert ScanRow(SeedRow(60), 63) == NoFit;
    WalkStepUnits(start, 60, 63, false);
    assert UnitMask(6, 0, 3) == Digits(0, 3) + "," + Prefix(6) + "?4";
    assert Digits(0, 3) == "0123" && Prefix(6) == "6";
    assert "0123" + "," + "6" + "?4" == "0123,6?4";
  }

  /** Bytes 32..63: the units 2..9 of decade 30, the grouped decades 40..59, then the units 0..3 of decade 60. */
  lemma LookupThirtyTwoSixtyThree()
    ensures Lookup(32, 63) == ["23456789,3?4", "45,?4?d", "0123,6?4"]
  {
    hide Walk, SeedRow, ScanRow, Boundary;
    UnseededRow(32);
    assert ScanRow(SeedRow(32), 63) == NoFit;
    assert Boundary(32, 63) == 40;
    WalkStepSplit(32, 32, 63, false);
    WalkThirtyTwo();
    RowForty();
    WalkStepBelow(32, 40, 63, false, 4);
    WalkSixty(32);
  }

  /** The scan stops at an entry that ends exactly at `end` when every entry before it overshoots. */
  lemma ScanExactAt(row: seq<RangeMask>, end: nat, k: nat)
    requires k < |row| && row[k].end == end
    requires forall j | 0 <= j < k :: row[j].end > end
    ensures ScanRow(row, end) == Exact(k)
  {
    hide ScanFrom;
  }

  /**
    From a seeded decade start `s` to the end of a later decade `j` of the
    same seeding range: the one stored group, declaring the tens digits of
    `s` through `j`.
   */
  lemma LookupGroup(s: nat, j: nat)
    requires s % 10 == 0 && s <= 240 && s / 10 % 10 < j <= LastTens(s)
    ensures s + 10 * (j - s / 10 % 10) + 9 <= 255
    ensures Lookup(s, s + 10 * (j - s / 10 % 10) + 9) == [Digits(s / 10 % 10, j) + "," + GroupMask(s)]
  {
    hide Walk, SeedRow, ScanRow, DecadeRow;
    var i, k := s / 10 % 10, LastTens(s) - s / 10 % 10;
    var end := s + 10 * (j - i) + 9;
    SeedRowDecade(s);
    DecadeRowEnds(s, i, k, GroupMask(s));
    DecadeRowEntry(s, i, k, GroupMask(s), k - (j - i));
    ScanExactAt(SeedRow(s), end, k - (j - i));
    WalkStepExact(s, s, end, false, k - (j - i));
  }

  /** The groups the comment on `insertRangesTen` lists: 10..29, 10..39 and 150..189. */
  lemma LookupCommentGroups()
    ensures Lookup(10, 29) == ["12,?4?d"]
    ensures Lookup(10, 39) == ["123,?4?d"]
    ensures Lookup(150, 189) == ["5678,1?4?d"]
  {
    hide Lookup;
    LookupGroup(10, 2);
    assert Digits(1, 2) == "12" && GroupMask(10) == "?4?d";
    assert "12" + "," + "?4?d" == "12,?4?d";
    LookupGroup(10, 3);
    assert Digits(1, 3) == "123";
    assert "123" + "," + "?4?d" == "123,?4?d";
    LookupGroup(150, 8);
    assert Digits(5, 8) == "5678" && GroupMask(150) == "1?4?d";
    assert "5678" + "," + "1?4?d" == "5678,1?4?d";
  }

  /** Bytes 100..199: the stored group spanning the whole hundred, declared by its tens digits. */
  lemma LookupHundreds()
    ensures Lookup(100, 199) == ["0123456789,1?4?d"]
  {
    hide Lookup;
    LookupGroup(100, 9);
    assert Digits(0, 9) == "0123456789" && GroupMask(100) == "1?4?d";
    assert "0123456789" + "," + "1?4?d" == "0123456789,1?4?d";
  }
}
