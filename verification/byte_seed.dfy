/**
  The seeding of the range table: running `init` (a sequence of ordered
  insertions) never panics and yields exactly the closed-form table that
  `lookup` reads.
 */
module ByteSeed {
  import opened Wrappers
  import opened Decimal
  import opened Byte
  import opened Seqs

  /** Inserting an end above every stored end puts the new entry in front. */
  lemma InsertFront(rr: seq<RangeMask>, e: nat, mask: string)
    requires |rr| == 0 || rr[0].end < e
    ensures Insert(rr, e, mask) == Some([RangeMask(e, mask)] + rr)
  {
    if |rr| > 0 {
      assert IndexFrom(rr, e, 0) == -1;
      assert Index(rr, e) == -1;
      assert SortedInsert(rr, RangeMask(e, mask)) == [RangeMask(e, mask)] + rr;
    } else {
      assert [RangeMask(e, mask)] + rr == [RangeMask(e, mask)];
    }
  }

  /** The entries the inner loop of `insertRangesTen` adds, from rounds `j`..`e`, widest group first. */
  function Groups(start: nat, i: nat, j: nat, e: nat, charset: string, mask: string): (r: seq<RangeMask>)
    requires i < j <= e + 1 && e <= 9
    requires start + (e - i) * 10 + 9 <= 255
    ensures |r| == e + 1 - j
    decreases e + 1 - j
  {
    if j > e then []
    else
      var cs := charset + [DigitChar(j)];
      Groups(start, i, j + 1, e, cs, mask) + [RangeMask(start + (j - i) * 10 + 9, cs + "," + mask)]
  }

  /** One round of the inner loop: the group of rounds i..j goes in front of the row. */
  lemma GroupLoopUnfold(row: seq<RangeMask>, start: nat, i: nat, j: nat, e: nat, charset: string, mask: string)
    requires i < j <= e && e <= 9
    requires start + (e - i) * 10 + 9 <= 255
    requires |row| == 0 || row[0].end < start + (j - i) * 10 + 9
    ensures GroupLoop(row, start, i, j, e, charset, mask)
      == GroupLoop([RangeMask(start + (j - i) * 10 + 9, charset + [DigitChar(j)] + "," + mask)] + row,
                   start, i, j + 1, e, charset + [DigitChar(j)], mask)
  {
    InsertFront(row, start + (j - i) * 10 + 9, charset + [DigitChar(j)] + "," + mask);
  }

  /** The inner loop of `insertRangesTen` puts its groups in front of the row it starts from. */
  lemma {:induction false} GroupLoopPrepends(row: seq<RangeMask>, start: nat, i: nat, j: nat, e: nat, charset: string, mask: string)
    requires i < j <= e + 1 && e <= 9
    requires start + (e - i) * 10 + 9 <= 255
    requires |row| == 0 || row[0].end < start + (j - i) * 10 + 9
    ensures GroupLoop(row, start, i, j, e, charset, mask) == Some(Groups(start, i, j, e, charset, mask) + row)
    decreases e + 1 - j
  {
    if j <= e {
      var cs := charset + [DigitChar(j)];
      var x := RangeMask(start + (j - i) * 10 + 9, cs + "," + mask);
      GroupLoopUnfold(row, start, i, j, e, charset, mask);
      GroupLoopPrepends([x] + row, start, i, j + 1, e, cs, mask);
      AppendAssoc(Groups(start, i, j + 1, e, cs, mask), [x], row);
      assert Groups(start, i, j, e, charset, mask) == Groups(start, i, j + 1, e, cs, mask) + [x];
    } else {
      assert [] + row == row;
    }
  }

  /** The decade row of the groups up to tens digit `v + 1`, by its widest group. */
  lemma DecadeRowUnfold(start: nat, i: nat, v: nat, mask: string)
    requires i <= v && v + 1 <= 9 && start + (v + 1 - i) * 10 + 9 <= 255
    ensures DecadeRow(start, i, v + 1 - i, mask)
      == [RangeMask(start + (v + 1 - i) * 10 + 9, Digits(i, v + 1) + "," + mask)] + DecadeRow(start, i, v - i, mask)
  {
  }

  /** The groups of rounds `v + 1`..`e` in front of the decade row up to tens digit `v` make the row up to `e`. */
  lemma {:induction false} GroupsComplete(start: nat, i: nat, v: nat, e: nat, mask: string)
    requires i <= v <= e <= 9
    requires start + (e - i) * 10 + 9 <= 255
    ensures Groups(start, i, v + 1, e, Digits(i, v), mask) + DecadeRow(start, i, v - i, mask) == DecadeRow(start, i, e - i, mask)
    decreases e - v
  {
    hide DecadeRow, Digits;
    if v + 1 <= e {
      DigitsSnoc(i, v);
      var x := RangeMask(start + (v + 1 - i) * 10 + 9, Digits(i, v + 1) + "," + mask);
      var rest := Groups(start, i, v + 1 + 1, e, Digits(i, v + 1), mask);
      assert Groups(start, i, v + 1, e, Digits(i, v), mask) == rest + [x];
      AppendAssoc(rest, [x], DecadeRow(start, i, v - i, mask));
      DecadeRowUnfold(start, i, v, mask);
      GroupsComplete(start, i, v + 1, e, mask);
    } else {
      assert Groups(start, i, v + 1, e, Digits(i, v), mask) == [];
      assert [] + DecadeRow(start, i, v - i, mask) == DecadeRow(start, i, v - i, mask);
    }
  }

  /** The inner loop as `insertRangesTen` enters it, right after the decade itself was inserted. */
  lemma GroupLoopFirst(start: nat, i: nat, e: nat, mask: string)
    requires i <= e <= 9
    requires start + (e - i) * 10 + 9 <= 255
    ensures GroupLoop(DecadeRow(start, i, 0, mask), start, i, i + 1, e, [DigitChar(i)], mask)
      == Some(DecadeRow(start, i, e - i, mask))
  {
    hide DecadeRow, GroupLoop, Groups;
    GroupLoopPrepends(DecadeRow(start, i, 0, mask), start, i, i + 1, e, [DigitChar(i)], mask);
    assert [DigitChar(i)] == Digits(i, i);
    assert i - i == 0;
    GroupsComplete(start, i, i, e, mask);
  }

  /** Rows `start`, `start + 10`, .. of the decades with tens digits `i`..`e`. */
  predicate InDecades(r: int, start: nat, i: nat, e: nat) {
    i <= e && start <= r <= start + 10 * (e - i) && r % 10 == start % 10
  }

  /** The table `t` after the outer loop of `insertRangesTen` from tens digit `i`. */
  function TensTable(t: Table, start: nat, i: nat, e: nat, mask: string): (r: Table)
    requires |t| == 256
    requires e <= 9
    requires i <= e ==> start + (e - i) * 10 + 9 <= 255
    ensures |r| == 256
  {
    seq(256, r requires 0 <= r < 256 =>
      if InDecades(r, start, i, e) then DecadeRow(r, i + (r - start) / 10, e - i - (r - start) / 10, mask) else t[r])
  }

  /** One round of the outer loop of `insertRangesTen` fills the row of the decade `start`. */
  lemma TensLoopStep(t: Table, start: nat, i: nat, e: nat, mask: string)
    requires |t| == 256
    requires i <= e <= 9
    requires start + (e - i) * 10 + 9 <= 255
    requires start % 10 == 0
    requires t[start] == []
    ensures TensLoop(t, start, i, e, mask) == TensLoop(t[start := DecadeRow(start, i, e - i, mask)], start + 10, i + 1, e, mask)
  {
    var prefix := if start > 0 then Itoa(start / 10) else "";
    assert prefix == Prefix(start / 10);
    var t1 := t[start := DecadeRow(start, i, 0, mask)];
    assert InsertRange(t, start, start + 9, prefix + Mask0to9) == Some(t1);
    GroupLoopFirst(start, i, e, mask);
    assert t1[start] == DecadeRow(start, i, 0, mask);
    UpdateTwice(t, start, DecadeRow(start, i, 0, mask), DecadeRow(start, i, e - i, mask));
  }

  /** Filling the row of the decade `start` and then the later decades is filling all of them. */
  lemma TensTableShift(t: Table, start: nat, i: nat, e: nat, mask: string)
    requires |t| == 256
    requires i <= e <= 9
    requires start + (e - i) * 10 + 9 <= 255
    ensures TensTable(t[start := DecadeRow(start, i, e - i, mask)], start + 10, i + 1, e, mask) == TensTable(t, start, i, e, mask)
  {
    hide DecadeRow;
    var t2 := t[start := DecadeRow(start, i, e - i, mask)];
    forall r | 0 <= r < 256
      ensures TensTable(t2, start + 10, i + 1, e, mask)[r] == TensTable(t, start, i, e, mask)[r]
    {
      if InDecades(r, start + 10, i + 1, e) {
        assert InDecades(r, start, i, e);
        assert (r - start) / 10 == (r - (start + 10)) / 10 + 1;
      } else if r == start {
        assert InDecades(r, start, i, e);
      } else {
        assert !InDecades(r, start, i, e);
      }
    }
  }

  /** The outer loop of `insertRangesTen` fills each decade row of its range, given they were empty. */
  lemma {:induction false} TensLoopResult(t: Table, start: nat, i: nat, e: nat, mask: string)
    requires |t| == 256
    requires i <= e + 1 && e <= 9
    requires i <= e ==> start + (e - i) * 10 + 9 <= 255
    requires start % 10 == 0
    requires forall r | 0 <= r < 256 && InDecades(r, start, i, e) :: t[r] == []
    ensures TensLoop(t, start, i, e, mask) == Some(TensTable(t, start, i, e, mask))
    decreases e + 1 - i
  {
    if i > e {
      assert TensTable(t, start, i, e, mask) == t;
    } else {
      hide TensLoop, TensTable, DecadeRow;
      assert InDecades(start, start, i, e);
      var t2 := t[start := DecadeRow(start, i, e - i, mask)];
      forall r | 0 <= r < 256 && InDecades(r, start + 10, i + 1, e)
        ensures t2[r] == []
      {
        assert InDecades(r, start, i, e);
      }
      calc {
        TensLoop(t, start, i, e, mask);
        { TensLoopStep(t, start, i, e, mask); }
        TensLoop(t2, start + 10, i + 1, e, mask);
        { TensLoopResult(t2, start + 10, i + 1, e, mask); }
        Some(TensTable(t2, start + 10, i + 1, e, mask));
        { TensTableShift(t, start, i, e, mask); }
        Some(TensTable(t, start, i, e, mask));
      }
    }
  }

  /** The table after the four `insertRangesTen` calls of `init`. */
  function DecadesTable(): (t: Table)
    ensures |t| == 256
  {
    seq(256, r requires 0 <= r < 256 => if r == 250 then [] else SeedRow(r))
  }

  /** Row `r` is one of the decade rows the seed `d` fills. */
  predicate Covers(d: DecadeSeed, r: int) {
    InDecades(r, d.start, d.start / 10 % 10, d.end / 10 % 10)
  }

  /** The table after running the seeds as if each filled its decade rows from scratch. */
  function Fill(t: Table, seeds: seq<DecadeSeed>): (r: Table)
    requires |t| == 256
    requires forall k | 0 <= k < |seeds| :: ValidSeed(seeds[k])
    ensures |r| == 256
    decreases |seeds|
  {
    if |seeds| == 0 then t
    else
      var d := seeds[0];
      assert ValidSeed(d);
      Fill(TensTable(t, d.start, d.start / 10 % 10, d.end / 10 % 10, d.mask), seeds[1..])
  }

  /** No two seeds fill the same row. */
  predicate Disjoint(seeds: seq<DecadeSeed>) {
    forall a, b, r | 0 <= a < b < |seeds| && 0 <= r < 256 :: !(Covers(seeds[a], r) && Covers(seeds[b], r))
  }

  /** `TensTable` only changes the rows the seed covers. */
  lemma TensTableOutside(t: Table, d: DecadeSeed, r: nat)
    requires |t| == 256 && ValidSeed(d) && r < 256
    requires !Covers(d, r)
    ensures TensTable(t, d.start, d.start / 10 % 10, d.end / 10 % 10, d.mask)[r] == t[r]
  {
  }

  /** Seeds that fill disjoint, initially empty decade rows never collide: running them is filling their rows. */
  lemma {:induction false} SeedDecadesFill(t: Table, seeds: seq<DecadeSeed>)
    requires |t| == 256
    requires forall k | 0 <= k < |seeds| :: ValidSeed(seeds[k]) && seeds[k].start % 10 == 0
    requires Disjoint(seeds)
    requires forall k, r | 0 <= k < |seeds| && 0 <= r < 256 && Covers(seeds[k], r) :: t[r] == []
    ensures SeedDecades(t, seeds) == Some(Fill(t, seeds))
    decreases |seeds|
  {
    if |seeds| > 0 {
      var d := seeds[0];
      assert ValidSeed(d);
      var i, e := d.start / 10 % 10, d.end / 10 % 10;
      TensLoopResult(t, d.start, i, e, d.mask);
      var t1 := TensTable(t, d.start, i, e, d.mask);
      forall k, r | 0 <= k < |seeds[1..]| && 0 <= r < 256 && Covers(seeds[1..][k], r)
        ensures t1[r] == []
      {
        assert seeds[1..][k] == seeds[k + 1];
        assert !Covers(seeds[0], r);
        TensTableOutside(t, d, r);
      }
      assert Disjoint(seeds[1..]) by {
        forall a, b, r | 0 <= a < b < |seeds[1..]| && 0 <= r < 256
          ensures !(Covers(seeds[1..][a], r) && Covers(seeds[1..][b], r))
        {
          assert seeds[1..][a] == seeds[a + 1] && seeds[1..][b] == seeds[b + 1];
        }
      }
      SeedDecadesFill(t1, seeds[1..]);
    }
  }

  /** A row no seed covers keeps its value. */
  lemma {:induction false} FillOutside(t: Table, seeds: seq<DecadeSeed>, r: nat)
    requires |t| == 256 && r < 256
    requires forall k | 0 <= k < |seeds| :: ValidSeed(seeds[k])
    requires forall k | 0 <= k < |seeds| :: !Covers(seeds[k], r)
    ensures Fill(t, seeds)[r] == t[r]
    decreases |seeds|
  {
    if |seeds| > 0 {
      var d := seeds[0];
      TensTableOutside(t, d, r);
      var t1 := TensTable(t, d.start, d.start / 10 % 10, d.end / 10 % 10, d.mask);
      forall k | 0 <= k < |seeds[1..]|
        ensures !Covers(seeds[1..][k], r)
      {
        assert seeds[1..][k] == seeds[k + 1];
      }
      FillOutside(t1, seeds[1..], r);
    }
  }

  /** A covered row is a whole number of decades past the seed's start, and its decade row fits in the byte. */
  lemma DecadeFits(start: nat, i: nat, e: nat, r: int)
    requires InDecades(r, start, i, e) && start + (e - i) * 10 + 9 <= 255
    ensures var o := (r - start) / 10; o <= e - i && r + 10 * (e - i - o) + 9 <= 255
  {
    assert r - start == 10 * ((r - start) / 10);
  }

  /** The decade row the seed `d` gives the row `r` it covers. */
  function SeededRow(d: DecadeSeed, r: nat): (row: seq<RangeMask>)
    requires ValidSeed(d) && Covers(d, r)
  {
    var i, e := d.start / 10 % 10, d.end / 10 % 10;
    DecadeFits(d.start, i, e, r);
    DecadeRow(r, i + (r - d.start) / 10, e - i - (r - d.start) / 10, d.mask)
  }

  /** A row the `k`-th seed covers ends up as that seed's decade row. */
  lemma {:induction false} FillInside(t: Table, seeds: seq<DecadeSeed>, k: nat, r: nat)
    requires |t| == 256 && r < 256 && k < |seeds|
    requires forall k | 0 <= k < |seeds| :: ValidSeed(seeds[k])
    requires Disjoint(seeds)
    requires Covers(seeds[k], r)
    ensures Fill(t, seeds)[r] == SeededRow(seeds[k], r)
    decreases |seeds|
  {
    hide DecadeRow;
    var d := seeds[0];
    var t1 := TensTable(t, d.start, d.start / 10 % 10, d.end / 10 % 10, d.mask);
    forall a | 0 <= a < |seeds[1..]|
      ensures ValidSeed(seeds[1..][a])
    {
      assert seeds[1..][a] == seeds[a + 1];
    }
    if k == 0 {
      forall a | 0 <= a < |seeds[1..]|
        ensures !Covers(seeds[1..][a], r)
      {
        assert seeds[1..][a] == seeds[a + 1];
      }
      FillOutside(t1, seeds[1..], r);
    } else {
      assert seeds[1..][k - 1] == seeds[k];
      assert Disjoint(seeds[1..]) by {
        forall a, b, r | 0 <= a < b < |seeds[1..]| && 0 <= r < 256
          ensures !(Covers(seeds[1..][a], r) && Covers(seeds[1..][b], r))
        {
          assert seeds[1..][a] == seeds[a + 1] && seeds[1..][b] == seeds[b + 1];
        }
      }
      FillInside(t1, seeds[1..], k - 1, r);
    }
  }

  /** The decade rows each seeding call of `init` fills. */
  lemma SeedRanges(seeds: seq<DecadeSeed>, r: int)
    requires seeds == DecadeSeeds
    ensures |seeds| == 4
    ensures forall k | 0 <= k < 4 :: ValidSeed(seeds[k]) && seeds[k].start % 10 == 0
    ensures Covers(seeds[0], r) <==> r == 0
    ensures Covers(seeds[1], r) <==> 10 <= r <= 90 && r % 10 == 0
    ensures Covers(seeds[2], r) <==> 100 <= r <= 190 && r % 10 == 0
    ensures Covers(seeds[3], r) <==> 200 <= r <= 240 && r % 10 == 0
  {
  }

  /** The seeding calls of `init` fill disjoint rows. */
  lemma SeedsDisjoint(seeds: seq<DecadeSeed>)
    requires seeds == DecadeSeeds
    ensures Disjoint(seeds)
  {
    forall a, b, r | 0 <= a < b < |seeds| && 0 <= r < 256
      ensures !(Covers(seeds[a], r) && Covers(seeds[b], r))
    {
      SeedRanges(seeds, r);
    }
  }

  /** The tens digit of a row `r` a decade seed starting at `s` covers is the seed's plus the offset in decades. */
  lemma DecadeOffset(s: nat, r: nat, e: nat)
    requires s % 10 == 0 && r % 10 == s % 10
    requires s / 10 % 10 <= e <= 9 && s <= r <= s + 10 * (e - s / 10 % 10)
    ensures s / 10 % 10 + (r - s) / 10 == r / 10 % 10
    ensures r / 10 % 10 <= e
    ensures r == s + 10 * (r / 10 % 10 - s / 10 % 10)
  {
    var q, p := s / 10, r / 10;
    assert s == 10 * q;
    assert r == 10 * p;
    assert r - s == 10 * (p - q);
    assert (r - s) / 10 == p - q;
    var h := q / 10;
    assert q == 10 * h + q % 10;
    assert p - q <= e - q % 10;
    assert p == 10 * h + (q % 10 + (p - q));
  }

  /** The decade row a seed gives a covered row depends only on the row's tens digit. */
  lemma SeededRowDigits(d: DecadeSeed, r: nat, j: nat, e: nat)
    requires ValidSeed(d) && Covers(d, r)
    requires d.start % 10 == 0
    requires j == r / 10 % 10 && e == d.end / 10 % 10
    ensures j <= e && r + 10 * (e - j) + 9 <= 255
    ensures SeededRow(d, r) == DecadeRow(r, j, e - j, d.mask)
  {
    hide DecadeRow;
    var i := d.start / 10 % 10;
    DecadeOffset(d.start, r, e);
    assert i + (r - d.start) / 10 == j;
    assert e - i - (r - d.start) / 10 == e - j;
  }



  /** The seeding call of `init` that covers the decade start `r`. */
  lemma CoveringSeed(seeds: seq<DecadeSeed>, r: nat) returns (k: nat)
    requires seeds == DecadeSeeds
    requires r % 10 == 0 && r <= 240
    ensures k < |seeds| && ValidSeed(seeds[k]) && seeds[k].start % 10 == 0 && Covers(seeds[k], r)
    ensures seeds[k].end / 10 % 10 == LastTens(r) && seeds[k].mask == GroupMask(r)
  {
    SeedRanges(seeds, r);
    if r == 0 {
      k := 0;
    } else if r < 100 {
      k := 1;
    } else if r < 200 {
      k := 2;
    } else {
      k := 3;
    }
  }

  /** A seeded decade start gets the closed-form decade row. */
  lemma DecadesRowInside(t: Table, seeds: seq<DecadeSeed>, r: nat)
    requires t == EmptyTable() && seeds == DecadeSeeds
    requires r % 10 == 0 && r <= 240
    ensures Fill(t, seeds)[r] == SeedRow(r)
  {
    hide DecadeRow, SeedRow, SeededRow, Fill, LastTens, GroupMask;
    SeedsDisjoint(seeds);
    var k := CoveringSeed(seeds, r);
    FillInside(t, seeds, k, r);
    SeededRowDigits(seeds[k], r, r / 10 % 10, seeds[k].end / 10 % 10);
    SeedRowDecade(r);
  }

  /** Every other row stays empty. */
  lemma DecadesRowOutside(t: Table, seeds: seq<DecadeSeed>, r: nat)
    requires t == EmptyTable() && seeds == DecadeSeeds && r < 256
    requires r % 10 != 0 || r > 240
    ensures Fill(t, seeds)[r] == []
  {
    forall k | 0 <= k < |seeds|
      ensures ValidSeed(seeds[k]) && !Covers(seeds[k], r)
    {
      SeedRanges(seeds, r);
      assert k == 0 || k == 1 || k == 2 || k == 3;
    }
    FillOutside(t, seeds, r);
  }

  /** Every row of the empty table is empty. */
  lemma EmptyRows(t: Table)
    requires t == EmptyTable()
    ensures |t| == 256 && forall r | 0 <= r < 256 :: t[r] == []
  {
  }

  /** Filling the decade rows of `init`'s seeds into the empty table gives the decade part of the closed-form table. */
  lemma FillDecadesTable(t: Table, seeds: seq<DecadeSeed>)
    requires t == EmptyTable() && seeds == DecadeSeeds
    requires forall k | 0 <= k < |seeds| :: ValidSeed(seeds[k])
    ensures Fill(t, seeds) == DecadesTable()
  {
    forall r | 0 <= r < 256
      ensures Fill(t, seeds)[r] == DecadesTable()[r]
    {
      if r % 10 == 0 && r <= 240 {
        DecadesRowInside(t, seeds, r);
      } else {
        DecadesRowOutside(t, seeds, r);
      }
    }
  }

  /** The four seeding calls in `init` succeed and give the decade rows of the closed-form table. */
  lemma InitDecadesResult(t: Table, seeds: seq<DecadeSeed>)
    requires t == EmptyTable() && seeds == DecadeSeeds
    ensures SeedDecades(t, seeds) == Some(DecadesTable())
  {
    SeedsDisjoint(seeds);
    SeedRanges(seeds, 0);
    EmptyRows(t);
    SeedDecadesFill(t, seeds);
    FillDecadesTable(t, seeds);
  }

  /**
    `init` never panics on a duplicate insert, and the table it builds is the
    closed-form table: every row strictly descending by end.
   */
  lemma InitBuildsSeedTable()
    ensures Init() == Some(SeedTable())
    ensures TableDescending(Init().value)
  {
    InitDecadesResult(EmptyTable(), DecadeSeeds);
    var t4 := DecadesTable();
    assert t4[250] == [];
    assert InsertRange(t4, 250, 255, Mask250to255) == Some(t4[250 := [RangeMask(255, Mask250to255)]]);
    assert t4[250 := [RangeMask(255, Mask250to255)]] == SeedTable();
  }
}
