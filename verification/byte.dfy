/**
  The octet-range compressor: for an interval of byte values it produces the
  list of hashcat patterns whose expansions are the decimal texts of the
  interval's values. Patterns use the three default charsets `?1` = 0-4,
  `?2` = 0-5, `?3` = 1-9, `?d`, and at most one pattern-specific charset,
  declared in front of the pattern (`23456789,3?4`) and referenced as `?4`.

  The source keeps a per-start-byte table of solved intervals, seeded once by
  `init` and never modified afterwards; `Init` models the seeding by
  insertion, `SeedRow` is the resulting table in closed form (the two are
  proved equal in module ByteSeed), and `Lookup` reads `SeedRow`.
 */
module Byte {
  import opened Wrappers
  import opened Decimal

  const Charset04: string := "01234"
  const Charset05: string := "012345"
  const Charset19: string := "123456789"

  const Mask0to4: string := "?1"
  const Mask0to5: string := "?2"
  const Mask1to9: string := "?3"

  const Mask0to9: string := "?d"
  const Mask10to99: string := "?3?d"
  const Mask100to199: string := "1?d?d"
  const Mask200to249: string := "2?1?d"
  const Mask250to255: string := "25?2"

  /** The patterns of an octet left entirely free, in the order the source lists them. */
  const Masks0to255: seq<string> := [Mask100to199, Mask200to249, Mask250to255, Mask10to99, Mask0to9]

  /** One solved interval [start, end] of a table row: its end and its pattern. */
  datatype RangeMask = RangeMask(end: nat, mask: string)

  /** Rows are kept in strictly descending order of end, hence without two equal ends. */
  predicate Descending(rr: seq<RangeMask>) {
    forall i, j | 0 <= i < j < |rr| :: rr[i].end > rr[j].end
  }

  /** `rangesMask.index`: position of the entry ending at `e`, scanning while ends are `>= e`. */
  function Index(rr: seq<RangeMask>, e: nat): (r: int)
    ensures -1 <= r < |rr|
    ensures r >= 0 ==> rr[r].end == e
    ensures Descending(rr) ==> (r == -1 <==> forall k | 0 <= k < |rr| :: rr[k].end != e)
  {
    IndexFrom(rr, e, 0)
  }

  function IndexFrom(rr: seq<RangeMask>, e: nat, i: nat): (r: int)
    requires i <= |rr|
    ensures r == -1 || (i <= r < |rr| && rr[r].end == e)
    ensures r == -1 && Descending(rr) ==> forall k | i <= k < |rr| :: rr[k].end != e
    ensures Descending(rr) && (exists k | i <= k < |rr| :: rr[k].end == e) ==> r != -1
    decreases |rr| - i
  {
    if i < |rr| && rr[i].end >= e then
      if rr[i].end == e then i else IndexFrom(rr, e, i + 1)
    else -1
  }

  /** `rangesMask.lookup`: the pattern stored for end `e`, or "" when there is none. */
  function MaskFor(rr: seq<RangeMask>, e: nat): (r: string)
    ensures Descending(rr) ==>
      forall k | 0 <= k < |rr| :: rr[k].end == e ==> r == rr[k].mask
    ensures Descending(rr) && (forall k | 0 <= k < |rr| :: rr[k].end != e) ==> r == ""
  {
    MaskFrom(rr, e, 0)
  }

  function MaskFrom(rr: seq<RangeMask>, e: nat, i: nat): (r: string)
    requires i <= |rr|
    ensures Descending(rr) ==>
      forall k | i <= k < |rr| :: rr[k].end == e ==> r == rr[k].mask
    ensures Descending(rr) && (forall k | i <= k < |rr| :: rr[k].end != e) ==> r == ""
    decreases |rr| - i
  {
    if i < |rr| && rr[i].end >= e then
      if rr[i].end == e then rr[i].mask else MaskFrom(rr, e, i + 1)
    else ""
  }

  /** Ordered insertion into a descending row: the effect of `append` followed by `sort.Sort`. */
  function SortedInsert(rr: seq<RangeMask>, x: RangeMask): (r: seq<RangeMask>)
    ensures multiset(r) == multiset(rr) + multiset{x}
    ensures |r| == |rr| + 1
    decreases |rr|
  {
    if |rr| == 0 || rr[0].end < x.end then [x] + rr
    else
      var tail := SortedInsert(rr[1..], x);
      assert rr == [rr[0]] + rr[1..];
      [rr[0]] + tail
  }

  /** Ordered insertion of a fresh end keeps a row strictly descending. */
  lemma {:induction false} SortedInsertDescending(rr: seq<RangeMask>, x: RangeMask)
    requires Descending(rr)
    requires forall k | 0 <= k < |rr| :: rr[k].end != x.end
    ensures Descending(SortedInsert(rr, x))
    decreases |rr|
  {
    if |rr| > 0 && rr[0].end >= x.end {
      var tail := SortedInsert(rr[1..], x);
      SortedInsertDescending(rr[1..], x);
      forall k | 0 <= k < |tail|
        ensures tail[k].end < rr[0].end
      {
        assert tail[k] in multiset(tail);
        assert tail[k] == x || tail[k] in multiset(rr[1..]);
        if tail[k] != x {
          var m :| 0 <= m < |rr[1..]| && rr[1..][m] == tail[k];
          assert rr[m + 1] == tail[k];
        }
      }
    }
  }

  /**
    `rangesMask.insert`: adds the interval ending at `e`; `None` is the panic
    on a duplicate end.
   */
  function Insert(rr: seq<RangeMask>, e: nat, mask: string): (r: Option<seq<RangeMask>>)
    ensures Descending(rr) ==> (r.None? <==> exists k | 0 <= k < |rr| :: rr[k].end == e)
    ensures Descending(rr) && r.Some? ==>
      && Descending(r.value)
      && multiset(r.value) == multiset(rr) + multiset{RangeMask(e, mask)}
  {
    if |rr| == 0 then Some([RangeMask(e, mask)])
    else if Index(rr, e) != -1 then None
    else
      var r := SortedInsert(rr, RangeMask(e, mask));
      assert Descending(rr) ==> Descending(r) by {
        if Descending(rr) {
          SortedInsertDescending(rr, RangeMask(e, mask));
        }
      }
      Some(r)
  }

  /** The table `byteHCMasks`: one row per start byte. */
  type Table = seq<seq<RangeMask>>

  predicate TableDescending(t: Table) {
    forall s | 0 <= s < |t| :: Descending(t[s])
  }

  /** `insertRange`: inserts into the row of `start`, leaving the other rows alone. */
  function InsertRange(t: Table, start: nat, end: nat, mask: string): (r: Option<Table>)
    requires |t| == 256 && start < 256
    ensures r.Some? ==> |r.value| == 256
    ensures r.Some? ==> forall s | 0 <= s < 256 && s != start :: r.value[s] == t[s]
    ensures TableDescending(t) ==> (r.None? <==> exists k | 0 <= k < |t[start]| :: t[start][k].end == end)
    ensures TableDescending(t) && r.Some? ==> TableDescending(r.value)
  {
    var row :- Insert(t[start], end, mask);
    Some(t[start := row])
  }

  /**
    The inner loop of `insertRangesTen`: every insert goes to the row of the
    decade start `start` (tens digit `i`), adding the grouped intervals
    [start, start + 10(j-i) + 9] for `j` up to `e`, each a charset of the tens
    digits i..j followed by `mask`.
   */
  function GroupLoop(row: seq<RangeMask>, start: nat, i: nat, j: nat, e: nat, charset: string, mask: string): (r: Option<seq<RangeMask>>)
    requires i < j <= e + 1 && e <= 9
    requires start + (e - i) * 10 + 9 <= 255
    ensures Descending(row) && r.Some? ==> Descending(r.value)
    decreases e + 1 - j
  {
    if j > e then Some(row)
    else
      var cs := charset + [DigitChar(j)];
      var row1 :- Insert(row, start + (j - i) * 10 + 9, cs + "," + mask);
      GroupLoop(row1, start, i, j + 1, e, cs, mask)
  }

  /** The outer loop of `insertRangesTen`, one decade per tens digit `i` up to `e`. */
  function TensLoop(t: Table, start: nat, i: nat, e: nat, mask: string): (r: Option<Table>)
    requires |t| == 256
    requires i <= e + 1 && e <= 9
    requires i <= e ==> start + (e - i) * 10 + 9 <= 255
    ensures r.Some? ==> |r.value| == 256
    ensures TableDescending(t) && r.Some? ==> TableDescending(r.value)
    decreases e + 1 - i
  {
    if i > e then Some(t)
    else
      var prefix := if start > 0 then Itoa(start / 10) else "";
      var t1 :- InsertRange(t, start, start + 9, prefix + Mask0to9);
      var row :- GroupLoop(t1[start], start, i, i + 1, e, [DigitChar(i)], mask);
      TensLoop(t1[start := row], start + 10, i + 1, e, mask)
  }

  /** `insertRangesTen(start, end, mask)`. */
  function InsertRangesTen(t: Table, start: nat, end: nat, mask: string): (r: Option<Table>)
    requires |t| == 256
    requires start / 10 % 10 <= end / 10 % 10 + 1
    requires start / 10 % 10 <= end / 10 % 10 ==> start + (end / 10 % 10 - start / 10 % 10) * 10 + 9 <= 255
    ensures r.Some? ==> |r.value| == 256
    ensures TableDescending(t) && r.Some? ==> TableDescending(r.value)
  {
    TensLoop(t, start, start / 10 % 10, end / 10 % 10, mask)
  }

  /** The empty table before `init`. */
  function EmptyTable(): (t: Table)
    ensures |t| == 256 && TableDescending(t)
  {
    seq(256, _ => [])
  }

  /** One `insertRangesTen` call of `init`: its start, end and group mask. */
  datatype DecadeSeed = DecadeSeed(start: nat, end: nat, mask: string)

  predicate ValidSeed(d: DecadeSeed) {
    && d.start / 10 % 10 <= d.end / 10 % 10
    && d.start + (d.end / 10 % 10 - d.start / 10 % 10) * 10 + 9 <= 255
  }

  /** The `insertRangesTen` calls of `init`, in order. */
  const DecadeSeeds: seq<DecadeSeed> := [
    DecadeSeed(0, 0, "?d"),
    DecadeSeed(10, 90, "?4?d"),
    DecadeSeed(100, 190, "1?4?d"),
    DecadeSeed(200, 240, "2?4?d")
  ]

  /** Applies the seeding calls in order, stopping at the first panic. */
  function SeedDecades(t: Table, seeds: seq<DecadeSeed>): (r: Option<Table>)
    requires |t| == 256
    requires forall k | 0 <= k < |seeds| :: ValidSeed(seeds[k])
    ensures r.Some? ==> |r.value| == 256
    ensures TableDescending(t) && r.Some? ==> TableDescending(r.value)
    decreases |seeds|
  {
    if |seeds| == 0 then Some(t)
    else
      assert ValidSeed(seeds[0]);
      var t1 :- InsertRangesTen(t, seeds[0].start, seeds[0].end, seeds[0].mask);
      SeedDecades(t1, seeds[1..])
  }

  /** `init`: seeds the table; `None` would be a duplicate-insert panic. */
  function Init(): (r: Option<Table>) {
    var t4 :- SeedDecades(EmptyTable(), DecadeSeeds);
    InsertRange(t4, 250, 255, Mask250to255)
  }

  /**
    The row `init` gives a decade start whose tens digit is `i`: the grouped
    intervals of `k`, `k-1`, .., 1 further decades, then the decade itself.
   */
  function DecadeRow(start: nat, i: nat, k: nat, mask: string): (r: seq<RangeMask>)
    requires i + k <= 9 && start + 10 * k + 9 <= 255
    ensures |r| == k + 1 && r[0].end == start + 10 * k + 9
    decreases k
  {
    if k == 0 then [RangeMask(start + 9, Prefix(start / 10) + Mask0to9)]
    else [RangeMask(start + 10 * k + 9, Digits(i, i + k) + "," + mask)] + DecadeRow(start, i, k - 1, mask)
  }

  /** The ends of a decade row: the last one of each group, from the widest group down to the decade itself. */
  lemma {:induction false} DecadeRowEnds(start: nat, i: nat, k: nat, mask: string)
    requires i + k <= 9 && start + 10 * k + 9 <= 255
    ensures forall m | 0 <= m <= k :: DecadeRow(start, i, k, mask)[m].end == start + 10 * (k - m) + 9
    ensures Descending(DecadeRow(start, i, k, mask))
    decreases k
  {
    if k > 0 {
      DecadeRowEnds(start, i, k - 1, mask);
      var r := DecadeRow(start, i, k, mask);
      assert forall m | 1 <= m <= k :: r[m] == DecadeRow(start, i, k - 1, mask)[m - 1];
    }
  }

  /** The last tens digit of the decades seeded together with decade start `s`. */
  function LastTens(s: nat): (r: nat) {
    if s < 10 then 0 else if s < 200 then 9 else 4
  }

  /** The mask that follows the tens charset in the groups seeded with decade start `s`. */
  function GroupMask(s: nat): (r: string) {
    if s < 10 then "?d" else if s < 100 then "?4?d" else if s < 200 then "1?4?d" else "2?4?d"
  }

  /** Every entry of `row` ends at the last byte of a decade at least 5 past `s`. */
  predicate DecadeEnds(row: seq<RangeMask>, s: nat) {
    forall m | 0 <= m < |row| :: s + 5 <= row[m].end <= 255 && row[m].end % 10 == 9
  }

  /** The decade row of a seeded decade start ends at the last byte of a decade. */
  lemma SeededDecadeEnds(s: nat)
    requires s % 10 == 0 && s <= 240
    ensures s / 10 % 10 <= LastTens(s) && s + 10 * (LastTens(s) - s / 10 % 10) + 9 <= 255
    ensures Descending(DecadeRow(s, s / 10 % 10, LastTens(s) - s / 10 % 10, GroupMask(s)))
    ensures DecadeEnds(DecadeRow(s, s / 10 % 10, LastTens(s) - s / 10 % 10, GroupMask(s)), s)
  {
    hide DecadeRow;
    var k := LastTens(s) - s / 10 % 10;
    var r := DecadeRow(s, s / 10 % 10, k, GroupMask(s));
    DecadeRowEnds(s, s / 10 % 10, k, GroupMask(s));
    forall m | 0 <= m < |r|
      ensures r[m].end % 10 == 9
    {
      assert r[m].end == 10 * (s / 10 + k - m) + 9;
    }
  }

  /**
    The seeded table in closed form: the row of start byte `s` after `init`.
    A decade start `s` holds the decade itself and, for each later decade
    of its seeding range, the group reaching to the end of that decade.
   */
  function SeedRow(s: nat): (r: seq<RangeMask>)
    requires s < 256
    ensures Descending(r)
    ensures forall k | 0 <= k < |r| :: s + 5 <= r[k].end <= 255
    ensures forall k | 0 <= k < |r| :: r[k].end % 10 == 9 || r[k].end == 255
  {
    if s == 250 then [RangeMask(255, Mask250to255)]
    else if s % 10 != 0 || s > 240 then []
    else
      SeededDecadeEnds(s);
      DecadeRow(s, s / 10 % 10, LastTens(s) - s / 10 % 10, GroupMask(s))
  }

  /** A seeded decade start holds its decade row. */
  lemma SeedRowDecade(s: nat)
    requires s % 10 == 0 && s <= 240
    ensures s / 10 % 10 <= LastTens(s) && s + 10 * (LastTens(s) - s / 10 % 10) + 9 <= 255
    ensures SeedRow(s) == DecadeRow(s, s / 10 % 10, LastTens(s) - s / 10 % 10, GroupMask(s))
  {
    SeededDecadeEnds(s);
  }
  /** The whole seeded table. */
  function SeedTable(): (t: Table)
    ensures |t| == 256 && TableDescending(t)
  {
    seq(256, s requires 0 <= s < 256 => SeedRow(s))
  }

  /** Outcome of the scan of a row: the entry that ends exactly at the target, one below it, or none. */
  datatype Fit = NoFit | Exact(at: nat) | Below(at: nat)

  /**
    The scan over `byteHCMasks[s]` in `lookup`: the first entry that does not
    overshoot `end`, told apart by whether it ends exactly there.
   */
  function ScanRow(row: seq<RangeMask>, end: nat): (f: Fit)
    ensures f.Exact? ==> f.at < |row| && row[f.at].end == end
    ensures f.Below? ==> f.at < |row| && row[f.at].end < end
    ensures !f.NoFit? ==> forall k | 0 <= k < f.at :: row[k].end > end
    ensures f.NoFit? <==> forall k | 0 <= k < |row| :: row[k].end > end
  {
    ScanFrom(row, end, 0)
  }

  function ScanFrom(row: seq<RangeMask>, end: nat, i: nat): (f: Fit)
    requires i <= |row|
    ensures f.Exact? ==> i <= f.at < |row| && row[f.at].end == end
    ensures f.Below? ==> i <= f.at < |row| && row[f.at].end < end
    ensures !f.NoFit? ==> forall k | i <= k < f.at :: row[k].end > end
    ensures f.NoFit? <==> forall k | i <= k < |row| :: row[k].end > end
    decreases |row| - i
  {
    if i == |row| then NoFit
    else if row[i].end == end then Exact(i)
    else if row[i].end < end then Below(i)
    else ScanFrom(row, end, i + 1)
  }

  /**
    The pattern for the units `u`..`v` of the decade `10q`: a fixed charset
    when one fits, otherwise the digits declared as the pattern's own charset.
   */
  function UnitMask(q: nat, u: nat, v: nat): (r: string)
    requires u <= v <= 9
  {
    var prefix := Prefix(q);
    if u == 0 && v == 9 then prefix + Mask0to9
    else if u == 0 && v == 5 then prefix + Mask0to5
    else if u == 0 && v == 4 then prefix + Mask0to4
    else if u == 1 && v == 9 then prefix + Mask1to9
    else Digits(u, v) + "," + prefix + "?4"
  }

  /**
    Where the walk splits when no stored interval fits: the next hundreds
    boundary when `end` lies in a later hundred, otherwise the next tens
    boundary. Neither product exceeds 250, so the source's `uint8`
    arithmetic does not wrap here.
   */
  function Boundary(s: nat, end: nat): (next: nat)
    requires s / 10 < end / 10
    ensures s < next <= end && next % 10 == 0
    ensures s / 100 < end / 100 ==> next % 100 == 0 && next / 100 == s / 100 + 1
    ensures s / 100 == end / 100 ==> next / 10 == s / 10 + 1
  {
    if s / 100 < end / 100 then
      var q, p := s / 100, end / 100;
      assert s == 100 * q + s % 100 && end == 100 * p + end % 100;
      100 * q + 100
    else
      var q, p := s / 10, end / 10;
      assert s == 10 * q + s % 10 && end == 10 * p + end % 10;
      10 * q + 10
  }

  /**
    The loop of `lookup(start, end)` from the current position `s`. With
    `fixed` false the singleton step emits the text of `start`, as the source
    does; with `fixed` true it emits the text of `s`, the evidently intended value.
   */
  function Walk(start: nat, s: nat, end: nat, fixed: bool): (r: seq<string>)
    requires s <= end <= 255
    ensures |r| >= 1
    decreases end - s
  {
    if s == end then [Itoa(if fixed then s else start)]
    else
      var row := SeedRow(s);
      match ScanRow(row, end)
      case Exact(k) => [row[k].mask]
      case Below(k) => [row[k].mask] + Walk(start, row[k].end + 1, end, fixed)
      case NoFit =>
        if s / 10 < end / 10 then
          var next := Boundary(s, end);
          Walk(s, s, next - 1, fixed) + Walk(start, next, end, fixed)
        else
          [UnitMask(s / 10, s % 10, end % 10)]
  }

  /** `lookup(start, end)` as written; an empty interval gives no pattern. */
  function Lookup(start: nat, end: nat): (r: seq<string>)
    requires start <= 255 && end <= 255
    ensures start == end ==> r == [Itoa(start)]
    ensures start > end <==> r == []
  {
    if start > end then [] else Walk(start, start, end, false)
  }

  /** `lookup` with the singleton step emitting the current position instead of `start`. */
  function LookupFixed(start: nat, end: nat): (r: seq<string>)
    requires start <= 255 && end <= 255
    ensures start == end ==> r == [Itoa(start)]
    ensures start > end <==> r == []
  {
    if start > end then [] else Walk(start, start, end, true)
  }
}
