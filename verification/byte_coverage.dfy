/**
  What the patterns of `lookup` denote. Inside an assembled mask a pattern
  follows the three default declarations (`?1` = 0-4, `?2` = 0-5,
  `?3` = 1-9) and may bring its own declaration as `?4`; expanding it there
  gives decimal texts of bytes. `lookup(start, end)` is meant to give the
  texts of start..end, each once and in order.
 */
module ByteCoverage {
  import opened Wrappers
  import opened Decimal
  import opened HCMask
  import opened Byte
  import opened Seqs

  /** The declarations every assembled mask starts with, for `?1`, `?2` and `?3`. */
  const DefaultCharsets: seq<string> := [Charset04, Charset05, Charset19]

  /** The strings one pattern denotes when it follows the default declarations. */
  function Fragment(f: string): (r: Option<seq<string>>) {
    ExpandMask(Declarations(DefaultCharsets) + f)
  }

  /** The strings a list of patterns denotes, pattern by pattern; `None` if one of them cannot be expanded. */
  function ExpandAll(fs: seq<string>): (r: Option<seq<string>>)
    decreases |fs|
  {
    if |fs| == 0 then Some([])
    else
      var x :- Fragment(fs[0]);
      var y :- ExpandAll(fs[1..]);
      Some(x + y)
  }

  // ---------------------------------------------------------------------------
  // Charsets and decimal blocks

  /** The digit charsets of the source are digit runs. */
  lemma CharsetDigits()
    ensures DigitCharset == Digits(0, 9)
    ensures Charset04 == Digits(0, 4)
    ensures Charset05 == Digits(0, 5)
    ensures Charset19 == Digits(1, 9)
  {
  }

  /** A digit string holds neither a comma nor a `?`. */
  lemma DigitsPlain(s: string)
    requires AllDigits(s)
    ensures ',' !in s && '?' !in s
  {
    assert forall k | 0 <= k < |s| :: s[k] != ',' && s[k] != '?';
  }

  lemma DigitRunPlain(u: nat, v: nat)
    requires u <= v + 1 && v <= 9
    ensures AllDigits(Digits(u, v))
    ensures ',' !in Digits(u, v) && '?' !in Digits(u, v)
  {
    DigitsPlain(Digits(u, v));
  }

  /** The texts of `10q + u`..`10q + v` are the text of `q` followed by each unit digit. */
  lemma PrefixDigits(q: nat, u: nat, v: nat)
    requires u <= v <= 9
    ensures Prepend(Prefix(q), Singles(Digits(u, v))) == Decimals(10 * q + u, 10 * q + v)
  {
    var a, b := Prepend(Prefix(q), Singles(Digits(u, v))), Decimals(10 * q + u, 10 * q + v);
    forall k | 0 <= k < |a|
      ensures a[k] == b[k]
    {
      ItoaStep(q, u + k);
    }
  }

  lemma SinglesSnoc(cs: string, c: char)
    ensures Singles(cs + [c]) == Singles(cs) + [[c]]
  {
  }

  /** One decade `100h + 10t`..`100h + 10t + 9` as a tens digit followed by `?d`. */
  lemma TensOne(h: nat, t: nat, ds: string)
    requires ds == Digits(0, 9)
    requires t <= 9 && 10 * h + t >= 1
    ensures Product(Prepend(Prefix(h), [[DigitChar(t)]]), Singles(ds))
      == Decimals(100 * h + 10 * t, 100 * h + 10 * t + 9)
  {
    hide Fragment, ExpandAll, Product, Decimals, Itoa, Singles, Digits;
    ItoaStep(h, t);
    assert Prefix(10 * h + t) == Prefix(h) + [DigitChar(t)];
    assert Prepend(Prefix(h), [[DigitChar(t)]]) == [Prefix(10 * h + t)];
    ProductSingleLeft(Prefix(10 * h + t), Singles(ds));
    PrefixDigits(10 * h + t, 0, 9);
    assert 10 * (10 * h + t) == 100 * h + 10 * t;
  }

  lemma TensBlockOne(h: nat, j: nat, ds: string)
    requires ds == Digits(0, 9)
    requires j <= 9 && 10 * h + j >= 1
    ensures Product(Prepend(Prefix(h), Singles(Digits(j, j))), Singles(ds))
      == Decimals(100 * h + 10 * j, 100 * h + 10 * j + 9)
  {
    hide Fragment, Product, Decimals, Prefix, Itoa;
    assert Singles(Digits(j, j)) == [[DigitChar(j)]];
    TensOne(h, j, ds);
  }

  /** Adding the tens digit `j` to a tens charset adds the decade of `j` to its expansion. */
  lemma TensBlockSnoc(h: nat, i: nat, j: nat, ds: string)
    requires ds == Digits(0, 9)
    requires i < j <= 9 && 10 * h + i >= 1
    ensures Product(Prepend(Prefix(h), Singles(Digits(i, j))), Singles(ds))
      == Product(Prepend(Prefix(h), Singles(Digits(i, j - 1))), Singles(ds))
       + Product(Prepend(Prefix(h), [[DigitChar(j)]]), Singles(ds))
  {
    hide Fragment, Product, Decimals, Itoa;
    DigitsSnoc(i, j - 1);
    assert j - 1 + 1 == j;
    SinglesSnoc(Digits(i, j - 1), DigitChar(j));
    PrependAppend(Prefix(h), Singles(Digits(i, j - 1)), [[DigitChar(j)]]);
    ProductAppendLeft(Prepend(Prefix(h), Singles(Digits(i, j - 1))), Prepend(Prefix(h), [[DigitChar(j)]]), Singles(ds));
  }

  lemma TensBlockStep(h: nat, i: nat, j: nat, ds: string)
    requires ds == Digits(0, 9)
    requires i < j <= 9 && 10 * h + i >= 1
    requires Product(Prepend(Prefix(h), Singles(Digits(i, j - 1))), Singles(ds))
      == Decimals(100 * h + 10 * i, 100 * h + 10 * (j - 1) + 9)
    ensures Product(Prepend(Prefix(h), Singles(Digits(i, j))), Singles(ds))
      == Decimals(100 * h + 10 * i, 100 * h + 10 * j + 9)
  {
    hide Fragment, Product, Prepend, Singles, Decimals, Digits, Prefix, Itoa;
    var lo, mid, hi := 100 * h + 10 * i, 100 * h + 10 * (j - 1) + 9, 100 * h + 10 * j + 9;
    var a := Product(Prepend(Prefix(h), Singles(Digits(i, j - 1))), Singles(ds));
    var b := Product(Prepend(Prefix(h), [[DigitChar(j)]]), Singles(ds));
    TensBlockSnoc(h, i, j, ds);
    TensOne(h, j, ds);
    assert mid + 1 == 100 * h + 10 * j;
    assert b == Decimals(mid + 1, hi);
    DecimalsSplit(lo, mid, hi);
  }

  /** The decades with tens digits `i`..`j` of the hundred `h`, as a tens charset followed by `?d`. */
  lemma {:induction false} TensBlock(h: nat, i: nat, j: nat, ds: string)
    requires ds == Digits(0, 9)
    requires i <= j <= 9 && 10 * h + i >= 1
    ensures Product(Prepend(Prefix(h), Singles(Digits(i, j))), Singles(ds))
      == Decimals(100 * h + 10 * i, 100 * h + 10 * j + 9)
    decreases j - i
  {
    hide Fragment, Product, Prepend, Singles, Decimals, Digits, Prefix, Itoa;
    if i == j {
      TensBlockOne(h, j, ds);
    } else {
      TensBlock(h, i, j - 1, ds);
      TensBlockStep(h, i, j, ds);
    }
  }

  // ---------------------------------------------------------------------------
  // Expanding one pattern

  /** The charset table a pattern sees: `?d`, the defaults, then its own declaration or nothing. */
  function SlotTable(own: seq<string>): (r: seq<string>)
    requires |own| <= 1
    ensures |r| == 5
  {
    [DigitCharset, Charset04, Charset05, Charset19] + (if |own| == 1 then own else [""])
  }

  lemma DefaultsPlain()
    ensures forall k | 0 <= k < |DefaultCharsets| :: ',' !in DefaultCharsets[k]
  {
  }

  /** A pattern's own declarations follow the defaults. */
  lemma FragmentDecls(own: seq<string>, body: string)
    ensures Fragment(Declarations(own) + body) == ExpandMask(Declarations(DefaultCharsets + own) + body)
  {
    hide ExpandMask;
    DeclarationsAppend(DefaultCharsets, own);
    AppendAssoc(Declarations(DefaultCharsets), Declarations(own), body);
  }

  lemma DeclarationsPlain(own: seq<string>)
    requires forall k | 0 <= k < |own| :: ',' !in own[k]
    ensures forall k | 0 <= k < |DefaultCharsets + own| :: ',' !in (DefaultCharsets + own)[k]
  {
    var decls := DefaultCharsets + own;
    DefaultsPlain();
    forall k | 0 <= k < |decls|
      ensures ',' !in decls[k]
    {
      if k >= 3 {
        assert decls[k] == own[k - 3];
      }
    }
  }

  /** A pattern with at most one declaration of its own is expanded with that declaration as `?4`. */
  lemma FragmentBody(own: seq<string>, body: string)
    requires |own| <= 1
    requires forall k | 0 <= k < |own| :: ',' !in own[k]
    requires ',' !in body
    ensures Fragment(Declarations(own) + body) ==
      match Tokenize(body, SlotTable(own))
      case None => None
      case Some(ts) => Some(ExpandTokens(ts))
  {
    hide Fragment, ExpandMask, Declarations;
    var decls := DefaultCharsets + own;
    FragmentDecls(own, body);
    DeclarationsPlain(own);
    ExpandMaskParts(decls, body);
    assert [DigitCharset] + decls + seq(4 - |decls|, _ => "") == SlotTable(own);
  }


  /** A literal prefix and one wildcard tokenize to literals and one class. */
  lemma TokenizeLitsClass(x: string, sel: char, charsets: seq<string>)
    requires |charsets| == 5
    requires '?' !in x
    requires Selector(sel).Some?
    ensures Tokenize(x + ['?', sel], charsets) == Some(Lits(x) + [Class(charsets[Selector(sel).value])])
  {
    var c := Class(charsets[Selector(sel).value]);
    assert Tokenize("", charsets) == Some([]);
    TokenizeWildcard(sel, "", charsets);
    assert ['?', sel] + "" == ['?', sel];
    assert [c] + [] == [c];
    assert Tokenize(['?', sel], charsets) == Some([c]);
    TokenizeLiterals(x, ['?', sel], charsets);
  }

  /** A literal prefix and two wildcards tokenize to literals and two classes. */
  lemma TokenizeLitsClasses(x: string, sel1: char, sel2: char, charsets: seq<string>)
    requires |charsets| == 5
    requires '?' !in x
    requires Selector(sel1).Some? && Selector(sel2).Some?
    ensures Tokenize(x + ['?', sel1, '?', sel2], charsets)
      == Some(Lits(x) + [Class(charsets[Selector(sel1).value]), Class(charsets[Selector(sel2).value])])
  {
    var c1, c2 := Class(charsets[Selector(sel1).value]), Class(charsets[Selector(sel2).value]);
    TokenizeLitsClass("", sel2, charsets);
    assert "" + ['?', sel2] == ['?', sel2];
    assert Lits("") + [c2] == [c2];
    TokenizeWildcard(sel1, ['?', sel2], charsets);
    assert ['?', sel1] + ['?', sel2] == ['?', sel1, '?', sel2];
    assert [c1] + [c2] == [c1, c2];
    assert Tokenize(['?', sel1, '?', sel2], charsets) == Some([c1, c2]);
    TokenizeLiterals(x, ['?', sel1, '?', sel2], charsets);
  }

  /** A pattern `x?s` with a default charset `s`: the text `x` followed by each character of the charset. */
  lemma FragmentClass(x: string, sel: char)
    requires ',' !in x && '?' !in x
    requires Selector(sel).Some?
    ensures Fragment(x + ['?', sel]) == Some(Prepend(x, Singles(SlotTable([])[Selector(sel).value])))
  {
    hide Fragment;
    assert Declarations([]) + (x + ['?', sel]) == x + ['?', sel];
    FragmentBody([], x + ['?', sel]);
    TokenizeLitsClass(x, sel, SlotTable([]));
    ExpandLitsClass(x, SlotTable([])[Selector(sel).value]);
  }

  /** A pattern `d,x?4` declaring its own charset `d`: the text `x` followed by each character of `d`. */
  lemma FragmentOwn(d: string, x: string)
    requires ',' !in d && ',' !in x && '?' !in x
    ensures Fragment(d + "," + x + "?4") == Some(Prepend(x, Singles(d)))
  {
    hide Fragment;
    assert Declarations([d]) + (x + "?4") == d + "," + x + "?4";
    FragmentBody([d], x + "?4");
    TokenizeLitsClass(x, '4', SlotTable([d]));
    ExpandLitsClass(x, d);
  }

  /** A pattern `d,x?4?d`: the text `x` followed by a character of `d`, then by a digit. */
  lemma FragmentOwnTens(d: string, x: string)
    requires ',' !in d && ',' !in x && '?' !in x
    ensures Fragment(d + "," + x + "?4?d") == Some(Product(Prepend(x, Singles(d)), Singles(DigitCharset)))
  {
    hide Fragment;
    assert Declarations([d]) + (x + "?4?d") == d + "," + x + "?4?d";
    FragmentBody([d], x + "?4?d");
    TokenizeLitsClasses(x, '4', 'd', SlotTable([d]));
    ExpandLitsClasses(x, d, DigitCharset);
  }

  lemma PrependEmpty(ys: seq<string>)
    ensures Prepend("", ys) == ys
  {
    assert forall k | 0 <= k < |ys| :: "" + ys[k] == ys[k];
  }

  /** Literals followed by two classes: the literal text, a character of the first class, then one of the second. */
  lemma ExpandLitsClasses(x: string, d: string, e: string)
    ensures ExpandTokens(Lits(x) + [Class(d), Class(e)]) == Product(Prepend(x, Singles(d)), Singles(e))
  {
    var a := Lits(x) + [Class(d)];
    assert Lits(x) + [Class(d), Class(e)] == a + [Class(e)];
    ExpandAppend(a, [Class(e)]);
    ExpandLitsClass(x, d);
    ExpandLitsClass("", e);
    assert Lits("") + [Class(e)] == [Class(e)];
    PrependEmpty(Singles(e));
  }

  /** The decimal text of a byte is a pattern that stands for itself. */
  lemma FragmentLiteral(x: string)
    requires AllDigits(x)
    ensures Fragment(x) == Some([x])
  {
    DigitsPlain(x);
    DefaultsPlain();
    NoWildcards(DefaultCharsets, x);
  }

  // ---------------------------------------------------------------------------
  // What each pattern of `lookup` stands for

  /** The pattern `lookup` builds for the units `u`..`v` of the decade `10q` stands for exactly those bytes. */
  lemma UnitMaskSound(q: nat, u: nat, v: nat)
    requires u <= v <= 9
    ensures Fragment(UnitMask(q, u, v)) == Some(Decimals(10 * q + u, 10 * q + v))
  {
    hide Fragment;
    var prefix := Prefix(q);
    DigitsPlain(prefix);
    CharsetDigits();
    if u == 0 && v == 9 {
      FragmentClass(prefix, 'd');
    } else if u == 0 && v == 5 {
      FragmentClass(prefix, '2');
    } else if u == 0 && v == 4 {
      FragmentClass(prefix, '1');
    } else if u == 1 && v == 9 {
      FragmentClass(prefix, '3');
    } else {
      DigitRunPlain(u, v);
      FragmentOwn(Digits(u, v), prefix);
    }
    PrefixDigits(q, u, v);
  }

  /** Entry `m` of a decade row: a group of decades while `m < k`, the decade itself last. */
  lemma {:induction false} DecadeRowEntry(start: nat, i: nat, k: nat, mask: string, m: nat)
    requires i + k <= 9 && start + 10 * k + 9 <= 255 && m <= k
    ensures m < k ==> DecadeRow(start, i, k, mask)[m] == RangeMask(start + 10 * (k - m) + 9, Digits(i, i + (k - m)) + "," + mask)
    ensures m == k ==> DecadeRow(start, i, k, mask)[m] == RangeMask(start + 9, Prefix(start / 10) + Mask0to9)
    decreases k
  {
    if 0 < m {
      DecadeRowEntry(start, i, k - 1, mask, m - 1);
      assert DecadeRow(start, i, k, mask)[m] == DecadeRow(start, i, k - 1, mask)[m - 1];
      assert (k - 1) - (m - 1) == k - m;
    }
  }

  /** A decade start is the sum of its hundreds and its tens. */
  lemma DecadeStartDigits(s: nat)
    requires s % 10 == 0
    ensures s == 100 * (s / 100) + 10 * (s / 10 % 10)
    ensures s / 10 == 10 * (s / 100) + s / 10 % 10
  {
  }

  /** The group mask of a seeded decade start is its hundreds digit followed by `?4?d`. */
  lemma GroupMaskPrefix(s: nat)
    requires 10 <= s <= 240
    ensures GroupMask(s) == Prefix(s / 100) + "?4?d"
  {
    if s >= 100 {
      assert Prefix(s / 100) == [DigitChar(s / 100)];
    }
  }

  /** The decade itself, `10q`..`10q + 9`, is `<q>?d`. */
  lemma DecadeSound(q: nat)
    ensures Fragment(Prefix(q) + Mask0to9) == Some(Decimals(10 * q, 10 * q + 9))
  {
    hide Fragment;
    UnitMaskSound(q, 0, 9);
  }

  /** A tens charset `i`..`j` with the hundreds text `<h>` in front: the decades `i`..`j` of that hundred. */
  lemma GroupSoundAt(h: nat, i: nat, j: nat)
    requires i <= j <= 9 && 10 * h + i >= 1
    ensures Fragment(Digits(i, j) + "," + Prefix(h) + "?4?d") == Some(Decimals(100 * h + 10 * i, 100 * h + 10 * j + 9))
  {
    hide Fragment;
    var x := Prefix(h);
    DigitsPlain(x);
    DigitRunPlain(i, j);
    FragmentOwnTens(Digits(i, j), x);
    CharsetDigits();
    TensBlock(h, i, j, DigitCharset);
  }

  /** A group entry of a seeded row, the decades with tens digits `i`..`j`, stands for exactly those bytes. */
  lemma GroupSound(s: nat, j: nat)
    requires 10 <= s <= 240 && s % 10 == 0
    requires s / 10 % 10 <= j <= 9
    ensures Fragment(Digits(s / 10 % 10, j) + "," + GroupMask(s)) == Some(Decimals(s, 100 * (s / 100) + 10 * j + 9))
  {
    hide Fragment;
    var h, i := s / 100, s / 10 % 10;
    DecadeStartDigits(s);
    GroupMaskPrefix(s);
    assert Digits(i, j) + "," + GroupMask(s) == Digits(i, j) + "," + Prefix(h) + "?4?d";
    GroupSoundAt(h, i, j);
  }

  /** The seeded pattern `25?2` stands for 250..255. */
  lemma Mask250Sound()
    ensures Fragment(Mask250to255) == Some(Decimals(250, 255))
  {
    hide Fragment;
    ItoaStep(2, 5);
    assert Prefix(25) == "25";
    UnitMaskSound(25, 0, 5);
    assert UnitMask(25, 0, 5) == Mask250to255;
  }

  /** A group entry of a seeded decade row stands for the bytes from the row's start to the group's end. */
  lemma GroupEntrySound(s: nat, i: nat, g: nat, e: RangeMask)
    requires s % 10 == 0 && i == s / 10 % 10 && 10 <= s <= 240
    requires i + g <= 9
    requires e == RangeMask(s + 10 * g + 9, Digits(i, i + g) + "," + GroupMask(s))
    ensures Fragment(e.mask) == Some(Decimals(s, e.end))
  {
    hide Fragment;
    DecadeStartDigits(s);
    GroupSound(s, i + g);
    assert s + 10 * g + 9 == 100 * (s / 100) + 10 * (i + g) + 9;
  }

  /** Every stored interval of the seeded table is solved by its pattern: it stands for exactly the bytes from the row's start to its end. */
  lemma SeedRowSound(s: nat, m: nat)
    requires s < 256 && m < |SeedRow(s)|
    ensures Fragment(SeedRow(s)[m].mask) == Some(Decimals(s, SeedRow(s)[m].end))
  {
    hide Fragment, DecadeRow;
    if s == 250 {
      assert SeedRow(s) == [RangeMask(255, Mask250to255)];
      Mask250Sound();
    } else {
      SeedRowDecade(s);
      var i := s / 10 % 10;
      var k := LastTens(s) - i;
      DecadeRowEntry(s, i, k, GroupMask(s), m);
      var e := SeedRow(s)[m];
      if m == k {
        DecadeSound(s / 10);
        assert 10 * (s / 10) == s;
      } else {
        assert s >= 10;
        GroupEntrySound(s, i, k - m, e);
      }
    }
  }


  // ---------------------------------------------------------------------------
  // Lists of patterns

  lemma ExpandAllOne(f: string, x: seq<string>)
    requires Fragment(f) == Some(x)
    ensures ExpandAll([f]) == Some(x)
  {
    hide Fragment;
    assert [f][1..] == [];
    assert x + [] == x;
  }

  /** Expanding two lists of patterns one after the other is expanding their concatenation. */
  lemma {:induction false} ExpandAllAppend(a: seq<string>, b: seq<string>, x: seq<string>, y: seq<string>)
    requires ExpandAll(a) == Some(x) && ExpandAll(b) == Some(y)
    ensures ExpandAll(a + b) == Some(x + y)
    decreases |a|
  {
    hide Fragment;
    if |a| == 0 {
      assert a + b == b;
      assert x == [];
      AppendEmpty(y);
    } else {
      var x0 := Fragment(a[0]).value;
      var x1 := ExpandAll(a[1..]).value;
      assert x == x0 + x1;
      ExpandAllAppend(a[1..], b, x1, y);
      assert (a + b)[1..] == a[1..] + b;
      assert (a + b)[0] == a[0];
      AppendAssoc(x0, x1, y);
    }
  }

  lemma DecimalsSnoc(lo: nat, hi: nat)
    requires lo <= hi
    ensures Decimals(lo, hi) == Decimals(lo, hi - 1) + [Itoa(hi)]
  {
    DecimalsSplit(lo, hi - 1, hi);
  }

  // ---------------------------------------------------------------------------
  // The walk of `lookup`

  /**
    The value whose text ends the expansion of a walk towards `end`: `end`
    itself, except that the source (`fixed` false) emits the text of `start`
    when an advance lands exactly on an `end` that is a multiple of 10.
   */
  function FinalValue(start: nat, end: nat, fixed: bool): (r: nat) {
    if fixed || end % 10 != 0 then end else start
  }

  /** The expansion a walk from `s` to `end` produces. */
  function WalkMeaning(start: nat, s: nat, end: nat, fixed: bool): (r: seq<string>)
    requires s <= end
  {
    Decimals(s, end - 1) + [Itoa(FinalValue(start, end, fixed))]
  }

  /** The walk has reached `end`: one literal. */
  lemma WalkAtEnd(start: nat, s: nat, end: nat, fixed: bool)
    requires s == end <= 255
    requires s == start || s % 10 == 0
    ensures ExpandAll([Itoa(if fixed then s else start)]) == Some(WalkMeaning(start, s, end, fixed))
  {
    hide Fragment;
    var x := Itoa(if fixed then s else start);
    FragmentLiteral(x);
    ExpandAllOne(x, [x]);
    assert Decimals(s, end - 1) == [];
    assert [] + [x] == [x];
  }

  /** A solved interval of the seeded table that ends exactly at `end` finishes the walk. */
  lemma WalkExact(start: nat, s: nat, end: nat, fixed: bool, k: nat)
    requires s < end <= 255
    requires k < |SeedRow(s)| && SeedRow(s)[k].end == end
    ensures ExpandAll([SeedRow(s)[k].mask]) == Some(WalkMeaning(start, s, end, fixed))
  {
    hide Fragment, DecadeRow, ExpandAll;
    SeedRowSound(s, k);
    ExpandAllOne(SeedRow(s)[k].mask, Decimals(s, end));
    assert end % 10 != 0;
    DecimalsSnoc(s, end);
  }

  /** A solved interval ending below `end` is taken and the walk resumes after it. */
  lemma WalkBelow(start: nat, s: nat, end: nat, fixed: bool, k: nat, rest: seq<string>)
    requires s < end <= 255
    requires k < |SeedRow(s)| && SeedRow(s)[k].end < end
    requires ExpandAll(rest) == Some(WalkMeaning(start, SeedRow(s)[k].end + 1, end, fixed))
    ensures ExpandAll([SeedRow(s)[k].mask] + rest) == Some(WalkMeaning(start, s, end, fixed))
  {
    hide Fragment, ExpandAll, SeedRow, DecadeRow;
    var e := SeedRow(s)[k].end;
    SeedRowSound(s, k);
    ExpandAllOne(SeedRow(s)[k].mask, Decimals(s, e));
    ExpandAllAppend([SeedRow(s)[k].mask], rest, Decimals(s, e), WalkMeaning(start, e + 1, end, fixed));
    DecimalsSplit(s, e, end - 1);
    var last := [Itoa(FinalValue(start, end, fixed))];
    assert Decimals(s, e) + (Decimals(e + 1, end - 1) + last) == Decimals(s, end - 1) + last;
  }

  /** Splitting at a boundary `next`: the walk to `next - 1` restarted from `s`, then the walk from `next`. */
  lemma WalkSplit(start: nat, s: nat, next: nat, end: nat, fixed: bool, left: seq<string>, right: seq<string>)
    requires s < next <= end <= 255 && next % 10 == 0
    requires ExpandAll(left) == Some(WalkMeaning(s, s, next - 1, fixed))
    requires ExpandAll(right) == Some(WalkMeaning(start, next, end, fixed))
    ensures ExpandAll(left + right) == Some(WalkMeaning(start, s, end, fixed))
  {
    hide Fragment, ExpandAll, SeedRow, DecadeRow;
    assert (next - 1) % 10 == 9;
    assert FinalValue(s, next - 1, fixed) == next - 1;
    DecimalsSnoc(s, next - 1);
    ExpandAllAppend(left, right, Decimals(s, next - 1), WalkMeaning(start, next, end, fixed));
    DecimalsSplit(s, next - 1, end - 1);
    var last := [Itoa(FinalValue(start, end, fixed))];
    assert Decimals(s, next - 1) + (Decimals(next, end - 1) + last) == Decimals(s, end - 1) + last;
  }

  /** Within one decade the units pattern finishes the walk. */
  lemma WalkUnits(start: nat, s: nat, end: nat, fixed: bool)
    requires s < end <= 255 && s / 10 == end / 10
    ensures ExpandAll([UnitMask(s / 10, s % 10, end % 10)]) == Some(WalkMeaning(start, s, end, fixed))
  {
    hide Fragment;
    UnitMaskSound(s / 10, s % 10, end % 10);
    assert 10 * (s / 10) + s % 10 == s && 10 * (s / 10) + end % 10 == end;
    ExpandAllOne(UnitMask(s / 10, s % 10, end % 10), Decimals(s, end));
    assert end % 10 != 0;
    DecimalsSnoc(s, end);
  }

  // One step of the walk, as a rewriting rule for each case of `Walk`.

  lemma WalkStepEnd(start: nat, s: nat, fixed: bool)
    requires s <= 255
    ensures Walk(start, s, s, fixed) == [Itoa(if fixed then s else start)]
  {
  }

  lemma WalkStepExact(start: nat, s: nat, end: nat, fixed: bool, k: nat)
    requires s < end <= 255 && ScanRow(SeedRow(s), end) == Exact(k)
    ensures Walk(start, s, end, fixed) == [SeedRow(s)[k].mask]
  {
    hide Fragment, DecadeRow, UnitMask, SeedRow, ScanRow;
  }

  lemma WalkStepBelow(start: nat, s: nat, end: nat, fixed: bool, k: nat)
    requires s < end <= 255 && ScanRow(SeedRow(s), end) == Below(k)
    ensures SeedRow(s)[k].end < end
    ensures Walk(start, s, end, fixed) == [SeedRow(s)[k].mask] + Walk(start, SeedRow(s)[k].end + 1, end, fixed)
  {
    hide Fragment, DecadeRow, UnitMask, SeedRow, ScanRow;
  }

  lemma WalkStepSplit(start: nat, s: nat, end: nat, fixed: bool)
    requires s < end <= 255 && ScanRow(SeedRow(s), end) == NoFit && s / 10 < end / 10
    ensures Walk(start, s, end, fixed) == Walk(s, s, Boundary(s, end) - 1, fixed) + Walk(start, Boundary(s, end), end, fixed)
  {
    hide Fragment, DecadeRow, UnitMask, SeedRow, ScanRow, Boundary;
  }


  lemma WalkStepUnits(start: nat, s: nat, end: nat, fixed: bool)
    requires s < end <= 255 && ScanRow(SeedRow(s), end) == NoFit && s / 10 == end / 10
    ensures Walk(start, s, end, fixed) == [UnitMask(s / 10, s % 10, end % 10)]
  {
    hide Fragment, DecadeRow, UnitMask, SeedRow, ScanRow;
    assert s / 100 == end / 100;
  }

  /**
    What the walk of `lookup` produces: the texts of `s`..`end - 1`, then
    the text of `FinalValue`, provided the walk starts at `start` or at a
    decade boundary (the only positions the source resumes from).
   */
  lemma {:induction false} WalkExpansion(start: nat, s: nat, end: nat, fixed: bool)
    requires s <= end <= 255
    requires s == start || s % 10 == 0
    ensures ExpandAll(Walk(start, s, end, fixed)) == Some(WalkMeaning(start, s, end, fixed))
    decreases end - s
  {
    hide Fragment, ExpandAll, WalkMeaning, SeedRow, DecadeRow, UnitMask, Walk, ScanRow, Boundary, Itoa, Decimals;
    if s == end {
      WalkStepEnd(start, s, fixed);
      WalkAtEnd(start, s, end, fixed);
    } else {
      match ScanRow(SeedRow(s), end)
      case Exact(k) =>
        WalkStepExact(start, s, end, fixed, k);
        WalkExact(start, s, end, fixed, k);
      case Below(k) =>
        WalkStepBelow(start, s, end, fixed, k);
        var e := SeedRow(s)[k].end;
        assert e % 10 == 9;
        WalkExpansion(start, e + 1, end, fixed);
        WalkBelow(start, s, end, fixed, k, Walk(start, e + 1, end, fixed));
      case NoFit =>
        if s / 10 < end / 10 {
          var next := Boundary(s, end);
          WalkStepSplit(start, s, end, fixed);
          WalkExpansion(s, s, next - 1, fixed);
          WalkExpansion(start, next, end, fixed);
          WalkSplit(start, s, next, end, fixed, Walk(s, s, next - 1, fixed), Walk(start, next, end, fixed));
        } else {
          WalkStepUnits(start, s, end, fixed);
          WalkUnits(start, s, end, fixed);
        }
    }
  }

}
