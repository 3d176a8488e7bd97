/**
  What one assembled mask stands for. Every pattern `cidr2hcmask` chooses
  is a comma-free body, possibly preceded by one declaration of its own;
  `expandRec` moves the declarations to the front and joins the bodies with
  dots, so the mask stands for the dotted products of what its patterns
  stand for one by one.
 */
module MaskMeaning {
  import opened Wrappers
  import opened Decimal
  import opened HCMask
  import opened Byte
  import opened ByteCoverage
  import opened Cidr
  import opened Assemble
  import opened Seqs

  // ---------------------------------------------------------------------------
  // The shape of a pattern

  /**
    A pattern is a non-empty comma-free body, or a non-empty declaration,
    a comma and a non-empty comma-free body.
   */
  predicate Shaped(f: string) {
    match FirstIndex(f, ',')
    case None => |f| >= 1
    case Some(p) => 0 < p && p + 1 < |f| && ',' !in f[p + 1..]
  }

  /** The declaration a pattern carries, if any: the text before its comma. */
  function OwnOf(f: string): (r: seq<string>)
    ensures |r| <= 1
  {
    match FirstIndex(f, ',')
    case None => []
    case Some(p) => [f[..p]]
  }

  /** The body of a pattern: the text after its comma, or all of it. */
  function BodyOf(f: string): (r: string) {
    match FirstIndex(f, ',')
    case None => f
    case Some(p) => f[p + 1..]
  }

  /** A shaped pattern is its declarations followed by its body, and `expandRec` moves exactly the declarations. */
  lemma ShapedParts(charsets: string, f: string)
    requires Shaped(f)
    ensures f == Declarations(OwnOf(f)) + BodyOf(f)
    ensures |BodyOf(f)| >= 1 && ',' !in BodyOf(f)
    ensures forall k | 0 <= k < |OwnOf(f)| :: |OwnOf(f)[k]| >= 1 && ',' !in OwnOf(f)[k]
    ensures SplitDecl(charsets, f) == (charsets + Declarations(OwnOf(f)), BodyOf(f))
  {
    match FirstIndex(f, ',')
    case None =>
      assert Declarations(OwnOf(f)) == "";
      assert charsets + "" == charsets && "" + f == f;
    case Some(p) =>
      var d := f[..p];
      assert Declarations([d]) == d + ",";
      assert f == d + "," + f[p + 1..];
      assert charsets + (d + ",") == charsets + f[..p + 1];
  }

  /** A comma-free non-empty text is a pattern without a declaration. */
  lemma PlainShaped(b: string)
    requires |b| >= 1 && ',' !in b
    ensures Shaped(b) && OwnOf(b) == [] && BodyOf(b) == b
  {
  }

  /** A declaration, a comma and a body is a pattern with that declaration and that body. */
  lemma DeclShaped(d: string, b: string)
    requires |d| >= 1 && ',' !in d
    requires |b| >= 1 && ',' !in b
    ensures Shaped(d + "," + b) && OwnOf(d + "," + b) == [d] && BodyOf(d + "," + b) == b
  {
    var f := d + "," + b;
    assert f[..|d|] == d && f[|d|] == ',' && f[|d| + 1..] == b;
    var p := FirstIndex(f, ',').value;
    assert p == |d| by {
      assert forall k | 0 <= k < |d| :: f[k] != ',';
      assert forall k | 0 <= k < p :: f[k] != ',';
    }
  }

  /** The decimal text of a number is a pattern without a declaration. */
  lemma ItoaShaped(n: nat)
    ensures Shaped(Itoa(n)) && OwnOf(Itoa(n)) == [] && BodyOf(Itoa(n)) == Itoa(n)
  {
    DigitsPlain(Itoa(n));
    PlainShaped(Itoa(n));
  }

  /** The five patterns for a whole byte carry no declaration. */
  lemma AnyByteShaped(f: string)
    requires f in Masks0to255
    ensures Shaped(f) && OwnOf(f) == [] && BodyOf(f) == f
  {
    assert ',' !in Mask100to199 && ',' !in Mask200to249 && ',' !in Mask250to255;
    assert ',' !in Mask10to99 && ',' !in Mask0to9;
    PlainShaped(f);
  }

  /** The pattern for the units `u`..`v` of a decade. */
  lemma UnitMaskShaped(q: nat, u: nat, v: nat)
    requires u <= v <= 9
    ensures Shaped(UnitMask(q, u, v))
  {
    var prefix := Prefix(q);
    DigitsPlain(prefix);
    if (u == 0 && v == 9) || (u == 0 && v == 5) || (u == 0 && v == 4) || (u == 1 && v == 9) {
      PlainShaped(UnitMask(q, u, v));
    } else {
      DigitRunPlain(u, v);
      assert UnitMask(q, u, v) == Digits(u, v) + "," + (prefix + "?4");
      DeclShaped(Digits(u, v), prefix + "?4");
    }
  }

  /** Every pattern stored in the seeded table. */
  lemma SeedRowShaped(s: nat, m: nat)
    requires s < 256 && m < |SeedRow(s)|
    ensures Shaped(SeedRow(s)[m].mask)
  {
    hide DecadeRow, Shaped, Digits, Prefix, GroupMask, Itoa;
    if s == 250 {
      assert SeedRow(s) == [RangeMask(255, Mask250to255)];
      PlainShaped(Mask250to255);
    } else {
      SeedRowDecade(s);
      var i := s / 10 % 10;
      var k := LastTens(s) - i;
      DecadeRowEntry(s, i, k, GroupMask(s), m);
      if m == k {
        DigitsPlain(Prefix(s / 10));
        PlainShaped(Prefix(s / 10) + Mask0to9);
      } else {
        DigitRunPlain(i, i + (k - m));
        GroupMaskPlain(s);
        DeclShaped(Digits(i, i + (k - m)), GroupMask(s));
      }
    }
  }

  lemma GroupMaskPlain(s: nat)
    ensures |GroupMask(s)| >= 1 && ',' !in GroupMask(s)
  {
  }

  predicate AllShaped(fs: seq<string>) {
    forall k | 0 <= k < |fs| :: Shaped(fs[k])
  }

  /** Every pattern the walk of `lookup` emits is shaped. */
  lemma {:induction false} WalkShaped(start: nat, s: nat, end: nat, fixed: bool)
    requires s <= end <= 255
    ensures AllShaped(Walk(start, s, end, fixed))
    decreases end - s
  {
    hide Shaped, SeedRow, DecadeRow, UnitMask, Walk, ScanRow, Boundary, Itoa;
    if s == end {
      WalkStepEnd(start, s, fixed);
      ItoaShaped(if fixed then s else start);
    } else {
      match ScanRow(SeedRow(s), end)
      case Exact(k) =>
        WalkStepExact(start, s, end, fixed, k);
        SeedRowShaped(s, k);
      case Below(k) =>
        WalkStepBelow(start, s, end, fixed, k);
        SeedRowShaped(s, k);
        WalkShaped(start, SeedRow(s)[k].end + 1, end, fixed);
      case NoFit =>
        if s / 10 < end / 10 {
          var next := Boundary(s, end);
          WalkStepSplit(start, s, end, fixed);
          WalkShaped(s, s, next - 1, fixed);
          WalkShaped(start, next, end, fixed);
        } else {
          WalkStepUnits(start, s, end, fixed);
          UnitMaskShaped(s / 10, s % 10, end % 10);
        }
    }
  }

  /** Every pattern `lookup` returns is shaped. */
  lemma LookupShaped(start: nat, end: nat)
    requires start <= 255 && end <= 255
    ensures AllShaped(Lookup(start, end))
  {
    if start <= end {
      WalkShaped(start, start, end, false);
    }
  }

  // ---------------------------------------------------------------------------
  // Assembling a choice of patterns

  /** The declarations a choice of patterns carries, in octet order. */
  function OwnDecls(choice: seq<string>): (r: seq<string>)
    decreases |choice|
  {
    if |choice| == 0 then [] else OwnOf(choice[0]) + OwnDecls(choice[1..])
  }

  /** The bodies of a choice of patterns, in octet order. */
  function Bodies(choice: seq<string>): (r: seq<string>)
    ensures |r| == |choice|
    ensures forall i | 0 <= i < |r| :: r[i] == BodyOf(choice[i])
  {
    seq(|choice|, i requires 0 <= i < |choice| => BodyOf(choice[i]))
  }

  /**
    The mask `expandRec` builds for a choice of shaped patterns: every
    declaration moved after the charsets so far, then the pattern so far and
    the bodies, separated by dots.
   */
  lemma {:induction false} AssembledParts(charsets: string, pattern: string, choice: seq<string>)
    requires |choice| >= 1 && AllShaped(choice)
    ensures Assembled(charsets, pattern, choice)
      == charsets + Declarations(OwnDecls(choice)) + Dotted(pattern) + Join(Bodies(choice), '.')
    decreases |choice|
  {
    hide Shaped, OwnOf, BodyOf, SplitDecl, Assembled, Declarations, Join, Dotted, Bodies, OwnDecls;
    var f := choice[0];
    ShapedParts(charsets, f);
    var own, b := OwnOf(f), BodyOf(f);
    var cs := charsets + Declarations(own);
    AssembledUnfold(charsets, pattern, choice);
    PartsCons(choice);
    if |choice| == 1 {
      assert OwnDecls(choice) == own;
      assert Join(Bodies(choice), '.') == b;
      AppendAssoc(cs, Dotted(pattern), b);
    } else {
      var rest := choice[1..];
      assert AllShaped(rest) by {
        forall k | 0 <= k < |rest|
          ensures Shaped(rest[k])
        {
          assert rest[k] == choice[k + 1];
        }
      }
      AssembledParts(cs, Dotted(pattern) + b, rest);
      DottedNonEmpty(Dotted(pattern) + b);
      DeclarationsAppend(own, OwnDecls(rest));
      var d1, d2, j := Declarations(own), Declarations(OwnDecls(rest)), Join(Bodies(rest), '.');
      Regroup(charsets, d1, d2, Dotted(pattern), b, j);
    }
  }

  lemma AssembledUnfold(charsets: string, pattern: string, choice: seq<string>)
    requires |choice| >= 1
    ensures Assembled(charsets, pattern, choice) ==
      var (cs, m) := SplitDecl(charsets, choice[0]);
      if |choice| == 1 then cs + Dotted(pattern) + m else Assembled(cs, Dotted(pattern) + m, choice[1..])
  {
    hide SplitDecl, Dotted;
  }

  /** The declarations and bodies of a choice: those of its first pattern, then those of the rest. */
  lemma PartsCons(choice: seq<string>)
    requires |choice| >= 1
    ensures OwnDecls(choice) == OwnOf(choice[0]) + OwnDecls(choice[1..])
    ensures |choice| == 1 ==> OwnDecls(choice) == OwnOf(choice[0]) && Join(Bodies(choice), '.') == BodyOf(choice[0])
    ensures |choice| > 1 ==> Join(Bodies(choice), '.') == BodyOf(choice[0]) + "." + Join(Bodies(choice[1..]), '.')
  {
    hide OwnOf, BodyOf;
    if |choice| == 1 {
      assert OwnOf(choice[0]) + [] == OwnOf(choice[0]);
      assert Bodies(choice) == [BodyOf(choice[0])];
    } else {
      assert Bodies(choice)[1..] == Bodies(choice[1..]);
    }
  }

  lemma DottedNonEmpty(x: string)
    requires |x| >= 1
    ensures Dotted(x) == x + "."
  {
  }

  lemma Regroup(c: string, d1: string, d2: string, p: string, b: string, j: string)
    ensures c + d1 + d2 + (p + b + ".") + j == c + (d1 + d2) + p + (b + "." + j)
  {
  }

  /** The declarations of a choice in which only the pattern at `p` may declare a charset. */
  lemma {:induction false} OwnDeclsSingle(choice: seq<string>, p: nat)
    requires p < |choice|
    requires forall i | 0 <= i < |choice| && i != p :: OwnOf(choice[i]) == []
    ensures OwnDecls(choice) == OwnOf(choice[p])
    decreases |choice|
  {
    hide OwnOf;
    var rest := choice[1..];
    if p == 0 {
      OwnDeclsNone(rest);
      assert OwnOf(choice[0]) + [] == OwnOf(choice[0]);
    } else {
      OwnDeclsSingle(rest, p - 1);
      assert rest[p - 1] == choice[p];
      assert [] + OwnOf(choice[p]) == OwnOf(choice[p]);
    }
  }

  lemma {:induction false} OwnDeclsNone(choice: seq<string>)
    requires forall i | 0 <= i < |choice| :: OwnOf(choice[i]) == []
    ensures OwnDecls(choice) == []
    decreases |choice|
  {
    hide OwnOf;
    if |choice| > 0 {
      OwnDeclsNone(choice[1..]);
    }
  }

  // ---------------------------------------------------------------------------
  // Tokenizing the joined bodies

  /** The strings a body stands for under a charset table; nothing where the expander panics. */
  function TokenTexts(body: string, charsets: seq<string>): (r: seq<string>)
    requires |charsets| == 5
  {
    match Tokenize(body, charsets)
    case None => []
    case Some(ts) => ExpandTokens(ts)
  }

  /** Tokenizing a concatenation whose first part tokenizes on its own. */
  lemma {:induction false} TokenizeAppend(a: string, b: string, charsets: seq<string>)
    requires |charsets| == 5 && Tokenize(a, charsets).Some?
    ensures Tokenize(a + b, charsets) ==
      match Tokenize(b, charsets)
      case None => None
      case Some(tb) => Some(Tokenize(a, charsets).value + tb)
    decreases |a|
  {
    if |a| == 0 {
      assert a + b == b;
      match Tokenize(b, charsets) {
        case None =>
        case Some(tb) => assert [] + tb == tb;
      }
    } else if a[0] != '?' {
      assert (a + b)[0] == a[0] && (a + b)[1..] == a[1..] + b;
      TokenizeAppend(a[1..], b, charsets);
      match Tokenize(b, charsets) {
        case None =>
        case Some(tb) => AppendAssoc([Lit(a[0])], Tokenize(a[1..], charsets).value, tb);
      }
    } else {
      assert (a + b)[0] == '?' && (a + b)[1] == a[1] && (a + b)[2..] == a[2..] + b;
      TokenizeAppend(a[2..], b, charsets);
      match Tokenize(b, charsets) {
        case None =>
        case Some(tb) => AppendAssoc([Class(charsets[Selector(a[1]).value])], Tokenize(a[2..], charsets).value, tb);
      }
    }
  }

  /** Patterns joined by dots: each varies slower than the ones after it. */
  function DotProduct(xss: seq<seq<string>>): (r: seq<string>)
    requires |xss| >= 1
    decreases |xss|
  {
    if |xss| == 1 then xss[0] else Product(xss[0], Prepend(".", DotProduct(xss[1..])))
  }

  /** A dot in front of a body that tokenizes. */
  lemma TokenizeDot(j: string, charsets: seq<string>)
    requires |charsets| == 5 && Tokenize(j, charsets).Some?
    ensures Tokenize("." + j, charsets) == Some([Lit('.')] + Tokenize(j, charsets).value)
    ensures ExpandTokens([Lit('.')] + Tokenize(j, charsets).value) == Prepend(".", ExpandTokens(Tokenize(j, charsets).value))
  {
    assert ("." + j)[1..] == j;
    var tj := Tokenize(j, charsets).value;
    assert ([Lit('.')] + tj)[1..] == tj;
    ProductSingleLeft(".", ExpandTokens(tj));
  }

  /** Bodies joined by dots stand for the dotted products of what each body stands for. */
  lemma {:induction false} TokenizeJoin(bodies: seq<string>, charsets: seq<string>)
    requires |charsets| == 5 && |bodies| >= 1
    requires forall i | 0 <= i < |bodies| :: Tokenize(bodies[i], charsets).Some?
    ensures Tokenize(Join(bodies, '.'), charsets).Some?
    ensures TokenTexts(Join(bodies, '.'), charsets)
      == DotProduct(seq(|bodies|, i requires 0 <= i < |bodies| => TokenTexts(bodies[i], charsets)))
    decreases |bodies|
  {
    var xss := seq(|bodies|, i requires 0 <= i < |bodies| => TokenTexts(bodies[i], charsets));
    if |bodies| == 1 {
      assert Join(bodies, '.') == bodies[0];
    } else {
      var rest := bodies[1..];
      var j := Join(rest, '.');
      TokenizeJoin(rest, charsets);
      assert xss[1..] == seq(|rest|, i requires 0 <= i < |rest| => TokenTexts(rest[i], charsets));
      TokenizeDot(j, charsets);
      assert Join(bodies, '.') == bodies[0] + ("." + j);
      TokenizeAppend(bodies[0], "." + j, charsets);
      var t0, tj := Tokenize(bodies[0], charsets).value, Tokenize(j, charsets).value;
      ExpandAppend(t0, [Lit('.')] + tj);
    }
  }

  // ---------------------------------------------------------------------------
  // Patterns that only read the default charsets

  /** A body without a `?4` selector: it reads only `?d` and the three default charsets. */
  predicate DefaultSlots(b: string)
    decreases |b|
  {
    if |b| < 2 then true
    else if b[0] != '?' then DefaultSlots(b[1..])
    else b[1] != '4' && DefaultSlots(b[2..])
  }

  /** Such a body tokenizes the same under two tables that agree on their first four slots. */
  lemma {:induction false} TokenizeDefaults(b: string, t1: seq<string>, t2: seq<string>)
    requires |t1| == 5 && |t2| == 5 && t1[..4] == t2[..4]
    requires DefaultSlots(b)
    ensures Tokenize(b, t1) == Tokenize(b, t2)
    decreases |b|
  {
    if |b| >= 2 {
      if b[0] != '?' {
        TokenizeDefaults(b[1..], t1, t2);
      } else {
        TokenizeDefaults(b[2..], t1, t2);
        match Selector(b[1]) {
          case None =>
          case Some(k) =>
            assert t1[k] == t1[..4][k] && t2[k] == t2[..4][k];
        }
      }
    }
  }

  lemma {:induction false} NoSelectorDefaults(b: string)
    requires '?' !in b
    ensures DefaultSlots(b)
    decreases |b|
  {
    if |b| >= 2 {
      NoSelectorDefaults(b[1..]);
    }
  }

  lemma AnyByteDefaults(f: string)
    requires f in Masks0to255
    ensures DefaultSlots(f)
  {
    assert DefaultSlots("?d");
    assert DefaultSlots("?d?d") && DefaultSlots("1?d?d");
    assert DefaultSlots("?1?d") && DefaultSlots("2?1?d");
    assert DefaultSlots("?2") && DefaultSlots("5?2") && DefaultSlots("25?2");
    assert DefaultSlots("?3?d");
  }

  lemma SlotTablesAgree(own: seq<string>)
    requires |own| <= 1
    ensures SlotTable(own)[..4] == SlotTable([])[..4]
  {
  }

  // ---------------------------------------------------------------------------
  // The meaning of an assembled mask

  /** The strings one pattern stands for after the default declarations; nothing where the expander panics. */
  function Texts(f: string): (r: seq<string>) {
    match Fragment(f)
    case None => []
    case Some(x) => x
  }

  /** A shaped pattern stands for what its body stands for under its own charset table. */
  lemma ShapedTexts(f: string)
    requires Shaped(f)
    ensures Fragment(f).Some? <==> Tokenize(BodyOf(f), SlotTable(OwnOf(f))).Some?
    ensures Texts(f) == TokenTexts(BodyOf(f), SlotTable(OwnOf(f)))
  {
    hide Fragment, Shaped, OwnOf, BodyOf;
    ShapedParts("", f);
    FragmentBody(OwnOf(f), BodyOf(f));
  }

  lemma DefaultDeclsAre()
    ensures DefaultDecls == Declarations(DefaultCharsets)
  {
    var d := DefaultCharsets;
    assert d[3..] == [] && d[2..][1..] == d[3..] && d[1..][1..] == d[2..];
    assert Declarations(d[2..]) == Charset19 + "," + "";
    assert Declarations(d[1..]) == Charset05 + "," + (Charset19 + "," + "");
  }

  /**
    A mask assembled from shaped patterns, of which only the one at `p` may
    declare a charset and the others read only the default ones, stands for
    the dotted products of what its patterns stand for one by one.
   */
  lemma AssembledMeaning(choice: seq<string>, p: nat)
    requires |choice| >= 1 && AllShaped(choice) && p < |choice|
    requires forall i | 0 <= i < |choice| && i != p :: OwnOf(choice[i]) == [] && DefaultSlots(BodyOf(choice[i]))
    requires forall i | 0 <= i < |choice| :: Fragment(choice[i]).Some?
    ensures ExpandMask(Assembled(DefaultDecls, "", choice))
      == Some(DotProduct(seq(|choice|, i requires 0 <= i < |choice| => Texts(choice[i]))))
  {
    hide Fragment, Shaped, OwnOf, BodyOf, Assembled, Declarations, Join, Dotted, Bodies, OwnDecls, Tokenize, TokenTexts, DotProduct, Texts, SlotTable, ExpandMask, DefaultSlots;
    var owns := OwnOf(choice[p]);
    var bodies := Bodies(choice);
    var j := Join(bodies, '.');
    var table := SlotTable(owns);
    MaskOfChoice(choice, p);
    FragmentDecls(owns, j);
    ShapedParts("", choice[p]);
    forall i | 0 <= i < |choice|
      ensures ',' !in bodies[i]
      ensures Tokenize(bodies[i], table).Some?
      ensures TokenTexts(bodies[i], table) == Texts(choice[i])
    {
      BodyTexts(choice, p, i);
    }
    JoinExcludes(bodies, '.', ',');
    FragmentBody(owns, j);
    TokenizeJoin(bodies, table);
    TokenTextsSome(j, table);
    assert seq(|bodies|, i requires 0 <= i < |bodies| => TokenTexts(bodies[i], table))
      == seq(|choice|, i requires 0 <= i < |choice| => Texts(choice[i]));
  }

  lemma TokenTextsSome(b: string, charsets: seq<string>)
    requires |charsets| == 5 && Tokenize(b, charsets).Some?
    ensures TokenTexts(b, charsets) == ExpandTokens(Tokenize(b, charsets).value)
  {
    hide Tokenize, ExpandTokens;
  }

  /** The mask of a choice in which only the pattern at `p` may declare a charset. */
  lemma MaskOfChoice(choice: seq<string>, p: nat)
    requires |choice| >= 1 && AllShaped(choice) && p < |choice|
    requires forall i | 0 <= i < |choice| && i != p :: OwnOf(choice[i]) == []
    ensures Assembled(DefaultDecls, "", choice) == Declarations(DefaultCharsets + OwnOf(choice[p])) + Join(Bodies(choice), '.')
  {
    hide Fragment, Shaped, OwnOf, BodyOf, Assembled, Declarations, Join, Dotted, Bodies, OwnDecls, Tokenize, TokenTexts, DotProduct, Texts, SlotTable, ExpandMask, DefaultSlots;
    OwnDeclsSingle(choice, p);
    var owns := OwnOf(choice[p]);
    AssembledParts(DefaultDecls, "", choice);
    assert Dotted("") == "" by {
      DottedEmpty();
    }
    DefaultDeclsAre();
    DeclarationsAppend(DefaultCharsets, owns);
    AppendEmpty(DefaultDecls + Declarations(owns));
  }

  lemma DottedEmpty()
    ensures Dotted("") == ""
  {
  }

  /** Each body of such a choice tokenizes under the mask's table to what its pattern stands for alone. */
  lemma BodyTexts(choice: seq<string>, p: nat, i: nat)
    requires |choice| >= 1 && AllShaped(choice) && p < |choice| && i < |choice|
    requires forall i | 0 <= i < |choice| && i != p :: OwnOf(choice[i]) == [] && DefaultSlots(BodyOf(choice[i]))
    requires Fragment(choice[i]).Some?
    ensures ',' !in Bodies(choice)[i]
    ensures Tokenize(Bodies(choice)[i], SlotTable(OwnOf(choice[p]))).Some?
    ensures TokenTexts(Bodies(choice)[i], SlotTable(OwnOf(choice[p]))) == Texts(choice[i])
  {
    hide Fragment, Shaped, OwnOf, BodyOf, Assembled, Declarations, Join, Dotted, OwnDecls, Tokenize, TokenTexts, DotProduct, Texts, SlotTable, ExpandMask, DefaultSlots;
    var f := choice[i];
    ShapedParts("", f);
    ShapedTexts(f);
    ShapedParts("", choice[p]);
    if i != p {
      SlotTablesAgree(OwnOf(choice[p]));
      TokenizeDefaults(BodyOf(f), SlotTable(OwnOf(choice[p])), SlotTable([]));
      TokenTextsAgree(BodyOf(f), SlotTable(OwnOf(choice[p])), SlotTable([]));
    }
  }

  lemma TokenTextsAgree(b: string, t1: seq<string>, t2: seq<string>)
    requires |t1| == 5 && |t2| == 5 && Tokenize(b, t1) == Tokenize(b, t2)
    ensures TokenTexts(b, t1) == TokenTexts(b, t2)
  {
    hide Tokenize, ExpandTokens;
  }
}
