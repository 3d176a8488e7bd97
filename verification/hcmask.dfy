/**
  What a hashcat mask denotes, as the reference expander `HCMaskExpand`
  computes it: the mask is split at every comma, the last field is the
  pattern body and the fields before it are the declarations of the custom
  charsets `?1`..`?4`; `?d` is the digit charset. The expansion enumerates
  every string the body matches, the first wildcard varying slowest.
 */
module HCMask {
  import opened Wrappers
  import opened Decimal

  /** The charset selected by `?d` (and by `?0`, slot 0 of the expander). */
  const DigitCharset: string := "0123456789"

  /** `strings.Split(s, string(sep))`: the fields between separators, never empty. */
  function Split(s: string, sep: char): (r: seq<string>)
    ensures |r| >= 1
    decreases |s|
  {
    if |s| == 0 then [""]
    else
      var rest := Split(s[1..], sep);
      if s[0] == sep then [""] + rest else [[s[0]] + rest[0]] + rest[1..]
  }

  /** Joining fields with a separator, the inverse of `Split`. */
  function Join(parts: seq<string>, sep: char): (r: string)
    requires |parts| >= 1
    decreases |parts|
  {
    if |parts| == 1 then parts[0] else parts[0] + [sep] + Join(parts[1..], sep)
  }

  /** One position of the pattern body: a literal character or a charset to range over. */
  datatype Token = Lit(c: char) | Class(cs: string)

  /**
    The slot a `?x` selector picks in the expander's five-entry charset table;
    `None` where the expander would index out of range.
   */
  function Selector(c: char): (r: Option<nat>)
    ensures r.Some? ==> r.value < 5
    ensures r.Some? <==> c == 'd' || '0' <= c <= '4'
  {
    if c == 'd' then Some(0) else if '0' <= c <= '4' then Some(c as int - 48) else None
  }

  /**
    The pattern body as tokens. `None` on a trailing `?`, where the
    expander's scan reads past the end of the pattern, and on a selector
    outside `d`, `0`..`4`. The expander only fails on such a selector when
    its recursion reaches it, which an earlier empty charset prevents; here
    the selector is rejected whatever precedes it.
   */
  function Tokenize(p: string, charsets: seq<string>): (r: Option<seq<Token>>)
    requires |charsets| == 5
    decreases |p|
  {
    if |p| == 0 then Some([])
    else if p[0] != '?' then
      var rest :- Tokenize(p[1..], charsets);
      Some([Lit(p[0])] + rest)
    else if |p| == 1 then None
    else
      var k :- Selector(p[1]);
      var rest :- Tokenize(p[2..], charsets);
      Some([Class(charsets[k])] + rest)
  }

  /** Every string of `ys` prefixed by `x`. */
  function Prepend(x: string, ys: seq<string>): (r: seq<string>)
    ensures |r| == |ys|
    ensures forall k | 0 <= k < |r| :: r[k] == x + ys[k]
  {
    seq(|ys|, k requires 0 <= k < |ys| => x + ys[k])
  }

  /** All concatenations `x + y`, with `x` varying slowest. */
  function Product(xs: seq<string>, ys: seq<string>): (r: seq<string>)
    decreases |xs|
  {
    if |xs| == 0 then [] else Prepend(xs[0], ys) + Product(xs[1..], ys)
  }

  /** The one-character strings of a charset, in charset order. */
  function Singles(cs: string): (r: seq<string>)
    ensures |r| == |cs|
    ensures forall k | 0 <= k < |r| :: r[k] == [cs[k]]
  {
    seq(|cs|, k requires 0 <= k < |cs| => [cs[k]])
  }

  /** The strings one token stands for. */
  function Choices(t: Token): (r: seq<string>) {
    match t
    case Lit(c) => [[c]]
    case Class(cs) => Singles(cs)
  }

  /** The strings a token sequence matches, the first token varying slowest. */
  function ExpandTokens(ts: seq<Token>): (r: seq<string>)
    decreases |ts|
  {
    if |ts| == 0 then [""] else Product(Choices(ts[0]), ExpandTokens(ts[1..]))
  }

  /** The expander's charset table: `?d`, then the declarations, then empty slots. */
  function Charsets(parts: seq<string>): (r: seq<string>)
    requires 1 <= |parts| <= 5
    ensures |r| == 5
  {
    [DigitCharset] + parts[..|parts| - 1] + seq(5 - |parts|, _ => "")
  }

  /**
    `HCMaskExpand`: the strings a mask denotes. `None` for more than four
    declarations, a trailing `?` or a selector outside `d`, `0`..`4`.
   */
  function ExpandMask(mask: string): (r: Option<seq<string>>) {
    var parts := Split(mask, ',');
    if |parts| > 5 then None
    else
      var ts :- Tokenize(parts[|parts| - 1], Charsets(parts));
      Some(ExpandTokens(ts))
  }

  /** The pattern body of a mask: the text after its last comma. */
  function Body(mask: string): (r: string) {
    var parts := Split(mask, ',');
    parts[|parts| - 1]
  }

  // ---------------------------------------------------------------------------
  // Split and Join

  lemma {:induction false} SplitJoin(s: string, sep: char)
    ensures Join(Split(s, sep), sep) == s
    ensures forall k | 0 <= k < |Split(s, sep)| :: sep !in Split(s, sep)[k]
    decreases |s|
  {
    if |s| > 0 {
      SplitJoin(s[1..], sep);
      var rest := Split(s[1..], sep);
      if s[0] == sep {
        assert Split(s, sep)[1..] == rest;
      } else {
        var r := Split(s, sep);
        if |rest| > 1 {
          assert r[1..] == rest[1..];
        }
      }
    }
  }

  /** A field without separator splits to itself. */
  lemma {:induction false} SplitNoSep(a: string, sep: char)
    requires sep !in a
    ensures Split(a, sep) == [a]
    decreases |a|
  {
    if |a| > 0 {
      SplitNoSep(a[1..], sep);
      assert [a[0]] + a[1..] == a;
    }
  }

  /** A leading separator-free field followed by a separator is split off as the first field. */
  lemma {:induction false} SplitCons(a: string, sep: char, b: string)
    requires sep !in a
    ensures Split(a + [sep] + b, sep) == [a] + Split(b, sep)
    decreases |a|
  {
    if |a| == 0 {
      assert a + [sep] + b == [sep] + b;
      assert ([sep] + b)[1..] == b;
    } else {
      SplitCons(a[1..], sep, b);
      assert (a + [sep] + b)[1..] == a[1..] + [sep] + b;
      assert [a[0]] + a[1..] == a;
    }
  }

  /** Separator-free fields joined with the separator split back into themselves. */
  lemma {:induction false} JoinSplit(parts: seq<string>, sep: char)
    requires |parts| >= 1
    requires forall k | 0 <= k < |parts| :: sep !in parts[k]
    ensures Split(Join(parts, sep), sep) == parts
    decreases |parts|
  {
    if |parts| == 1 {
      SplitNoSep(parts[0], sep);
    } else {
      JoinSplit(parts[1..], sep);
      SplitCons(parts[0], sep, Join(parts[1..], sep));
      assert [parts[0]] + parts[1..] == parts;
    }
  }

  /** A character that is neither the separator nor in any field is not in the joined text. */
  lemma {:induction false} JoinExcludes(parts: seq<string>, sep: char, c: char)
    requires |parts| >= 1 && c != sep
    requires forall k | 0 <= k < |parts| :: c !in parts[k]
    ensures c !in Join(parts, sep)
    decreases |parts|
  {
    if |parts| > 1 {
      JoinExcludes(parts[1..], sep, c);
      assert c !in parts[0] + [sep];
    }
  }

  /** Fields joined by commas, each field followed by its comma: a declaration prefix. */
  function Declarations(decls: seq<string>): (r: string)
    decreases |decls|
  {
    if |decls| == 0 then "" else decls[0] + "," + Declarations(decls[1..])
  }

  /** The declarations of two lists in turn. */
  lemma {:induction false} DeclarationsAppend(a: seq<string>, b: seq<string>)
    ensures Declarations(a + b) == Declarations(a) + Declarations(b)
    decreases |a|
  {
    if |a| > 0 {
      assert (a + b)[1..] == a[1..] + b;
      DeclarationsAppend(a[1..], b);
    } else {
      assert a + b == b;
    }
  }

  /** One more declaration at the end: its text and a comma. */
  lemma DeclarationsSnoc(decls: seq<string>, x: string)
    ensures Declarations(decls + [x]) == Declarations(decls) + x + ","
  {
    DeclarationsAppend(decls, [x]);
    assert Declarations([x]) == x + "," + Declarations([]);
  }

  /** Comma-joined fields: every field but the last as a declaration, then the last. */
  lemma {:induction false} JoinDeclarations(parts: seq<string>)
    requires |parts| >= 1
    ensures Join(parts, ',') == Declarations(parts[..|parts| - 1]) + parts[|parts| - 1]
    decreases |parts|
  {
    if |parts| > 1 {
      JoinDeclarations(parts[1..]);
      assert parts[1..][..|parts| - 2] == parts[..|parts| - 1][1..];
    }
  }

  /** A mask made of comma-free declarations and a comma-free body splits into exactly those. */
  lemma {:induction false} SplitDeclarations(decls: seq<string>, body: string)
    requires forall k | 0 <= k < |decls| :: ',' !in decls[k]
    requires ',' !in body
    ensures Split(Declarations(decls) + body, ',') == decls + [body]
    decreases |decls|
  {
    if |decls| == 0 {
      assert Declarations(decls) + body == body;
      SplitNoSep(body, ',');
    } else {
      SplitDeclarations(decls[1..], body);
      assert Declarations(decls) + body == decls[0] + [','] + (Declarations(decls[1..]) + body);
      SplitCons(decls[0], ',', Declarations(decls[1..]) + body);
    }
  }

  /**
    The meaning of the mask grammar: the body is the text after the last comma,
    declaration N is the N-th field, `?d` is the digit charset and `?N`
    declaration N; a mask with more than four declarations is refused.
   */
  lemma ExpandMaskParts(decls: seq<string>, body: string)
    requires forall k | 0 <= k < |decls| :: ',' !in decls[k]
    requires ',' !in body
    ensures Body(Declarations(decls) + body) == body
    ensures |decls| > 4 ==> ExpandMask(Declarations(decls) + body) == None
    ensures |decls| <= 4 ==>
      var cs := [DigitCharset] + decls + seq(4 - |decls|, _ => "");
      && cs[0] == DigitCharset
      && (forall n | 1 <= n <= |decls| :: cs[n] == decls[n - 1])
      && ExpandMask(Declarations(decls) + body) ==
         match Tokenize(body, cs)
         case None => None
         case Some(ts) => Some(ExpandTokens(ts))
  {
    SplitDeclarations(decls, body);
    var parts := decls + [body];
    assert parts[|parts| - 1] == body;
    if |decls| <= 4 {
      CharsetsOfParts(decls, body);
    }
  }

  /** The expander's charset table for a mask split into `decls` and a body. */
  lemma CharsetsOfParts(decls: seq<string>, body: string)
    requires |decls| <= 4
    ensures Charsets(decls + [body]) == [DigitCharset] + decls + seq(4 - |decls|, _ => "")
  {
    var parts := decls + [body];
    assert parts[..|parts| - 1] == decls;
  }

  // ---------------------------------------------------------------------------
  // Token-level semantics

  /** Literal tokens for every character of `x`. */
  function Lits(x: string): (r: seq<Token>)
    ensures |r| == |x|
    ensures forall k | 0 <= k < |r| :: r[k] == Lit(x[k])
  {
    seq(|x|, k requires 0 <= k < |x| => Lit(x[k]))
  }

  /** The number of wildcard positions among the tokens. */
  function Wildcards(ts: seq<Token>): (r: nat)
    decreases |ts|
  {
    if |ts| == 0 then 0 else (if ts[0].Class? then 1 else 0) + Wildcards(ts[1..])
  }

  /** The number of outputs: the product of the sizes of the wildcards' charsets. */
  function Combinations(ts: seq<Token>): (r: nat)
    decreases |ts|
  {
    if |ts| == 0 then 1 else |Choices(ts[0])| * Combinations(ts[1..])
  }

  /** `x` matches the tokens position by position: literals in place, wildcards from their charset. */
  predicate Matches(ts: seq<Token>, x: string) {
    && |x| == |ts|
    && forall k | 0 <= k < |ts| ::
         match ts[k]
         case Lit(c) => x[k] == c
         case Class(cs) => x[k] in cs
  }

  /** Every output is the body with each wildcard replaced by one character: the length law. */
  lemma {:induction false} TokenizeLength(p: string, charsets: seq<string>)
    requires |charsets| == 5
    requires Tokenize(p, charsets).Some?
    ensures |Tokenize(p, charsets).value| + Wildcards(Tokenize(p, charsets).value) == |p|
    decreases |p|
  {
    var ts := Tokenize(p, charsets).value;
    if |p| > 0 {
      if p[0] != '?' {
        TokenizeLength(p[1..], charsets);
        assert ts[1..] == Tokenize(p[1..], charsets).value;
      } else {
        TokenizeLength(p[2..], charsets);
        assert ts[1..] == Tokenize(p[2..], charsets).value;
      }
    }
  }

  lemma {:induction false} ProductLength(xs: seq<string>, ys: seq<string>)
    ensures |Product(xs, ys)| == |xs| * |ys|
    decreases |xs|
  {
    if |xs| > 0 {
      ProductLength(xs[1..], ys);
    }
  }

  /** The output count is the product of the charsets' sizes. */
  lemma {:induction false} ExpandCount(ts: seq<Token>)
    ensures |ExpandTokens(ts)| == Combinations(ts)
    decreases |ts|
  {
    if |ts| > 0 {
      ExpandCount(ts[1..]);
      ProductLength(Choices(ts[0]), ExpandTokens(ts[1..]));
    }
  }

  /** Membership in a product: exactly the concatenations of a member of each side. */
  lemma {:induction false} ProductMember(xs: seq<string>, ys: seq<string>, z: string)
    ensures z in Product(xs, ys) <==> exists i, j | 0 <= i < |xs| && 0 <= j < |ys| :: z == xs[i] + ys[j]
    decreases |xs|
  {
    if |xs| > 0 {
      ProductMember(xs[1..], ys, z);
      if z in Prepend(xs[0], ys) {
        var j :| 0 <= j < |ys| && Prepend(xs[0], ys)[j] == z;
        assert z == xs[0] + ys[j];
      }
      if exists i, j | 0 <= i < |xs| && 0 <= j < |ys| :: z == xs[i] + ys[j] {
        var i, j :| 0 <= i < |xs| && 0 <= j < |ys| && z == xs[i] + ys[j];
        if i == 0 {
          assert Prepend(xs[0], ys)[j] == z;
        } else {
          assert xs[1..][i - 1] == xs[i];
        }
      }
    }
  }

  /** Every output matches the tokens: one character per token, literals in place, wildcards from their charset. */
  lemma {:induction false} ExpandSound(ts: seq<Token>, x: string)
    requires x in ExpandTokens(ts)
    ensures Matches(ts, x)
    decreases |ts|
  {
    if |ts| > 0 {
      var rest := ExpandTokens(ts[1..]);
      ProductMember(Choices(ts[0]), rest, x);
      var i, j :| 0 <= i < |Choices(ts[0])| && 0 <= j < |rest| && x == Choices(ts[0])[i] + rest[j];
      ExpandSound(ts[1..], rest[j]);
      assert x[1..] == rest[j];
      forall k | 0 <= k < |ts|
        ensures match ts[k] case Lit(c) => x[k] == c case Class(cs) => x[k] in cs
      {
        if k > 0 {
          assert ts[k] == ts[1..][k - 1] && x[k] == rest[j][k - 1];
        }
      }
    }
  }

  /** Every string that matches the tokens is an output. */
  lemma {:induction false} ExpandComplete(ts: seq<Token>, x: string)
    requires Matches(ts, x)
    ensures x in ExpandTokens(ts)
    decreases |ts|
  {
    if |ts| == 0 {
      assert x == "";
    } else {
      var rest := ExpandTokens(ts[1..]);
      var tail := x[1..];
      assert Matches(ts[1..], tail) by {
        forall k | 0 <= k < |ts[1..]|
          ensures match ts[1..][k] case Lit(c) => tail[k] == c case Class(cs) => tail[k] in cs
        {
          assert ts[1..][k] == ts[k + 1] && tail[k] == x[k + 1];
        }
      }
      ExpandComplete(ts[1..], tail);
      var j :| 0 <= j < |rest| && rest[j] == tail;
      var i: int;
      match ts[0] {
        case Lit(c) => i := 0;
        case Class(cs) => i :| 0 <= i < |cs| && cs[i] == x[0];
      }
      assert x == Choices(ts[0])[i] + rest[j];
      ProductMember(Choices(ts[0]), rest, x);
    }
  }

  /**
    The expansion is exactly the set of strings that match the tokens: each
    output has one character per token, literal characters copied in place and
    each wildcard replaced by a character of its charset; and every such string
    is an output.
   */
  lemma ExpandMatches(ts: seq<Token>, x: string)
    ensures x in ExpandTokens(ts) <==> Matches(ts, x)
  {
    if x in ExpandTokens(ts) {
      ExpandSound(ts, x);
    }
    if Matches(ts, x) {
      ExpandComplete(ts, x);
    }
  }

  // ---------------------------------------------------------------------------
  // Algebra of Product, used to compose expansions

  lemma {:induction false} PrependAppend(x: string, ys1: seq<string>, ys2: seq<string>)
    ensures Prepend(x, ys1 + ys2) == Prepend(x, ys1) + Prepend(x, ys2)
  {
  }

  lemma {:induction false} ProductAppendLeft(xs1: seq<string>, xs2: seq<string>, ys: seq<string>)
    ensures Product(xs1 + xs2, ys) == Product(xs1, ys) + Product(xs2, ys)
    decreases |xs1|
  {
    if |xs1| > 0 {
      assert (xs1 + xs2)[1..] == xs1[1..] + xs2;
      ProductAppendLeft(xs1[1..], xs2, ys);
    } else {
      assert xs1 + xs2 == xs2;
    }
  }

  lemma {:induction false} ProductPrepend(x: string, ys: seq<string>, zs: seq<string>)
    ensures Product(Prepend(x, ys), zs) == Prepend(x, Product(ys, zs))
    decreases |ys|
  {
    if |ys| > 0 {
      var p := Prepend(x, ys);
      assert p[1..] == Prepend(x, ys[1..]);
      ProductPrepend(x, ys[1..], zs);
      PrependAppend(x, Prepend(ys[0], zs), Product(ys[1..], zs));
      assert Prepend(p[0], zs) == Prepend(x, Prepend(ys[0], zs)) by {
        forall k | 0 <= k < |zs|
          ensures Prepend(p[0], zs)[k] == Prepend(x, Prepend(ys[0], zs))[k]
        {
          assert p[0] == x + ys[0];
          assert x + ys[0] + zs[k] == x + (ys[0] + zs[k]);
        }
      }
    }
  }

  lemma {:induction false} ProductAssoc(xs: seq<string>, ys: seq<string>, zs: seq<string>)
    ensures Product(Product(xs, ys), zs) == Product(xs, Product(ys, zs))
    decreases |xs|
  {
    if |xs| > 0 {
      ProductAppendLeft(Prepend(xs[0], ys), Product(xs[1..], ys), zs);
      ProductPrepend(xs[0], ys, zs);
      ProductAssoc(xs[1..], ys, zs);
    }
  }

  lemma ProductUnitRight(xs: seq<string>)
    ensures Product(xs, [""]) == xs
    decreases |xs|
  {
    if |xs| > 0 {
      assert xs[0] + "" == xs[0];
      assert Prepend(xs[0], [""]) == [xs[0]];
      ProductUnitRight(xs[1..]);
      assert [xs[0]] + xs[1..] == xs;
    }
  }

  lemma ProductSingleLeft(x: string, ys: seq<string>)
    ensures Product([x], ys) == Prepend(x, ys)
  {
    assert [x][1..] == [];
  }

  /** Concatenating token sequences multiplies their expansions. */
  lemma {:induction false} ExpandAppend(a: seq<Token>, b: seq<Token>)
    ensures ExpandTokens(a + b) == Product(ExpandTokens(a), ExpandTokens(b))
    decreases |a|
  {
    if |a| == 0 {
      assert a + b == b;
      ProductSingleLeft("", ExpandTokens(b));
      assert forall k | 0 <= k < |ExpandTokens(b)| :: "" + ExpandTokens(b)[k] == ExpandTokens(b)[k];
    } else {
      assert (a + b)[1..] == a[1..] + b;
      ExpandAppend(a[1..], b);
      ProductAssoc(Choices(a[0]), ExpandTokens(a[1..]), ExpandTokens(b));
    }
  }

  /** A run of literals expands to that one string. */
  lemma {:induction false} ExpandLits(x: string)
    ensures ExpandTokens(Lits(x)) == [x]
    decreases |x|
  {
    if |x| > 0 {
      assert Lits(x)[1..] == Lits(x[1..]);
      ExpandLits(x[1..]);
      ProductSingleLeft([x[0]], [x[1..]]);
      assert [x[0]] + x[1..] == x;
    }
  }

  /** Tokens made of a literal prefix and one wildcard expand to the prefix followed by each charset character. */
  lemma ExpandLitsClass(x: string, cs: string)
    ensures ExpandTokens(Lits(x) + [Class(cs)]) == Prepend(x, Singles(cs))
  {
    ExpandAppend(Lits(x), [Class(cs)]);
    ExpandLits(x);
    ProductSingleLeft(x, ExpandTokens([Class(cs)]));
    ProductUnitRight(Singles(cs));
  }

  /** A body with no `?` tokenizes to its literals. */
  lemma {:induction false} TokenizeLiterals(x: string, y: string, charsets: seq<string>)
    requires |charsets| == 5
    requires '?' !in x
    ensures Tokenize(x + y, charsets) ==
      match Tokenize(y, charsets)
      case None => None
      case Some(ts) => Some(Lits(x) + ts)
    decreases |x|
  {
    if |x| > 0 {
      assert (x + y)[1..] == x[1..] + y;
      assert (x + y)[0] == x[0];
      TokenizeLiterals(x[1..], y, charsets);
      assert Lits(x) == [Lit(x[0])] + Lits(x[1..]);
      assert x[0] != '?';
      match Tokenize(y, charsets) {
        case None =>
        case Some(ts) =>
          assert [Lit(x[0])] + (Lits(x[1..]) + ts) == Lits(x) + ts;
      }
    } else {
      assert x + y == y;
      assert Lits(x) == [];
      match Tokenize(y, charsets) {
        case None =>
        case Some(ts) => assert Lits(x) + ts == ts;
      }
    }
  }

  /** A two-character wildcard token at the front of a body. */
  lemma TokenizeWildcard(sel: char, y: string, charsets: seq<string>)
    requires |charsets| == 5
    requires Selector(sel).Some?
    ensures Tokenize(['?', sel] + y, charsets) ==
      match Tokenize(y, charsets)
      case None => None
      case Some(ts) => Some([Class(charsets[Selector(sel).value])] + ts)
  {
    assert (['?', sel] + y)[2..] == y;
  }

  /** A body without `?` denotes exactly one string: itself. */
  lemma NoWildcards(decls: seq<string>, body: string)
    requires |decls| <= 4
    requires forall k | 0 <= k < |decls| :: ',' !in decls[k]
    requires ',' !in body && '?' !in body
    ensures ExpandMask(Declarations(decls) + body) == Some([body])
  {
    ExpandMaskParts(decls, body);
    var cs := [DigitCharset] + decls + seq(4 - |decls|, _ => "");
    TokenizeLiterals(body, "", cs);
    assert body + "" == body && Lits(body) + [] == Lits(body);
    ExpandLits(body);
  }
}
