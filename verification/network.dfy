/**
  What the mask file of a network stands for: run through the reference
  expander mask after mask, the masks of `CIDR2HCMask` produce every
  address of the network exactly once.
 */
module Network {
  import opened Wrappers
  import opened Decimal
  import opened HCMask
  import opened Byte
  import opened ByteCoverage
  import opened Cidr
  import opened Assemble
  import opened MaskMeaning
  import opened OctetCover
  import opened ProductPerm

  /** The strings a list of masks stands for, mask after mask; nothing for a mask the expander refuses. */
  function Denoted(masks: seq<string>): (r: seq<string>)
    decreases |masks|
  {
    if |masks| == 0 then []
    else
      var here := match ExpandMask(masks[0]) case None => [] case Some(x) => x;
      here + Denoted(masks[1..])
  }

  /** The strings a choice of one pattern per octet stands for: the dotted products of its patterns' strings. */
  function ChoiceTexts(choice: seq<string>): (r: seq<string>)
    requires |choice| >= 1
  {
    DotProduct(seq(|choice|, i requires 0 <= i < |choice| => Texts(choice[i])))
  }

  /** The strings of a list of choices, choice after choice. */
  function ChoicesTexts(choices: seq<seq<string>>): (r: seq<string>)
    requires forall k | 0 <= k < |choices| :: |choices[k]| >= 1
    decreases |choices|
  {
    if |choices| == 0 then [] else ChoiceTexts(choices[0]) + ChoicesTexts(choices[1..])
  }

  /** The strings a list of patterns stands for, pattern after pattern. */
  function ListTexts(fs: seq<string>): (r: seq<string>)
    decreases |fs|
  {
    if |fs| == 0 then [] else Texts(fs[0]) + ListTexts(fs[1..])
  }

  /** When a list of patterns expands, each pattern does, and the list stands for their strings in turn. */
  lemma {:induction false} ExpandAllTexts(fs: seq<string>)
    requires ExpandAll(fs).Some?
    ensures ExpandAll(fs).value == ListTexts(fs)
    ensures forall k | 0 <= k < |fs| :: Fragment(fs[k]).Some?
    decreases |fs|
  {
    hide Fragment;
    if |fs| > 0 {
      ExpandAllTexts(fs[1..]);
      assert forall k | 1 <= k < |fs| :: fs[k] == fs[1..][k - 1];
    }
  }

  // ---------------------------------------------------------------------------
  // Summing over the choices

  lemma ChoiceSingle(f: string)
    ensures ChoiceTexts([f]) == Texts(f)
  {
    hide Texts;
    assert seq(1, i requires 0 <= i < 1 => Texts([f][i])) == [Texts(f)];
  }

  /** A pattern in front of a choice: its strings, a dot, then the strings of the choice. */
  lemma ChoiceCons(f: string, t: seq<string>)
    requires |t| >= 1
    ensures ChoiceTexts([f] + t) == Product(Texts(f), Prepend(".", ChoiceTexts(t)))
  {
    hide Texts, Product, Prepend;
    var c := [f] + t;
    var xs := seq(|c|, i requires 0 <= i < |c| => Texts(c[i]));
    assert xs[0] == Texts(f);
    assert xs[1..] == seq(|t|, i requires 0 <= i < |t| => Texts(t[i]));
  }

  lemma {:induction false} ChoicesTextsAppend(a: seq<seq<string>>, b: seq<seq<string>>)
    requires forall k | 0 <= k < |a| :: |a[k]| >= 1
    requires forall k | 0 <= k < |b| :: |b[k]| >= 1
    ensures ChoicesTexts(a + b) == ChoicesTexts(a) + ChoicesTexts(b)
    decreases |a|
  {
    hide ChoiceTexts;
    if |a| == 0 {
      assert a + b == b;
    } else {
      assert (a + b)[1..] == a[1..] + b;
      ChoicesTextsAppend(a[1..], b);
    }
  }

  /** The choices that start with pattern `f` stand for the strings of `f` dotted with those of the tails, up to order. */
  lemma {:induction false} ExtendTexts(f: string, tails: seq<seq<string>>)
    requires forall k | 0 <= k < |tails| :: |tails[k]| >= 1
    ensures forall k | 0 <= k < |Extend(f, tails)| :: |Extend(f, tails)[k]| >= 1
    ensures multiset(ChoicesTexts(Extend(f, tails))) == multiset(Product(Texts(f), Prepend(".", ChoicesTexts(tails))))
    decreases |tails|
  {
    hide ChoiceTexts, Texts, Product, Prepend;
    var e := Extend(f, tails);
    if |tails| == 0 {
      assert Prepend(".", []) == [];
      ProductEmptyRight(Texts(f));
    } else {
      var t0, rest := tails[0], tails[1..];
      ExtendTexts(f, rest);
      assert e[0] == [f] + t0;
      assert e[1..] == Extend(f, rest);
      ChoiceCons(f, t0);
      PrependAppend(".", ChoiceTexts(t0), ChoicesTexts(rest));
      ProductRightAppend(Texts(f), Prepend(".", ChoiceTexts(t0)), Prepend(".", ChoicesTexts(rest)));
    }
  }

  lemma ChoicesFromUnfold(fs: seq<string>, tails: seq<seq<string>>)
    ensures |fs| == 0 ==> ChoicesFrom(fs, tails) == []
    ensures |fs| > 0 ==> ChoicesFrom(fs, tails) == Extend(fs[0], tails) + ChoicesFrom(fs[1..], tails)
  {
    hide Extend;
  }

  /**
    The choices of `ChoicesFrom(fs, tails)` stand for the strings of the
    patterns of `fs` dotted with those of the tails, up to order.
   */
  lemma {:induction false} ChoicesFromTexts(fs: seq<string>, tails: seq<seq<string>>, z: seq<string>)
    requires forall k | 0 <= k < |tails| :: |tails[k]| >= 1
    requires multiset(ChoicesTexts(tails)) == multiset(z)
    ensures multiset(ChoicesTexts(ChoicesFrom(fs, tails))) == multiset(Product(ListTexts(fs), Prepend(".", z)))
    decreases |fs|
  {
    hide ChoiceTexts, Texts, Product, Prepend, Extend, ChoicesFrom;
    ChoicesFromUnfold(fs, tails);
    if |fs| == 0 {
      ProductEmptyLeft(Prepend(".", z));
    } else {
      var head, more := Extend(fs[0], tails), ChoicesFrom(fs[1..], tails);
      ExtendTexts(fs[0], tails);
      ChoicesFromTexts(fs[1..], tails, z);
      ChoicesTextsAppend(head, more);
      PrependPermutation(".", ChoicesTexts(tails), z);
      ProductRightPermutation(Texts(fs[0]), Prepend(".", ChoicesTexts(tails)), Prepend(".", z));
      ProductAppendLeft(Texts(fs[0]), ListTexts(fs[1..]), Prepend(".", z));
    }
  }

  /** The choices from a single list are its patterns one by one. */
  lemma {:induction false} SingleListTexts(fs: seq<string>)
    ensures forall k | 0 <= k < |ChoicesFrom(fs, [[]])| :: |ChoicesFrom(fs, [[]])[k]| >= 1
    ensures ChoicesTexts(ChoicesFrom(fs, [[]])) == ListTexts(fs)
    decreases |fs|
  {
    hide ChoiceTexts, Texts, Extend, ChoicesFrom;
    ChoicesFromUnfold(fs, [[]]);
    if |fs| > 0 {
      var head := Extend(fs[0], [[]]);
      assert head == [[fs[0]]] by {
        var empty: seq<string> := [];
        assert [empty][0] == empty;
        assert head[0] == [fs[0]] + empty == [fs[0]];
      }
      SingleListTexts(fs[1..]);
      ChoicesTextsAppend(head, ChoicesFrom(fs[1..], [[]]));
      ChoiceSingle(fs[0]);
      assert ChoicesTexts(head) == ChoiceTexts([fs[0]]) + [];
    }
  }

  /** The texts of each list of patterns. */
  function ListsTexts(lists: seq<seq<string>>): (r: seq<seq<string>>)
    ensures |r| == |lists|
    ensures forall i | 0 <= i < |r| :: r[i] == ListTexts(lists[i])
  {
    seq(|lists|, i requires 0 <= i < |lists| => ListTexts(lists[i]))
  }

  /**
    Every choice of one pattern per list, expanded choice after choice,
    stands for the dotted products of what the lists stand for, up to order.
   */
  lemma {:induction false} AllChoicesTexts(lists: seq<seq<string>>)
    requires |lists| >= 1
    ensures forall k | 0 <= k < |AllChoices(lists)| :: |AllChoices(lists)[k]| >= 1
    ensures multiset(ChoicesTexts(AllChoices(lists))) == multiset(DotProduct(ListsTexts(lists)))
    decreases |lists|
  {
    hide ChoiceTexts, Texts, Product, Prepend, Extend, ChoicesFrom, ListTexts, ChoicesTexts, DotProduct, ListsTexts, AllChoices;
    AllChoicesNonEmpty(lists);
    if |lists| == 1 {
      SingleListChoices(lists);
    } else {
      AllChoicesTexts(lists[1..]);
      AllChoicesStep(lists);
    }
  }

  lemma AllChoicesNonEmpty(lists: seq<seq<string>>)
    requires |lists| >= 1
    ensures AllChoices(lists) == ChoicesFrom(lists[0], AllChoices(lists[1..]))
    ensures forall k | 0 <= k < |AllChoices(lists)| :: |AllChoices(lists)[k]| >= 1
  {
    hide ChoicesFrom, Extend;
    forall k | 0 <= k < |AllChoices(lists)|
      ensures |AllChoices(lists)[k]| >= 1
    {
      assert AllChoices(lists)[k] in AllChoices(lists);
    }
  }

  lemma SingleListChoices(lists: seq<seq<string>>)
    requires |lists| == 1
    ensures forall k | 0 <= k < |AllChoices(lists)| :: |AllChoices(lists)[k]| >= 1
    ensures multiset(ChoicesTexts(AllChoices(lists))) == multiset(DotProduct(ListsTexts(lists)))
  {
    hide ChoiceTexts, Texts, Product, Prepend, Extend, ChoicesFrom, ListTexts, ChoicesTexts, DotProduct, ListsTexts;
    AllChoicesNonEmpty(lists);
    assert AllChoices(lists[1..]) == [[]];
    SingleListTexts(lists[0]);
    DotProductUnfold(ListsTexts(lists));
  }

  lemma AllChoicesStep(lists: seq<seq<string>>)
    requires |lists| >= 2
    requires forall k | 0 <= k < |AllChoices(lists[1..])| :: |AllChoices(lists[1..])[k]| >= 1
    requires multiset(ChoicesTexts(AllChoices(lists[1..]))) == multiset(DotProduct(ListsTexts(lists[1..])))
    ensures forall k | 0 <= k < |AllChoices(lists)| :: |AllChoices(lists)[k]| >= 1
    ensures multiset(ChoicesTexts(AllChoices(lists))) == multiset(DotProduct(ListsTexts(lists)))
  {
    hide ChoiceTexts, Texts, Product, Prepend, Extend, ChoicesFrom, ListTexts, ChoicesTexts, DotProduct, ListsTexts, AllChoices;
    AllChoicesNonEmpty(lists);
    var rest := lists[1..];
    ChoicesFromTexts(lists[0], AllChoices(rest), DotProduct(ListsTexts(rest)));
    assert ListsTexts(lists)[1..] == ListsTexts(rest);
    DotProductUnfold(ListsTexts(lists));
  }

  lemma DotProductUnfold(xss: seq<seq<string>>)
    requires |xss| >= 1
    ensures |xss| == 1 ==> DotProduct(xss) == xss[0]
    ensures |xss| > 1 ==> DotProduct(xss) == Product(xss[0], Prepend(".", DotProduct(xss[1..])))
  {
    hide Product, Prepend;
  }

  /** Dotted products of operands with equal multisets have equal multisets. */
  lemma {:induction false} DotProductPermutation(xss: seq<seq<string>>, yss: seq<seq<string>>)
    requires |xss| == |yss| >= 1
    requires forall i | 0 <= i < |xss| :: multiset(xss[i]) == multiset(yss[i])
    ensures multiset(DotProduct(xss)) == multiset(DotProduct(yss))
    decreases |xss|
  {
    hide Product, Prepend, DotProduct;
    DotProductUnfold(xss);
    DotProductUnfold(yss);
    if |xss| > 1 {
      assert forall i | 0 <= i < |xss[1..]| :: xss[1..][i] == xss[i + 1] && yss[1..][i] == yss[i + 1];
      DotProductPermutation(xss[1..], yss[1..]);
      var zx, zy := Prepend(".", DotProduct(xss[1..])), Prepend(".", DotProduct(yss[1..]));
      PrependPermutation(".", DotProduct(xss[1..]), DotProduct(yss[1..]));
      ProductLeftPermutation(xss[0], yss[0], zx);
      ProductRightPermutation(yss[0], zx, zy);
    }
  }

  // ---------------------------------------------------------------------------
  // The masks of a network

  /** At most one octet of a prefix is partial: every other one is kept whole or left free. */
  lemma PartialIndex(bits: int) returns (p: nat)
    requires 0 <= bits <= 32
    ensures p < 4
    ensures forall i | 0 <= i < 4 && i != p :: PrefixIn(bits, i) == 0 || PrefixIn(bits, i) == 8
  {
    p := if bits % 8 != 0 then bits / 8 else 0;
  }

  /** One mask of a network, a choice of one pattern per octet, stands for the dotted product of its patterns' strings. */
  lemma ChoiceMeaning(net: IPv4Net, c: seq<string>)
    requires IsNetwork(net)
    requires |c| == 4 && forall i | 0 <= i < 4 :: c[i] in OctetPatterns(net, i)
    ensures ExpandMask(Assembled(DefaultDecls, "", c)) == Some(ChoiceTexts(c))
  {
    hide Fragment, Shaped, OwnOf, BodyOf, DefaultSlots, Assembled, ExpandMask, Texts, DotProduct, OctetPatterns, ExpandAll;
    var p := PartialIndex(net.bits);
    forall i | 0 <= i < 4
      ensures Shaped(c[i]) && Fragment(c[i]).Some?
      ensures i != p ==> OwnOf(c[i]) == [] && DefaultSlots(BodyOf(c[i]))
    {
      var pats := OctetPatterns(net, i);
      OctetCovers(net, i);
      ExpandAllTexts(pats);
      var k :| 0 <= k < |pats| && pats[k] == c[i];
    }
    AssembledMeaning(c, p);
  }

  /** Masks that each stand for their choice's strings stand, in turn, for the strings of all the choices. */
  lemma {:induction false} DenotedChoices(choices: seq<seq<string>>)
    requires forall k | 0 <= k < |choices| :: |choices[k]| >= 1
    requires forall k | 0 <= k < |choices| :: ExpandMask(Assembled(DefaultDecls, "", choices[k])) == Some(ChoiceTexts(choices[k]))
    ensures Denoted(AssembledAll(DefaultDecls, "", choices)) == ChoicesTexts(choices)
    decreases |choices|
  {
    hide ExpandMask, Assembled, ChoiceTexts;
    var masks := AssembledAll(DefaultDecls, "", choices);
    if |choices| > 0 {
      assert masks[1..] == AssembledAll(DefaultDecls, "", choices[1..]);
      DenotedChoices(choices[1..]);
    }
  }

  /** The strings every octet of the network ranges over, dotted: the addresses of the network. */
  function Addresses(net: IPv4Net): (r: seq<string>)
    requires |net.ip| == 4
  {
    DotProduct(seq(4, i requires 0 <= i < 4 => OctetRange(net, i)))
  }

  lemma {:induction false} Pow2Add(a: nat, b: nat)
    ensures Pow2(a) * Pow2(b) == Pow2(a + b)
    decreases a
  {
    if a > 0 {
      Pow2Add(a - 1, b);
    }
  }

  /** A dotted product of four operands has the product of their lengths. */
  lemma DotProductFour(xss: seq<seq<string>>)
    requires |xss| == 4
    ensures |DotProduct(xss)| == |xss[0]| * (|xss[1]| * (|xss[2]| * |xss[3]|))
  {
    hide Product, Prepend;
    DotProductUnfold(xss);
    DotProductUnfold(xss[1..]);
    DotProductUnfold(xss[2..]);
    assert xss[1..][1..] == xss[2..] && xss[2..][1..] == xss[3..];
    DotProductUnfold(xss[3..]);
    var d3 := DotProduct(xss[3..]);
    var d2 := DotProduct(xss[2..]);
    var d1 := DotProduct(xss[1..]);
    ProductLength(xss[2], Prepend(".", d3));
    ProductLength(xss[1], Prepend(".", d2));
    ProductLength(xss[0], Prepend(".", d1));
  }

  /** The prefix lengths of the four octets add up to the prefix length of the network. */
  lemma PrefixSum(bits: int)
    requires 0 <= bits <= 32
    ensures PrefixIn(bits, 0) + PrefixIn(bits, 1) + PrefixIn(bits, 2) + PrefixIn(bits, 3) == bits
  {
  }

  /** A network of prefix length `bits` holds `2^(32 - bits)` addresses. */
  lemma AddressCount(net: IPv4Net)
    requires IsNetwork(net)
    ensures |Addresses(net)| == Pow2(32 - net.bits)
  {
    hide Decimals, DotProduct;
    var xss := seq(4, i requires 0 <= i < 4 => OctetRange(net, i));
    DotProductFour(xss);
    PrefixSum(net.bits);
    var a, b, c, d := 8 - PrefixIn(net.bits, 0), 8 - PrefixIn(net.bits, 1), 8 - PrefixIn(net.bits, 2), 8 - PrefixIn(net.bits, 3);
    assert |xss[0]| == Pow2(a) && |xss[1]| == Pow2(b) && |xss[2]| == Pow2(c) && |xss[3]| == Pow2(d);
    Pow2Add(c, d);
    Pow2Add(b, c + d);
    Pow2Add(a, b + (c + d));
    assert a + (b + (c + d)) == 32 - net.bits;
  }

  /**
    The mask file of a network stands for the addresses of the network,
    each exactly once: the strings of its masks, mask after mask, are the
    addresses in some order.
   */
  lemma NetworkCovered(net: IPv4Net)
    requires IsNetwork(net)
    ensures CIDR2HCMask(net).Some?
    ensures multiset(Denoted(CIDR2HCMask(net).value)) == multiset(Addresses(net))
    ensures forall a, b | 0 <= a < b < |Addresses(net)| :: Addresses(net)[a] != Addresses(net)[b]
    ensures forall a, b | 0 <= a < b < |Denoted(CIDR2HCMask(net).value)| ::
      Denoted(CIDR2HCMask(net).value)[a] != Denoted(CIDR2HCMask(net).value)[b]
  {
    hide Denoted, CIDR2HCMask, Cidr2HCMask, ChoicesTexts, ListsTexts, DotProduct, AllChoices, Addresses, OctetRange;
    var lists := MasksDenote(net);
    AllChoicesTexts(lists);
    var xss := ListsTexts(lists);
    var yss := seq(4, i requires 0 <= i < 4 => OctetRange(net, i));
    ListsCover(net, lists);
    DotProductPermutation(xss, yss);
    AddressesUnfold(net);
    AddressesDistinct(net);
    DistinctPermutation(Denoted(CIDR2HCMask(net).value), Addresses(net));
  }

  lemma AddressesUnfold(net: IPv4Net)
    requires |net.ip| == 4
    ensures Addresses(net) == DotProduct(seq(4, i requires 0 <= i < 4 => OctetRange(net, i)))
  {
    hide DotProduct, OctetRange;
  }

  // ---------------------------------------------------------------------------
  // Each address once

  /** No string occurs twice. */
  predicate Distinct(s: seq<string>) {
    forall a, b | 0 <= a < b < |s| :: s[a] != s[b]
  }

  /** A dot-free text followed by a text that starts with a dot: the first dot tells where the two parts meet. */
  lemma DotSplit(x1: string, y1: string, x2: string, y2: string)
    requires '.' !in x1 && '.' !in x2
    requires |y1| >= 1 && y1[0] == '.' && |y2| >= 1 && y2[0] == '.'
    requires x1 + y1 == x2 + y2
    ensures x1 == x2 && y1 == y2
  {
    assert x1 == (x1 + y1)[..|x1|] && x2 == (x2 + y2)[..|x2|];
    assert y1 == (x1 + y1)[|x1|..] && y2 == (x2 + y2)[|x2|..];
  }

  /** The same text in front of distinct texts gives distinct texts. */
  lemma PrependDistinct(x: string, ys: seq<string>)
    requires Distinct(ys)
    ensures Distinct(Prepend(x, ys))
  {
    forall a, b | 0 <= a < b < |ys|
      ensures Prepend(x, ys)[a] != Prepend(x, ys)[b]
    {
      assert ys[a] == (x + ys[a])[|x|..] && ys[b] == (x + ys[b])[|x|..];
    }
  }

  lemma DistinctAppend(a: seq<string>, b: seq<string>)
    requires Distinct(a) && Distinct(b)
    requires forall i, j | 0 <= i < |a| && 0 <= j < |b| :: a[i] != b[j]
    ensures Distinct(a + b)
  {
    forall p, q | 0 <= p < q < |a + b|
      ensures (a + b)[p] != (a + b)[q]
    {
      if q < |a| {
        assert (a + b)[p] == a[p] && (a + b)[q] == a[q];
      } else if p < |a| {
        assert (a + b)[p] == a[p] && (a + b)[q] == b[q - |a|];
      } else {
        assert (a + b)[p] == b[p - |a|] && (a + b)[q] == b[q - |a|];
      }
    }
  }

  /**
    Distinct dot-free texts, each followed by each of some distinct texts that
    start with a dot: no concatenation of the product is made twice.
   */
  lemma {:induction false} ProductDistinct(xs: seq<string>, ys: seq<string>)
    requires Distinct(xs) && Distinct(ys)
    requires forall i | 0 <= i < |xs| :: '.' !in xs[i]
    requires forall j | 0 <= j < |ys| :: |ys[j]| >= 1 && ys[j][0] == '.'
    ensures Distinct(Product(xs, ys))
    decreases |xs|
  {
    hide Prepend;
    if |xs| > 0 {
      var head, tail := Prepend(xs[0], ys), Product(xs[1..], ys);
      assert forall i | 0 <= i < |xs[1..]| :: xs[1..][i] == xs[i + 1];
      ProductDistinct(xs[1..], ys);
      PrependDistinct(xs[0], ys);
      forall a, b | 0 <= a < |head| && 0 <= b < |tail|
        ensures head[a] != tail[b]
      {
        assert tail[b] in tail;
        ProductMember(xs[1..], ys, tail[b]);
        var i, j :| 0 <= i < |xs[1..]| && 0 <= j < |ys| && tail[b] == xs[1..][i] + ys[j];
        if head[a] == tail[b] {
          DotSplit(xs[0], ys[a], xs[i + 1], ys[j]);
        }
      }
      DistinctAppend(head, tail);
    }
  }

  /** Operands of distinct dot-free texts have a dotted product in which no text occurs twice. */
  lemma {:induction false} DotProductDistinct(xss: seq<seq<string>>)
    requires |xss| >= 1
    requires forall i | 0 <= i < |xss| :: Distinct(xss[i])
    requires forall i, k | 0 <= i < |xss| && 0 <= k < |xss[i]| :: '.' !in xss[i][k]
    ensures Distinct(DotProduct(xss))
    decreases |xss|
  {
    hide Product, Prepend, DotProduct;
    DotProductUnfold(xss);
    if |xss| > 1 {
      var rest := xss[1..];
      assert forall i | 0 <= i < |rest| :: rest[i] == xss[i + 1];
      DotProductDistinct(rest);
      var d := DotProduct(rest);
      PrependDistinct(".", d);
      ProductDistinct(xss[0], Prepend(".", d));
    }
  }

  /** The decimal texts of an interval are distinct and dot-free. */
  lemma DecimalsDistinct(lo: nat, hi: int)
    requires lo <= hi + 1
    ensures Distinct(Decimals(lo, hi))
    ensures forall k | 0 <= k < |Decimals(lo, hi)| :: '.' !in Decimals(lo, hi)[k]
  {
    var r := Decimals(lo, hi);
    forall a, b | 0 <= a < b < |r|
      ensures r[a] != r[b]
    {
      if r[a] == r[b] {
        ItoaInjective(lo + a, lo + b);
      }
    }
    forall k | 0 <= k < |r|
      ensures '.' !in r[k]
    {
      assert AllDigits(Itoa(lo + k));
    }
  }

  /** No address of a network occurs twice. */
  lemma AddressesDistinct(net: IPv4Net)
    requires IsNetwork(net)
    ensures forall a, b | 0 <= a < b < |Addresses(net)| :: Addresses(net)[a] != Addresses(net)[b]
  {
    hide Decimals, DotProduct;
    var xss := seq(4, i requires 0 <= i < 4 => OctetRange(net, i));
    forall i | 0 <= i < 4
      ensures Distinct(xss[i]) && forall k | 0 <= k < |xss[i]| :: '.' !in xss[i][k]
    {
      DecimalsDistinct(net.ip[i], net.ip[i] + Pow2(8 - PrefixIn(net.bits, i)) - 1);
    }
    DotProductDistinct(xss);
    AddressesUnfold(net);
  }

  /** Two sequences with the same multiset: when one has no repeated text, neither has the other. */
  lemma DistinctPermutation(s: seq<string>, t: seq<string>)
    requires multiset(s) == multiset(t) && Distinct(t)
    ensures Distinct(s)
  {
    forall x
      ensures multiset(t)[x] <= 1
    {
      DistinctCount(t, x);
    }
    forall a, b | 0 <= a < b < |s|
      ensures s[a] != s[b]
    {
      assert s == s[..a] + [s[a]] + s[a + 1..b] + [s[b]] + s[b + 1..];
      assert multiset(s) == multiset(s[..a]) + multiset{s[a]} + multiset(s[a + 1..b]) + multiset{s[b]} + multiset(s[b + 1..]);
      assert multiset(s)[s[a]] <= 1 && multiset{s[a]}[s[a]] == 1;
      assert multiset(s)[s[a]] >= 1 + multiset{s[b]}[s[a]];
    }
  }

  lemma {:induction false} DistinctCount(t: seq<string>, x: string)
    requires Distinct(t)
    ensures multiset(t)[x] <= 1
    decreases |t|
  {
    if |t| > 0 {
      assert t == [t[0]] + t[1..];
      assert Distinct(t[1..]) by {
        assert forall a | 0 <= a < |t[1..]| :: t[1..][a] == t[a + 1];
      }
      DistinctCount(t[1..], x);
      if x == t[0] {
        assert forall m | 0 <= m < |t[1..]| :: t[1..][m] == t[m + 1];
      }
    }
  }

  /** The masks of a network, mask after mask, stand for the strings of every choice of one pattern per octet. */
  lemma MasksDenote(net: IPv4Net) returns (lists: seq<seq<string>>)
    requires IsNetwork(net)
    ensures CIDR2HCMask(net).Some? && Cidr2HCMask(net) == Some(lists) && |lists| == 4
    ensures forall i | 0 <= i < 4 :: lists[i] == OctetPatterns(net, i)
    ensures forall k | 0 <= k < |AllChoices(lists)| :: |AllChoices(lists)[k]| >= 1
    ensures Denoted(CIDR2HCMask(net).value) == ChoicesTexts(AllChoices(lists))
  {
    hide ExpandMask, Assembled, ChoiceTexts, ChoicesTexts, OctetPatterns, Expand, AssembledAll, Denoted;
    Cidr2HCMaskLists(net);
    lists := Cidr2HCMask(net).value;
    var choices := AllChoices(lists);
    ExpandEnumerates(lists);
    forall k | 0 <= k < |choices|
      ensures |choices[k]| >= 1
      ensures ExpandMask(Assembled(DefaultDecls, "", choices[k])) == Some(ChoiceTexts(choices[k]))
    {
      assert choices[k] in choices;
      ChoiceMeaning(net, choices[k]);
    }
    DenotedChoices(choices);
  }

  /** The patterns of each octet stand for the octet's range, up to order. */
  lemma ListsCover(net: IPv4Net, lists: seq<seq<string>>)
    requires IsNetwork(net) && |lists| == 4
    requires forall i | 0 <= i < 4 :: lists[i] == OctetPatterns(net, i)
    ensures forall i | 0 <= i < 4 :: multiset(ListsTexts(lists)[i]) == multiset(OctetRange(net, i))
  {
    hide OctetPatterns, ExpandAll, ListTexts, OctetRange;
    forall i | 0 <= i < 4
      ensures multiset(ListsTexts(lists)[i]) == multiset(OctetRange(net, i))
    {
      OctetCovers(net, i);
      ExpandAllTexts(lists[i]);
    }
  }

  /** The mask file of a network stands for `2^(32 - bits)` strings. */
  lemma NetworkCount(net: IPv4Net)
    requires IsNetwork(net)
    ensures CIDR2HCMask(net).Some?
    ensures |Denoted(CIDR2HCMask(net).value)| == Pow2(32 - net.bits)
  {
    hide Denoted, Addresses, CIDR2HCMask;
    NetworkCovered(net);
    AddressCount(net);
    var s := Denoted(CIDR2HCMask(net).value);
    assert |multiset(s)| == |s| && |multiset(Addresses(net))| == |Addresses(net)|;
  }
}
