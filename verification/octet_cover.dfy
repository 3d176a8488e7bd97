/**
  What the patterns `cidr2hcmask` gives one octet stand for: the text of a
  full octet, exactly the block of a partial octet, and every byte (in the
  order of `masks0to255`) for an octet outside the prefix.
 */
module OctetCover {
  import opened Wrappers
  import opened Decimal
  import opened HCMask
  import opened Byte
  import opened ByteCoverage
  import opened ByteLookup
  import opened Cidr
  import opened Assemble
  import opened MaskMeaning

  // ---------------------------------------------------------------------------
  // masks0to255

  /** Every byte, in the order the patterns of `masks0to255` produce them. */
  function AnyByteTexts(): (r: seq<string>) {
    Decimals(100, 199) + Decimals(200, 249) + Decimals(250, 255) + Decimals(10, 99) + Decimals(0, 9)
  }

  /** A pattern `x?s?t` over default charsets: `x`, a character of `s`, then one of `t`. */
  lemma FragmentClasses(x: string, sel1: char, sel2: char)
    requires ',' !in x && '?' !in x
    requires Selector(sel1).Some? && Selector(sel2).Some?
    ensures Fragment(x + ['?', sel1, '?', sel2]) == Some(Product(
      Prepend(x, Singles(SlotTable([])[Selector(sel1).value])), Singles(SlotTable([])[Selector(sel2).value])))
  {
    hide Fragment;
    var p := x + ['?', sel1, '?', sel2];
    assert Declarations([]) + p == p;
    assert ',' !in p;
    FragmentBody([], p);
    TokenizeLitsClasses(x, sel1, sel2, SlotTable([]));
    ExpandLitsClasses(x, SlotTable([])[Selector(sel1).value], SlotTable([])[Selector(sel2).value]);
  }

  /** `1?d?d` stands for 100..199. */
  lemma Mask100Sound()
    ensures Fragment(Mask100to199) == Some(Decimals(100, 199))
  {
    hide Fragment;
    CharsetDigits();
    assert Mask100to199 == "1" + ['?', 'd', '?', 'd'];
    FragmentClasses("1", 'd', 'd');
    assert Prefix(1) == "1";
    TensBlock(1, 0, 9, DigitCharset);
  }

  /** `2?1?d` stands for 200..249. */
  lemma Mask200Sound()
    ensures Fragment(Mask200to249) == Some(Decimals(200, 249))
  {
    hide Fragment;
    CharsetDigits();
    assert Mask200to249 == "2" + ['?', '1', '?', 'd'];
    FragmentClasses("2", '1', 'd');
    assert Prefix(2) == "2";
    TensBlock(2, 0, 4, DigitCharset);
  }

  /** `?3?d` stands for 10..99. */
  lemma Mask10Sound()
    ensures Fragment(Mask10to99) == Some(Decimals(10, 99))
  {
    hide Fragment;
    CharsetDigits();
    assert Mask10to99 == "" + ['?', '3', '?', 'd'];
    FragmentClasses("", '3', 'd');
    assert Prefix(0) == "";
    TensBlock(0, 1, 9, DigitCharset);
  }

  /** `?d` stands for 0..9. */
  lemma Mask0Sound()
    ensures Fragment(Mask0to9) == Some(Decimals(0, 9))
  {
    hide Fragment;
    UnitMaskSound(0, 0, 9);
    assert UnitMask(0, 0, 9) == Mask0to9;
  }

  /** `masks0to255` stands for every byte: 100..199, 200..249, 250..255, 10..99, then 0..9. */
  lemma AnyByteExpansion()
    ensures ExpandAll(Masks0to255) == Some(AnyByteTexts())
  {
    hide Fragment, Decimals;
    Mask100Sound();
    Mask200Sound();
    Mask250Sound();
    Mask10Sound();
    Mask0Sound();
    var m := Masks0to255;
    assert m[4..][1..] == [];
    assert ExpandAll(m[4..]) == Some(Decimals(0, 9) + []);
    assert ExpandAll(m[3..]) == Some(Decimals(10, 99) + (Decimals(0, 9) + [])) by {
      assert m[3..][1..] == m[4..];
    }
    assert ExpandAll(m[2..]) == Some(Decimals(250, 255) + (Decimals(10, 99) + (Decimals(0, 9) + []))) by {
      assert m[2..][1..] == m[3..];
    }
    assert ExpandAll(m[1..]) == Some(Decimals(200, 249) + (Decimals(250, 255) + (Decimals(10, 99) + (Decimals(0, 9) + [])))) by {
      assert m[1..][1..] == m[2..];
    }
    assert Decimals(100, 199) + (Decimals(200, 249) + (Decimals(250, 255) + (Decimals(10, 99) + (Decimals(0, 9) + []))))
      == AnyByteTexts();
  }

  /** The texts `masks0to255` produces are those of the bytes 0..255, each once. */
  lemma AnyBytePermutation()
    ensures multiset(AnyByteTexts()) == multiset(Decimals(0, 255))
  {
    hide Decimals;
    DecimalsSplit(0, 9, 255);
    DecimalsSplit(10, 99, 255);
    DecimalsSplit(100, 199, 255);
    DecimalsSplit(200, 249, 255);
    var a, b, c, d, e := Decimals(0, 9), Decimals(10, 99), Decimals(100, 199), Decimals(200, 249), Decimals(250, 255);
    assert Decimals(0, 255) == a + (b + (c + (d + e)));
    assert multiset(Decimals(0, 255)) == multiset(a) + (multiset(b) + (multiset(c) + (multiset(d) + multiset(e))));
    assert multiset(AnyByteTexts()) == multiset(c) + multiset(d) + multiset(e) + multiset(b) + multiset(a);
  }

  // ---------------------------------------------------------------------------
  // The block of an octet

  /** A number whose last `k` bits are zero starts a block of `2^k` that fits below `2^n`. */
  lemma {:induction false} AlignedFits(v: nat, k: nat, n: nat)
    requires LowBits(v, k) == 0 && v < Pow2(n) && k <= n
    ensures v + Pow2(k) <= Pow2(n)
    ensures k >= 1 ==> v % 2 == 0
    decreases k
  {
    if k > 0 {
      AlignedFits(v / 2, k - 1, n - 1);
    }
  }

  /** The texts of the values octet `i` of the network ranges over: from its base value through its block. */
  function OctetRange(net: IPv4Net, i: nat): (r: seq<string>)
    requires |net.ip| == 4 && i < 4
  {
    Decimals(net.ip[i], net.ip[i] + Pow2(8 - PrefixIn(net.bits, i)) - 1)
  }

  /** A network with a prefix length 0..32 and zero host bits, as `ParseCIDR` returns them. */
  predicate IsNetwork(net: IPv4Net) {
    |net.ip| == 4 && 0 <= net.bits <= 32 && HostBitsZero(net)
  }

  /** An octet outside the prefix is zero. */
  lemma FreeOctetZero(net: IPv4Net, i: nat)
    requires IsNetwork(net) && i < 4 && PrefixIn(net.bits, i) == 0
    ensures net.ip[i] == 0 && OctetRange(net, i) == Decimals(0, 255)
  {
    Pow2Byte(8);
    LowBitsSmall(net.ip[i], 8);
  }

  /** A partial octet: its block stays within the byte and ends on an odd value. */
  lemma PartialBlock(net: IPv4Net, i: nat)
    requires IsNetwork(net) && i < 4 && 0 < PrefixIn(net.bits, i) < 8
    ensures var end := net.ip[i] + Pow2(8 - PrefixIn(net.bits, i)) - 1;
      net.ip[i] < end <= 255 && end % 10 != 0 && end % 256 == end
  {
    var k := 8 - PrefixIn(net.bits, i);
    assert LowBits(net.ip[i], k) == 0;
    Pow2Byte(8);
    hide HostBitsZero, LowBits;
    AlignedFits(net.ip[i], k, 8);
    Pow2Even(k);
    BlockEnd(net.ip[i], Pow2(k));
  }

  /** On a partial octet the defect of `lookup` cannot show: the patterns are those of the corrected lookup. */
  lemma PartialLookupFixed(net: IPv4Net, i: nat)
    requires IsNetwork(net) && i < 4 && 0 < PrefixIn(net.bits, i) < 8
    ensures net.ip[i] + Pow2(8 - PrefixIn(net.bits, i)) - 1 <= 255
    ensures OctetPatterns(net, i) == LookupFixed(net.ip[i], net.ip[i] + Pow2(8 - PrefixIn(net.bits, i)) - 1)
  {
    hide Lookup, LookupFixed;
    PartialBlock(net, i);
    LookupAgrees(net.ip[i], net.ip[i] + Pow2(8 - PrefixIn(net.bits, i)) - 1);
  }

  lemma BlockEnd(v: nat, size: nat)
    requires v % 2 == 0 && size % 2 == 0 && size >= 2 && v + size <= 256
    ensures v < v + size - 1 <= 255 && (v + size - 1) % 10 != 0 && (v + size - 1) % 256 == v + size - 1
  {
    OddNotDecade(v + size - 1);
  }

  lemma Pow2Even(k: nat)
    requires k >= 1
    ensures Pow2(k) % 2 == 0 && Pow2(k) >= 2
  {
  }

  lemma OddNotDecade(e: nat)
    requires e % 2 == 1
    ensures e % 10 != 0
  {
    assert e == 10 * (e / 10) + e % 10;
  }

  /**
    What the patterns of octet `i` stand for: the octet's block, exactly in
    order except for an octet outside the prefix, whose patterns produce
    every byte in another order. All of them are shaped, and only a partial
    octet's patterns declare a charset or read `?4`.
   */
  lemma OctetCovers(net: IPv4Net, i: nat)
    requires IsNetwork(net) && i < 4
    ensures ExpandAll(OctetPatterns(net, i)).Some?
    ensures multiset(ExpandAll(OctetPatterns(net, i)).value) == multiset(OctetRange(net, i))
    ensures PrefixIn(net.bits, i) != 0 ==> ExpandAll(OctetPatterns(net, i)).value == OctetRange(net, i)
    ensures PrefixIn(net.bits, i) == 0 ==> ExpandAll(OctetPatterns(net, i)).value == AnyByteTexts()
    ensures AllShaped(OctetPatterns(net, i))
    ensures PrefixIn(net.bits, i) == 0 || PrefixIn(net.bits, i) == 8 ==>
      forall k | 0 <= k < |OctetPatterns(net, i)| ::
        OwnOf(OctetPatterns(net, i)[k]) == [] && DefaultSlots(BodyOf(OctetPatterns(net, i)[k]))
  {
    hide Fragment, ExpandAll, Lookup, Shaped, OwnOf, BodyOf, DefaultSlots, AnyByteTexts, Masks0to255;
    var v := net.ip[i];
    var kept := PrefixIn(net.bits, i);
    var pats := OctetPatterns(net, i);
    if kept == 8 {
      assert pats == [Itoa(v)];
      ItoaCanonical(v);
      FragmentLiteral(Itoa(v));
      ExpandAllOne(Itoa(v), [Itoa(v)]);
      assert OctetRange(net, i) == [Itoa(v)];
      ItoaShaped(v);
      DigitsPlain(Itoa(v));
      NoSelectorDefaults(Itoa(v));
    } else if kept == 0 {
      assert pats == Masks0to255;
      FreeOctetZero(net, i);
      AnyByteExpansion();
      AnyBytePermutation();
      forall k | 0 <= k < |pats|
        ensures Shaped(pats[k]) && OwnOf(pats[k]) == [] && DefaultSlots(BodyOf(pats[k]))
      {
        AnyByteShaped(pats[k]);
        AnyByteDefaults(pats[k]);
      }
    } else {
      PartialBlock(net, i);
      var end := v + Pow2(8 - kept) - 1;
      assert pats == Lookup(v, end);
      LookupCovers(v, end);
      LookupShaped(v, end);
    }
  }
}
