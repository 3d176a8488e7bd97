/**
  From a network to its mask file: `cidr2hcmask` chooses the patterns of
  each octet, `expand`/`expandRec` assemble one mask per choice of one
  pattern per octet, and `CIDR2HCMask` collects them.
 */
module Assemble {
  import opened Wrappers
  import opened Decimal
  import opened HCMask
  import opened Byte
  import opened ByteCoverage
  import opened Cidr

  /** `n` octets left to cover with `masks0to255`. */
  function AnyBytes(n: nat): (r: seq<seq<string>>)
    ensures |r| == n && forall k | 0 <= k < n :: r[k] == Masks0to255
  {
    seq(n, _ => Masks0to255)
  }

  /**
    The loop of `cidr2hcmask` from octet `i` with `bits` prefix bits left:
    the decimal text of each full octet, `lookup` over the block of the
    partial octet (with the source's `uint8` addition), `masks0to255` for
    the rest. `None` where the source indexes the address past its fourth
    octet, which happens exactly when more than 32 bits are left.
   */
  function OctetLists(ip: seq<Octet>, bits: int, i: nat): (r: Option<seq<seq<string>>>)
    requires |ip| == 4 && i <= 4
    decreases 4 - i
  {
    if i < 4 && bits >= 8 then
      var rest :- OctetLists(ip, bits - 8, i + 1);
      Some([[Itoa(ip[i])]] + rest)
    else if bits > 0 then
      if i == 4 then None
      else
        var start := ip[i];
        Some([Lookup(start, (start + Pow2(8 - bits) - 1) % 256)] + AnyBytes(3 - i))
    else
      Some(AnyBytes(4 - i))
  }

  /** `cidr2hcmask`: the patterns for each of the four octets. */
  function Cidr2HCMask(net: IPv4Net): (r: Option<seq<seq<string>>>)
    requires |net.ip| == 4
  {
    OctetLists(net.ip, net.bits, 0)
  }

  /** The patterns `cidr2hcmask` gives octet `i` of a network with at most 32 prefix bits. */
  function OctetPatterns(net: IPv4Net, i: nat): (r: seq<string>)
    requires |net.ip| == 4 && i < 4
  {
    var kept := PrefixIn(net.bits, i);
    if kept == 8 then [Itoa(net.ip[i])]
    else if kept == 0 then Masks0to255
    else Lookup(net.ip[i], (net.ip[i] + Pow2(8 - kept) - 1) % 256)
  }

  /**
    The loop of `cidr2hcmask` fails exactly on more than 32 prefix bits, and
    otherwise gives each octet the patterns its share of the prefix calls for.
   */
  lemma {:induction false} OctetListsAt(ip: seq<Octet>, bits: int, i: nat)
    requires |ip| == 4 && i <= 4
    ensures OctetLists(ip, bits, i).None? <==> bits > 32 - 8 * i
    ensures OctetLists(ip, bits, i).Some? ==>
      var r := OctetLists(ip, bits, i).value;
      |r| == 4 - i
      && forall k | 0 <= k < 4 - i :: r[k] == OctetPatterns(IPv4Net(ip, bits + 8 * i), i + k)
    decreases 4 - i
  {
    hide Lookup, Itoa, Pow2, Masks0to255;
    var net := IPv4Net(ip, bits + 8 * i);
    if i < 4 && bits >= 8 {
      OctetListsAt(ip, bits - 8, i + 1);
      assert IPv4Net(ip, bits - 8 + 8 * (i + 1)) == net;
      var rest := OctetLists(ip, bits - 8, i + 1);
      if rest.Some? {
        var r := OctetLists(ip, bits, i).value;
        assert r == [[Itoa(ip[i])]] + rest.value;
        assert r[0] == OctetPatterns(net, i);
        forall k | 1 <= k < 4 - i
          ensures r[k] == OctetPatterns(net, i + k)
        {
          assert r[k] == rest.value[k - 1];
          assert i + 1 + (k - 1) == i + k;
        }
      }
    } else if bits > 0 && i < 4 {
      var r := OctetLists(ip, bits, i).value;
      assert r[0] == OctetPatterns(net, i);
      forall k | 1 <= k < 4 - i
        ensures r[k] == OctetPatterns(net, i + k)
      {
        assert PrefixIn(net.bits, i + k) == 0;
      }
    } else if bits <= 0 {
      var r := OctetLists(ip, bits, i).value;
      forall k | 0 <= k < 4 - i
        ensures r[k] == OctetPatterns(net, i + k)
      {
        assert PrefixIn(net.bits, i + k) == 0;
      }
    }
  }

  /** `cidr2hcmask` fails exactly when the prefix is longer than 32 bits, and gives four octet lists otherwise. */
  lemma Cidr2HCMaskLists(net: IPv4Net)
    requires |net.ip| == 4
    ensures Cidr2HCMask(net).None? <==> net.bits > 32
    ensures Cidr2HCMask(net).Some? ==>
      |Cidr2HCMask(net).value| == 4
      && forall i | 0 <= i < 4 :: Cidr2HCMask(net).value[i] == OctetPatterns(net, i)
  {
    OctetListsAt(net.ip, net.bits, 0);
    assert IPv4Net(net.ip, net.bits + 8 * 0) == net;
  }

  // ---------------------------------------------------------------------------
  // Assembling the masks

  /** `defaultCharsets`: the declarations of `?1` = 0-4, `?2` = 0-5 and `?3` = 1-9 every mask starts with. */
  const DefaultDecls: string := Charset04 + "," + Charset05 + "," + Charset19 + ","

  /**
    How `expandRec` takes a pattern apart: the part up to and including its
    first comma, when that comma is not the first character, joins the
    declarations; the rest joins the pattern body.
   */
  function SplitDecl(charsets: string, mask: string): (r: (string, string))
    ensures r.0 + r.1 == charsets + mask
    ensures |charsets| <= |r.0| && r.0[..|charsets|] == charsets
    ensures r.0 == charsets <==> ',' !in mask || mask[0] == ','
    ensures r.0 != charsets ==> r.0[|r.0| - 1] == ',' && ',' !in r.0[|charsets|..|r.0| - 1]
  {
    match FirstIndex(mask, ',')
    case None => (charsets, mask)
    case Some(p) =>
      if p > 0 then
        assert charsets + mask == (charsets + mask[..p + 1]) + mask[p + 1..];
        assert (charsets + mask[..p + 1])[|charsets|..p + |charsets|] == mask[..p];
        (charsets + mask[..p + 1], mask[p + 1..])
      else (charsets, mask)
  }

  /** The pattern so far, followed by a dot unless it is empty. */
  function Dotted(pattern: string): (r: string) {
    if |pattern| > 0 then pattern + "." else pattern
  }

  /**
    `expandRec`: one mask for each choice of one pattern per remaining octet
    list, the first list varying slowest. A dot separates a pattern from the
    non-empty pattern before it.
   */
  function ExpandRec(charsets: string, pattern: string, lists: seq<seq<string>>): (r: seq<string>)
    decreases |lists|, 1, 0
  {
    if |lists| == 0 then []
    else
      ExpandEach(charsets, Dotted(pattern), lists[0], lists[1..])
  }

  /** The loop of `expandRec` over the patterns `masks` of the current octet. */
  function ExpandEach(charsets: string, pattern: string, masks: seq<string>, rest: seq<seq<string>>): (r: seq<string>)
    decreases |rest| + 1, 0, |masks|
  {
    if |masks| == 0 then []
    else
      var (cs, m) := SplitDecl(charsets, masks[0]);
      var here := if |rest| == 0 then [cs + pattern + m] else ExpandRec(cs, pattern + m, rest);
      here + ExpandEach(charsets, pattern, masks[1..], rest)
  }

  /** `expand`: the masks of the octet lists, each starting with the default declarations. */
  function Expand(lists: seq<seq<string>>): (r: seq<string>) {
    ExpandRec(DefaultDecls, "", lists)
  }

  /** `CIDR2HCMask`: the mask file of a network, one mask per line; `None` where the source panics. */
  function CIDR2HCMask(net: IPv4Net): (r: Option<seq<string>>)
    requires |net.ip| == 4
  {
    var lists :- Cidr2HCMask(net);
    Some(Expand(lists))
  }

  // ---------------------------------------------------------------------------
  // Reference: one mask per choice

  /** Each choice of `tails` with `f` in front. */
  function Extend(f: string, tails: seq<seq<string>>): (r: seq<seq<string>>)
    ensures |r| == |tails|
    ensures forall k | 0 <= k < |r| :: r[k] == [f] + tails[k]
  {
    seq(|tails|, k requires 0 <= k < |tails| => [f] + tails[k])
  }

  /** Each pattern of `fs` in front of each choice of `tails`, the pattern varying slowest. */
  function ChoicesFrom(fs: seq<string>, tails: seq<seq<string>>): (r: seq<seq<string>>)
    ensures |r| == |fs| * |tails|
    ensures forall k | 0 <= k < |r| :: |r[k]| >= 1 && r[k][0] in fs && r[k][1..] in tails
    decreases |fs|
  {
    if |fs| == 0 then []
    else
      var head := Extend(fs[0], tails);
      var more := ChoicesFrom(fs[1..], tails);
      MulStep(|fs|, |tails|);
      forall k | 0 <= k < |head|
        ensures head[k][1..] == tails[k]
      {
      }
      assert forall k | 0 <= k < |more| :: more[k][0] in fs by {
        forall k | 0 <= k < |more|
          ensures more[k][0] in fs
        {
          var j :| 0 <= j < |fs[1..]| && fs[1..][j] == more[k][0];
          assert fs[j + 1] == more[k][0];
        }
      }
      head + more
  }

  lemma MulStep(a: nat, b: nat)
    requires a >= 1
    ensures a * b == b + (a - 1) * b
  {
  }

  /** The number of choices of one pattern per list. */
  function Count(lists: seq<seq<string>>): (r: nat)
    decreases |lists|
  {
    if |lists| == 0 then 1 else |lists[0]| * Count(lists[1..])
  }

  /** Every choice of one pattern from each list, the first list varying slowest. */
  function AllChoices(lists: seq<seq<string>>): (r: seq<seq<string>>)
    ensures |r| == Count(lists)
    ensures forall c | c in r :: |c| == |lists| && forall i | 0 <= i < |lists| :: c[i] in lists[i]
    decreases |lists|
  {
    if |lists| == 0 then [[]]
    else
      var tails := AllChoices(lists[1..]);
      var r := ChoicesFrom(lists[0], tails);
      assert forall c | c in r :: |c| == |lists| && forall i | 0 <= i < |lists| :: c[i] in lists[i] by {
        forall c, i | c in r && 0 <= i < |lists|
          ensures |c| == |lists| && c[i] in lists[i]
        {
          if i > 0 {
            assert c[i] == c[1..][i - 1];
          }
        }
      }
      r
  }

  /** The mask `expandRec` assembles for one choice of patterns, one per remaining octet. */
  function Assembled(charsets: string, pattern: string, choice: seq<string>): (r: string)
    requires |choice| >= 1
    decreases |choice|
  {
    var (cs, m) := SplitDecl(charsets, choice[0]);
    if |choice| == 1 then cs + Dotted(pattern) + m else Assembled(cs, Dotted(pattern) + m, choice[1..])
  }

  /** The masks of a list of choices. */
  function AssembledAll(charsets: string, pattern: string, choices: seq<seq<string>>): (r: seq<string>)
    requires forall k | 0 <= k < |choices| :: |choices[k]| >= 1
    ensures |r| == |choices|
  {
    seq(|choices|, k requires 0 <= k < |choices| => Assembled(charsets, pattern, choices[k]))
  }

  /** `expandRec` emits the mask of each choice of patterns, in the order of `AllChoices`. */
  lemma {:induction false} ExpandRecEnumerates(charsets: string, pattern: string, lists: seq<seq<string>>)
    requires |lists| >= 1
    ensures ExpandRec(charsets, pattern, lists) == AssembledAll(charsets, pattern, AllChoices(lists))
    decreases |lists|, 1, 0
  {
    hide ExpandEach, ChoicesFrom, Assembled, AssembledAll, SplitDecl, Extend;
    ExpandEachEnumerates(charsets, pattern, lists[0], lists[1..]);
  }

  /** The loop over the patterns of one octet emits the masks of the choices that start with them. */
  lemma {:induction false} ExpandEachEnumerates(charsets: string, pattern: string, fs: seq<string>, rest: seq<seq<string>>)
    ensures ExpandEach(charsets, Dotted(pattern), fs, rest) == AssembledAll(charsets, pattern, ChoicesFrom(fs, AllChoices(rest)))
    decreases |rest| + 1, 0, |fs|
  {
    if |fs| > 0 {
      hide ExpandRec, Assembled, AssembledAll, AllChoices, Extend, SplitDecl;
      var tails := AllChoices(rest);
      EachHere(charsets, pattern, fs[0], rest);
      ExpandEachEnumerates(charsets, pattern, fs[1..], rest);
      AssembledAllAppend(charsets, pattern, Extend(fs[0], tails), ChoicesFrom(fs[1..], tails));
    }
  }

  /** One pattern `f` of the current octet emits the masks of the choices that start with it. */
  lemma {:induction false} EachHere(charsets: string, pattern: string, f: string, rest: seq<seq<string>>)
    ensures var (cs, m) := SplitDecl(charsets, f);
      (if |rest| == 0 then [cs + Dotted(pattern) + m] else ExpandRec(cs, Dotted(pattern) + m, rest))
        == AssembledAll(charsets, pattern, Extend(f, AllChoices(rest)))
    decreases |rest| + 1, 0, 0
  {
    hide ExpandRec, ExpandEach;
    var (cs, m) := SplitDecl(charsets, f);
    var tails := AllChoices(rest);
    if |rest| > 0 {
      ExpandRecEnumerates(cs, Dotted(pattern) + m, rest);
      AssembledExtend(charsets, pattern, f, tails);
    } else {
      assert tails == [[]] && [f] + tails[0] == [f];
      assert Extend(f, tails) == [[f]];
    }
  }

  /** Putting `f` in front of every choice assembles as the choices do after the declarations of `f`. */
  lemma AssembledExtend(charsets: string, pattern: string, f: string, tails: seq<seq<string>>)
    requires forall k | 0 <= k < |tails| :: |tails[k]| >= 1
    ensures var (cs, m) := SplitDecl(charsets, f);
      AssembledAll(charsets, pattern, Extend(f, tails)) == AssembledAll(cs, Dotted(pattern) + m, tails)
  {
    var (cs, m) := SplitDecl(charsets, f);
    var head := Extend(f, tails);
    forall k | 0 <= k < |tails|
      ensures Assembled(charsets, pattern, head[k]) == Assembled(cs, Dotted(pattern) + m, tails[k])
    {
      assert head[k][1..] == tails[k];
    }
  }

  lemma AssembledAllAppend(charsets: string, pattern: string, a: seq<seq<string>>, b: seq<seq<string>>)
    requires forall k | 0 <= k < |a| :: |a[k]| >= 1
    requires forall k | 0 <= k < |b| :: |b[k]| >= 1
    ensures AssembledAll(charsets, pattern, a + b) == AssembledAll(charsets, pattern, a) + AssembledAll(charsets, pattern, b)
  {
    hide Assembled;
    assert forall k | 0 <= k < |a + b| :: |(a + b)[k]| >= 1;
  }

  /** `expand` emits one mask per choice of one pattern per octet: as many masks as choices. */
  lemma ExpandEnumerates(lists: seq<seq<string>>)
    requires |lists| >= 1
    ensures Expand(lists) == AssembledAll(DefaultDecls, "", AllChoices(lists))
    ensures |Expand(lists)| == Count(lists)
  {
    ExpandRecEnumerates(DefaultDecls, "", lists);
  }
}
