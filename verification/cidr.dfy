/**
  The IPv4 network of the converter: `IPv4Net`, its CIDR text and the
  strict parser `ParseCIDR`, which accepts only the canonical text of a
  network whose host bits are all zero.
 */
module Cidr {
  import opened Wrappers
  import opened Decimal
  import opened HCMask
  import opened Seqs

  /** A byte of an address. */
  type Octet = x: nat | x < 256

  /** `IPv4Net`: a base address (four octets) and a prefix length, a Go `int`. */
  datatype IPv4Net = IPv4Net(ip: seq<Octet>, bits: int)

  /** The errors of `ParseCIDR`; `ErrNonZeroBits` carries the network the text should have named. */
  datatype ParseError = ErrSyntax | ErrNonZeroBits(expected: IPv4Net)

  /** `2^k`. */
  function Pow2(k: nat): (r: nat)
    ensures r >= 1
  {
    if k == 0 then 1 else 2 * Pow2(k - 1)
  }

  /** `n & (1<<k - 1)`: the last `k` bits of `n`. */
  function LowBits(n: nat, k: nat): (r: nat)
    ensures r < Pow2(k)
  {
    if k == 0 then 0 else n % 2 + 2 * LowBits(n / 2, k - 1)
  }

  /** `n &^ (1<<k - 1)`: `n` with its last `k` bits cleared. */
  function ClearBits(n: nat, k: nat): (r: nat)
    ensures r + LowBits(n, k) == n
    ensures LowBits(r, k) == 0
  {
    if k == 0 then n
    else
      var r := 2 * ClearBits(n / 2, k - 1);
      assert r % 2 == 0 && r / 2 == ClearBits(n / 2, k - 1);
      r
  }

  /** A number below `2^k` is its own last `k` bits. */
  lemma {:induction false} LowBitsSmall(n: nat, k: nat)
    requires n < Pow2(k)
    ensures LowBits(n, k) == n
  {
    if k > 0 {
      LowBitsSmall(n / 2, k - 1);
    }
  }

  lemma {:induction false} Pow2Byte(k: nat)
    requires k <= 8
    ensures Pow2(k) <= 256
    ensures k == 8 ==> Pow2(k) == 256
    decreases 8 - k
  {
    if k < 8 {
      Pow2Byte(k + 1);
    } else {
      assert Pow2(8) == 256;
    }
  }

  /** How many of the first `bits` bits of an address fall in octet `i`. */
  function PrefixIn(bits: int, i: nat): (r: nat)
    ensures r <= 8
    ensures bits >= 8 * (i + 1) <==> r == 8
    ensures bits <= 8 * i <==> r == 0
  {
    if bits - 8 * i <= 0 then 0 else if bits - 8 * i >= 8 then 8 else bits - 8 * i
  }

  /** An octet with all but its first `kept` bits cleared. */
  function MaskOctet(v: Octet, kept: nat): (r: Octet)
    requires kept <= 8
    ensures r <= v && LowBits(r, 8 - kept) == 0
    ensures LowBits(v, 8 - kept) == 0 <==> r == v
  {
    ClearBits(v, 8 - kept)
  }

  /** Every bit after the prefix is zero: the base address is the first one of its block. */
  predicate HostBitsZero(net: IPv4Net)
    requires |net.ip| == 4
  {
    forall i | 0 <= i < 4 :: LowBits(net.ip[i], 8 - PrefixIn(net.bits, i)) == 0
  }

  /** The network the address bits name once the host bits are cleared. */
  function Masked(net: IPv4Net): (r: IPv4Net)
    requires |net.ip| == 4
    ensures |r.ip| == 4 && r.bits == net.bits && HostBitsZero(r)
    ensures r == net <==> HostBitsZero(net)
  {
    var ip := seq(4, i requires 0 <= i < 4 => MaskOctet(net.ip[i], PrefixIn(net.bits, i)));
    assert HostBitsZero(net) ==> ip == net.ip;
    IPv4Net(ip, net.bits)
  }

  // ---------------------------------------------------------------------------
  // Text

  /** The decimal texts of the octets, in order. */
  function OctetTexts(ip: seq<Octet>): (r: seq<string>)
    ensures |r| == |ip|
    ensures forall i | 0 <= i < |r| :: r[i] == Itoa(ip[i])
  {
    seq(|ip|, i requires 0 <= i < |ip| => Itoa(ip[i]))
  }

  /** The `%d` text of a Go `int`. */
  function IntText(n: int): (r: string) {
    if n < 0 then "-" + Itoa(-n) else Itoa(n)
  }

  /** `IPv4Net.String`: the dotted octets, a slash, the prefix length. */
  function NetString(net: IPv4Net): (r: string)
    requires |net.ip| == 4
  {
    Join(OctetTexts(net.ip), '.') + "/" + IntText(net.bits)
  }

  /** The position of the first `c` in `s` (`strings.IndexByte`), if any. */
  function FirstIndex(s: string, c: char): (r: Option<nat>)
    ensures r.None? <==> c !in s
    ensures r.Some? ==> r.value < |s| && s[r.value] == c && c !in s[..r.value]
    decreases |s|
  {
    if |s| == 0 then None
    else if s[0] == c then Some(0)
    else
      match FirstIndex(s[1..], c)
      case None => None
      case Some(i) =>
        assert s[..i + 1] == [s[0]] + s[1..][..i];
        Some(i + 1)
  }

  /** `strings.Cut`: the text before and after the first `c`, and whether there was one. */
  function Cut(s: string, c: char): (r: (string, string, bool))
    ensures r.2 <==> c in s
    ensures r.2 ==> s == r.0 + [c] + r.1 && c !in r.0
    ensures !r.2 ==> r.0 == s && r.1 == ""
  {
    match FirstIndex(s, c)
    case None => (s, "", false)
    case Some(i) =>
      assert s == s[..i] + [c] + s[i + 1..];
      (s[..i], s[i + 1..], true)
  }

  /** `strings.SplitN(s, sep, n)` for `n >= 1`: at most `n` fields, the last one holding the rest. */
  function SplitN(s: string, sep: char, n: nat): (r: seq<string>)
    requires n >= 1
    ensures 1 <= |r| <= n
    ensures Join(r, sep) == s
    decreases n
  {
    if n == 1 then [s]
    else
      match FirstIndex(s, sep)
      case None => [s]
      case Some(i) =>
        var rest := SplitN(s[i + 1..], sep, n - 1);
        var r := [s[..i]] + rest;
        assert r[1..] == rest && r[0] == s[..i];
        assert Join(r, sep) == s[..i] + [sep] + Join(rest, sep);
        assert s == s[..i] + [sep] + s[i + 1..];
        r
  }

  /** One step of `SplitN`: the field before the first separator, then the rest split into `n - 1`. */
  lemma SplitNUnfold(s: string, sep: char, n: nat)
    requires n >= 1
    ensures n == 1 ==> SplitN(s, sep, n) == [s]
    ensures n > 1 && FirstIndex(s, sep).None? ==> SplitN(s, sep, n) == [s]
    ensures n > 1 && FirstIndex(s, sep).Some? ==>
      var i := FirstIndex(s, sep).value;
      SplitN(s, sep, n) == [s[..i]] + SplitN(s[i + 1..], sep, n - 1)
  {
  }

  /** Where `strings.Split` yields fewer than `n` fields, `SplitN` yields the same ones, and conversely. */
  lemma {:induction false} SplitNAgrees(s: string, sep: char, n: nat)
    requires n >= 1
    ensures |Split(s, sep)| < n <==> |SplitN(s, sep, n)| < n
    ensures |Split(s, sep)| < n ==> SplitN(s, sep, n) == Split(s, sep)
    decreases n
  {
    hide Split, Join, FirstIndex, SplitN;
    SplitNUnfold(s, sep, n);
    if n > 1 {
      match FirstIndex(s, sep)
      case None =>
        SplitNoSep(s, sep);
      case Some(i) =>
        var a, b := s[..i], s[i + 1..];
        assert s == a + [sep] + b;
        SplitCons(a, sep, b);
        SplitNAgrees(b, sep, n - 1);
    }
  }

  // ---------------------------------------------------------------------------
  // Parsing

  /** The text the parser accepts for one number: canonical decimal of a byte. */
  predicate ByteText(p: string) {
    Canonical(p) && Value(p) <= 255
  }

  /** The byte a byte text stands for. */
  function ByteValue(p: string): (r: Octet)
    requires ByteText(p)
  {
    Value(p)
  }

  /** The parser's leading-zero test on a field. */
  predicate LeadingZero(p: string) {
    |p| > 1 && p[0] == '0'
  }

  /**
    One round of the octet loop of `ParseCIDR`, with `bits` prefix bits
    left: the octet stored, the prefix bits left after it, and whether host
    bits were found set.
   */
  function ParseOctet(p: string, bits: int): (r: Result<(Octet, int, bool), ParseError>)
    requires bits >= 0
    ensures r.Failure? <==> !ByteText(p)
    ensures r.Failure? ==> r.error == ErrSyntax
    ensures r.Success? ==>
      var kept := PrefixIn(bits, 0);
      r.value.0 == MaskOctet(Value(p), kept)
      && r.value.1 == (if bits >= 8 then bits - 8 else 0)
      && (r.value.2 <==> LowBits(Value(p), 8 - kept) != 0)
  {
    if LeadingZero(p) then Failure(ErrSyntax)
    else if bits == 0 then
      if p != "0" then
        if ParseUint8(p).None? then Failure(ErrSyntax)
        else
          assert Value(p) >= 1 by {
            if |p| > 1 {
              ValuePositive(p);
            }
          }
          Pow2Byte(8);
          LowBitsSmall(Value(p), 8);
          Success((0, 0, true))
      else
        Success((0, 0, false))
    else
      match ParseUint8(p)
      case None => Failure(ErrSyntax)
      case Some(n) =>
        if bits >= 8 then Success((n, bits - 8, false))
        else
          if LowBits(n, 8 - bits) != 0 then Success((ClearBits(n, 8 - bits), 0, true)) else Success((n, 0, false))
  }

  /** The prefix bits of octet `j` once the rounds before octet `i` have consumed theirs. */
  lemma PrefixShift(bits: int, j: nat)
    requires bits >= 0 && j >= 1
    ensures PrefixIn(if bits >= 8 then bits - 8 else 0, j - 1) == PrefixIn(bits, j)
  {
  }

  /**
    The octet loop of `ParseCIDR` from octet `i` on, with `bits` prefix bits
    left, the address `ip` filled so far and the host-bit flag `errBits`.
   */
  function ParseOctets(parts: seq<string>, i: nat, bits: int, ip: seq<Octet>, errBits: bool)
    : (r: Result<(seq<Octet>, bool), ParseError>)
    requires |parts| == 4 && i <= 4 && |ip| == 4 && bits >= 0
    ensures r.Failure? ==> r.error == ErrSyntax
    decreases 4 - i
  {
    if i == 4 then Success((ip, errBits))
    else
      match ParseOctet(parts[i], bits)
      case Failure(_) => Failure(ErrSyntax)
      case Success(step) => ParseOctets(parts, i + 1, step.1, ip[i := step.0], errBits || step.2)
  }

  /** The octet loop fails exactly when some field from `i` on is not a byte text. */
  lemma {:induction false} ParseOctetsFails(parts: seq<string>, i: nat, bits: int, ip: seq<Octet>, errBits: bool)
    requires |parts| == 4 && i <= 4 && |ip| == 4 && bits >= 0
    ensures ParseOctets(parts, i, bits, ip, errBits).Failure? <==> exists j | i <= j < 4 :: !ByteText(parts[j])
    decreases 4 - i
  {
    hide ParseOctets, ParseOctet, ByteText;
    ParseOctetsUnfold(parts, i, bits, ip, errBits);
    if i < 4 {
      var r := ParseOctet(parts[i], bits);
      if r.Success? {
        var step := r.value;
        ParseOctetsFails(parts, i + 1, step.1, ip[i := step.0], errBits || step.2);
      }
    }
  }

  lemma ParseOctetsUnfold(parts: seq<string>, i: nat, bits: int, ip: seq<Octet>, errBits: bool)
    requires |parts| == 4 && i <= 4 && |ip| == 4 && bits >= 0
    ensures i == 4 ==> ParseOctets(parts, i, bits, ip, errBits) == Success((ip, errBits))
    ensures i < 4 && ParseOctet(parts[i], bits).Failure? ==> ParseOctets(parts, i, bits, ip, errBits).Failure?
    ensures i < 4 && ParseOctet(parts[i], bits).Success? ==>
      var step := ParseOctet(parts[i], bits).value;
      ParseOctets(parts, i, bits, ip, errBits) == ParseOctets(parts, i + 1, step.1, ip[i := step.0], errBits || step.2)
  {
    hide ParseOctet;
  }

  /** One round of the octet loop on a byte text. */
  lemma ParseOctetsStep(parts: seq<string>, i: nat, bits: int, ip: seq<Octet>, errBits: bool)
    requires |parts| == 4 && i < 4 && |ip| == 4 && bits >= 0 && ByteText(parts[i])
    ensures var step := ParseOctet(parts[i], bits).value;
      ParseOctets(parts, i, bits, ip, errBits) == ParseOctets(parts, i + 1, step.1, ip[i := step.0], errBits || step.2)
  {
  }

  /** The values of the fields from `i` on. */
  function Values(parts: seq<string>, i: nat): (r: seq<Octet>)
    requires i <= |parts|
    requires forall j | i <= j < |parts| :: ByteText(parts[j])
    ensures |r| == |parts| - i
  {
    seq<Octet>(|parts| - i, k requires 0 <= k < |parts| - i => ByteValue(parts[i + k]))
  }

  /** The values of the fields from `i` on with the bits after a `bits`-bit prefix cleared. */
  function Cleared(parts: seq<string>, i: nat, bits: int): (r: seq<Octet>)
    requires i <= |parts|
    requires forall j | i <= j < |parts| :: ByteText(parts[j])
    ensures |r| == |parts| - i
  {
    seq(|parts| - i, k requires 0 <= k < |parts| - i => MaskOctet(ByteValue(parts[i + k]), PrefixIn(bits, k)))
  }

  /** Clearing the fields from `i` on is clearing field `i`, then the rest with the prefix bits left. */
  lemma ClearedStep(parts: seq<string>, i: nat, bits: int)
    requires i < |parts| && bits >= 0
    requires forall j | i <= j < |parts| :: ByteText(parts[j])
    ensures Cleared(parts, i, bits)
      == [MaskOctet(Value(parts[i]), PrefixIn(bits, 0))] + Cleared(parts, i + 1, if bits >= 8 then bits - 8 else 0)
    ensures Values(parts, i) == [Value(parts[i])] + Values(parts, i + 1)
  {
    hide MaskOctet, Value, PrefixIn;
    var next := if bits >= 8 then bits - 8 else 0;
    forall k | 1 <= k < |parts| - i
      ensures Cleared(parts, i, bits)[k] == Cleared(parts, i + 1, next)[k - 1]
    {
      PrefixShift(bits, k);
    }
    assert Cleared(parts, i, bits) == [MaskOctet(Value(parts[i]), PrefixIn(bits, 0))] + Cleared(parts, i + 1, next);
    assert Values(parts, i) == [Value(parts[i])] + Values(parts, i + 1);
  }

  /**
    On fields that are all byte texts the octet loop stores each value with
    the bits after the prefix cleared, and raises the host-bit flag exactly
    when clearing changed some octet.
   */
  lemma {:induction false} ParseOctetsMeaning(parts: seq<string>, i: nat, bits: int, ip: seq<Octet>, errBits: bool)
    requires |parts| == 4 && i <= 4 && |ip| == 4 && bits >= 0
    requires forall j | i <= j < 4 :: ByteText(parts[j])
    ensures ParseOctets(parts, i, bits, ip, errBits)
      == Success((ip[..i] + Cleared(parts, i, bits), errBits || Cleared(parts, i, bits) != Values(parts, i)))
    decreases 4 - i
  {
    if i < 4 {
      hide ParseOctets, ParseOctet, LowBits, Value, MaskOctet, Cleared, Values;
      var step := ParseOctet(parts[i], bits).value;
      var ip' := ip[i := step.0];
      ParseOctetsStep(parts, i, bits, ip, errBits);
      ParseOctetsMeaning(parts, i + 1, step.1, ip', errBits || step.2);
      ClearedStep(parts, i, bits);
      assert ip'[..i + 1] == ip[..i] + [step.0];
      AppendAssoc(ip[..i], [step.0], Cleared(parts, i + 1, step.1));
      assert step.2 <==> step.0 != Value(parts[i]);
      ConsEqual(step.0, Cleared(parts, i + 1, step.1), Value(parts[i]), Values(parts, i + 1));
    } else {
      assert ip[..4] + Cleared(parts, 4, bits) == ip;
      assert Cleared(parts, 4, bits) == Values(parts, 4);
    }
  }

  /** An address the octet loop stores has four octets and no host bit set. */
  lemma ParsedClear(parts: seq<string>, n: nat)
    requires |parts| == 4 && n <= 32
    requires ParseOctets(parts, 0, n, [0, 0, 0, 0], false).Success?
    ensures var net := IPv4Net(ParseOctets(parts, 0, n, [0, 0, 0, 0], false).value.0, n);
      |net.ip| == 4 && HostBitsZero(net)
  {
    hide ParseOctets;
    ParseOctetsFails(parts, 0, n, [0, 0, 0, 0], false);
    ParseOctetsMeaning(parts, 0, n, [0, 0, 0, 0], false);
    var net := IPv4Net(ParseOctets(parts, 0, n, [0, 0, 0, 0], false).value.0, n);
    assert forall j | 0 <= j < 4 :: net.ip[j] == Cleared(parts, 0, n)[j];
  }

  /** `ParseCIDR`: the network a CIDR text names, or why it names none. */
  function ParseCIDR(s: string): (r: Result<IPv4Net, ParseError>)
    ensures r.Success? ==> |r.value.ip| == 4 && 0 <= r.value.bits <= 32 && HostBitsZero(r.value)
    ensures r.Failure? && r.error.ErrNonZeroBits? ==>
      var e := r.error.expected;
      |e.ip| == 4 && 0 <= e.bits <= 32 && HostBitsZero(e)
  {
    if |s| > 18 then Failure(ErrSyntax)
    else
      var (ipStr, bitsStr, found) := Cut(s, '/');
      if !found then Failure(ErrSyntax)
      else if LeadingZero(bitsStr) then Failure(ErrSyntax)
      else
        match ParseUint8(bitsStr)
        case None => Failure(ErrSyntax)
        case Some(n) =>
          if n > 32 then Failure(ErrSyntax)
          else
            var parts := SplitN(ipStr, '.', 5);
            if |parts| != 4 then Failure(ErrSyntax)
            else
              var res :- ParseOctets(parts, 0, n, [0, 0, 0, 0], false);
              ParsedClear(parts, n);
              var net := IPv4Net(res.0, n);
              if res.1 then Failure(ErrNonZeroBits(net)) else Success(net)
  }

  // ---------------------------------------------------------------------------
  // What the parser accepts

  /**
    The text `ParseCIDR` accepts as syntax: at most 18 characters, a slash,
    a prefix length 0..32 in canonical decimal after the first slash, and
    before it exactly four dot-separated byte texts.
   */
  predicate WellFormed(s: string) {
    |s| <= 18 && '/' in s
    && var (ipStr, bitsStr, _) := Cut(s, '/');
    ByteText(bitsStr) && Value(bitsStr) <= 32
    && var parts := Split(ipStr, '.');
    |parts| == 4 && forall j | 0 <= j < 4 :: ByteText(parts[j])
  }

  /** The network a well-formed text spells out, host bits included. */
  function TextNet(s: string): (net: IPv4Net)
    requires WellFormed(s)
    ensures |net.ip| == 4 && 0 <= net.bits <= 32
  {
    var (ipStr, bitsStr, _) := Cut(s, '/');
    IPv4Net(Values(Split(ipStr, '.'), 0), Value(bitsStr))
  }

  /** The parser's two tests on a number, no leading zero and `ParseUint` success, accept exactly byte texts. */
  lemma ByteTextParse(p: string)
    ensures !LeadingZero(p) && ParseUint8(p).Some? <==> ByteText(p)
    ensures ByteText(p) ==> AllDigits(p) && ParseUint8(p) == Some(Value(p))
  {
  }

  /** `ParseCIDR` fails with `ErrSyntax` exactly on the texts that are not well formed. */
  lemma ParseSyntax(s: string)
    ensures ParseCIDR(s) == Failure(ErrSyntax) <==> !WellFormed(s)
  {
    hide ParseOctets, Split, SplitN, Join, Cut, FirstIndex, Value, ParseUint8, ByteText, LeadingZero;
    var (ipStr, bitsStr, found) := Cut(s, '/');
    ByteTextParse(bitsStr);
    if |s| <= 18 && found && ByteText(bitsStr) && Value(bitsStr) <= 32 {
      SplitNAgrees(ipStr, '.', 5);
      var parts := SplitN(ipStr, '.', 5);
      if |parts| == 4 {
        ParseOctetsFails(parts, 0, Value(bitsStr), [0, 0, 0, 0], false);
      }
    }
  }

  /**
    On well-formed text `ParseCIDR` returns the network spelled out if its
    host bits are zero, and otherwise reports `ErrNonZeroBits` with that
    network's host bits cleared.
   */
  lemma ParseMeaning(s: string)
    requires WellFormed(s)
    ensures var net := TextNet(s);
      ParseCIDR(s) == if HostBitsZero(net) then Success(net) else Failure(ErrNonZeroBits(Masked(net)))
  {
    hide ParseOctets, Split, SplitN, Join, Cut, FirstIndex, Value, ParseUint8, ByteText, LeadingZero;
    var (ipStr, bitsStr, _) := Cut(s, '/');
    ByteTextParse(bitsStr);
    var n := Value(bitsStr);
    var parts := Split(ipStr, '.');
    SplitNAgrees(ipStr, '.', 5);
    assert SplitN(ipStr, '.', 5) == parts;
    ParseOctetsMeaning(parts, 0, n, [0, 0, 0, 0], false);
    assert [0, 0, 0, 0][..0] + Cleared(parts, 0, n) == Cleared(parts, 0, n);
    var net := TextNet(s);
    assert net == IPv4Net(Values(parts, 0), n);
    assert Masked(net).ip == Cleared(parts, 0, n);
    var flag := Cleared(parts, 0, n) != Values(parts, 0);
    assert ParseOctets(parts, 0, n, [0, 0, 0, 0], false) == Success((Cleared(parts, 0, n), flag));
    assert ParseCIDR(s) == if flag then Failure(ErrNonZeroBits(IPv4Net(Cleared(parts, 0, n), n)))
      else Success(IPv4Net(Cleared(parts, 0, n), n));
  }

  /** Whatever `ParseCIDR` accepts prints back as the text it was given. */
  lemma ParsePrints(s: string)
    requires ParseCIDR(s).Success?
    ensures NetString(ParseCIDR(s).value) == s
  {
    ParseSyntax(s);
    ParseMeaning(s);
    var (ipStr, bitsStr, _) := Cut(s, '/');
    var parts := Split(ipStr, '.');
    var net := ParseCIDR(s).value;
    forall j | 0 <= j < 4
      ensures OctetTexts(net.ip)[j] == parts[j]
    {
      ItoaValue(parts[j]);
    }
    assert OctetTexts(net.ip) == parts;
    SplitJoin(ipStr, '.');
    ItoaValue(bitsStr);
  }

  /** The text of a byte has at most three digits, of a number below 100 at most two. */
  lemma {:induction false} ItoaShort(n: nat)
    requires n < 1000
    ensures |Itoa(n)| <= 3
    ensures n < 100 ==> |Itoa(n)| <= 2
  {
    if n >= 10 {
      ItoaShort(n / 10);
    }
  }

  /** No decimal text holds a dot or a slash. */
  lemma ItoaPlain(n: nat)
    ensures '.' !in Itoa(n) && '/' !in Itoa(n)
  {
    var t := Itoa(n);
    assert forall k | 0 <= k < |t| :: IsDigit(t[k]);
  }

  /** The dotted octets of an address. */
  lemma DottedOctets(ip: seq<Octet>)
    requires |ip| == 4
    ensures Join(OctetTexts(ip), '.')
      == Itoa(ip[0]) + "." + Itoa(ip[1]) + "." + Itoa(ip[2]) + "." + Itoa(ip[3])
  {
    var t := OctetTexts(ip);
    assert Join(t[3..], '.') == t[3];
    assert Join(t[2..], '.') == t[2] + "." + t[3];
    assert Join(t[1..], '.') == t[1] + "." + t[2] + "." + t[3];
  }

  /** The text of a network with a prefix length 0..32 and zero host bits parses back to the network. */
  lemma PrintParses(net: IPv4Net)
    requires |net.ip| == 4 && 0 <= net.bits <= 32 && HostBitsZero(net)
    ensures ParseCIDR(NetString(net)) == Success(net)
  {
    var texts := OctetTexts(net.ip);
    var ipStr := Join(texts, '.');
    var bitsStr := Itoa(net.bits);
    var s := NetString(net);
    forall j | 0 <= j < 4
      ensures '.' !in texts[j] && '/' !in texts[j] && |texts[j]| <= 3
    {
      ItoaPlain(net.ip[j]);
      ItoaShort(net.ip[j]);
    }
    DottedOctets(net.ip);
    ItoaShort(net.bits);
    JoinExcludes(texts, '.', '/');
    CutAt(ipStr, '/', bitsStr);
    JoinSplit(texts, '.');
    forall j | 0 <= j < 4
      ensures ByteText(texts[j]) && ByteValue(texts[j]) == net.ip[j]
    {
      ItoaCanonical(net.ip[j]);
    }
    ItoaCanonical(net.bits);
    assert WellFormed(s);
    ParseMeaning(s);
    assert TextNet(s).ip == net.ip;
  }

  /** Cutting at a character that the text before it does not contain. */
  lemma CutAt(a: string, c: char, b: string)
    requires c !in a
    ensures Cut(a + [c] + b, c) == (a, b, true)
  {
    var s := a + [c] + b;
    assert s[..|a|] == a && s[|a|] == c && s[|a| + 1..] == b;
    var i := FirstIndex(s, c).value;
    assert i == |a| by {
      assert forall k | 0 <= k < |a| :: s[k] != c;
      assert c in s[..i + 1];
      assert forall k | 0 <= k < i :: s[k] != c;
    }
  }
}
