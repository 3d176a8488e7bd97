/**
  The promises of `CompactMask`: it never lengthens a mask, and on a mask
  without backslashes that the reference expander accepts it keeps the
  strings the mask denotes, in the same order.
 */
module CompactSound {
  import opened Wrappers
  import opened HCMask
  import opened Compact
  import opened CompactMeaning

  /** The compacted mask is never longer than the mask. */
  lemma CompactShorter(m: string)
    ensures |CompactMask(m)| <= |m|
  {
    hide CompactMask, Extract, Kept, Renumbered, RefSlots, Declarations;
    CompactMaskMeaning(m);
    var (decls, start) := Extract(m);
    KeptShorter(decls, RefSlots(m[start..], |decls|));
  }

  lemma SelectorsStep(p: string, i: nat)
    requires i + 1 < |p|
    ensures p[i] != '?' ==> SelectorsFrom(p, i) == SelectorsFrom(p, i + 1)
    ensures p[i] == '?' ==> SelectorsFrom(p, i) == {i + 1} + SelectorsFrom(p, i + 2)
  {
  }

  /**
    A renumbered selector picks, from the compacted charset table, the
    charset the original selector picks from the original table.
   */
  lemma SelectorRenumbered(c: char, n: nat, used: set<nat>, cs: seq<string>, cs2: seq<string>)
    requires |cs| == 5 && |cs2| == 5 && n <= 4
    requires DeclaredSlot(c, n).Some? ==> DeclaredSlot(c, n).value in used
    requires cs2[0] == cs[0]
    requires forall k | k in used && k < n :: cs2[1 + Rank(used, k)] == cs[1 + k]
    requires forall s | n < s < 5 :: cs2[s] == cs[s]
    ensures var d := NewSelector(c, n, used);
      (Selector(d).Some? <==> Selector(c).Some?)
      && (Selector(c).Some? ==> cs2[Selector(d).value] == cs[Selector(c).value])
  {
    match DeclaredSlot(c, n)
    case None =>
    case Some(k) =>
      RankBound(used, k);
      var d := NewSelector(c, n, used);
      assert d as int == '1' as int + Rank(used, k);
      assert Selector(d) == Some(1 + Rank(used, k));
      assert Selector(c) == Some(1 + k);
  }

  /**
    Tokenizing a renumbered pattern against the compacted charset table
    gives the tokens of the original pattern against the original table,
    from every position the selector reading reaches.
   */
  lemma {:induction false} TokenizeRenumbered(p: string, q: string, i: nat, n: nat, used: set<nat>, cs: seq<string>, cs2: seq<string>)
    requires |cs| == 5 && |cs2| == 5 && |q| == |p| && i <= |p| && n <= 4
    requires forall j | i <= j < |p| :: q[j] == if j in SelectorsFrom(p, i) then NewSelector(p[j], n, used) else p[j]
    requires RefSlotsFrom(p, n, i) <= used
    requires cs2[0] == cs[0]
    requires forall k | k in used && k < n :: cs2[1 + Rank(used, k)] == cs[1 + k]
    requires forall s | n < s < 5 :: cs2[s] == cs[s]
    ensures Tokenize(q[i..], cs2) == Tokenize(p[i..], cs)
    decreases |p| - i
  {
    hide SelectorsFrom, RefSlotsFrom, NewSelector, Selector;
    if i == |p| {
      assert q[i..] == [] && p[i..] == [];
    } else if i + 1 == |p| {
      assert i !in SelectorsFrom(p, i);
      assert q[i..] == [q[i]] && p[i..] == [p[i]] && q[i] == p[i];
      assert q[i..][1..] == [] && p[i..][1..] == [];
    } else {
      SelectorsStep(p, i);
      RefSlotsStep(p, n, i);
      assert i !in SelectorsFrom(p, i);
      assert q[i] == p[i];
      assert q[i..][1..] == q[i + 1..] && p[i..][1..] == p[i + 1..];
      if p[i] != '?' {
        TokenizeRenumbered(p, q, i + 1, n, used, cs, cs2);
      } else {
        assert q[i..][2..] == q[i + 2..] && p[i..][2..] == p[i + 2..];
        assert q[i + 1] == NewSelector(p[i + 1], n, used);
        assert DeclaredSlot(p[i + 1], n).Some? ==> DeclaredSlot(p[i + 1], n).value in used;
        SelectorRenumbered(p[i + 1], n, used, cs, cs2);
        TokenizeRenumbered(p, q, i + 2, n, used, cs, cs2);
      }
    }
  }

  /** A renumbered pattern gains no comma. */
  lemma RenumberedPlain(p: string, n: nat, used: set<nat>)
    requires ',' !in p
    ensures ',' !in Renumbered(p, n, used)
  {
    var r := Renumbered(p, n, used);
    forall j | 0 <= j < |r|
      ensures r[j] != ','
    {
      assert p[j] in p;
    }
  }

  /** The expander's charset table for declarations `decls`: `?d`, the declarations, then empty slots. */
  lemma TableAt(decls: seq<string>, s: nat)
    requires |decls| <= 4 && s < 5
    ensures var cs := [DigitCharset] + decls + seq(4 - |decls|, _ => "");
      |cs| == 5 && cs[s] == if s == 0 then DigitCharset else if s <= |decls| then decls[s - 1] else ""
  {
  }

  /** A mask is its comma-free fields before the last comma, then its comma-free pattern. */
  lemma PlainFields(m: string)
    ensures var fields := Split(m, ',');
      var ds, body := fields[..|fields| - 1], fields[|fields| - 1];
      && ',' !in body && (forall k | 0 <= k < |ds| :: ',' !in ds[k])
      && m == Declarations(ds) + body
  {
    hide Declarations, Split, Join;
    var fields := Split(m, ',');
    SplitJoin(m, ',');
    JoinDeclarations(fields);
  }

  /** A mask without backslashes and with at most four declarations compacts to the kept declarations and the renumbered pattern. */
  lemma CompactShape(m: string)
    requires '\\' !in m && |Split(m, ',')| <= 5
    ensures var fields := Split(m, ',');
      var ds, body := fields[..|fields| - 1], fields[|fields| - 1];
      var used := RefSlots(body, |ds|);
      CompactMask(m) == Declarations(Kept(ds, used)) + Renumbered(body, |ds|, used)
  {
    hide CompactMask, Extract, Kept, Renumbered, RefSlotsFrom, Declarations, Split, SelectorsFrom;
    var fields := Split(m, ',');
    ExtractPlain(m);
    assert fields[|fields| - 1..] == [fields[|fields| - 1]];
    assert Join([fields[|fields| - 1]], ',') == fields[|fields| - 1];
    CompactMaskMeaning(m);
  }

  /** The compacted charset table: the digit charset, then each used declaration at its rank, then the same empty slots. */
  lemma TablesAgree(ds: seq<string>, used: set<nat>)
    requires |ds| <= 4
    ensures var kept := Kept(ds, used);
      var cs := [DigitCharset] + ds + seq(4 - |ds|, _ => "");
      var cs2 := [DigitCharset] + kept + seq(4 - |kept|, _ => "");
      && |kept| <= 4 && |cs| == 5 && |cs2| == 5 && cs2[0] == cs[0]
      && (forall k | k in used && k < |ds| :: cs2[1 + Rank(used, k)] == cs[1 + k])
      && (forall s | |ds| < s < 5 :: cs2[s] == cs[s])
  {
    hide Kept, Rank;
    var kept := Kept(ds, used);
    var cs := [DigitCharset] + ds + seq(4 - |ds|, _ => "");
    var cs2 := [DigitCharset] + kept + seq(4 - |kept|, _ => "");
    TableAt(ds, 0);
    TableAt(kept, 0);
    forall k | k in used && k < |ds|
      ensures cs2[1 + Rank(used, k)] == cs[1 + k]
    {
      KeptAt(ds, used, k);
      TableAt(ds, 1 + k);
      TableAt(kept, 1 + Rank(used, k));
    }
    forall s | |ds| < s < 5
      ensures cs2[s] == cs[s]
    {
      TableAt(ds, s);
      TableAt(kept, s);
    }
  }

  /** The renumbered pattern reads over the compacted table as the pattern reads over the original one. */
  lemma RenumberTokens(ds: seq<string>, body: string)
    requires |ds| <= 4
    ensures var used := RefSlots(body, |ds|);
      var kept := Kept(ds, used);
      |kept| <= 4 &&
      Tokenize(Renumbered(body, |ds|, used), [DigitCharset] + kept + seq(4 - |kept|, _ => ""))
        == Tokenize(body, [DigitCharset] + ds + seq(4 - |ds|, _ => ""))
  {
    hide Kept, Renumbered, RefSlotsFrom, Tokenize, SelectorsFrom, NewSelector, Rank;
    var n := |ds|;
    var used := RefSlots(body, n);
    var cs := [DigitCharset] + ds + seq(4 - |ds|, _ => "");
    var cs2 := [DigitCharset] + Kept(ds, used) + seq(4 - |Kept(ds, used)|, _ => "");
    TablesAgree(ds, used);
    RenumberedEverywhere(body, n, used);
    TokenizeRenumbered(body, Renumbered(body, n, used), 0, n, used, cs, cs2);
  }

  /** Dropping unreferenced declarations and renumbering the pattern keeps the expansion. */
  lemma RenumberPreserves(ds: seq<string>, body: string)
    requires |ds| <= 4 && ',' !in body && forall k | 0 <= k < |ds| :: ',' !in ds[k]
    ensures var used := RefSlots(body, |ds|);
      ExpandMask(Declarations(Kept(ds, used)) + Renumbered(body, |ds|, used)) == ExpandMask(Declarations(ds) + body)
  {
    hide Kept, Renumbered, RefSlotsFrom, Declarations, ExpandMask, Split, Tokenize, SelectorsFrom, NewSelector, Rank, RefSlots;
    var used := RefSlots(body, |ds|);
    KeptFrom(ds, used);
    RenumberedPlain(body, |ds|, used);
    RenumberTokens(ds, body);
    ExpandMaskParts(ds, body);
    ExpandMaskParts(Kept(ds, used), Renumbered(body, |ds|, used));
  }

  /** Every position of the renumbered pattern: a new selector where a selector was, the old character elsewhere. */
  lemma RenumberedEverywhere(body: string, n: nat, used: set<nat>)
    ensures var r := Renumbered(body, n, used);
      r[0..] == r && body[0..] == body && |r| == |body| &&
      forall j | 0 <= j < |body| :: r[j] == if j in SelectorsFrom(body, 0) then NewSelector(body[j], n, used) else body[j]
  {
    hide Renumbered, SelectorsFrom, NewSelector;
    forall j | 0 <= j < |body|
      ensures Renumbered(body, n, used)[j] == if j in SelectorsFrom(body, 0) then NewSelector(body[j], n, used) else body[j]
    {
      RenumberedAt(body, n, used, j);
    }
  }

  /**
    On a mask without backslashes and with at most four declarations,
    compaction keeps the expansion: the compacted mask denotes the same
    strings in the same order, and is refused exactly when the mask is.
   */
  lemma CompactPreserves(m: string)
    requires '\\' !in m && |Split(m, ',')| <= 5
    ensures ExpandMask(CompactMask(m)) == ExpandMask(m)
  {
    hide CompactMask, Extract, Kept, Renumbered, RefSlotsFrom, Declarations, ExpandMask, Split, Tokenize, SelectorsFrom, NewSelector;
    PlainFields(m);
    CompactShape(m);
    var fields := Split(m, ',');
    RenumberPreserves(fields[..|fields| - 1], fields[|fields| - 1]);
  }
}
