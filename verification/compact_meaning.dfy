/**
  What `CompactMask` computes, stated without its loops: the declarations
  the pattern references, in their order, then the pattern with each such
  reference renumbered to its rank among them. For a mask without escapes
  and with at most four declarations, the compacted mask denotes exactly
  the strings the mask does.
 */
module CompactMeaning {
  import opened Wrappers
  import opened HCMask
  import opened Compact

  // ---------------------------------------------------------------------------
  // Reference definitions

  /**
    The positions of the selector characters of pattern `p` met when reading
    it from position `i`: a `?` followed by a character takes that character
    as its selector.
   */
  function SelectorsFrom(p: string, i: nat): (r: set<nat>)
    requires i <= |p|
    ensures forall j | j in r :: i < j < |p|
    decreases |p| - i
  {
    if i + 1 >= |p| then {}
    else if p[i] == '?' then {i + 1} + SelectorsFrom(p, i + 2)
    else SelectorsFrom(p, i + 1)
  }

  /** The declared slots the selectors of `p` read from position `i` reference. */
  function RefSlotsFrom(p: string, n: nat, i: nat): (r: set<nat>)
    requires i <= |p|
    ensures r <= Slots(n)
  {
    set j | j in SelectorsFrom(p, i) && DeclaredSlot(p[j], n).Some? :: DeclaredSlot(p[j], n).value
  }

  /** The declared slots pattern `p` references. */
  function RefSlots(p: string, n: nat): (r: set<nat>) {
    RefSlotsFrom(p, n, 0)
  }

  /** The number of used slots below slot `k`: the place of slot `k` among the used ones. */
  function Rank(used: set<nat>, k: nat): (r: nat)
    ensures r <= k
  {
    if k == 0 then 0 else Rank(used, k - 1) + (if k - 1 in used then 1 else 0)
  }

  /** The declarations of the used slots, in their order. */
  function Kept(decls: seq<string>, used: set<nat>): (r: seq<string>)
    ensures |r| <= |decls|
    decreases |decls|
  {
    if |decls| == 0 then []
    else
      var last := |decls| - 1;
      Kept(decls[..last], used) + (if last in used then [decls[last]] else [])
  }

  /** The new selector for `c`: a reference to a declared slot becomes one to its rank; anything else stays. */
  function NewSelector(c: char, n: nat, used: set<nat>): (r: char) {
    match DeclaredSlot(c, n)
    case None => c
    case Some(k) => ('1' as int + Rank(used, k)) as char
  }

  /** Pattern `p` with every selector renumbered. */
  function Renumbered(p: string, n: nat, used: set<nat>): (r: string)
    ensures |r| == |p|
  {
    seq(|p|, j requires 0 <= j < |p| => if j in SelectorsFrom(p, 0) then NewSelector(p[j], n, used) else p[j])
  }

  // ---------------------------------------------------------------------------
  // Ranks and kept declarations

  lemma {:induction false} KeptLength(decls: seq<string>, used: set<nat>, k: nat)
    requires k <= |decls|
    ensures |Kept(decls[..k], used)| == Rank(used, k)
    decreases k
  {
    if k > 0 {
      KeptLength(decls, used, k - 1);
      assert decls[..k][..k - 1] == decls[..k - 1];
    }
  }

  /** The declaration of a used slot sits at the slot's rank among the kept ones. */
  lemma {:induction false} KeptAt(decls: seq<string>, used: set<nat>, k: nat)
    requires k in used && k < |decls|
    ensures Rank(used, k) < |Kept(decls, used)| && Kept(decls, used)[Rank(used, k)] == decls[k]
    decreases |decls|
  {
    var last := |decls| - 1;
    var front := decls[..last];
    KeptLength(decls, used, last);
    assert decls[..last] == front;
    if k < last {
      KeptAt(front, used, k);
      RankMonotone(used, k + 1, last);
    }
  }

  lemma {:induction false} RankMonotone(used: set<nat>, a: nat, b: nat)
    requires a <= b
    ensures Rank(used, a) <= Rank(used, b)
    decreases b - a
  {
    if a < b {
      RankMonotone(used, a, b - 1);
    }
  }

  /** The declarations below slot `i`, when no slot from `i` on is used, are all the kept ones. */
  lemma {:induction false} KeptNoneAbove(decls: seq<string>, used: set<nat>, i: nat)
    requires i <= |decls|
    requires forall j | j in used :: j < i
    ensures Kept(decls[..i], used) == Kept(decls, used)
    decreases |decls| - i
  {
    if i < |decls| {
      var last := |decls| - 1;
      KeptNoneAbove(decls[..last], used, i);
      assert decls[..last][..i] == decls[..i];
    } else {
      assert decls[..i] == decls;
    }
  }

  /** With every slot used, the ranks are the slots themselves and every declaration is kept. */
  lemma {:induction false} KeptAll(decls: seq<string>, n: nat)
    requires |decls| <= n
    ensures Kept(decls, Slots(n)) == decls
    ensures forall k | 0 <= k <= |decls| :: Rank(Slots(n), k) == k
    decreases |decls|
  {
    if |decls| > 0 {
      var last := |decls| - 1;
      KeptAll(decls[..last], n);
      assert decls[..last] + [decls[last]] == decls;
    }
  }

  lemma {:induction false} KeptNone(decls: seq<string>)
    ensures Kept(decls, {}) == []
    decreases |decls|
  {
    if |decls| > 0 {
      KeptNone(decls[..|decls| - 1]);
    }
  }

  /** Dropping declarations never lengthens the declaration prefix. */
  lemma {:induction false} KeptShorter(decls: seq<string>, used: set<nat>)
    ensures |Declarations(Kept(decls, used))| <= |Declarations(decls)|
    decreases |decls|
  {
    if |decls| > 0 {
      var last := |decls| - 1;
      KeptShorter(decls[..last], used);
      assert decls[..last] + [decls[last]] == decls;
      DeclarationsSnoc(decls[..last], decls[last]);
      if last in used {
        DeclarationsSnoc(Kept(decls[..last], used), decls[last]);
      } else {
        var front := Kept(decls[..last], used);
        assert Kept(decls, used) == front + [] == front;
        assert |Declarations(decls)| == |Declarations(decls[..last])| + |decls[last]| + 1;
      }
    }
  }

  /** The kept declarations are declarations of the mask. */
  lemma {:induction false} KeptFrom(decls: seq<string>, used: set<nat>)
    ensures forall k | 0 <= k < |Kept(decls, used)| :: Kept(decls, used)[k] in decls
    decreases |decls|
  {
    if |decls| > 0 {
      var last := |decls| - 1;
      KeptFrom(decls[..last], used);
      var front := Kept(decls[..last], used);
      forall k | 0 <= k < |Kept(decls, used)|
        ensures Kept(decls, used)[k] in decls
      {
        if k < |front| {
          assert front[k] in decls[..last];
        }
      }
    }
  }

  // ---------------------------------------------------------------------------
  // The loops

  /**
    The declarations loop without backslashes: the declarations are the
    comma-separated fields after `start`, up to four in all.
   */
  lemma {:induction false} ScanDeclsPlain(m: string, i: nat, start: nat, decls: seq<string>)
    requires start <= i <= |m| && |decls| < 4
    requires '\\' !in m && ',' !in m[start..i]
    ensures var fields := Split(m[start..], ',');
      ScanDecls(m, i, start, decls).0 == decls + fields[..Min(4 - |decls|, |fields| - 1)]
    decreases |m| - i
  {
    hide ScanDecls, Split;
    ScanDeclsStep(m, i, start, decls);
    var fields := Split(m[start..], ',');
    if i == |m| {
      assert m[start..] == m[start..i];
      SplitNoSep(m[start..], ',');
      assert fields[..0] == [] && decls + [] == decls;
    } else if m[i] == ',' {
      var field := m[start..i];
      assert m[start..] == field + [','] + m[i + 1..];
      SplitCons(field, ',', m[i + 1..]);
      var rest := Split(m[i + 1..], ',');
      assert fields == [field] + rest;
      var k := Min(4 - |decls|, |fields| - 1);
      if |decls| + 1 == 4 {
        assert fields[..k] == [field];
      } else {
        assert m[i + 1..][..0] == [];
        ScanDeclsPlain(m, i + 1, i + 1, decls + [field]);
        assert fields[..k] == [field] + rest[..k - 1];
        assert decls + fields[..k] == decls + [field] + rest[..k - 1];
      }
    } else {
      assert m[i] != '\\' by {
        assert m[i] in m;
      }
      assert m[start..i + 1] == m[start..i] + [m[i]];
      ScanDeclsPlain(m, i + 1, start, decls);
    }
  }

  lemma ScanDeclsStep(m: string, i: nat, start: nat, decls: seq<string>)
    requires start <= i <= |m| + 1 && start <= |m| && |decls| < 4
    ensures i >= |m| ==> ScanDecls(m, i, start, decls) == (decls, start)
    ensures i < |m| && m[i] == ',' && |decls| == 3 ==> ScanDecls(m, i, start, decls) == (decls + [m[start..i]], i + 1)
    ensures i < |m| && m[i] == ',' && |decls| < 3 ==> ScanDecls(m, i, start, decls) == ScanDecls(m, i + 1, i + 1, decls + [m[start..i]])
    ensures i < |m| && m[i] != ',' && m[i] != '\\' ==> ScanDecls(m, i, start, decls) == ScanDecls(m, i + 1, start, decls)
    ensures i < |m| && m[i] == '\\' ==> ScanDecls(m, i, start, decls) == ScanDecls(m, i + 2, start, decls)
  {
  }

  /**
    A mask without backslashes: its declarations are its first fields, four
    at most, and its pattern is the rest, later commas included.
   */
  lemma ExtractPlain(m: string)
    requires '\\' !in m
    ensures var fields := Split(m, ',');
      var k := Min(4, |fields| - 1);
      Extract(m).0 == fields[..k] && m[Extract(m).1..] == Join(fields[k..], ',')
  {
    hide ScanDecls, Split, Declarations, Join;
    assert m[0..] == m && m[0..0] == [];
    ScanDeclsPlain(m, 0, 0, []);
    var fields := Split(m, ',');
    var k := Min(4, |fields| - 1);
    SplitJoin(m, ',');
    JoinAt(fields, k);
    var d := Declarations(fields[..k]);
    var r := Extract(m);
    assert m == d + m[r.1..] == d + Join(fields[k..], ',');
    assert m[r.1..] == (d + m[r.1..])[|d|..] == (d + Join(fields[k..], ','))[|d|..];
  }

  /** Comma-joined fields: the first `k` as declarations, then the rest joined. */
  lemma {:induction false} JoinAt(parts: seq<string>, k: nat)
    requires k < |parts|
    ensures Join(parts, ',') == Declarations(parts[..k]) + Join(parts[k..], ',')
    decreases k
  {
    if k > 0 {
      JoinAt(parts[1..], k - 1);
      assert parts[1..][..k - 1] == parts[..k][1..];
      assert parts[1..][k - 1..] == parts[k..];
    } else {
      assert parts[k..] == parts;
    }
  }

  lemma RefSlotsStep(p: string, n: nat, i: nat)
    requires i + 1 < |p|
    ensures p[i] != '?' ==> RefSlotsFrom(p, n, i) == RefSlotsFrom(p, n, i + 1)
    ensures p[i] == '?' ==>
      RefSlotsFrom(p, n, i) == (match DeclaredSlot(p[i + 1], n) case None => {} case Some(k) => {k}) + RefSlotsFrom(p, n, i + 2)
  {
  }

  lemma RefSlotsEnd(p: string, n: nat, i: nat)
    requires i <= |p| && i + 1 >= |p|
    ensures RefSlotsFrom(p, n, i) == {}
  {
  }

  /**
    The references loop: it stops early exactly when the references from
    `i` complete the used slots to every declared one; otherwise it returns
    the used slots and the positions of the selectors of declared slots.
   */
  lemma {:induction false} ScanRefsMeaning(p: string, n: nat, i: nat, used: set<nat>, refs: seq<nat>)
    requires i <= |p| && used <= Slots(n)
    requires forall k | 0 <= k < |refs| :: refs[k] < i && DeclaredSlot(p[refs[k]], n).Some?
    requires forall a, b | 0 <= a < b < |refs| :: refs[a] < refs[b]
    requires used != Slots(n) || n == 0
    ensures var r := ScanRefs(p, n, i, used, refs);
      && (r.AllUsed? <==> n > 0 && used + RefSlotsFrom(p, n, i) == Slots(n))
      && (r.Refs? ==> r.used == used + RefSlotsFrom(p, n, i))
      && (r.Refs? ==> forall j :: j in r.refs <==> j in refs || (j in SelectorsFrom(p, i) && DeclaredSlot(p[j], n).Some?))
    decreases |p| - i
  {
    hide Slots, DeclaredSlot, RefSlotsFrom;
    if i + 1 >= |p| {
      RefSlotsEnd(p, n, i);
      if i < |p| {
        ScanRefsMeaning(p, n, i + 1, used, refs);
        RefSlotsEnd(p, n, i + 1);
      }
    } else if p[i] != '?' {
      RefSlotsStep(p, n, i);
      ScanRefsMeaning(p, n, i + 1, used, refs);
    } else {
      RefSlotsStep(p, n, i);
      match DeclaredSlot(p[i + 1], n)
      case None =>
        ScanRefsMeaning(p, n, i + 2, used, refs);
      case Some(k) =>
        var more := used + {k};
        if more != Slots(n) {
          ScanRefsMeaning(p, n, i + 2, more, refs + [i + 1]);
        }
    }
  }

  /** The new selector characters at slot `i` of the rebuild loop: slot `j` reads as its rank among the used slots below `i`, shifted by the slots from `i` up to `j`. */
  predicate IndexAt(index: seq<char>, used: set<nat>, i: nat) {
    |index| == 4 && forall j | 0 <= j < 4 :: index[j] as int == '1' as int + j - Min(i, j) + Rank(used, Min(i, j))
  }

  lemma IndexBounds(index: seq<char>, used: set<nat>, i: nat)
    requires IndexAt(index, used, i)
    ensures forall j | 0 <= j < 4 :: '1' as int - i <= index[j] as int <= '4' as int
  {
    forall j | 0 <= j < 4
      ensures '1' as int - i <= index[j] as int <= '4' as int
    {
      RankBound(used, Min(i, j));
    }
  }

  /** Passing slot `i` keeps the selector characters right: lowered above an unused slot, unchanged after a used one. */
  lemma IndexStep(index: seq<char>, used: set<nat>, i: nat)
    requires i < 4 && IndexAt(index, used, i)
    requires forall j | 0 <= j < 4 :: '1' as int - i <= index[j] as int <= '4' as int
    ensures i in used ==> IndexAt(index, used, i + 1)
    ensures i !in used ==> IndexAt(Lowered(index, i), used, i + 1)
  {
    assert Rank(used, i + 1) == Rank(used, i) + (if i in used then 1 else 0);
    forall j | 0 <= j < 4
      ensures Min(i + 1, j) == (if j > i then i + 1 else j) && Min(i, j) == (if j > i then i else j)
    {
    }
  }

  lemma RebuildUnfold(decls: seq<string>, used: set<nat>, i: nat, index: seq<char>, out: string)
    requires |decls| <= 4 && used <= Slots(|decls|) && i <= 4
    requires |index| == 4 && forall j | 0 <= j < 4 :: '1' as int - i <= index[j] as int <= '4' as int
    ensures !UsedFrom(used, i) ==> Rebuild(decls, used, i, index, out) == (index, out)
    ensures UsedFrom(used, i) && i !in used ==> i < 4 && Rebuild(decls, used, i, index, out) == Rebuild(decls, used, i + 1, Lowered(index, i), out)
    ensures UsedFrom(used, i) && i in used ==> i < |decls| && Rebuild(decls, used, i, index, out) == Rebuild(decls, used, i + 1, index, out + decls[i] + ",")
  {
  }

  lemma KeptSnoc(decls: seq<string>, used: set<nat>, i: nat)
    requires i < |decls|
    ensures Kept(decls[..i + 1], used) == Kept(decls[..i], used) + (if i in used then [decls[i]] else [])
  {
    assert decls[..i + 1][..i] == decls[..i];
  }

  /** The rebuild loop: the used declarations in order, and each used slot's new selector is its rank. */
  lemma {:induction false} RebuildMeaning(decls: seq<string>, used: set<nat>, i: nat, index: seq<char>, out: string)
    requires |decls| <= 4 && used <= Slots(|decls|) && i <= |decls|
    requires IndexAt(index, used, i)
    requires out == Declarations(Kept(decls[..i], used))
    ensures forall j | 0 <= j < 4 :: '1' as int - i <= index[j] as int <= '4' as int
    ensures var r := Rebuild(decls, used, i, index, out);
      r.1 == Declarations(Kept(decls, used))
      && forall k | k in used :: r.0[k] == ('1' as int + Rank(used, k)) as char
    decreases 4 - i
  {
    IndexBounds(index, used, i);
    hide Rebuild, Kept, Declarations, Rank, Lowered;
    RebuildUnfold(decls, used, i, index, out);
    if !UsedFrom(used, i) {
      KeptNoneAbove(decls, used, i);
    } else {
      var w :| w in used && w >= i;
      assert i < |decls|;
      KeptSnoc(decls, used, i);
      IndexStep(index, used, i);
      if i !in used {
        assert Kept(decls[..i + 1], used) == Kept(decls[..i], used);
        RebuildMeaning(decls, used, i + 1, Lowered(index, i), out);
      } else {
        DeclarationsSnoc(Kept(decls[..i], used), decls[i]);
        RebuildMeaning(decls, used, i + 1, index, out + decls[i] + ",");
      }
    }
  }

  function Min(a: nat, b: nat): (r: nat) {
    if a <= b then a else b
  }

  lemma RankBound(used: set<nat>, k: nat)
    ensures Rank(used, k) <= k
  {
  }

  /** The rewriting loop: exactly the recorded positions change, each to its selector's new character. */
  lemma {:induction false} RewriteAt(pat: string, refs: seq<nat>, index: seq<char>)
    requires |index| == 4
    requires forall k | 0 <= k < |refs| :: refs[k] < |pat| && '1' <= pat[refs[k]] <= '4'
    requires forall a, b | 0 <= a < b < |refs| :: refs[a] < refs[b]
    ensures forall j | 0 <= j < |pat| ::
      Rewrite(pat, refs, index)[j] == if j in refs then index[pat[j] as int - '1' as int] else pat[j]
    decreases |refs|
  {
    if |refs| > 0 {
      var at := refs[0];
      var next := pat[at := index[pat[at] as int - '1' as int]];
      RewriteAt(next, refs[1..], index);
      forall j | 0 <= j < |pat|
        ensures Rewrite(pat, refs, index)[j] == if j in refs then index[pat[j] as int - '1' as int] else pat[j]
      {
        assert j in refs <==> j == at || j in refs[1..];
        if j in refs[1..] {
          var a :| 0 <= a < |refs[1..]| && refs[1..][a] == j;
          assert refs[a + 1] == j;
        }
      }
    }
  }

  /** Renumbering with ranks equal to the slots changes nothing. */
  lemma RenumberedSame(p: string, n: nat, used: set<nat>)
    requires forall j | j in SelectorsFrom(p, 0) && DeclaredSlot(p[j], n).Some? :: Rank(used, DeclaredSlot(p[j], n).value) == DeclaredSlot(p[j], n).value
    ensures Renumbered(p, n, used) == p
  {
  }

  lemma SelectorSlot(p: string, n: nat, j: nat)
    requires j in SelectorsFrom(p, 0) && DeclaredSlot(p[j], n).Some?
    ensures DeclaredSlot(p[j], n).value in RefSlots(p, n)
  {
  }

  // ---------------------------------------------------------------------------
  // What CompactMask computes

  /**
    `CompactMask` keeps the declarations the pattern references, in their
    order, and renumbers each reference to its rank among them: the mask
    comes back unchanged when every declaration is referenced, and as its
    bare pattern when none is.
   */
  lemma CompactMaskMeaning(m: string)
    ensures var (decls, start) := Extract(m);
      var pattern := m[start..];
      var used := RefSlots(pattern, |decls|);
      && CompactMask(m) == Declarations(Kept(decls, used)) + Renumbered(pattern, |decls|, used)
      && (used == Slots(|decls|) ==> CompactMask(m) == m)
      && (used == {} ==> CompactMask(m) == pattern)
  {
    hide Rebuild, Rewrite, ScanRefs, Renumbered, Kept, RefSlotsFrom, Slots, Extract;
    var (decls, start) := Extract(m);
    var n := |decls|;
    var pattern := m[start..];
    var used := RefSlots(pattern, n);
    assert n > 0 ==> 0 in Slots(n);
    ScanRefsMeaning(pattern, n, 0, {}, []);
    assert {} + used == used;
    if used == Slots(n) {
      KeptAll(decls, n);
      RenumberedSame(pattern, n, used);
      assert CompactMask(m) == m by {
        CompactUnfold(m);
      }
    }
    if used == {} {
      KeptNone(decls);
      forall j | j in SelectorsFrom(pattern, 0) && DeclaredSlot(pattern[j], n).Some?
        ensures false
      {
        SelectorSlot(pattern, n, j);
      }
      RenumberedSame(pattern, n, used);
      assert Declarations([]) == "";
      assert CompactMask(m) == pattern by {
        CompactUnfold(m);
      }
    }
    if used != Slots(n) && used != {} {
      CompactRenumbers(m);
    }
  }

  lemma CompactUnfold(m: string)
    ensures var (decls, start) := Extract(m);
      var pattern := m[start..];
      var scan := ScanRefs(pattern, |decls|, 0, {}, []);
      && (scan.AllUsed? ==> CompactMask(m) == m)
      && (scan.Refs? && scan.used == {} ==> CompactMask(m) == pattern)
  {
    hide Rebuild, Rewrite, ScanRefs, Extract;
  }

  /** The general case: the rebuilt mask is the kept declarations and the renumbered pattern. */
  lemma CompactRenumbers(m: string)
    requires var (decls, start) := Extract(m);
      var used := RefSlots(m[start..], |decls|);
      used != Slots(|decls|) && used != {}
    ensures var (decls, start) := Extract(m);
      var used := RefSlots(m[start..], |decls|);
      CompactMask(m) == Declarations(Kept(decls, used)) + Renumbered(m[start..], |decls|, used)
  {
    hide Rebuild, Rewrite, ScanRefs, Renumbered, RefSlotsFrom, Slots, Extract, SelectorsFrom;
    var (decls, start) := Extract(m);
    var n := |decls|;
    var pattern := m[start..];
    var used := RefSlots(pattern, n);
    assert n > 0 ==> 0 in Slots(n);
    ScanRefsMeaning(pattern, n, 0, {}, []);
    assert {} + used == used;
    var scan := ScanRefs(pattern, n, 0, {}, []);
    assert scan.Refs? && scan.used == used;
    var refs := scan.refs;
    var start4: seq<char> := "1234";
    assert decls[..0] == [];
    assert Kept([], used) == [];
    RebuildMeaning(decls, used, 0, start4, "");
    var (index, kept) := Rebuild(decls, used, 0, start4, "");
    RewriteAt(pattern, refs, index);
    var q := Rewrite(pattern, refs, index);
    forall j | 0 <= j < |pattern|
      ensures q[j] == Renumbered(pattern, n, used)[j]
    {
      RenumberedAt(pattern, n, used, j);
      if j in refs {
        var k := DeclaredSlot(pattern[j], n).value;
        SelectorSlot(pattern, n, j);
      }
    }
    assert q == Renumbered(pattern, n, used);
    CompactRefsUnfold(m, index, kept);
  }

  lemma RenumberedAt(p: string, n: nat, used: set<nat>, j: nat)
    requires j < |p|
    ensures Renumbered(p, n, used)[j] == if j in SelectorsFrom(p, 0) then NewSelector(p[j], n, used) else p[j]
  {
  }

  lemma CompactRefsUnfold(m: string, index: seq<char>, kept: string)
    requires var (decls, start) := Extract(m);
      var scan := ScanRefs(m[start..], |decls|, 0, {}, []);
      scan.Refs? && scan.used != {} && Rebuild(decls, scan.used, 0, "1234", "") == (index, kept)
    ensures var (decls, start) := Extract(m);
      var scan := ScanRefs(m[start..], |decls|, 0, {}, []);
      CompactMask(m) == kept + Rewrite(m[start..], scan.refs, index)
  {
    hide Rebuild, Rewrite, ScanRefs, Extract;
  }
}
