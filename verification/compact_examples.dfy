/**
  The cases of the compactor's test table and of its documented /24
  example, each derived from what `CompactMask` computes: the literal
  facts about one mask are proved apart from the step that applies the
  general characterisation.
 */
module CompactExamples {
  import opened HCMask
  import opened Compact
  import opened CompactMeaning

  /** A mask of at most four comma-free declarations and a comma-free pattern, without backslashes. */
  predicate Plain(m: string, ds: seq<string>, body: string) {
    && m == Declarations(ds) + body && '\\' !in m && |ds| <= 4
    && (forall k | 0 <= k < |ds| :: ',' !in ds[k])
    && ',' !in body
  }

  /** A plain mask: its declarations and its pattern. */
  lemma PlainMask(m: string, ds: seq<string>, body: string)
    requires Plain(m, ds, body)
    ensures Extract(m).0 == ds && m[Extract(m).1..] == body
  {
    hide Extract, Declarations, Join, Split;
    ExtractPlain(m);
    SplitDeclarations(ds, body);
    var fields := ds + [body];
    assert fields[..|ds|] == ds && fields[|ds|..] == [body];
  }

  /** Without `?`, a pattern has no selector. */
  lemma {:induction false} NoSelectors(p: string, i: nat)
    requires i <= |p| && '?' !in p
    ensures SelectorsFrom(p, i) == {}
    decreases |p| - i
  {
    if i + 1 < |p| {
      assert p[i] in p;
      NoSelectors(p, i + 1);
    }
  }

  /** Without `?`, a pattern references no declaration. */
  lemma NoRefs(p: string, n: nat)
    requires '?' !in p
    ensures RefSlots(p, n) == {}
  {
    NoSelectors(p, 0);
  }

  /** Neither a comma nor a backslash. */
  predicate Clean(s: string) {
    ',' !in s && '\\' !in s
  }

  /** Declarations without a character other than the comma keep it out of their prefix. */
  lemma {:induction false} DeclarationsWithout(ds: seq<string>, c: char)
    requires c != ',' && forall k | 0 <= k < |ds| :: c !in ds[k]
    ensures c !in Declarations(ds)
    decreases |ds|
  {
    if |ds| > 0 {
      DeclarationsWithout(ds[1..], c);
      assert Declarations(ds) == ds[0] + [','] + Declarations(ds[1..]);
    }
  }

  /** Clean declarations and a clean pattern make a plain mask. */
  lemma PlainOf(ds: seq<string>, body: string)
    requires |ds| <= 4 && Clean(body) && forall k | 0 <= k < |ds| :: Clean(ds[k])
    ensures Plain(Declarations(ds) + body, ds, body)
  {
    DeclarationsWithout(ds, '\\');
  }

  /** A plain mask compacts to the kept declarations and the renumbered pattern. */
  lemma PlainCompact(m: string, ds: seq<string>, body: string, used: set<nat>)
    requires Plain(m, ds, body) && RefSlots(body, |ds|) == used
    ensures CompactMask(m) == Declarations(Kept(ds, used)) + Renumbered(body, |ds|, used)
  {
    hide CompactMask, Extract, Kept, Renumbered, RefSlots, Declarations, Plain;
    PlainMask(m, ds, body);
    CompactMaskMeaning(m);
  }

  /** A plain mask whose pattern references no declaration compacts to its pattern. */
  lemma PlainUnreferenced(m: string, ds: seq<string>, body: string)
    requires Plain(m, ds, body) && RefSlots(body, |ds|) == {}
    ensures CompactMask(m) == body
  {
    hide CompactMask, Extract, Kept, Renumbered, RefSlots, Declarations, Plain;
    PlainMask(m, ds, body);
    CompactMaskMeaning(m);
  }

  /** A plain mask whose pattern references every declaration compacts to itself. */
  lemma PlainAllUsed(m: string, ds: seq<string>, body: string)
    requires Plain(m, ds, body) && RefSlots(body, |ds|) == Slots(|ds|)
    ensures CompactMask(m) == m
  {
    hide CompactMask, Extract, Kept, Renumbered, RefSlots, Declarations, Slots, Plain;
    PlainMask(m, ds, body);
    CompactMaskMeaning(m);
  }

  /** A renumbered pattern in which only the selector at `j` changes. */
  lemma RenumberedOne(p: string, n: nat, used: set<nat>, j: nat)
    requires j in SelectorsFrom(p, 0)
    requires forall i | i in SelectorsFrom(p, 0) && i != j :: NewSelector(p[i], n, used) == p[i]
    ensures j < |p| && Renumbered(p, n, used) == p[j := NewSelector(p[j], n, used)]
  {
    hide NewSelector;
  }

  /** Characters other than `?` are skipped when reading selectors. */
  lemma {:induction false} SelectorsSkip(p: string, i: nat, j: nat)
    requires i <= j < |p| && '?' !in p[i..j]
    ensures SelectorsFrom(p, i) == SelectorsFrom(p, j)
    decreases j - i
  {
    if i < j {
      assert p[i] in p[i..j];
      assert p[i + 1..j] == p[i..j][1..];
      SelectorsSkip(p, i + 1, j);
    }
  }
  /** Without a comma after position `i`, the declarations loop finds no more declarations. */
  lemma {:induction false} ScanNoComma(m: string, i: nat, start: nat, decls: seq<string>)
    requires start <= i <= |m| + 1 && start <= |m| && |decls| < 4
    requires forall j | i <= j < |m| :: m[j] != ','
    ensures ScanDecls(m, i, start, decls) == (decls, start)
    decreases |m| + 1 - i
  {
    hide ScanDecls;
    if i < |m| {
      ScanDeclsStep(m, i, start, decls);
      if m[i] == '\\' {
        ScanNoComma(m, i + 2, start, decls);
      } else {
        ScanNoComma(m, i + 1, start, decls);
      }
    } else {
      ScanDeclsStep(m, i, start, decls);
    }
  }

  // ---------------------------------------------------------------------------
  // The test table
  /** The declaration prefixes of the examples. */
  lemma DeclsNone()
    ensures Declarations([]) == ""
  {
  }

  lemma DeclsAbc()
    ensures Declarations(["abc"]) == "abc,"
    ensures forall k | 0 <= k < 1 :: Clean(["abc"][k])
  {
  }

  lemma DeclsDef()
    ensures Declarations(["def"]) == "def,"
    ensures forall k | 0 <= k < 1 :: Clean(["def"][k])
  {
  }

  lemma DeclsAbcDef()
    ensures Declarations(["abc", "def"]) == "abc,def,"
    ensures forall k | 0 <= k < 2 :: Clean(["abc", "def"][k])
  {
    DeclsDef();
    assert Declarations(["abc", "def"]) == "abc," + Declarations(["def"]);
  }

  lemma DeclsGhi()
    ensures Declarations(["ghi"]) == "ghi,"
    ensures forall k | 0 <= k < 1 :: Clean(["ghi"][k])
  {
  }

  lemma DeclsDefGhi()
    ensures Declarations(["def", "ghi"]) == "def,ghi,"
    ensures forall k | 0 <= k < 2 :: Clean(["def", "ghi"][k])
  {
    DeclsGhi();
    assert Declarations(["def", "ghi"]) == "def," + Declarations(["ghi"]);
  }

  lemma DeclsAbcDefGhi()
    ensures Declarations(["abc", "def", "ghi"]) == "abc,def,ghi,"
    ensures forall k | 0 <= k < 3 :: Clean(["abc", "def", "ghi"][k])
  {
    DeclsDefGhi();
    assert Declarations(["abc", "def", "ghi"]) == "abc," + Declarations(["def", "ghi"]);
  }

  lemma DeclsJkl()
    ensures Declarations(["jkl"]) == "jkl,"
    ensures forall k | 0 <= k < 1 :: Clean(["jkl"][k])
  {
  }

  lemma DeclsGhiJkl()
    ensures Declarations(["ghi", "jkl"]) == "ghi,jkl,"
    ensures forall k | 0 <= k < 2 :: Clean(["ghi", "jkl"][k])
  {
    DeclsJkl();
    assert Declarations(["ghi", "jkl"]) == "ghi," + Declarations(["jkl"]);
  }

  lemma DeclsDefGhiJkl()
    ensures Declarations(["def", "ghi", "jkl"]) == "def,ghi,jkl,"
    ensures forall k | 0 <= k < 3 :: Clean(["def", "ghi", "jkl"][k])
  {
    DeclsGhiJkl();
    assert Declarations(["def", "ghi", "jkl"]) == "def," + Declarations(["ghi", "jkl"]);
  }

  lemma DeclsAbcDefGhiJkl()
    ensures Declarations(["abc", "def", "ghi", "jkl"]) == "abc,def,ghi,jkl,"
    ensures forall k | 0 <= k < 4 :: Clean(["abc", "def", "ghi", "jkl"][k])
  {
    DeclsDefGhiJkl();
    assert Declarations(["abc", "def", "ghi", "jkl"]) == "abc," + Declarations(["def", "ghi", "jkl"]);
  }

  lemma DeclsOne9()
    ensures Declarations(["123456789"]) == "123456789,"
    ensures forall k | 0 <= k < 1 :: Clean(["123456789"][k])
  {
  }

  lemma DeclsZero5One9()
    ensures Declarations(["012345", "123456789"]) == "012345,123456789,"
    ensures forall k | 0 <= k < 2 :: Clean(["012345", "123456789"][k])
  {
    DeclsOne9();
    assert Declarations(["012345", "123456789"]) == "012345," + Declarations(["123456789"]);
  }

  lemma DeclsNet()
    ensures Declarations(["01234", "012345", "123456789"]) == "01234,012345,123456789,"
    ensures forall k | 0 <= k < 3 :: Clean(["01234", "012345", "123456789"][k])
  {
    DeclsZero5One9();
    assert Declarations(["01234", "012345", "123456789"]) == "01234," + Declarations(["012345", "123456789"]);
  }

  lemma DeclsZero4()
    ensures Declarations(["01234"]) == "01234,"
    ensures forall k | 0 <= k < 1 :: Clean(["01234"][k])
  {
  }

  lemma DeclsZero5()
    ensures Declarations(["012345"]) == "012345,"
    ensures forall k | 0 <= k < 1 :: Clean(["012345"][k])
  {
  }

  lemma DeclsMno()
    ensures Declarations(["mno"]) == "mno,"
    ensures forall k | 0 <= k < 1 :: Clean(["mno"][k])
  {
  }

  lemma DeclsJklMno()
    ensures Declarations(["jkl", "mno"]) == "jkl,mno,"
    ensures forall k | 0 <= k < 2 :: Clean(["jkl", "mno"][k])
  {
    DeclsMno();
    assert Declarations(["jkl", "mno"]) == "jkl," + Declarations(["mno"]);
  }

  lemma DeclsGhiJklMno()
    ensures Declarations(["ghi", "jkl", "mno"]) == "ghi,jkl,mno,"
    ensures forall k | 0 <= k < 3 :: Clean(["ghi", "jkl", "mno"][k])
  {
    DeclsJklMno();
    assert Declarations(["ghi", "jkl", "mno"]) == "ghi," + Declarations(["jkl", "mno"]);
  }

  lemma DeclsDefGhiJklMno()
    ensures Declarations(["def", "ghi", "jkl", "mno"]) == "def,ghi,jkl,mno,"
    ensures forall k | 0 <= k < 4 :: Clean(["def", "ghi", "jkl", "mno"][k])
  {
    DeclsGhiJklMno();
    assert Declarations(["def", "ghi", "jkl", "mno"]) == "def," + Declarations(["ghi", "jkl", "mno"]);
  }

  lemma DeclsAbcDefGhiJklMno()
    ensures Declarations(["abc", "def", "ghi", "jkl", "mno"]) == "abc,def,ghi,jkl,mno,"
    ensures forall k | 0 <= k < 5 :: Clean(["abc", "def", "ghi", "jkl", "mno"][k])
  {
    DeclsDefGhiJklMno();
    assert Declarations(["abc", "def", "ghi", "jkl", "mno"]) == "abc," + Declarations(["def", "ghi", "jkl", "mno"]);
  }

  lemma NoRefOneFacts()
    ensures Plain("abc", [], "abc")
  {
    hide Plain, Declarations, SelectorsFrom, RefSlotsFrom;
    DeclsNone();
    PlainOf([], "abc");
    assert "abc" == "" + "abc";
  }

  /** The pattern alone, with no declaration, stays. */
  lemma NoRefOne()
    ensures CompactMask("abc") == "abc"
  {
    hide CompactMask, Plain, RefSlots, Declarations;
    NoRefOneFacts();
    NoRefs("abc", 0);
    PlainUnreferenced("abc", [], "abc");
  }

  lemma NoRefTwoFacts()
    ensures Plain("abc,def", ["abc"], "def")
  {
    hide Plain, Declarations, SelectorsFrom, RefSlotsFrom;
    DeclsAbc();
    PlainOf(["abc"], "def");
    assert "abc,def" == "abc," + "def";
  }

  /** An unreferenced declaration is dropped. */
  lemma NoRefTwo()
    ensures CompactMask("abc,def") == "def"
  {
    hide CompactMask, Plain, RefSlots, Declarations;
    NoRefTwoFacts();
    NoRefs("def", 1);
    PlainUnreferenced("abc,def", ["abc"], "def");
  }

  lemma NoRefThreeFacts()
    ensures Plain("abc,def,ghi", ["abc", "def"], "ghi")
  {
    hide Plain, Declarations, SelectorsFrom, RefSlotsFrom;
    DeclsAbcDef();
    PlainOf(["abc", "def"], "ghi");
    assert "abc,def,ghi" == "abc,def," + "ghi";
  }

  /** Two unreferenced declarations are dropped. */
  lemma NoRefThree()
    ensures CompactMask("abc,def,ghi") == "ghi"
  {
    hide CompactMask, Plain, RefSlots, Declarations;
    NoRefThreeFacts();
    NoRefs("ghi", 2);
    PlainUnreferenced("abc,def,ghi", ["abc", "def"], "ghi");
  }

  lemma NoRefFourFacts()
    ensures Plain("abc,def,ghi,jkl", ["abc", "def", "ghi"], "jkl")
  {
    hide Plain, Declarations, SelectorsFrom, RefSlotsFrom;
    DeclsAbcDefGhi();
    PlainOf(["abc", "def", "ghi"], "jkl");
    assert "abc,def,ghi,jkl" == "abc,def,ghi," + "jkl";
  }

  /** Three unreferenced declarations are dropped. */
  lemma NoRefFour()
    ensures CompactMask("abc,def,ghi,jkl") == "jkl"
  {
    hide CompactMask, Plain, RefSlots, Declarations;
    NoRefFourFacts();
    NoRefs("jkl", 3);
    PlainUnreferenced("abc,def,ghi,jkl", ["abc", "def", "ghi"], "jkl");
  }

  lemma NoRefFiveFacts()
    ensures Plain("abc,def,ghi,jkl,mno", ["abc", "def", "ghi", "jkl"], "mno")
  {
    hide Plain, Declarations, SelectorsFrom, RefSlotsFrom;
    DeclsAbcDefGhiJkl();
    PlainOf(["abc", "def", "ghi", "jkl"], "mno");
    assert "abc,def,ghi,jkl,mno" == "abc,def,ghi,jkl," + "mno";
  }

  /** Four unreferenced declarations are dropped. */
  lemma NoRefFive()
    ensures CompactMask("abc,def,ghi,jkl,mno") == "mno"
  {
    hide CompactMask, Plain, RefSlots, Declarations;
    NoRefFiveFacts();
    NoRefs("mno", 4);
    PlainUnreferenced("abc,def,ghi,jkl,mno", ["abc", "def", "ghi", "jkl"], "mno");
  }

  lemma DigitsOnlyRefs()
    ensures SelectorsFrom("abc?d", 0) == {4}
    ensures RefSlots("abc?d", 0) == {}
  {
    var p := "abc?d";
    SelectorsSkip(p, 0, 3);
    assert SelectorsFrom(p, 3) == {4};
  }

  lemma DigitsOnlyFacts()
    ensures Plain("abc?d", [], "abc?d")
    ensures SelectorsFrom("abc?d", 0) == {4}
    ensures RefSlots("abc?d", 0) == {}
  {
    hide Plain, Declarations, SelectorsFrom, RefSlotsFrom;
    DeclsNone();
    PlainOf([], "abc?d");
    assert "abc?d" == "" + "abc?d";
    DigitsOnlyRefs();
  }

  /** `?d` is not a declaration reference. */
  lemma DigitsOnly()
    ensures CompactMask("abc?d") == "abc?d"
  {
    hide CompactMask, Plain, RefSlots, Declarations;
    DigitsOnlyFacts();
    PlainUnreferenced("abc?d", [], "abc?d");
  }

  lemma DigitsOnlyDeclaredRefs()
    ensures SelectorsFrom("abc?d", 0) == {4}
    ensures RefSlots("abc?d", 1) == {}
  {
    var p := "abc?d";
    SelectorsSkip(p, 0, 3);
    assert SelectorsFrom(p, 3) == {4};
  }

  lemma DigitsOnlyDeclaredFacts()
    ensures Plain("def,abc?d", ["def"], "abc?d")
    ensures SelectorsFrom("abc?d", 0) == {4}
    ensures RefSlots("abc?d", 1) == {}
  {
    hide Plain, Declarations, SelectorsFrom, RefSlotsFrom;
    DeclsDef();
    PlainOf(["def"], "abc?d");
    assert "def,abc?d" == "def," + "abc?d";
    DigitsOnlyDeclaredRefs();
  }

  /** `?d` does not keep a declaration. */
  lemma DigitsOnlyDeclared()
    ensures CompactMask("def,abc?d") == "abc?d"
  {
    hide CompactMask, Plain, RefSlots, Declarations;
    DigitsOnlyDeclaredFacts();
    PlainUnreferenced("def,abc?d", ["def"], "abc?d");
  }

  lemma AllReferencedRefs()
    ensures SelectorsFrom("abc?1", 0) == {4}
    ensures RefSlots("abc?1", 1) == {0}
  {
    var p := "abc?1";
    SelectorsSkip(p, 0, 3);
    assert SelectorsFrom(p, 3) == {4};
  }

  lemma AllReferencedFacts()
    ensures Plain("def,abc?1", ["def"], "abc?1")
    ensures SelectorsFrom("abc?1", 0) == {4}
    ensures RefSlots("abc?1", 1) == {0}
  {
    hide Plain, Declarations, SelectorsFrom, RefSlotsFrom;
    DeclsDef();
    PlainOf(["def"], "abc?1");
    assert "def,abc?1" == "def," + "abc?1";
    AllReferencedRefs();
  }

  /** Every declaration referenced: nothing changes. */
  lemma AllReferenced()
    ensures CompactMask("def,abc?1") == "def,abc?1"
  {
    hide CompactMask, Plain, RefSlots, Declarations;
    AllReferencedFacts();
    assert Slots(1) == {0};
    PlainAllUsed("def,abc?1", ["def"], "abc?1");
  }

  lemma AllReferencedTwoRefs()
    ensures SelectorsFrom("abc?1?2", 0) == {4, 6}
    ensures RefSlots("abc?1?2", 2) == {0, 1}
  {
    var p := "abc?1?2";
    SelectorsSkip(p, 0, 3);
    assert SelectorsFrom(p, 3) == {4, 6};
  }

  lemma AllReferencedTwoFacts()
    ensures Plain("def,ghi,abc?1?2", ["def", "ghi"], "abc?1?2")
    ensures SelectorsFrom("abc?1?2", 0) == {4, 6}
    ensures RefSlots("abc?1?2", 2) == {0, 1}
  {
    hide Plain, Declarations, SelectorsFrom, RefSlotsFrom;
    DeclsDefGhi();
    PlainOf(["def", "ghi"], "abc?1?2");
    assert "def,ghi,abc?1?2" == "def,ghi," + "abc?1?2";
    AllReferencedTwoRefs();
  }

  /** Both declarations referenced: nothing changes. */
  lemma AllReferencedTwo()
    ensures CompactMask("def,ghi,abc?1?2") == "def,ghi,abc?1?2"
  {
    hide CompactMask, Plain, RefSlots, Declarations;
    AllReferencedTwoFacts();
    assert Slots(2) == {0, 1};
    PlainAllUsed("def,ghi,abc?1?2", ["def", "ghi"], "abc?1?2");
  }

  lemma AllReferencedTwiceRefs()
    ensures SelectorsFrom("abc?1?2?1", 0) == {4, 6, 8}
    ensures RefSlots("abc?1?2?1", 2) == {0, 1}
  {
    var p := "abc?1?2?1";
    SelectorsSkip(p, 0, 3);
    assert SelectorsFrom(p, 3) == {4, 6, 8};
  }

  lemma AllReferencedTwiceFacts()
    ensures Plain("def,ghi,abc?1?2?1", ["def", "ghi"], "abc?1?2?1")
    ensures SelectorsFrom("abc?1?2?1", 0) == {4, 6, 8}
    ensures RefSlots("abc?1?2?1", 2) == {0, 1}
  {
    hide Plain, Declarations, SelectorsFrom, RefSlotsFrom;
    DeclsDefGhi();
    PlainOf(["def", "ghi"], "abc?1?2?1");
    assert "def,ghi,abc?1?2?1" == "def,ghi," + "abc?1?2?1";
    AllReferencedTwiceRefs();
  }

  /** A declaration referenced twice still counts once. */
  lemma AllReferencedTwice()
    ensures CompactMask("def,ghi,abc?1?2?1") == "def,ghi,abc?1?2?1"
  {
    hide CompactMask, Plain, RefSlots, Declarations;
    AllReferencedTwiceFacts();
    assert Slots(2) == {0, 1};
    PlainAllUsed("def,ghi,abc?1?2?1", ["def", "ghi"], "abc?1?2?1");
  }

  lemma ShiftOneRefs()
    ensures SelectorsFrom("abc?2", 0) == {4}
    ensures RefSlots("abc?2", 2) == {1}
  {
    var p := "abc?2";
    SelectorsSkip(p, 0, 3);
    assert SelectorsFrom(p, 3) == {4};
  }

  lemma ShiftOneFacts()
    ensures Plain("def,ghi,abc?2", ["def", "ghi"], "abc?2")
    ensures SelectorsFrom("abc?2", 0) == {4}
    ensures RefSlots("abc?2", 2) == {1}
  {
    hide Plain, Declarations, SelectorsFrom, RefSlotsFrom;
    DeclsDefGhi();
    PlainOf(["def", "ghi"], "abc?2");
    assert "def,ghi,abc?2" == "def,ghi," + "abc?2";
    ShiftOneRefs();
  }

  lemma ShiftOneRenumbered()
    ensures Renumbered("abc?2", 2, {1}) == "abc?1"
  {
    var p := "abc?2";
    ShiftOneFacts();
    RenumberedOne(p, 2, {1}, 4);
  }

  lemma ShiftOneKept()
    ensures Declarations(Kept(["def", "ghi"], {1})) + "abc?1" == "ghi,abc?1"
  {
    hide Declarations;
    assert Kept(["def", "ghi"], {1}) == ["ghi"];
    DeclsGhi();
    assert "ghi,abc?1" == "ghi," + "abc?1";
  }

  /** An unreferenced first declaration: the second moves to slot 1. */
  lemma ShiftOne()
    ensures CompactMask("def,ghi,abc?2") == "ghi,abc?1"
  {
    hide CompactMask, Plain, RefSlots, Declarations, Kept, Renumbered, SelectorsFrom;
    ShiftOneFacts();
    ShiftOneRenumbered();
    ShiftOneKept();
    PlainCompact("def,ghi,abc?2", ["def", "ghi"], "abc?2", {1});
  }

  lemma ShiftTwoRefs()
    ensures SelectorsFrom("abc?3", 0) == {4}
    ensures RefSlots("abc?3", 3) == {2}
  {
    var p := "abc?3";
    SelectorsSkip(p, 0, 3);
    assert SelectorsFrom(p, 3) == {4};
  }

  lemma ShiftTwoFacts()
    ensures Plain("def,ghi,jkl,abc?3", ["def", "ghi", "jkl"], "abc?3")
    ensures SelectorsFrom("abc?3", 0) == {4}
    ensures RefSlots("abc?3", 3) == {2}
  {
    hide Plain, Declarations, SelectorsFrom, RefSlotsFrom;
    DeclsDefGhiJkl();
    PlainOf(["def", "ghi", "jkl"], "abc?3");
    assert "def,ghi,jkl,abc?3" == "def,ghi,jkl," + "abc?3";
    ShiftTwoRefs();
  }

  lemma ShiftTwoRenumbered()
    ensures Renumbered("abc?3", 3, {2}) == "abc?1"
  {
    var p := "abc?3";
    ShiftTwoFacts();
    RenumberedOne(p, 3, {2}, 4);
  }

  lemma ShiftTwoKept()
    ensures Declarations(Kept(["def", "ghi", "jkl"], {2})) + "abc?1" == "jkl,abc?1"
  {
    hide Declarations;
    assert Kept(["def", "ghi", "jkl"], {2}) == ["jkl"];
    DeclsJkl();
    assert "jkl,abc?1" == "jkl," + "abc?1";
  }

  /** Two unreferenced declarations: the third moves to slot 1. */
  lemma ShiftTwo()
    ensures CompactMask("def,ghi,jkl,abc?3") == "jkl,abc?1"
  {
    hide CompactMask, Plain, RefSlots, Declarations, Kept, Renumbered, SelectorsFrom;
    ShiftTwoFacts();
    ShiftTwoRenumbered();
    ShiftTwoKept();
    PlainCompact("def,ghi,jkl,abc?3", ["def", "ghi", "jkl"], "abc?3", {2});
  }

  lemma ShiftPairRefs()
    ensures SelectorsFrom("abc?2?3", 0) == {4, 6}
    ensures RefSlots("abc?2?3", 3) == {1, 2}
  {
    var p := "abc?2?3";
    SelectorsSkip(p, 0, 3);
    assert SelectorsFrom(p, 3) == {4, 6};
  }

  lemma ShiftPairFacts()
    ensures Plain("def,ghi,jkl,abc?2?3", ["def", "ghi", "jkl"], "abc?2?3")
    ensures SelectorsFrom("abc?2?3", 0) == {4, 6}
    ensures RefSlots("abc?2?3", 3) == {1, 2}
  {
    hide Plain, Declarations, SelectorsFrom, RefSlotsFrom;
    DeclsDefGhiJkl();
    PlainOf(["def", "ghi", "jkl"], "abc?2?3");
    assert "def,ghi,jkl,abc?2?3" == "def,ghi,jkl," + "abc?2?3";
    ShiftPairRefs();
  }

  lemma ShiftPairRenumbered()
    ensures Renumbered("abc?2?3", 3, {1, 2}) == "abc?1?2"
  {
    var p := "abc?2?3";
    ShiftPairFacts();
    hide SelectorsFrom;
  }

  lemma ShiftPairKept()
    ensures Declarations(Kept(["def", "ghi", "jkl"], {1, 2})) + "abc?1?2" == "ghi,jkl,abc?1?2"
  {
    hide Declarations;
    assert Kept(["def", "ghi", "jkl"], {1, 2}) == ["ghi", "jkl"];
    DeclsGhiJkl();
    assert "ghi,jkl,abc?1?2" == "ghi,jkl," + "abc?1?2";
  }

  /** The last two declarations move down one slot, in order. */
  lemma ShiftPair()
    ensures CompactMask("def,ghi,jkl,abc?2?3") == "ghi,jkl,abc?1?2"
  {
    hide CompactMask, Plain, RefSlots, Declarations, Kept, Renumbered, SelectorsFrom;
    ShiftPairFacts();
    ShiftPairRenumbered();
    ShiftPairKept();
    PlainCompact("def,ghi,jkl,abc?2?3", ["def", "ghi", "jkl"], "abc?2?3", {1, 2});
  }

  lemma ShiftPairReversedRefs()
    ensures SelectorsFrom("abc?3?2", 0) == {4, 6}
    ensures RefSlots("abc?3?2", 3) == {1, 2}
  {
    var p := "abc?3?2";
    SelectorsSkip(p, 0, 3);
    assert SelectorsFrom(p, 3) == {4, 6};
  }

  lemma ShiftPairReversedFacts()
    ensures Plain("def,ghi,jkl,abc?3?2", ["def", "ghi", "jkl"], "abc?3?2")
    ensures SelectorsFrom("abc?3?2", 0) == {4, 6}
    ensures RefSlots("abc?3?2", 3) == {1, 2}
  {
    hide Plain, Declarations, SelectorsFrom, RefSlotsFrom;
    DeclsDefGhiJkl();
    PlainOf(["def", "ghi", "jkl"], "abc?3?2");
    assert "def,ghi,jkl,abc?3?2" == "def,ghi,jkl," + "abc?3?2";
    ShiftPairReversedRefs();
  }

  lemma ShiftPairReversedRenumbered()
    ensures Renumbered("abc?3?2", 3, {1, 2}) == "abc?2?1"
  {
    var p := "abc?3?2";
    ShiftPairReversedFacts();
    hide SelectorsFrom;
  }

  lemma ShiftPairReversedKept()
    ensures Declarations(Kept(["def", "ghi", "jkl"], {1, 2})) + "abc?2?1" == "ghi,jkl,abc?2?1"
  {
    hide Declarations;
    assert Kept(["def", "ghi", "jkl"], {1, 2}) == ["ghi", "jkl"];
    DeclsGhiJkl();
    assert "ghi,jkl,abc?2?1" == "ghi,jkl," + "abc?2?1";
  }

  /** Renumbering follows the declarations, not the order of the references. */
  lemma ShiftPairReversed()
    ensures CompactMask("def,ghi,jkl,abc?3?2") == "ghi,jkl,abc?2?1"
  {
    hide CompactMask, Plain, RefSlots, Declarations, Kept, Renumbered, SelectorsFrom;
    ShiftPairReversedFacts();
    ShiftPairReversedRenumbered();
    ShiftPairReversedKept();
    PlainCompact("def,ghi,jkl,abc?3?2", ["def", "ghi", "jkl"], "abc?3?2", {1, 2});
  }

  // ---------------------------------------------------------------------------
  // Past four declarations, and backslashes

  /** Only four declarations are split off: the fifth comma stays in the pattern. */
  lemma FifthCommaSplit()
    ensures var m := "abc,def,ghi,jkl,mno,pqr";
      Extract(m).0 == ["abc", "def", "ghi", "jkl"] && m[Extract(m).1..] == "mno,pqr"
  {
    hide Split, Extract, Declarations;
    var m := "abc,def,ghi,jkl,mno,pqr";
    var ds := ["abc", "def", "ghi", "jkl", "mno"];
    var fields := ds + ["pqr"];
    DeclsAbcDefGhiJklMno();
    assert m == "abc,def,ghi,jkl,mno," + "pqr";
    SplitDeclarations(ds, "pqr");
    ExtractPlain(m);
    assert Min(4, |fields| - 1) == 4;
    assert fields[..4] == ["abc", "def", "ghi", "jkl"];
    assert fields[4..] == ["mno", "pqr"];
    assert Join(fields[4..], ',') == "mno,pqr";
  }

  lemma FifthCommaKept()
    ensures CompactMask("abc,def,ghi,jkl,mno,pqr") == "mno,pqr"
  {
    hide CompactMask, Split, Extract, Declarations, Kept, Renumbered;
    var m := "abc,def,ghi,jkl,mno,pqr";
    FifthCommaSplit();
    NoRefs("mno,pqr", 4);
    CompactMaskMeaning(m);
  }

  /** The declarations loop passes over characters other than commas and backslashes. */
  lemma {:induction false} ScanRun(m: string, i: nat, j: nat, start: nat, decls: seq<string>)
    requires start <= i <= j <= |m| && |decls| < 4
    requires forall k | i <= k < j :: m[k] != ',' && m[k] != '\\'
    ensures ScanDecls(m, i, start, decls) == ScanDecls(m, j, start, decls)
    decreases j - i
  {
    hide ScanDecls;
    if i < j {
      ScanDeclsStep(m, i, start, decls);
      ScanRun(m, i + 1, j, start, decls);
    }
  }

  /** The declarations loop skips the comma after a backslash. */
  lemma EscapedCommaSplit()
    ensures Extract("abc\\,def") == ([], 0)
  {
    hide ScanDecls;
    var m := "abc\\,def";
    ScanRun(m, 0, 3, 0, []);
    ScanDeclsStep(m, 3, 0, []);
    ScanNoComma(m, 5, 0, []);
  }

  lemma EscapedCommasSplit()
    ensures Extract("abc\\,def\\,ghi") == ([], 0)
  {
    hide ScanDecls;
    var m := "abc\\,def\\,ghi";
    ScanRun(m, 0, 3, 0, []);
    ScanDeclsStep(m, 3, 0, []);
    ScanRun(m, 5, 8, 0, []);
    ScanDeclsStep(m, 8, 0, []);
    ScanNoComma(m, 10, 0, []);
  }

  lemma EscapedDeclarationSplit()
    ensures Extract("abc\\,def,ghi") == (["abc\\,def"], 9)
  {
    hide ScanDecls;
    var m := "abc\\,def,ghi";
    ScanRun(m, 0, 3, 0, []);
    ScanDeclsStep(m, 3, 0, []);
    ScanRun(m, 5, 8, 0, []);
    ScanDeclsStep(m, 8, 0, []);
    var a := "abc\\,def";
    assert m == a + ",ghi";
    assert m[0..8] == a;
    assert [] + [m[0..8]] == [a];
    ScanNoComma(m, 9, 9, ["abc\\,def"]);
  }

  /** A mask without declarations is kept whole, whatever its pattern. */
  lemma Undeclared(m: string)
    requires Extract(m) == ([], 0)
    ensures CompactMask(m) == m
  {
    hide CompactMask, ScanDecls, Extract, Kept, Renumbered;
    assert RefSlots(m, 0) == {};
    CompactMaskMeaning(m);
  }
  /** A backslash keeps the comma after it out of the declarations. */
  lemma EscapedComma()
    ensures CompactMask("abc\\,def") == "abc\\,def"
    ensures CompactMask("abc\\,def\\,ghi") == "abc\\,def\\,ghi"
  {
    hide CompactMask, Extract;
    EscapedCommaSplit();
    EscapedCommasSplit();
    Undeclared("abc\\,def");
    Undeclared("abc\\,def\\,ghi");
  }
  /** An escaped comma inside a declaration. */
  lemma EscapedDeclaration()
    ensures CompactMask("abc\\,def,ghi") == "ghi"
  {
    hide CompactMask, ScanDecls, Extract, Kept, Renumbered;
    var m := "abc\\,def,ghi";
    EscapedDeclarationSplit();
    assert m[9..] == "ghi";
    NoRefs("ghi", 1);
    CompactMaskMeaning(m);
  }

  // ---------------------------------------------------------------------------
  // The documented /24 example: the five masks of 192.168.0.0/24 and their compacted forms

  lemma NetHundredsRefs()
    ensures SelectorsFrom("192.168.0.1?d?d", 0) == {12, 14}
    ensures RefSlots("192.168.0.1?d?d", 3) == {}
  {
    var p := "192.168.0.1?d?d";
    SelectorsSkip(p, 0, 11);
    assert SelectorsFrom(p, 11) == {12, 14};
  }

  lemma NetHundredsFacts()
    ensures Plain("01234,012345,123456789,192.168.0.1?d?d", ["01234", "012345", "123456789"], "192.168.0.1?d?d")
    ensures SelectorsFrom("192.168.0.1?d?d", 0) == {12, 14}
    ensures RefSlots("192.168.0.1?d?d", 3) == {}
  {
    hide Plain, Declarations, SelectorsFrom, RefSlotsFrom;
    DeclsNet();
    PlainOf(["01234", "012345", "123456789"], "192.168.0.1?d?d");
    assert "01234,012345,123456789,192.168.0.1?d?d" == "01234,012345,123456789," + "192.168.0.1?d?d";
    NetHundredsRefs();
  }

  /** The /24 example, first mask: only `?d` is used, so every declaration goes. */
  lemma NetHundreds()
    ensures CompactMask("01234,012345,123456789,192.168.0.1?d?d") == "192.168.0.1?d?d"
  {
    hide CompactMask, Plain, RefSlots, Declarations;
    NetHundredsFacts();
    PlainUnreferenced("01234,012345,123456789,192.168.0.1?d?d", ["01234", "012345", "123456789"], "192.168.0.1?d?d");
  }

  lemma NetTwoHundredsRefs()
    ensures SelectorsFrom("192.168.0.2?1?d", 0) == {12, 14}
    ensures RefSlots("192.168.0.2?1?d", 3) == {0}
  {
    var p := "192.168.0.2?1?d";
    SelectorsSkip(p, 0, 11);
    assert SelectorsFrom(p, 11) == {12, 14};
  }

  lemma NetTwoHundredsFacts()
    ensures Plain("01234,012345,123456789,192.168.0.2?1?d", ["01234", "012345", "123456789"], "192.168.0.2?1?d")
    ensures SelectorsFrom("192.168.0.2?1?d", 0) == {12, 14}
    ensures RefSlots("192.168.0.2?1?d", 3) == {0}
  {
    hide Plain, Declarations, SelectorsFrom, RefSlotsFrom;
    DeclsNet();
    PlainOf(["01234", "012345", "123456789"], "192.168.0.2?1?d");
    assert "01234,012345,123456789,192.168.0.2?1?d" == "01234,012345,123456789," + "192.168.0.2?1?d";
    NetTwoHundredsRefs();
  }

  lemma NetTwoHundredsRenumbered()
    ensures Renumbered("192.168.0.2?1?d", 3, {0}) == "192.168.0.2?1?d"
  {
    var p := "192.168.0.2?1?d";
    NetTwoHundredsFacts();
    hide SelectorsFrom;
  }

  lemma NetTwoHundredsKept()
    ensures Declarations(Kept(["01234", "012345", "123456789"], {0})) + "192.168.0.2?1?d" == "01234,192.168.0.2?1?d"
  {
    hide Declarations;
    assert Kept(["01234", "012345", "123456789"], {0}) == ["01234"];
    DeclsZero4();
    assert "01234,192.168.0.2?1?d" == "01234," + "192.168.0.2?1?d";
  }

  /** The /24 example, second mask: only the first declaration stays. */
  lemma NetTwoHundreds()
    ensures CompactMask("01234,012345,123456789,192.168.0.2?1?d") == "01234,192.168.0.2?1?d"
  {
    hide CompactMask, Plain, RefSlots, Declarations, Kept, Renumbered, SelectorsFrom;
    NetTwoHundredsFacts();
    NetTwoHundredsRenumbered();
    NetTwoHundredsKept();
    PlainCompact("01234,012345,123456789,192.168.0.2?1?d", ["01234", "012345", "123456789"], "192.168.0.2?1?d", {0});
  }

  lemma NetTwoFiftyRefs()
    ensures SelectorsFrom("192.168.0.25?2", 0) == {13}
    ensures RefSlots("192.168.0.25?2", 3) == {1}
  {
    var p := "192.168.0.25?2";
    SelectorsSkip(p, 0, 12);
    assert SelectorsFrom(p, 12) == {13};
  }

  lemma NetTwoFiftyFacts()
    ensures Plain("01234,012345,123456789,192.168.0.25?2", ["01234", "012345", "123456789"], "192.168.0.25?2")
    ensures SelectorsFrom("192.168.0.25?2", 0) == {13}
    ensures RefSlots("192.168.0.25?2", 3) == {1}
  {
    hide Plain, Declarations, SelectorsFrom, RefSlotsFrom;
    DeclsNet();
    PlainOf(["01234", "012345", "123456789"], "192.168.0.25?2");
    assert "01234,012345,123456789,192.168.0.25?2" == "01234,012345,123456789," + "192.168.0.25?2";
    NetTwoFiftyRefs();
  }

  lemma NetTwoFiftyRenumbered()
    ensures Renumbered("192.168.0.25?2", 3, {1}) == "192.168.0.25?1"
  {
    var p := "192.168.0.25?2";
    NetTwoFiftyFacts();
    RenumberedOne(p, 3, {1}, 13);
  }

  lemma NetTwoFiftyKept()
    ensures Declarations(Kept(["01234", "012345", "123456789"], {1})) + "192.168.0.25?1" == "012345,192.168.0.25?1"
  {
    hide Declarations;
    assert Kept(["01234", "012345", "123456789"], {1}) == ["012345"];
    DeclsZero5();
    assert "012345,192.168.0.25?1" == "012345," + "192.168.0.25?1";
  }

  /** The /24 example, third mask: the second declaration becomes the first. */
  lemma NetTwoFifty()
    ensures CompactMask("01234,012345,123456789,192.168.0.25?2") == "012345,192.168.0.25?1"
  {
    hide CompactMask, Plain, RefSlots, Declarations, Kept, Renumbered, SelectorsFrom;
    NetTwoFiftyFacts();
    NetTwoFiftyRenumbered();
    NetTwoFiftyKept();
    PlainCompact("01234,012345,123456789,192.168.0.25?2", ["01234", "012345", "123456789"], "192.168.0.25?2", {1});
  }

  lemma NetTensRefs()
    ensures SelectorsFrom("192.168.0.?3?d", 0) == {11, 13}
    ensures RefSlots("192.168.0.?3?d", 3) == {2}
  {
    var p := "192.168.0.?3?d";
    SelectorsSkip(p, 0, 10);
    assert SelectorsFrom(p, 10) == {11, 13};
  }

  lemma NetTensFacts()
    ensures Plain("01234,012345,123456789,192.168.0.?3?d", ["01234", "012345", "123456789"], "192.168.0.?3?d")
    ensures SelectorsFrom("192.168.0.?3?d", 0) == {11, 13}
    ensures RefSlots("192.168.0.?3?d", 3) == {2}
  {
    hide Plain, Declarations, SelectorsFrom, RefSlotsFrom;
    DeclsNet();
    PlainOf(["01234", "012345", "123456789"], "192.168.0.?3?d");
    assert "01234,012345,123456789,192.168.0.?3?d" == "01234,012345,123456789," + "192.168.0.?3?d";
    NetTensRefs();
  }

  lemma NetTensRenumbered()
    ensures Renumbered("192.168.0.?3?d", 3, {2}) == "192.168.0.?1?d"
  {
    var p := "192.168.0.?3?d";
    NetTensFacts();
    RenumberedOne(p, 3, {2}, 11);
  }

  lemma NetTensKept()
    ensures Declarations(Kept(["01234", "012345", "123456789"], {2})) + "192.168.0.?1?d" == "123456789,192.168.0.?1?d"
  {
    hide Declarations;
    assert Kept(["01234", "012345", "123456789"], {2}) == ["123456789"];
    DeclsOne9();
    assert "123456789,192.168.0.?1?d" == "123456789," + "192.168.0.?1?d";
  }

  /** The /24 example, fourth mask: the third declaration becomes the first. */
  lemma NetTens()
    ensures CompactMask("01234,012345,123456789,192.168.0.?3?d") == "123456789,192.168.0.?1?d"
  {
    hide CompactMask, Plain, RefSlots, Declarations, Kept, Renumbered, SelectorsFrom;
    NetTensFacts();
    NetTensRenumbered();
    NetTensKept();
    PlainCompact("01234,012345,123456789,192.168.0.?3?d", ["01234", "012345", "123456789"], "192.168.0.?3?d", {2});
  }

  lemma NetUnitsRefs()
    ensures SelectorsFrom("192.168.0.?d", 0) == {11}
    ensures RefSlots("192.168.0.?d", 3) == {}
  {
    var p := "192.168.0.?d";
    SelectorsSkip(p, 0, 10);
    assert SelectorsFrom(p, 10) == {11};
  }

  lemma NetUnitsFacts()
    ensures Plain("01234,012345,123456789,192.168.0.?d", ["01234", "012345", "123456789"], "192.168.0.?d")
    ensures SelectorsFrom("192.168.0.?d", 0) == {11}
    ensures RefSlots("192.168.0.?d", 3) == {}
  {
    hide Plain, Declarations, SelectorsFrom, RefSlotsFrom;
    DeclsNet();
    PlainOf(["01234", "012345", "123456789"], "192.168.0.?d");
    assert "01234,012345,123456789,192.168.0.?d" == "01234,012345,123456789," + "192.168.0.?d";
    NetUnitsRefs();
  }

  /** The /24 example, last mask: no declaration is referenced. */
  lemma NetUnits()
    ensures CompactMask("01234,012345,123456789,192.168.0.?d") == "192.168.0.?d"
  {
    hide CompactMask, Plain, RefSlots, Declarations;
    NetUnitsFacts();
    PlainUnreferenced("01234,012345,123456789,192.168.0.?d", ["01234", "012345", "123456789"], "192.168.0.?d");
  }
}
