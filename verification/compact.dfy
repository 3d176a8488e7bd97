/**
  `CompactMask`: a mask rewritten without the charset declarations its
  pattern does not reference, the `?1`..`?4` references that remain being
  renumbered to the declarations' new places.
 */
module Compact {
  import opened Wrappers
  import opened HCMask

  // ---------------------------------------------------------------------------
  // Splitting off the declarations

  /**
    The first loop of `CompactMask`, at position `i` with the current field
    starting at `start`: each comma ends a declaration, until four are
    found; a backslash makes the scan skip the character after it. The
    result is the declarations and the position where the pattern starts.
   */
  function ScanDecls(m: string, i: nat, start: nat, decls: seq<string>): (r: (seq<string>, nat))
    requires start <= i <= |m| + 1 && start <= |m| && |decls| < 4
    ensures |decls| <= |r.0| <= 4 && start <= r.1 <= |m|
    ensures |r.0| == |decls| ==> r.1 == start
    ensures m[..start] == Declarations(decls) ==> m[..r.1] == Declarations(r.0)
    decreases |m| + 1 - i
  {
    if i >= |m| then (decls, start)
    else if m[i] == ',' then
      var field := m[start..i];
      var more := decls + [field];
      DeclarationsSnoc(decls, field);
      assert m[..i + 1] == m[..start] + field + ",";
      if |more| == 4 then (more, i + 1) else ScanDecls(m, i + 1, i + 1, more)
    else if m[i] == '\\' then ScanDecls(m, i + 2, start, decls)
    else ScanDecls(m, i + 1, start, decls)
  }

  /** The declarations of a mask, at most four, and the position of its pattern: the mask is the one then the other. */
  function Extract(m: string): (r: (seq<string>, nat))
    ensures |r.0| <= 4 && r.1 <= |m|
    ensures m == Declarations(r.0) + m[r.1..]
    ensures |r.0| == 0 ==> r.1 == 0
  {
    var r := ScanDecls(m, 0, 0, []);
    assert m == m[..r.1] + m[r.1..];
    r
  }

  // ---------------------------------------------------------------------------
  // Finding the references

  /** The declaration slots of `n` charsets; `?k` references slot `k - 1`. */
  function Slots(n: nat): (r: set<nat>)
    ensures forall k: nat :: k in r <==> k < n
  {
    if n == 0 then {} else Slots(n - 1) + {n - 1}
  }

  /** The slot the selector character `c` references when `n` charsets are declared, if any. */
  function DeclaredSlot(c: char, n: nat): (r: Option<nat>)
    ensures r.Some? <==> '1' <= c <= '4' && c as int - '0' as int <= n
    ensures r.Some? ==> r.value < n && r.value < 4 && c as int == '1' as int + r.value
  {
    if '1' <= c <= '4' && c as int - '0' as int <= n then Some(c as int - '1' as int) else None
  }

  /**
    What the second loop of `CompactMask` finds: either every declared slot
    is referenced, or the slots that are and the positions of their
    selector characters.
   */
  datatype RefScan = AllUsed | Refs(used: set<nat>, refs: seq<nat>)

  /**
    The second loop of `CompactMask` over the pattern `p`, from position `i`:
    a `?` before the last character reads the character after it as a
    selector; a selector of a declared slot is recorded, and the scan stops
    as soon as every declared slot has been seen.
   */
  function ScanRefs(p: string, n: nat, i: nat, used: set<nat>, refs: seq<nat>): (r: RefScan)
    requires i <= |p| && used <= Slots(n)
    requires forall k | 0 <= k < |refs| :: refs[k] < i && DeclaredSlot(p[refs[k]], n).Some?
    requires forall a, b | 0 <= a < b < |refs| :: refs[a] < refs[b]
    ensures r.Refs? ==> r.used <= Slots(n)
    ensures r.Refs? ==> forall k | 0 <= k < |r.refs| :: r.refs[k] < |p| && DeclaredSlot(p[r.refs[k]], n).Some?
    ensures r.Refs? ==> forall a, b | 0 <= a < b < |r.refs| :: r.refs[a] < r.refs[b]
    decreases |p| - i
  {
    if i == |p| then Refs(used, refs)
    else if p[i] != '?' || i == |p| - 1 then ScanRefs(p, n, i + 1, used, refs)
    else
      match DeclaredSlot(p[i + 1], n)
      case None => ScanRefs(p, n, i + 2, used, refs)
      case Some(k) =>
        var more := used + {k};
        if more == Slots(n) then AllUsed else ScanRefs(p, n, i + 2, more, refs + [i + 1])
  }

  // ---------------------------------------------------------------------------
  // Rebuilding the mask

  /** Some used slot is `i` or above: the loop's `usedCharset > 0` after `i` shifts. */
  predicate UsedFrom(used: set<nat>, i: nat) {
    exists j :: j in used && j >= i
  }

  /**
    The third loop of `CompactMask`, at slot `i`: a used slot's declaration
    is appended to `out`; an unused one lowers the new selector character
    `index` of every slot above it.
   */
  function Rebuild(decls: seq<string>, used: set<nat>, i: nat, index: seq<char>, out: string): (r: (seq<char>, string))
    requires |decls| <= 4 && used <= Slots(|decls|) && i <= 4
    requires |index| == 4 && forall j | 0 <= j < 4 :: '1' as int - i <= index[j] as int <= '4' as int
    ensures |r.0| == 4
    decreases 4 - i
  {
    if !UsedFrom(used, i) then (index, out)
    else
      assert i < 4 && (i in used ==> i < |decls|) by {
        var j :| j in used && j >= i;
      }
      if i !in used then Rebuild(decls, used, i + 1, Lowered(index, i), out)
      else
        Rebuild(decls, used, i + 1, index, out + decls[i] + ",")
  }

  /** The new selector characters with every slot above the unused slot `i` moved down one place. */
  function Lowered(index: seq<char>, i: nat): (r: seq<char>)
    requires |index| == 4 && forall j | 0 <= j < 4 :: '1' as int - i <= index[j] as int <= '4' as int
    ensures |r| == 4
  {
    seq(4, j requires 0 <= j < 4 => if j > i then (index[j] as int - 1) as char else index[j])
  }

  /** The last loop of `CompactMask`: each recorded selector character `c` becomes `index[c - '1']`. */
  function Rewrite(pat: string, refs: seq<nat>, index: seq<char>): (r: string)
    requires |index| == 4
    requires forall k | 0 <= k < |refs| :: refs[k] < |pat| && '1' <= pat[refs[k]] <= '4'
    requires forall a, b | 0 <= a < b < |refs| :: refs[a] < refs[b]
    ensures |r| == |pat|
    decreases |refs|
  {
    if |refs| == 0 then pat
    else
      var at := refs[0];
      Rewrite(pat[at := index[pat[at] as int - '1' as int]], refs[1..], index)
  }

  /**
    `CompactMask`: the mask unchanged when its pattern references every
    declared charset, the bare pattern when it references none, and
    otherwise the referenced declarations followed by the pattern with its
    references renumbered.
   */
  function CompactMask(m: string): (r: string) {
    var (decls, start) := Extract(m);
    var pattern := m[start..];
    match ScanRefs(pattern, |decls|, 0, {}, [])
    case AllUsed => m
    case Refs(used, refs) =>
      if used == {} then pattern
      else
        var (index, kept) := Rebuild(decls, used, 0, "1234", "");
        kept + Rewrite(pattern, refs, index)
  }
}
