/**
  The products of expansions up to the order of their elements: a product
  depends on its operands only through their multisets, and it distributes
  over a concatenated right operand.
 */
module ProductPerm {
  import opened HCMask

  /** A sequence is its part before `j`, its element at `j` and its part after. */
  lemma MultisetRemove(s: seq<string>, j: nat)
    requires j < |s|
    ensures s == s[..j] + [s[j]] + s[j + 1..]
    ensures multiset(s) == multiset(s[..j] + s[j + 1..]) + multiset{s[j]}
  {
    assert s == s[..j] + [s[j]] + s[j + 1..];
  }

  /** Some position of `s` holds each member of its multiset. */
  lemma PositionOf(s: seq<string>, y: string) returns (j: nat)
    requires y in multiset(s)
    ensures j < |s| && s[j] == y
  {
    assert y in s;
    j :| 0 <= j < |s| && s[j] == y;
  }

  lemma EmptyMultiset(s: seq<string>)
    requires multiset(s) == multiset{}
    ensures s == []
  {
    assert |multiset(s)| == |s|;
  }

  /** Prefixing every string with `x` keeps equal multisets equal. */
  lemma {:induction false} PrependPermutation(x: string, ys1: seq<string>, ys2: seq<string>)
    requires multiset(ys1) == multiset(ys2)
    ensures multiset(Prepend(x, ys1)) == multiset(Prepend(x, ys2))
    decreases |ys1|
  {
    if |ys1| == 0 {
      EmptyMultiset(ys2);
    } else {
      var y := ys1[0];
      var j := PositionOf(ys2, y);
      var a, b := ys2[..j], ys2[j + 1..];
      MultisetRemove(ys2, j);
      assert ys1 == [y] + ys1[1..];
      assert multiset(ys1) == multiset(ys1[1..]) + multiset{y};
      assert multiset(ys1[1..]) == multiset(ys1) - multiset{y};
      assert multiset(a + b) == multiset(ys1) - multiset{y};
      PrependPermutation(x, ys1[1..], a + b);
      PrependAppend(x, [y], ys1[1..]);
      PrependAppend(x, a + [y], b);
      PrependAppend(x, a, [y]);
      PrependAppend(x, a, b);
      var pa, pb, py := Prepend(x, a), Prepend(x, b), Prepend(x, [y]);
      assert Prepend(x, ys2) == pa + py + pb;
      assert multiset(Prepend(x, ys1)) == multiset(py) + multiset(Prepend(x, ys1[1..]));
      assert multiset(Prepend(x, ys1[1..])) == multiset(pa) + multiset(pb);
    }
  }

  /** A product with equal-multiset right operands. */
  lemma {:induction false} ProductRightPermutation(xs: seq<string>, ys1: seq<string>, ys2: seq<string>)
    requires multiset(ys1) == multiset(ys2)
    ensures multiset(Product(xs, ys1)) == multiset(Product(xs, ys2))
    decreases |xs|
  {
    if |xs| > 0 {
      PrependPermutation(xs[0], ys1, ys2);
      ProductRightPermutation(xs[1..], ys1, ys2);
    }
  }

  /** A product with equal-multiset left operands. */
  lemma {:induction false} ProductLeftPermutation(xs1: seq<string>, xs2: seq<string>, ys: seq<string>)
    requires multiset(xs1) == multiset(xs2)
    ensures multiset(Product(xs1, ys)) == multiset(Product(xs2, ys))
    decreases |xs1|
  {
    if |xs1| == 0 {
      EmptyMultiset(xs2);
    } else {
      var x := xs1[0];
      var j := PositionOf(xs2, x);
      var a, b := xs2[..j], xs2[j + 1..];
      MultisetRemove(xs2, j);
      assert xs1 == [x] + xs1[1..];
      assert multiset(xs1) == multiset(xs1[1..]) + multiset{x};
      assert multiset(xs1[1..]) == multiset(xs1) - multiset{x};
      assert multiset(a + b) == multiset(xs1) - multiset{x};
      ProductLeftPermutation(xs1[1..], a + b, ys);
      ProductAppendLeft([x], xs1[1..], ys);
      ProductAppendLeft(a + [x], b, ys);
      ProductAppendLeft(a, [x], ys);
      ProductAppendLeft(a, b, ys);
      var pa, pb, px := Product(a, ys), Product(b, ys), Product([x], ys);
      assert Product(xs2, ys) == pa + px + pb;
      assert multiset(Product(xs1, ys)) == multiset(px) + multiset(Product(xs1[1..], ys));
      assert multiset(Product(xs1[1..], ys)) == multiset(pa) + multiset(pb);
    }
  }

  /** A product with a concatenated right operand holds the products with each part. */
  lemma {:induction false} ProductRightAppend(xs: seq<string>, ys1: seq<string>, ys2: seq<string>)
    ensures multiset(Product(xs, ys1 + ys2)) == multiset(Product(xs, ys1)) + multiset(Product(xs, ys2))
    decreases |xs|
  {
    if |xs| > 0 {
      ProductRightAppend(xs[1..], ys1, ys2);
      PrependAppend(xs[0], ys1, ys2);
    }
  }

  lemma {:induction false} ProductEmptyRight(xs: seq<string>)
    ensures Product(xs, []) == []
    decreases |xs|
  {
    if |xs| > 0 {
      ProductEmptyRight(xs[1..]);
    }
  }

  lemma ProductEmptyLeft(ys: seq<string>)
    ensures Product([], ys) == []
  {
  }
}
