/** Strictly ascending rows of elements under a client's comparison function. */
module SortedRow {

  /** What `coset_comp_t` is to be: the sign of a total order, where elements
      that compare as 0 count as the same element. */
  ghost predicate TotalOrder<T(!new)>(cmp: (T, T) -> int) {
    && (forall a, b :: cmp(a, b) < 0 <==> cmp(b, a) > 0)
    && (forall a, b, c :: cmp(a, b) <= 0 && cmp(b, c) <= 0 ==> cmp(a, c) <= 0)
  }

  ghost predicate Sorted<T>(cmp: (T, T) -> int, s: seq<T>) {
    forall i, j :: 0 <= i < j < |s| ==> cmp(s[i], s[j]) < 0
  }

  /** `x` counts as an element of `s`. */
  ghost predicate Has<T>(cmp: (T, T) -> int, s: seq<T>, x: T) {
    exists i :: 0 <= i < |s| && cmp(x, s[i]) == 0
  }

  lemma EqualMayReplace<T(!new)>(cmp: (T, T) -> int, a: T, b: T, c: T)
    requires TotalOrder(cmp)
    ensures cmp(a, c) == 0 && cmp(b, c) <= 0 ==> cmp(b, a) <= 0
    ensures cmp(a, c) == 0 && cmp(a, b) <= 0 ==> cmp(c, b) <= 0
  {
    if cmp(a, c) == 0 { assert cmp(c, a) == 0; }
  }

  lemma LessThenAtMost<T(!new)>(cmp: (T, T) -> int, a: T, b: T, c: T)
    requires TotalOrder(cmp) && cmp(a, b) <= 0 && cmp(b, c) <= 0 && (cmp(a, b) < 0 || cmp(b, c) < 0)
    ensures cmp(a, c) < 0 && cmp(c, a) > 0
  {
    EqualMayReplace(cmp, a, b, c);
  }

  /** `x` belongs strictly between the rows `a` and `b`. */
  ghost predicate Between<T>(cmp: (T, T) -> int, a: seq<T>, x: T, b: seq<T>) {
    && (forall i :: 0 <= i < |a| ==> cmp(x, a[i]) > 0)
    && (forall i :: 0 <= i < |b| ==> cmp(x, b[i]) < 0)
  }

  lemma SortedParts<T>(cmp: (T, T) -> int, a: seq<T>, b: seq<T>)
    requires Sorted(cmp, a + b)
    ensures Sorted(cmp, a) && Sorted(cmp, b)
    ensures forall i, j :: 0 <= i < |a| && 0 <= j < |b| ==> cmp(a[i], b[j]) < 0
  {
    var s := a + b;
    forall i, j | 0 <= i < |a| && 0 <= j < |b| ensures cmp(a[i], b[j]) < 0 {
      assert s[i] == a[i] && s[|a| + j] == b[j];
    }
    forall i, j | 0 <= i < j < |b| ensures cmp(b[i], b[j]) < 0 {
      assert s[|a| + i] == b[i] && s[|a| + j] == b[j];
    }
    forall i, j | 0 <= i < j < |a| ensures cmp(a[i], a[j]) < 0 {
      assert s[i] == a[i] && s[j] == a[j];
    }
  }

  /** Everything from `d` on is beyond an `x` below `d`. */
  lemma BelowAll<T(!new)>(cmp: (T, T) -> int, x: T, d: T, b: seq<T>)
    requires TotalOrder(cmp) && cmp(x, d) < 0 && Sorted(cmp, [d] + b)
    ensures forall i :: 0 <= i < |[d] + b| ==> cmp(x, ([d] + b)[i]) < 0
  {
    SortedParts(cmp, [d], b);
    forall i | 0 <= i < |b| ensures cmp(x, b[i]) < 0 {
      assert cmp([d][0], b[i]) < 0;
      LessThenAtMost(cmp, x, d, b[i]);
    }
  }

  /** Everything up to `d` is below an `x` beyond `d`. */
  lemma AboveAll<T(!new)>(cmp: (T, T) -> int, x: T, a: seq<T>, d: T)
    requires TotalOrder(cmp) && cmp(x, d) > 0 && Sorted(cmp, a + [d])
    ensures forall i :: 0 <= i < |a + [d]| ==> cmp(x, (a + [d])[i]) > 0
  {
    SortedParts(cmp, a, [d]);
    forall i | 0 <= i < |a| ensures cmp(x, a[i]) > 0 {
      assert cmp(a[i], [d][0]) < 0;
      LessThenAtMost(cmp, a[i], d, x);
    }
  }

  /** Deciding for the part before `d`, or for the part behind it. */
  lemma NarrowBefore<T(!new)>(cmp: (T, T) -> int, a: seq<T>, l: seq<T>, d: T, r: seq<T>, b: seq<T>, x: T)
    requires TotalOrder(cmp) && Sorted(cmp, (a + l) + ([d] + r + b)) && Between(cmp, a, x, b) && cmp(x, d) < 0
    ensures Between(cmp, a, x, [d] + r + b)
  {
    SortedParts(cmp, a + l, [d] + r + b);
    SortedParts(cmp, [d] + r, b);
    BelowAll(cmp, x, d, r);
  }

  lemma NarrowBehind<T(!new)>(cmp: (T, T) -> int, a: seq<T>, l: seq<T>, d: T, r: seq<T>, b: seq<T>, x: T)
    requires TotalOrder(cmp) && Sorted(cmp, (a + l) + ([d] + r + b)) && Between(cmp, a, x, b) && cmp(x, d) > 0
    ensures Between(cmp, a + l + [d], x, b)
  {
    assert (a + l) + ([d] + r + b) == a + ((l + [d]) + (r + b));
    SortedParts(cmp, a, (l + [d]) + (r + b));
    SortedParts(cmp, l + [d], r + b);
    AboveAll(cmp, x, l, d);
    var s := a + l + [d];
    assert s == a + (l + [d]);
  }

  lemma HasConcat<T>(cmp: (T, T) -> int, a: seq<T>, b: seq<T>, y: T)
    ensures Has(cmp, a + b, y) <==> Has(cmp, a, y) || Has(cmp, b, y)
  {
    var s := a + b;
    if Has(cmp, a, y) {
      var i :| 0 <= i < |a| && cmp(y, a[i]) == 0;
      assert cmp(y, s[i]) == 0;
    }
    if Has(cmp, b, y) {
      var i :| 0 <= i < |b| && cmp(y, b[i]) == 0;
      assert cmp(y, s[|a| + i]) == 0;
    }
    if Has(cmp, s, y) {
      var i :| 0 <= i < |s| && cmp(y, s[i]) == 0;
      if i < |a| { assert cmp(y, a[i]) == 0; } else { assert cmp(y, b[i - |a|]) == 0; }
    }
  }

  lemma HasAround<T>(cmp: (T, T) -> int, a: seq<T>, d: T, b: seq<T>, y: T)
    ensures Has(cmp, a + [d] + b, y) <==> Has(cmp, a + b, y) || cmp(y, d) == 0
  {
    HasConcat(cmp, a, b, y);
    HasConcat(cmp, a + [d], b, y);
    HasConcat(cmp, a, [d], y);
    assert Has(cmp, [d], y) <==> cmp(y, [d][0]) == 0;
  }

  /** Putting `x` in its place keeps the row sorted and adds just `x`. */
  lemma InsertInPlace<T(!new)>(cmp: (T, T) -> int, a: seq<T>, x: T, b: seq<T>)
    requires TotalOrder(cmp) && Sorted(cmp, a + b) && Between(cmp, a, x, b)
    ensures Sorted(cmp, a + [x] + b) && !Has(cmp, a + b, x)
    ensures forall y :: Has(cmp, a + [x] + b, y) <==> Has(cmp, a + b, y) || cmp(y, x) == 0
  {
    SortedParts(cmp, a, b);
    var t := a + [x] + b;
    forall i, j | 0 <= i < j < |t| ensures cmp(t[i], t[j]) < 0 {
      if j == |a| { assert cmp(x, a[i]) > 0; }
    }
    forall y { HasAround(cmp, a, x, b, y); }
  }

  /** Two elements that compare as the same one are the same entry of a sorted row. */
  lemma OnlyOne<T(!new)>(cmp: (T, T) -> int, s: seq<T>, i: nat, j: nat, y: T, x: T)
    requires TotalOrder(cmp) && Sorted(cmp, s) && i < |s| && j < |s|
    requires cmp(y, s[i]) == 0 && cmp(x, s[j]) == 0 && cmp(y, x) == 0
    ensures i == j
  {
    Same(cmp, s[i], x, y);
    Same(cmp, s[i], s[j], x);
  }

  lemma Same<T(!new)>(cmp: (T, T) -> int, p: T, q: T, x: T)
    requires TotalOrder(cmp) && cmp(x, p) == 0 && (cmp(x, q) == 0 || cmp(q, x) == 0)
    ensures cmp(p, q) == 0
  {
    assert cmp(p, x) == 0;
    assert cmp(q, x) == 0 && cmp(x, q) == 0;
    assert cmp(p, q) <= 0 && cmp(q, p) <= 0;
  }

  lemma StillSorted<T>(cmp: (T, T) -> int, a: seq<T>, d: T, b: seq<T>)
    requires Sorted(cmp, a + [d] + b)
    ensures Sorted(cmp, a + b)
  {
    var s, t := a + b, a + [d] + b;
    forall i, j | 0 <= i < j < |s| ensures cmp(s[i], s[j]) < 0 {
      assert s[i] == t[if i < |a| then i else i + 1] && s[j] == t[if j < |a| then j else j + 1];
    }
  }

  /** Taking out the element that compares as `x` removes just `x`. */
  lemma RemoveInPlace<T(!new)>(cmp: (T, T) -> int, a: seq<T>, d: T, b: seq<T>, x: T)
    requires TotalOrder(cmp) && Sorted(cmp, a + [d] + b) && cmp(x, d) == 0
    ensures Sorted(cmp, a + b)
    ensures forall y :: Has(cmp, a + b, y) <==> Has(cmp, a + [d] + b, y) && cmp(y, x) != 0
  {
    StillSorted(cmp, a, d, b);
    forall y ensures Has(cmp, a + b, y) <==> Has(cmp, a + [d] + b, y) && cmp(y, x) != 0 {
      RemovesOne(cmp, a, d, b, x, y);
    }
  }

  /** Taking out the entry for `x`, if there is one, leaves exactly the others. */
  lemma OthersStay<T(!new)>(cmp: (T, T) -> int, s: seq<T>, k: nat, x: T, t: seq<T>)
    requires TotalOrder(cmp) && Sorted(cmp, s)
    requires if Has(cmp, s, x) then k < |s| && cmp(x, s[k]) == 0 && t == s[..k] + s[k + 1..] else t == s
    ensures forall z :: z in t <==> z in s && cmp(z, x) != 0
  {
    if Has(cmp, s, x) {
      forall i | 0 <= i < |s| ensures cmp(s[i], x) == 0 <==> i == k { OnlyOneIs(cmp, s, k, x, i); }
      WithoutOne(s, k, t);
    } else {
      assert forall i :: 0 <= i < |s| ==> cmp(x, s[i]) != 0;
    }
  }

  lemma OnlyOneIs<T(!new)>(cmp: (T, T) -> int, s: seq<T>, k: nat, x: T, i: nat)
    requires TotalOrder(cmp) && Sorted(cmp, s) && k < |s| && cmp(x, s[k]) == 0 && i < |s|
    ensures cmp(s[i], x) == 0 <==> i == k
  {
    EqualToItself(cmp, s[i]);
    if cmp(s[i], x) == 0 { OnlyOne(cmp, s, i, k, s[i], x); }
  }

  lemma WithoutOne<T>(s: seq<T>, k: nat, t: seq<T>)
    requires k < |s| && t == s[..k] + s[k + 1..]
    ensures forall z :: z in t <==> exists i :: 0 <= i < |s| && i != k && s[i] == z
  {
    assert forall i :: 0 <= i < |t| ==> t[i] == s[if i < k then i else i + 1];
    forall i | 0 <= i < |s| && i != k ensures s[i] in t { assert t[if i < k then i else i - 1] == s[i]; }
  }

  lemma RemovesOne<T(!new)>(cmp: (T, T) -> int, a: seq<T>, d: T, b: seq<T>, x: T, y: T)
    requires TotalOrder(cmp) && Sorted(cmp, a + [d] + b) && cmp(x, d) == 0
    ensures Has(cmp, a + b, y) <==> Has(cmp, a + [d] + b, y) && cmp(y, x) != 0
  {
    var s, t := a + b, a + [d] + b;
    HasAround(cmp, a, d, b, y);
    if cmp(y, d) == 0 { assert cmp(d, x) == 0 && cmp(d, y) == 0; Same(cmp, y, x, d); }
    if Has(cmp, s, y) {
      var i :| 0 <= i < |s| && cmp(y, s[i]) == 0;
      if cmp(y, x) == 0 { OnlyOne(cmp, t, if i < |a| then i else i + 1, |a|, y, x); }
    }
  }

  /** An element occurs only once. */
  lemma SortedIsOnce<T(!new)>(cmp: (T, T) -> int, s: seq<T>, i: nat, j: nat)
    requires TotalOrder(cmp) && Sorted(cmp, s) && i < |s| && j < |s| && s[i] == s[j]
    ensures i == j
  {
    EqualToItself(cmp, s[i]);
    OnlyOne(cmp, s, i, j, s[i], s[j]);
  }

  lemma EqualToItself<T(!new)>(cmp: (T, T) -> int, x: T)
    requires TotalOrder(cmp)
    ensures cmp(x, x) == 0
  {
  }

  lemma FoundAt<T(!new)>(cmp: (T, T) -> int, s: seq<T>, i: nat)
    requires TotalOrder(cmp) && i < |s|
    ensures Has(cmp, s, s[i])
  {
    EqualToItself(cmp, s[i]);
  }

  lemma SameEntry<T(!new)>(cmp: (T, T) -> int, s: seq<T>, i: nat, j: nat)
    requires TotalOrder(cmp) && Sorted(cmp, s) && i < |s| && j < |s| && cmp(s[j], s[i]) == 0
    ensures i == j
  {
    EqualToItself(cmp, s[j]);
    OnlyOne(cmp, s, i, j, s[j], s[j]);
  }

  lemma HasNone<T>(cmp: (T, T) -> int, s: seq<T>)
    ensures forall y :: !Has(cmp, s[..0], y)
  {
  }

  lemma HasOneMore<T>(cmp: (T, T) -> int, s: seq<T>, i: nat)
    requires i < |s|
    ensures forall y :: Has(cmp, s[..i + 1], y) <==> Has(cmp, s[..i], y) || cmp(y, s[i]) == 0
  {
    forall y ensures Has(cmp, s[..i + 1], y) <==> Has(cmp, s[..i], y) || cmp(y, s[i]) == 0 {
      assert s[..i + 1] == s[..i] + [s[i]] + [] && s[..i] + [] == s[..i];
      HasAround(cmp, s[..i], s[i], [], y);
    }
  }

  /** Elements that compare as the same one are both there or both not. */
  lemma HasAlike<T(!new)>(cmp: (T, T) -> int, s: seq<T>, x: T)
    requires TotalOrder(cmp)
    ensures forall y :: cmp(y, x) == 0 ==> Has(cmp, s, y) == Has(cmp, s, x)
  {
    forall y | cmp(y, x) == 0 ensures Has(cmp, s, y) == Has(cmp, s, x) {
      assert cmp(x, y) == 0;
      if Has(cmp, s, x) {
        var i :| 0 <= i < |s| && cmp(x, s[i]) == 0;
        Same(cmp, y, s[i], x);
      }
      if Has(cmp, s, y) {
        var i :| 0 <= i < |s| && cmp(y, s[i]) == 0;
        Same(cmp, x, s[i], y);
      }
    }
  }

  /** The elements of `s` that `items` has. */
  ghost function Kept<T>(cmp: (T, T) -> int, items: seq<T>, s: seq<T>): (r: seq<T>)
    ensures |r| <= |s|
  {
    if s == [] then []
    else
      var n := |s| - 1;
      Kept(cmp, items, s[..n]) + if Has(cmp, items, s[n]) then [s[n]] else []
  }

  lemma KeptNext<T>(cmp: (T, T) -> int, items: seq<T>, s: seq<T>, j: nat)
    requires j < |s|
    ensures Kept(cmp, items, s[..j + 1]) == Kept(cmp, items, s[..j]) + if Has(cmp, items, s[j]) then [s[j]] else []
  {
    assert s[..j + 1][..j] == s[..j];
  }

  /** What is kept is the intersection. */
  lemma {:induction false} KeptIsBoth<T(!new)>(cmp: (T, T) -> int, items: seq<T>, s: seq<T>, y: T)
    requires TotalOrder(cmp)
    ensures Has(cmp, Kept(cmp, items, s), y) <==> Has(cmp, s, y) && Has(cmp, items, y)
  {
    if s != [] {
      var n := |s| - 1;
      var a, x := s[..n], s[n];
      KeptIsBoth(cmp, items, a, y);
      hide TotalOrder, Has;
      HasAlike(cmp, items, x);
      assert a + [x] == s;
      HasLast(cmp, a, x, y);
      HasLast(cmp, Kept(cmp, items, a), x, y);
      assert Kept(cmp, items, a) + [] == Kept(cmp, items, a);
    }
  }

  lemma KeptIsIntersection<T(!new)>(cmp: (T, T) -> int, items: seq<T>, s: seq<T>)
    requires TotalOrder(cmp)
    ensures forall y :: Has(cmp, Kept(cmp, items, s), y) <==> Has(cmp, s, y) && Has(cmp, items, y)
  {
    forall y { KeptIsBoth(cmp, items, s, y); }
  }

  lemma HasLast<T>(cmp: (T, T) -> int, a: seq<T>, x: T, y: T)
    ensures Has(cmp, a + [x], y) <==> Has(cmp, a, y) || cmp(y, x) == 0
  {
    assert a + [x] + [] == a + [x] && a + [] == a;
    HasAround(cmp, a, x, [], y);
  }
}
