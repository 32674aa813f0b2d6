/** The order the free-extent tree keeps: longer extents first, then lower start blocks. */
module ExtentOrder {
  import opened Types

  predicate Before(a: Extent, b: Extent) {
    a.length > b.length || (a.length == b.length && a.start < b.start)
  }

  ghost predicate Ordered(s: seq<Extent>) {
    forall i, j | 0 <= i < j < |s| :: !Before(s[j], s[i])
  }

  ghost predicate StrictlyOrdered(s: seq<Extent>) {
    forall i, j | 0 <= i < j < |s| :: Before(s[i], s[j])
  }

  ghost predicate Distinct(s: seq<Extent>) {
    forall i, j | 0 <= i < j < |s| :: s[i] != s[j]
  }

  /** `e` placed after every extent it does not precede. */
  function InsertInto(s: seq<Extent>, e: Extent): seq<Extent> {
    if s == [] || Before(e, s[0]) then [e] + s else [s[0]] + InsertInto(s[1..], e)
  }

  /** The extents of `s`, inserted one after the other. */
  function SortAll(s: seq<Extent>): seq<Extent> {
    if s == [] then [] else InsertInto(SortAll(s[..|s| - 1]), s[|s| - 1])
  }

  lemma {:induction false} InsertIntoAt(l: seq<Extent>, r: seq<Extent>, e: Extent)
    requires forall x | x in l :: !Before(e, x)
    requires r != [] ==> Before(e, r[0])
    ensures InsertInto(l + r, e) == l + [e] + r
  {
    if l == [] {
      assert l + r == r;
    } else {
      assert (l + r)[1..] == l[1..] + r;
      InsertIntoAt(l[1..], r, e);
    }
  }

  /** Insertion splits the list somewhere and keeps the order. */
  lemma {:induction false} InsertIntoSplits(s: seq<Extent>, e: Extent) returns (k: nat)
    requires Ordered(s)
    ensures k <= |s| && InsertInto(s, e) == s[..k] + [e] + s[k..]
    ensures Ordered(InsertInto(s, e))
  {
    k := 0;
    while k < |s| && !Before(e, s[k])
      invariant k <= |s|
      invariant forall i | 0 <= i < k :: !Before(e, s[i])
    {
      k := k + 1;
    }
    InsertIntoAt(s[..k], s[k..], e);
    assert s == s[..k] + s[k..];
    InsertedOrdered(s, k, e);
  }

  lemma InsertedOrdered(s: seq<Extent>, k: nat, e: Extent)
    requires Ordered(s) && k <= |s|
    requires forall i | 0 <= i < k :: !Before(e, s[i])
    requires k < |s| ==> Before(e, s[k])
    ensures Ordered(s[..k] + [e] + s[k..])
  {
    var t := s[..k] + [e] + s[k..];
    forall i, j | 0 <= i < j < |t| ensures !Before(t[j], t[i]) {
      assert i < k ==> t[i] == s[i];
      assert i > k ==> t[i] == s[i - 1];
      assert j < k ==> t[j] == s[j];
      assert j > k ==> t[j] == s[j - 1];
      assert j > k ==> j - 1 == k || !Before(s[j - 1], s[k]);
    }
  }

  lemma InsertIntoContents(s: seq<Extent>, e: Extent)
    requires Ordered(s)
    ensures multiset(InsertInto(s, e)) == multiset(s) + multiset{e}
    ensures |InsertInto(s, e)| == |s| + 1
    ensures forall x :: x in InsertInto(s, e) <==> x in s || x == e
  {
    var k := InsertIntoSplits(s, e);
    assert s == s[..k] + s[k..];
  }

  lemma InsertIntoApart(s: seq<Extent>, e: Extent)
    requires Ordered(s) && PairwiseApart(s) && forall x | x in s :: Apart(x, e)
    ensures PairwiseApart(InsertInto(s, e))
  {
    var k := InsertIntoSplits(s, e);
    var t := InsertInto(s, e);
    forall i, j | 0 <= i < j < |t| ensures Apart(t[i], t[j]) {
      if i == k {
        assert t[j] == s[j - 1] && t[j] in s;
      } else if j == k {
        assert t[i] == s[i] && t[i] in s;
      } else {
        var i', j' := if i < k then i else i - 1, if j < k then j else j - 1;
        assert t[i] == s[i'] && t[j] == s[j'] && i' < j';
      }
    }
  }

  /** Sorting orders the extents and neither loses nor adds any. */
  lemma {:induction false} SortAllFacts(s: seq<Extent>)
    ensures Ordered(SortAll(s))
    ensures multiset(SortAll(s)) == multiset(s) && |SortAll(s)| == |s|
    ensures forall e :: e in SortAll(s) <==> e in s
  {
    if s != [] {
      var init, last := s[..|s| - 1], s[|s| - 1];
      SortAllFacts(init);
      var k := InsertIntoSplits(SortAll(init), last);
      InsertIntoContents(SortAll(init), last);
      assert s == init + [last];
    }
  }

  lemma {:induction false} SortAllApart(s: seq<Extent>)
    requires PairwiseApart(s)
    ensures PairwiseApart(SortAll(s))
  {
    if s != [] {
      var init, last := s[..|s| - 1], s[|s| - 1];
      SortAllFacts(init);
      SortAllApart(init);
      forall x | x in init ensures Apart(x, last) {
        var i :| 0 <= i < |init| && init[i] == x;
        assert s[i] == x && s[|s| - 1] == last;
      }
      InsertIntoApart(SortAll(init), last);
    }
  }

  /** With distinct extents the order is strict, so it is the only order there is. */
  lemma DistinctIsStrict(s: seq<Extent>)
    requires Ordered(s) && Distinct(s)
    ensures StrictlyOrdered(s)
  {
    forall i, j | 0 <= i < j < |s| ensures Before(s[i], s[j]) {
      assert s[i] != s[j] && !Before(s[j], s[i]);
    }
  }

  lemma ApartIsDistinct(s: seq<Extent>)
    requires PairwiseApart(s) && forall e | e in s :: e.length > 0
    ensures Distinct(s)
  {
    forall i, j | 0 <= i < j < |s| ensures s[i] != s[j] {
      assert Apart(s[i], s[j]);
      assert s[i] in s;
    }
  }

  /** Separate non-empty extents are in strict order once sorted. */
  lemma SortApartStrict(s: seq<Extent>)
    requires PairwiseApart(s) && forall e | e in s :: e.length > 0
    ensures StrictlyOrdered(SortAll(s))
  {
    SortAllFacts(s);
    SortAllApart(s);
    ApartIsDistinct(SortAll(s));
    DistinctIsStrict(SortAll(s));
  }

  lemma SameFirst(s: seq<Extent>, t: seq<Extent>)
    requires StrictlyOrdered(s) && StrictlyOrdered(t) && s != [] && t != []
    requires s[0] in t && t[0] in s
    ensures s[0] == t[0]
  {
    var i :| 0 <= i < |t| && t[i] == s[0];
    var j :| 0 <= j < |s| && s[j] == t[0];
    assert i == 0 || Before(t[0], t[i]);
    assert j == 0 || Before(s[0], s[j]);
  }

  lemma MultisetTail(s: seq<Extent>)
    requires s != []
    ensures multiset(s[1..]) == multiset(s) - multiset{s[0]}
    ensures s[0] in multiset(s)
  {
    assert s == [s[0]] + s[1..];
    assert multiset(s) == multiset{s[0]} + multiset(s[1..]);
  }

  /** A strict order of the same extents is unique: the in-order walk does not depend on the
      sequence in which the extents were inserted. */
  lemma {:induction false} OrderIsUnique(s: seq<Extent>, t: seq<Extent>)
    requires StrictlyOrdered(s) && StrictlyOrdered(t) && multiset(s) == multiset(t)
    ensures s == t
  {
    assert |s| == |multiset(s)| == |t|;
    if s != [] {
      assert s[0] in multiset(s);
      MultisetTail(s);
      MultisetTail(t);
      SameFirst(s, t);
      OrderIsUnique(s[1..], t[1..]);
      assert s == [s[0]] + s[1..] && t == [t[0]] + t[1..];
    }
  }

  /** Inserting distinct extents, in whatever sequence, gives the one strictly ordered list
      of exactly those extents. */
  lemma InsertionOrderIrrelevant(s: seq<Extent>, t: seq<Extent>)
    requires Distinct(s) && Distinct(t) && multiset(s) == multiset(t)
    ensures StrictlyOrdered(SortAll(s)) && multiset(SortAll(s)) == multiset(s)
    ensures SortAll(s) == SortAll(t)
  {
    SortAllFacts(s);
    SortAllFacts(t);
    SortAllDistinct(s);
    SortAllDistinct(t);
    DistinctIsStrict(SortAll(s));
    DistinctIsStrict(SortAll(t));
    OrderIsUnique(SortAll(s), SortAll(t));
  }

  lemma {:induction false} SortAllDistinct(s: seq<Extent>)
    requires Distinct(s)
    ensures Distinct(SortAll(s))
  {
    if s != [] {
      var init, last := s[..|s| - 1], s[|s| - 1];
      SortAllDistinct(init);
      SortAllFacts(init);
      assert last !in init;
      var sorted := SortAll(init);
      var k := InsertIntoSplits(sorted, last);
      assert last !in sorted;
    }
  }

  /** Extents that arrive in order stay in order. */
  lemma {:induction false} SortedIsKept(s: seq<Extent>)
    requires Ordered(s)
    ensures SortAll(s) == s
  {
    if s != [] {
      var init, last := s[..|s| - 1], s[|s| - 1];
      SortedIsKept(init);
      forall x | x in init ensures !Before(last, x) {
        var i :| 0 <= i < |init| && init[i] == x;
        assert !Before(s[|s| - 1], s[i]);
      }
      InsertIntoAt(init, [], last);
      assert init + [] == init && s == init + [last] + [];
    }
  }
}
