/** The byte-wise order of `std::string`, and sorting by it. */
module Order {

  predicate AtMost(a: string, b: string) {
    a == [] || (b != [] && (a[0] < b[0] || (a[0] == b[0] && AtMost(a[1..], b[1..]))))
  }

  /** At the first place where they differ, `a` has the smaller byte. */
  predicate SmallerAtFirstDifference(a: string, b: string) {
    exists k :: 0 <= k < |a| && k < |b| && a[..k] == b[..k] && a[k] < b[k]
  }

  lemma FirstDifferenceBehind(a: string, b: string)
    requires a != [] && b != [] && a[0] == b[0]
    ensures SmallerAtFirstDifference(a, b) <==> SmallerAtFirstDifference(a[1..], b[1..])
    ensures a <= b <==> a[1..] <= b[1..]
  {
    var a', b' := a[1..], b[1..];
    assert a == [a[0]] + a' && b == [b[0]] + b';
    if k :| 0 <= k < |a'| && k < |b'| && a'[..k] == b'[..k] && a'[k] < b'[k] {
      assert a[..k + 1] == [a[0]] + a'[..k] && b[..k + 1] == [b[0]] + b'[..k];
      assert a[k + 1] < b[k + 1];
    }
    if k :| 0 <= k < |a| && k < |b| && a[..k] == b[..k] && a[k] < b[k] {
      assert a'[..k - 1] == a[..k][1..] && b'[..k - 1] == b[..k][1..];
      assert a'[k - 1] < b'[k - 1];
    }
  }

  /** The first difference decides, and a prefix comes first. */
  lemma {:induction false} AtMostExactly(a: string, b: string)
    ensures AtMost(a, b) <==> a <= b || SmallerAtFirstDifference(a, b)
  {
    if a != [] && b != [] {
      if a[0] == b[0] {
        FirstDifferenceBehind(a, b);
        AtMostExactly(a[1..], b[1..]);
      } else if a[0] < b[0] {
        assert a[..0] == b[..0];
      } else {
        assert forall k :: 0 < k <= |a| ==> a[..k][0] == a[0];
        assert forall k :: 0 < k <= |b| ==> b[..k][0] == b[0];
      }
    }
  }

  lemma {:induction false} AtMostTotal(a: string, b: string)
    ensures AtMost(a, b) || AtMost(b, a)
  {
    if a != [] && b != [] {
      AtMostTotal(a[1..], b[1..]);
    }
  }

  lemma {:induction false} AtMostAntisymmetric(a: string, b: string)
    requires AtMost(a, b) && AtMost(b, a)
    ensures a == b
  {
    if a != [] && b != [] {
      AtMostAntisymmetric(a[1..], b[1..]);
      assert a == [a[0]] + a[1..] && b == [b[0]] + b[1..];
    }
  }

  lemma {:induction false} AtMostTransitive(a: string, b: string, c: string)
    requires AtMost(a, b) && AtMost(b, c)
    ensures AtMost(a, c)
  {
    if a != [] && a[0] == b[0] == c[0] {
      AtMostTransitive(a[1..], b[1..], c[1..]);
    }
  }

  predicate Sorted(s: seq<string>) {
    forall i, j :: 0 <= i < j < |s| ==> AtMost(s[i], s[j])
  }

  /** `x` put in front of the first element that is not below it. */
  function Insert(x: string, s: seq<string>): seq<string> {
    if s == [] || AtMost(x, s[0]) then [x] + s else [s[0]] + Insert(x, s[1..])
  }

  /** `std::sort` on a copy: which algorithm does not matter, `SortedIsUnique` shows. */
  function Sort(s: seq<string>): seq<string> {
    if s == [] then [] else Insert(s[0], Sort(s[1..]))
  }

  lemma {:induction false} InsertKeepsSorted(x: string, s: seq<string>)
    requires Sorted(s)
    ensures Sorted(Insert(x, s)) && multiset(Insert(x, s)) == multiset{x} + multiset(s)
  {
    if s == [] {
    } else if AtMost(x, s[0]) {
      forall j | 0 < j < |s| ensures AtMost(x, s[j]) {
        AtMostTransitive(x, s[0], s[j]);
      }
    } else {
      var rest := Insert(x, s[1..]);
      InsertKeepsSorted(x, s[1..]);
      AtMostTotal(x, s[0]);
      assert s == [s[0]] + s[1..];
      forall j | 0 <= j < |rest| ensures AtMost(s[0], rest[j]) {
        assert rest[j] in multiset(rest);
        assert rest[j] == x || rest[j] in s[1..];
      }
    }
  }

  lemma {:induction false} SortIsSorted(s: seq<string>)
    ensures Sorted(Sort(s)) && multiset(Sort(s)) == multiset(s)
  {
    if s != [] {
      SortIsSorted(s[1..]);
      InsertKeepsSorted(s[0], Sort(s[1..]));
      assert s == [s[0]] + s[1..];
    }
  }

  lemma MultisetOfFirst(s: seq<string>)
    requires s != []
    ensures multiset(s) == multiset{s[0]} + multiset(s[1..])
  {
    assert s == [s[0]] + s[1..];
  }

  /** Two sorted arrangements of the same strings are the same sequence. */
  lemma {:induction false} SortedIsUnique(s: seq<string>, t: seq<string>)
    requires Sorted(s) && Sorted(t) && multiset(s) == multiset(t)
    ensures s == t
  {
    assert |s| == |multiset(s)| && |t| == |multiset(t)|;
    if s != [] {
      MultisetOfFirst(s);
      MultisetOfFirst(t);
      assert s[0] in multiset(t) && t[0] in multiset(s);
      FirstIsLeast(s, t[0]);
      FirstIsLeast(t, s[0]);
      AtMostAntisymmetric(s[0], t[0]);
      assert multiset(s[1..]) == multiset(s) - multiset{s[0]} == multiset(t[1..]);
      SortedIsUnique(s[1..], t[1..]);
    }
  }

  lemma FirstIsLeast(s: seq<string>, x: string)
    requires Sorted(s) && x in s
    ensures AtMost(s[0], x)
  {
    AtMostTotal(x, x);
  }

  /** Sort-and-compare decides whether the strings are the same up to order. */
  lemma SortDecidesMultisetEquality(s: seq<string>, t: seq<string>)
    ensures Sort(s) == Sort(t) <==> multiset(s) == multiset(t)
  {
    SortIsSorted(s);
    SortIsSorted(t);
    if multiset(s) == multiset(t) {
      SortedIsUnique(Sort(s), Sort(t));
    }
  }

  // ----- Sets of strings, in order ---------------------------------------------------

  ghost function SomeOrder(names: set<string>): seq<string> {
    if names == {} then []
    else
      var name :| name in names;
      [name] + SomeOrder(names - {name})
  }

  /** The names in the order in which a `std::set` or the keys of a `std::map` are visited. */
  ghost function InOrder(names: set<string>): seq<string> {
    Sort(SomeOrder(names))
  }

  lemma {:induction false} SomeOrderHasEach(names: set<string>)
    ensures multiset(SomeOrder(names)) == multiset(names)
  {
    if names != {} {
      var order := SomeOrder(names);
      var name := order[0];
      SomeOrderHasEach(names - {name});
      assert order == [name] + order[1..];
      assert multiset(names) == multiset{name} + multiset(names - {name});
    }
  }

  lemma InOrderIsSorted(names: set<string>)
    ensures Sorted(InOrder(names)) && multiset(InOrder(names)) == multiset(names)
  {
    SomeOrderHasEach(names);
    SortIsSorted(SomeOrder(names));
  }

  lemma LeastExists(names: set<string>) returns (least: string)
    requires names != {}
    ensures least in names && forall name :: name in names ==> AtMost(least, name)
  {
    InOrderIsSorted(names);
    var order := InOrder(names);
    assert |order| == |multiset(order)| == |multiset(names)|;
    least := order[0];
    assert least in multiset(order);
    forall name | name in names ensures AtMost(least, name) {
      assert name in multiset(order);
      FirstIsLeast(order, name);
    }
  }

  lemma SortedWithLeastInFront(least: string, rest: seq<string>)
    requires Sorted(rest) && forall x :: x in multiset(rest) ==> AtMost(least, x)
    ensures Sorted([least] + rest) && multiset([least] + rest) == multiset{least} + multiset(rest)
  {
    forall k | 0 <= k < |rest| ensures AtMost(least, rest[k]) {
      assert rest[k] in multiset(rest);
    }
  }

  lemma InOrderStartsWithLeast(names: set<string>, least: string)
    requires least in names && forall name :: name in names ==> AtMost(least, name)
    ensures InOrder(names) == [least] + InOrder(names - {least})
  {
    var later := names - {least};
    InOrderIsSorted(names);
    InOrderIsSorted(later);
    assert multiset(names) == multiset{least} + multiset(later);
    SortedWithLeastInFront(least, InOrder(later));
    SortedIsUnique(InOrder(names), [least] + InOrder(later));
  }
}
