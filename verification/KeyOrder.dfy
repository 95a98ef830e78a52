/**
 Object members in the order `Object.keys(value).sort()` visits them: ascending by UTF-16 code
 unit, a proper prefix first (section 3.2.3 of RFC 8785).
 */
module KeyOrder {
  import opened Utf16

  datatype Entry<+V> = Entry(key: Text, value: V)

  predicate KeyLess(a: Text, b: Text) {
    b != [] && (a == [] || a[0] < b[0] || (a[0] == b[0] && KeyLess(a[1..], b[1..])))
  }

  lemma {:induction false} KeyOrderIsTotal(a: Text, b: Text)
    ensures !KeyLess(a, a)
    ensures a == b || KeyLess(a, b) || KeyLess(b, a)
    ensures !(KeyLess(a, b) && KeyLess(b, a))
  {
    if a != [] {
      if b != [] {
        KeyOrderIsTotal(a[1..], b[1..]);
        assert a == [a[0]] + a[1..] && b == [b[0]] + b[1..];
      } else {
        KeyOrderIsTotal(a[1..], b);
      }
    }
  }

  lemma {:induction false} KeyOrderIsTransitive(a: Text, b: Text, c: Text)
    requires KeyLess(a, b) && KeyLess(b, c)
    ensures KeyLess(a, c)
  {
    if a != [] && a[0] == b[0] == c[0] {
      KeyOrderIsTransitive(a[1..], b[1..], c[1..]);
    }
  }

  function Keys<V>(xs: seq<Entry<V>>): set<Text> {
    if xs == [] then {} else {xs[0].key} + Keys(xs[1..])
  }

  lemma {:induction false} KeyHasMember<V>(xs: seq<Entry<V>>, key: Text)
    ensures key in Keys(xs) <==> exists x | x in xs :: x.key == key
  {
    if xs != [] {
      KeyHasMember(xs[1..], key);
      assert forall x :: x in xs <==> x == xs[0] || x in xs[1..];
    }
  }

  ghost predicate DistinctKeys<V>(xs: seq<Entry<V>>) {
    forall i, j | 0 <= i < j < |xs| :: xs[i].key != xs[j].key
  }

  ghost predicate Ascending<V>(xs: seq<Entry<V>>) {
    forall i, j | 0 <= i < j < |xs| :: KeyLess(xs[i].key, xs[j].key)
  }

  function Insert<V>(e: Entry<V>, xs: seq<Entry<V>>): (ys: seq<Entry<V>>)
    ensures |ys| == |xs| + 1
  {
    if xs == [] || !KeyLess(xs[0].key, e.key) then [e] + xs else [xs[0]] + Insert(e, xs[1..])
  }

  function Sort<V>(xs: seq<Entry<V>>): (ys: seq<Entry<V>>)
    ensures |ys| == |xs|
  {
    if xs == [] then [] else Insert(xs[0], Sort(xs[1..]))
  }

  lemma {:induction false} InsertKeepsMembers<V>(e: Entry<V>, xs: seq<Entry<V>>)
    ensures multiset(Insert(e, xs)) == multiset(xs) + multiset{e}
  {
    if xs == [] || !KeyLess(xs[0].key, e.key) {
      assert multiset([e] + xs) == multiset{e} + multiset(xs);
    } else {
      InsertKeepsMembers(e, xs[1..]);
      assert xs == [xs[0]] + xs[1..];
    }
  }

  lemma {:induction false} SortIsPermutation<V>(xs: seq<Entry<V>>)
    ensures multiset(Sort(xs)) == multiset(xs)
  {
    if xs != [] {
      SortIsPermutation(xs[1..]);
      InsertKeepsMembers(xs[0], Sort(xs[1..]));
      assert xs == [xs[0]] + xs[1..];
    }
  }

  lemma SortMember<V>(xs: seq<Entry<V>>, e: Entry<V>)
    ensures e in Sort(xs) <==> e in xs
  {
    SortIsPermutation(xs);
    assert e in Sort(xs) <==> e in multiset(Sort(xs));
    assert e in xs <==> e in multiset(xs);
  }

  lemma {:induction false} InsertAscends<V>(e: Entry<V>, xs: seq<Entry<V>>)
    requires Ascending(xs)
    requires forall x | x in xs :: x.key != e.key
    ensures Ascending(Insert(e, xs))
  {
    if xs == [] {
    } else if KeyLess(xs[0].key, e.key) {
      InsertAscends(e, xs[1..]);
      var ys := Insert(e, xs[1..]);
      InsertKeepsMembers(e, xs[1..]);
      forall j | 0 <= j < |ys|
        ensures KeyLess(xs[0].key, ys[j].key)
      {
        assert ys[j] in multiset(ys);
        if ys[j] != e {
          assert ys[j] in multiset(xs[1..]);
          var k :| 0 <= k < |xs[1..]| && xs[1..][k] == ys[j];
          assert xs[k + 1] == ys[j];
        }
      }
    } else {
      KeyOrderIsTotal(e.key, xs[0].key);
      assert xs[0] in xs && KeyLess(e.key, xs[0].key);
      forall j | 0 <= j < |xs|
        ensures KeyLess(e.key, xs[j].key)
      {
        if j > 0 {
          KeyOrderIsTransitive(e.key, xs[0].key, xs[j].key);
        }
      }
    }
  }

  lemma {:induction false} SortAscends<V>(xs: seq<Entry<V>>)
    requires DistinctKeys(xs)
    ensures Ascending(Sort(xs))
  {
    if xs != [] {
      var rest := xs[1..];
      SortAscends(rest);
      forall x | x in Sort(rest)
        ensures x.key != xs[0].key
      {
        SortMember(rest, x);
        var k :| 0 <= k < |rest| && rest[k] == x;
        assert xs[k + 1] == x;
      }
      InsertAscends(xs[0], Sort(rest));
    }
  }

  /** An ascending arrangement of given members is unique, so the sorting algorithm does not matter. */
  lemma {:induction false} AscendingIsUnique<V>(xs: seq<Entry<V>>, ys: seq<Entry<V>>)
    requires Ascending(xs) && Ascending(ys)
    requires forall e :: e in xs <==> e in ys
    ensures xs == ys
  {
    assert ys == [] || ys[0] in xs;
    if xs != [] {
      assert xs[0] in ys;
      var i :| 0 <= i < |ys| && ys[i] == xs[0];
      var j :| 0 <= j < |xs| && xs[j] == ys[0];
      KeyOrderIsTotal(xs[0].key, ys[0].key);
      assert i == 0;
      forall e
        ensures e in xs[1..] <==> e in ys[1..]
      {
        TailMembers(xs, e);
        TailMembers(ys, e);
      }
      AscendingIsUnique(xs[1..], ys[1..]);
      assert xs == [xs[0]] + xs[1..] && ys == [ys[0]] + ys[1..];
    }
  }

  lemma TailMembers<V>(xs: seq<Entry<V>>, e: Entry<V>)
    requires xs != [] && Ascending(xs)
    ensures e in xs[1..] <==> e in xs && e != xs[0]
  {
    KeyOrderIsTotal(xs[0].key, xs[0].key);
    if e in xs && e != xs[0] {
      var k :| 0 <= k < |xs| && xs[k] == e;
      assert xs[1..][k - 1] == e;
    }
    if e in xs[1..] {
      var k :| 0 <= k < |xs[1..]| && xs[1..][k] == e;
      assert xs[k + 1] == e;
    }
  }

  /** Two arrangements of the same members sort to the same sequence. */
  lemma SortForgetsOrder<V>(xs: seq<Entry<V>>, ys: seq<Entry<V>>)
    requires DistinctKeys(xs) && DistinctKeys(ys)
    ensures Sort(xs) == Sort(ys) <==> forall e :: e in xs <==> e in ys
  {
    SortAscends(xs);
    SortAscends(ys);
    forall e
      ensures (e in Sort(xs) <==> e in xs) && (e in Sort(ys) <==> e in ys)
    {
      SortMember(xs, e);
      SortMember(ys, e);
    }
    if forall e :: e in xs <==> e in ys {
      AscendingIsUnique(Sort(xs), Sort(ys));
    }
  }

  /** `a` is a proper prefix of `b`, or has the smaller code unit where the two first differ. */
  ghost predicate ComesBefore(a: Text, b: Text) {
    exists k: nat :: FirstDifference(a, b, k) && (k == |a| || a[k] < b[k])
  }

  predicate FirstDifference(a: Text, b: Text, k: nat) {
    k <= |a| && k < |b| && a[..k] == b[..k]
  }

  lemma {:induction false} KeyLessMeaning(a: Text, b: Text)
    ensures KeyLess(a, b) <==> ComesBefore(a, b)
  {
    if a == [] && b != [] {
      assert FirstDifference(a, b, 0);
    } else if a != [] && b != [] {
      KeyLessMeaning(a[1..], b[1..]);
      if a[0] == b[0] && ComesBefore(a[1..], b[1..]) {
        var k: nat :| FirstDifference(a[1..], b[1..], k) && (k == |a[1..]| || a[1..][k] < b[1..][k]);
        assert a[..k + 1] == [a[0]] + a[1..][..k] && b[..k + 1] == [b[0]] + b[1..][..k];
        assert FirstDifference(a, b, k + 1);
      } else if a[0] < b[0] {
        assert FirstDifference(a, b, 0);
      }
      if ComesBefore(a, b) {
        var k: nat :| FirstDifference(a, b, k) && (k == |a| || a[k] < b[k]);
        if k > 0 {
          assert a[0] == a[..k][0] == b[..k][0] == b[0];
          assert a[1..][..k - 1] == a[..k][1..] && b[1..][..k - 1] == b[..k][1..];
          assert FirstDifference(a[1..], b[1..], k - 1);
        }
      }
    }
  }

  /** Sorting keeps the members and puts them in code-unit order of their keys. */
  lemma SortIsByCodeUnit<V>(xs: seq<Entry<V>>)
    requires DistinctKeys(xs)
    ensures multiset(Sort(xs)) == multiset(xs)
    ensures forall i, j | 0 <= i < j < |xs| :: ComesBefore(Sort(xs)[i].key, Sort(xs)[j].key)
  {
    SortIsPermutation(xs);
    SortAscends(xs);
    forall i, j | 0 <= i < j < |xs|
      ensures ComesBefore(Sort(xs)[i].key, Sort(xs)[j].key)
    {
      KeyLessMeaning(Sort(xs)[i].key, Sort(xs)[j].key);
    }
  }
}
