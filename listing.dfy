/**
 * `sorted(Path(d).iterdir())`: the entries of one directory in the order
 * Python sorts their paths. Entries of one directory share their parent,
 * so the order is that of their names, compared code point by code point
 * with a proper prefix first.
 */
module Listing {
  import opened Platform

  /** Python's `a <= b` on str. */
  predicate StrLe(a: string, b: string)
    decreases |a|
  {
    a == [] || (b != [] && (a[0] < b[0] || (a[0] == b[0] && StrLe(a[1..], b[1..]))))
  }

  lemma {:induction false} StrLeTotal(a: string, b: string)
    ensures StrLe(a, b) || StrLe(b, a)
    decreases |a|
  {
    if a != [] && b != [] && a[0] == b[0] {
      StrLeTotal(a[1..], b[1..]);
    }
  }

  lemma {:induction false} StrLeTransitive(a: string, b: string, c: string)
    requires StrLe(a, b) && StrLe(b, c)
    ensures StrLe(a, c)
    decreases |a|
  {
    if a != [] && a[0] == b[0] && b[0] == c[0] {
      StrLeTransitive(a[1..], b[1..], c[1..]);
    }
  }

  lemma {:induction false} StrLeAntisymmetric(a: string, b: string)
    requires StrLe(a, b) && StrLe(b, a)
    ensures a == b
    decreases |a|
  {
    if a != [] {
      StrLeAntisymmetric(a[1..], b[1..]);
      assert a == [a[0]] + a[1..] && b == [b[0]] + b[1..];
    }
  }

  predicate SortedByName(es: seq<Entry>) {
    forall i, j :: 0 <= i < j < |es| ==> StrLe(es[i].name, es[j].name)
  }

  /** `e` placed into a sorted listing in front of the first entry it does not follow. */
  function InsertByName(e: Entry, es: seq<Entry>): (r: seq<Entry>)
    requires SortedByName(es)
    ensures SortedByName(r)
    ensures multiset(r) == multiset(es) + multiset{e}
  {
    if es == [] then [e]
    else if StrLe(e.name, es[0].name) then
      LeadsAll(e, es);
      ConsSorted(e, es);
      [e] + es
    else
      var rest := InsertByName(e, es[1..]);
      StrLeTotal(e.name, es[0].name);
      assert forall j :: 0 <= j < |es| - 1 ==> es[1..][j] == es[j + 1];
      StillLeads(es[0], es[1..], e, rest);
      ConsSorted(es[0], rest);
      assert es == [es[0]] + es[1..];
      [es[0]] + rest
  }

  /** A sorted listing stays sorted with an entry in front that is not after any of it. */
  lemma ConsSorted(x: Entry, es: seq<Entry>)
    requires SortedByName(es)
    requires forall k :: 0 <= k < |es| ==> StrLe(x.name, es[k].name)
    ensures SortedByName([x] + es)
  {
    var r := [x] + es;
    forall i, j | 0 <= i < j < |r| ensures StrLe(r[i].name, r[j].name) {
      assert r[j] == es[j - 1];
      if i > 0 {
        assert r[i] == es[i - 1];
      }
    }
  }

  /** An entry not after the first of a sorted listing is not after any of it. */
  lemma LeadsAll(e: Entry, es: seq<Entry>)
    requires SortedByName(es) && es != [] && StrLe(e.name, es[0].name)
    ensures forall j :: 0 <= j < |es| ==> StrLe(e.name, es[j].name)
  {
    forall j | 0 < j < |es| ensures StrLe(e.name, es[j].name) {
      StrLeTransitive(e.name, es[0].name, es[j].name);
    }
  }

  /** An entry not after any of `tail`, nor after `e`, is not after any entry of a rearrangement of both. */
  lemma StillLeads(x: Entry, tail: seq<Entry>, e: Entry, rest: seq<Entry>)
    requires forall j :: 0 <= j < |tail| ==> StrLe(x.name, tail[j].name)
    requires StrLe(x.name, e.name)
    requires multiset(rest) == multiset(tail) + multiset{e}
    ensures forall k :: 0 <= k < |rest| ==> StrLe(x.name, rest[k].name)
  {
    forall k | 0 <= k < |rest| ensures StrLe(x.name, rest[k].name) {
      assert rest[k] in multiset(rest);
      if rest[k] != e {
        assert rest[k] in multiset(tail);
        var m :| 0 <= m < |tail| && tail[m] == rest[k];
      }
    }
  }

  /** `sorted(...)` of one directory's entries: ordered by name, same entries. */
  function SortByName(es: seq<Entry>): (r: seq<Entry>)
    ensures SortedByName(r)
    ensures multiset(r) == multiset(es)
  {
    if es == [] then []
    else
      assert es == [es[0]] + es[1..];
      InsertByName(es[0], SortByName(es[1..]))
  }

  /** Sorting neither drops nor invents an entry. */
  lemma SortKeepsEntries(es: seq<Entry>, e: Entry)
    ensures |SortByName(es)| == |es|
    ensures e in SortByName(es) <==> e in es
  {
    var r := SortByName(es);
    assert |multiset(r)| == |multiset(es)|;
    assert e in r <==> e in multiset(r);
  }

  /** Two sorted orders of one listing with distinct names start with the same entry. */
  lemma SameFirst(xs: seq<Entry>, ys: seq<Entry>)
    requires xs != [] && SortedByName(xs) && SortedByName(ys) && multiset(xs) == multiset(ys)
    requires forall i, j :: 0 <= i < j < |xs| ==> xs[i].name != xs[j].name
    ensures ys != [] && xs[0] == ys[0]
  {
    assert xs[0] in multiset(ys);
    assert ys[0] in multiset(xs);
    var a :| 0 <= a < |ys| && ys[a] == xs[0];
    var b :| 0 <= b < |xs| && xs[b] == ys[0];
    if b != 0 {
      StrLeAntisymmetric(xs[0].name, xs[b].name);
    }
  }

  lemma DropFirst(xs: seq<Entry>, ys: seq<Entry>)
    requires xs != [] && ys != [] && xs[0] == ys[0] && multiset(xs) == multiset(ys)
    ensures multiset(xs[1..]) == multiset(ys[1..])
  {
    assert xs == [xs[0]] + xs[1..] && ys == [ys[0]] + ys[1..];
    assert multiset(xs) == multiset{xs[0]} + multiset(xs[1..]);
    assert multiset(ys) == multiset{ys[0]} + multiset(ys[1..]);
    forall e ensures multiset(xs[1..])[e] == multiset(ys[1..])[e] {
      assert multiset(xs)[e] == multiset{xs[0]}[e] + multiset(xs[1..])[e];
      assert multiset(ys)[e] == multiset{ys[0]}[e] + multiset(ys[1..])[e];
    }
  }

  /** A listing whose names are distinct has exactly one sorted order. */
  lemma {:induction false} SortedIsUnique(xs: seq<Entry>, ys: seq<Entry>)
    requires SortedByName(xs) && SortedByName(ys) && multiset(xs) == multiset(ys)
    requires forall i, j :: 0 <= i < j < |xs| ==> xs[i].name != xs[j].name
    ensures xs == ys
    decreases |xs|
  {
    if xs == [] {
      assert |ys| == |multiset(ys)| == 0;
    } else {
      SameFirst(xs, ys);
      DropFirst(xs, ys);
      SortedIsUnique(xs[1..], ys[1..]);
      assert xs == [xs[0]] + xs[1..] && ys == [ys[0]] + ys[1..];
    }
  }
}
