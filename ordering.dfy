/** Ordering by an integer key, as the database applies `orderBy` to a query:
    sorted insertion and an insertion sort, with their permutation facts. */
module Ordering {

  function Min(a: int, b: int): int {
    if a <= b then a else b
  }

  predicate SortedBy<T>(s: seq<T>, key: T -> int) {
    forall i, j :: 0 <= i < j < |s| ==> key(s[i]) <= key(s[j])
  }

  predicate Distinct<T(==)>(s: seq<T>) {
    forall i, j :: 0 <= i < j < |s| ==> s[i] != s[j]
  }

  /** Where `x` goes in the sorted `s`: after every element whose key is at most its own. */
  function InsertionPoint<T>(s: seq<T>, x: T, key: T -> int): (p: nat)
    requires SortedBy(s, key)
    ensures p <= |s|
    ensures forall i :: 0 <= i < p ==> key(s[i]) <= key(x)
    ensures forall i :: p <= i < |s| ==> key(x) < key(s[i])
  {
    if s == [] || key(s[|s| - 1]) <= key(x) then |s| else InsertionPoint(s[..|s| - 1], x, key)
  }

  /** `s` with `x` inserted so that the result stays sorted. */
  function Insert<T>(s: seq<T>, x: T, key: T -> int): (r: seq<T>)
    requires SortedBy(s, key)
    ensures SortedBy(r, key)
    ensures multiset(r) == multiset(s) + multiset{x}
    ensures exists p :: 0 <= p <= |s| && r == s[..p] + [x] + s[p..]
  {
    var p := InsertionPoint(s, x, key);
    InsertAtPoint(s, x, key, p);
    s[..p] + [x] + s[p..]
  }

  /** Putting `x` at its insertion point keeps the sequence sorted and adds just `x`. */
  lemma InsertAtPoint<T>(s: seq<T>, x: T, key: T -> int, p: nat)
    requires SortedBy(s, key) && p <= |s|
    requires forall i :: 0 <= i < p ==> key(s[i]) <= key(x)
    requires forall i :: p <= i < |s| ==> key(x) < key(s[i])
    ensures SortedBy(s[..p] + [x] + s[p..], key)
    ensures multiset(s[..p] + [x] + s[p..]) == multiset(s) + multiset{x}
  {
    var r := s[..p] + [x] + s[p..];
    assert s == s[..p] + s[p..];
    InsertedAt(s, p, x);
    forall i, j | 0 <= i < j < |r| ensures key(r[i]) <= key(r[j]) {
      if j < p || i > p {
      } else if i == p {
      } else if j == p {
      } else {
        assert key(s[i]) <= key(x) < key(s[j - 1]);
      }
    }
  }

  /** Where each element of `s[..p] + [x] + s[p..]` comes from. */
  lemma InsertedAt<T>(s: seq<T>, p: nat, x: T)
    requires p <= |s|
    ensures |s[..p] + [x] + s[p..]| == |s| + 1
    ensures forall i :: 0 <= i < p ==> (s[..p] + [x] + s[p..])[i] == s[i]
    ensures (s[..p] + [x] + s[p..])[p] == x
    ensures forall i :: p < i <= |s| ==> (s[..p] + [x] + s[p..])[i] == s[i - 1]
  {
  }

  /** The elements after an insertion are the old ones and the inserted one. */
  lemma InsertMembers<T>(s: seq<T>, x: T, key: T -> int)
    requires SortedBy(s, key)
    ensures forall y :: y in Insert(s, x, key) <==> y in s || y == x
  {
    var r := Insert(s, x, key);
    forall y ensures y in r <==> y in s || y == x {
      assert y in r <==> y in multiset(r);
      assert y in s <==> y in multiset(s);
    }
  }

  /** Inserting an element that is not there yet keeps the elements distinct. */
  lemma InsertKeepsDistinct<T>(s: seq<T>, x: T, key: T -> int)
    requires SortedBy(s, key) && Distinct(s) && x !in s
    ensures Distinct(Insert(s, x, key))
  {
    var r := Insert(s, x, key);
    var p :| 0 <= p <= |s| && r == s[..p] + [x] + s[p..];
    InsertedAt(s, p, x);
    forall i, j | 0 <= i < j < |r| ensures r[i] != r[j] {
      if j < p || i > p {
        assert r[i] == s[if i < p then i else i - 1] && r[j] == s[if j < p then j else j - 1];
      } else if i == p || j == p {
      } else {
        assert r[i] == s[i] && r[j] == s[j - 1];
      }
    }
  }

  /** An insertion sort of `s` by `key`. */
  function SortBy<T>(s: seq<T>, key: T -> int): (r: seq<T>)
    ensures SortedBy(r, key)
    ensures multiset(r) == multiset(s)
    ensures |r| == |s|
  {
    if s == [] then []
    else
      var init := s[..|s| - 1];
      assert s == init + [s[|s| - 1]];
      Insert(SortBy(init, key), s[|s| - 1], key)
  }

  /** The first `n` elements of a sorted sequence are the `n` smallest: none of the rest
      has a smaller key, and together they are the whole. */
  lemma {:induction false} TakeOfSorted<T>(s: seq<T>, key: T -> int, n: nat)
    requires SortedBy(s, key) && n <= |s|
    ensures SortedBy(s[..n], key)
    ensures multiset(s[..n]) + multiset(s[n..]) == multiset(s)
    ensures forall x, y :: x in s[..n] && y in s[n..] ==> key(x) <= key(y)
  {
    assert s == s[..n] + s[n..];
    forall x, y | x in s[..n] && y in s[n..] ensures key(x) <= key(y) {
      var i :| 0 <= i < n && s[..n][i] == x;
      var j :| 0 <= j < |s| - n && s[n..][j] == y;
      assert s[i] == x && s[n + j] == y;
    }
  }
}
