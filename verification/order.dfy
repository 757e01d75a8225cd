/** Ordering of query results. An SQL `ORDER BY a, b` compares rows by the tuple of
    their sort columns; here a row's sort key is a sequence of integers compared
    lexicographically, and a descending column contributes its negation. */
module Order {

  /** Lexicographic `<=` on integer sequences (a proper prefix comes first). */
  predicate LexLeq(a: seq<int>, b: seq<int>) {
    a == [] || (b != [] && (a[0] < b[0] || (a[0] == b[0] && LexLeq(a[1..], b[1..]))))
  }

  lemma {:induction false} LexLeqTotal(a: seq<int>, b: seq<int>)
    ensures LexLeq(a, b) || LexLeq(b, a)
  {
    if a != [] && b != [] && a[0] == b[0] {
      LexLeqTotal(a[1..], b[1..]);
    }
  }

  lemma {:induction false} LexLeqTransitive(a: seq<int>, b: seq<int>, c: seq<int>)
    requires LexLeq(a, b) && LexLeq(b, c)
    ensures LexLeq(a, c)
  {
    if a != [] && b != [] && c != [] && a[0] == b[0] == c[0] {
      LexLeqTransitive(a[1..], b[1..], c[1..]);
    }
  }

  /** The sort key of a string column: its characters' code points (binary collation). */
  function CodeKey(s: string): (k: seq<int>)
    ensures |k| == |s| && forall i :: 0 <= i < |s| ==> k[i] == s[i] as int
  {
    seq(|s|, i requires 0 <= i < |s| => s[i] as int)
  }

  predicate SortedBy<T>(s: seq<T>, key: T -> seq<int>) {
    forall i, j :: 0 <= i < j < |s| ==> LexLeq(key(s[i]), key(s[j]))
  }

  predicate LeqAll<T>(x: T, s: seq<T>, key: T -> seq<int>) {
    forall j :: 0 <= j < |s| ==> LexLeq(key(x), key(s[j]))
  }

  lemma ConsSorted<T>(x: T, s: seq<T>, key: T -> seq<int>)
    requires SortedBy(s, key) && LeqAll(x, s, key)
    ensures SortedBy([x] + s, key)
  {
    var r := [x] + s;
    forall i, j | 0 <= i < j < |r| ensures LexLeq(key(r[i]), key(r[j])) {
      if i > 0 {
        assert r[i] == s[i - 1] && r[j] == s[j - 1];
      }
    }
  }

  /** Everything in a multiset-equal sequence is bounded below by what bounds the parts. */
  lemma LeqAllPermuted<T>(h: T, x: T, s: seq<T>, t: seq<T>, key: T -> seq<int>)
    requires LexLeq(key(h), key(x)) && LeqAll(h, s, key)
    requires multiset(t) == multiset(s) + multiset{x}
    ensures LeqAll(h, t, key)
  {
    forall j | 0 <= j < |t| ensures LexLeq(key(h), key(t[j])) {
      assert t[j] in multiset(t);
      if t[j] != x {
        assert t[j] in multiset(s);
        var k :| 0 <= k < |s| && s[k] == t[j];
      }
    }
  }

  /** One step of insertion sort: put `x` into the sorted `s`. */
  function InsertBy<T>(x: T, s: seq<T>, key: T -> seq<int>): (r: seq<T>)
    requires SortedBy(s, key)
    ensures multiset(r) == multiset(s) + multiset{x}
    ensures SortedBy(r, key)
  {
    if s == [] then [x]
    else if LexLeq(key(x), key(s[0])) then
      assert LeqAll(x, s, key) by {
        forall j | 0 <= j < |s| ensures LexLeq(key(x), key(s[j])) {
          if j > 0 { LexLeqTransitive(key(x), key(s[0]), key(s[j])); }
        }
      }
      ConsSorted(x, s, key);
      [x] + s
    else
      LexLeqTotal(key(x), key(s[0]));
      assert SortedBy(s[1..], key);
      var t := InsertBy(x, s[1..], key);
      assert LeqAll(s[0], s[1..], key);
      LeqAllPermuted(s[0], x, s[1..], t, key);
      ConsSorted(s[0], t, key);
      assert s == [s[0]] + s[1..];
      [s[0]] + t
  }

  /** `ORDER BY key`: a sorted permutation of `s`. */
  function SortBy<T>(s: seq<T>, key: T -> seq<int>): (r: seq<T>)
    ensures multiset(r) == multiset(s)
    ensures SortedBy(r, key)
  {
    if s == [] then []
    else
      assert s == [s[0]] + s[1..];
      InsertBy(s[0], SortBy(s[1..], key), key)
  }

  lemma SortedLength<T>(s: seq<T>, key: T -> seq<int>)
    ensures |SortBy(s, key)| == |s|
  {
    assert |multiset(SortBy(s, key))| == |multiset(s)|;
  }

  /** Formatting every fetched row: `f` applied to each element, in order. */
  function MapSeq<A, B>(f: A -> B, s: seq<A>): (r: seq<B>)
    ensures |r| == |s| && forall i :: 0 <= i < |s| ==> r[i] == f(s[i])
  {
    if s == [] then [] else [f(s[0])] + MapSeq(f, s[1..])
  }

  lemma MapSeqAppend<A, B>(f: A -> B, a: seq<A>, b: seq<A>)
    ensures MapSeq(f, a + b) == MapSeq(f, a) + MapSeq(f, b)
  {
    assert |MapSeq(f, a + b)| == |MapSeq(f, a) + MapSeq(f, b)|;
    forall i | 0 <= i < |a + b|
      ensures MapSeq(f, a + b)[i] == (MapSeq(f, a) + MapSeq(f, b))[i]
    {
      if i < |a| {
        assert (a + b)[i] == a[i];
      } else {
        assert (a + b)[i] == b[i - |a|];
      }
    }
  }

  /** Formatting the rows of a permutation gives a permutation of the formatted rows:
      the rows an `ORDER BY` returns are, formatted, the formatted rows it was given. */
  lemma {:induction false} MapPermutation<A, B>(f: A -> B, s: seq<A>, t: seq<A>)
    requires multiset(s) == multiset(t)
    ensures multiset(MapSeq(f, s)) == multiset(MapSeq(f, t))
    decreases |s|
  {
    if s == [] {
      assert |t| == |multiset(t)| == 0;
    } else {
      var x := s[0];
      assert x in multiset(t);
      var k :| 0 <= k < |t| && t[k] == x;
      var rest := t[..k] + t[k + 1..];
      assert t == t[..k] + [x] + t[k + 1..];
      assert multiset(rest) == multiset(t) - multiset{x};
      assert s == [x] + s[1..];
      MapPermutation(f, s[1..], rest);
      MapSeqAppend(f, t[..k] + [x], t[k + 1..]);
      MapSeqAppend(f, t[..k], [x]);
      MapSeqAppend(f, t[..k], t[k + 1..]);
      MapSeqAppend(f, [x], s[1..]);
    }
  }
}
