/**
 * The ordering behind `GetMunicipalities`: LINQ's `OrderByDescending(similar)
 * .ThenByDescending(count)`, a stable sort. It is modelled as an insertion
 * sort on rank records and characterised by three facts: the result is a
 * permutation, no element outranks an earlier one, and the elements sharing a
 * key keep their input order. Those three facts pin the result down uniquely.
 */
module Ranking {

  /** The sort key of one attached municipality, identified by its code. */
  datatype Rank = Rank(code: string, similar: bool, count: int)

  /** `a` comes strictly before `b`: name-similar first, then the larger count. */
  predicate Outranks(a: Rank, b: Rank) {
    (a.similar && !b.similar) || (a.similar == b.similar && a.count > b.count)
  }

  /** Equal sort keys. */
  predicate Tied(a: Rank, b: Rank) {
    a.similar == b.similar && a.count == b.count
  }

  ghost predicate Sorted(s: seq<Rank>) {
    forall i, j :: 0 <= i < j < |s| ==> !Outranks(s[j], s[i])
  }

  /** The elements of `s` whose key equals that of `k`, in order. */
  function TiedWith(s: seq<Rank>, k: Rank): seq<Rank> {
    if |s| == 0 then []
    else if Tied(s[0], k) then [s[0]] + TiedWith(s[1..], k)
    else TiedWith(s[1..], k)
  }

  /** Places `x` in front of the first element that does not outrank it. */
  function Insert(x: Rank, s: seq<Rank>): (r: seq<Rank>)
    ensures |r| == |s| + 1
  {
    if |s| == 0 then [x]
    else if Outranks(s[0], x) then [s[0]] + Insert(x, s[1..])
    else [x] + s
  }

  lemma {:induction false} InsertPermutes(x: Rank, s: seq<Rank>)
    ensures multiset(Insert(x, s)) == multiset(s) + multiset{x}
  {
    if |s| > 0 && Outranks(s[0], x) {
      InsertPermutes(x, s[1..]);
      assert s == [s[0]] + s[1..];
    }
  }

  lemma {:induction false} InsertElements(x: Rank, s: seq<Rank>, y: Rank)
    requires y in Insert(x, s)
    ensures y == x || y in s
  {
    if |s| > 0 && Outranks(s[0], x) && y != s[0] {
      InsertElements(x, s[1..], y);
    }
  }

  /** A sorted tail behind a head that nothing in the tail outranks is sorted. */
  lemma SortedCons(h: Rank, t: seq<Rank>)
    requires Sorted(t)
    requires forall y :: y in t ==> !Outranks(y, h)
    ensures Sorted([h] + t)
  {
    var r := [h] + t;
    forall i, j | 0 <= i < j < |r| ensures !Outranks(r[j], r[i]) {
      if i == 0 {
        assert r[j] in t;
      } else {
        assert r[i] == t[i - 1] && r[j] == t[j - 1];
      }
    }
  }

  lemma SortedUncons(s: seq<Rank>)
    requires Sorted(s) && |s| > 0
    ensures Sorted(s[1..])
    ensures forall y :: y in s[1..] ==> !Outranks(y, s[0])
  {
    forall y | y in s[1..] ensures !Outranks(y, s[0]) {
      var i :| 0 <= i < |s[1..]| && s[1..][i] == y;
      assert s[i + 1] == y;
    }
  }

  lemma {:induction false} InsertSorted(x: Rank, s: seq<Rank>)
    requires Sorted(s)
    ensures Sorted(Insert(x, s))
  {
    if |s| == 0 {
    } else {
      SortedUncons(s);
      if Outranks(s[0], x) {
        var t := Insert(x, s[1..]);
        InsertSorted(x, s[1..]);
        forall y | y in t ensures !Outranks(y, s[0]) {
          InsertElements(x, s[1..], y);
        }
        SortedCons(s[0], t);
      } else {
        forall y | y in s ensures !Outranks(y, x) {
          if y != s[0] {
            assert s == [s[0]] + s[1..];
            assert y in s[1..];
          }
        }
        SortedCons(x, s);
      }
    }
  }

  lemma {:induction false} InsertKeepsTies(x: Rank, s: seq<Rank>, k: Rank)
    ensures TiedWith(Insert(x, s), k) == if Tied(x, k) then [x] + TiedWith(s, k) else TiedWith(s, k)
  {
    if |s| == 0 {
      assert TiedWith([x], k) == (if Tied(x, k) then [x] else []) + TiedWith([], k);
    } else if Outranks(s[0], x) {
      InsertKeepsTies(x, s[1..], k);
      var r := [s[0]] + Insert(x, s[1..]);
      assert r[1..] == Insert(x, s[1..]);
      assert Tied(x, k) ==> !Tied(s[0], k);
    } else {
      var r := [x] + s;
      assert r[1..] == s;
    }
  }

  /** Insertion sort: stable because an element goes in front of its ties. */
  function StableSort(s: seq<Rank>): (r: seq<Rank>)
    ensures Sorted(r)
    ensures multiset(r) == multiset(s)
    ensures forall k :: TiedWith(r, k) == TiedWith(s, k)
  {
    if |s| == 0 then []
    else
      var t := StableSort(s[1..]);
      InsertSorted(s[0], t);
      InsertPermutes(s[0], t);
      assert s == [s[0]] + s[1..];
      assert forall k :: TiedWith(Insert(s[0], t), k) == TiedWith(s, k) by {
        forall k ensures TiedWith(Insert(s[0], t), k) == TiedWith(s, k) {
          InsertKeepsTies(s[0], t, k);
        }
      }
      Insert(s[0], t)
  }

  lemma TiedWithHead(s: seq<Rank>)
    requires |s| > 0
    ensures |TiedWith(s, s[0])| > 0 && TiedWith(s, s[0])[0] == s[0]
  {
  }

  /** The first element tied with `k` comes no later than any element tied with `k`. */
  lemma {:induction false} TiedWithEarliest(s: seq<Rank>, k: Rank, i: int)
    requires 0 <= i < |s| && Tied(s[i], k)
    ensures |TiedWith(s, k)| > 0 && exists h :: 0 <= h <= i && TiedWith(s, k)[0] == s[h]
    decreases i
  {
    if !Tied(s[0], k) {
      TiedWithEarliest(s[1..], k, i - 1);
      var h :| 0 <= h <= i - 1 && TiedWith(s[1..], k)[0] == s[1..][h];
      assert TiedWith(s, k)[0] == s[h + 1];
    }
  }

  lemma {:induction false} TiedWithElements(s: seq<Rank>, k: Rank, y: Rank)
    requires y in TiedWith(s, k)
    ensures y in s && Tied(y, k)
    decreases |s|
  {
    if !(Tied(s[0], k) && y == s[0]) {
      TiedWithElements(s[1..], k, y);
    }
  }

  /**
   * Uniqueness: two sorted sequences that agree on every tie class are equal.
   * Hence the insertion sort computes exactly the stable ordering LINQ
   * produces.
   */
  lemma {:induction false} StableOrderingIsUnique(a: seq<Rank>, b: seq<Rank>)
    requires Sorted(a) && Sorted(b)
    requires forall k :: TiedWith(a, k) == TiedWith(b, k)
    ensures a == b
    decreases |a|
  {
    if |a| == 0 {
      if |b| > 0 {
        TiedWithHead(b);
        assert false;
      }
    } else if |b| == 0 {
      TiedWithHead(a);
      assert false;
    } else {
      TiedWithHead(a);
      TiedWithHead(b);
      // b[0] occurs in a, so a[0] does not rank below it; and symmetrically.
      assert b[0] in TiedWith(a, b[0]);
      TiedWithElements(a, b[0], b[0]);
      assert a[0] in TiedWith(b, a[0]);
      TiedWithElements(b, a[0], a[0]);
      assert !Outranks(b[0], a[0]) by {
        var j :| 0 <= j < |a| && a[j] == b[0];
        if j > 0 { assert !Outranks(a[j], a[0]); }
      }
      assert !Outranks(a[0], b[0]) by {
        var j :| 0 <= j < |b| && b[j] == a[0];
        if j > 0 { assert !Outranks(b[j], b[0]); }
      }
      assert Tied(a[0], b[0]);
      assert a[0] == b[0] by {
        assert TiedWith(a, a[0])[0] == a[0];
        assert TiedWith(b, a[0])[0] == b[0];
      }
      forall k ensures TiedWith(a[1..], k) == TiedWith(b[1..], k) {
        assert TiedWith(a, k) == TiedWith(b, k);
        if Tied(a[0], k) {
          assert TiedWith(a, k) == [a[0]] + TiedWith(a[1..], k);
          assert TiedWith(b, k) == [b[0]] + TiedWith(b[1..], k);
          assert TiedWith(a[1..], k) == TiedWith(a, k)[1..];
          assert TiedWith(b[1..], k) == TiedWith(b, k)[1..];
        }
      }
      StableOrderingIsUnique(a[1..], b[1..]);
      assert a == [a[0]] + a[1..] && b == [b[0]] + b[1..];
    }
  }
}
