/**
 * Python's `sorted` on doc-ids: strings compare character by character by
 * code point, and a proper prefix sorts first.
 */
module Ordering {

  /** Python's `a < b` on str. */
  predicate Less(a: string, b: string)
    decreases |a|
  {
    if a == [] then b != []
    else if b == [] then false
    else if a[0] != b[0] then a[0] < b[0]
    else Less(a[1..], b[1..])
  }

  lemma {:induction false} LessIrreflexive(a: string)
    ensures !Less(a, a)
    decreases |a|
  {
    if a != [] {
      LessIrreflexive(a[1..]);
    }
  }

  lemma {:induction false} LessTransitive(a: string, b: string, c: string)
    requires Less(a, b) && Less(b, c)
    ensures Less(a, c)
    decreases |a|
  {
    if a != [] && b != [] && c != [] && a[0] == b[0] && b[0] == c[0] {
      LessTransitive(a[1..], b[1..], c[1..]);
    }
  }

  /** Any two different strings are ordered one way. */
  lemma {:induction false} LessTotal(a: string, b: string)
    requires a != b
    ensures Less(a, b) || Less(b, a)
    decreases |a|
  {
    if a != [] && b != [] && a[0] == b[0] {
      assert a == [a[0]] + a[1..] && b == [b[0]] + b[1..];
      LessTotal(a[1..], b[1..]);
    }
  }

  lemma {:induction false} LessAsymmetric(a: string, b: string)
    requires Less(a, b)
    ensures !Less(b, a)
  {
    if Less(b, a) {
      LessTransitive(a, b, a);
      LessIrreflexive(a);
    }
  }

  /** Strictly increasing: the order `sorted` gives a list of distinct ids. */
  ghost predicate StrictlySorted(s: seq<string>)
  {
    forall i, j :: 0 <= i < j < |s| ==> Less(s[i], s[j])
  }

  /** Every non-empty finite set of ids has a least element. */
  lemma {:induction false} LeastExists(ids: set<string>) returns (m: string)
    requires ids != {}
    ensures m in ids && forall y :: y in ids && y != m ==> Less(m, y)
    decreases |ids|
  {
    var x :| x in ids;
    if ids == {x} {
      m := x;
    } else {
      var m' := LeastExists(ids - {x});
      if Less(x, m') {
        m := x;
        forall y | y in ids && y != m
          ensures Less(m, y)
        {
          if y != m' {
            LessTransitive(x, m', y);
          }
        }
      } else {
        m := m';
        LessTotal(x, m');
      }
    }
  }

  /**
   * `sorted(ids)`: the ids of a set in increasing order, each once. The
   * sorting algorithm of the runtime is not modelled; the list is built by
   * taking the least remaining id each time, which gives the same list.
   */
  method SortIds(ids: set<string>) returns (r: seq<string>)
    ensures StrictlySorted(r)
    ensures forall x :: x in r <==> x in ids
    ensures |r| == |ids|
  {
    r := [];
    var rest := ids;
    while rest != {}
      invariant rest <= ids
      invariant forall x :: x in r <==> x in ids && x !in rest
      invariant |r| + |rest| == |ids|
      invariant StrictlySorted(r)
      invariant forall i, y :: 0 <= i < |r| && y in rest ==> Less(r[i], y)
      decreases rest
    {
      ghost var least := LeastExists(rest);
      var m :| m in rest && forall y :: y in rest && y != m ==> Less(m, y);
      forall i, y | 0 <= i < |r| + 1 && y in rest - {m}
        ensures Less((r + [m])[i], y)
      {
        if i == |r| {
          assert Less(m, y);
        } else {
          assert (r + [m])[i] == r[i];
        }
      }
      r := r + [m];
      rest := rest - {m};
    }
  }

  lemma EmptyIffNoMembers(s: seq<string>)
    ensures s == [] <==> forall x :: x !in s
  {
    if s != [] {
      assert s[0] in s;
    }
  }

  /** There is only one strictly sorted list of a set of ids, so the order
      handed to the packer depends only on the selected set. */
  lemma {:induction false} SortedUnique(s: seq<string>, t: seq<string>)
    requires StrictlySorted(s) && StrictlySorted(t)
    requires forall x :: x in s <==> x in t
    ensures s == t
    decreases |s|
  {
    if s != [] && t != [] {
      assert s[0] == t[0] by {
        if s[0] != t[0] {
          assert s[0] in t;
          assert t[0] in s;
          var i :| 0 <= i < |t| && t[i] == s[0];
          var j :| 0 <= j < |s| && s[j] == t[0];
          assert Less(t[0], s[0]);
          assert Less(s[0], t[0]);
          LessAsymmetric(s[0], t[0]);
        }
      }
      forall x
        ensures x in s[1..] <==> x in t[1..]
      {
        if x in s[1..] {
          var i :| 1 <= i < |s| && s[i] == x;
          LessIrreflexive(s[0]);
          assert Less(s[0], x);
          assert x in t && x != t[0];
        }
        if x in t[1..] {
          var i :| 1 <= i < |t| && t[i] == x;
          LessIrreflexive(t[0]);
          assert Less(t[0], x);
          assert x in s && x != s[0];
        }
      }
      SortedUnique(s[1..], t[1..]);
      assert s == [s[0]] + s[1..] && t == [t[0]] + t[1..];
    } else {
      EmptyIffNoMembers(s);
      EmptyIffNoMembers(t);
    }
  }
}
