/**
 * Sequence facts behind the list operations of the task store: keeping the
 * elements a test accepts, each paired with its position (a list
 * comprehension over `enumerate`), and removing one element (`list.pop(k)`).
 */
module Seqs {

  predicate StrictlyIncreasing(ps: seq<nat>) {
    forall a, b :: 0 <= a < b < |ps| ==> ps[a] < ps[b]
  }

  /** Position `i` of `s` holds an element that `keep` accepts. */
  predicate Accepted<T>(s: seq<T>, keep: T -> bool, i: int) {
    0 <= i < |s| && keep(s[i])
  }

  /**
   * `rows` lists, in ascending order of position, exactly the elements of `s`
   * that `keep` accepts, each paired with its position in `s`.
   */
  ghost predicate Enumerates<T>(rows: seq<(nat, T)>, s: seq<T>, keep: T -> bool) {
    && (forall j :: 0 <= j < |rows| ==> rows[j].0 < |s| && rows[j].1 == s[rows[j].0] && keep(rows[j].1))
    && (forall a, b :: 0 <= a < b < |rows| ==> rows[a].0 < rows[b].0)
    && (forall i :: Accepted(s, keep, i) ==> exists j :: 0 <= j < |rows| && rows[j].0 == i)
  }

  /** The positions, from `from` on, of the elements of `s` that `keep` accepts, in ascending order. */
  function Positions<T>(s: seq<T>, keep: T -> bool, from: nat): (ps: seq<nat>)
    requires from <= |s|
    ensures forall j :: 0 <= j < |ps| ==> from <= ps[j] < |s| && keep(s[ps[j]])
    ensures forall i :: from <= i < |s| && keep(s[i]) ==> i in ps
    ensures StrictlyIncreasing(ps)
    decreases |s| - from
  {
    if from == |s| then []
    else if keep(s[from]) then [from] + Positions(s, keep, from + 1)
    else Positions(s, keep, from + 1)
  }

  /** The elements of `s` that `keep` accepts, each paired with its position in `s`, in list order. */
  function Select<T>(s: seq<T>, keep: T -> bool): (rows: seq<(nat, T)>)
    ensures Enumerates(rows, s, keep)
  {
    var ps := Positions(s, keep, 0);
    var rows := seq(|ps|, j requires 0 <= j < |ps| => (ps[j], s[ps[j]]));
    assert forall i :: Accepted(s, keep, i) ==> exists j :: 0 <= j < |rows| && rows[j].0 == i by {
      forall i | Accepted(s, keep, i)
        ensures exists j :: 0 <= j < |rows| && rows[j].0 == i
      {
        var j :| 0 <= j < |ps| && ps[j] == i;
        assert rows[j].0 == i;
      }
    }
    rows
  }

  /** The second components of `rows`, in order. */
  function Values<T>(rows: seq<(nat, T)>): (vs: seq<T>)
    ensures |vs| == |rows|
    ensures forall j :: 0 <= j < |rows| ==> vs[j] == rows[j].1
  {
    seq(|rows|, j requires 0 <= j < |rows| => rows[j].1)
  }

  /** Two enumerations of the same elements of the same sequence agree on their first `n` positions. */
  lemma {:induction false} EnumerationPrefix<T>(a: seq<(nat, T)>, b: seq<(nat, T)>, s: seq<T>, keep: T -> bool, n: nat)
    requires Enumerates(a, s, keep) && Enumerates(b, s, keep)
    requires n <= |a| && n <= |b|
    ensures forall i :: 0 <= i < n ==> a[i].0 == b[i].0
  {
    if n > 0 {
      EnumerationPrefix(a, b, s, keep, n - 1);
      SameAt(a, b, s, keep, n - 1);
    }
  }

  /** Two enumerations that agree before position `j` agree at `j`. */
  lemma SameAt<T>(a: seq<(nat, T)>, b: seq<(nat, T)>, s: seq<T>, keep: T -> bool, j: nat)
    requires Enumerates(a, s, keep) && Enumerates(b, s, keep)
    requires j < |a| && j < |b|
    requires forall i :: 0 <= i < j ==> a[i].0 == b[i].0
    ensures a[j].0 == b[j].0
  {
    NoEarlierGap(a, b, s, keep, j);
    NoEarlierGap(b, a, s, keep, j);
  }

  /**
   * When two enumerations agree before position `j`, the row at `j` of the
   * first cannot name an earlier element than the row at `j` of the second.
   */
  lemma NoEarlierGap<T>(a: seq<(nat, T)>, b: seq<(nat, T)>, s: seq<T>, keep: T -> bool, j: nat)
    requires Enumerates(a, s, keep) && Enumerates(b, s, keep)
    requires j < |a| && j < |b|
    requires forall i :: 0 <= i < j ==> a[i].0 == b[i].0
    ensures b[j].0 <= a[j].0
  {
    assert Accepted(s, keep, a[j].0);
  }

  /** An enumeration is unique: `Enumerates` determines the rows completely. */
  lemma EnumerationUnique<T>(a: seq<(nat, T)>, b: seq<(nat, T)>, s: seq<T>, keep: T -> bool)
    requires Enumerates(a, s, keep) && Enumerates(b, s, keep)
    ensures a == b
  {
    if |a| < |b| {
      EnumerationPrefix(a, b, s, keep, |a|);
      LongerHasMore(a, b, s, keep);
    } else if |b| < |a| {
      EnumerationPrefix(b, a, s, keep, |b|);
      LongerHasMore(b, a, s, keep);
    } else {
      EnumerationPrefix(a, b, s, keep, |a|);
      assert forall i | 0 <= i < |a| :: a[i] == b[i];
    }
  }

  /** An enumeration that agrees with another one on all its rows is not shorter than it. */
  lemma LongerHasMore<T>(a: seq<(nat, T)>, b: seq<(nat, T)>, s: seq<T>, keep: T -> bool)
    requires Enumerates(a, s, keep) && Enumerates(b, s, keep)
    requires |a| <= |b|
    requires forall i :: 0 <= i < |a| ==> a[i].0 == b[i].0
    ensures |a| == |b|
  {
    if |a| < |b| {
      Listed(a, s, keep, b[|a|].0);
      assert false;
    }
  }

  /** Every accepted element of `s` has a row in an enumeration of `s`. */
  lemma Listed<T>(rows: seq<(nat, T)>, s: seq<T>, keep: T -> bool, i: nat)
    requires Enumerates(rows, s, keep)
    requires i < |s| && keep(s[i])
    ensures exists m :: 0 <= m < |rows| && rows[m].0 == i
  {
    assert Accepted(s, keep, i);
  }

  /**
   * What an enumeration says about the elements it keeps: no more of them
   * than `s` has, each one an accepted element of `s`, every accepted element
   * of `s` among them, and none at all exactly when `s` has none to accept.
   */
  lemma EnumerationValues<T>(rows: seq<(nat, T)>, s: seq<T>, keep: T -> bool)
    requires Enumerates(rows, s, keep)
    ensures |rows| <= |s|
    ensures forall j :: 0 <= j < |rows| ==> Values(rows)[j] in s && keep(Values(rows)[j])
    ensures forall i :: 0 <= i < |s| && keep(s[i]) ==> s[i] in Values(rows)
    ensures rows == [] <==> forall i :: 0 <= i < |s| ==> !keep(s[i])
  {
    var vs := Values(rows);
    forall i | 0 <= i < |s| && keep(s[i])
      ensures s[i] in vs
    {
      assert Accepted(s, keep, i);
      var j :| 0 <= j < |rows| && rows[j].0 == i;
      assert vs[j] == s[i];
    }
    assert rows != [] ==> keep(s[rows[0].0]);
    var ps := seq(|rows|, j requires 0 <= j < |rows| => rows[j].0);
    PositionsFit(ps, |s|);
  }

  /** A strictly increasing sequence of positions below `n` has at most `n` entries. */
  lemma {:induction false} PositionsFit(ps: seq<nat>, n: nat)
    requires StrictlyIncreasing(ps)
    requires forall j :: 0 <= j < |ps| ==> ps[j] < n
    ensures |ps| <= n
  {
    if ps != [] {
      PositionsFit(ps[..|ps| - 1], ps[|ps| - 1]);
    }
  }

  /** Python's `s.pop(k)` on the list that remains: later elements move down one place. */
  function RemoveAt<T>(s: seq<T>, k: nat): (r: seq<T>)
    requires k < |s|
    ensures |r| == |s| - 1
    ensures forall j :: 0 <= j < k ==> r[j] == s[j]
    ensures forall j :: k <= j < |r| ==> r[j] == s[j + 1]
    ensures multiset(r) + multiset{s[k]} == multiset(s)
  {
    assert s == s[..k] + [s[k]] + s[k + 1..];
    s[..k] + s[k + 1..]
  }
}
