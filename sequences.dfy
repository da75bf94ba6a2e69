/**
 * Sequence operations shared by the stream pipelines of the queries:
 * walking the elements of a set in some order, and keeping the first
 * occurrence of every element.
 */
module Sequences {

  /**
   * The elements of a finite set as a sequence, in an order nobody promises
   * (the encounter order of a hash set's stream).
   */
  ghost function Enumerate<T(!new)>(s: set<T>): (r: seq<T>)
    ensures forall x :: x in r <==> x in s
    ensures |r| == |s|
  {
    if s == {} then []
    else
      var x :| x in s;
      [x] + Enumerate(s - {x})
  }

  /**
   * The elements of `r` come in the order of `s`: of any two of them, the
   * earlier one in `r` stands at an earlier position of `s` too.
   */
  ghost predicate OrderedAsIn<T>(r: seq<T>, s: seq<T>)
  {
    forall i, j :: 0 <= i < j < |r| ==> OccursBefore(s, r[i], r[j])
  }

  /** Some occurrence of `x` in `s` stands before some occurrence of `y`. */
  ghost predicate OccursBefore<T>(s: seq<T>, x: T, y: T)
  {
    exists k, l :: 0 <= k < l < |s| && s[k] == x && s[l] == y
  }

  /**
   * Removes repeated elements, keeping the first occurrence of each: every
   * element of `s` occurs exactly once in the result, and nothing else does.
   * `DistinctOrdered` adds that the kept elements stay in the order of `s`.
   */
  function Distinct<T(==,!new)>(s: seq<T>): (r: seq<T>)
    ensures forall x :: multiset(r)[x] == if x in s then 1 else 0
  {
    if |s| == 0 then []
    else
      var d := Distinct(s[..|s| - 1]);
      var y := s[|s| - 1];
      assert s == s[..|s| - 1] + [y];
      if y in d then d else d + [y]
  }

  /** `Distinct` keeps the elements it retains in the order of its input. */
  lemma {:induction false} DistinctOrdered<T(!new)>(s: seq<T>)
    ensures OrderedAsIn(Distinct(s), s)
  {
    if |s| > 0 {
      var p := s[..|s| - 1];
      DistinctOrdered(p);
      forall x | x in Distinct(p)
        ensures x in p
      {
        assert x in multiset(Distinct(p));
      }
      DistinctStepOrdered(s, Distinct(p));
    }
  }

  /** The step of `Distinct` that may append the last element keeps the order. */
  lemma DistinctStepOrdered<T>(s: seq<T>, d: seq<T>)
    requires |s| > 0
    requires OrderedAsIn(d, s[..|s| - 1])
    requires forall x :: x in d ==> x in s[..|s| - 1]
    ensures OrderedAsIn(d, s)
    ensures OrderedAsIn(d + [s[|s| - 1]], s)
  {
    var p := s[..|s| - 1];
    var e := d + [s[|s| - 1]];
    forall i, j | 0 <= i < j < |e|
      ensures OccursBefore(s, e[i], e[j])
    {
      assert e[i] == d[i];
      assert d[i] in d;
      if j < |d| {
        assert e[j] == d[j];
        assert OccursBefore(p, d[i], d[j]);
        var k, l :| 0 <= k < l < |p| && p[k] == d[i] && p[l] == d[j];
        assert s[k] == e[i] && s[l] == e[j];
      } else {
        var k :| 0 <= k < |p| && p[k] == d[i];
        assert s[k] == e[i] && s[|s| - 1] == e[j];
      }
    }
    assert OrderedAsIn(e, s);
    forall i, j | 0 <= i < j < |d|
      ensures OccursBefore(s, d[i], d[j])
    {
      assert e[i] == d[i] && e[j] == d[j];
    }
    assert OrderedAsIn(d, s);
  }

  /** A sequence is empty exactly when nothing is in it. */
  lemma NonEmptyHasElement<T>(s: seq<T>)
    ensures s != [] <==> exists x :: x in s
  {
    if s != [] {
      assert s[0] in s;
    }
  }

  /** Two positions holding the same element make it occur at least twice. */
  lemma DuplicateCount<T>(s: seq<T>, i: nat, j: nat)
    requires i < j < |s|
    ensures s[i] == s[j] ==> multiset(s)[s[i]] >= 2
  {
    assert s == s[..j] + s[j..];
    assert s[i] in s[..j];
    assert s[j] == s[j..][0];
  }
}
