/** Sequence helpers over characters: distinctness, first-occurrence deduplication,
    and the "append what is not there yet" step both matrix loops perform. */
module Seqs {

  predicate Distinct(s: seq<char>) {
    forall i, j :: 0 <= i < j < |s| ==> s[i] != s[j]
  }

  /** Index of the first occurrence of `x` in `s`. */
  function FirstIndex(s: seq<char>, x: char): (k: nat)
    requires x in s
    ensures k < |s| && s[k] == x
    ensures forall i :: 0 <= i < k ==> s[i] != x
  {
    if s[0] == x then 0 else 1 + FirstIndex(s[1..], x)
  }

  /** Scans `s` left to right and appends every element not yet present:
      the step `if c not in key_unique: key_unique.append(c)`. */
  function AppendUnseen(acc: seq<char>, s: seq<char>): (r: seq<char>)
    ensures |acc| <= |r| && r[..|acc|] == acc
    ensures forall x :: x in r <==> x in acc || x in s
    ensures Distinct(acc) ==> Distinct(r)
    decreases |s|
  {
    if s == [] then acc
    else if s[0] in acc then AppendUnseen(acc, s[1..])
    else AppendUnseen(acc + [s[0]], s[1..])
  }

  /** The distinct elements of `s`, in order of first occurrence. */
  function Dedup(s: seq<char>): seq<char> {
    AppendUnseen([], s)
  }

  /** The elements of `s` that are not in `u`, in the order of `s`. */
  function Missing(s: seq<char>, u: seq<char>): (r: seq<char>)
    ensures forall x :: x in r <==> x in s && x !in u
  {
    if s == [] then []
    else (if s[0] in u then [] else [s[0]]) + Missing(s[1..], u)
  }

  /** Two elements appended after `acc` keep the order of their first
      occurrence in `s`. */
  lemma {:induction false} AppendUnseenOrder(acc: seq<char>, s: seq<char>, i: nat, j: nat)
    requires |acc| <= i < j < |AppendUnseen(acc, s)|
    ensures AppendUnseen(acc, s)[i] in s && AppendUnseen(acc, s)[j] in s
    ensures FirstIndex(s, AppendUnseen(acc, s)[i]) < FirstIndex(s, AppendUnseen(acc, s)[j])
    decreases |s|
  {
    var r := AppendUnseen(acc, s);
    NewElementNotInAcc(acc, s, i);
    NewElementNotInAcc(acc, s, j);
    if s[0] in acc {
      AppendUnseenOrder(acc, s[1..], i, j);
    } else {
      var acc' := acc + [s[0]];
      assert r == AppendUnseen(acc', s[1..]);
      assert r[|acc|] == s[0] by { assert r[..|acc'|] == acc'; }
      NewElementNotInAcc(acc', s[1..], j);
      if i > |acc| {
        NewElementNotInAcc(acc', s[1..], i);
        AppendUnseenOrder(acc', s[1..], i, j);
      }
    }
  }

  /** An element past the accumulated prefix was not in the prefix. */
  lemma {:induction false} NewElementNotInAcc(acc: seq<char>, s: seq<char>, i: nat)
    requires |acc| <= i < |AppendUnseen(acc, s)|
    ensures AppendUnseen(acc, s)[i] !in acc && AppendUnseen(acc, s)[i] in s
    decreases |s|
  {
    if s == [] {
    } else if s[0] in acc {
      NewElementNotInAcc(acc, s[1..], i);
    } else {
      var acc' := acc + [s[0]];
      var r := AppendUnseen(acc', s[1..]);
      if i == |acc| {
        assert r[..|acc'|] == acc';
        assert r[i] == s[0];
      } else {
        NewElementNotInAcc(acc', s[1..], i);
      }
    }
  }

  /** Dedup keeps each element once, in first-occurrence order. */
  lemma DedupFirstOccurrence(s: seq<char>)
    ensures Distinct(Dedup(s))
    ensures forall x :: x in Dedup(s) <==> x in s
    ensures forall i, j :: 0 <= i < j < |Dedup(s)| ==>
      FirstIndex(s, Dedup(s)[i]) < FirstIndex(s, Dedup(s)[j])
  {
    var d := Dedup(s);
    forall i, j | 0 <= i < j < |d| ensures FirstIndex(s, d[i]) < FirstIndex(s, d[j]) {
      AppendUnseenOrder([], s, i, j);
    }
  }

  /** Over a duplicate-free `s`, appending the unseen elements is the same as
      appending those of `s` missing from the accumulator. */
  lemma {:induction false} AppendUnseenDistinct(acc: seq<char>, s: seq<char>)
    requires Distinct(s)
    ensures AppendUnseen(acc, s) == acc + Missing(s, acc)
    decreases |s|
  {
    if s == [] {
    } else if s[0] in acc {
      AppendUnseenDistinct(acc, s[1..]);
    } else {
      AppendUnseenDistinct(acc + [s[0]], s[1..]);
      MissingIgnores(s[1..], acc, s[0]);
    }
  }

  /** Nothing is missing from an empty accumulator. */
  lemma {:induction false} MissingNone(s: seq<char>)
    ensures Missing(s, []) == s
  {
    if s != [] {
      MissingNone(s[1..]);
    }
  }

  lemma {:induction false} MissingIgnores(s: seq<char>, u: seq<char>, x: char)
    requires x !in s
    ensures Missing(s, u + [x]) == Missing(s, u)
  {
    if s != [] {
      MissingIgnores(s[1..], u, x);
    }
  }

  /** A duplicate-free sequence has as many elements as its set. */
  lemma {:induction false} DistinctCard(s: seq<char>)
    requires Distinct(s)
    ensures |set x | x in s| == |s|
  {
    if s != [] {
      DistinctCard(s[1..]);
      assert (set x | x in s) == {s[0]} + (set x | x in s[1..]);
    }
  }

  /** Two duplicate-free sequences with the same elements have the same length. */
  lemma SameElementsSameLength(s: seq<char>, t: seq<char>)
    requires Distinct(s) && Distinct(t)
    requires forall x :: x in s <==> x in t
    ensures |s| == |t|
  {
    DistinctCard(s);
    DistinctCard(t);
    assert (set x | x in s) == (set x | x in t);
  }
}
