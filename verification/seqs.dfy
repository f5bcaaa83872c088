/**
 Generic sequence operations shaped like JavaScript's Array.prototype.map,
 Array.prototype.filter and Array.prototype.join, together with the facts
 about them that the converter proofs rely on.
 */
module Seqs {

  /** Array.prototype.map: f applied to every element, order kept. */
  function Map<A, B>(f: A -> B, s: seq<A>): (r: seq<B>)
    ensures |r| == |s|
    ensures forall i :: 0 <= i < |s| ==> r[i] == f(s[i])
  {
    if s == [] then [] else [f(s[0])] + Map(f, s[1..])
  }

  /** Array.prototype.filter: the elements that satisfy p, order kept. */
  function Filter<T>(p: T -> bool, s: seq<T>): (r: seq<T>)
    ensures |r| <= |s|
    ensures forall i :: 0 <= i < |r| ==> p(r[i])
  {
    if s == [] then []
    else (if p(s[0]) then [s[0]] else []) + Filter(p, s[1..])
  }

  /** Array.prototype.join: the parts with sep between neighbours; no parts
      give the empty sequence and one part gives that part. */
  function Join<T>(parts: seq<seq<T>>, sep: seq<T>): seq<T>
  {
    if |parts| == 0 then []
    else if |parts| == 1 then parts[0]
    else parts[0] + sep + Join(parts[1..], sep)
  }

  lemma MapAppend<A, B>(f: A -> B, a: seq<A>, b: seq<A>)
    ensures Map(f, a + b) == Map(f, a) + Map(f, b)
  {
  }

  lemma {:induction false} FilterAppend<T>(p: T -> bool, a: seq<T>, b: seq<T>)
    ensures Filter(p, a + b) == Filter(p, a) + Filter(p, b)
  {
    if a == [] {
      assert a + b == b;
    } else {
      assert (a + b)[1..] == a[1..] + b;
      FilterAppend(p, a[1..], b);
    }
  }

  /** Joining two lists of parts: the separator appears between the two
      joins only when both lists are non-empty. */
  lemma {:induction false} JoinAppend<T>(x: seq<seq<T>>, y: seq<seq<T>>, sep: seq<T>)
    ensures Join(x + y, sep) ==
      if x == [] then Join(y, sep)
      else if y == [] then Join(x, sep)
      else Join(x, sep) + sep + Join(y, sep)
  {
    if x == [] {
      assert x + y == y;
    } else if y == [] {
      assert x + y == x;
    } else if |x| == 1 {
      assert (x + y)[1..] == y;
    } else {
      assert (x + y)[1..] == x[1..] + y;
      JoinAppend(x[1..], y, sep);
    }
  }

  /** A join of at least one part starts with the first part and ends with
      the last. */
  lemma {:induction false} JoinEnds<T>(parts: seq<seq<T>>, sep: seq<T>)
    requires |parts| >= 1
    ensures |parts[0]| <= |Join(parts, sep)| && Join(parts, sep)[..|parts[0]|] == parts[0]
    ensures |parts[|parts| - 1]| <= |Join(parts, sep)|
    ensures Join(parts, sep)[|Join(parts, sep)| - |parts[|parts| - 1]|..] == parts[|parts| - 1]
  {
    if |parts| > 1 {
      JoinEnds(parts[1..], sep);
      var j := Join(parts[1..], sep);
      assert Join(parts, sep) == parts[0] + (sep + j);
    }
  }

  /** The positions j, from `from` on, whose element satisfies p, ascending. */
  ghost function Positions<T>(p: T -> bool, s: seq<T>, from: nat): seq<nat>
    requires from <= |s|
    decreases |s| - from
  {
    if from == |s| then []
    else (if p(s[from]) then [from] else []) + Positions(p, s, from + 1)
  }

  lemma {:induction false} PositionsSelect<T>(p: T -> bool, s: seq<T>, from: nat)
    requires from <= |s|
    ensures |Positions(p, s, from)| == |Filter(p, s[from..])|
    ensures forall k :: 0 <= k < |Positions(p, s, from)| ==>
      from <= Positions(p, s, from)[k] < |s| && Filter(p, s[from..])[k] == s[Positions(p, s, from)[k]]
    decreases |s| - from
  {
    if from < |s| {
      PositionsSelect(p, s, from + 1);
      assert s[from..][1..] == s[from + 1..];
    }
  }

  lemma {:induction false} PositionsAscend<T>(p: T -> bool, s: seq<T>, from: nat)
    requires from <= |s|
    ensures forall k :: 0 <= k < |Positions(p, s, from)| ==> from <= Positions(p, s, from)[k]
    ensures forall k, m :: 0 <= k < m < |Positions(p, s, from)| ==>
      Positions(p, s, from)[k] < Positions(p, s, from)[m]
    decreases |s| - from
  {
    if from < |s| {
      PositionsAscend(p, s, from + 1);
    }
  }

  lemma {:induction false} PositionsCover<T>(p: T -> bool, s: seq<T>, from: nat)
    requires from <= |s|
    ensures forall j :: from <= j < |s| && p(s[j]) ==> j in Positions(p, s, from)
    decreases |s| - from
  {
    if from < |s| {
      PositionsCover(p, s, from + 1);
    }
  }

  /** Filter keeps exactly the elements satisfying p, in their original
      order: idx lists, strictly increasing, the position in s of every
      element of the result, and every position whose element satisfies p
      appears in idx. */
  lemma FilterIndices<T>(p: T -> bool, s: seq<T>) returns (idx: seq<nat>)
    ensures |idx| == |Filter(p, s)|
    ensures forall k :: 0 <= k < |idx| ==> idx[k] < |s| && Filter(p, s)[k] == s[idx[k]]
    ensures forall k, m :: 0 <= k < m < |idx| ==> idx[k] < idx[m]
    ensures forall j :: 0 <= j < |s| && p(s[j]) ==> j in idx
  {
    idx := Positions(p, s, 0);
    assert s[0..] == s;
    PositionsSelect(p, s, 0);
    PositionsAscend(p, s, 0);
    PositionsCover(p, s, 0);
  }
}
