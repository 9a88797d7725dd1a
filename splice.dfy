/** Sequences with the semantics of JavaScript's `Array.prototype.splice`, as the board code uses it:
    `a.splice(i, 1)` removes one element and `a.splice(i, 0, ...xs)` inserts, appending when `i` is past the end. */
module Splice {

  datatype Option<T> = None | Some(value: T)

  function Min(a: nat, b: nat): (m: nat)
    ensures m <= a && m <= b && (m == a || m == b)
  {
    if a <= b then a else b
  }

  /** `s.splice(i, 0, ...xs)`: `xs` is placed before position `i`; an index past the end appends. */
  function InsertAt<T>(s: seq<T>, i: nat, xs: seq<T>): (r: seq<T>)
    ensures |r| == |s| + |xs|
    ensures forall j :: 0 <= j < Min(i, |s|) ==> r[j] == s[j]
    ensures forall j :: 0 <= j < |xs| ==> r[Min(i, |s|) + j] == xs[j]
    ensures forall j :: Min(i, |s|) <= j < |s| ==> r[j + |xs|] == s[j]
  {
    var k := Min(i, |s|);
    assert s == s[..k] + s[k..];
    s[..k] + xs + s[k..]
  }

  /** `s.splice(i, 1)`: the element at `i` is taken out and the rest close up. */
  function RemoveAt<T>(s: seq<T>, i: nat): (r: seq<T>)
    requires i < |s|
    ensures |r| == |s| - 1
    ensures forall j :: 0 <= j < i ==> r[j] == s[j]
    ensures forall j :: i <= j < |r| ==> r[j] == s[j + 1]
  {
    assert s == s[..i] + [s[i]] + s[i + 1..];
    s[..i] + s[i + 1..]
  }

  /** Inserting adds exactly the inserted elements. */
  lemma InsertAtMultiset<T>(s: seq<T>, i: nat, xs: seq<T>)
    ensures multiset(InsertAt(s, i, xs)) == multiset(s) + multiset(xs)
  {
    var k := Min(i, |s|);
    assert s == s[..k] + s[k..];
  }

  /** Removing takes away exactly the removed element. */
  lemma RemoveAtMultiset<T>(s: seq<T>, i: nat)
    requires i < |s|
    ensures multiset(RemoveAt(s, i)) + multiset{s[i]} == multiset(s)
  {
    assert s == s[..i] + [s[i]] + s[i + 1..];
  }

  /** Taking an inserted element out again, at the position where it landed, gives back the sequence. */
  lemma RemoveAfterInsert<T>(s: seq<T>, i: nat, x: T)
    ensures RemoveAt(InsertAt(s, i, [x]), Min(i, |s|)) == s
  {
    var r := RemoveAt(InsertAt(s, i, [x]), Min(i, |s|));
    assert |r| == |s|;
    forall j | 0 <= j < |s| ensures r[j] == s[j] {
    }
  }

  /** Splicing a removed element back in at its old index gives the original sequence back:
      the undo that a vetoed drop performs. */
  lemma {:induction false} RestoreAfterRemove<T>(s: seq<T>, i: nat)
    requires i < |s|
    ensures InsertAt(RemoveAt(s, i), i, [s[i]]) == s
  {
    var r := InsertAt(RemoveAt(s, i), i, [s[i]]);
    assert |r| == |s|;
    forall j | 0 <= j < |s| ensures r[j] == s[j] {
      if j > i {
        assert r[(j - 1) + 1] == RemoveAt(s, i)[j - 1];
      }
    }
  }

  /** A single-element move: take the element at `from` out, then insert it at `to` of the shortened sequence. */
  function Reposition<T>(s: seq<T>, from: nat, to: nat): seq<T>
    requires from < |s|
  {
    InsertAt(RemoveAt(s, from), to, [s[from]])
  }

  /** A move keeps the length and the elements, lands the moved element at `to` (clamped to the last index),
      and leaves everything else in its old relative order. */
  lemma {:induction false} RepositionSpec<T>(s: seq<T>, from: nat, to: nat)
    requires from < |s|
    ensures |Reposition(s, from, to)| == |s|
    ensures multiset(Reposition(s, from, to)) == multiset(s)
    ensures Reposition(s, from, to)[Min(to, |s| - 1)] == s[from]
    ensures RemoveAt(Reposition(s, from, to), Min(to, |s| - 1)) == RemoveAt(s, from)
  {
    var rest := RemoveAt(s, from);
    var r := Reposition(s, from, to);
    RemoveAtMultiset(s, from);
    InsertAtMultiset(rest, to, [s[from]]);
    var k := Min(to, |rest|);
    assert r[k + 0] == s[from];
    var back := RemoveAt(r, k);
    assert |back| == |rest|;
    forall j | 0 <= j < |rest| ensures back[j] == rest[j] {
      if j >= k {
        assert back[j] == r[j + 1];
      }
    }
  }

  /** Dropping an element where it already is changes nothing. */
  lemma RepositionInPlace<T>(s: seq<T>, i: nat)
    requires i < |s|
    ensures Reposition(s, i, i) == s
  {
    RestoreAfterRemove(s, i);
  }
}
