/**
 * The three structural edits the pipeline performs on its ordered node
 * list (src/gips_core.cpp: addNode, removeNode, moveNode), as functions on
 * sequences, with the facts that make them what they are: insertion and
 * removal undo each other, a move is a rotation of the stretch between the
 * two indices, and none of them loses or duplicates an element.
 */
module SeqEdit {

  /** No element occurs twice. */
  predicate Distinct<T(==)>(s: seq<T>) {
    forall i, j :: 0 <= i < j < |s| ==> s[i] != s[j]
  }

  /** `s` with `x` inserted so that it ends up at index `i`. */
  function InsertAt<T>(s: seq<T>, i: nat, x: T): (r: seq<T>)
    requires i <= |s|
    ensures |r| == |s| + 1 && r[i] == x
    ensures forall j :: 0 <= j < i ==> r[j] == s[j]
    ensures forall j :: i < j < |r| ==> r[j] == s[j - 1]
  {
    s[..i] + [x] + s[i..]
  }

  /** `s` without the element at index `i`. */
  function RemoveAt<T>(s: seq<T>, i: nat): (r: seq<T>)
    requires i < |s|
    ensures |r| == |s| - 1
    ensures forall j :: 0 <= j < i ==> r[j] == s[j]
    ensures forall j :: i <= j < |r| ==> r[j] == s[j + 1]
  {
    s[..i] + s[i + 1..]
  }

  /** `s` with the element at `from` taken out and put back in at `to`. */
  function MoveTo<T>(s: seq<T>, from: nat, to: nat): (r: seq<T>)
    requires from < |s| && to < |s|
    ensures |r| == |s|
  {
    InsertAt(RemoveAt(s, from), to, s[from])
  }

  /** Removing what was just inserted gives the original sequence back. */
  lemma RemoveInsert<T>(s: seq<T>, i: nat, x: T)
    requires i <= |s|
    ensures RemoveAt(InsertAt(s, i, x), i) == s
  {
    var r := RemoveAt(InsertAt(s, i, x), i);
    assert forall j :: 0 <= j < |s| ==> r[j] == s[j];
  }

  /** Putting a removed element back where it was gives the original sequence back. */
  lemma InsertRemove<T>(s: seq<T>, i: nat)
    requires i < |s|
    ensures InsertAt(RemoveAt(s, i), i, s[i]) == s
  {
    var r := InsertAt(RemoveAt(s, i), i, s[i]);
    assert forall j :: 0 <= j < |s| ==> r[j] == s[j];
  }

  /** Insertion adds exactly one occurrence of the new element. */
  lemma InsertMultiset<T>(s: seq<T>, i: nat, x: T)
    requires i <= |s|
    ensures multiset(InsertAt(s, i, x)) == multiset(s) + multiset{x}
  {
    assert s == s[..i] + s[i..];
    assert InsertAt(s, i, x) == s[..i] + [x] + s[i..];
  }

  /** Removal takes away exactly one occurrence of the removed element. */
  lemma RemoveMultiset<T>(s: seq<T>, i: nat)
    requires i < |s|
    ensures multiset(RemoveAt(s, i)) + multiset{s[i]} == multiset(s)
  {
    assert s == s[..i] + [s[i]] + s[i + 1..];
    assert RemoveAt(s, i) == s[..i] + s[i + 1..];
  }

  /** A move keeps every element, as often as it occurred. */
  lemma MoveMultiset<T>(s: seq<T>, from: nat, to: nat)
    requires from < |s| && to < |s|
    ensures multiset(MoveTo(s, from, to)) == multiset(s)
  {
    RemoveMultiset(s, from);
    InsertMultiset(RemoveAt(s, from), to, s[from]);
  }

  /**
   * A move, index by index: the moved element lands at `to`, the elements
   * between the two indices shift one step toward `from`, and everything
   * outside that stretch stays where it was.
   */
  lemma MovePointwise<T>(s: seq<T>, from: nat, to: nat)
    requires from < |s| && to < |s|
    ensures var r := MoveTo(s, from, to);
      && r[to] == s[from]
      && (forall j :: 0 <= j < |s| && j < from && j < to ==> r[j] == s[j])
      && (forall j :: 0 <= j < |s| && j > from && j > to ==> r[j] == s[j])
      && (forall j :: from <= j < to ==> r[j] == s[j + 1])
      && (forall j :: to < j <= from ==> r[j] == s[j - 1])
  {
  }

  /** Moving back undoes a move. */
  lemma MoveBack<T>(s: seq<T>, from: nat, to: nat)
    requires from < |s| && to < |s|
    ensures MoveTo(MoveTo(s, from, to), to, from) == s
  {
    var m := MoveTo(s, from, to);
    MovePointwise(s, from, to);
    assert m[to] == s[from];
    RemoveInsert(RemoveAt(s, from), to, s[from]);
    InsertRemove(s, from);
  }

  /** The index of `s` that index `j` of `MoveTo(s, from, to)` holds the element of. */
  function MoveSource(from: nat, to: nat, j: nat): nat {
    if j == to then from
    else if from <= j < to then j + 1
    else if to < j <= from then j - 1
    else j
  }

  /** A move takes every element from its source index, and no two indices from the same one. */
  lemma MoveSources<T>(s: seq<T>, from: nat, to: nat)
    requires from < |s| && to < |s|
    ensures forall j :: 0 <= j < |s| ==> MoveSource(from, to, j) < |s| && MoveTo(s, from, to)[j] == s[MoveSource(from, to, j)]
    ensures forall i, j :: 0 <= i < j < |s| ==> MoveSource(from, to, i) != MoveSource(from, to, j)
  {
    MovePointwise(s, from, to);
  }

  /** A move of a sequence without repeats has no repeats. */
  lemma MoveDistinct<T>(s: seq<T>, from: nat, to: nat)
    requires from < |s| && to < |s| && Distinct(s)
    ensures Distinct(MoveTo(s, from, to))
  {
    MoveSources(s, from, to);
  }
}
