/** Keeping some items of a list and converting them, in order: the shape
    of the three list comprehensions with a filter in the model (the
    report items the driver keeps, the directives still unapplied, the
    non-blank lines a reply reader keeps). `pick` says whether an item is
    kept and what it becomes. */
module Choice {
  import opened Wrappers

  /** The values `pick` yields for the items from `from` on, in order. */
  function Choose<A, B>(items: seq<A>, from: nat, pick: A -> Option<B>): (r: seq<B>)
    requires from <= |items|
    ensures |r| <= |items| - from
    decreases |items| - from
  {
    if from == |items| then []
    else if pick(items[from]).Some? then [pick(items[from]).value] + Choose(items, from + 1, pick)
    else Choose(items, from + 1, pick)
  }

  /** The positions from `from` on where `pick` yields a value, in increasing order. */
  function Positions<A, B>(items: seq<A>, from: nat, pick: A -> Option<B>): (r: seq<nat>)
    requires from <= |items|
    ensures forall j :: 0 <= j < |r| ==> from <= r[j] < |items| && pick(items[r[j]]).Some?
    ensures forall i, j :: 0 <= i < j < |r| ==> r[i] < r[j]
    decreases |items| - from
  {
    if from == |items| then []
    else if pick(items[from]).Some? then [from] + Positions(items, from + 1, pick)
    else Positions(items, from + 1, pick)
  }

  /** Every position where `pick` yields a value is listed. */
  lemma {:induction false} PositionsAreComplete<A, B>(items: seq<A>, from: nat, pick: A -> Option<B>, k: nat)
    requires from <= k < |items| && pick(items[k]).Some?
    ensures k in Positions(items, from, pick)
    decreases k - from
  {
    if from < k {
      PositionsAreComplete(items, from + 1, pick, k);
    }
  }

  /** `chosen` holds the picks at `positions`, one for one. */
  predicate Follows<A, B(==)>(chosen: seq<B>, positions: seq<nat>, items: seq<A>, pick: A -> Option<B>) {
    && |chosen| == |positions|
    && forall j :: 0 <= j < |positions| ==>
         positions[j] < |items| && pick(items[positions[j]]).Some? && chosen[j] == pick(items[positions[j]]).value
  }

  lemma ConsFollows<A, B>(p: nat, chosen: seq<B>, positions: seq<nat>, items: seq<A>, pick: A -> Option<B>)
    requires p < |items| && pick(items[p]).Some?
    requires Follows(chosen, positions, items, pick)
    ensures Follows([pick(items[p]).value] + chosen, [p] + positions, items, pick)
  {
    var c := [pick(items[p]).value] + chosen;
    var q := [p] + positions;
    forall j | 1 <= j < |q|
      ensures q[j] < |items| && pick(items[q[j]]).Some? && c[j] == pick(items[q[j]]).value
    {
      assert c[j] == chosen[j - 1] && q[j] == positions[j - 1];
    }
  }

  /** The chosen values are the picks at the listed positions, in order. */
  lemma {:induction false} ChooseFollowsPositions<A, B>(items: seq<A>, from: nat, pick: A -> Option<B>)
    requires from <= |items|
    ensures Follows(Choose(items, from, pick), Positions(items, from, pick), items, pick)
    decreases |items| - from
  {
    if from < |items| {
      ChooseFollowsPositions(items, from + 1, pick);
      if pick(items[from]).Some? {
        ConsFollows(from, Choose(items, from + 1, pick), Positions(items, from + 1, pick), items, pick);
      }
    }
  }

  /** Nothing is chosen exactly when `pick` yields nothing from `from` on. */
  lemma {:induction false} ChooseEmpty<A, B>(items: seq<A>, from: nat, pick: A -> Option<B>)
    requires from <= |items|
    ensures Choose(items, from, pick) == [] <==> forall k :: from <= k < |items| ==> pick(items[k]).None?
    decreases |items| - from
  {
    if from < |items| {
      ChooseEmpty(items, from + 1, pick);
    }
  }

  /** `Choose(items, 0, pick)` is the comprehension it models: the picks at
      an increasing list of positions that names every item `pick` accepts
      and no other. */
  lemma ChooseKeepsPicksInOrder<A, B>(items: seq<A>, pick: A -> Option<B>)
    ensures forall k :: 0 <= k < |items| ==> (k in Positions(items, 0, pick) <==> pick(items[k]).Some?)
    ensures Follows(Choose(items, 0, pick), Positions(items, 0, pick), items, pick)
    ensures Choose(items, 0, pick) == [] <==> forall k :: 0 <= k < |items| ==> pick(items[k]).None?
  {
    ChooseFollowsPositions(items, 0, pick);
    ChooseEmpty(items, 0, pick);
    forall k | 0 <= k < |items| && pick(items[k]).Some?
      ensures k in Positions(items, 0, pick)
    {
      PositionsAreComplete(items, 0, pick, k);
    }
  }
}
