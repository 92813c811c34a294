/** Picking elements of a sequence in order, said by positions: what a filtering loop must achieve. */
module Selections {

  /** `at` lists `positions`, from the smallest to the largest. */
  ghost predicate Lists(at: seq<nat>, positions: set<nat>) {
    && (forall i, j :: 0 <= i < j < |at| ==> at[i] < at[j])
    && (forall n: nat :: n in at <==> n in positions)
  }

  /** `picked` holds the elements of `s` at `positions`, each once and in their order. */
  ghost predicate Selects<T>(s: seq<T>, positions: set<nat>, picked: seq<T>) {
    exists at :: Lists(at, positions) && |at| == |picked| && forall k :: 0 <= k < |at| ==> at[k] < |s| && picked[k] == s[at[k]]
  }

  lemma SelectsNothing<T>(s: seq<T>)
    ensures Selects(s, {}, [])
  {
    assert Lists([], {});
  }

  lemma SelectsLast<T>(s: seq<T>, positions: set<nat>, picked: seq<T>, x: T)
    requires Selects(s, positions, picked)
    ensures Selects(s + [x], positions, picked)
    ensures (forall n :: n in positions ==> n < |s|) ==> Selects(s + [x], positions + {|s|}, picked + [x])
  {
    var at :| Lists(at, positions) && |at| == |picked| && forall k :: 0 <= k < |at| ==> at[k] < |s| && picked[k] == s[at[k]];
    assert forall k :: 0 <= k < |at| ==> (s + [x])[at[k]] == s[at[k]];
    if forall n :: n in positions ==> n < |s| {
      ListsLast(at, positions, |s|);
    }
  }

  lemma ListsLast(at: seq<nat>, positions: set<nat>, last: nat)
    requires Lists(at, positions) && forall n :: n in positions ==> n < last
    ensures Lists(at + [last], positions + {last})
  {
    assert forall i :: 0 <= i < |at| ==> at[i] in at;
  }

  lemma ListsInit(at: seq<nat>, positions: set<nat>)
    requires Lists(at, positions) && at != []
    ensures var n := |at| - 1; Lists(at[..n], positions - {at[n]}) && at[n] in positions && forall m :: m in positions ==> m <= at[n]
  {
    var n := |at| - 1;
    assert at == at[..n] + [at[n]];
    assert at[n] in at;
    assert forall m: nat :: m in at[..n] ==> m < at[n];
  }

  /** There is only one way to list a set of positions. */
  lemma {:induction false} ListsUnique(at: seq<nat>, at': seq<nat>, positions: set<nat>)
    requires Lists(at, positions) && Lists(at', positions)
    ensures at == at'
  {
    assert at != [] ==> at[0] in at;
    assert at' != [] ==> at'[0] in at';
    if at != [] && at' != [] {
      ListsInit(at, positions);
      ListsInit(at', positions);
      var n, n' := |at| - 1, |at'| - 1;
      ListsUnique(at[..n], at'[..n'], positions - {at[n]});
      assert at == at[..n] + [at[n]] && at' == at'[..n'] + [at'[n']];
    }
  }

  /** So a selection is determined by what it selects. */
  lemma SelectsUnique<T>(s: seq<T>, positions: set<nat>, picked: seq<T>, picked': seq<T>)
    requires Selects(s, positions, picked) && Selects(s, positions, picked')
    ensures picked == picked'
  {
    var at :| Lists(at, positions) && |at| == |picked| && forall k :: 0 <= k < |at| ==> at[k] < |s| && picked[k] == s[at[k]];
    var at' :| Lists(at', positions) && |at'| == |picked'| && forall k :: 0 <= k < |at'| ==> at'[k] < |s| && picked'[k] == s[at'[k]];
    ListsUnique(at, at', positions);
  }
}
