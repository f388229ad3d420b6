/**
 * The reducers that `FileStructureState` declares for its merged channels:
 * `srs_text` and `file_structure` are merged with `operator.add` (concatenation),
 * `file_descriptions` with `{**a, **b}` (union in which the newer entry wins).
 */
module Reducers {
  import opened PyText

  /** `operator.add` on `srs_text`. */
  function MergeText(current: string, update: string): (r: string)
    ensures |r| == |current| + |update|
    ensures r[..|current|] == current && r[|current|..] == update
  {
    current + update
  }

  /** `operator.add` on `file_structure`: the planned paths of both, the current ones first. */
  function MergeStructure(current: seq<string>, update: seq<string>): (r: seq<string>)
    ensures |r| == |current| + |update|
    ensures r[..|current|] == current && r[|current|..] == update
    ensures forall p :: p in r <==> p in current || p in update
  {
    current + update
  }

  /** `{**current, **update}` on `file_descriptions`. */
  function MergeDescriptions(current: map<string, string>, update: map<string, string>): (r: map<string, string>)
    ensures r.Keys == current.Keys + update.Keys
    ensures forall k :: k in update ==> r[k] == update[k]
    ensures forall k :: k in current && k !in update ==> r[k] == current[k]
  {
    current + update
  }

  /** Looking a path up after a merge finds the update's description, and falls back to the
      current one, then to the default. */
  lemma GetAfterMerge(current: map<string, string>, update: map<string, string>, k: string, default: string)
    ensures Get(MergeDescriptions(current, update), k, default) == Get(update, k, Get(current, k, default))
  {
  }

  /** Grouping does not matter when three updates arrive. */
  lemma MergeAssociative(a: map<string, string>, b: map<string, string>, c: map<string, string>,
                         s: seq<string>, t: seq<string>, u: seq<string>)
    ensures MergeDescriptions(MergeDescriptions(a, b), c) == MergeDescriptions(a, MergeDescriptions(b, c))
    ensures MergeStructure(MergeStructure(s, t), u) == MergeStructure(s, MergeStructure(t, u))
  {
  }

  /** The descriptions after applying `updates` to `current` in order. */
  function ApplyDescriptionUpdates(current: map<string, string>, updates: seq<map<string, string>>): map<string, string>
    decreases |updates|
  {
    if |updates| == 0 then current
    else MergeDescriptions(ApplyDescriptionUpdates(current, updates[..|updates| - 1]), updates[|updates| - 1])
  }

  /** After any sequence of partial updates no key is lost, and each key holds the value
      of the last update that mentions it (or its current value if none does). */
  lemma {:induction false} UpdatesKeepEveryKey(current: map<string, string>, updates: seq<map<string, string>>, k: string)
    ensures k in ApplyDescriptionUpdates(current, updates) <==>
      k in current || exists i :: 0 <= i < |updates| && k in updates[i]
    ensures forall i :: (0 <= i < |updates| && k in updates[i] &&
      (forall j :: i < j < |updates| ==> k !in updates[j])) ==>
      ApplyDescriptionUpdates(current, updates)[k] == updates[i][k]
    ensures k in current && (forall i :: 0 <= i < |updates| ==> k !in updates[i]) ==>
      ApplyDescriptionUpdates(current, updates)[k] == current[k]
    decreases |updates|
  {
    if |updates| > 0 {
      var init := updates[..|updates| - 1];
      UpdatesKeepEveryKey(current, init, k);
      assert forall i :: 0 <= i < |init| ==> init[i] == updates[i];
    }
  }

  /** Two partial updates `{a: x}` then `{b: y}` leave both entries. */
  lemma TwoUpdatesCombine(a: string, x: string, b: string, y: string)
    requires a != b
    ensures ApplyDescriptionUpdates(map[], [map[a := x], map[b := y]]) == map[a := x, b := y]
  {
    var m1, m2 := map[a := x], map[b := y];
    assert [m1, m2][..1] == [m1];
    assert [m1][..0] == [];
    assert ApplyDescriptionUpdates(map[], [m1]) == m1;
  }
}
