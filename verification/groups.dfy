/** The group builder (mod.ts:139-164). Each merge, in history order, goes
    into the first group that already holds one of its two syllables; if no
    group holds either, it starts a group of its own. Only that first group
    changes, so this is not a union of overlapping groups: a syllable can end
    up in two groups. */
module Groups {
  import opened Optional
  import opened InsertionOrder
  import opened SyllablePairs
  import opened MergeEngine

  /** `group.includes(a) || group.includes(b)` (line 147). */
  predicate Touches(g: seq<string>, a: string, b: string)
  {
    a in g || b in g
  }

  /** The `for … break` search of lines 146-159 from position `i` on: the
      first group touching `a` or `b`. */
  function FirstHit(groups: seq<seq<string>>, a: string, b: string, i: nat): (r: Option<nat>)
    requires i <= |groups|
    ensures r.Some? ==> i <= r.value < |groups| && Touches(groups[r.value], a, b)
    ensures r.Some? ==> forall k :: i <= k < r.value ==> !Touches(groups[k], a, b)
    ensures r.None? <==> forall k :: i <= k < |groups| ==> !Touches(groups[k], a, b)
    decreases |groups| - i
  {
    if i == |groups| then None
    else if Touches(groups[i], a, b) then Some(i)
    else FirstHit(groups, a, b, i + 1)
  }

  /** Lines 148-154: push whichever of `a` and `b` the group lacks, `a`
      first. */
  function Extend(g: seq<string>, a: string, b: string): (r: seq<string>)
    ensures g <= r && a in r && b in r
    ensures forall x :: x in r <==> x in g || x == a || x == b
    ensures Distinct(g) ==> Distinct(r)
  {
    Add(Add(g, a), b)
  }

  /** Lines 142-163 for one merge `(a, b)`. Afterwards `a` and `b` share a
      group; a new group `[a, b]` is appended exactly when no group held
      either; otherwise the first group holding one of them is the one that
      gains the other, at its end, and no other group changes. */
  function AddMerge(groups: seq<seq<string>>, a: string, b: string): (r: seq<seq<string>>)
    ensures exists k :: 0 <= k < |r| && a in r[k] && b in r[k]
    ensures |groups| <= |r| <= |groups| + 1
    ensures forall k :: 0 <= k < |groups| && Touches(groups[k], a, b) && (forall j :: 0 <= j < k ==> !Touches(groups[j], a, b)) ==>
      a in r[k] && b in r[k]
    ensures |r| == |groups| + 1 <==> forall k :: 0 <= k < |groups| ==> !Touches(groups[k], a, b)
    ensures |r| == |groups| + 1 ==> r[|groups|] == [a, b]
    ensures forall k :: 0 <= k < |groups| ==> groups[k] <= r[k]
    ensures forall k, x :: 0 <= k < |r| && x in r[k] ==> (k < |groups| && x in groups[k]) || x == a || x == b
    ensures forall k :: 0 <= k < |groups| && r[k] != groups[k] ==>
      Touches(groups[k], a, b) && forall j :: 0 <= j < k ==> !Touches(groups[j], a, b)
  {
    match FirstHit(groups, a, b, 0)
    case None =>
      var r := groups + [[a, b]];
      assert a in r[|groups|] && b in r[|groups|];
      r
    case Some(i) =>
      var r := groups[i := Extend(groups[i], a, b)];
      assert a in r[i] && b in r[i];
      r
  }

  /** Lines 139-164: the merges folded into groups, in history order. */
  function BuildGroups(merges: seq<Pair>): (groups: seq<seq<string>>)
    ensures |groups| <= |merges|
    decreases |merges|
  {
    if |merges| == 0 then []
    else
      var last := merges[|merges| - 1];
      AddMerge(BuildGroups(merges[..|merges| - 1]), last.first, last.second)
  }

  /** Every group of an earlier history survives, possibly grown at its end,
      into the groups of a longer one. */
  lemma {:induction false} GroupsGrow(merges: seq<Pair>, n: nat)
    requires n <= |merges|
    ensures var before, after := BuildGroups(merges[..n]), BuildGroups(merges);
      |before| <= |after| && forall k :: 0 <= k < |before| ==> before[k] <= after[k]
    decreases |merges| - n
  {
    if n < |merges| {
      var shorter := merges[..|merges| - 1];
      assert shorter[..n] == merges[..n];
      GroupsGrow(shorter, n);
    } else {
      assert merges[..n] == merges;
    }
  }

  /** Both syllables of every merge end up in one group together. */
  lemma MergeGrouped(merges: seq<Pair>, i: nat)
    requires i < |merges|
    ensures var groups := BuildGroups(merges);
      exists k :: 0 <= k < |groups| && merges[i].first in groups[k] && merges[i].second in groups[k]
  {
    var prefix := merges[..i + 1];
    assert prefix[..i] == merges[..i];
    var before := BuildGroups(prefix);
    var k :| 0 <= k < |before| && merges[i].first in before[k] && merges[i].second in before[k];
    GroupsGrow(merges, i + 1);
    assert before[k] <= BuildGroups(merges)[k];
  }

  /** Every member of a group is one side of some merge. */
  lemma {:induction false} GroupedIsEndpoint(merges: seq<Pair>, k: nat, x: string) returns (i: nat)
    requires k < |BuildGroups(merges)| && x in BuildGroups(merges)[k]
    ensures i < |merges| && (x == merges[i].first || x == merges[i].second)
    decreases |merges|
  {
    var shorter := merges[..|merges| - 1];
    var last := merges[|merges| - 1];
    var before := BuildGroups(shorter);
    var groups := AddMerge(before, last.first, last.second);
    assert BuildGroups(merges) == groups;
    assert (k < |before| && x in before[k]) || x == last.first || x == last.second;
    if k < |before| && x in before[k] {
      i := GroupedIsEndpoint(shorter, k, x);
      assert shorter[i] == merges[i];
    } else {
      i := |merges| - 1;
    }
  }

  /** A syllable is in some group exactly when it is one side of some merge. */
  lemma GroupMembers(merges: seq<Pair>, x: string)
    ensures (exists k :: 0 <= k < |BuildGroups(merges)| && x in BuildGroups(merges)[k]) <==>
      (exists i :: 0 <= i < |merges| && (x == merges[i].first || x == merges[i].second))
  {
    var groups := BuildGroups(merges);
    if exists k :: 0 <= k < |groups| && x in groups[k] {
      var k :| 0 <= k < |groups| && x in groups[k];
      var i := GroupedIsEndpoint(merges, k, x);
    }
    if exists i :: 0 <= i < |merges| && (x == merges[i].first || x == merges[i].second) {
      var i :| 0 <= i < |merges| && (x == merges[i].first || x == merges[i].second);
      MergeGrouped(merges, i);
    }
  }

  /** A group without repeats and with at least two syllables. */
  predicate WellFormed(groups: seq<seq<string>>)
  {
    forall k :: 0 <= k < |groups| ==> Distinct(groups[k]) && |groups[k]| >= 2
  }

  /** When no merge pairs a syllable with itself, no group repeats a
      syllable and every group has at least two. */
  lemma {:induction false} GroupsWellFormed(merges: seq<Pair>)
    requires forall i :: 0 <= i < |merges| ==> merges[i].first != merges[i].second
    ensures WellFormed(BuildGroups(merges))
    decreases |merges|
  {
    if |merges| > 0 {
      var shorter := merges[..|merges| - 1];
      var last := merges[|merges| - 1];
      GroupsWellFormed(shorter);
      var before := BuildGroups(shorter);
      var groups := BuildGroups(merges);
      forall k | 0 <= k < |groups|
        ensures Distinct(groups[k]) && |groups[k]| >= 2
      {
        var hit := FirstHit(before, last.first, last.second, 0);
        if hit.Some? && k == hit.value {
          assert groups[k] == Extend(before[k], last.first, last.second);
        }
      }
    }
  }

  /** The groups built from a run's merge history list different
      syllables, at least two each. */
  lemma GroupsOfRun(words: seq<string>)
    ensures WellFormed(BuildGroups(MergeAll(words).merges))
  {
    var merges := MergeAll(words).merges;
    forall i | 0 <= i < |merges|
      ensures merges[i].first != merges[i].second
    {
      assert merges[i] in merges;
      MergesAreProperPairs(words, merges[i]);
    }
    GroupsWellFormed(merges);
  }
}
