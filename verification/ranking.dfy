// Picking the best `limit` of a set of scored ids, and when a partial view of the scores is enough.
module Ranking {
  import opened Text

  type Scores = map<string, real>

  predicate Distinct(ids: seq<string>) {
    forall j, k | 0 <= j < k < |ids| :: ids[j] != ids[k]
  }

  predicate AllIn(ids: seq<string>, scores: Scores) {
    forall k | 0 <= k < |ids| :: ids[k] in scores
  }

  /** `ids` is a best-first choice of `limit` of the ids scored, or of all when there are fewer. */
  ghost predicate IsTop(ids: seq<string>, scores: Scores, limit: nat) {
    && |ids| == Min(limit, |scores|) && Distinct(ids) && AllIn(ids, scores)
    && (forall j, k | 0 <= j < k < |ids| :: scores[ids[j]] >= scores[ids[k]])
    && (forall id, k | id in scores && 0 <= k < |ids| && id !in ids :: scores[id] <= scores[ids[k]])
  }

  // ---------------------------------------------------------------------------
  // Counting
  // ---------------------------------------------------------------------------

  lemma {:induction false} SubsetSize(a: set<string>, b: set<string>)
    requires a <= b
    ensures |a| <= |b| && (|a| == |b| ==> a == b)
  {
    if a == {} {
      assert b == {} || |b| > 0;
    } else {
      var x :| x in a;
      SubsetSize(a - {x}, b - {x});
      assert a == (a - {x}) + {x} && b == (b - {x}) + {x};
    }
  }

  function IdSet(ids: seq<string>): set<string> {
    set k | 0 <= k < |ids| :: ids[k]
  }

  lemma {:induction false} IdSetSize(ids: seq<string>)
    requires Distinct(ids)
    ensures |IdSet(ids)| == |ids|
  {
    if ids != [] {
      var n := |ids| - 1;
      IdSetSize(ids[..n]);
      assert IdSet(ids) == IdSet(ids[..n]) + {ids[n]} by {
        assert forall k | 0 <= k < n :: ids[k] == ids[..n][k];
      }
      assert ids[n] !in IdSet(ids[..n]);
    }
  }

  lemma FitsIn(y: set<string>, ids: seq<string>)
    requires Distinct(ids) && forall id | id in y :: id in ids
    ensures |y| <= |ids|
  {
    IdSetSize(ids);
    SubsetSize(y, IdSet(ids));
  }

  // ---------------------------------------------------------------------------
  // Uniqueness
  // ---------------------------------------------------------------------------

  lemma OneLeftOver(a: seq<string>, b: seq<string>, k: nat) returns (j: nat)
    requires Distinct(a) && Distinct(b) && k < |a| && k < |b|
    ensures j <= k && forall i | 0 <= i < k :: b[i] != a[j]
  {
    var head, front := a[..k + 1], b[..k];
    IdSetSize(head);
    if forall id | id in IdSet(head) :: id in front { FitsIn(IdSet(head), front); }
    var id :| id in IdSet(head) && id !in front;
    j :| 0 <= j <= k && head[j] == id;
    assert forall i | 0 <= i < k :: b[i] == front[i];
  }

  lemma TopScoreAtLeast(a: seq<string>, b: seq<string>, scores: Scores, limit: nat, k: nat)
    requires IsTop(a, scores, limit) && IsTop(b, scores, limit) && k < |a|
    ensures scores[b[k]] >= scores[a[k]]
  {
    var j := OneLeftOver(a, b, k);
    assert scores[a[j]] >= scores[a[k]];
    if a[j] in b {
      var i :| 0 <= i < |b| && b[i] == a[j];
      assert scores[b[k]] >= scores[b[i]];
    }
  }

  /** Whatever way ties are broken, the scores of the answer are the same. */
  lemma TopScoresUnique(a: seq<string>, b: seq<string>, scores: Scores, limit: nat)
    requires IsTop(a, scores, limit) && IsTop(b, scores, limit)
    ensures |a| == |b| && forall k | 0 <= k < |a| :: scores[a[k]] == scores[b[k]]
  {
    forall k | 0 <= k < |a|
      ensures scores[a[k]] == scores[b[k]]
    {
      TopScoreAtLeast(a, b, scores, limit, k);
      TopScoreAtLeast(b, a, scores, limit, k);
    }
  }

  // ---------------------------------------------------------------------------
  // Partial views
  // ---------------------------------------------------------------------------

  predicate Exact(seen: Scores, best: Scores, c: string)
    requires c in best
  {
    c in seen && seen[c] == best[c]
  }

  /** At least `limit` of the ids seen score no worse than `c`. */
  ghost predicate Crowded(seen: Scores, score: real, limit: nat) {
    exists y: set<string> :: |y| >= limit && Beats(seen, y, score)
  }

  predicate Beats(seen: Scores, y: set<string>, score: real) {
    forall id | id in y :: id in seen && seen[id] >= score
  }

  /** `seen` misses or understates a score only behind `limit` others. */
  ghost predicate Suffices(seen: Scores, best: Scores, limit: nat) {
    && seen.Keys <= best.Keys
    && (forall id | id in seen :: seen[id] <= best[id])
    && (forall c | c in best :: Exact(seen, best, c) || Crowded(seen, best[c], limit))
  }

  lemma AheadIsExact(ids: seq<string>, seen: Scores, best: Scores, limit: nat, c: string, k: nat)
    requires IsTop(ids, seen, limit) && Suffices(seen, best, limit)
    requires c in best && k < |ids| && seen[ids[k]] < best[c]
    ensures Exact(seen, best, c)
  {
    if !Exact(seen, best, c) {
      var y: set<string> :| |y| >= limit && Beats(seen, y, best[c]);
      var ahead := y + {ids[k]};
      assert ids[k] !in y;
      forall id | id in ahead
        ensures id in ids
      {}
      FitsIn(ahead, ids);
    }
  }

  lemma SizesAgree(seen: Scores, best: Scores, limit: nat)
    requires Suffices(seen, best, limit)
    ensures Min(limit, |seen|) == Min(limit, |best|)
  {
    SubsetSize(seen.Keys, best.Keys);
    if c :| c in best && !Exact(seen, best, c) {
      var y: set<string> :| |y| >= limit && Beats(seen, y, best[c]);
      SubsetSize(y, seen.Keys);
    } else {
      assert seen.Keys == best.Keys;
    }
  }

  /** A choice by the scores seen is then a choice by the true scores, and shows the true scores. */
  lemma TopOfSeen(ids: seq<string>, seen: Scores, best: Scores, limit: nat)
    requires IsTop(ids, seen, limit) && Suffices(seen, best, limit)
    ensures IsTop(ids, best, limit)
    ensures forall k | 0 <= k < |ids| :: ids[k] in seen && ids[k] in best && seen[ids[k]] == best[ids[k]]
  {
    SizesAgree(seen, best, limit);
    forall k | 0 <= k < |ids|
      ensures seen[ids[k]] == best[ids[k]]
    {
      if seen[ids[k]] < best[ids[k]] { AheadIsExact(ids, seen, best, limit, ids[k], k); }
    }
    forall c, k | c in best && 0 <= k < |ids| && c !in ids
      ensures best[c] <= best[ids[k]]
    {
      if seen[ids[k]] < best[c] { AheadIsExact(ids, seen, best, limit, c, k); }
    }
  }
}
