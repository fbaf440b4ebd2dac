// Vector search over the index: one nearest-neighbour query per query embedding, filtered, merged by best
// score and cut to the limit (memory/indexer.rs), and the search request around it (memory/search_op.rs).
module Searching {
  import opened Text
  import opened Chunking
  import opened Embeddings
  import opened LikeScope
  import opened Index
  import opened Ranking

  /** Cosine distance as the vector table computes it; none for a degenerate vector. */
  type Distance = (Vector, Vector) -> Option<real>

  datatype Query = Query(embeddings: seq<Vector>, username: string, agentId: string, scope: Scope, rawOnly: bool,
                         limit: nat)

  /** A result; the chunk id is what results are merged by. */
  datatype Hit = Hit(id: string, path: string, startLine: nat, endLine: nat, score: real, snippet: string)

  datatype SearchOutcome = Found(hits: seq<Hit>) | SearchError | EmbedFailed

  const SCOPE_OVERFETCH: nat := 10
  const USIZE_MAX: nat := 0xFFFF_FFFF_FFFF_FFFF
  const SEARCH_LIMIT: nat := 20

  /** How many neighbours are asked for: ten times the limit, saturating, when there is a scope. */
  function FetchK(q: Query): nat {
    if q.scope == All then q.limit
    else if q.limit * SCOPE_OVERFETCH > USIZE_MAX then USIZE_MAX
    else q.limit * SCOPE_OVERFETCH
  }

  // ---------------------------------------------------------------------------
  // What may be found
  // ---------------------------------------------------------------------------

  /** The joins and the filters of the query. */
  predicate Passes(t: Tables, q: Query, eq: CharEq, id: string) {
    && id in t.chunks && t.chunks[id].path in t.files
    && InScope(q.scope, q.username, q.agentId, t.chunks[id].path, eq)
    && (q.rawOnly ==> t.files[t.chunks[id].path].source == "raw")
  }

  function Candidates(t: Tables, rows: map<string, Vector>, q: Query, eq: CharEq): set<string> {
    set id | id in rows && Passes(t, q, eq, id)
  }

  /** `near` is a possible answer of the vector table to "the `k` nearest to `v`": any of those equally near
      may be chosen, and where degenerate vectors rank is left open. */
  ghost predicate IsNearest(rows: map<string, Vector>, dist: Distance, v: Vector, k: nat, near: set<string>) {
    && near <= rows.Keys && |near| == Min(k, |rows|)
    && forall x, y | x in near && y in rows && y !in near ::
         dist(v, rows[x]).Some? && dist(v, rows[y]).Some? ==> dist(v, rows[x]).value <= dist(v, rows[y]).value
  }

  /** One answer per query embedding of the right dimension. */
  ghost predicate AllNearest(vec: VecTable, dist: Distance, q: Query, near: seq<set<string>>) {
    && |near| == |q.embeddings|
    && forall i | 0 <= i < |near| && |q.embeddings[i]| == vec.dim ::
        IsNearest(vec.rows, dist, q.embeddings[i], FetchK(q), near[i])
  }

  // ---------------------------------------------------------------------------
  // Scores
  // ---------------------------------------------------------------------------

  function ScoreOf(d: Option<real>): Option<real> {
    if d.None? then None else Some(1.0 - d.value / 2.0)
  }

  function Better(a: Option<real>, b: Option<real>): Option<real> {
    if a.None? || (b.Some? && b.value > a.value) then b else a
  }

  /** The best score of a vector over the first `n` query embeddings. */
  function BestScore(embeddings: seq<Vector>, dist: Distance, v: Vector, n: nat): Option<real>
    requires n <= |embeddings|
  {
    if n == 0 then None else Better(BestScore(embeddings, dist, v, n - 1), ScoreOf(dist(embeddings[n - 1], v)))
  }

  /** The same, counting only the queries that returned the id. */
  function SeenScore(embeddings: seq<Vector>, near: seq<set<string>>, dist: Distance, id: string, v: Vector,
                     n: nat): Option<real>
    requires n <= |embeddings| && n <= |near|
  {
    if n == 0 then None
    else Better(SeenScore(embeddings, near, dist, id, v, n - 1),
                if id in near[n - 1] then ScoreOf(dist(embeddings[n - 1], v)) else None)
  }

  /** Brute force: every candidate with its best score. */
  function BestScores(t: Tables, rows: map<string, Vector>, q: Query, dist: Distance, eq: CharEq): Scores {
    map id | id in rows && id in Candidates(t, rows, q, eq)
        && BestScore(q.embeddings, dist, rows[id], |q.embeddings|).Some? ::
      BestScore(q.embeddings, dist, rows[id], |q.embeddings|).value
  }

  function SeenAt(t: Tables, rows: map<string, Vector>, q: Query, near: seq<set<string>>, dist: Distance, eq: CharEq,
                  n: nat, id: string): Option<real>
    requires n <= |q.embeddings| && n <= |near|
  {
    if id in rows && Passes(t, q, eq, id) then SeenScore(q.embeddings, near, dist, id, rows[id], n) else None
  }

  /** What the queries show: every candidate returned by one of them with its best score there. */
  function SeenScores(t: Tables, rows: map<string, Vector>, q: Query, near: seq<set<string>>, dist: Distance,
                      eq: CharEq): Scores
    requires |near| == |q.embeddings|
  {
    map id | id in rows && SeenAt(t, rows, q, near, dist, eq, |near|, id).Some? ::
        SeenAt(t, rows, q, near, dist, eq, |near|, id).value
  }

  function HitOf(t: Tables, id: string, score: real): Hit
    requires id in t.chunks
  {
    var c := t.chunks[id];
    Hit(id, c.path, c.startLine, c.endLine, score, c.text)
  }

  function Ids(hits: seq<Hit>): (ids: seq<string>)
    ensures |ids| == |hits| && forall k | 0 <= k < |ids| :: ids[k] == hits[k].id
  {
    seq(|hits|, k requires 0 <= k < |hits| => hits[k].id)
  }

  /** Every result shows its chunk with the score in `scores`. */
  predicate Shows(t: Tables, hits: seq<Hit>, scores: Scores) {
    forall k | 0 <= k < |hits| ::
      hits[k].id in scores && hits[k].id in t.chunks && hits[k] == HitOf(t, hits[k].id, scores[hits[k].id])
  }

  /** `hits` answers the query by the scores `scores`. */
  ghost predicate Answers(t: Tables, q: Query, hits: seq<Hit>, scores: Scores) {
    IsTop(Ids(hits), scores, q.limit) && Shows(t, hits, scores)
  }

  // ---------------------------------------------------------------------------
  // The search
  // ---------------------------------------------------------------------------

  type Best = map<string, Hit>

  function ScoreIn(best: Best, id: string): Option<real> {
    if id in best then Some(best[id].score) else None
  }

  /** `best` holds what the queries have shown so far. */
  ghost predicate Merged(t: Tables, best: Best, scores: Scores) {
    best.Keys == scores.Keys && forall id | id in best :: id in t.chunks && best[id] == HitOf(t, id, scores[id])
  }

  predicate WellFormed(t: Tables, best: Best) {
    forall id | id in best :: id in t.chunks && best[id] == HitOf(t, id, best[id].score)
  }

  /** One row of a query result: kept if it passes the filters and beats what the chunk has. */
  function MergeRow(t: Tables, q: Query, eq: CharEq, best: Best, id: string, distance: Option<real>): (after: Best)
    requires WellFormed(t, best)
    ensures WellFormed(t, after)
    ensures ScoreIn(after, id)
            == if Passes(t, q, eq, id) then Better(ScoreIn(best, id), ScoreOf(distance)) else ScoreIn(best, id)
    ensures forall other | other != id :: ScoreIn(after, other) == ScoreIn(best, other)
  {
    if !Passes(t, q, eq, id) || distance.None? then best
    else
      var score := ScoreOf(distance).value;
      if id in best && best[id].score >= score then best else best[id := HitOf(t, id, score)]
  }

  /** The rows of one query, in whatever order they come. */
  method MergeRows(t: Tables, rows: map<string, Vector>, q: Query, eq: CharEq, dist: Distance, v: Vector,
                   near: set<string>, before: Best)
      returns (best: Best)
    requires near <= rows.Keys && WellFormed(t, before)
    ensures WellFormed(t, best)
    ensures forall id :: ScoreIn(best, id) ==
                         if id in near && Passes(t, q, eq, id) then
                           Better(ScoreIn(before, id), ScoreOf(dist(v, rows[id])))
                         else ScoreIn(before, id)
  {
    best := before;
    var left := near;
    while left != {}
      invariant left <= near && WellFormed(t, best)
      invariant forall id :: ScoreIn(best, id) ==
                             if id in near && id !in left && Passes(t, q, eq, id) then
                               Better(ScoreIn(before, id), ScoreOf(dist(v, rows[id])))
                             else ScoreIn(before, id)
    {
      var id :| id in left;
      best := MergeRow(t, q, eq, best, id, dist(v, rows[id]));
      left := left - {id};
    }
  }

  /** Each entry of `best` listed once. */
  predicate Lists(all: seq<Hit>, best: Best) {
    && |all| == |best|
    && (forall j, k | 0 <= j < k < |all| :: all[j].id != all[k].id)
    && (forall k | 0 <= k < |all| :: all[k].id in best && best[all[k].id] == all[k])
  }

  predicate BestFirst(all: seq<Hit>) {
    forall j, k | 0 <= j < k < |all| :: all[j].score >= all[k].score
  }

  method Collect(best: Best) returns (all: array<Hit>)
    requires forall id | id in best :: best[id].id == id
    ensures fresh(all) && Lists(all[..], best)
  {
    var hits: seq<Hit> := [];
    var left := best.Keys;
    while left != {}
      invariant left <= best.Keys && |hits| + |left| == |best.Keys|
      invariant forall j, k | 0 <= j < k < |hits| :: hits[j].id != hits[k].id
      invariant forall k | 0 <= k < |hits| :: hits[k].id in best && hits[k].id !in left && best[hits[k].id] == hits[k]
    {
      var id :| id in left;
      hits := hits + [best[id]];
      left := left - {id};
    }
    all := new Hit[|hits|](i requires 0 <= i < |hits| => hits[i]);
    assert all[..] == hits;
  }

  predicate BestFirstBut(s: seq<Hit>, i: nat, j: nat)
    requires j <= i < |s|
  {
    && (forall p, q | 0 <= p < q <= i && q != j :: s[p].score >= s[q].score)
    && (forall q | j < q <= i :: s[j].score > s[q].score)
  }

  lemma SwapHitsFacts(s: seq<Hit>, best: Best, i: nat, j: nat)
    requires 0 < j <= i < |s| && Lists(s, best) && BestFirstBut(s, i, j) && s[j - 1].score < s[j].score
    ensures Lists(Swapped(s, j), best) && BestFirstBut(Swapped(s, j), i, j - 1)
  {}

  /** Entry `i` moved forward to its place among the sorted entries before it. */
  method SiftHit(all: array<Hit>, ghost best: Best, i: nat)
    requires i < all.Length && Lists(all[..], best) && BestFirst(all[..i])
    modifies all
    ensures Lists(all[..], best) && BestFirst(all[..i + 1])
  {
    var j: nat := i;
    assert forall p | 0 <= p < i :: all[..i][p] == all[p];
    while j > 0 && all[j - 1].score < all[j].score
      invariant j <= i && Lists(all[..], best) && BestFirstBut(all[..], i, j)
    {
      ghost var s := all[..];
      SwapHitsFacts(s, best, i, j);
      all[j - 1], all[j] := all[j], all[j - 1];
      assert all[..] == Swapped(s, j);
      j := j - 1;
    }
    ghost var t := all[..];
    assert forall p, q | 0 <= p < q <= i :: t[p].score >= t[q].score;
    assert forall p | 0 <= p <= i :: all[..i + 1][p] == t[p];
  }

  /** Sorted in place, highest score first. */
  method SortHits(all: array<Hit>, ghost best: Best)
    requires Lists(all[..], best)
    modifies all
    ensures Lists(all[..], best) && BestFirst(all[..])
  {
    var i := 0;
    while i < all.Length
      invariant i <= all.Length && Lists(all[..], best) && BestFirst(all[..i])
    {
      SiftHit(all, best, i);
      i := i + 1;
    }
    assert all[..i] == all[..];
  }

  lemma ListsAll(all: seq<Hit>, best: Best, id: string)
    requires Lists(all, best) && id in best
    ensures exists j :: 0 <= j < |all| && all[j].id == id
  {
    var ids := Ids(all);
    IdSetSize(ids);
    SubsetSize(IdSet(ids), best.Keys);
    assert id in IdSet(ids);
  }

  /** What is cut off scores no better than what is kept. */
  lemma CutOff(all: seq<Hit>, best: Best, n: nat, id: string, k: nat)
    requires Lists(all, best) && BestFirst(all) && id in best && k < n <= |all|
    requires forall j | 0 <= j < n :: all[j].id != id
    ensures best[id].score <= all[k].score
  {
    ListsAll(all, best, id);
    var j :| 0 <= j < |all| && all[j].id == id;
    assert j >= n;
  }

  /** Cutting a sorted listing leaves the best. */
  lemma CutIsTop(t: Tables, q: Query, all: seq<Hit>, best: Best, scores: Scores, hits: seq<Hit>)
    requires Lists(all, best) && BestFirst(all) && Merged(t, best, scores)
    requires hits == all[..Min(q.limit, |all|)]
    ensures Answers(t, q, hits, scores)
  {
    var ids := Ids(hits);
    assert |best.Keys| == |scores.Keys|;
    assert forall k | 0 <= k < |hits| :: hits[k] == all[k];
    forall id, k | id in scores && 0 <= k < |ids| && id !in ids
      ensures scores[id] <= scores[ids[k]]
    {
      forall j | 0 <= j < |hits| ensures all[j].id != id { assert ids[j] == all[j].id; }
      CutOff(all, best, |hits|, id, k);
    }
  }

  predicate DimsMatch(vec: VecTable, q: Query) {
    forall i | 0 <= i < |q.embeddings| :: |q.embeddings[i]| == vec.dim
  }

  /** Everything a search may return: nothing without a vector table, an error for a query vector of the wrong
      dimension, and otherwise the best of what its nearest-neighbour queries have shown. */
  ghost predicate MayReturn(t: Tables, q: Query, near: seq<set<string>>, dist: Distance, eq: CharEq, r: SearchOutcome) {
    match t.vec
    case None => r == Found([])
    case Some(vec) =>
      if !DimsMatch(vec, q) then r == SearchError
      else r.Found? && |near| == |q.embeddings| && Answers(t, q, r.hits, SeenScores(t, vec.rows, q, near, dist, eq))
  }

  lemma BestIsMerged(t: Tables, rows: map<string, Vector>, q: Query, near: seq<set<string>>, dist: Distance,
                     eq: CharEq, best: Best)
    requires WellFormed(t, best) && |near| == |q.embeddings|
    requires forall id :: ScoreIn(best, id) == SeenAt(t, rows, q, near, dist, eq, |near|, id)
    ensures Merged(t, best, SeenScores(t, rows, q, near, dist, eq))
  {
    var scores := SeenScores(t, rows, q, near, dist, eq);
    forall id
      ensures id in best <==> id in scores
      ensures id in best ==> best[id].score == scores[id]
    {
      assert ScoreIn(best, id) == SeenAt(t, rows, q, near, dist, eq, |near|, id);
    }
  }

  /** Collect, sort and truncate. */
  method BestHits(t: Tables, q: Query, best: Best, ghost scores: Scores) returns (hits: seq<Hit>)
    requires Merged(t, best, scores)
    ensures Answers(t, q, hits, scores)
  {
    var all := Collect(best);
    SortHits(all, best);
    hits := all[..Min(q.limit, all.Length)];
    CutIsTop(t, q, all[..], best, scores, hits);
  }

  method DoSearch(t: Tables, q: Query, near: seq<set<string>>, dist: Distance, eq: CharEq) returns (r: SearchOutcome)
    requires t.vec.Some? ==> AllNearest(t.vec.value, dist, q, near)
    ensures MayReturn(t, q, near, dist, eq, r)
  {
    if t.vec.None? {
      return Found([]);
    }
    var rows := t.vec.value.rows;
    var best: Best := map[];
    var i := 0;
    while i < |q.embeddings|
      invariant i <= |q.embeddings| && WellFormed(t, best)
      invariant forall j | 0 <= j < i :: |q.embeddings[j]| == t.vec.value.dim
      invariant forall id :: ScoreIn(best, id) == SeenAt(t, rows, q, near, dist, eq, i, id)
    {
      if |q.embeddings[i]| != t.vec.value.dim {
        return SearchError;
      }
      assert IsNearest(rows, dist, q.embeddings[i], FetchK(q), near[i]);
      best := MergeRows(t, rows, q, eq, dist, q.embeddings[i], near[i], best);
      i := i + 1;
    }
    BestIsMerged(t, rows, q, near, dist, eq, best);
    var hits := BestHits(t, q, best, SeenScores(t, rows, q, near, dist, eq));
    r := Found(hits);
  }

  // ---------------------------------------------------------------------------
  // Soundness
  // ---------------------------------------------------------------------------

  lemma {:induction false} SeenIsScore(embeddings: seq<Vector>, near: seq<set<string>>, dist: Distance, id: string,
                                       v: Vector, n: nat)
    requires n <= |embeddings| && n <= |near|
    ensures var seen, best := SeenScore(embeddings, near, dist, id, v, n), BestScore(embeddings, dist, v, n);
            seen.Some? ==> best.Some? && seen.value <= best.value
                           && exists i :: 0 <= i < n && id in near[i] && ScoreOf(dist(embeddings[i], v)) == seen
  {
    if n > 0 { SeenIsScore(embeddings, near, dist, id, v, n - 1); }
  }

  lemma {:induction false} SeenAtLeast(embeddings: seq<Vector>, near: seq<set<string>>, dist: Distance, id: string,
                                     v: Vector, n: nat, i: nat)
    requires i < n <= |embeddings| && n <= |near| && id in near[i] && dist(embeddings[i], v).Some?
    ensures var seen := SeenScore(embeddings, near, dist, id, v, n);
            seen.Some? && seen.value >= ScoreOf(dist(embeddings[i], v)).value
  {
    if i < n - 1 { SeenAtLeast(embeddings, near, dist, id, v, n - 1, i); }
  }

  /** The score of a result: one less half the least of its distances to the query embeddings whose queries returned
      it. */
  ghost predicate ScoredBySeen(rows: map<string, Vector>, q: Query, near: seq<set<string>>, dist: Distance, hit: Hit)
    requires |near| == |q.embeddings| && hit.id in rows
  {
    var v := rows[hit.id];
    && (exists i :: 0 <= i < |near| && hit.id in near[i] && dist(q.embeddings[i], v) == Some(2.0 - 2.0 * hit.score))
    && (forall i | 0 <= i < |near| && hit.id in near[i] && dist(q.embeddings[i], v).Some? ::
          2.0 - 2.0 * hit.score <= dist(q.embeddings[i], v).value)
  }

  lemma SeenIsLeast(q: Query, rows: map<string, Vector>, near: seq<set<string>>, dist: Distance, hit: Hit)
    requires |near| == |q.embeddings| && hit.id in rows
    requires SeenScore(q.embeddings, near, dist, hit.id, rows[hit.id], |near|) == Some(hit.score)
    ensures ScoredBySeen(rows, q, near, dist, hit)
  {
    var v := rows[hit.id];
    SeenIsScore(q.embeddings, near, dist, hit.id, v, |near|);
    var i :| 0 <= i < |near| && hit.id in near[i] && ScoreOf(dist(q.embeddings[i], v)) == Some(hit.score);
    assert dist(q.embeddings[i], v) == Some(2.0 - 2.0 * hit.score);
    forall j | 0 <= j < |near| && hit.id in near[j] && dist(q.embeddings[j], v).Some?
      ensures 2.0 - 2.0 * hit.score <= dist(q.embeddings[j], v).value
    {
      SeenAtLeast(q.embeddings, near, dist, hit.id, v, |near|, j);
    }
  }

  /** Whatever the nearest-neighbour answers: the results are distinct candidates, best first and at most `limit`, each
      scored by its least distance in the queries that returned it, and never above its best score. */
  lemma SearchSound(t: Tables, q: Query, near: seq<set<string>>, dist: Distance, eq: CharEq, hits: seq<Hit>)
    requires t.vec.Some? && MayReturn(t, q, near, dist, eq, Found(hits))
    ensures |hits| <= q.limit && Distinct(Ids(hits)) && BestFirst(hits)
    ensures forall k | 0 <= k < |hits| ::
              && hits[k].id in Candidates(t, t.vec.value.rows, q, eq)
              && ScoredBySeen(t.vec.value.rows, q, near, dist, hits[k])
              && hits[k].id in BestScores(t, t.vec.value.rows, q, dist, eq)
              && hits[k].score <= BestScores(t, t.vec.value.rows, q, dist, eq)[hits[k].id]
  {
    var rows := t.vec.value.rows;
    var ids := Ids(hits);
    forall k | 0 <= k < |hits|
      ensures hits[k].id in Candidates(t, rows, q, eq)
      ensures ScoredBySeen(rows, q, near, dist, hits[k])
      ensures hits[k].id in BestScores(t, rows, q, dist, eq)
              && hits[k].score <= BestScores(t, rows, q, dist, eq)[hits[k].id]
    {
      var id := ids[k];
      SeenIsLeast(q, rows, near, dist, hits[k]);
      SeenIsScore(q.embeddings, near, dist, id, rows[id], |near|);
    }
  }

  // ---------------------------------------------------------------------------
  // Exactness
  // ---------------------------------------------------------------------------

  /** No distance between a query and a stored vector is undefined. */
  ghost predicate NonDegenerate(rows: map<string, Vector>, q: Query, dist: Distance) {
    forall i, id | 0 <= i < |q.embeddings| && id in rows :: dist(q.embeddings[i], rows[id]).Some?
  }

  lemma {:induction false} BestAttained(embeddings: seq<Vector>, dist: Distance, v: Vector, n: nat) returns (i: nat)
    requires 0 < n <= |embeddings| && forall j | 0 <= j < n :: dist(embeddings[j], v).Some?
    ensures i < n && BestScore(embeddings, dist, v, n) == ScoreOf(dist(embeddings[i], v))
  {
    if n == 1 {
      i := 0;
      assert BestScore(embeddings, dist, v, 0) == None;
    } else {
      i := BestAttained(embeddings, dist, v, n - 1);
      var earlier := BestScore(embeddings, dist, v, n - 1);
      if Better(earlier, ScoreOf(dist(embeddings[n - 1], v))) != earlier {
        i := n - 1;
      }
    }
  }

  /** What counts as the best score of a chunk is the highest of its scores over all query embeddings. */
  lemma {:induction false} BestIsMaximum(embeddings: seq<Vector>, dist: Distance, v: Vector, n: nat, i: nat)
    requires i < n <= |embeddings| && dist(embeddings[i], v).Some?
    ensures var best := BestScore(embeddings, dist, v, n);
            && best.Some? && best.value >= ScoreOf(dist(embeddings[i], v)).value
            && exists j :: 0 <= j < n && ScoreOf(dist(embeddings[j], v)) == best
  {
    if i < n - 1 {
      BestIsMaximum(embeddings, dist, v, n - 1, i);
      var j :| 0 <= j < n - 1 && ScoreOf(dist(embeddings[j], v)) == BestScore(embeddings, dist, v, n - 1);
    } else if BestScore(embeddings, dist, v, n - 1).Some? {
      var j := BestComes(embeddings, dist, v, n - 1);
    }
  }

  lemma {:induction false} BestComes(embeddings: seq<Vector>, dist: Distance, v: Vector, n: nat) returns (j: nat)
    requires n <= |embeddings| && BestScore(embeddings, dist, v, n).Some?
    ensures j < n && ScoreOf(dist(embeddings[j], v)) == BestScore(embeddings, dist, v, n)
  {
    if BestScore(embeddings, dist, v, n) == ScoreOf(dist(embeddings[n - 1], v)) {
      j := n - 1;
    } else {
      j := BestComes(embeddings, dist, v, n - 1);
    }
  }

  lemma PartSizes(near: set<string>, all: set<string>, pass: set<string>)
    requires near <= all && pass <= all
    ensures |near * pass| >= |near| - (|all| - |pass|)
  {
    SubsetSize(near - pass, all - pass);
    assert near == (near * pass) + (near - pass);
    assert all == pass + (all - pass);
  }

  /** The neighbours asked for cannot all be spent on chunks the filters drop. */
  predicate Enough(rows: map<string, Vector>, candidates: set<string>, q: Query) {
    Min(q.limit, |candidates|) == 0 || |rows.Keys| - |candidates| + Min(q.limit, |candidates|) <= FetchK(q)
  }

  /** A candidate that one query leaves out stands behind `limit` others there. */
  lemma LeftOutIsCrowded(rows: map<string, Vector>, near: set<string>, pass: set<string>, q: Query, c: string)
    requires near <= rows.Keys && |near| == Min(FetchK(q), |rows|) && pass <= rows.Keys
    requires Enough(rows, pass, q) && c in pass && c !in near
    ensures |near * pass| >= q.limit
  {
    assert |rows| == |rows.Keys|;
    SubsetSize(near, rows.Keys);
    PartSizes(near, rows.Keys, pass);
    SubsetSize(near * pass, pass);
    assert near * pass != pass;
  }

  lemma ScoreSuffices(t: Tables, vec: VecTable, q: Query, near: seq<set<string>>, dist: Distance, eq: CharEq, c: string)
    requires DimsMatch(vec, q) && AllNearest(vec, dist, q, near) && NonDegenerate(vec.rows, q, dist)
    requires q.embeddings != [] && Enough(vec.rows, Candidates(t, vec.rows, q, eq), q)
    requires c in BestScores(t, vec.rows, q, dist, eq)
    ensures Exact(SeenScores(t, vec.rows, q, near, dist, eq), BestScores(t, vec.rows, q, dist, eq), c)
            || Crowded(SeenScores(t, vec.rows, q, near, dist, eq), BestScores(t, vec.rows, q, dist, eq)[c], q.limit)
  {
    var rows, seen := vec.rows, SeenScores(t, vec.rows, q, near, dist, eq);
    var v := rows[c];
    var i := BestAttained(q.embeddings, dist, v, |near|);
    assert IsNearest(rows, dist, q.embeddings[i], FetchK(q), near[i]);
    if c in near[i] {
      SeenAtLeast(q.embeddings, near, dist, c, v, |near|, i);
      SeenIsScore(q.embeddings, near, dist, c, v, |near|);
    } else {
      var pass := Candidates(t, rows, q, eq);
      var y := near[i] * pass;
      LeftOutIsCrowded(rows, near[i], pass, q, c);
      forall id | id in y
        ensures id in seen && seen[id] >= BestScores(t, rows, q, dist, eq)[c]
      {
        SeenAtLeast(q.embeddings, near, dist, id, rows[id], |near|, i);
      }
      assert Beats(seen, y, BestScores(t, rows, q, dist, eq)[c]);
    }
  }

  /** Search refines brute force: when the neighbours asked for suffice, what is returned is a best-first choice
      of `limit` chunks by their true best scores, and shows these scores. */
  lemma SearchExact(t: Tables, vec: VecTable, q: Query, near: seq<set<string>>, dist: Distance, eq: CharEq,
                    hits: seq<Hit>)
    requires t.vec == Some(vec) && DimsMatch(vec, q) && AllNearest(vec, dist, q, near)
    requires q.embeddings != [] && NonDegenerate(vec.rows, q, dist)
    requires Enough(vec.rows, Candidates(t, vec.rows, q, eq), q)
    requires MayReturn(t, q, near, dist, eq, Found(hits))
    ensures Answers(t, q, hits, BestScores(t, vec.rows, q, dist, eq))
  {
    var seen, best := SeenScores(t, vec.rows, q, near, dist, eq), BestScores(t, vec.rows, q, dist, eq);
    assert forall id | id in seen :: id in best && seen[id] <= best[id] by {
      forall id | id in seen
        ensures id in best && seen[id] <= best[id]
      {
        SeenIsScore(q.embeddings, near, dist, id, vec.rows[id], |near|);
      }
    }
    forall c | c in best
      ensures Exact(seen, best, c) || Crowded(seen, best[c], q.limit)
    {
      ScoreSuffices(t, vec, q, near, dist, eq, c);
    }
    assert seen.Keys <= best.Keys;
    assert Suffices(seen, best, q.limit);
    TopOfSeen(Ids(hits), seen, best, q.limit);
  }

  /** `d` is the least distance of a stored vector to one of the query embeddings. */
  ghost predicate IsLeast(embeddings: seq<Vector>, dist: Distance, v: Vector, d: real) {
    && (exists i :: 0 <= i < |embeddings| && dist(embeddings[i], v) == Some(d))
    && (forall i | 0 <= i < |embeddings| && dist(embeddings[i], v).Some? :: d <= dist(embeddings[i], v).value)
  }

  /** The best score stands for the least distance, 1 for the same direction and 0 for the opposite one. */
  lemma BestIsLeast(embeddings: seq<Vector>, dist: Distance, v: Vector) returns (d: real)
    requires embeddings != [] && forall i | 0 <= i < |embeddings| :: dist(embeddings[i], v).Some?
    ensures IsLeast(embeddings, dist, v, d)
    ensures BestScore(embeddings, dist, v, |embeddings|) == Some(1.0 - d / 2.0)
  {
    var i := BestAttained(embeddings, dist, v, |embeddings|);
    d := dist(embeddings[i], v).value;
    forall j | 0 <= j < |embeddings|
      ensures d <= dist(embeddings[j], v).value
    {
      BestIsMaximum(embeddings, dist, v, |embeddings|, j);
    }
  }

  /** The distance of a stored chunk is no greater than that of another, each by its nearest query embedding. */
  ghost predicate NoFarther(rows: map<string, Vector>, q: Query, dist: Distance, near: string, far: string)
    requires near in rows && far in rows
  {
    forall d, e | IsLeast(q.embeddings, dist, rows[near], d) && IsLeast(q.embeddings, dist, rows[far], e) :: d <= e
  }

  lemma ScoresAreDistances(t: Tables, vec: VecTable, q: Query, dist: Distance, eq: CharEq, a: string, b: string)
    requires q.embeddings != [] && NonDegenerate(vec.rows, q, dist) && a in vec.rows && b in vec.rows
    requires var best := BestScores(t, vec.rows, q, dist, eq); a in best && b in best && best[a] >= best[b]
    ensures NoFarther(vec.rows, q, dist, a, b)
  {
    var d := BestIsLeast(q.embeddings, dist, vec.rows[a]);
    var e := BestIsLeast(q.embeddings, dist, vec.rows[b]);
  }

  /** Where no distance is undefined every candidate has a score. */
  lemma AllScored(t: Tables, vec: VecTable, q: Query, dist: Distance, eq: CharEq)
    requires q.embeddings != [] && NonDegenerate(vec.rows, q, dist)
    ensures BestScores(t, vec.rows, q, dist, eq).Keys == Candidates(t, vec.rows, q, eq)
    ensures |BestScores(t, vec.rows, q, dist, eq)| == |Candidates(t, vec.rows, q, eq)|
  {
    var best := BestScores(t, vec.rows, q, dist, eq);
    forall id | id in Candidates(t, vec.rows, q, eq)
      ensures id in best
    {
      var d := BestIsLeast(q.embeddings, dist, vec.rows[id]);
    }
    assert best.Keys == Candidates(t, vec.rows, q, eq);
    assert |best| == |best.Keys|;
  }

  /** A result is scored one less half its distance. */
  ghost predicate ScoredByDistance(rows: map<string, Vector>, q: Query, dist: Distance, hit: Hit) {
    hit.id in rows && exists d :: IsLeast(q.embeddings, dist, rows[hit.id], d) && hit.score == 1.0 - d / 2.0
  }

  lemma AnswerIsScored(t: Tables, vec: VecTable, q: Query, dist: Distance, eq: CharEq, hits: seq<Hit>, k: nat)
    requires q.embeddings != [] && NonDegenerate(vec.rows, q, dist) && k < |hits|
    requires Answers(t, q, hits, BestScores(t, vec.rows, q, dist, eq))
    ensures hits[k].id in Candidates(t, vec.rows, q, eq) && ScoredByDistance(vec.rows, q, dist, hits[k])
  {
    var best := BestScores(t, vec.rows, q, dist, eq);
    assert Ids(hits)[k] in best && hits[k].score == best[hits[k].id];
    var d := BestIsLeast(q.embeddings, dist, vec.rows[hits[k].id]);
  }

  /** So, when the neighbours asked for suffice, a search returns the chunks nearest to the query embeddings, as many as
      the limit allows of those that pass the filters, nearest first, with a score of one less half the distance. */
  lemma NearestFirst(t: Tables, vec: VecTable, q: Query, near: seq<set<string>>, dist: Distance, eq: CharEq,
                     hits: seq<Hit>)
    requires t.vec == Some(vec) && DimsMatch(vec, q) && AllNearest(vec, dist, q, near)
    requires q.embeddings != [] && NonDegenerate(vec.rows, q, dist)
    requires Enough(vec.rows, Candidates(t, vec.rows, q, eq), q)
    requires MayReturn(t, q, near, dist, eq, Found(hits))
    ensures |hits| == Min(q.limit, |Candidates(t, vec.rows, q, eq)|)
    ensures forall k | 0 <= k < |hits| ::
              hits[k].id in Candidates(t, vec.rows, q, eq) && ScoredByDistance(vec.rows, q, dist, hits[k])
    ensures forall j, k | 0 <= j < k < |hits| ::
              hits[j].id != hits[k].id && NoFarther(vec.rows, q, dist, hits[j].id, hits[k].id)
    ensures forall c, k | c in Candidates(t, vec.rows, q, eq) && 0 <= k < |hits| && c !in Ids(hits) ::
              NoFarther(vec.rows, q, dist, hits[k].id, c)
  {
    SearchExact(t, vec, q, near, dist, eq, hits);
    AllScored(t, vec, q, dist, eq);
    forall k | 0 <= k < |hits|
      ensures hits[k].id in Candidates(t, vec.rows, q, eq) && ScoredByDistance(vec.rows, q, dist, hits[k])
    {
      AnswerIsScored(t, vec, q, dist, eq, hits, k);
    }
    AnswerIsOrdered(t, vec, q, dist, eq, hits);
  }

  lemma AnswerIsOrdered(t: Tables, vec: VecTable, q: Query, dist: Distance, eq: CharEq, hits: seq<Hit>)
    requires q.embeddings != [] && NonDegenerate(vec.rows, q, dist)
    requires Answers(t, q, hits, BestScores(t, vec.rows, q, dist, eq))
    ensures forall k | 0 <= k < |hits| :: hits[k].id in vec.rows
    ensures forall j, k | 0 <= j < k < |hits| ::
              hits[j].id != hits[k].id && NoFarther(vec.rows, q, dist, hits[j].id, hits[k].id)
    ensures forall c, k | c in Candidates(t, vec.rows, q, eq) && 0 <= k < |hits| && c !in Ids(hits) ::
              NoFarther(vec.rows, q, dist, hits[k].id, c)
  {
    var best, ids := BestScores(t, vec.rows, q, dist, eq), Ids(hits);
    AllScored(t, vec, q, dist, eq);
    forall j, k | 0 <= j < k < |hits|
      ensures hits[j].id != hits[k].id && NoFarther(vec.rows, q, dist, hits[j].id, hits[k].id)
    {
      assert ids[j] != ids[k];
      ScoresAreDistances(t, vec, q, dist, eq, ids[j], ids[k]);
    }
    forall c, k | c in best && 0 <= k < |hits| && c !in ids
      ensures NoFarther(vec.rows, q, dist, hits[k].id, c)
    {
      assert best[c] <= best[ids[k]];
      ScoresAreDistances(t, vec, q, dist, eq, ids[k], c);
    }
  }

  ghost predicate Possible(t: Tables, vec: VecTable, q: Query, eq: CharEq, near: seq<set<string>>, dist: Distance,
                           hits: seq<Hit>) {
    AllNearest(vec, dist, q, near) && NonDegenerate(vec.rows, q, dist) && MayReturn(t, q, near, dist, eq, Found(hits))
  }

  /** Whatever the distances and whichever of equally near chunks are returned, the search is exact. */
  ghost predicate AlwaysExact(t: Tables, vec: VecTable, q: Query, eq: CharEq) {
    forall near, dist, hits :: Possible(t, vec, q, eq, near, dist, hits)
        ==> Answers(t, q, hits, BestScores(t, vec.rows, q, dist, eq))
  }

  lemma {:induction false} PickSubset(s: set<string>, n: nat) returns (y: set<string>)
    requires n <= |s|
    ensures y <= s && |y| == n
  {
    if n == 0 {
      y := {};
    } else {
      var x :| x in s;
      var rest := PickSubset(s - {x}, n - 1);
      y := rest + {x};
    }
  }

  lemma {:induction false} PickListing(s: set<string>, n: nat) returns (ids: seq<string>)
    requires n <= |s|
    ensures |ids| == n && Distinct(ids) && forall k | 0 <= k < n :: ids[k] in s
  {
    if n == 0 {
      ids := [];
    } else {
      var x :| x in s;
      var rest := PickListing(s - {x}, n - 1);
      ids := rest + [x];
    }
  }

  lemma {:induction false} SameSeen(embeddings: seq<Vector>, near: seq<set<string>>, chosen: set<string>,
                                    dist: Distance, id: string, v: Vector, n: nat)
    requires n <= |embeddings| && n <= |near|
    requires forall i | 0 <= i < n :: near[i] == chosen && dist(embeddings[i], v) == Some(1.0)
    ensures SeenScore(embeddings, near, dist, id, v, n) == if n > 0 && id in chosen then Some(0.5) else None
    ensures BestScore(embeddings, dist, v, n) == if n > 0 then Some(0.5) else None
  {
    if n > 0 { SameSeen(embeddings, near, chosen, dist, id, v, n - 1); }
  }

  lemma TiedScores(t: Tables, vec: VecTable, q: Query, eq: CharEq, near: seq<set<string>>, chosen: set<string>,
                   dist: Distance)
    requires |near| == |q.embeddings| > 0 && forall i | 0 <= i < |near| :: near[i] == chosen
    requires forall u, v :: dist(u, v) == Some(1.0)
    ensures var seen, pass := SeenScores(t, vec.rows, q, near, dist, eq), Candidates(t, vec.rows, q, eq);
            && seen.Keys == chosen * pass && (forall id | id in seen :: seen[id] == 0.5)
            && BestScores(t, vec.rows, q, dist, eq).Keys == pass
  {
    forall id | id in vec.rows
      ensures SeenScore(q.embeddings, near, dist, id, vec.rows[id], |near|) == if id in chosen then Some(0.5) else None
      ensures BestScore(q.embeddings, dist, vec.rows[id], |near|) == Some(0.5)
    {
      SameSeen(q.embeddings, near, chosen, dist, id, vec.rows[id], |near|);
    }
  }

  /** An answer when all distances are equal and the queries all return `chosen`. */
  lemma TiedAnswer(t: Tables, vec: VecTable, q: Query, eq: CharEq, near: seq<set<string>>, chosen: set<string>,
                   dist: Distance)
      returns (hits: seq<Hit>)
    requires t.vec == Some(vec) && DimsMatch(vec, q) && |near| == |q.embeddings| > 0
    requires forall i | 0 <= i < |near| :: near[i] == chosen
    requires forall u, v :: dist(u, v) == Some(1.0)
    ensures MayReturn(t, q, near, dist, eq, Found(hits))
            && |hits| == Min(q.limit, |chosen * Candidates(t, vec.rows, q, eq)|)
    ensures BestScores(t, vec.rows, q, dist, eq).Keys == Candidates(t, vec.rows, q, eq)
  {
    var seen := SeenScores(t, vec.rows, q, near, dist, eq);
    TiedScores(t, vec, q, eq, near, chosen, dist);
    hits := EqualTop(t, q, seen);
  }

  lemma EqualTop(t: Tables, q: Query, scores: Scores) returns (hits: seq<Hit>)
    requires forall id | id in scores :: id in t.chunks && scores[id] == 0.5
    ensures Answers(t, q, hits, scores) && |hits| == Min(q.limit, |scores.Keys|)
  {
    assert |scores| == |scores.Keys|;
    var ids := PickListing(scores.Keys, Min(q.limit, |scores.Keys|));
    hits := seq(|ids|, k requires 0 <= k < |ids| && ids[k] in t.chunks => HitOf(t, ids[k], 0.5));
    assert Ids(hits) == ids;
  }

  /** As many chunks the filters drop as possible, then others. */
  lemma WorstNear(all: set<string>, pass: set<string>, k: nat, least: nat) returns (chosen: set<string>)
    requires pass <= all && 0 < least <= |pass| && |all| - |pass| + least > k
    ensures chosen <= all && |chosen| == Min(k, |all|) && |chosen * pass| < least
  {
    var fail := all - pass;
    assert all == fail + pass;
    if k <= |fail| {
      chosen := PickSubset(fail, k);
      assert chosen * pass == {};
    } else {
      var some := PickSubset(pass, k - |fail|);
      chosen := fail + some;
      assert chosen * pass == some;
    }
  }

  lemma TiedNearest(vec: VecTable, q: Query, near: seq<set<string>>, chosen: set<string>, dist: Distance)
    requires |near| == |q.embeddings| && forall i | 0 <= i < |near| :: near[i] == chosen
    requires forall u, v :: dist(u, v) == Some(1.0)
    requires chosen <= vec.rows.Keys && |chosen| == Min(FetchK(q), |vec.rows.Keys|)
    ensures AllNearest(vec, dist, q, near) && NonDegenerate(vec.rows, q, dist)
  {
    assert |vec.rows| == |vec.rows.Keys|;
  }

  /** With too few neighbours asked for, some answers miss results. */
  lemma CrowdedOut(t: Tables, vec: VecTable, q: Query, eq: CharEq)
        returns (near: seq<set<string>>, dist: Distance, hits: seq<Hit>)
    requires t.vec == Some(vec) && DimsMatch(vec, q) && q.embeddings != []
    requires !Enough(vec.rows, Candidates(t, vec.rows, q, eq), q)
    ensures Possible(t, vec, q, eq, near, dist, hits)
    ensures |hits| < Min(q.limit, |BestScores(t, vec.rows, q, dist, eq)|)
  {
    var pass := Candidates(t, vec.rows, q, eq);
    var chosen := WorstNear(vec.rows.Keys, pass, FetchK(q), Min(q.limit, |pass|));
    dist := (u, v) => Some(1.0);
    near := seq(|q.embeddings|, i => chosen);
    hits := TiedAnswer(t, vec, q, eq, near, chosen, dist);
    TiedNearest(vec, q, near, chosen, dist);
    assert |BestScores(t, vec.rows, q, dist, eq)| == |BestScores(t, vec.rows, q, dist, eq).Keys|;
  }

  /** The condition is the weakest possible: without it equally distant chunks that the filters drop can
      already crowd out results. */
  lemma ExactIff(t: Tables, vec: VecTable, q: Query, eq: CharEq)
    requires t.vec == Some(vec) && DimsMatch(vec, q) && q.embeddings != []
    ensures AlwaysExact(t, vec, q, eq) <==> Enough(vec.rows, Candidates(t, vec.rows, q, eq), q)
  {
    if Enough(vec.rows, Candidates(t, vec.rows, q, eq), q) {
      forall near, dist, hits | Possible(t, vec, q, eq, near, dist, hits)
        ensures Answers(t, q, hits, BestScores(t, vec.rows, q, dist, eq))
      {
        SearchExact(t, vec, q, near, dist, eq, hits);
      }
    } else {
      var near, dist, hits := CrowdedOut(t, vec, q, eq);
      assert !Answers(t, q, hits, BestScores(t, vec.rows, q, dist, eq));
    }
  }

  // ---------------------------------------------------------------------------
  // Over an index in its invariant
  // ---------------------------------------------------------------------------

  predicate EntryPasses(m: Model, q: Query, eq: CharEq, p: string)
    requires p in m
  {
    InScope(q.scope, q.username, q.agentId, p, eq) && (q.rawOnly ==> m[p].source == "raw")
  }

  /** What may be found are exactly the chunks of the indexed files that pass the filters, each with the vector
      it was inserted with. */
  lemma CandidatesAre(t: Tables, m: Model, vec: VecTable, q: Query, eq: CharEq, p: string, i: nat)
    requires Represents(t, m) && t.vec == Some(vec) && p in m && i < |m[p].chunks|
    ensures ChunkId(p, i) in vec.rows && vec.rows[ChunkId(p, i)] == m[p].chunks[i].embedding
    ensures ChunkId(p, i) in Candidates(t, vec.rows, q, eq) <==> EntryPasses(m, q, eq, p)
  {
    assert VecView(m)[p][i] == m[p].chunks[i].embedding;
    assert ChunkView(m)[p][i].path == p;
    assert t.files[p] == FileView(m)[p];
  }

  lemma RowOrigin(t: Tables, m: Model, vec: VecTable, id: string) returns (p: string, i: nat)
    requires Represents(t, m) && t.vec == Some(vec) && id in vec.rows
    ensures p in m && i < |m[p].chunks| && id == ChunkId(p, i)
  {
    assert IsIdIn(VecView(m), id);
    p :| p in VecView(m) && IsIdOf(p, |VecView(m)[p]|, id);
    i :| 0 <= i < |VecView(m)[p]| && id == ChunkId(p, i);
  }

  /** A search of everything always asks for enough neighbours, and restricted to raw memories, which does not make it
      ask for more, exactly if nothing can be found, everything fits the limit or nothing fails the filter; one with a
      scope does exactly if the chunks that fail the filters leave room for the results among ten times the limit, so
      when no more than nine times the limit of the stored chunks fail the filters. */
  lemma WhenEnough(t: Tables, m: Model, vec: VecTable, q: Query, eq: CharEq)
    requires Represents(t, m) && t.vec == Some(vec)
    ensures q.scope == All ==>
              (Enough(vec.rows, Candidates(t, vec.rows, q, eq), q)
               <==> || Min(q.limit, |Candidates(t, vec.rows, q, eq)|) == 0 || |vec.rows.Keys| <= q.limit
                    || Candidates(t, vec.rows, q, eq) == vec.rows.Keys)
    ensures q.scope == All && !q.rawOnly ==> Enough(vec.rows, Candidates(t, vec.rows, q, eq), q)
    ensures q.scope != All && 10 * q.limit <= 0xFFFF_FFFF_FFFF_FFFF ==>
              var least := Min(q.limit, |Candidates(t, vec.rows, q, eq)|);
              (Enough(vec.rows, Candidates(t, vec.rows, q, eq), q)
               <==> least == 0 || |vec.rows.Keys| - |Candidates(t, vec.rows, q, eq)| + least <= 10 * q.limit)
    ensures q.scope != All && 10 * q.limit <= 0xFFFF_FFFF_FFFF_FFFF
            && |vec.rows.Keys| - |Candidates(t, vec.rows, q, eq)| <= 9 * q.limit
            ==> Enough(vec.rows, Candidates(t, vec.rows, q, eq), q)
  {
    if q.scope == All && !q.rawOnly {
      forall id | id in vec.rows
        ensures id in Candidates(t, vec.rows, q, eq)
      {
        var p, i := RowOrigin(t, m, vec, id);
        CandidatesAre(t, m, vec, q, eq, p, i);
        AllScopeIsEverything(q.username, q.agentId, p, eq);
      }
      assert Candidates(t, vec.rows, q, eq) == vec.rows.Keys;
    }
    SubsetSize(Candidates(t, vec.rows, q, eq), vec.rows.Keys);
  }

  /** In user scope every result lies under the directory of the user, up to what the database takes for equal. */
  lemma HitsInUserScope(t: Tables, q: Query, near: seq<set<string>>, dist: Distance, eq: CharEq, hits: seq<Hit>, k: nat)
    requires t.vec.Some? && MayReturn(t, q, near, dist, eq, Found(hits)) && k < |hits|
    requires q.scope == User
    ensures PrefixEq(q.username + ['/'], hits[k].path, eq)
  {
    SearchSound(t, q, near, dist, eq, hits);
    UserScopeIsPrefix(q.username, q.agentId, hits[k].path, eq);
  }

  // ---------------------------------------------------------------------------
  // The short cuts
  // ---------------------------------------------------------------------------

  /** A search with no query embedding returns nothing. */
  lemma NoEmbeddings(t: Tables, q: Query, near: seq<set<string>>, dist: Distance, eq: CharEq, r: SearchOutcome)
    requires q.embeddings == [] && MayReturn(t, q, near, dist, eq, r)
    ensures r == Found([])
  {
    if t.vec.Some? {
      var seen := SeenScores(t, t.vec.value.rows, q, near, dist, eq);
      assert forall id :: SeenAt(t, t.vec.value.rows, q, near, dist, eq, 0, id) == None;
      assert seen == map[];
      assert |Ids(r.hits)| == 0;
    }
  }

  /** A search of an index without chunks returns nothing, except that the vector table still rejects query
      vectors of another dimension; so the short cut returns what the full search does exactly when the
      dimensions match. */
  lemma NoChunks(t: Tables, m: Model, q: Query, near: seq<set<string>>, dist: Distance, eq: CharEq, r: SearchOutcome)
    requires Represents(t, m) && t.chunks == map[] && MayReturn(t, q, near, dist, eq, r)
    ensures r == Found([]) <==> t.vec.None? || DimsMatch(t.vec.value, q)
  {
    if t.vec.Some? && DimsMatch(t.vec.value, q) {
      var seen := SeenScores(t, t.vec.value.rows, q, near, dist, eq);
      assert seen == map[];
      assert |Ids(r.hits)| == 0;
    }
  }

  /** A query text leads to no query embedding exactly when it is blank, whatever the chunk size. */
  lemma NoQueryChunks(query: string, size: nat, overlap: nat)
    ensures Chunks(query, size, overlap) == [] <==> Trim(query) == []
  {
    NoChunksIffBlank(query, size, overlap);
    TrimEmpty(query);
  }

  /** What the vector table answers while it is empty. */
  function NoneNear(q: Query): seq<set<string>> {
    seq(|q.embeddings|, i => {})
  }

  /** The search request. It asks the index twice, whether it is empty and then for the search, and other requests may
      run in between: `first` and `second` are the index at these two messages. `embeddings` is the validated answer of
      the embedder, none if it failed; `near` are the answers of the vector table to the second message. */
  method HandleSearch(first: Indexer, second: Indexer, query: string, size: nat, overlap: nat,
                      embeddings: Option<seq<Vector>>, username: string, agentId: string, scope: Scope, rawOnly: bool,
                      near: seq<set<string>>, dist: Distance, eq: CharEq)
      returns (r: SearchOutcome)
    requires Represents(first.db, first.model)
    requires embeddings.Some? ==> |embeddings.value| == |Chunks(query, size, overlap)|
    requires embeddings.Some? && second.db.vec.Some? ==>
               AllNearest(second.db.vec.value, dist,
                          Query(embeddings.value, username, agentId, scope, rawOnly, 20), near)
    ensures Trim(query) == [] || (forall p | p in first.model :: first.model[p].chunks == []) ==> r == Found([])
    ensures r == EmbedFailed <==>
            Trim(query) != [] && (exists p :: p in first.model && first.model[p].chunks != []) && embeddings.None?
    ensures embeddings.Some? ==>
              var q := Query(embeddings.value, username, agentId, scope, rawOnly, 20);
              if Trim(query) == [] || first.db.chunks != map[] then MayReturn(second.db, q, near, dist, eq, r)
              else
                r == Found([])
                && (MayReturn(first.db, q, NoneNear(q), dist, eq, r)
                    || (first.db.vec.Some? && !DimsMatch(first.db.vec.value, q)))
  {
    NoQueryChunks(query, size, overlap);
    if Trim(query) == [] {
      r := Found([]);
      if embeddings.Some? {
        BlankReturns(second.db, Query([], username, agentId, scope, rawOnly, SEARCH_LIMIT), near, dist, eq);
      }
      return;
    }
    var empty := first.IsEmpty();
    EmptyIff(first.db, first.model);
    if empty {
      r := Found([]);
      if embeddings.Some? {
        var q := Query(embeddings.value, username, agentId, scope, rawOnly, SEARCH_LIMIT);
        EmptyReturns(first.db, first.model, q, NoneNear(q), dist, eq);
      }
      return;
    }
    var texts := ChunkText(query, size, overlap);
    if texts == [] {
      return Found([]);
    }
    if embeddings.None? {
      return EmbedFailed;
    }
    r := DoSearch(second.db, Query(embeddings.value, username, agentId, scope, rawOnly, SEARCH_LIMIT), near, dist, eq);
  }

  lemma BlankReturns(t: Tables, q: Query, near: seq<set<string>>, dist: Distance, eq: CharEq)
    requires q.embeddings == [] && (t.vec.Some? ==> near == [])
    ensures MayReturn(t, q, near, dist, eq, Found([]))
  {
    if t.vec.Some? {
      assert forall id :: SeenAt(t, t.vec.value.rows, q, near, dist, eq, 0, id) == None;
      assert SeenScores(t, t.vec.value.rows, q, near, dist, eq) == map[];
    }
  }

  lemma EmptyReturns(t: Tables, m: Model, q: Query, near: seq<set<string>>, dist: Distance, eq: CharEq)
    requires Represents(t, m) && t.chunks == map[] && (t.vec.Some? ==> |near| == |q.embeddings|)
    ensures t.vec.None? || DimsMatch(t.vec.value, q) ==> MayReturn(t, q, near, dist, eq, Found([]))
  {
    if t.vec.Some? { assert SeenScores(t, t.vec.value.rows, q, near, dist, eq) == map[]; }
  }
}
