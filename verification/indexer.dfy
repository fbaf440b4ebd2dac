// The chunk index: SQL tables kept in step by transactions, and the lazily created vector table
// (memory/indexer.rs).
module Index {
  import opened Text
  import opened Embeddings

  datatype FileRow = FileRow(source: string, size: nat)
  datatype ChunkRow = ChunkRow(path: string, startLine: nat, endLine: nat, model: string, text: string)
  datatype VecTable = VecTable(dim: nat, rows: map<string, Vector>)

  /** The tables `files`, `chunks`, `chunks_fts` and `chunks_vec`, and the dimension recorded in `meta`. */
  datatype Tables = Tables(
    files: map<string, FileRow>,
    chunks: map<string, ChunkRow>,
    fts: map<string, ChunkRow>,
    vec: Option<VecTable>,
    dim: Option<nat>)

  /** What one insert stores for a path. */
  datatype Entry = Entry(source: string, size: nat, model: string, chunks: seq<Chunk>)
  type Model = map<string, Entry>

  datatype IndexResult = Ok | DimensionMismatch(stored: nat, received: nat) | SqlError

  const EMPTY: Tables := Tables(map[], map[], map[], None, None)

  // ---------------------------------------------------------------------------
  // Chunk ids
  // ---------------------------------------------------------------------------

  function ChunkId(path: string, i: nat): string {
    path + ['#'] + Decimal(i)
  }

  lemma NoHash(s: string)
    requires AllDigits(s)
    ensures '#' !in s
  {}

  /** A chunk id names one path and one position, even for paths that contain `#`. */
  lemma ChunkIdInjective(p: string, i: nat, q: string, j: nat)
    ensures ChunkId(p, i) == ChunkId(q, j) <==> p == q && i == j
  {
    if ChunkId(p, i) == ChunkId(q, j) {
      NoHash(Decimal(i));
      NoHash(Decimal(j));
      SplitLastUnique(p, Decimal(i), q, Decimal(j), '#');
      DecimalRoundTrip(i);
      DecimalRoundTrip(j);
    }
  }

  // ---------------------------------------------------------------------------
  // Tables keyed by chunk id
  // ---------------------------------------------------------------------------

  predicate IsIdOf(path: string, n: nat, id: string) {
    exists i | 0 <= i < n :: id == ChunkId(path, i)
  }

  ghost predicate IsIdIn<T>(view: map<string, seq<T>>, id: string) {
    exists p | p in view :: IsIdOf(p, |view[p]|, id)
  }

  /** `table` holds exactly the rows of `view`: row `i` of path `p` under the id of `p` and `i`. */
  ghost predicate Holds<T>(table: map<string, T>, view: map<string, seq<T>>) {
    && (forall p, i | p in view && 0 <= i < |view[p]| :: ChunkId(p, i) in table && table[ChunkId(p, i)] == view[p][i])
    && (forall id | id in table :: IsIdIn(view, id))
  }

  function IdsOf(path: string, n: nat): set<string> {
    set i | 0 <= i < n :: ChunkId(path, i)
  }

  lemma IdsOfIff(path: string, n: nat, id: string)
    ensures id in IdsOf(path, n) <==> IsIdOf(path, n, id)
  {}

  lemma OtherId(p: string, n: nat, path: string, i: nat)
    requires p != path
    ensures !IsIdOf(p, n, ChunkId(path, i)) && ChunkId(path, i) !in IdsOf(p, n)
  {
    forall j | 0 <= j < n
      ensures ChunkId(path, i) != ChunkId(p, j)
    {
      ChunkIdInjective(path, i, p, j);
    }
  }

  /** The ids a view has for `path`. */
  function ViewIds<T>(view: map<string, seq<T>>, path: string): set<string> {
    IdsOf(path, if path in view then |view[path]| else 0)
  }

  lemma HoldsRemove<T>(table: map<string, T>, view: map<string, seq<T>>, path: string)
    requires Holds(table, view)
    ensures Holds(table - ViewIds(view, path), view - {path})
  {
    var t, v := table - ViewIds(view, path), view - {path};
    forall p, i | p in v && 0 <= i < |v[p]|
      ensures ChunkId(p, i) in t && t[ChunkId(p, i)] == v[p][i]
    {
      assert view[p][i] == v[p][i];
      OtherId(path, if path in view then |view[path]| else 0, p, i);
    }
    forall id | id in t
      ensures IsIdIn(v, id)
    {
      assert IsIdIn(view, id);
      var p :| p in view && IsIdOf(p, |view[p]|, id);
      IdsOfIff(p, |view[p]|, id);
      assert p in v;
    }
  }

  /** The first `n` rows stored under the ids of `path`. */
  function Fill<T>(table: map<string, T>, path: string, rows: seq<T>, n: nat): map<string, T>
    requires n <= |rows|
  {
    if n == 0 then table else Fill(table, path, rows, n - 1)[ChunkId(path, n - 1) := rows[n - 1]]
  }

  lemma {:induction false} FillKeys<T>(table: map<string, T>, path: string, rows: seq<T>, n: nat, id: string)
    requires n <= |rows|
    ensures id in Fill(table, path, rows, n) <==> id in table || IsIdOf(path, n, id)
    ensures id in table && !IsIdOf(path, n, id) ==> Fill(table, path, rows, n)[id] == table[id]
  {
    if n > 0 {
      FillKeys(table, path, rows, n - 1, id);
      assert IsIdOf(path, n, id) <==> IsIdOf(path, n - 1, id) || id == ChunkId(path, n - 1);
    }
  }

  lemma {:induction false} FillValue<T>(table: map<string, T>, path: string, rows: seq<T>, n: nat, i: nat)
    requires i < n <= |rows|
    ensures ChunkId(path, i) in Fill(table, path, rows, n) && Fill(table, path, rows, n)[ChunkId(path, i)] == rows[i]
  {
    if i < n - 1 {
      FillValue(table, path, rows, n - 1, i);
      ChunkIdInjective(path, i, path, n - 1);
    }
  }

  lemma FillAt<T>(table: map<string, T>, view: map<string, seq<T>>, path: string, rows: seq<T>, p: string, i: nat)
    requires Holds(table, view) && p != path && p in view && i < |view[p]|
    ensures var t := Fill(table, path, rows, |rows|); ChunkId(p, i) in t && t[ChunkId(p, i)] == view[p][i]
  {
    OtherId(path, |rows|, p, i);
    FillKeys(table, path, rows, |rows|, ChunkId(p, i));
  }

  lemma FillIds<T>(table: map<string, T>, view: map<string, seq<T>>, path: string, rows: seq<T>, id: string)
    requires Holds(table, view) && path !in view && id in Fill(table, path, rows, |rows|)
    ensures IsIdIn(view[path := rows], id)
  {
    var v := view[path := rows];
    FillKeys(table, path, rows, |rows|, id);
    if id in table {
      assert IsIdIn(view, id);
      var p :| p in view && IsIdOf(p, |view[p]|, id);
      assert p in v && v[p] == view[p];
    } else {
      assert path in v && v[path] == rows;
    }
  }

  lemma FilledAt<T>(table: map<string, T>, view: map<string, seq<T>>, path: string, rows: seq<T>, p: string, i: nat)
    requires Holds(table, view) && p in view[path := rows] && i < |view[path := rows][p]|
    ensures var t := Fill(table, path, rows, |rows|);
            ChunkId(p, i) in t && t[ChunkId(p, i)] == view[path := rows][p][i]
  {
    if p == path {
      FillValue(table, path, rows, |rows|, i);
    } else {
      FillAt(table, view, path, rows, p, i);
    }
  }

  lemma HoldsFill<T>(table: map<string, T>, view: map<string, seq<T>>, path: string, rows: seq<T>)
    requires Holds(table, view) && path !in view
    ensures Holds(Fill(table, path, rows, |rows|), view[path := rows])
  {
    var t, v := Fill(table, path, rows, |rows|), view[path := rows];
    forall p, i | p in v && 0 <= i < |v[p]|
      ensures ChunkId(p, i) in t && t[ChunkId(p, i)] == v[p][i]
    {
      FilledAt(table, view, path, rows, p, i);
    }
    forall id | id in t
      ensures IsIdIn(v, id)
    {
      FillIds(table, view, path, rows, id);
    }
  }

  /** No row is stored under an id of an absent path, nor under the next id of one being filled. */
  lemma FreshId<T>(table: map<string, T>, view: map<string, seq<T>>, path: string, rows: seq<T>, n: nat)
    requires Holds(table, view) && path !in view && n < |rows|
    ensures ChunkId(path, n) !in Fill(table, path, rows, n)
  {
    var id := ChunkId(path, n);
    FillKeys(table, path, rows, n, id);
    forall i | 0 <= i < n ensures id != ChunkId(path, i) { ChunkIdInjective(path, n, path, i); }
    if id in table {
      var p :| p in view && IsIdOf(p, |view[p]|, id);
      OtherId(p, |view[p]|, path, n);
    }
  }

  // ---------------------------------------------------------------------------
  // What the tables represent
  // ---------------------------------------------------------------------------

  function ChunkRows(path: string, e: Entry): (rows: seq<ChunkRow>)
    ensures |rows| == |e.chunks|
    ensures forall i | 0 <= i < |rows| :: rows[i] ==
                ChunkRow(path, e.chunks[i].startLine, e.chunks[i].endLine, e.model, e.chunks[i].text)
  {
    seq(|e.chunks|, i requires 0 <= i < |e.chunks| =>
          ChunkRow(path, e.chunks[i].startLine, e.chunks[i].endLine, e.model, e.chunks[i].text))
  }

  function VecRows(e: Entry): (rows: seq<Vector>)
    ensures |rows| == |e.chunks|
    ensures forall i | 0 <= i < |rows| :: rows[i] == e.chunks[i].embedding
  {
    seq(|e.chunks|, i requires 0 <= i < |e.chunks| => e.chunks[i].embedding)
  }

  function ChunkView(m: Model): map<string, seq<ChunkRow>> {
    map p | p in m :: ChunkRows(p, m[p])
  }

  function VecView(m: Model): map<string, seq<Vector>> {
    map p | p in m :: VecRows(m[p])
  }

  function FileView(m: Model): map<string, FileRow> {
    map p | p in m :: FileRow(m[p].source, m[p].size)
  }

  predicate AllOfDim(rows: map<string, Vector>, dim: nat) {
    forall id | id in rows :: |rows[id]| == dim
  }

  /** The vector table, when absent, is missed by no chunk; all its vectors have its dimension. */
  ghost predicate VecMatches(vec: Option<VecTable>, m: Model) {
    match vec
    case None => Holds(map[], VecView(m))
    case Some(v) => Holds(v.rows, VecView(m)) && AllOfDim(v.rows, v.dim)
  }

  /** The tables hold exactly the entries of `m`: one file row per path, for each its chunks under the ids
      `path#0`, `path#1`, ... in `chunks`, mirrored in `chunks_fts`, and their vectors in `chunks_vec`. */
  ghost predicate Represents(t: Tables, m: Model) {
    && t.files == FileView(m)
    && Holds(t.chunks, ChunkView(m))
    && t.fts == t.chunks
    && VecMatches(t.vec, m)
    && (t.dim.Some? ==> t.vec.Some?)
  }

  // ---------------------------------------------------------------------------
  // SQL statements
  // ---------------------------------------------------------------------------

  function OldIds(t: Tables, path: string): set<string> {
    set id | id in t.chunks && t.chunks[id].path == path
  }

  function DeleteVec(t: Tables, id: string): Option<Tables> {
    match t.vec
    case None => None
    case Some(v) => Some(t.(vec := Some(v.(rows := v.rows - {id}))))
  }

  /** With the trigger that follows deletions in the full-text table. */
  function DeleteChunks(t: Tables, path: string): Tables {
    t.(chunks := t.chunks - OldIds(t, path), fts := t.fts - OldIds(t, path))
  }

  function DeleteFile(t: Tables, path: string): Tables {
    t.(files := t.files - {path})
  }

  function InsertFile(t: Tables, path: string, row: FileRow): Option<Tables> {
    if path in t.files then None else Some(t.(files := t.files[path := row]))
  }

  /** With the trigger that follows insertions in the full-text table. */
  function InsertChunk(t: Tables, id: string, row: ChunkRow): Option<Tables> {
    if id in t.chunks then None else Some(t.(chunks := t.chunks[id := row], fts := t.fts[id := row]))
  }

  function InsertVec(t: Tables, id: string, v: Vector): Option<Tables> {
    match t.vec
    case None => None
    case Some(table) =>
      if |v| != table.dim || id in table.rows then None
      else Some(t.(vec := Some(table.(rows := table.rows[id := v]))))
  }

  // ---------------------------------------------------------------------------
  // The transactions
  // ---------------------------------------------------------------------------

  function WithoutVec(vec: Option<VecTable>, ids: set<string>): Option<VecTable> {
    if vec.None? then None else Some(vec.value.(rows := vec.value.rows - ids))
  }

  /** Every row of `path` removed. */
  function Cleared(t: Tables, path: string): Tables {
    var ids := OldIds(t, path);
    Tables(t.files - {path}, t.chunks - ids, t.fts - ids, WithoutVec(t.vec, ids), t.dim)
  }

  function FilledVec(vec: Option<VecTable>, path: string, e: Entry, n: nat): Option<VecTable>
    requires n <= |e.chunks|
  {
    if vec.None? then None else Some(vec.value.(rows := Fill(vec.value.rows, path, VecRows(e), n)))
  }

  /** The file row and the first `n` chunks of `e` stored for `path`. */
  function Filled(t: Tables, path: string, e: Entry, n: nat): Tables
    requires n <= |e.chunks|
  {
    Tables(
      t.files[path := FileRow(e.source, e.size)],
      Fill(t.chunks, path, ChunkRows(path, e), n),
      Fill(t.fts, path, ChunkRows(path, e), n),
      FilledVec(t.vec, path, e, n),
      t.dim)
  }

  function Inserted(t: Tables, path: string, e: Entry): Tables {
    Filled(Cleared(t, path), path, e, |e.chunks|)
  }

  lemma OldIdsAre(t: Tables, m: Model, path: string)
    requires Holds(t.chunks, ChunkView(m))
    ensures OldIds(t, path) == ViewIds(ChunkView(m), path) == ViewIds(VecView(m), path)
  {
    var view := ChunkView(m);
    forall id
      ensures id in OldIds(t, path) <==> id in ViewIds(view, path)
    {
      if id in t.chunks {
        assert IsIdIn(view, id);
        var p :| p in view && IsIdOf(p, |view[p]|, id);
        var i :| 0 <= i < |view[p]| && id == ChunkId(p, i);
        assert t.chunks[id] == view[p][i];
        if p != path { OtherId(path, if path in view then |view[path]| else 0, p, i); }
      }
      if id in ViewIds(view, path) {
        var i :| 0 <= i < |view[path]| && id == ChunkId(path, i);
        assert t.chunks[id] == view[path][i];
      }
    }
  }

  lemma ClearedVecMatches(vec: Option<VecTable>, m: Model, path: string)
    requires VecMatches(vec, m)
    ensures VecMatches(WithoutVec(vec, ViewIds(VecView(m), path)), m - {path})
  {
    assert VecView(m - {path}) == VecView(m) - {path};
    match vec
    case None =>
      var none: map<string, Vector> := map[];
      HoldsRemove(none, VecView(m), path);
      assert none - ViewIds(VecView(m), path) == none;
    case Some(v) =>
      HoldsRemove(v.rows, VecView(m), path);
  }

  lemma ClearedChunksMatch(chunks: map<string, ChunkRow>, m: Model, path: string)
    requires Holds(chunks, ChunkView(m))
    ensures Holds(chunks - ViewIds(ChunkView(m), path), ChunkView(m - {path}))
  {
    HoldsRemove(chunks, ChunkView(m), path);
    assert ChunkView(m - {path}) == ChunkView(m) - {path};
  }

  lemma FileViewRemove(m: Model, path: string)
    ensures FileView(m - {path}) == FileView(m) - {path}
  {}

  /** Deleting a path from the tables deletes it from what they represent. */
  lemma ClearedRepresents(t: Tables, m: Model, path: string)
    requires Represents(t, m)
    ensures Represents(Cleared(t, path), m - {path})
  {
    OldIdsAre(t, m, path);
    ClearedChunksMatch(t.chunks, m, path);
    ClearedVecMatches(t.vec, m, path);
    FileViewRemove(m, path);
  }

  /** Every vector fits the table; without a table only an empty insert does. */
  predicate VectorsFit(vec: Option<VecTable>, chunks: seq<Chunk>) {
    chunks == [] || (vec.Some? && forall i | 0 <= i < |chunks| :: |chunks[i].embedding| == vec.value.dim)
  }

  lemma FilledVecMatches(vec: Option<VecTable>, m: Model, path: string, e: Entry)
    requires VecMatches(vec, m) && path !in m && VectorsFit(vec, e.chunks)
    ensures VecMatches(FilledVec(vec, path, e, |e.chunks|), m[path := e])
  {
    assert VecView(m[path := e]) == VecView(m)[path := VecRows(e)];
    match vec
    case None =>
      HoldsFill(map[], VecView(m), path, VecRows(e));
    case Some(v) =>
      HoldsFill(v.rows, VecView(m), path, VecRows(e));
      var rows := Fill(v.rows, path, VecRows(e), |e.chunks|);
      forall id | id in rows
        ensures |rows[id]| == v.dim
      {
        FillKeys(v.rows, path, VecRows(e), |e.chunks|, id);
        if IsIdOf(path, |e.chunks|, id) {
          var i :| 0 <= i < |e.chunks| && id == ChunkId(path, i);
          FillValue(v.rows, path, VecRows(e), |e.chunks|, i);
        }
      }
  }

  lemma ChunkViewAdd(m: Model, path: string, e: Entry)
    ensures ChunkView(m[path := e]) == ChunkView(m)[path := ChunkRows(path, e)]
  {}

  lemma FilledChunksMatch(chunks: map<string, ChunkRow>, m: Model, path: string, e: Entry)
    requires Holds(chunks, ChunkView(m)) && path !in m
    ensures Holds(Fill(chunks, path, ChunkRows(path, e), |e.chunks|), ChunkView(m[path := e]))
  {
    HoldsFill(chunks, ChunkView(m), path, ChunkRows(path, e));
    ChunkViewAdd(m, path, e);
  }

  lemma FileViewAdd(m: Model, path: string, e: Entry)
    ensures FileView(m[path := e]) == FileView(m)[path := FileRow(e.source, e.size)]
  {}

  lemma FilledRepresents(t: Tables, m: Model, path: string, e: Entry)
    requires Represents(t, m) && path !in m && VectorsFit(t.vec, e.chunks)
    ensures Represents(Filled(t, path, e, |e.chunks|), m[path := e])
  {
    FilledChunksMatch(t.chunks, m, path, e);
    FileViewAdd(m, path, e);
    FilledVecMatches(t.vec, m, path, e);
  }

  /** Inserting replaces whatever the path had. */
  lemma InsertedRepresents(t: Tables, m: Model, path: string, e: Entry)
    requires Represents(t, m) && VectorsFit(t.vec, e.chunks)
    ensures Represents(Inserted(t, path, e), m[path := e])
  {
    var c, rest := Cleared(t, path), m - {path};
    assert rest[path := e] == m[path := e];
    ClearedRepresents(t, m, path);
    FilledRepresents(c, rest, path, e);
  }

  // ---------------------------------------------------------------------------
  // The operations with their failures
  // ---------------------------------------------------------------------------

  /** What the database itself may refuse: reading `meta`, creating the vector table, recording the dimension,
      and one numbered statement of the transaction. */
  datatype Faults = Faults(metaReads: bool, creates: bool, metaWrites: bool, failAt: Option<nat>)

  const NO_FAULTS: Faults := Faults(true, true, true, None)

  function CreateVec(t: Tables, dim: nat): Tables {
    if t.vec.None? then t.(vec := Some(VecTable(dim, map[]))) else t
  }

  /** `do_ensure_vec_ready`: outside the transaction, each statement committed by itself; a failure to read
      the recorded dimension counts as none being recorded. */
  function EnsureVecReady(t: Tables, dim: nat, f: Faults): (Tables, IndexResult) {
    var stored := if f.metaReads then t.dim else None;
    if stored.Some? && stored.value != dim then (t, DimensionMismatch(stored.value, dim))
    else if !f.creates then (t, SqlError)
    else if stored.Some? then (CreateVec(t, dim), Ok)
    else if !f.metaWrites then (CreateVec(t, dim), SqlError)
    else (CreateVec(t, dim).(dim := Some(dim)), Ok)
  }

  function InsertStatements(t: Tables, path: string, e: Entry): nat {
    6 + |OldIds(t, path)| + 2 * |e.chunks|
  }

  function DeleteStatements(t: Tables, path: string): nat {
    5 + |OldIds(t, path)|
  }

  predicate InsertWorks(t: Tables, path: string, e: Entry, failAt: Option<nat>) {
    VectorsFit(t.vec, e.chunks) && (failAt.Some? ==> failAt.value >= InsertStatements(t, path, e))
  }

  predicate DeleteWorks(t: Tables, path: string, failAt: Option<nat>) {
    failAt.Some? ==> failAt.value >= DeleteStatements(t, path)
  }

  datatype IndexOp =
    | Insert(path: string, entry: Entry, faults: Faults)
    | Delete(path: string, failAt: Option<nat>)
    | Reopen(creates: bool)

  function InsertStep(t: Tables, path: string, e: Entry, f: Faults): (Tables, IndexResult) {
    var ready := if e.chunks == [] then (t, Ok) else EnsureVecReady(t, |e.chunks[0].embedding|, f);
    if ready.1 != Ok then ready
    else if InsertWorks(ready.0, path, e, f.failAt) then (Inserted(ready.0, path, e), Ok)
    else (ready.0, SqlError)
  }

  function Step(t: Tables, op: IndexOp): (Tables, IndexResult) {
    match op
    case Insert(path, e, f) => InsertStep(t, path, e, f)
    case Delete(path, failAt) => if DeleteWorks(t, path, failAt) then (Cleared(t, path), Ok) else (t, SqlError)
    case Reopen(creates) =>
      if t.dim.None? then (t, Ok)
      else if !creates then (t, SqlError)
      else (CreateVec(t, t.dim.value), Ok)
  }

  /** Only an operation that succeeds changes what is represented. */
  function ModelStep(m: Model, op: IndexOp, r: IndexResult): Model {
    if r != Ok then m
    else
      match op
      case Insert(path, e, _) => m[path := e]
      case Delete(path, _) => m - {path}
      case Reopen(_) => m
  }

  lemma EnsureRepresents(t: Tables, m: Model, dim: nat, f: Faults)
    requires Represents(t, m)
    ensures Represents(EnsureVecReady(t, dim, f).0, m)
  {
    CreateRepresents(t, m, dim);
  }

  lemma CreateRepresents(t: Tables, m: Model, dim: nat)
    requires Represents(t, m)
    ensures Represents(CreateVec(t, dim), m)
  {}

  /** Every operation, however it fails, leaves tables that represent the entries of the operations that
      succeeded. */
  lemma StepRepresents(t: Tables, m: Model, op: IndexOp)
    requires Represents(t, m)
    ensures Represents(Step(t, op).0, ModelStep(m, op, Step(t, op).1))
  {
    match op
    case Insert(path, e, f) =>
      var ready := if e.chunks == [] then (t, Ok) else EnsureVecReady(t, |e.chunks[0].embedding|, f);
      if e.chunks != [] { EnsureRepresents(t, m, |e.chunks[0].embedding|, f); }
      if ready.1 == Ok && InsertWorks(ready.0, path, e, f.failAt) { InsertedRepresents(ready.0, m, path, e); }
    case Delete(path, failAt) =>
      ClearedRepresents(t, m, path);
    case Reopen(creates) =>
      if t.dim.Some? { CreateRepresents(t, m, t.dim.value); }
  }

  // ---------------------------------------------------------------------------
  // The actor
  // ---------------------------------------------------------------------------

  lemma EmptyIff(t: Tables, m: Model)
    requires Represents(t, m)
    ensures t.chunks == map[] <==> forall p | p in m :: m[p].chunks == []
    ensures t.chunks == map[] <==> t.vec.None? || t.vec.value.rows == map[]
  {
    HoldsEmptyIff(t.chunks, ChunkView(m));
    assert forall p | p in m :: |ChunkView(m)[p]| == |VecView(m)[p]| == |m[p].chunks|;
    match t.vec
    case None => HoldsEmptyIff(map[], VecView(m));
    case Some(v) => HoldsEmptyIff(v.rows, VecView(m));
  }

  lemma HoldsEmptyIff<T>(table: map<string, T>, view: map<string, seq<T>>)
    requires Holds(table, view)
    ensures table == map[] <==> forall p | p in view :: view[p] == []
  {
    if p :| p in view && view[p] != [] {
      assert view[p][0] == table[ChunkId(p, 0)];
    } else {
      forall id
        ensures !IsIdIn(view, id)
      {}
    }
  }

  /** A vector is never looked for without the table: `chunks` is empty as long as it is missing. */
  predicate VecReady(t: Tables) {
    t.vec.None? ==> t.chunks == map[]
  }

  /** When chunk `n` of `e` is inserted its id is taken in neither table. */
  predicate FreshAt(t: Tables, path: string, e: Entry, n: nat)
    requires n <= |e.chunks|
  {
    var f := Filled(t, path, e, n);
    ChunkId(path, n) !in f.chunks && (f.vec.Some? ==> ChunkId(path, n) !in f.vec.value.rows)
  }

  /** No statement of an insert can violate a constraint, except for the dimension of a vector. */
  predicate Insertable(t: Tables, path: string, e: Entry) {
    VecReady(t) && forall n | 0 <= n < |e.chunks| :: FreshAt(Cleared(t, path), path, e, n)
  }

  lemma RepresentsVecReady(t: Tables, m: Model)
    requires Represents(t, m)
    ensures VecReady(t)
  {
    EmptyIff(t, m);
  }

  lemma RepresentsInsertable(t: Tables, m: Model, path: string, e: Entry)
    requires Represents(t, m)
    ensures Insertable(t, path, e)
  {
    RepresentsVecReady(t, m);
    ClearedRepresents(t, m, path);
    forall n | 0 <= n < |e.chunks|
      ensures FreshAt(Cleared(t, path), path, e, n)
    {
      FreshRows(Cleared(t, path), m - {path}, path, e, n);
    }
  }

  function Dropped(t: Tables, ids: set<string>): Tables {
    t.(vec := WithoutVec(t.vec, ids))
  }

  lemma DropNone(t: Tables)
    ensures Dropped(t, {}) == t
  {
    if t.vec.Some? { assert t.vec.value.rows - {} == t.vec.value.rows; }
  }

  lemma DropNext(t: Tables, gone: set<string>, id: string)
    requires t.vec.Some?
    ensures DeleteVec(Dropped(t, gone), id) == Some(Dropped(t, gone + {id}))
  {
    assert t.vec.value.rows - gone - {id} == t.vec.value.rows - (gone + {id});
  }

  lemma DroppedCleared(t: Tables, path: string)
    ensures DeleteFile(DeleteChunks(Dropped(t, OldIds(t, path)), path), path) == Cleared(t, path)
  {
    assert OldIds(Dropped(t, OldIds(t, path)), path) == OldIds(t, path);
  }

  lemma FreshRows(t: Tables, m: Model, path: string, e: Entry, n: nat)
    requires Represents(t, m) && path !in m && n < |e.chunks|
    ensures FreshAt(t, path, e, n)
  {
    FreshId(t.chunks, ChunkView(m), path, ChunkRows(path, e), n);
    if t.vec.Some? { FreshId(t.vec.value.rows, VecView(m), path, VecRows(e), n); }
  }

  lemma FilledNone(t: Tables, path: string, e: Entry)
    ensures Filled(t, path, e, 0) == t.(files := t.files[path := FileRow(e.source, e.size)])
  {}

  /** With fresh ids the next chunk is refused exactly when its vector does not fit. */
  lemma InsertNext(t: Tables, path: string, e: Entry, n: nat)
    requires n < |e.chunks|
    requires FreshAt(t, path, e, n)
    ensures var added := InsertChunk(Filled(t, path, e, n), ChunkId(path, n), ChunkRows(path, e)[n]);
            && added.Some?
            && InsertVec(added.value, ChunkId(path, n), e.chunks[n].embedding)
               == if t.vec.Some? && |e.chunks[n].embedding| == t.vec.value.dim
                  then Some(Filled(t, path, e, n + 1)) else None
  {}

  class Indexer {
    var db: Tables
    ghost var model: Model

    /** A new database. */
    constructor ()
      ensures db == EMPTY && model == map[]
    {
      db := EMPTY;
      model := map[];
    }

    method EnsureReady(dim: nat, f: Faults) returns (r: IndexResult)
      modifies this`db
      ensures (db, r) == EnsureVecReady(old(db), dim, f)
      ensures r == Ok <==>
              f.creates && if f.metaReads && old(db).dim.Some? then old(db).dim == Some(dim) else f.metaWrites
      ensures r == Ok ==> db.dim == Some(dim) && db.vec.Some?
      ensures r.DimensionMismatch? <==> f.metaReads && old(db).dim.Some? && old(db).dim.value != dim
      ensures r.DimensionMismatch? ==> db == old(db) && Some(r.stored) == old(db).dim && r.received == dim
      ensures old(db).vec.Some? ==> db.vec == old(db).vec
      ensures db.files == old(db).files && db.chunks == old(db).chunks && db.fts == old(db).fts
    {
      var stored := if f.metaReads then db.dim else None;
      if stored.Some? {
        if stored.value != dim {
          return DimensionMismatch(stored.value, dim);
        }
        if !f.creates {
          return SqlError;
        }
        db := CreateVec(db, dim);
        return Ok;
      }
      if !f.creates {
        return SqlError;
      }
      db := CreateVec(db, dim);
      if !f.metaWrites {
        return SqlError;
      }
      db := db.(dim := Some(dim));
      r := Ok;
    }

    /** Drops the vectors of a path one by one, in whatever order the ids are listed. */
    method DeleteVecs(path: string, failAt: Option<nat>) returns (after: Option<Tables>)
      requires VecReady(db) && (failAt.Some? ==> failAt.value >= 2)
      ensures after.Some? <==> (failAt.Some? ==> failAt.value >= 2 + |OldIds(db, path)|)
      ensures after.Some? ==> after.value == Dropped(db, OldIds(db, path))
    {
      var ids := OldIds(db, path);
      var left, t, k := ids, db, 2;
      ghost var gone: set<string> := {};
      DropNone(db);
      while left != {}
        invariant gone + left == ids && k == 2 + |ids| - |left|
        invariant t == Dropped(db, gone)
        invariant failAt.Some? ==> failAt.value >= k
      {
        var cid :| cid in left;
        if failAt == Some(k) {
          return None;
        }
        DropNext(db, gone, cid);
        t, k := DeleteVec(t, cid).value, k + 1;
        gone, left := gone + {cid}, left - {cid};
      }
      after := Some(t);
    }

    /** The deletions with which an insert and a delete both begin; `k` numbers the statement after them. */
    method RemoveRows(path: string, failAt: Option<nat>) returns (cleared: Option<Tables>, k: nat)
      requires VecReady(db)
      ensures k == 4 + |OldIds(db, path)|
      ensures cleared.Some? <==> (failAt.Some? ==> failAt.value >= k)
      ensures cleared.Some? ==> cleared.value == Cleared(db, path)
    {
      k := 4 + |OldIds(db, path)|;
      if failAt == Some(0) || failAt == Some(1) {
        return None, k;
      }
      var dropped := DeleteVecs(path, failAt);
      if dropped.None? || failAt == Some(k - 2) || failAt == Some(k - 1) {
        return None, k;
      }
      DroppedCleared(db, path);
      cleared := Some(DeleteFile(DeleteChunks(dropped.value, path), path));
    }

    /** The chunks of an insert, each with its vector; `first` numbers their first statement. */
    method InsertRows(start: Tables, ghost cleared: Tables, path: string, e: Entry, first: nat, failAt: Option<nat>)
        returns (after: Option<Tables>)
      requires start == Filled(cleared, path, e, 0)
      requires forall n | 0 <= n < |e.chunks| :: FreshAt(cleared, path, e, n)
      requires failAt.Some? ==> failAt.value >= first
      ensures after.Some? <==>
              VectorsFit(cleared.vec, e.chunks) && (failAt.Some? ==> failAt.value >= first + 2 * |e.chunks|)
      ensures after.Some? ==> after.value == Filled(cleared, path, e, |e.chunks|)
    {
      var tx, i, k := start, 0, first;
      while i < |e.chunks|
        invariant i <= |e.chunks| && k == first + 2 * i
        invariant tx == Filled(cleared, path, e, i)
        invariant failAt.Some? ==> failAt.value >= k
        invariant i > 0 ==> cleared.vec.Some?
        invariant forall j | 0 <= j < i :: |e.chunks[j].embedding| == cleared.vec.value.dim
      {
        if failAt == Some(k) || failAt == Some(k + 1) {
          return None;
        }
        var c := e.chunks[i];
        assert FreshAt(cleared, path, e, i);
        InsertNext(cleared, path, e, i);
        var added := InsertChunk(tx, ChunkId(path, i), ChunkRow(path, c.startLine, c.endLine, e.model, c.text));
        var stored := InsertVec(added.value, ChunkId(path, i), c.embedding);
        if stored.None? {
          return None;
        }
        tx, k, i := stored.value, k + 2, i + 1;
      }
      after := Some(tx);
    }

    /** One transaction: what the path had is replaced by `e`, or nothing changes at all. */
    method DoInsert(path: string, e: Entry, failAt: Option<nat>) returns (r: IndexResult)
      requires Insertable(db, path, e)
      modifies this`db
      ensures r == (if InsertWorks(old(db), path, e, failAt) then Ok else SqlError)
      ensures db == if r == Ok then Inserted(old(db), path, e) else old(db)
    {
      var cleared, k := RemoveRows(path, failAt);
      if cleared.None? || failAt == Some(k) {
        return SqlError;
      }
      var filed := InsertFile(cleared.value, path, FileRow(e.source, e.size));
      FilledNone(cleared.value, path, e);
      var tx := InsertRows(filed.value, cleared.value, path, e, k + 1, failAt);
      if tx.None? || failAt == Some(k + 1 + 2 * |e.chunks|) {
        return SqlError;
      }
      db := tx.value;
      r := Ok;
    }

    method DoDelete(path: string, failAt: Option<nat>) returns (r: IndexResult)
      requires VecReady(db)
      modifies this`db
      ensures r == (if DeleteWorks(old(db), path, failAt) then Ok else SqlError)
      ensures db == if r == Ok then Cleared(old(db), path) else old(db)
    {
      var cleared, k := RemoveRows(path, failAt);
      if cleared.None? || failAt == Some(k) {
        return SqlError;
      }
      db := cleared.value;
      r := Ok;
    }

    /** The insert message: make the vector table ready for the first chunk's dimension, then the transaction. */
    method HandleInsert(path: string, e: Entry, f: Faults) returns (r: IndexResult)
      requires Represents(db, model)
      modifies this
      ensures (db, r) == Step(old(db), Insert(path, e, f))
      ensures model == ModelStep(old(model), Insert(path, e, f), r) && Represents(db, model)
    {
      StepRepresents(db, model, Insert(path, e, f));
      if e.chunks != [] {
        EnsureRepresents(db, model, |e.chunks[0].embedding|, f);
        r := EnsureReady(|e.chunks[0].embedding|, f);
        if r != Ok {
          return;
        }
      }
      RepresentsInsertable(db, model, path, e);
      r := DoInsert(path, e, f.failAt);
      if r == Ok {
        model := model[path := e];
      }
    }

    method HandleDelete(path: string, failAt: Option<nat>) returns (r: IndexResult)
      requires Represents(db, model)
      modifies this
      ensures (db, r) == Step(old(db), Delete(path, failAt))
      ensures model == ModelStep(old(model), Delete(path, failAt), r) && Represents(db, model)
    {
      StepRepresents(db, model, Delete(path, failAt));
      RepresentsVecReady(db, model);
      r := DoDelete(path, failAt);
      if r == Ok {
        model := model - {path};
      }
    }

    /** `do_is_empty` asks only the table `chunks`; it answers for the vectors too. */
    method IsEmpty() returns (empty: bool)
      requires Represents(db, model)
      ensures empty <==> forall p | p in model :: model[p].chunks == []
      ensures empty <==> db.vec.None? || db.vec.value.rows == map[]
    {
      EmptyIff(db, model);
      empty := db.chunks == map[];
    }
  }

  // ---------------------------------------------------------------------------
  // Whole runs
  // ---------------------------------------------------------------------------

  function RunTables(ops: seq<IndexOp>): Tables {
    if ops == [] then EMPTY else Step(RunTables(ops[..|ops| - 1]), ops[|ops| - 1]).0
  }

  function RunModel(ops: seq<IndexOp>): Model {
    if ops == [] then map[]
    else
      var before := ops[..|ops| - 1];
      ModelStep(RunModel(before), ops[|ops| - 1], Step(RunTables(before), ops[|ops| - 1]).1)
  }

  lemma {:induction false} RunRepresents(ops: seq<IndexOp>)
    ensures Represents(RunTables(ops), RunModel(ops))
  {
    if ops != [] {
      RunRepresents(ops[..|ops| - 1]);
      StepRepresents(RunTables(ops[..|ops| - 1]), RunModel(ops[..|ops| - 1]), ops[|ops| - 1]);
    }
  }

  /** What the tables show of an entry they represent: its file row, and for each chunk its row, the same in the
      full-text table, and its vector. */
  lemma TablesShow(t: Tables, m: Model, p: string, i: nat)
    requires Represents(t, m) && p in m
    ensures p in t.files && t.files[p].source == m[p].source && t.files[p].size == m[p].size
    ensures i < |m[p].chunks| ==>
              var id, c := p + "#" + Decimal(i), m[p].chunks[i];
              && id in t.chunks && id in t.fts && t.fts[id] == t.chunks[id]
              && t.chunks[id] == ChunkRow(p, c.startLine, c.endLine, m[p].model, c.text)
              && t.vec.Some? && id in t.vec.value.rows && t.vec.value.rows[id] == c.embedding
  {
    assert t.files[p] == FileView(m)[p];
    if i < |m[p].chunks| {
      assert ChunkView(m)[p][i].path == p;
      assert VecView(m)[p][i] == m[p].chunks[i].embedding;
    }
  }

  /** Reopening creates the vector table of the recorded dimension if it is missing. */
  lemma ReopenRestores(t: Tables)
    requires t.dim.Some?
    ensures Step(t, Reopen(true)).1 == Ok && Step(t, Reopen(true)).0.vec.Some?
    ensures t.vec.None? ==> Step(t, Reopen(true)).0.vec.value == VecTable(t.dim.value, map[])
  {}

  /** It never has one to create. */
  lemma ReopenRestoresNothing(t: Tables, m: Model, creates: bool)
    requires Represents(t, m)
    ensures Step(t, Reopen(creates)).0 == t
  {}

  // ---------------------------------------------------------------------------
  // Dimensions
  // ---------------------------------------------------------------------------

  predicate OfDim(chunks: seq<Chunk>, dim: nat) {
    forall i | 0 <= i < |chunks| :: |chunks[i].embedding| == dim
  }

  /** All chunks have one dimension, that of `meta` and of the vector table as far as these exist. */
  predicate Fits(t: Tables, chunks: seq<Chunk>) {
    chunks == []
    || (var d := |chunks[0].embedding|;
        OfDim(chunks, d) && (t.dim.Some? ==> t.dim.value == d) && (t.vec.Some? ==> t.vec.value.dim == d))
  }

  /** As long as the database does not fail an insert succeeds exactly when the dimensions fit; what keeps
      `path#i` unique and the vector table present never makes it fail. Deletes always succeed. */
  lemma InsertSucceedsIff(t: Tables, m: Model, path: string, e: Entry)
    requires Represents(t, m)
    ensures Step(t, Insert(path, e, NO_FAULTS)).1 == Ok <==> Fits(t, e.chunks)
    ensures Step(t, Delete(path, None)).1 == Ok
  {
    if e.chunks != [] {
      var d := |e.chunks[0].embedding|;
      var ready := EnsureVecReady(t, d, NO_FAULTS).0;
      assert ready.vec.Some?;
    }
  }

  /** Which error an insert with chunks ends in. */
  lemma InsertErrorIff(t: Tables, path: string, e: Entry, f: Faults)
    requires e.chunks != []
    ensures var r, d := Step(t, Insert(path, e, f)).1, |e.chunks[0].embedding|;
            && (r.DimensionMismatch? <==> f.metaReads && t.dim.Some? && t.dim.value != d)
            && (r.DimensionMismatch? ==> r == DimensionMismatch(t.dim.value, d))
  {}

  /** The vectors stored have the dimension recorded in `meta`. */
  predicate DimRecorded(t: Tables) {
    t.chunks != map[] ==> t.vec.Some? && t.dim == Some(t.vec.value.dim)
  }

  /** A failure to read `meta` makes an insert of another dimension record that one instead. */
  predicate Misrecords(t: Tables, op: IndexOp) {
    && op.Insert? && op.entry.chunks != []
    && !op.faults.metaReads && op.faults.creates && op.faults.metaWrites
    && t.chunks != map[] && t.vec.Some? && |op.entry.chunks[0].embedding| != t.vec.value.dim
  }

  lemma InsertRecords(t: Tables, path: string, e: Entry, f: Faults)
    requires VecReady(t) && DimRecorded(t) && e.chunks != []
    ensures DimRecorded(InsertStep(t, path, e, f).0) <==> !Misrecords(t, Insert(path, e, f))
  {
    var after := InsertStep(t, path, e, f);
    if after.1 == Ok {
      assert after.0.vec.value.dim == |e.chunks[0].embedding|;
    } else {
      InsertKeepsChunks(t, path, e, f);
    }
  }

  /** The recorded dimension stays that of the stored vectors, except exactly after such a failure. */
  lemma DimRecordedIff(t: Tables, m: Model, op: IndexOp)
    requires Represents(t, m) && DimRecorded(t)
    ensures DimRecorded(Step(t, op).0) <==> !Misrecords(t, op)
  {
    RepresentsVecReady(t, m);
    if op.Insert? && op.entry.chunks != [] {
      InsertRecords(t, op.path, op.entry, op.faults);
    } else {
      OthersRecord(t, op);
    }
  }

  lemma OthersRecord(t: Tables, op: IndexOp)
    requires VecReady(t) && DimRecorded(t) && (op.Insert? ==> op.entry.chunks == [])
    ensures DimRecorded(Step(t, op).0)
  {}

  /** So in a run that never fails to read `meta` it always is. */
  lemma {:induction false} RunRecordsDim(ops: seq<IndexOp>)
    requires forall i | 0 <= i < |ops| :: ops[i].Insert? ==> ops[i].faults.metaReads
    ensures DimRecorded(RunTables(ops))
  {
    if ops != [] {
      var before := ops[..|ops| - 1];
      RunRecordsDim(before);
      RunRepresents(before);
      DimRecordedIff(RunTables(before), RunModel(before), ops[|ops| - 1]);
    }
  }

  lemma InsertKeepsChunks(t: Tables, path: string, e: Entry, f: Faults)
    requires e.chunks != [] && InsertStep(t, path, e, f).1 != Ok
    ensures InsertStep(t, path, e, f).0.chunks == t.chunks
  {}

  /** `meta` and the vector table disagree. */
  predicate Wedged(t: Tables) {
    t.vec.Some? && t.dim.Some? && t.dim.value != t.vec.value.dim
  }

  /** After an insert with chunks, however it fails, `meta` and the table disagree exactly if they did and the insert
      recorded nothing, or if it recorded the dimension of its first chunk beside a table of another one. It records
      whenever it takes none to be recorded, which an unreadable `meta` makes it do, and can write. */
  lemma WedgesIff(t: Tables, m: Model, path: string, e: Entry, f: Faults)
    requires Represents(t, m) && e.chunks != []
    ensures Wedged(Step(t, Insert(path, e, f)).0)
            <==> if f.creates && f.metaWrites && (t.dim.None? || !f.metaReads)
                 then t.vec.Some? && t.vec.value.dim != |e.chunks[0].embedding|
                 else Wedged(t)
  {
    InsertWedgesIff(t, path, e, f);
  }

  lemma InsertWedgesIff(t: Tables, path: string, e: Entry, f: Faults)
    requires (t.dim.Some? ==> t.vec.Some?) && e.chunks != []
    ensures Wedged(InsertStep(t, path, e, f).0)
            <==> if f.creates && f.metaWrites && (t.dim.None? || !f.metaReads)
                 then t.vec.Some? && t.vec.value.dim != |e.chunks[0].embedding|
                 else Wedged(t)
  {
    var ready := EnsureVecReady(t, |e.chunks[0].embedding|, f);
    assert Wedged(InsertStep(t, path, e, f).0) <==> Wedged(ready.0);
  }

  /** No other operation changes whether they disagree. */
  lemma OthersKeepWedged(t: Tables, m: Model, op: IndexOp)
    requires Represents(t, m) && (op.Insert? ==> op.entry.chunks == [])
    ensures Wedged(Step(t, op).0) <==> Wedged(t)
  {}

  /** From then on an insert with chunks succeeds exactly if `meta` cannot be read, so that it records the dimension of
      its own chunks, and they fit the table. */
  lemma WedgedInsertIff(t: Tables, path: string, e: Entry, f: Faults)
    requires Wedged(t) && e.chunks != []
    ensures Step(t, Insert(path, e, f)).1 == Ok
            <==> !f.metaReads && f.creates && f.metaWrites && InsertWorks(t, path, e, f.failAt)
  {
    assert VectorsFit(t.vec, e.chunks) ==> |e.chunks[0].embedding| == t.vec.value.dim;
  }

  /** An insert that cannot read `meta` and records the dimension `dim`, whether its transaction succeeds or not. */
  predicate Mends(dim: nat, op: IndexOp) {
    && op.Insert? && op.entry.chunks != [] && |op.entry.chunks[0].embedding| == dim
    && !op.faults.metaReads && op.faults.creates && op.faults.metaWrites
  }

  lemma MendedIff(t: Tables, op: IndexOp)
    requires Wedged(t)
    ensures Step(t, op).0.vec.Some? && Step(t, op).0.vec.value.dim == t.vec.value.dim
    ensures Wedged(Step(t, op).0) <==> !Mends(t.vec.value.dim, op)
  {
    if op.Insert? && op.entry.chunks != [] { InsertWedgesIff(t, op.path, op.entry, op.faults); }
  }

  /** `meta` and the table disagree before and after each of these operations. */
  predicate StaysWedged(t: Tables, ops: seq<IndexOp>)
    decreases |ops|
  {
    Wedged(t) && (ops == [] || StaysWedged(Step(t, ops[0]).0, ops[1..]))
  }

  /** Each insert with chunks among these operations fails. */
  predicate RefusesChunks(t: Tables, ops: seq<IndexOp>)
    decreases |ops|
  {
    ops == []
    || (var after := Step(t, ops[0]);
        (ops[0].Insert? && ops[0].entry.chunks != [] ==> after.1 != Ok) && RefusesChunks(after.0, ops[1..]))
  }

  /** A disagreement lasts through a run of any operations exactly as long as none of them mends it, and as long as it
      lasts no insert with chunks succeeds. */
  lemma {:induction false} WedgeLastsIff(t: Tables, ops: seq<IndexOp>)
    requires Wedged(t)
    ensures StaysWedged(t, ops) <==> forall i | 0 <= i < |ops| :: !Mends(t.vec.value.dim, ops[i])
    ensures StaysWedged(t, ops) ==> RefusesChunks(t, ops)
    decreases |ops|
  {
    if ops != [] {
      var op, next := ops[0], Step(t, ops[0]).0;
      MendedIff(t, op);
      if op.Insert? && op.entry.chunks != [] { WedgedInsertIff(t, op.path, op.entry, op.faults); }
      if Wedged(next) {
        WedgeLastsIff(next, ops[1..]);
        assert forall i | 1 <= i < |ops| :: ops[i] == ops[1..][i - 1];
      }
    }
  }

  /** How an index gets there from nothing. */
  lemma InterruptedCreateWedges(path: string, first: Entry, second: Entry)
    requires first.chunks != [] && second.chunks != []
    requires |first.chunks[0].embedding| != |second.chunks[0].embedding|
    ensures var stopped := Step(EMPTY, Insert(path, first, NO_FAULTS.(metaWrites := false))).0;
            Wedged(Step(stopped, Insert(path, second, NO_FAULTS)).0)
  {
    InsertWedgesIff(Step(EMPTY, Insert(path, first, NO_FAULTS.(metaWrites := false))).0, path, second, NO_FAULTS);
  }
}
