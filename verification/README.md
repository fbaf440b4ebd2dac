# MemoryHub memory subsystem: a verified model

MemoryHub keeps Markdown memories as files, a SQLite index of their chunks and vectors, and summaries that a
synthesizer refines from change notifications. This project models that subsystem, and the user and token store in
front of it, in Dafny, and proves what the parts promise each other.

`dafny verify dfyconfig.toml` checks the whole project.

## The parts

| file | module | models |
|---|---|---|
| `text.dfy` | `Text` | white space, decimal numerals, string order, splitting at a separator, UTF-8 length |
| `chunking.dfy` | `Chunking` | lines, the chunking loop, what chunks preserve |
| `like_scope.dfy` | `LikeScope` | SQL `LIKE` with `ESCAPE`, the scope patterns |
| `paths.dfy` | `Paths` | raw paths, projects, summary folders, username validation |
| `synthesis_files.dfy` | `SynthesisFiles` | dated summary files, the latest one, rollover, whole runs |
| `storage.dfy` | `FileStorage` | writing through a temporary sibling and a rename, reading, deleting |
| `embeddings.dfy` | `Embeddings` | reordering and validating a provider response, pairing it with chunks |
| `indexer.dfy` | `Index` | the tables, the transactions, the lazily created vector table |
| `ranking.dfy` | `Ranking` | top-`limit` answers and when partial scores are enough for one |
| `search.dfy` | `Searching` | the search over the index and the search request |
| `file_op.dfy` | `FileOps` | write and delete requests, interleaved, with failures |
| `synthesizer.dfy` | `Synthesis` | the cool-down timer, the three-pass cascade |
| `synthesis_task.dfy` | `SynthesisTask` | the conversation history of one target |
| `task_registry.dfy` | `TaskRegistry` | one task per target, termination notices |
| `auth.dfy` | `Auth` | users, tokens, principals |
| `end_to_end.dfy` | `EndToEnd` | what a search result guarantees across the parts |

Code that updates state is a class or a method with loops, proved against a function of the old state; the theorems are
about those functions and about runs of them. Everything the program takes from outside is a parameter: database and
file system failures say at which step an operation stops, the nearest-neighbour search may return any of the equally
near chunks, the embedder and the chat model answer anything or nothing, time is a number, and the secret digest is a
function that is assumed injective only where a theorem says so.

## Where the code falls short, and exactly when

Some properties one would expect do not always hold of the code. Each is proved with the condition under which it does.

* `chunk_size = 0` turns a file into chunks without any text; searchable text is kept iff the size is at least 1
  (`ChunksKeepTextIffSizePositive`).
* A memory with extension `tmp` is not written atomically (`AtomicIff`), and the write of a sibling with the same stem
  destroys it (`PreservesIff`, `SiblingClobbered`).
* SQLite's `LIKE` folds ASCII case, so user scope finds the files of a user whose name differs in case alone
  (`ScopeIsPrivateIff`, `CaseVariantIsFound`).
* A full summary file is written again, in any run with any clock, exactly if what the cycle sees of the folder leaves no
  choice but a full file. When it sees all, that is if the latest file is full and either is of today with its suffix
  exhausted, or is of a later day while the first file of today is full; when it sees no summary file, because the folder
  does not open, say, if the first file of today is full (`EveryCycleOverwritesIff`).
* The file just written is the one read next, exactly unless the latest file is full and of a later day; with part of the
  folder unseen, exactly unless the latest file stays later than the one chosen (`RolloverIsLatestIff`,
  `EveryCycleIsReadNextIff`). With the suffix exhausted it is read next, but no new file is begun (`RolloverIsNewestIff`).
* The vector table is created, and its dimension recorded, by separate statements outside the insert's transaction, and
  an unreadable `meta` row is taken for an absent one. An insert that takes no dimension to be recorded, for either
  reason, and has another one than the table makes the two disagree (`WedgesIff`, `DimRecordedIff`). From then on every
  insert with chunks fails, exactly until one of the table's dimension cannot read `meta` and records its own
  (`WedgedInsertIff`, `WedgeLastsIff`).
* A scoped search is exact iff the chunks its filters drop leave room among the neighbours asked for (`ExactIff`); the
  same goes for a search of everything restricted to raw memories, which does not over-fetch.
* Skipping the search of an index without chunks also skips the dimension check of the query (`NoChunks`).
* An index insert that acts while another request on the path is between its index and its storage message, a failing
  undo, a lost storage message or a lost answer to an index insert can leave an index entry without a file
  (`DeleteAroundWrite`, `UndoFails`, `StoreLost`, `InsertAnswerLost`) or the entry of one write on the file of another
  (`WriteAroundWrite`). Memories are consistent in every run exactly if none of these, nor extension `tmp`, is admitted
  (`AlwaysConsistentIff`). Event by event, however requests overlap and fail, the exact condition is that a storage
  message stores what is indexed or removes what is not, and that a request which ends early has left its path
  consistent, or else that another request still owes the path (`StepKeepsIff`, `LastEventIff`).
* A summary is stored before it is embedded and indexed, so a failure there leaves the old index entry on the new file
  (`SynthesizeInStepIff`).
* The comments of `memoryhub/src/memory/path.rs` and the design document call the current summary file the
  lexicographically greatest one; the code compares dates and then suffixes as numbers. The two agree in every folder
  exactly as long as no suffix exceeds 99 (`NamesDecideIff`). The comment on `next_filename` names `{today}-1.md`; the
  code prints `-01`.

## Model

| member | source | states |
|---|---|---|
| Chunking.ChunkText | memoryhub/src/memory/chunking.rs:20-61 | the loop computes the reference chunks: none for blank content, the whole content if it fits, else overlapping runs of lines; it terminates for every size and overlap |
| Chunking.LinesIff | memoryhub/src/memory/chunking.rs:21 | the lines are the one way to cut the content at its line breaks, each break with one carriage return before it, without an empty line at the end |
| Chunking.LineCount | memoryhub/src/memory/chunking.rs:21 | there are as many lines as line breaks, and one more if text follows the last |
| Chunking.NoChunksIffBlank | memoryhub/src/memory/chunking.rs:21-24 | there are no chunks exactly for blank content, whatever the configuration |
| Chunking.ChunksRoundTrip | memoryhub/src/memory/chunking.rs:34-61 | for a positive size, the chunk texts without their overlaps are all the lines of the file, in order, which with their line endings are the content |
| Chunking.FittingChunk | memoryhub/src/memory/chunking.rs:25-32 | a file that fits is one chunk: its content, from line 1 to the number of its lines |
| Chunking.ChunkOverlap | memoryhub/src/memory/chunking.rs:34-58 | the chunks are runs of lines from the first to the last, consecutive ones sharing exactly `chunk_overlap` lines, or all but one if that is less, for files of any length |
| Chunking.LineNumbersOverlap | memoryhub/src/memory/chunking.rs:40-58 | below 2^32 lines, the reported line numbers of consecutive chunks overlap by as many lines and run from 1 to the last |
| Chunking.ChunkCount | memoryhub/src/memory/chunking.rs:40-58 | the number of chunks in closed form, size 0 included |
| Chunking.StepsIsCeiling | memoryhub/src/memory/chunking.rs:34-38 | the closed form is a division rounded up |
| Chunking.ChunksKeepTextIffSizePositive | memoryhub/src/memory/chunking.rs:20-61 | non-blank content keeps searchable text exactly when the size is positive |
| LikeScope.EscapeIsPerCharacter | memoryhub/src/memory/indexer.rs:278-284 | the three replacements in sequence escape each special character exactly once |
| LikeScope.FoldEqIff | memoryhub/src/memory/indexer.rs:331-338 | characters are equal to `LIKE` exactly if they are the same or the two cases of an ASCII letter |
| LikeScope.EscapedMatches | memoryhub/src/memory/indexer.rs:278-284 | an escaped string matches, under `LIKE`, exactly itself up to the character equality of the database, followed by a match of the rest |
| LikeScope.UserScopeIsPrefix | memoryhub/src/memory/indexer.rs:317-321 | for any username, the user pattern matches exactly the paths that start with `username/` |
| LikeScope.UnescapedFindsOthers | memoryhub/src/memory/indexer.rs:278-284 | without the escape, a username would find exactly the users whose names agree with it but for its underscores |
| LikeScope.AgentScopeIsPrefix | memoryhub/src/memory/indexer.rs:317-321 | the agent pattern matches exactly the paths that start with `username/agent/` |
| LikeScope.AllScopeIsEverything | memoryhub/src/memory/indexer.rs:317-319 | the pattern of scope `All` matches every path |
| LikeScope.UserScopeIsolation | memoryhub/src/memory/indexer.rs:317-338 | user scope finds another user's files exactly when the database takes the names for equal |
| LikeScope.ScopeIsPrivateIff | memoryhub/src/memory/indexer.rs:278-284 | user scope is private exactly when no other username differs in letter case alone |
| LikeScope.CaseVariantIsFound | memoryhub/src/memory/indexer.rs:331-338 | the accounts `bob` and `Bob` find each other's memories |
| Paths.ProjectSegment | memoryhub/src/memory/path.rs:28-45 | a resolved project is one segment and never the summary folder |
| Paths.ProjectValidIff | memoryhub/src/memory/path.rs:28-45 | a project is rejected exactly for a separator or a reserved name, white space around it aside; no name or a blank one is `_default`, any other stands for itself |
| Paths.RawPathInjective | memoryhub/src/memory/path.rs:51-65 | raw paths are equal exactly when user, agent and flattened filename are and the same project is named |
| Paths.RawNeverSynthesized | memoryhub/src/memory/path.rs:51-77 | no raw path is the path of a summary of any target |
| Paths.FoldersDistinct | memoryhub/src/memory/path.rs:67-77 | distinct targets have distinct folders and distinct summary paths |
| SynthesisFiles.FileNameRoundTrip | memoryhub/src/memory/path.rs:143-168 | a printed name parses back to its date and suffix |
| SynthesisFiles.ParseIff | memoryhub/src/memory/path.rs:141-168 | exactly the names `YYYY-MM-DD-N.md` with digits and a suffix that fits `u32` parse, to their date and suffix |
| SynthesisFiles.DateOrder | memoryhub/src/memory/path.rs:123-131 | comparing printed dates as strings is comparing dates |
| SynthesisFiles.DateTextPrints | memoryhub/src/memory/path.rs:92 | a date prints as its year in four digits, its month and its day in two |
| SynthesisFiles.FindLatest | memoryhub/src/memory/path.rs:116-139 | the scan finds a file of greatest key among those listed, whatever the order, and none exactly if no summary file is listed |
| SynthesisFiles.CurrentPath | memoryhub/src/memory/path.rs:84-139 | the write target is the latest file seen while below the cap, its successor at or above it, the first of today if none is seen; a folder that cannot be opened, a listing that breaks off and an unreadable size show less than there is |
| SynthesisFiles.RolloverIsNewestIff | memoryhub/src/memory/path.rs:170-183 | a rollover target is later than every existing file exactly when the clock has not gone back and the suffix can grow |
| SynthesisFiles.RolloverIsFirstNewer | memoryhub/src/memory/path.rs:170-183 | it then is the first file of today later than every existing one |
| SynthesisFiles.FirstOfToday | memoryhub/src/memory/path.rs:170-183 | with no summary of today to go on from the target is `{today}-01.md` |
| SynthesisFiles.RolloverIsLatestIff | memoryhub/src/memory/path.rs:170-183 | once written it is the latest file exactly when the clock has not gone back, even with the suffix exhausted |
| SynthesisFiles.CycleIsGoodIff | memoryhub/src/memory/path.rs:79-101 | a cycle overwrites nothing full and writes the file found latest afterwards, exactly while the suffix is not exhausted |
| SynthesisFiles.EveryCycleIsGood | memoryhub/src/memory/path.rs:79-139 | the same for every cycle of every run from an empty folder with nondecreasing dates and readable listings, failing writes included |
| SynthesisFiles.LatestUnique | memoryhub/src/memory/path.rs:116-139 | in such folders the latest file does not depend on the listing order |
| SynthesisFiles.RolloverOverwritesIff | memoryhub/src/memory/path.rs:170-183 | a rollover hits an existing full file exactly if the latest file is of today with suffix `u32::MAX`, or of a later day while the first file of today is full |
| SynthesisFiles.AllSeenOverwritesIff | memoryhub/src/memory/path.rs:84-183 | a complete view of a folder leaves no choice but a full file exactly in that case |
| SynthesisFiles.EveryCycleOverwritesIff | memoryhub/src/memory/path.rs:79-139 | in every run from an empty folder, whatever the clock does and whatever part of the folder each cycle sees, a cycle writes a full file again exactly if what it sees leaves no other choice |
| SynthesisFiles.EveryCycleIsReadNextIff | memoryhub/src/memory/path.rs:79-139 | in every such run the file just written is the latest afterwards exactly unless the latest before stays later: it was full and of a later day, or was not seen and is later than the file chosen |
| SynthesisFiles.NamesFollowSuffixesIff | memoryhub/src/memory/path.rs:141-183 | the names of one day sort as their suffixes do exactly up to suffix 99 |
| SynthesisFiles.NamesDecideIff | memoryhub/src/memory/path.rs:116-139 | the latest file is the one of lexicographically greatest name, in every folder of printed names, exactly up to suffix 99 |
| FileStorage.Storage.Write | memoryhub/src/memory/storage.rs:35-68 | the steps of a write, each of which may fail, and every intermediate state |
| FileStorage.Storage.Read | memoryhub/src/memory/storage.rs:75-87 | a missing file reads as none, any other failure is an error |
| FileStorage.Storage.Delete | memoryhub/src/memory/storage.rs:94-107 | deleting is idempotent |
| FileStorage.TmpPathFixed | memoryhub/src/memory/storage.rs:42-43 | a path is its own temporary sibling exactly when its extension is `tmp` |
| FileStorage.TmpIsTmp | memoryhub/src/memory/storage.rs:42-43 | the temporary sibling always has the extension `tmp` |
| FileStorage.AtomicIff | memoryhub/src/memory/storage.rs:42-68 | at every instant of every write, failing or not, a reader finds the old or the new content, exactly when the extension is not `tmp` |
| FileStorage.PreservesIff | memoryhub/src/memory/storage.rs:42-68 | a write changes no other path, exactly unless it is the temporary sibling |
| FileStorage.WriteResult | memoryhub/src/memory/storage.rs:42-68 | a failed write keeps the old content, a successful one stores the new and leaves no temporary file |
| FileStorage.ReadAfterRun | memoryhub/src/memory/storage.rs:32-107 | after any run of operations a path holds what its last successful one left, unless it has served as another write's temporary file since |
| Embeddings.SortByIndex | memoryhub/src/llm/provider/openai.rs:219-220 | the in-place sort is a stable sort by index |
| Embeddings.StableSortUnique | memoryhub/src/llm/provider/openai.rs:219-220 | what a stable sort yields is determined |
| Embeddings.SortedUnchanged | memoryhub/src/llm/provider/openai.rs:76-84 | a response changes order exactly if its indices, all 0 by default, are out of order |
| Embeddings.PlacedIffPermutation | memoryhub/src/llm/provider/openai.rs:219-229 | the embedding of text `i` ends at position `i`, for all `i`, exactly when the indices are a permutation |
| Embeddings.ValidateIff | memoryhub/src/llm/embedder.rs:32-76 | a response is accepted exactly when it has one non-empty finite vector per text, all of one dimension, the configured one if any; else the first bad input is reported, with what is wrong with it |
| Embeddings.ChunksAligned | memoryhub/src/memory/file_op.rs:87-106 | an accepted response drops no chunk, gives all of them one dimension, and pairs each with its own vector exactly if the indices are a permutation |
| Index.ChunkIdInjective | memoryhub/src/memory/indexer.rs:228-230 | `path#i` determines path and position, even for paths that contain `#` |
| Index.Indexer.constructor | memoryhub/src/memory/indexer.rs:29-39 | a new index is empty |
| Index.Indexer.EnsureReady | memoryhub/src/memory/indexer.rs:147-176 | reading, creating and recording as separate statements, each of which may fail |
| Index.Indexer.DeleteVecs | memoryhub/src/memory/indexer.rs:210-218 | the vectors of a path are dropped in any order, and the vector table is never missed |
| Index.Indexer.InsertRows | memoryhub/src/memory/indexer.rs:228-252 | chunks and vectors go in without ever violating a key, unless a vector has another dimension |
| Index.Indexer.DoInsert | memoryhub/src/memory/indexer.rs:206-256 | the transaction replaces what the path had or changes nothing, and which of the two for every failing statement |
| Index.Indexer.DoDelete | memoryhub/src/memory/indexer.rs:258-276 | the transaction removes all the path had or changes nothing |
| Index.Indexer.HandleInsert | memoryhub/src/memory/indexer.rs:405-428 | the whole insert keeps the tables representing the entries inserted |
| Index.Indexer.HandleDelete | memoryhub/src/memory/indexer.rs:430-447 | the whole delete does so too |
| Index.Indexer.IsEmpty | memoryhub/src/memory/indexer.rs:293-300 | `chunks` is empty exactly when no file has chunks and exactly when there are no vectors |
| Index.ClearedRepresents | memoryhub/src/memory/indexer.rs:258-276 | deleting a path from all tables deletes its entry and no other |
| Index.InsertedRepresents | memoryhub/src/memory/indexer.rs:206-252 | inserting replaces the entry of the path and no other |
| Index.StepRepresents | memoryhub/src/memory/indexer.rs:206-276 | every operation, failing anywhere, leaves tables that represent the entries of the successful ones |
| Index.RunRepresents | memoryhub/src/memory/indexer.rs:206-276 | so after every run: ids coincide in `chunks`, `chunks_fts` and `chunks_vec`, are exactly `path#0`, `path#1`, ..., and every path has its file row |
| Index.TablesShow | memoryhub/src/memory/indexer.rs:206-252 | what the tables show of a represented entry: its source and size, and under `path#i` the text, lines, model and vector of chunk `i` |
| Index.ReopenRestoresNothing | memoryhub/src/memory/indexer.rs:116-133 | reopening an index finds its vector table in place |
| Index.ReopenRestores | memoryhub/src/memory/indexer.rs:116-133 | reopening creates a missing vector table of the recorded dimension |
| Index.InsertSucceedsIff | memoryhub/src/memory/indexer.rs:405-428 | on a healthy database an insert succeeds exactly when the dimensions fit; a delete always does |
| Index.InsertErrorIff | memoryhub/src/memory/indexer.rs:147-176 | an insert is refused for its dimension exactly when another one is recorded and readable, and names both |
| Index.DimRecordedIff | memoryhub/src/memory/indexer.rs:147-176 | the recorded dimension stays that of the stored vectors, exactly except after an unreadable `meta` row |
| Index.RunRecordsDim | memoryhub/src/memory/indexer.rs:147-176 | so in every run that reads `meta` the two agree |
| Index.WedgesIff | memoryhub/src/memory/indexer.rs:147-176 | after an insert with chunks, whichever statements fail, recorded and actual dimension differ exactly if it records another dimension than the table has, or they differed and it records nothing; it records when no dimension is recorded or readable |
| Index.OthersKeepWedged | memoryhub/src/memory/indexer.rs:206-276 | no other operation changes whether they differ |
| Index.WedgedInsertIff | memoryhub/src/memory/indexer.rs:147-176 | while they differ an insert with chunks succeeds exactly if `meta` cannot be read, its statements work and the chunks fit the table |
| Index.WedgeLastsIff | memoryhub/src/memory/indexer.rs:147-176 | they keep differing through a run of any operations exactly as long as no insert of the table's dimension finds `meta` unreadable and records its own, and as long as they differ every insert with chunks fails |
| Index.InterruptedCreateWedges | memoryhub/src/memory/indexer.rs:169-173 | how an empty index gets there in two inserts |
| Ranking.TopScoresUnique | memoryhub/src/memory/indexer.rs:388-391 | whatever the ties and the hash order, the descending scores of an answer are the same |
| Ranking.TopOfSeen | memoryhub/src/memory/indexer.rs:340-391 | a choice by partial scores is a choice by the true ones when each score missing or too low stands behind `limit` others |
| Searching.MergeRows | memoryhub/src/memory/indexer.rs:376-385 | each chunk keeps its best score, whatever the order of the rows |
| Searching.SortHits | memoryhub/src/memory/indexer.rs:388-390 | the in-place sort lists the same results, best first |
| Searching.DoSearch | memoryhub/src/memory/indexer.rs:302-394 | the search returns nothing without a vector table, an error for a wrong dimension, else the top `limit` of what its queries have shown |
| Searching.BestIsMaximum | memoryhub/src/memory/indexer.rs:340-385 | the best score of a chunk is the highest of its scores over the query embeddings |
| Searching.SearchSound | memoryhub/src/memory/indexer.rs:340-394 | results are distinct, pass the filters, are best first, at most `limit`, each scored one less half its least distance in the queries that returned it |
| Searching.SearchExact | memoryhub/src/memory/indexer.rs:317-394 | with enough neighbours the search is the brute-force top `limit` by best score over all embeddings, and shows those scores |
| Searching.NearestFirst | memoryhub/src/memory/indexer.rs:317-394 | so it returns the chunks nearest to the query embeddings, as many as the limit allows, nearest first, none left out nearer than one returned, each scored one less half its least distance |
| Searching.ExactIff | memoryhub/src/memory/indexer.rs:322-326 | enough neighbours is the weakest condition for that |
| Searching.WhenEnough | memoryhub/src/memory/indexer.rs:286-326 | it holds for every search of everything, for one restricted to raw memories exactly if nothing can be found, all chunks fit the limit or none is dropped, and in a scope exactly if those that fail the filters leave room among ten times the limit |
| Searching.CandidatesAre | memoryhub/src/memory/indexer.rs:327-338 | what the joins and filters let through are exactly the chunks of the indexed files in scope, with their own vectors |
| Searching.HitsInUserScope | memoryhub/src/memory/indexer.rs:317-338 | in user scope every result lies under the user's directory |
| Searching.NoEmbeddings | memoryhub/src/memory/search_op.rs:62-66 | a search without query embeddings returns nothing |
| Searching.NoChunks | memoryhub/src/memory/search_op.rs:57-60 | the empty-index short cut returns what the search would, exactly when the query dimensions match |
| Searching.NoQueryChunks | memoryhub/src/memory/search_op.rs:53-55 | a query has no chunks exactly when it is blank |
| Searching.HandleSearch | memoryhub/src/memory/search_op.rs:46-86 | with any other requests between its two messages to the index: an index found empty gives no result, and otherwise the request returns what the full search may return on the index at the second message; it fails to embed exactly when it must embed and cannot |
| FileOps.StepKeepsIff | memoryhub/src/memory/file_op.rs:61-262 | however requests overlap, fail and get lost, an event keeps every memory consistent or owed by a request under way exactly if it is harmless: a storage message stores what is indexed or removes what is not, a request ending early leaves its path consistent, or another request still owes it |
| FileOps.RunKeepsIff | memoryhub/src/memory/file_op.rs:61-262 | so this holds all through a run exactly if each event is harmless when it comes |
| FileOps.LastEventIff | memoryhub/src/memory/file_op.rs:61-262 | after an event that leaves no request between its messages on a path, the memory is consistent exactly if the event was harmless |
| FileOps.StepKeeps | memoryhub/src/memory/file_op.rs:61-262 | every event keeps this, working, failing or lost, short of an index insert into the section of another request, a failing undo and a lost storage message or insert answer |
| FileOps.IndexedIsStored | memoryhub/src/memory/file_op.rs:75-161 | in every run of such events, with any number of requests per path, an indexed memory that no request is between its index and storage messages on is stored and indexed by exactly its chunks |
| FileOps.RunLabels | memoryhub/src/memory/file_op.rs:111-120 | in every run, however requests overlap and fail, exactly the entries of memories are labelled raw and those of summaries synthesized |
| FileOps.AlwaysConsistentIff | memoryhub/src/memory/file_op.rs:75-161 | every admitted run is consistent exactly if inserts into open sections, failing undos, lost storage messages, lost insert answers and extension `tmp` are all ruled out |
| FileOps.LostStoreIff | memoryhub/src/memory/file_op.rs:127-135 | a lost storage message keeps the invariant exactly if the entry is gone already or the stored file has the chunks of the write |
| FileOps.FailedUndoIff | memoryhub/src/memory/file_op.rs:135-158 | so does a failing or lost undo |
| FileOps.LostInsertAnswerIff | memoryhub/src/memory/file_op.rs:111-120 | an index insert done whose answer is lost does so exactly if the stored file has the chunks of the write |
| FileOps.DeleteAroundWrite | memoryhub/src/memory/manager.rs:77-106 | without inserts waiting for the requests between their messages, a healthy run leaves an entry without a file |
| FileOps.WriteAroundWrite | memoryhub/src/memory/manager.rs:77-106 | and another leaves the entry of one write on the file of another, inconsistent exactly if their chunks differ |
| FileOps.UndoFails | memoryhub/src/memory/file_op.rs:135-158 | a failing undo leaves an entry without a file |
| FileOps.StoreLost | memoryhub/src/memory/file_op.rs:127-135 | a lost storage message is not undone |
| FileOps.InsertAnswerLost | memoryhub/src/memory/file_op.rs:111-120 | nor is an index insert whose answer is lost after the commit |
| FileOps.SiblingClobbered | memoryhub/src/memory/storage.rs:42-64 | a memory at a temporary sibling loses its file and keeps its entry |
| FileOps.HandleWrite | memoryhub/src/memory/file_op.rs:61-181 | the write request for every outcome of its services: nothing changes unless embedding and indexing work; on success the content is stored, indexed as raw with its size, model, chunks and vectors, and exactly then the notification is sent |
| FileOps.HandleDelete | memoryhub/src/memory/file_op.rs:214-263 | the delete request for every outcome: the file is only touched after its entry is gone |
| FileOps.WriteAloneIsRun | memoryhub/src/memory/file_op.rs:61-181 | what the write request does by itself is a run of the interleaved protocol, an admitted one unless an undo fails |
| FileOps.DeleteAloneIsRun | memoryhub/src/memory/file_op.rs:214-263 | and so is what the delete request does, always an admitted one |
| Synthesis.GroupFiles | memoryhub/src/memory/synthesizer.rs:77-86 | grouping by agent, in whatever order the set is drained |
| Synthesis.GroupsPartition | memoryhub/src/memory/synthesizer.rs:77-86 | the groups are the pending set again, nothing lost or invented |
| Synthesis.RunAgents | memoryhub/src/memory/synthesizer.rs:88-109 | the first pass in any order equals the pass without order |
| Synthesis.RunUsers | memoryhub/src/memory/synthesizer.rs:111-124 | so does the second, though each user reads when its turn comes |
| Synthesis.Synthesizer.Process | memoryhub/src/memory/synthesizer.rs:66-131 | the loops compute the order-free cascade |
| Synthesis.CascadeAt | memoryhub/src/memory/synthesizer.rs:66-131 | an agent is synthesized exactly if a file of it changed, a user exactly if one of its agents succeeded, global exactly if a user did; nothing else changes |
| Synthesis.AgentSummary | memoryhub/src/memory/synthesizer.rs:134-192 | an agent is asked exactly if a memory of it changed and all changed ones and its own summary can be read; it is told the stored ones by path and content and the others as deleted, and the reply is stored and indexed as far as the services work; otherwise nothing happens to it |
| Synthesis.UserSummary | memoryhub/src/memory/synthesizer.rs:196-247 | the same of a user, told the summaries its synthesized agents have then, by path and content |
| Synthesis.GlobalSummary | memoryhub/src/memory/synthesizer.rs:250-292 | and of the global summary, told those of the synthesized users |
| Synthesis.GlobalAskedIff | memoryhub/src/memory/synthesizer.rs:250-275 | when the global summary is asked for |
| Synthesis.AgentIsolation | memoryhub/src/memory/synthesizer.rs:134-192 | an agent's summaries do not depend on what happens to other targets |
| Synthesis.UserIsolation | memoryhub/src/memory/synthesizer.rs:196-247 | nor a user's on other users and their agents |
| Synthesis.SynthesizeInStepIff | memoryhub/src/memory/synthesizer.rs:295-324 | summaries and index stay in step exactly unless a rewritten file fails to be embedded or indexed |
| Synthesis.BlankReplyKeeps | memoryhub/src/memory/synthesizer.rs:295-306 | a blank reply overwrites nothing and counts as success |
| Synthesis.TmpStaysInFolder | memoryhub/src/memory/storage.rs:42-43 | the temporary file of a summary lies in its folder |
| Synthesis.Synthesizer.OnFileChanged | memoryhub/src/memory/synthesizer.rs:403-418 | a notification is one step of the timer machine |
| Synthesis.Synthesizer.OnTick | memoryhub/src/memory/synthesizer.rs:424-429 | a tick hands the whole pending set to one cascade |
| Synthesis.ClockInvariant | memoryhub/src/memory/synthesizer.rs:400-430 | in every run: armed iff exactly one timer or tick is outstanding, pending implies armed, and what was handed on is tick by tick what was pending |
| Synthesis.PendingIff | memoryhub/src/memory/synthesizer.rs:400-430 | pending are exactly the notifications since the last tick handled |
| Synthesis.NothingLost | memoryhub/src/memory/synthesizer.rs:65-70 | every notification is pending or was handed on, and nothing else was |
| Synthesis.PendingIsHandedOn | memoryhub/src/memory/synthesizer.rs:421-430 | the next wake-up and tick hand on what is pending |
| SynthesisTask.RenderSources | memoryhub/src/llm/synthesis.rs:79-85 | the loop renders the documents one after the other |
| SynthesisTask.OpeningShows | memoryhub/src/llm/synthesis.rs:151-164 | the model is shown the summary on disk exactly if it remembers nothing, and then every document in order with name and content |
| SynthesisTask.Task.Synthesize | memoryhub/src/llm/synthesis.rs:137-198 | what the model is shown, the new history, rollback on failure, reset over the budget |
| SynthesisTask.FailuresErased | memoryhub/src/llm/synthesis.rs:146-149 | after any run the history is that of the successful calls alone |
| SynthesisTask.RunIsConversation | memoryhub/src/llm/synthesis.rs:151-195 | it is the conversation over the successful calls since it last outgrew the budget, with the prior summary of the first of them at most |
| SynthesisTask.SizeIsBytes | memoryhub/src/llm/synthesis.rs:190-195 | the budget counts the UTF-8 bytes of all contents |
| SynthesisTask.RecentIsSuffix | memoryhub/src/llm/synthesis.rs:190-195 | these calls are the last of the successful ones |
| SynthesisTask.HistoryShape | memoryhub/src/llm/synthesis.rs:146-188 | pairs of user and assistant turns, led at most by one reseed turn |
| SynthesisTask.WithinBudget | memoryhub/src/llm/synthesis.rs:190-195 | between calls the content length is within the budget |
| TaskRegistry.LlmService.OnSynthesize | memoryhub/src/llm.rs:164-199 | a request goes to the task in the map, a new one if there is none |
| TaskRegistry.LlmService.OnTerminated | memoryhub/src/llm.rs:206-210 | a notice removes the entry of its target |
| TaskRegistry.OneTaskPerTarget | memoryhub/src/llm.rs:164-199 | in every interleaving each target has at most one running task, the one in the map |
| TaskRegistry.OneWatcherPerEntry | memoryhub/src/llm.rs:176-190 | a target has an entry exactly if a watcher or notice is outstanding for it, and then exactly one, that of the task in the entry |
| TaskRegistry.NoticeRemovesItsOwn | memoryhub/src/llm.rs:203-210 | a late notice never removes a newer task's entry |
| TaskRegistry.ReachesRunningIff | memoryhub/src/llm.rs:164-199 | a request reaches a running task exactly unless the end of its target's task is not yet known |
| TaskRegistry.StaleEntryPasses | memoryhub/src/llm.rs:176-210 | that state ends with the notice |
| Auth.AuthStore.Create | memoryhub/src/http/auth.rs:210-238 | creating a user, every error in the order the code checks |
| Auth.AuthStore.Delete | memoryhub/src/http/auth.rs:260-294 | deleting a user and its tokens, never the last admin |
| Auth.AuthStore.Mint | memoryhub/src/http/auth.rs:310-351 | minting a token for an existing user, constraint failures included |
| Auth.AuthStore.Revoke | memoryhub/src/http/auth.rs:377-390 | revoking a token |
| Auth.AuthStore.Resolve | memoryhub/src/http/auth.rs:393-419 | the user behind a digest, none if unknown or expired |
| Auth.AuthStore.Authenticate | memoryhub/src/http/middleware.rs:32-60 | the root secret counts only until an admin exists, with the right prefix only; any other request is made by the user of a token for its secret or by nobody |
| Auth.SpeakerIff | memoryhub/src/http/middleware.rs:32-60 | whom a header speaks for, stated on the header and the tables |
| Auth.RoutesIff | memoryhub/src/http/middleware.rs:66-98 | user routes are open exactly to that user, admin routes to the root and to admins, and the root is no user |
| Auth.RequestIff | memoryhub/src/http/middleware.rs:32-60 | in every run a request is a user's exactly if its header carries a secret for which a token of that user still counts |
| Auth.RunValid | memoryhub/src/http/auth.rs:180-200 | in every run tokens belong to existing users and have digests of their own |
| Auth.LastAdminIff | memoryhub/src/http/auth.rs:266-288 | a deletion is refused for the last admin exactly if the user is the only one |
| Auth.AdminForever | memoryhub/src/http/auth.rs:260-294 | once there is an admin there always is one |
| Auth.RootNeverAgain | memoryhub/src/http/middleware.rs:45-57 | from then on no request is taken for the root, and admin routes are open exactly to admins' tokens |
| Auth.TokenIff | memoryhub/src/http/auth.rs:310-390 | a token exists exactly if it was minted and neither revoked nor its user deleted since, re-created users included |
| Auth.ResolvesIff | memoryhub/src/http/auth.rs:393-419 | a secret resolves to a user exactly if such an unexpired token vouches for it |
| EndToEnd.TablesRepresent | memoryhub/src/memory/file_op.rs:61-262 | in every interleaving of requests, the tables reached by the index operations of the run represent the entries its requests take to be indexed |
| EndToEnd.ResultQuotesStoredFile | memoryhub/src/memory/file_op.rs:71-135 | a result found in the tables of a run quotes, for a memory that no request is between its messages on, a chunk of the file stored in that run |
| EndToEnd.RawOnlyFindsMemories | memoryhub/src/memory/indexer.rs:327-338 | in every run a search restricted to raw memories never returns a summary and leaves no memory out but for its scope |
| EndToEnd.FreshSummaryIsReadIff | memoryhub/src/memory/synthesizer.rs:196-224 | what the first pass writes for an agent is what the second pass reads as its latest summary, exactly unless the latest before was full and of a later day |
| EndToEnd.ResultOwner | memoryhub/src/memory/indexer.rs:317-338 | in user scope results belong to the caller, up to letter case of the name |

## Left out

- LineNumbersOverlap: line numbers below 2^32 lines only; beyond that the code truncates them, as the model does, and ChunkOverlap speaks of the lines themselves.
- AgentScopeIsPrefix: assumes an agent id without `\`, `%` and `_`, because the code does not escape it; agent ids are UUIDs.
- EveryCycleIsGood: assumes that the clock does not go back, that the folder can be read and that it starts empty, as the design does; EveryCycleOverwritesIff and EveryCycleIsReadNextIff drop the first two of these.
- SearchExact: assumes that no distance is undefined; results are sound without that (SearchSound).
- IndexedIsStored: assumes that an index insert waits for the requests between their messages on its path, a working undo, no lost storage message or insert answer and an extension other than `tmp`; AlwaysConsistentIff shows that giving up any of these admits an inconsistent run, and StepKeepsIff does without them.
- HandleWrite: messages that get lost on the way, which its services answer with an error here; the interleaved protocol has them.
- ResolvesIff: assumes that digests are injective.
- CascadeAt: takes the answers of the services target by target, so it does not model a memory that changes while the cascade runs.
- Synthesis: the summary files of a target are kept by target and file name instead of by path; FoldersDistinct and TmpStaysInFolder show that folders never meet.
- Synthesis: the order in which documents are put into a prompt.
- Directories, symbolic links, case-insensitive file systems and names such as `..`: the storage maps path strings to contents, and a name the file system refuses is a write that fails.
- SQLite's own limits, FTS tokenization, the upper limit of the vector extension on `k`, and the casts to `i64`.
- Timestamps of index rows, floating-point rounding and the byte layout of vectors: vectors are sequences of reals or non-finite components, distances are reals.
- The text of prompts, provider HTTP, retries and delays: one call has one outcome.
- The digest function, random secrets, UUIDs and the clock: parameters.
- Failing database reads in the authentication of a request, and the listing of users and tokens.
- `GetSummary`, the HTTP routes, the configuration, process supervision, the MCP server and the plugins: forwarding with no property of their own.
