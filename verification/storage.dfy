// Markdown files on disk, written through a temporary sibling and a rename (memory/storage.rs).
module FileStorage {
  import opened Text

  type Files = map<string, string>

  datatype Outcome = Done | IoError

  /** Where the steps of one write may stop. A failed temporary write leaves `partial` behind. */
  datatype WriteFault = NoFault | MkdirFails | TempFails(partial: string) | RenameFails

  function Lookup(files: Files, path: string): Option<string> {
    if path in files then Some(files[path]) else None
  }

  // ---------------------------------------------------------------------------
  // The temporary sibling
  // ---------------------------------------------------------------------------

  const TMP: string := ".tmp"

  /** `with_extension("tmp")` on a file name: a leading dot starts no extension. */
  function TmpName(name: string): string {
    var dot := LastIndex(name, '.');
    if name == ".." then name
    else if 0 < dot < |name| then name[..dot] + TMP
    else name + TMP
  }

  function LastName(path: string): string {
    var slash := LastIndex(path, '/');
    if slash == |path| then path else path[slash + 1..]
  }

  /** `with_extension("tmp")` on a path changes its file name; trailing empty and `.` segments do not count. */
  function TmpPath(path: string): string {
    var slash := LastIndex(path, '/');
    if slash == |path| then TmpName(path)
    else if LastName(path) == "" || LastName(path) == "." then TmpPath(path[..slash])
    else path[..slash + 1] + TmpName(LastName(path))
  }

  /** Storage paths begin with a username or with `_synthesized`. */
  predicate Solid(path: string) {
    path != [] && path[0] != '.' && path[0] != '/'
  }

  predicate TmpExtension(name: string) {
    name == ".." || (|name| > 4 && name[|name| - 4..] == ".tmp")
  }

  /** The file name of `path` already has the extension `tmp`, or is none. */
  predicate NamedTmp(path: string) {
    TmpExtension(LastName(path))
  }

  lemma TmpNameFixed(name: string)
    ensures TmpName(name) == name <==> TmpExtension(name)
    ensures name != "" ==> TmpExtension(TmpName(name))
  {
    var dot := LastIndex(name, '.');
    LastIndexFacts(name, '.');
    if |name| > 4 && name[|name| - 4..] == TMP {
      assert name[|name| - 4] == TMP[0] && name[|name| - 3] == TMP[1] && name[|name| - 2] == TMP[2]
          && name[|name| - 1] == TMP[3];
      LastIndexIs(name, |name| - 4, '.');
      assert name == name[..|name| - 4] + name[|name| - 4..];
    } else if 0 < dot < |name| {
      var t := name[..dot] + TMP;
      assert |t| > 4 && t[|t| - 4..] == TMP;
    } else {
      var t := name + TMP;
      assert t[|t| - 4..] == TMP;
    }
  }

  lemma TmpNameEnd(name: string)
    ensures TmpName(name) != "" && TmpName(name)[|TmpName(name)| - 1] != 'd'
  {
    var dot := LastIndex(name, '.');
    if name != ".." {
      var stem := if 0 < dot < |name| then name[..dot] else name;
      assert TmpName(name) == stem + TMP;
      assert (stem + TMP)[|stem| + 3] == TMP[3];
    }
  }

  lemma TmpNameSegment(name: string)
    requires forall i | 0 <= i < |name| :: name[i] != '/'
    ensures forall i | 0 <= i < |TmpName(name)| :: TmpName(name)[i] != '/'
  {}

  lemma LastNameOf(dir: string, name: string)
    requires forall i | 0 <= i < |name| :: name[i] != '/'
    ensures LastName(dir + ['/'] + name) == name && LastIndex(dir + ['/'] + name, '/') == |dir|
  {
    LastIndexAt(dir, name, '/');
    assert (dir + ['/'] + name)[|dir| + 1..] == name;
  }

  lemma LastNameSegment(path: string)
    ensures forall i | 0 <= i < |LastName(path)| :: LastName(path)[i] != '/'
  {
    LastIndexFacts(path, '/');
  }

  lemma CutSlash(path: string, k: nat)
    requires k < |path| && path[k] == '/'
    ensures path[..k + 1] == path[..k] + ['/'] && path == path[..k] + ['/'] + path[k + 1..]
  {}

  /** A path as its directory and its file name. */
  lemma Split(path: string) returns (dir: string, name: string)
    requires LastIndex(path, '/') < |path|
    ensures path == dir + ['/'] + name && name == LastName(path)
    ensures name != "" && name != "." ==> TmpPath(path) == dir + ['/'] + TmpName(name)
  {
    var slash := LastIndex(path, '/');
    assert path[slash] == '/' by { LastIndexFacts(path, '/'); }
    CutSlash(path, slash);
    dir, name := path[..slash], path[slash + 1..];
  }

  /** The temporary sibling always has the extension `tmp`. */
  lemma {:induction false} TmpIsTmp(path: string)
    requires Solid(path)
    ensures NamedTmp(TmpPath(path))
    decreases |path|
  {
    var slash := LastIndex(path, '/');
    LastIndexFacts(path, '/');
    TmpNameFixed(LastName(path));
    if slash == |path| {
      LastNameOfPlain(path);
    } else if LastName(path) == "" || LastName(path) == "." {
      TmpIsTmp(path[..slash]);
    } else {
      var dir, name := Split(path);
      LastNameSegment(path);
      TmpNameSegment(name);
      LastNameOf(dir, TmpName(name));
    }
  }

  lemma LastNameOfPlain(path: string)
    requires LastIndex(path, '/') == |path|
    ensures LastName(TmpName(path)) == TmpName(path)
  {
    LastIndexFacts(path, '/');
    TmpNameSegment(path);
    LastIndexFacts(TmpName(path), '/');
  }

  /** A path is its own temporary sibling exactly when its extension is `tmp` already. */
  lemma TmpPathFixed(path: string)
    requires Solid(path)
    ensures TmpPath(path) == path <==> NamedTmp(path)
  {
    var slash := LastIndex(path, '/');
    TmpNameFixed(LastName(path));
    if slash == |path| {
    } else if LastName(path) == "" || LastName(path) == "." {
      TmpIsTmp(path);
    } else {
      var dir, name := Split(path);
      SameTail(dir + ['/'], TmpName(name), name);
    }
  }

  lemma SameTail(dir: string, a: string, b: string)
    ensures dir + a == dir + b <==> a == b
  {
    if dir + a == dir + b {
      assert a == (dir + a)[|dir|..] && b == (dir + b)[|dir|..];
    }
  }

  // ---------------------------------------------------------------------------
  // What the operations do
  // ---------------------------------------------------------------------------

  datatype Op = Put(path: string, content: string, fault: WriteFault) | Remove(path: string, works: bool)

  function Succeeds(op: Op): bool {
    match op
    case Put(_, _, fault) => fault == NoFault
    case Remove(_, works) => works
  }

  function Apply(files: Files, op: Op): Files {
    match op
    case Put(path, content, NoFault) => (files - {TmpPath(path)})[path := content]
    case Put(_, _, MkdirFails) => files
    case Put(path, _, TempFails(partial)) => files[TmpPath(path) := partial]
    case Put(path, content, RenameFails) => files[TmpPath(path) := content]
    case Remove(path, works) => if works then files - {path} else files
  }

  /** The states another process can see while a write is under way, `written` being what the temporary
      file holds at some instant before it is complete. */
  function Seen(files: Files, path: string, content: string, fault: WriteFault, written: string): seq<Files> {
    var tmp := TmpPath(path);
    match fault
    case MkdirFails => [files]
    case TempFails(partial) => [files, files[tmp := written], files[tmp := partial]]
    case RenameFails => [files, files[tmp := written], files[tmp := content]]
    case NoFault => [files, files[tmp := written], files[tmp := content], (files - {tmp})[path := content]]
  }

  class Storage {
    var files: Files

    constructor ()
      ensures files == map[]
    {
      files := map[];
    }

    /** Create the parents, write the temporary file, rename it over `path`. */
    method Write(path: string, content: string, fault: WriteFault, written: string)
          returns (r: Outcome, ghost seen: seq<Files>)
      modifies this
      ensures files == Apply(old(files), Put(path, content, fault))
      ensures r == Done <==> Succeeds(Put(path, content, fault))
      ensures seen == Seen(old(files), path, content, fault, written)
    {
      seen := [files];
      var tmp := TmpPath(path);
      if fault.MkdirFails? {
        return IoError, seen;
      }
      ghost var before := files;
      files := files[tmp := written];
      seen := seen + [files];
      if fault.TempFails? {
        files := files[tmp := fault.partial];
        seen := seen + [files];
        assert files == before[tmp := fault.partial];
        return IoError, seen;
      }
      files := files[tmp := content];
      seen := seen + [files];
      assert files == before[tmp := content];
      if fault.RenameFails? {
        return IoError, seen;
      }
      var moved := files[tmp];
      files := (files - {tmp})[path := moved];
      assert files == (before - {tmp})[path := content];
      seen := seen + [files];
      r := Done;
    }

    /** A missing file is not an error; `readable` is false for any other failure. */
    method Read(path: string, readable: bool) returns (r: Outcome, content: Option<string>)
      ensures r == Done <==> readable || path !in files
      ensures content == if readable then Lookup(files, path) else None
    {
      if path !in files {
        return Done, None;
      }
      if !readable {
        return IoError, None;
      }
      return Done, Some(files[path]);
    }

    /** Deleting a missing file succeeds. */
    method Delete(path: string, works: bool) returns (r: Outcome)
      modifies this
      ensures files == Apply(old(files), Remove(path, works))
      ensures r == IoError <==> !works && path in old(files)
    {
      if path !in files {
        return Done;
      }
      if !works {
        return IoError;
      }
      files := files - {path};
      r := Done;
    }
  }

  // ---------------------------------------------------------------------------
  // Atomicity
  // ---------------------------------------------------------------------------

  /** At every instant of every write of `path`, whatever fails, a reader finds the old content or the new. */
  ghost predicate Atomic(path: string) {
    forall files: Files, content, fault, written, i ::
      0 <= i < |Seen(files, path, content, fault, written)| ==>
        Lookup(Seen(files, path, content, fault, written)[i], path) in {Lookup(files, path), Some(content)}
  }

  lemma AtomicStep(files: Files, path: string, content: string, fault: WriteFault, written: string, i: nat)
    requires TmpPath(path) != path && i < |Seen(files, path, content, fault, written)|
    ensures Lookup(Seen(files, path, content, fault, written)[i], path) in {Lookup(files, path), Some(content)}
  {}

  /** A write is atomic exactly when the path is not its own temporary sibling. */
  lemma AtomicIff(path: string)
    requires Solid(path)
    ensures Atomic(path) <==> !NamedTmp(path)
  {
    TmpPathFixed(path);
    if TmpPath(path) == path {
      var files: Files := map[path := "old"];
      var seen := Seen(files, path, "new", NoFault, "");
      assert Lookup(seen[1], path) == Some("");
      assert !Atomic(path);
    } else {
      forall files: Files, content, fault, written, i | 0 <= i < |Seen(files, path, content, fault, written)|
        ensures Lookup(Seen(files, path, content, fault, written)[i], path) in {Lookup(files, path), Some(content)}
      {
        AtomicStep(files, path, content, fault, written, i);
      }
    }
  }

  /** No operation on `path` ever changes what is stored at `other`. */
  ghost predicate Preserves(path: string, other: string) {
    forall files: Files, content, fault, written, i ::
      0 <= i < |Seen(files, path, content, fault, written)| ==>
        Lookup(Seen(files, path, content, fault, written)[i], other) == Lookup(files, other)
  }

  /** Of the other paths, only the temporary sibling is ever touched: a memory stored there is lost. */
  lemma PreservesIff(path: string, other: string)
    requires other != path
    ensures Preserves(path, other) <==> other != TmpPath(path)
  {
    if other == TmpPath(path) {
      var files: Files := map[other := "kept"];
      var seen := Seen(files, path, "new", NoFault, "");
      assert Lookup(seen[3], other) == None;
      assert !Preserves(path, other);
    }
  }

  /** A failed write keeps the old content, a successful one leaves no temporary file. */
  lemma WriteResult(files: Files, path: string, content: string, fault: WriteFault)
    requires Solid(path) && !NamedTmp(path)
    ensures var after := Apply(files, Put(path, content, fault));
            && Lookup(after, path) == (if fault == NoFault then Some(content) else Lookup(files, path))
            && (fault == NoFault ==> TmpPath(path) !in after)
  {
    TmpPathFixed(path);
  }

  // ---------------------------------------------------------------------------
  // Whole runs
  // ---------------------------------------------------------------------------

  function Run(files: Files, ops: seq<Op>): Files {
    if ops == [] then files else Apply(Run(files, ops[..|ops| - 1]), ops[|ops| - 1])
  }

  /** What the last successful operation on `path` left, or `initial` when there was none. */
  function Last(ops: seq<Op>, path: string, initial: Option<string>): Option<string> {
    if ops == [] then initial
    else
      var op := ops[|ops| - 1];
      if op.path == path && Succeeds(op) then if op.Put? then Some(op.content) else None
      else Last(ops[..|ops| - 1], path, initial)
  }

  /** `op` leaves a temporary file at `path` or moves one away from there. */
  predicate Disturbs(op: Op, path: string) {
    op.Put? && TmpPath(op.path) == path && op.fault != MkdirFails
  }

  /** Since its last successful operation `path` has not served as a temporary file. */
  predicate Undisturbed(ops: seq<Op>, path: string) {
    ops == []
    || (var op := ops[|ops| - 1];
        (op.path == path && Succeeds(op)) || (!Disturbs(op, path) && Undisturbed(ops[..|ops| - 1], path)))
  }

  /** After any run of writes and deletes, failing or not, a path holds what its last successful operation
      left there, unless it served as the temporary file of a write since. */
  lemma {:induction false} ReadAfterRun(files: Files, ops: seq<Op>, path: string)
    requires Undisturbed(ops, path)
    ensures Lookup(Run(files, ops), path) == Last(ops, path, Lookup(files, path))
  {
    if ops != [] {
      var op := ops[|ops| - 1];
      if !(op.path == path && Succeeds(op)) { ReadAfterRun(files, ops[..|ops| - 1], path); }
      LastStep(Run(files, ops[..|ops| - 1]), op, path);
    }
  }

  lemma LastStep(files: Files, op: Op, path: string)
    requires (op.path == path && Succeeds(op)) || !Disturbs(op, path)
    ensures Lookup(Apply(files, op), path)
            == if op.path == path && Succeeds(op) then if op.Put? then Some(op.content) else None
               else Lookup(files, path)
  {}
}
