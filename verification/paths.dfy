// Storage paths of raw memories and folders of synthesized summaries (memory/path.rs), with the
// username rule that keeps them apart (http/auth.rs).
module Paths {
  import opened Text

  datatype PathError = NotOneSegment(project: string) | Reserved(project: string)
  datatype PathResult = Path(path: string) | Invalid(error: PathError)

  const DEFAULT_PROJECT: string := "_default"
  const SYNTHESIZED: string := "_synthesized"

  /** Which synthesis a request targets (llm/synthesis.rs). */
  datatype Target = Agent(username: string, agentId: string) | User(username: string) | Global

  // ---------------------------------------------------------------------------
  // Validation
  // ---------------------------------------------------------------------------

  predicate UsernameChar(c: char) {
    'a' <= c <= 'z' || 'A' <= c <= 'Z' || '0' <= c <= '9' || c == '-' || c == '_'
  }

  /** `validate_username` accepts. */
  predicate ValidUsername(s: string) {
    s != [] && s != SYNTHESIZED && forall i | 0 <= i < |s| :: UsernameChar(s[i])
  }

  predicate HexOrDash(c: char) {
    '0' <= c <= '9' || 'a' <= c <= 'f' || c == '-'
  }

  /** The hyphenated lower-case form of a UUID, 36 characters. */
  predicate UuidText(s: string) {
    |s| == 36 && forall i | 0 <= i < 36 :: HexOrDash(s[i])
  }

  /** The project segment a caller's optional project resolves to. */
  function ResolveProject(project: Option<string>): PathResult {
    match project
    case None => Path(DEFAULT_PROJECT)
    case Some(raw) =>
      var p := Trim(raw);
      if p == "" then Path(DEFAULT_PROJECT)
      else if '/' in p || '\\' in p then Invalid(NotOneSegment(p))
      else if p == SYNTHESIZED || p == DEFAULT_PROJECT then Invalid(Reserved(p))
      else Path(p)
  }

  /** `/` and `\` in a filename become `_`. */
  function Flatten(filename: string): (r: string)
    ensures |r| == |filename|
    ensures forall i | 0 <= i < |r| :: r[i] == if filename[i] == '/' || filename[i] == '\\' then '_' else filename[i]
  {
    seq(|filename|, i requires 0 <= i < |filename| =>
          if filename[i] == '/' || filename[i] == '\\' then '_' else filename[i])
  }

  function Join3(a: string, b: string, c: string): string {
    a + ['/'] + (b + ['/'] + c)
  }

  function Join4(a: string, b: string, c: string, d: string): string {
    a + ['/'] + Join3(b, c, d)
  }

  function RawPath(username: string, agentId: string, project: Option<string>, filename: string): PathResult {
    match ResolveProject(project)
    case Invalid(e) => Invalid(e)
    case Path(p) => Path(Join4(username, agentId, p, Flatten(filename)))
  }

  function SynthesisFolder(t: Target): string {
    match t
    case Agent(u, a) => Join3(u, a, SYNTHESIZED)
    case User(u) => u + ['/'] + SYNTHESIZED
    case Global => SYNTHESIZED
  }

  /** A file in the folder of `t`. */
  function SynthesisPath(t: Target, name: string): string {
    SynthesisFolder(t) + ['/'] + name
  }

  predicate ValidTarget(t: Target) {
    match t
    case Agent(u, a) => ValidUsername(u) && UuidText(a)
    case User(u) => ValidUsername(u)
    case Global => true
  }

  // ---------------------------------------------------------------------------
  // Segments
  // ---------------------------------------------------------------------------

  predicate Segment(s: string) {
    forall i | 0 <= i < |s| :: s[i] != '/'
  }

  lemma SegmentFacts(u: string, a: string, f: string)
    ensures ValidUsername(u) ==> Segment(u)
    ensures UuidText(a) ==> Segment(a) && a != SYNTHESIZED
    ensures Segment(Flatten(f)) && Segment(SYNTHESIZED) && Segment(DEFAULT_PROJECT)
  {
    assert forall i | 0 <= i < 12 :: SYNTHESIZED[i] != '/';
    assert forall i | 0 <= i < 8 :: DEFAULT_PROJECT[i] != '/';
  }

  /** What a caller can name: a project is one segment and never the synthesis folder. */
  lemma ProjectSegment(project: Option<string>)
    ensures ResolveProject(project).Path? ==>
              Segment(ResolveProject(project).path) && ResolveProject(project).path != SYNTHESIZED
  {
    SegmentFacts("", "", "");
    if project.Some? {
      var p := Trim(project.value);
      assert '/' !in p ==> Segment(p);
    }
  }

  /** No project is named, or a blank one. */
  predicate NoProject(project: Option<string>) {
    project.None? || AllSpace(project.value)
  }

  /** Two callers name the same project: none, or the same name up to white space around it. */
  predicate SameProject(p: Option<string>, q: Option<string>) {
    (NoProject(p) && NoProject(q)) || (!NoProject(p) && !NoProject(q) && Trim(p.value) == Trim(q.value))
  }

  /** The project named is rejected exactly for a separator in its name or a reserved name. */
  lemma ProjectValidIff(project: Option<string>)
    ensures ResolveProject(project).Invalid? <==>
            && !NoProject(project)
            && (|| (exists i :: 0 <= i < |Trim(project.value)| && Trim(project.value)[i] in {'/', '\\'})
                || Trim(project.value) in {"_synthesized", "_default"})
    ensures NoProject(project) ==> ResolveProject(project) == Path("_default")
    ensures ResolveProject(project).Path? && !NoProject(project) ==> ResolveProject(project).path == Trim(project.value)
  {
    if project.Some? { TrimEmpty(project.value); }
  }

  lemma SameProjectIff(p: Option<string>, q: Option<string>)
    requires ResolveProject(p).Path? && ResolveProject(q).Path?
    ensures ResolveProject(p) == ResolveProject(q) <==> SameProject(p, q)
  {
    ProjectValidIff(p);
    ProjectValidIff(q);
  }

  lemma SplitSegment(a: string, x: string, b: string, y: string)
    requires Segment(a) && Segment(b) && a + ['/'] + x == b + ['/'] + y
    ensures a == b && x == y
  {
    SplitFirstUnique(a, x, b, y, '/');
  }

  /** A single segment is not a path of several. */
  lemma SegmentHasNoSlash(s: string, a: string, x: string)
    requires Segment(s)
    ensures s != a + ['/'] + x
  {
    var t := a + ['/'] + x;
    assert t[|a|] == '/';
  }

  lemma JoinsAssoc(a: string, b: string, c: string)
    ensures (a + ['/'] + b) + ['/'] + c == Join3(a, b, c)
  {}

  /** Raw paths are equal exactly when user, agent and flattened filename are and the same project is named. */
  lemma RawPathInjective(u: string, a: string, p: Option<string>, f: string, u': string, a': string,
                         p': Option<string>, f': string)
    requires ValidUsername(u) && ValidUsername(u') && UuidText(a) && UuidText(a')
    requires RawPath(u, a, p, f).Path? && RawPath(u', a', p', f').Path?
    ensures RawPath(u, a, p, f) == RawPath(u', a', p', f')
            <==> u == u' && a == a' && SameProject(p, p') && Flatten(f) == Flatten(f')
  {
    var q, q' := ResolveProject(p).path, ResolveProject(p').path;
    var g, g' := Flatten(f), Flatten(f');
    SegmentFacts(u, a, f);
    SegmentFacts(u', a', f');
    ProjectSegment(p);
    ProjectSegment(p');
    SameProjectIff(p, p');
    if Join4(u, a, q, g) == Join4(u', a', q', g') {
      SplitSegment(u, Join3(a, q, g), u', Join3(a', q', g'));
      SplitSegment(a, q + ['/'] + g, a', q' + ['/'] + g');
      SplitSegment(q, g, q', g');
    }
  }

  lemma RawVsAgent(u: string, a: string, q: string, g: string, v: string, b: string, name: string)
    requires Segment(u) && Segment(a) && Segment(q) && Segment(v) && Segment(b) && q != SYNTHESIZED
    ensures Join4(u, a, q, g) != SynthesisPath(Agent(v, b), name)
  {
    var file := SYNTHESIZED + ['/'] + name;
    SegmentFacts("", "", "");
    AgentPath(v, b, SYNTHESIZED, name);
    if Join4(u, a, q, g) == v + ['/'] + (b + ['/'] + file) {
      SplitSegment(u, Join3(a, q, g), v, b + ['/'] + file);
      SplitSegment(a, q + ['/'] + g, b, file);
      SplitSegment(q, g, SYNTHESIZED, name);
    }
  }

  lemma AgentPath(v: string, b: string, s: string, name: string)
    ensures (v + ['/'] + (b + ['/'] + s)) + ['/'] + name == v + ['/'] + (b + ['/'] + (s + ['/'] + name))
  {}

  lemma RawVsUser(u: string, a: string, q: string, g: string, v: string, name: string)
    requires Segment(u) && Segment(a) && Segment(v) && a != SYNTHESIZED
    ensures Join4(u, a, q, g) != SynthesisPath(User(v), name)
  {
    SegmentFacts("", "", "");
    JoinsAssoc(v, SYNTHESIZED, name);
    if Join4(u, a, q, g) == v + ['/'] + (SYNTHESIZED + ['/'] + name) {
      SplitSegment(u, Join3(a, q, g), v, SYNTHESIZED + ['/'] + name);
      SplitSegment(a, q + ['/'] + g, SYNTHESIZED, name);
    }
  }

  /** No raw memory is ever stored under the path of a summary, of any target and any file name. */
  lemma RawNeverSynthesized(u: string, a: string, p: Option<string>, f: string, t: Target, name: string)
    requires ValidUsername(u) && UuidText(a) && ValidTarget(t) && Segment(name)
    requires RawPath(u, a, p, f).Path?
    ensures RawPath(u, a, p, f).path != SynthesisPath(t, name)
  {
    var q, g := ResolveProject(p).path, Flatten(f);
    SegmentFacts(u, a, f);
    ProjectSegment(p);
    match t
    case Agent(v, b) =>
      SegmentFacts(v, b, f);
      RawVsAgent(u, a, q, g, v, b, name);
    case User(v) =>
      SegmentFacts(v, a, f);
      RawVsUser(u, a, q, g, v, name);
    case Global =>
      if Join4(u, a, q, g) == SYNTHESIZED + ['/'] + name {
        SplitSegment(u, Join3(a, q, g), SYNTHESIZED, name);
      }
  }

  /** Distinct targets have distinct folders, and files in them distinct paths. */
  lemma FoldersDistinct(t: Target, t': Target, name: string, name': string)
    requires ValidTarget(t) && ValidTarget(t') && Segment(name) && Segment(name')
    ensures SynthesisFolder(t) == SynthesisFolder(t') <==> t == t'
    ensures SynthesisPath(t, name) == SynthesisPath(t', name') <==> t == t' && name == name'
  {
    FolderInjective(t, t');
    if SynthesisPath(t, name) == SynthesisPath(t', name') {
      assert '/' !in name && '/' !in name';
      SplitLastUnique(SynthesisFolder(t), name, SynthesisFolder(t'), name', '/');
    }
  }

  lemma FolderInjective(t: Target, t': Target)
    requires ValidTarget(t) && ValidTarget(t')
    ensures SynthesisFolder(t) == SynthesisFolder(t') ==> t == t'
  {
    SegmentFacts("", "", "");
    match (t, t')
    case (Agent(u, a), Agent(v, b)) =>
      SegmentFacts(u, a, "");
      SegmentFacts(v, b, "");
      if Join3(u, a, SYNTHESIZED) == Join3(v, b, SYNTHESIZED) {
        SplitSegment(u, a + ['/'] + SYNTHESIZED, v, b + ['/'] + SYNTHESIZED);
        SplitSegment(a, SYNTHESIZED, b, SYNTHESIZED);
      }
    case (Agent(u, a), User(v)) => AgentVsUser(u, a, v);
    case (User(v), Agent(u, a)) => AgentVsUser(u, a, v);
    case (User(u), User(v)) =>
      SegmentFacts(u, "", "");
      SegmentFacts(v, "", "");
      if u + ['/'] + SYNTHESIZED == v + ['/'] + SYNTHESIZED { SplitSegment(u, SYNTHESIZED, v, SYNTHESIZED); }
    case (Agent(u, a), Global) => SegmentHasNoSlash(SYNTHESIZED, u, a + ['/'] + SYNTHESIZED);
    case (Global, Agent(u, a)) => SegmentHasNoSlash(SYNTHESIZED, u, a + ['/'] + SYNTHESIZED);
    case (User(u), Global) => SegmentHasNoSlash(SYNTHESIZED, u, SYNTHESIZED);
    case (Global, User(u)) => SegmentHasNoSlash(SYNTHESIZED, u, SYNTHESIZED);
    case (Global, Global) =>
  }

  lemma AgentVsUser(u: string, a: string, v: string)
    requires ValidUsername(u) && ValidUsername(v)
    ensures SynthesisFolder(Agent(u, a)) != SynthesisFolder(User(v))
  {
    SegmentFacts(u, "", "");
    SegmentFacts(v, "", "");
    SegmentHasNoSlash(SYNTHESIZED, a, SYNTHESIZED);
    if Join3(u, a, SYNTHESIZED) == v + ['/'] + SYNTHESIZED { SplitSegment(u, a + ['/'] + SYNTHESIZED, v, SYNTHESIZED); }
  }
}
