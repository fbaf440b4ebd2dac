// Splitting a memory file into overlapping runs of lines (memory/chunking.rs).
module Chunking {
  import opened Text

  /** `as u32`: line numbers are stored truncated to 32 bits. */
  function AsU32(n: nat): nat {
    if n < 0x1_0000_0000 then n else n % 0x1_0000_0000
  }

  datatype TextChunk = TextChunk(text: string, startLine: nat, endLine: nat)

  // ---------------------------------------------------------------------------
  // Lines
  // ---------------------------------------------------------------------------

  function StripCr(s: string): string {
    if s != [] && s[|s| - 1] == '\r' then s[..|s| - 1] else s
  }

  predicate NoBreak(s: string) {
    FirstIndex(s, '\n') == |s|
  }

  /** No element contains a line break. */
  predicate Unbroken(ls: seq<string>) {
    forall k | 0 <= k < |ls| :: NoBreak(ls[k])
  }

  /** `str::lines` from character `i` on, with `line` read so far: a line break ends a line, a final line needs none. */
  function LinesFrom(s: string, i: nat, line: string): seq<string>
    requires i <= |s|
    decreases |s| - i
  {
    if i == |s| then (if line == [] then [] else [line])
    else if s[i] == '\n' then [StripCr(line)] + LinesFrom(s, i + 1, [])
    else LinesFrom(s, i + 1, line + [s[i]])
  }

  function Lines(s: string): seq<string> {
    LinesFrom(s, 0, [])
  }

  lemma {:induction false} LinesUnbroken(s: string, i: nat, line: string)
    requires i <= |s| && forall j | 0 <= j < |line| :: line[j] != '\n'
    ensures Unbroken(LinesFrom(s, i, line))
    decreases |s| - i
  {
    if i == |s| {
      FirstIndexIs(line, |line|, '\n');
    } else if s[i] == '\n' {
      FirstIndexIs(StripCr(line), |StripCr(line)|, '\n');
      LinesUnbroken(s, i + 1, []);
    } else {
      LinesUnbroken(s, i + 1, line + [s[i]]);
    }
  }

  // ---------------------------------------------------------------------------
  // The lines are those of the content
  // ---------------------------------------------------------------------------

  /** What may follow line `k`: a line break, with or without a carriage return, or at the end of the last line, unless
      that is empty, nothing. */
  predicate Follows(lines: seq<string>, k: nat, end: string)
    requires k < |lines|
  {
    || (end == "\n" && (lines[k] == "" || lines[k][|lines[k]| - 1] != '\r'))
    || end == "\r\n"
    || (end == "" && k == |lines| - 1 && lines[k] != "")
  }

  /** `lines`, without line breaks in them, may be followed by `ends`. */
  predicate Followed(lines: seq<string>, ends: seq<string>) {
    && |ends| == |lines|
    && forall k | 0 <= k < |lines| :: '\n' !in lines[k] && Follows(lines, k, ends[k])
  }

  /** Each line with what follows it, one after the other. */
  function Joined(lines: seq<string>, ends: seq<string>): string
    requires |ends| == |lines|
  {
    if lines == [] then "" else lines[0] + ends[0] + Joined(lines[1..], ends[1..])
  }

  lemma FollowedCons(l: string, end: string, lines: seq<string>, ends: seq<string>)
    requires Followed(lines, ends) && '\n' !in l && Follows([l], 0, end) && (end == "" ==> lines == [])
    ensures Followed([l] + lines, [end] + ends)
    ensures Joined([l] + lines, [end] + ends) == l + end + Joined(lines, ends)
  {
    var ls, es := [l] + lines, [end] + ends;
    forall k | 0 <= k < |ls|
      ensures '\n' !in ls[k] && Follows(ls, k, es[k])
    {
      if k > 0 { assert ls[k] == lines[k - 1] && es[k] == ends[k - 1]; }
    }
  }

  /** What is left to read after character `i` does not depend on what comes before it. */
  lemma {:induction false} LinesFromRest(s: string, i: nat, line: string)
    requires i <= |s|
    ensures LinesFrom(s, i, line) == LinesFrom(s[i..], 0, line)
    decreases |s| - i
  {
    if i < |s| {
      var rest := s[i..];
      assert s[i + 1..] == rest[1..] && rest[0] == s[i];
      if s[i] == '\n' {
        LinesFromRest(s, i + 1, []);
        LinesFromRest(rest, 1, []);
      } else {
        LinesFromRest(s, i + 1, line + [s[i]]);
        LinesFromRest(rest, 1, line + [s[i]]);
      }
    }
  }

  lemma {:induction false} LinesFromFollowed(s: string, line: string) returns (ends: seq<string>)
    requires '\n' !in line
    ensures Followed(LinesFrom(s, 0, line), ends) && Joined(LinesFrom(s, 0, line), ends) == line + s
    decreases |s|
  {
    if s == [] {
      ends := if line == [] then [] else [""];
      if line != [] { assert Joined([line], [""]) == line + "" + Joined([], []); }
    } else {
      var rest := s[1..];
      assert s == [s[0]] + rest;
      if s[0] == '\n' {
        LinesFromRest(s, 1, []);
        var others := LinesFromFollowed(rest, []);
        var l := StripCr(line);
        var end := if l == line then "\n" else "\r\n";
        assert line + "\n" == l + end;
        FollowedCons(l, end, LinesFrom(rest, 0, []), others);
        ends := [end] + others;
        assert line + s == (line + "\n") + rest;
      } else {
        LinesFromRest(s, 1, line + [s[0]]);
        ends := LinesFromFollowed(rest, line + [s[0]]);
        assert (line + [s[0]]) + rest == line + s;
      }
    }
  }

  /** Characters before the next line break only make the line longer. */
  lemma {:induction false} LinesFromGrow(l: string, rest: string, line: string)
    requires '\n' !in l
    ensures LinesFrom(l + rest, 0, line) == LinesFrom(rest, 0, line + l)
    decreases |l|
  {
    var s := l + rest;
    if l == [] {
      assert s == rest && line + l == line;
    } else {
      assert s[1..] == l[1..] + rest;
      assert '\n' !in l[1..];
      LinesFromRest(s, 1, line + [l[0]]);
      LinesFromGrow(l[1..], rest, line + [l[0]]);
      assert (line + [l[0]]) + l[1..] == line + l;
    }
  }

  lemma RestFollowed(lines: seq<string>, ends: seq<string>)
    requires Followed(lines, ends) && lines != []
    ensures Followed(lines[1..], ends[1..])
  {
    forall k | 0 <= k < |lines| - 1
      ensures '\n' !in lines[1..][k] && Follows(lines[1..], k, ends[1..][k])
    {
      assert Follows(lines, k + 1, ends[k + 1]);
    }
  }

  lemma {:induction false} JoinedLines(lines: seq<string>, ends: seq<string>)
    requires Followed(lines, ends)
    ensures Lines(Joined(lines, ends)) == lines
  {
    if lines != [] {
      var l, end, rest := lines[0], ends[0], Joined(lines[1..], ends[1..]);
      assert Follows(lines, 0, end);
      RestFollowed(lines, ends);
      JoinedLines(lines[1..], ends[1..]);
      assert lines == [l] + lines[1..];
      JoinedFirst(l, end, rest, lines[1..]);
    }
  }

  lemma JoinedFirst(l: string, end: string, rest: string, others: seq<string>)
    requires '\n' !in l && Follows([l] + others, 0, end) && Lines(rest) == others && (end == "" ==> rest == "")
    ensures Lines(l + end + rest) == [l] + others
  {
    var raw := if end == "\r\n" then l + "\r" else l;
    if end == "" {
      assert l + end + rest == l + [];
      LinesFromGrow(l, [], []);
      assert [] + l == l;
    } else {
      var tail := "\n" + rest;
      assert l + end + rest == raw + tail;
      LinesFromGrow(raw, tail, []);
      assert [] + raw == raw;
      LinesFromRest(tail, 1, []);
      assert tail[1..] == rest;
      assert StripCr(raw) == l;
    }
  }

  /** The lines of a content are the one way to cut it at its line breaks: without the breaks, each of which takes one
      carriage return before it along, and without an empty line at the end. */
  lemma LinesIff(content: string, lines: seq<string>)
    ensures lines == Lines(content) <==> exists ends :: Followed(lines, ends) && Joined(lines, ends) == content
  {
    var ends := LinesFromFollowed(content, []);
    assert [] + content == content;
    forall es | Followed(lines, es) && Joined(lines, es) == content
      ensures lines == Lines(content)
    {
      JoinedLines(lines, es);
    }
  }

  function Breaks(s: string): nat {
    if s == [] then 0 else Breaks(s[..|s| - 1]) + if s[|s| - 1] == '\n' then 1 else 0
  }

  lemma {:induction false} BreaksJoin(a: string, b: string)
    ensures Breaks(a + b) == Breaks(a) + Breaks(b)
  {
    if b == [] {
      assert a + b == a;
    } else {
      BreaksJoin(a, b[..|b| - 1]);
      assert (a + b)[..|a + b| - 1] == a + b[..|b| - 1];
    }
  }

  lemma {:induction false} NoBreaks(s: string)
    requires '\n' !in s
    ensures Breaks(s) == 0
  {
    if s != [] { NoBreaks(s[..|s| - 1]); }
  }

  lemma {:induction false} JoinedCount(lines: seq<string>, ends: seq<string>)
    requires Followed(lines, ends)
    ensures var s := Joined(lines, ends);
            |lines| == Breaks(s) + if s == [] || s[|s| - 1] == '\n' then 0 else 1
  {
    if lines != [] {
      var l, end, rest := lines[0], ends[0], Joined(lines[1..], ends[1..]);
      assert Follows(lines, 0, end);
      RestFollowed(lines, ends);
      JoinedCount(lines[1..], ends[1..]);
      NoBreaks(l);
      BreaksJoin(l, end);
      BreaksJoin(l + end, rest);
      EndBreaks(end);
    }
  }

  lemma EndBreaks(end: string)
    requires end == "\n" || end == "\r\n" || end == ""
    ensures Breaks(end) == if end == "" then 0 else 1
  {
    if end == "\r\n" { assert end[..1] == "\r" && "\r"[..0] == []; }
    if end == "\n" { assert end[..0] == []; }
  }

  /** There are as many lines as line breaks, and one more if text follows the last one. */
  lemma LineCount(content: string)
    ensures |Lines(content)|
            == Breaks(content) + if content == [] || content[|content| - 1] == '\n' then 0 else 1
  {
    LinesIff(content, Lines(content));
    var ends :| Followed(Lines(content), ends) && Joined(Lines(content), ends) == content;
    JoinedCount(Lines(content), ends);
  }

  // ---------------------------------------------------------------------------
  // Splitting
  // ---------------------------------------------------------------------------

  /** `split('\n')`. */
  function SplitLines(s: string): (ls: seq<string>)
    ensures |ls| >= 1
    decreases |s|
  {
    var i := FirstIndex(s, '\n');
    if i == |s| then [s] else [s[..i]] + SplitLines(s[i + 1..])
  }

  predicate AllBlank(ls: seq<string>) {
    forall k | 0 <= k < |ls| :: AllSpace(ls[k])
  }

  predicate SpaceFrom(s: string, i: nat) {
    forall j | i <= j < |s| :: IsSpace(s[j])
  }

  lemma {:induction false} BlankLinesFrom(s: string, i: nat, line: string)
    requires i <= |s|
    ensures AllBlank(LinesFrom(s, i, line)) <==> AllSpace(line) && SpaceFrom(s, i)
    decreases |s| - i
  {
    if i == |s| {
      if line != [] { assert LinesFrom(s, i, line)[0] == line; }
    } else if s[i] == '\n' {
      BlankLinesFrom(s, i + 1, []);
      StripCrBlank(line);
      AllBlankCons(StripCr(line), LinesFrom(s, i + 1, []));
      assert SpaceFrom(s, i) <==> SpaceFrom(s, i + 1);
    } else {
      BlankLinesFrom(s, i + 1, line + [s[i]]);
      AllSpaceSnoc(line, s[i]);
      assert SpaceFrom(s, i) <==> IsSpace(s[i]) && SpaceFrom(s, i + 1);
    }
  }

  lemma AllSpaceSnoc(s: string, c: char)
    ensures AllSpace(s + [c]) <==> AllSpace(s) && IsSpace(c)
  {
    var t := s + [c];
    assert forall i | 0 <= i < |s| :: t[i] == s[i];
    assert t[|s|] == c;
  }

  lemma StripCrBlank(s: string)
    ensures AllSpace(StripCr(s)) <==> AllSpace(s)
  {
    if s != [] { AllSpaceSnoc(s[..|s| - 1], s[|s| - 1]); assert s == s[..|s| - 1] + [s[|s| - 1]]; }
  }

  lemma AllBlankCons(l: string, ls: seq<string>)
    ensures AllBlank([l] + ls) <==> AllSpace(l) && AllBlank(ls)
  {
    var all := [l] + ls;
    assert all[0] == l;
    assert forall k | 0 <= k < |ls| :: ls[k] == all[k + 1];
    assert forall k | 1 <= k < |all| :: all[k] == ls[k - 1];
  }

  /** Every line of `s` is white space exactly when `s` is. */
  lemma BlankLines(s: string)
    ensures AllBlank(Lines(s)) <==> AllSpace(s)
  {
    BlankLinesFrom(s, 0, []);
  }

  // ---------------------------------------------------------------------------
  // Chunks
  // ---------------------------------------------------------------------------

  function Step(size: nat, overlap: nat): (step: nat)
    ensures step >= 1 && (size >= 1 ==> step <= size)
  {
    if size > overlap then size - overlap else 1
  }

  /** A run of lines `[from, to)`, counted from 0. */
  datatype Span = Span(from: nat, to: nat)

  /** A step the configuration can produce for `size`. */
  predicate StepFor(size: nat, step: nat) {
    step >= 1 && (size >= 1 ==> step <= size) && (size == 0 ==> step == 1)
  }

  /** Reference definition: the runs of lines from `start` on. */
  function Spans(total: nat, size: nat, step: nat, start: nat): (spans: seq<Span>)
    requires step >= 1
    ensures start < total ==> |spans| > 0
    decreases total - start
  {
    if start >= total then []
    else if start + size >= total then [Span(start, total)]
    else [Span(start, start + size)] + Spans(total, size, step, start + step)
  }

  lemma {:induction false} SpansWithin(total: nat, size: nat, step: nat, start: nat)
    requires step >= 1
    ensures Within(Spans(total, size, step, start), total)
    decreases total - start
  {
    if start + size < total { SpansWithin(total, size, step, start + step); }
  }

  predicate Within(spans: seq<Span>, total: nat) {
    forall k | 0 <= k < |spans| :: spans[k].from <= spans[k].to <= total
  }

  /** The text of a run: its lines joined with line breaks. */
  function TextOf(lines: seq<string>, from: nat, to: nat): string
    requires from <= to <= |lines|
    decreases |lines| - from
  {
    if from == to then []
    else if from + 1 == to then lines[from]
    else lines[from] + ['\n'] + TextOf(lines, from + 1, to)
  }

  function ChunkOf(lines: seq<string>, s: Span): TextChunk
    requires s.from <= s.to <= |lines|
  {
    TextChunk(TextOf(lines, s.from, s.to), AsU32(s.from + 1), AsU32(s.to))
  }

  function ChunksOf(lines: seq<string>, spans: seq<Span>): (cs: seq<TextChunk>)
    requires Within(spans, |lines|)
    ensures |cs| == |spans| && forall k | 0 <= k < |spans| :: cs[k] == ChunkOf(lines, spans[k])
  {
    seq(|spans|, k requires 0 <= k < |spans| => ChunkOf(lines, spans[k]))
  }

  /** What the chunks of `content` are, without running the loop. */
  function Chunks(content: string, size: nat, overlap: nat): seq<TextChunk> {
    var lines := Lines(content);
    if AllSpace(content) then []
    else if |lines| <= size then [TextChunk(content, 1, AsU32(|lines|))]
    else
      SpansWithin(|lines|, size, Step(size, overlap), 0);
      ChunksOf(lines, Spans(|lines|, size, Step(size, overlap), 0))
  }

  /** One turn of the loop: the runs still to come begin with the one just taken. */
  lemma TakeSpan(done: seq<Span>, total: nat, size: nat, step: nat, start: nat)
    requires step >= 1 && start < total
    ensures var span := Span(start, Min(start + size, total));
            && (start + size >= total ==> done + Spans(total, size, step, start) == done + [span])
            && (start + size < total ==>
                  done + Spans(total, size, step, start) == (done + [span]) + Spans(total, size, step, start + step))
  {}

  /** The loop computes exactly the reference chunks, for every size and overlap (0 included). */
  method ChunkText(content: string, size: nat, overlap: nat) returns (chunks: seq<TextChunk>)
    ensures chunks == Chunks(content, size, overlap)
  {
    var lines := Lines(content);
    BlankLines(content);
    if lines == [] || AllBlank(lines) {
      return [];
    }
    var total := |lines|;
    if total <= size {
      return [TextChunk(content, 1, AsU32(total))];
    }
    chunks := ChunkLines(lines, size, Step(size, overlap));
  }

  lemma PushChunk(lines: seq<string>, done: seq<Span>, span: Span)
    requires Within(done, |lines|) && span.from <= span.to <= |lines|
    ensures Within(done + [span], |lines|)
    ensures ChunksOf(lines, done + [span]) == ChunksOf(lines, done) + [ChunkOf(lines, span)]
  {
    assert (done + [span])[..|done|] == done;
  }

  method ChunkLines(lines: seq<string>, size: nat, step: nat) returns (chunks: seq<TextChunk>)
    requires step >= 1
    ensures Within(Spans(|lines|, size, step, 0), |lines|)
    ensures chunks == ChunksOf(lines, Spans(|lines|, size, step, 0))
  {
    SpansWithin(|lines|, size, step, 0);
    var total := |lines|;
    chunks := [];
    var start := 0;
    ghost var done: seq<Span> := [];
    ghost var all := Spans(total, size, step, 0);
    while start < total
      invariant done + Spans(total, size, step, start) == all
      invariant Within(done, total) && chunks == ChunksOf(lines, done)
      decreases total - start
    {
      TakeSpan(done, total, size, step, start);
      var end := Min(start + size, total);
      PushChunk(lines, done, Span(start, end));
      chunks := chunks + [ChunkOf(lines, Span(start, end))];
      done := done + [Span(start, end)];
      if end == total {
        assert done + [] == done;
        return;
      }
      start := start + step;
    }
    assert done + [] == done;
  }

  lemma LongChunks(content: string, size: nat, overlap: nat)
    requires !AllSpace(content) && size < |Lines(content)|
    ensures Within(Spans(|Lines(content)|, size, Step(size, overlap), 0), |Lines(content)|)
    ensures Chunks(content, size, overlap)
            == ChunksOf(Lines(content), Spans(|Lines(content)|, size, Step(size, overlap), 0))
  {
    SpansWithin(|Lines(content)|, size, Step(size, overlap), 0);
  }

  // ---------------------------------------------------------------------------
  // What the chunks preserve
  // ---------------------------------------------------------------------------

  /** No chunks exactly for blank content, whatever the configuration. */
  lemma NoChunksIffBlank(content: string, size: nat, overlap: nat)
    ensures Chunks(content, size, overlap) == [] <==> AllSpace(content)
  {
    BlankLines(content);
  }

  /** The lines of chunk text after its first `overlap` ones. */
  function OwnLines(c: TextChunk, overlap: nat): seq<string> {
    var ls := SplitLines(c.text);
    if overlap <= |ls| then ls[overlap..] else []
  }

  /** Puts the first `k` chunks back together: the first one whole, then each without its overlap. */
  function Rebuild(chunks: seq<TextChunk>, k: nat, overlap: nat): seq<string>
    requires k <= |chunks|
  {
    if k == 0 then []
    else if k == 1 then SplitLines(chunks[0].text)
    else Rebuild(chunks, k - 1, overlap) + OwnLines(chunks[k - 1], overlap)
  }

  /** All of `chunks`, put back together, are `lines`. */
  predicate RebuildsTo(chunks: seq<TextChunk>, overlap: nat, lines: seq<string>) {
    Rebuild(chunks, |chunks|, overlap) == lines
  }

  /** `spans` starts at line 0 and each further span begins `overlap` lines before the last one ended. */
  predicate Overlapping(spans: seq<Span>, overlap: nat, total: nat) {
    && (spans != [] ==> spans[0].from == 0)
    && (forall k | 0 <= k < |spans| :: spans[k].from < spans[k].to <= total)
    && (forall k | 0 < k < |spans| :: spans[k].from + overlap == spans[k - 1].to <= spans[k].to)
  }

  /** Lines `from` to `to`, line by line. */
  function Run(lines: seq<string>, from: nat, to: nat): (r: seq<string>)
    requires from <= to <= |lines|
    ensures |r| == to - from
    decreases |lines| - from
  {
    if from == to then [] else [lines[from]] + Run(lines, from + 1, to)
  }

  lemma {:induction false} RunJoin(lines: seq<string>, from: nat, mid: nat, to: nat)
    requires from <= mid <= to <= |lines|
    ensures Run(lines, from, mid) + Run(lines, mid, to) == Run(lines, from, to)
    decreases |lines| - from
  {
    if from < mid {
      RunJoin(lines, from + 1, mid, to);
      ConsAppend(lines[from], Run(lines, from + 1, mid), Run(lines, mid, to));
    }
  }

  lemma ConsAppend<T>(x: T, a: seq<T>, b: seq<T>)
    ensures ([x] + a) + b == [x] + (a + b)
  {}

  lemma DropPrefix<T>(a: seq<T>, b: seq<T>)
    ensures (a + b)[|a|..] == b
  {}

  lemma {:induction false} RunAll(lines: seq<string>, to: nat)
    requires to <= |lines|
    ensures Run(lines, 0, to) == lines[..to]
  {
    if to > 0 {
      RunAll(lines, to - 1);
      RunJoin(lines, 0, to - 1, to);
      assert Run(lines, to, to) == [];
    }
  }

  /** Splitting the text of a run at its line breaks gives its lines. */
  lemma {:induction false} SplitText(lines: seq<string>, from: nat, to: nat)
    requires from < to <= |lines| && Unbroken(lines)
    ensures SplitLines(TextOf(lines, from, to)) == Run(lines, from, to)
    decreases |lines| - from
  {
    if from + 1 == to {
      SplitOne(lines[from]);
      assert Run(lines, to, to) == [];
    } else {
      SplitText(lines, from + 1, to);
      SplitCons(lines[from], TextOf(lines, from + 1, to));
    }
  }

  lemma SplitOne(l: string)
    requires NoBreak(l)
    ensures SplitLines(l) == [l]
  {}

  lemma SplitCons(l: string, rest: string)
    requires NoBreak(l)
    ensures SplitLines(l + ['\n'] + rest) == [l] + SplitLines(rest)
  {
    var s := l + ['\n'] + rest;
    FirstIndexAt(l, rest, '\n');
    assert s[..|l|] == l && s[|l| + 1..] == rest;
  }

  lemma DropRun(lines: seq<string>, from: nat, mid: nat, to: nat)
    requires from <= mid <= to <= |lines|
    ensures Run(lines, from, to)[mid - from..] == Run(lines, mid, to)
  {
    RunJoin(lines, from, mid, to);
    DropPrefix(Run(lines, from, mid), Run(lines, mid, to));
  }

  lemma OwnOf(lines: seq<string>, s: Span, c: TextChunk, overlap: nat)
    requires s.from < s.to <= |lines| && s.from + overlap <= s.to && Unbroken(lines)
    requires c.text == TextOf(lines, s.from, s.to)
    ensures OwnLines(c, overlap) == Run(lines, s.from + overlap, s.to)
  {
    SplitText(lines, s.from, s.to);
    DropRun(lines, s.from, s.from + overlap, s.to);
  }

  lemma RebuildStep(lines: seq<string>, last: Span, cs: seq<TextChunk>, k: nat, overlap: nat)
    requires 1 <= k < |cs| && Unbroken(lines)
    requires last.from < last.to <= |lines| && last.from + overlap <= last.to
    requires cs[k] == ChunkOf(lines, last) && Rebuild(cs, k, overlap) == Run(lines, 0, last.from + overlap)
    ensures Rebuild(cs, k + 1, overlap) == Run(lines, 0, last.to)
  {
    OwnOf(lines, last, cs[k], overlap);
    RunJoin(lines, 0, last.from + overlap, last.to);
  }

  lemma {:induction false} RebuildSpans(lines: seq<string>, spans: seq<Span>, cs: seq<TextChunk>, k: nat, overlap: nat)
    requires Overlapping(spans, overlap, |lines|) && Within(spans, |lines|) && Unbroken(lines)
    requires cs == ChunksOf(lines, spans) && k < |spans|
    ensures Rebuild(cs, k + 1, overlap) == Run(lines, 0, spans[k].to)
  {
    assert cs[k] == ChunkOf(lines, spans[k]);
    if k == 0 {
      SplitText(lines, 0, spans[0].to);
    } else {
      RebuildSpans(lines, spans, cs, k - 1, overlap);
      assert spans[k - 1].to == spans[k].from + overlap;
      RebuildStep(lines, spans[k], cs, k, overlap);
    }
  }

  /** `k` steps, by addition. */
  function StartOf(k: nat, step: nat): nat {
    if k == 0 then 0 else StartOf(k - 1, step) + step
  }

  /** Span `k` begins `k` steps after the first one. */
  lemma {:induction false} SpanPosition(total: nat, size: nat, step: nat, start: nat, k: nat)
    requires step >= 1 && k < |Spans(total, size, step, start)|
    ensures start + StartOf(k, step) < total
    ensures Spans(total, size, step, start)[k]
            == Span(start + StartOf(k, step), Min(start + StartOf(k, step) + size, total))
    decreases k
  {
    if start + size < total {
      var rest := Spans(total, size, step, start + step);
      assert Spans(total, size, step, start) == [Span(start, start + size)] + rest;
      if k > 0 {
        SpanPosition(total, size, step, start + step, k - 1);
        assert Spans(total, size, step, start)[k] == rest[k - 1];
        assert StartOf(k, step) == StartOf(k - 1, step) + step;
      }
    }
  }

  /** Only the last span reaches the end of the file. */
  lemma {:induction false} LastSpan(total: nat, size: nat, step: nat, start: nat, k: nat)
    requires StepFor(size, step) && size >= 1 && k < |Spans(total, size, step, start)|
    ensures k == |Spans(total, size, step, start)| - 1 <==> Spans(total, size, step, start)[k].to == total
    decreases k
  {
    if start + size < total {
      var rest := Spans(total, size, step, start + step);
      assert start + step < total;
      assert Spans(total, size, step, start) == [Span(start, start + size)] + rest;
      if k > 0 {
        LastSpan(total, size, step, start + step, k - 1);
        assert Spans(total, size, step, start)[k] == rest[k - 1];
      }
    }
  }

  lemma SpanPair(total: nat, size: nat, step: nat, k: nat)
    requires StepFor(size, step) && size >= 1 && k + 1 < |Spans(total, size, step, 0)|
    ensures var spans := Spans(total, size, step, 0);
            spans[k + 1].from + (size - step) == spans[k].to <= spans[k + 1].to
  {
    SpanPosition(total, size, step, 0, k);
    SpanPosition(total, size, step, 0, k + 1);
    LastSpan(total, size, step, 0, k);
    assert StartOf(k + 1, step) == StartOf(k, step) + step;
  }

  lemma SpansOverlap(total: nat, size: nat, step: nat)
    requires StepFor(size, step) && 1 <= size < total
    ensures var spans := Spans(total, size, step, 0);
            Overlapping(spans, size - step, total) && spans[|spans| - 1].to == total
  {
    var spans := Spans(total, size, step, 0);
    forall k | 0 <= k < |spans|
      ensures spans[k].from < spans[k].to <= total
    {
      SpanPosition(total, size, step, 0, k);
    }
    forall k | 0 < k < |spans|
      ensures spans[k].from + (size - step) == spans[k - 1].to <= spans[k].to
    {
      SpanPair(total, size, step, k - 1);
    }
    LastSpan(total, size, step, 0, |spans| - 1);
  }

  lemma TakeAll<T>(s: seq<T>)
    ensures s[..|s|] == s
  {}

  lemma RebuildLines(lines: seq<string>, spans: seq<Span>, cs: seq<TextChunk>, overlap: nat)
    requires Overlapping(spans, overlap, |lines|) && Within(spans, |lines|) && Unbroken(lines)
    requires cs == ChunksOf(lines, spans) && |spans| >= 1 && spans[|spans| - 1].to == |lines|
    ensures RebuildsTo(cs, overlap, lines)
  {
    RebuildSpans(lines, spans, cs, |cs| - 1, overlap);
    RunAll(lines, |lines|);
    TakeAll(lines);
  }

  /** The runs of lines behind the chunks of a long file. */
  lemma SpansOfChunks(content: string, size: nat, overlap: nat, cs: seq<TextChunk>) returns (spans: seq<Span>)
    requires !AllSpace(content) && 1 <= size < |Lines(content)| && cs == Chunks(content, size, overlap)
    ensures Overlapping(spans, size - Step(size, overlap), |Lines(content)|) && Within(spans, |Lines(content)|)
    ensures |spans| >= 1 && spans[|spans| - 1].to == |Lines(content)|
    ensures cs == ChunksOf(Lines(content), spans)
  {
    var total, step := |Lines(content)|, Step(size, overlap);
    LongChunks(content, size, overlap);
    SpansOverlap(total, size, step);
    spans := Spans(total, size, step, 0);
  }

  lemma LinesOfUnbroken(content: string, lines: seq<string>)
    requires lines == Lines(content)
    ensures Unbroken(lines)
  {
    LinesUnbroken(content, 0, []);
  }

  lemma RebuildOf(content: string, size: nat, overlap: nat, lines: seq<string>, cs: seq<TextChunk>, shared: nat)
    requires !AllSpace(content) && lines == Lines(content) && 1 <= size < |lines|
    requires cs == Chunks(content, size, overlap) && shared == size - Step(size, overlap)
    ensures RebuildsTo(cs, shared, lines)
  {
    var spans := SpansOfChunks(content, size, overlap, cs);
    LinesOfUnbroken(content, lines);
    RebuildLines(lines, spans, cs, shared);
  }

  /** With a positive chunk size the chunk texts alone determine every line of the file, and so the file up to its line
      endings. */
  lemma ChunksRoundTrip(content: string, size: nat, overlap: nat, lines: seq<string>, cs: seq<TextChunk>)
    requires !AllSpace(content) && lines == Lines(content) && 1 <= size < |lines|
    requires cs == Chunks(content, size, overlap)
    ensures RebuildsTo(cs, Min(overlap, size - 1), lines)
    ensures exists ends :: Followed(lines, ends) && Joined(lines, ends) == content
  {
    RebuildOf(content, size, overlap, lines, cs, Min(overlap, size - 1));
    LinesIff(content, lines);
  }

  /** A file that fits is one chunk: its whole content, from line 1 to the number of its lines. */
  lemma FittingChunk(content: string, size: nat, overlap: nat)
    requires !AllSpace(content) && |Lines(content)| <= size
    ensures var count := Breaks(content) + if content[|content| - 1] == '\n' then 0 else 1;
            Chunks(content, size, overlap) == [TextChunk(content, 1, count % 0x1_0000_0000)]
  {
    LineCount(content);
  }

  /** Chunks `k` and `k + 1` of `cs` share `shared` lines, and `cs` spans lines 1 to `total`. */
  predicate OverlapsBy(cs: seq<TextChunk>, k: nat, shared: nat, total: nat)
    requires k + 1 < |cs|
  {
    && cs[k].endLine - cs[k + 1].startLine + 1 == shared
    && cs[0].startLine == 1 && cs[|cs| - 1].endLine == total
  }

  lemma OverlapLines(lines: seq<string>, spans: seq<Span>, cs: seq<TextChunk>, k: nat, shared: nat)
    requires Overlapping(spans, shared, |lines|) && Within(spans, |lines|) && |lines| < 0x1_0000_0000
    requires cs == ChunksOf(lines, spans) && k + 1 < |cs| && spans[|spans| - 1].to == |lines|
    ensures OverlapsBy(cs, k, shared, |lines|)
  {
    assert spans[k + 1].from + shared == spans[k].to;
  }

  /** Chunk `c` is the run `span` of the lines, with the line numbers of the run cut to 32 bits. */
  predicate IsRunOf(lines: seq<string>, span: Span, c: TextChunk)
    requires span.from <= span.to <= |lines|
  {
    && c.text == TextOf(lines, span.from, span.to)
    && c.startLine == (span.from + 1) % 0x1_0000_0000 && c.endLine == span.to % 0x1_0000_0000
  }

  lemma RunIs(lines: seq<string>, span: Span)
    requires span.from <= span.to <= |lines|
    ensures IsRunOf(lines, span, ChunkOf(lines, span))
  {}

  /** The chunks are runs of lines from the first to the last line, of which each shares exactly `overlap` lines with
      the one before, or all but one if that is less; only the line numbers reported are cut to 32 bits. */
  lemma ChunkOverlap(content: string, size: nat, overlap: nat, cs: seq<TextChunk>) returns (spans: seq<Span>)
    requires !AllSpace(content) && 1 <= size < |Lines(content)| && cs == Chunks(content, size, overlap)
    ensures |spans| == |cs| >= 1 && Overlapping(spans, Min(overlap, size - 1), |Lines(content)|)
    ensures spans[|spans| - 1].to == |Lines(content)|
    ensures forall k | 0 <= k < |cs| :: IsRunOf(Lines(content), spans[k], cs[k])
  {
    spans := SpansOfChunks(content, size, overlap, cs);
    forall k | 0 <= k < |cs| ensures IsRunOf(Lines(content), spans[k], cs[k]) { RunIs(Lines(content), spans[k]); }
  }

  /** So the line numbers themselves overlap by as many lines as long as they fit. */
  lemma LineNumbersOverlap(content: string, size: nat, overlap: nat, cs: seq<TextChunk>, k: nat)
    requires !AllSpace(content) && 1 <= size < |Lines(content)| < 0x1_0000_0000
    requires cs == Chunks(content, size, overlap) && k + 1 < |cs|
    ensures OverlapsBy(cs, k, Min(overlap, size - 1), |Lines(content)|)
  {
    var spans := SpansOfChunks(content, size, overlap, cs);
    OverlapLines(Lines(content), spans, cs, k, Min(overlap, size - 1));
  }

  /** How many steps of `b` it takes to cover `a`. */
  function Steps(a: int, b: nat): nat
    requires b >= 1
    decreases a
  {
    if a <= 0 then 0 else 1 + Steps(a - b, b)
  }

  /** `Steps` is division rounded up. */
  lemma {:induction false} StepsIsCeiling(a: nat, b: nat)
    requires b >= 1
    ensures Steps(a, b) == (a + b - 1) / b
    decreases a
  {
    if a == 0 {
      DivUnique(b - 1, b, 0);
    } else if a <= b {
      assert Steps(a, b) == 1 + Steps(a - b, b);
      DivUnique(a + b - 1, b, 1);
    } else {
      StepsIsCeiling(a - b, b);
      var q := (a - b + b - 1) / b;
      assert q * b <= a - b + b - 1 < q * b + b;
      assert (q + 1) * b == q * b + b;
      DivUnique(a + b - 1, b, q + 1);
    }
  }

  lemma DivUnique(a: nat, b: nat, q: nat)
    requires b >= 1 && q * b <= a < q * b + b
    ensures a / b == q
  {
    var c := a / b;
    assert c * b <= a < c * b + b;
    if q < c {
      Times(q + 1, c, b);
    } else if c < q {
      Times(c + 1, q, b);
    }
  }

  lemma Times(a: nat, b: nat, m: nat)
    requires a <= b
    ensures a * m <= b * m
  {
    assert b * m == a * m + (b - a) * m;
  }

  lemma {:induction false} SpanCount(total: nat, size: nat, step: nat, start: nat)
    requires StepFor(size, step) && start < total
    ensures |Spans(total, size, step, start)|
            == if size == 0 then total - start else Steps(total - start - size, step) + 1
    decreases total - start
  {
    if start + size < total {
      assert |Spans(total, size, step, start)| == 1 + |Spans(total, size, step, start + step)|;
      if start + step < total {
        SpanCount(total, size, step, start + step);
      }
      if size > 0 { assert Steps(total - start - size, step) == 1 + Steps(total - start - size - step, step); }
    } else if size > 0 {
      assert Steps(total - start - size, step) == 0;
    }
  }

  /** The number of chunks in closed form: the lines after the first chunk, in steps, and one more. */
  lemma ChunkCount(content: string, size: nat, overlap: nat, cs: seq<TextChunk>)
    requires !AllSpace(content) && size < |Lines(content)| && cs == Chunks(content, size, overlap)
    ensures |cs| == if size == 0 then |Lines(content)|
                    else Steps(|Lines(content)| - size, size - Min(overlap, size - 1)) + 1
  {
    var lines, step := Lines(content), Step(size, overlap);
    LongChunks(content, size, overlap);
    var start := 0;
    SpanCount(|lines|, size, step, start);
    assert |cs| == |Spans(|lines|, size, step, start)|;
  }

  /** Some chunk of `cs` has text to embed. */
  predicate HasText(cs: seq<TextChunk>) {
    exists k :: 0 <= k < |cs| && !AllSpace(cs[k].text)
  }

  lemma PositiveSizeKeepsText(content: string, size: nat, overlap: nat, cs: seq<TextChunk>)
    requires size >= 1 && !AllSpace(content) && cs == Chunks(content, size, overlap)
    ensures HasText(cs)
  {
    if |Lines(content)| <= size {
      assert cs[0].text == content;
    } else {
      ChunksRoundTrip(content, size, overlap, Lines(content), cs);
      BlankLines(content);
      if !HasText(cs) { RebuildBlank(cs, |cs|, Min(overlap, size - 1)); }
    }
  }

  lemma ZeroSizeNoText(lines: seq<string>, size: nat, step: nat, spans: seq<Span>)
    requires size == 0 && step >= 1 && spans == Spans(|lines|, size, step, 0) && Within(spans, |lines|)
    ensures !HasText(ChunksOf(lines, spans))
  {
    forall k | 0 <= k < |spans|
      ensures AllSpace(ChunksOf(lines, spans)[k].text)
    {
      SpanPosition(|lines|, size, step, 0, k);
      assert TextOf(lines, spans[k].from, spans[k].to) == [];
    }
  }

  /** Non-blank content keeps some searchable text exactly when the configured chunk size is positive. */
  lemma ChunksKeepTextIffSizePositive(content: string, size: nat, overlap: nat, cs: seq<TextChunk>)
    requires !AllSpace(content) && cs == Chunks(content, size, overlap)
    ensures size >= 1 <==> HasText(cs)
  {
    if size >= 1 {
      PositiveSizeKeepsText(content, size, overlap, cs);
    } else {
      var lines, step := Lines(content), Step(size, overlap);
      BlankLines(content);
      LongChunks(content, size, overlap);
      ZeroSizeNoText(lines, size, step, Spans(|lines|, size, step, 0));
    }
  }

  lemma {:induction false} SplitBlank(s: string)
    requires AllSpace(s)
    ensures AllBlank(SplitLines(s))
    decreases |s|
  {
    var i := FirstIndex(s, '\n');
    if i < |s| { SplitBlank(s[i + 1..]); }
  }

  lemma {:induction false} RebuildBlank(chunks: seq<TextChunk>, k: nat, overlap: nat)
    requires !HasText(chunks) && k <= |chunks|
    ensures AllBlank(Rebuild(chunks, k, overlap))
  {
    if k > 0 {
      SplitBlank(chunks[k - 1].text);
      RebuildBlank(chunks, k - 1, overlap);
    }
  }
}
