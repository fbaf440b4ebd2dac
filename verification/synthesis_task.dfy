// The conversation a summary is refined in: one history per target, rolled back when a call fails and cleared when
// it outgrows its budget (llm/synthesis.rs).
module SynthesisTask {
  import opened Text

  datatype Role = UserRole | AssistantRole
  datatype Message = Message(role: Role, content: string)
  type History = seq<Message>

  datatype SourceDoc = SourceDoc(name: string, content: string)

  /** One call: the summary on disk, the changed documents, whether the prompt template loads and what the provider
      answers, none if it fails after its retries. */
  datatype Call = Call(prior: Option<string>, sources: seq<SourceDoc>, template: Option<string>, reply: Option<string>)

  const SOURCES_HEADER: string := "New or changed documents to fold into the synthesis:\n\n"
  const RESEED_HEADER: string := "Current summary so far:\n\n"

  function Rendered(doc: SourceDoc): string {
    "## " + doc.name + "\n\n" + doc.content + "\n\n"
  }

  function RenderUpTo(sources: seq<SourceDoc>, n: nat): string
    requires n <= |sources|
  {
    if n == 0 then SOURCES_HEADER else RenderUpTo(sources, n - 1) + Rendered(sources[n - 1])
  }

  method RenderSources(sources: seq<SourceDoc>) returns (out: string)
    ensures out == RenderUpTo(sources, |sources|)
  {
    out := SOURCES_HEADER;
    var i := 0;
    while i < |sources|
      invariant i <= |sources| && out == RenderUpTo(sources, i)
    {
      out := out + Rendered(sources[i]);
      i := i + 1;
    }
  }

  function ReseedTurn(summary: string): Message {
    Message(UserRole, RESEED_HEADER + summary)
  }

  function SourcesTurn(sources: seq<SourceDoc>): Message {
    Message(UserRole, RenderUpTo(sources, |sources|))
  }

  /** `pieces` are the documents one by one, with name and content. */
  predicate Pieces(pieces: seq<string>, sources: seq<SourceDoc>) {
    && |pieces| == |sources|
    && forall k | 0 <= k < |sources| :: pieces[k] == "## " + sources[k].name + "\n\n" + sources[k].content + "\n\n"
  }

  function Concat(pieces: seq<string>): string {
    if pieces == [] then [] else pieces[0] + Concat(pieces[1..])
  }

  lemma {:induction false} ConcatSnoc(pieces: seq<string>, last: string)
    ensures Concat(pieces + [last]) == Concat(pieces) + last
  {
    if pieces == [] {
      assert [last][1..] == [] && Concat([last]) == last + Concat([]);
    } else {
      assert (pieces + [last])[1..] == pieces[1..] + [last];
      ConcatSnoc(pieces[1..], last);
    }
  }

  lemma {:induction false} RenderedPieces(sources: seq<SourceDoc>, n: nat) returns (pieces: seq<string>)
    requires n <= |sources|
    ensures Pieces(pieces, sources[..n]) && RenderUpTo(sources, n) == SOURCES_HEADER + Concat(pieces)
  {
    pieces := [];
    if n > 0 {
      var before := RenderedPieces(sources, n - 1);
      pieces := before + [Rendered(sources[n - 1])];
      ConcatSnoc(before, Rendered(sources[n - 1]));
      forall k | 0 <= k < n - 1 ensures pieces[k] == before[k] && sources[..n][k] == sources[..n - 1][k] {}
    }
  }

  /** All documents of `sources`, in order, under a heading. */
  ghost predicate Lists(text: string, sources: seq<SourceDoc>) {
    exists pieces :: Pieces(pieces, sources)
                     && text == "New or changed documents to fold into the synthesis:\n\n" + Concat(pieces)
  }

  /** The turns a call adds before the model is asked: the prior summary only to an empty history. */
  function Opening(history: History, call: Call): History {
    if history == [] && call.prior.Some? then
      [ReseedTurn(call.prior.value), SourcesTurn(call.sources)]
    else
      [SourcesTurn(call.sources)]
  }

  /** The model is shown the summary on disk first, exactly if it remembers nothing, and then all documents. */
  lemma OpeningShows(history: History, call: Call)
    ensures var added := Opening(history, call);
            && |added| == (if history == [] && call.prior.Some? then 2 else 1)
            && (|added| == 2 ==> added[0] == Message(UserRole, "Current summary so far:\n\n" + call.prior.value))
            && added[|added| - 1].role == UserRole && Lists(added[|added| - 1].content, call.sources)
  {
    var pieces := RenderedPieces(call.sources, |call.sources|);
    assert call.sources[..|call.sources|] == call.sources;
  }

  /** Total length in bytes. */
  function Size(history: History): nat {
    if history == [] then 0 else Size(history[..|history| - 1]) + ByteLen(history[|history| - 1].content)
  }

  function Contents(history: History): string {
    if history == [] then [] else Contents(history[..|history| - 1]) + history[|history| - 1].content
  }

  /** The length counted is that of all contents in UTF-8. */
  lemma {:induction false} SizeIsBytes(history: History)
    ensures Size(history) == |Utf8(Contents(history))|
  {
    if history != [] {
      var n := |history| - 1;
      SizeIsBytes(history[..n]);
      ByteLenIsUtf8(history[n].content);
      Utf8Append(Contents(history[..n]), history[n].content);
    }
  }

  predicate Succeeds(call: Call) {
    call.template.Some? && call.reply.Some?
  }

  /** The history after a call. */
  function After(history: History, call: Call, budget: nat): History {
    if !Succeeds(call) then history
    else
      var grown := history + Opening(history, call) + [Message(AssistantRole, call.reply.value)];
      if Size(grown) > budget then [] else grown
  }

  method TotalLength(history: History) returns (total: nat)
    ensures total == Size(history)
  {
    total := 0;
    var i := 0;
    while i < |history|
      invariant i <= |history| && total == Size(history[..i])
    {
      assert history[..i + 1][..i] == history[..i];
      total := total + ByteLen(history[i].content);
      i := i + 1;
    }
    assert history[..|history|] == history;
  }

  class Task {
    var history: History
    const budget: nat

    constructor (budget: nat)
      ensures history == [] && this.budget == budget
    {
      history := [];
      this.budget := budget;
    }

    /** `asked` are the messages the model is shown, without the system prompt, if it is asked at all. */
    method Synthesize(call: Call) returns (reply: Option<string>, asked: Option<History>)
      modifies this
      ensures history == After(old(history), call, budget)
      ensures reply == if Succeeds(call) then call.reply else None
      ensures asked == if call.template.None? then None else Some(old(history) + Opening(old(history), call))
    {
      if call.template.None? {
        return None, None;
      }
      var restoreLen := |history|;
      if history == [] && call.prior.Some? {
        history := history + [ReseedTurn(call.prior.value)];
      }
      var text := RenderSources(call.sources);
      history := history + [Message(UserRole, text)];
      asked := Some(history);
      assert history == old(history) + Opening(old(history), call);
      if call.reply.None? {
        history := history[..restoreLen];
        assert history == old(history);
        return None, asked;
      }
      history := history + [Message(AssistantRole, call.reply.value)];
      var total := TotalLength(history);
      if total > budget {
        history := [];
      }
      reply := call.reply;
    }
  }

  // ---------------------------------------------------------------------------
  // Whole runs
  // ---------------------------------------------------------------------------

  function Run(calls: seq<Call>, budget: nat): History {
    if calls == [] then [] else After(Run(calls[..|calls| - 1], budget), calls[|calls| - 1], budget)
  }

  predicate AllSucceed(calls: seq<Call>) {
    forall i | 0 <= i < |calls| :: Succeeds(calls[i])
  }

  /** The calls that succeeded. */
  function Successful(calls: seq<Call>): seq<Call> {
    if calls == [] then []
    else
      var n := |calls| - 1;
      if Succeeds(calls[n]) then Successful(calls[..n]) + [calls[n]] else Successful(calls[..n])
  }

  /** Failed calls leave no trace: the history is that of the successful calls alone. */
  lemma {:induction false} FailuresErased(calls: seq<Call>, budget: nat)
    ensures Run(calls, budget) == Run(Successful(calls), budget)
  {
    if calls != [] {
      var n := |calls| - 1;
      FailuresErased(calls[..n], budget);
      if Succeeds(calls[n]) {
        var kept := Successful(calls[..n]);
        assert (kept + [calls[n]])[..|kept|] == kept;
      }
    }
  }

  /** The successful calls since the conversation over them last outgrew the budget. */
  function Recent(calls: seq<Call>, budget: nat): (recent: seq<Call>)
    ensures AllSucceed(recent)
  {
    if calls == [] then []
    else
      var n := |calls| - 1;
      if !Succeeds(calls[n]) then Recent(calls[..n], budget)
      else
        var longer := Recent(calls[..n], budget) + [calls[n]];
        if Size(Conversation(longer)) > budget then [] else longer
  }

  function Exchange(call: Call): History
    requires Succeeds(call)
  {
    [SourcesTurn(call.sources), Message(AssistantRole, call.reply.value)]
  }

  function Exchanges(calls: seq<Call>): History
    requires AllSucceed(calls)
  {
    if calls == [] then [] else Exchanges(calls[..|calls| - 1]) + Exchange(calls[|calls| - 1])
  }

  /** A conversation over some calls: the prior summary of the first, then for each its sources and the reply. */
  function Conversation(calls: seq<Call>): History
    requires AllSucceed(calls)
  {
    if calls == [] then []
    else (if calls[0].prior.Some? then [ReseedTurn(calls[0].prior.value)] else []) + Exchanges(calls)
  }

  lemma ExchangesNext(calls: seq<Call>, call: Call)
    requires AllSucceed(calls) && Succeeds(call)
    ensures AllSucceed(calls + [call]) && Exchanges(calls + [call]) == Exchanges(calls) + Exchange(call)
  {
    assert (calls + [call])[..|calls|] == calls;
  }

  lemma ConversationNext(calls: seq<Call>, call: Call)
    requires AllSucceed(calls) && Succeeds(call)
    ensures AllSucceed(calls + [call])
    ensures Conversation(calls + [call])
            == Conversation(calls) + Opening(Conversation(calls), call) + [Message(AssistantRole, call.reply.value)]
  {
    var reply := Message(AssistantRole, call.reply.value);
    ExchangesNext(calls, call);
    if calls == [] {
      assert Exchanges([call]) == [] + Exchange(call);
      assert [call] == calls + [call];
    } else {
      ExchangesNotEmpty(calls);
      var head := if calls[0].prior.Some? then [ReseedTurn(calls[0].prior.value)] else [];
      assert Conversation(calls) == head + Exchanges(calls) && (calls + [call])[0] == calls[0];
      assert Exchange(call) == [SourcesTurn(call.sources)] + [reply];
      assert head + (Exchanges(calls) + Exchange(call))
             == head + Exchanges(calls) + [SourcesTurn(call.sources)] + [reply];
    }
  }

  lemma ExchangesNotEmpty(calls: seq<Call>)
    requires AllSucceed(calls) && calls != []
    ensures Exchanges(calls) != []
  {}

  /** In any run the history is exactly the conversation over the successful calls since it last outgrew the budget: the
      prior summary stands at most at its head, and only the first of these calls supplied it. */
  lemma {:induction false} RunIsConversation(calls: seq<Call>, budget: nat)
    ensures Run(calls, budget) == Conversation(Recent(calls, budget))
  {
    if calls != [] {
      var n := |calls| - 1;
      RunIsConversation(calls[..n], budget);
      if Succeeds(calls[n]) { ConversationNext(Recent(calls[..n], budget), calls[n]); }
    }
  }

  /** These calls are the last of the successful ones. */
  lemma {:induction false} RecentIsSuffix(calls: seq<Call>, budget: nat)
    ensures var all, recent := Successful(calls), Recent(calls, budget);
            |recent| <= |all| && all[|all| - |recent|..] == recent
  {
    if calls != [] { RecentIsSuffix(calls[..|calls| - 1], budget); }
  }

  /** The budget holds between any two calls. */
  lemma {:induction false} WithinBudget(calls: seq<Call>, budget: nat)
    ensures Size(Run(calls, budget)) <= budget
  {
    if calls != [] { WithinBudget(calls[..|calls| - 1], budget); }
  }

  /** User and assistant take turns. */
  predicate Alternates(history: History) {
    && |history| % 2 == 0
    && forall i | 0 <= i < |history| :: history[i].role == if i % 2 == 0 then UserRole else AssistantRole
  }

  lemma {:induction false} ExchangesAlternate(calls: seq<Call>)
    requires AllSucceed(calls)
    ensures Alternates(Exchanges(calls)) && |Exchanges(calls)| == 2 * |calls|
  {
    if calls != [] { ExchangesAlternate(calls[..|calls| - 1]); }
  }

  /** Between calls the history is nothing, or pairs of user and assistant turns, led at most by one reseed turn. */
  lemma HistoryShape(calls: seq<Call>, budget: nat)
    ensures var history := Run(calls, budget);
            Alternates(history) || (history != [] && history[0].role == UserRole && Alternates(history[1..]))
  {
    var recent := Recent(calls, budget);
    RunIsConversation(calls, budget);
    ExchangesAlternate(recent);
    if recent != [] && recent[0].prior.Some? {
      assert Conversation(recent)[1..] == Exchanges(recent);
    } else if recent != [] {
      assert Conversation(recent) == Exchanges(recent);
    }
  }
}
