// Aligning embeddings with the texts they belong to: the response reordering of the provider
// (llm/provider/openai.rs), the validation before use (llm/embedder.rs) and the pairing with chunks
// (memory/file_op.rs).
module Embeddings {
  import opened Text
  import opened Chunking

  datatype Component = Finite(value: real) | NonFinite
  type Vector = seq<Component>

  /** One entry of a provider response; `index` is 0 when the provider leaves it out. */
  datatype Datum = Datum(index: nat, vector: Vector)

  /** A chunk ready for the index. */
  datatype Chunk = Chunk(text: string, startLine: nat, endLine: nat, embedding: Vector)

  // ---------------------------------------------------------------------------
  // Stable sorting by index
  // ---------------------------------------------------------------------------

  predicate SortedByIndex(s: seq<Datum>) {
    forall i, j | 0 <= i < j < |s| :: s[i].index <= s[j].index
  }

  /** The entries with index `k`, in order. */
  function Select(s: seq<Datum>, k: nat): seq<Datum> {
    if s == [] then []
    else if s[0].index == k then [s[0]] + Select(s[1..], k)
    else Select(s[1..], k)
  }

  /** The same entries, those of equal index in the same order. */
  ghost predicate SameGroups(s: seq<Datum>, r: seq<Datum>) {
    forall k: nat :: Select(s, k) == Select(r, k)
  }

  /** `r` is `s` sorted by index, stably. */
  ghost predicate IsStableSort(s: seq<Datum>, r: seq<Datum>) {
    |r| == |s| && SortedByIndex(r) && SameGroups(s, r)
  }

  lemma {:induction false} SelectAppend(a: seq<Datum>, b: seq<Datum>, k: nat)
    ensures Select(a + b, k) == Select(a, k) + Select(b, k)
  {
    if a == [] {
      assert a + b == b;
    } else {
      SelectAppend(a[1..], b, k);
      assert (a + b)[1..] == a[1..] + b;
    }
  }

  lemma SelectPair(x: Datum, y: Datum, k: nat)
    requires x.index != y.index
    ensures Select([x, y], k) == Select([y, x], k)
  {
    assert [x, y][1..] == [y] && [y, x][1..] == [x] && [x][1..] == [] && [y][1..] == [];
  }

  lemma SelectAround(pre: seq<Datum>, mid: seq<Datum>, post: seq<Datum>, k: nat)
    ensures Select(pre + mid + post, k) == Select(pre, k) + Select(mid, k) + Select(post, k)
  {
    SelectAppend(pre + mid, post, k);
    SelectAppend(pre, mid, k);
  }

  lemma SwapKeepsGroups(s: seq<Datum>, j: nat)
    requires 0 < j < |s| && s[j - 1].index != s[j].index
    ensures SameGroups(s, Swapped(s, j))
  {
    var pre, x, y, post := s[..j - 1], s[j - 1], s[j], s[j + 1..];
    assert s == pre + [x, y] + post;
    assert Swapped(s, j) == pre + [y, x] + post;
    forall k: nat
      ensures Select(s, k) == Select(Swapped(s, j), k)
    {
      SelectAround(pre, [x, y], post, k);
      SelectAround(pre, [y, x], post, k);
      SelectPair(x, y, k);
    }
  }

  /** Everything up to `i` is in order, except that the entry at `j` may belong further left. */
  predicate SortedBut(s: seq<Datum>, i: nat, j: nat)
    requires j <= i < |s|
  {
    && (forall p, q | 0 <= p < q <= i && q != j :: s[p].index <= s[q].index)
    && (forall q | j < q <= i :: s[j].index < s[q].index)
  }

  lemma SwapSorted(s: seq<Datum>, i: nat, j: nat)
    requires 0 < j <= i < |s| && SortedBut(s, i, j) && s[j - 1].index > s[j].index
    ensures SortedBut(Swapped(s, j), i, j - 1)
  {}

  /** The in-place stable sort of the response. */
  method SortByIndex(data: array<Datum>)
    modifies data
    ensures IsStableSort(old(data[..]), data[..])
  {
    ghost var was := data[..];
    var i := 0;
    while i < data.Length
      invariant i <= data.Length
      invariant forall p, q | 0 <= p < q < i :: data[p].index <= data[q].index
      invariant SameGroups(was, data[..])
    {
      var j := i;
      while j > 0 && data[j - 1].index > data[j].index
        invariant j <= i
        invariant SortedBut(data[..], i, j)
        invariant SameGroups(was, data[..])
      {
        SwapKeepsGroups(data[..], j);
        SwapSorted(data[..], i, j);
        ghost var s := data[..];
        data[j - 1], data[j] := data[j], data[j - 1];
        assert data[..] == Swapped(s, j);
        j := j - 1;
      }
      ghost var t := data[..];
      assert forall p, q | 0 <= p < q <= i :: t[p].index <= t[q].index;
      i := i + 1;
    }
  }

  lemma {:induction false} SelectMember(s: seq<Datum>, i: nat)
    requires i < |s|
    ensures exists p :: 0 <= p < |Select(s, s[i].index)| && Select(s, s[i].index)[p] == s[i]
  {
    var k := s[i].index;
    if i == 0 {
      assert Select(s, k)[0] == s[0];
    } else {
      SelectMember(s[1..], i - 1);
      var p :| 0 <= p < |Select(s[1..], k)| && Select(s[1..], k)[p] == s[i];
      assert Select(s, k)[if s[0].index == k then p + 1 else p] == s[i];
    }
  }

  lemma {:induction false} SelectedFrom(s: seq<Datum>, k: nat, p: nat) returns (i: nat)
    requires p < |Select(s, k)|
    ensures i < |s| && s[i] == Select(s, k)[p] && s[i].index == k
  {
    if s[0].index == k && p == 0 {
      i := 0;
    } else {
      var rest := SelectedFrom(s[1..], k, if s[0].index == k then p - 1 else p);
      i := rest + 1;
    }
  }

  /** An entry of one is an entry of the other. */
  lemma Shared(s: seq<Datum>, r: seq<Datum>, i: nat) returns (j: nat)
    requires SameGroups(s, r) && i < |s|
    ensures j < |r| && r[j] == s[i]
  {
    var k := s[i].index;
    SelectMember(s, i);
    assert Select(s, k) == Select(r, k);
    var p :| 0 <= p < |Select(s, k)| && Select(s, k)[p] == s[i];
    j := SelectedFrom(r, k, p);
  }

  lemma TailGroups(s: seq<Datum>, r: seq<Datum>)
    requires SameGroups(s, r) && s != [] && r != [] && s[0] == r[0]
    ensures SameGroups(s[1..], r[1..])
  {
    forall k: nat
      ensures Select(s[1..], k) == Select(r[1..], k)
    {
      assert Select(s, k) == Select(r, k);
      if s[0].index == k {
        assert Select(s[1..], k) == Select(s, k)[1..] && Select(r[1..], k) == Select(r, k)[1..];
      }
    }
  }

  /** There is only one stable sort of a sequence. */
  lemma {:induction false} StableSortUnique(s: seq<Datum>, r: seq<Datum>)
    requires SortedByIndex(s) && SortedByIndex(r) && SameGroups(s, r)
    ensures s == r
  {
    if s == [] || r == [] {
      if s != [] { var j := Shared(s, r, 0); }
      if r != [] { var j := Shared(r, s, 0); }
    } else {
      var a := Shared(s, r, 0);
      var b := Shared(r, s, 0);
      var k := s[0].index;
      assert r[0].index == k;
      assert Select(s, k)[0] == s[0] && Select(r, k)[0] == r[0];
      assert Select(s, k) == Select(r, k);
      TailGroups(s, r);
      StableSortUnique(s[1..], r[1..]);
      assert s == [s[0]] + s[1..] && r == [r[0]] + r[1..];
    }
  }

  /** A response already in index order keeps its order; in particular one with no indices at all. */
  lemma SortedUnchanged(s: seq<Datum>, r: seq<Datum>)
    requires IsStableSort(s, r)
    ensures r == s <==> SortedByIndex(s)
  {
    if SortedByIndex(s) { StableSortUnique(s, r); }
  }

  // ---------------------------------------------------------------------------
  // Where each entry ends up
  // ---------------------------------------------------------------------------

  /** Every index below the length of the response occurs. */
  predicate IsPermutation(s: seq<Datum>) {
    forall i | 0 <= i < |s| :: HasIndex(s, i)
  }

  predicate HasIndex(s: seq<Datum>, i: nat) {
    exists p | 0 <= p < |s| :: s[p].index == i
  }

  predicate Placed(r: seq<Datum>) {
    forall i | 0 <= i < |r| :: r[i].index == i
  }

  lemma {:induction false} NotEarlier(r: seq<Datum>, p: nat)
    requires SortedByIndex(r) && IsPermutation(r) && p < |r| && r[p].index < |r|
    ensures r[p].index <= p
    decreases r[p].index
  {
    var i := r[p].index;
    if i > 0 {
      assert HasIndex(r, i - 1);
      var q :| 0 <= q < |r| && r[q].index == i - 1;
      NotEarlier(r, q);
      assert q < p;
    }
  }

  lemma {:induction false} NotLater(r: seq<Datum>, p: nat)
    requires SortedByIndex(r) && IsPermutation(r) && p < |r| && r[p].index < |r|
    ensures p <= r[p].index
    decreases |r| - r[p].index
  {
    var i := r[p].index;
    if i + 1 < |r| {
      assert HasIndex(r, i + 1);
      var q :| 0 <= q < |r| && r[q].index == i + 1;
      NotLater(r, q);
      assert p < q;
    }
  }

  lemma HasIndexShared(s: seq<Datum>, r: seq<Datum>, i: nat)
    requires SameGroups(s, r) && HasIndex(s, i)
    ensures HasIndex(r, i)
  {
    var p :| 0 <= p < |s| && s[p].index == i;
    var q := Shared(s, r, p);
  }

  lemma SortedPermutation(r: seq<Datum>)
    requires SortedByIndex(r) && IsPermutation(r)
    ensures Placed(r)
  {
    forall i | 0 <= i < |r|
      ensures r[i].index == i
    {
      assert HasIndex(r, i);
      var p :| 0 <= p < |r| && r[p].index == i;
      NotEarlier(r, p);
      NotLater(r, p);
    }
  }

  /** The embedding of text `i` lands at position `i`, for every `i`, exactly when the indices of the
      response are a permutation of the positions. */
  lemma PlacedIffPermutation(s: seq<Datum>, r: seq<Datum>)
    requires IsStableSort(s, r)
    ensures Placed(r) <==> IsPermutation(s)
    ensures forall i | 0 <= i < |r| :: r[i] in s
  {
    forall i | 0 <= i < |r|
      ensures r[i] in s
    {
      var p := Shared(r, s, i);
    }
    if IsPermutation(s) {
      forall i | 0 <= i < |r| ensures HasIndex(r, i) { HasIndexShared(s, r, i); }
      SortedPermutation(r);
    }
    if Placed(r) {
      forall i | 0 <= i < |s| ensures HasIndex(s, i) {
        assert r[i].index == i;
        HasIndexShared(r, s, i);
      }
    }
  }

  // ---------------------------------------------------------------------------
  // Validation
  // ---------------------------------------------------------------------------

  datatype Verdict =
    | Accepted
    | CountMismatch(requested: nat, returned: nat)
    | EmptyEmbedding(input: nat)
    | WrongDimension(input: nat, expected: nat, got: nat)
    | BadComponent(input: nat, component: nat)

  /** Position of the first non-finite component, or the length. */
  function FirstBad(v: Vector): (j: nat)
    ensures j <= |v| && (j < |v| ==> v[j].NonFinite?)
    ensures forall i | 0 <= i < j :: v[i].Finite?
  {
    if v == [] || v[0].NonFinite? then 0 else 1 + FirstBad(v[1..])
  }

  function Dimension(embeddings: seq<Vector>, expected: Option<nat>): Option<nat> {
    if expected.Some? then expected else if embeddings == [] then None else Some(|embeddings[0]|)
  }

  function CheckFrom(embeddings: seq<Vector>, dim: Option<nat>, i: nat): Verdict
    requires i <= |embeddings|
    decreases |embeddings| - i
  {
    if i == |embeddings| then Accepted
    else
      var v := embeddings[i];
      if v == [] then EmptyEmbedding(i)
      else if dim.Some? && |v| != dim.value then WrongDimension(i, dim.value, |v|)
      else if FirstBad(v) < |v| then BadComponent(i, FirstBad(v))
      else CheckFrom(embeddings, dim, i + 1)
  }

  /** `validate_embeddings` for a request of `requested` texts. */
  function Validate(requested: nat, embeddings: seq<Vector>, expected: Option<nat>): Verdict {
    if |embeddings| != requested then CountMismatch(requested, |embeddings|)
    else CheckFrom(embeddings, Dimension(embeddings, expected), 0)
  }

  predicate AllFinite(v: Vector) {
    forall j | 0 <= j < |v| :: v[j].Finite?
  }

  predicate Good(v: Vector, dim: Option<nat>) {
    v != [] && AllFinite(v) && (dim.Some? ==> |v| == dim.value)
  }

  function BadInput(v: Verdict): Option<nat> {
    match v
    case Accepted => None
    case CountMismatch(_, _) => None
    case EmptyEmbedding(i) => Some(i)
    case WrongDimension(i, _, _) => Some(i)
    case BadComponent(i, _) => Some(i)
  }

  /** The verdict says what is wrong with the input it names. */
  predicate Accurate(v: Verdict, requested: nat, embeddings: seq<Vector>, dim: Option<nat>) {
    match v
    case Accepted => true
    case CountMismatch(asked, got) => asked == requested && got == |embeddings| && asked != got
    case EmptyEmbedding(i) => i < |embeddings| && embeddings[i] == []
    case WrongDimension(i, expected, got) =>
      i < |embeddings| && embeddings[i] != [] && dim == Some(expected) && got == |embeddings[i]| && got != expected
    case BadComponent(i, j) =>
      && i < |embeddings| && (dim.Some? ==> |embeddings[i]| == dim.value)
      && j < |embeddings[i]| && embeddings[i][j].NonFinite? && forall k | 0 <= k < j :: embeddings[i][k].Finite?
  }

  lemma {:induction false} CheckFromFacts(embeddings: seq<Vector>, dim: Option<nat>, i: nat)
    requires i <= |embeddings|
    ensures var v := CheckFrom(embeddings, dim, i);
            && (v == Accepted ==> forall k | i <= k < |embeddings| :: Good(embeddings[k], dim))
            && (v != Accepted ==> BadInput(v).Some? && i <= BadInput(v).value < |embeddings|
                                  && !Good(embeddings[BadInput(v).value], dim)
                                  && forall k | i <= k < BadInput(v).value :: Good(embeddings[k], dim))
            && Accurate(v, |embeddings|, embeddings, dim) && !v.CountMismatch?
    decreases |embeddings| - i
  {
    if i < |embeddings| && Good(embeddings[i], dim) { CheckFromFacts(embeddings, dim, i + 1); }
  }

  /** A response is accepted exactly when it has one vector per text, none empty, all finite and all of one
      dimension, the configured one if there is one; otherwise the first bad input is reported. */
  lemma ValidateIff(requested: nat, embeddings: seq<Vector>, expected: Option<nat>)
    ensures Validate(requested, embeddings, expected) == Accepted
            <==> && |embeddings| == requested
                 && (forall k | 0 <= k < |embeddings| :: embeddings[k] != [] && AllFinite(embeddings[k]))
                 && (forall k | 0 <= k < |embeddings| :: |embeddings[k]| == |embeddings[0]|)
                 && (expected.Some? && embeddings != [] ==> |embeddings[0]| == expected.value)
    ensures var v := Validate(requested, embeddings, expected);
            v != Accepted && |embeddings| == requested ==>
              && BadInput(v).Some? && BadInput(v).value < |embeddings|
              && !Good(embeddings[BadInput(v).value], Dimension(embeddings, expected))
              && forall k | 0 <= k < BadInput(v).value :: Good(embeddings[k], Dimension(embeddings, expected))
    ensures var v := Validate(requested, embeddings, expected);
            && Accurate(v, requested, embeddings, if expected.Some? || embeddings == [] then expected
                                                  else Some(|embeddings[0]|))
            && (v.CountMismatch? <==> |embeddings| != requested)
  {
    CheckFromFacts(embeddings, Dimension(embeddings, expected), 0);
  }

  // ---------------------------------------------------------------------------
  // From response to chunks
  // ---------------------------------------------------------------------------

  function Vectors(data: seq<Datum>): (vs: seq<Vector>)
    ensures |vs| == |data|
    ensures forall i | 0 <= i < |vs| :: vs[i] == data[i].vector
  {
    seq(|data|, i requires 0 <= i < |data| => data[i].vector)
  }

  /** `texts.zip(embeddings)`: stops at the shorter of the two. */
  function Zip(texts: seq<TextChunk>, embeddings: seq<Vector>): (chunks: seq<Chunk>)
    ensures |chunks| == Min(|texts|, |embeddings|)
    ensures forall i | 0 <= i < |chunks| ::
              chunks[i] == Chunk(texts[i].text, texts[i].startLine, texts[i].endLine, embeddings[i])
  {
    seq(Min(|texts|, |embeddings|), i requires 0 <= i < Min(|texts|, |embeddings|) =>
          Chunk(texts[i].text, texts[i].startLine, texts[i].endLine, embeddings[i]))
  }

  /** Chunks without their vectors. */
  function Texts(chunks: seq<Chunk>): (texts: seq<TextChunk>)
    ensures |texts| == |chunks|
    ensures forall i | 0 <= i < |texts| :: texts[i] == TextChunk(chunks[i].text, chunks[i].startLine, chunks[i].endLine)
  {
    seq(|chunks|, i requires 0 <= i < |chunks| => TextChunk(chunks[i].text, chunks[i].startLine, chunks[i].endLine))
  }

  /** With one embedding per text nothing is lost. */
  lemma ZipTexts(texts: seq<TextChunk>, embeddings: seq<Vector>)
    ensures Texts(Zip(texts, embeddings)) == texts <==> |texts| <= |embeddings|
  {
    var zipped := Zip(texts, embeddings);
    assert forall i | 0 <= i < |zipped| :: Texts(zipped)[i] == texts[i];
  }

  /** All vectors of an insert have the dimension of the first. */
  predicate Uniform(chunks: seq<Chunk>) {
    forall i | 0 <= i < |chunks| :: chunks[i].embedding != [] && |chunks[i].embedding| == |chunks[0].embedding|
  }

  /** Once a response is accepted no chunk is dropped and checking the first dimension is enough; and every
      chunk carries the vector answered for its own text exactly when the indices are a permutation. */
  lemma ChunksAligned(texts: seq<TextChunk>, data: seq<Datum>, sorted: seq<Datum>, expected: Option<nat>)
    requires IsStableSort(data, sorted)
    requires Validate(|texts|, Vectors(sorted), expected) == Accepted
    ensures var chunks := Zip(texts, Vectors(sorted));
            && |chunks| == |texts| == |sorted| && Uniform(chunks)
            && forall i | 0 <= i < |chunks| :: chunks[i].text == texts[i].text
                && chunks[i].embedding == sorted[i].vector
    ensures (forall i | 0 <= i < |sorted| :: sorted[i].index == i && Answered(data, i, sorted[i].vector))
            <==> IsPermutation(data)
  {
    ValidateIff(|texts|, Vectors(sorted), expected);
    PlacedIffPermutation(data, sorted);
    forall i | 0 <= i < |sorted|
      ensures Answered(data, sorted[i].index, sorted[i].vector)
    {
      var p := Shared(sorted, data, i);
    }
  }

  /** The response answers text `i` with `v`. */
  predicate Answered(data: seq<Datum>, i: nat, v: Vector) {
    exists p | 0 <= p < |data| :: data[p] == Datum(i, v)
  }
}
