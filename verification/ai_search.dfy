/** The ad-hoc search handler: a user query goes to a web search provider, the
    numbered result snippets go to a language model, and the model's reply is
    cleaned up and decoded into a list that is returned and never stored. */
module AiSearch {
  import opened Optional
  import opened Text

  // ---------------------------------------------------------------------------
  // Inputs, outside services and the response
  // ---------------------------------------------------------------------------

  /** The two API keys the handler needs; an unset key is the empty string. */
  datatype Config = Config(tavilyKey: string, geminiKey: string)

  /** The body posted to the search provider. */
  datatype TavilyRequest = TavilyRequest(
    apiKey: string,
    query: string,
    searchDepth: string,
    includeAnswer: bool,
    maxResults: int)

  /** Every search is narrowed to IT events in Kazakhstan. */
  const QueryPrefix := "Hackathons IT events in Kazakhstan "

  /** What the search provider gave back: no answer at all, or an HTTP status
      with the `results[].content` strings of the body when the body decoded. */
  datatype SearchReply = TransportError | HttpReply(status: int, contents: Option<seq<string>>)

  /** What the language model gave back for a prompt: an error, an answer
      without any candidate or part, or the text of the first part. */
  datatype Generation = GenerateError | NoContent | Reply(text: string)

  /** One event as the model describes it; `deadline` and `link` may be JSON
      nulls. */
  datatype AIHackathon = AIHackathon(
    title: string,
    date: string,
    deadline: Option<string>,
    format: string,
    city: string,
    ageLimit: string,
    link: Option<string>,
    status: string)

  /** The outside world of one request. `clientReady` says whether the model
      client could be created; `generate` answers the prompt built from the
      query and the web context (the prompt wording and today's date are not
      modelled); `decode` is the JSON decoder for a list of events. */
  datatype Services = Services(
    search: TavilyRequest -> SearchReply,
    clientReady: bool,
    generate: (string, string) -> Generation,
    decode: string -> Option<seq<AIHackathon>>)

  /** A request that left the handler. */
  datatype Call = SearchCall(request: TavilyRequest) | ModelCall(query: string, context: string)

  datatype Body = ErrorBody(message: string) | Events(items: seq<AIHackathon>)

  /** The HTTP status and body sent back, with the outside calls made on the way. */
  datatype Outcome = Outcome(status: int, body: Body, calls: seq<Call>)

  // ---------------------------------------------------------------------------
  // The search context handed to the model
  // ---------------------------------------------------------------------------

  /** The header put in front of the `n`-th snippet. */
  function SectionHeader(n: nat): string {
    "\n--- РЕЗУЛЬТАТ " + NatToString(n) + " ---\n"
  }

  /** The snippets `contents`, numbered from `first` on, each behind its header. */
  function Sections(contents: seq<string>, first: nat): string
    decreases |contents|
  {
    if |contents| == 0 then ""
    else SectionHeader(first) + contents[0] + Sections(contents[1..], first + 1)
  }

  /** All snippets in the order the provider returned them, numbered from 1. */
  function WebContext(contents: seq<string>): string {
    Sections(contents, 1)
  }

  /** Numbering a concatenation numbers the second part on from where the
      first part stopped. */
  lemma {:induction false} SectionsAppend(a: seq<string>, b: seq<string>, first: nat)
    ensures Sections(a + b, first) == Sections(a, first) + Sections(b, first + |a|)
    decreases |a|
  {
    if |a| == 0 {
      assert a + b == b;
    } else {
      assert (a + b)[1..] == a[1..] + b;
      SectionsAppend(a[1..], b, first + 1);
    }
  }

  /** Each snippet appears in the context right behind the header carrying
      its one-based position. */
  lemma {:induction false} WebContextHoldsEach(contents: seq<string>, i: nat)
    requires i < |contents|
    ensures Contains(WebContext(contents), SectionHeader(i + 1) + contents[i])
  {
    var ctx := WebContext(contents);
    assert contents == contents[..i] + contents[i..];
    SectionsAppend(contents[..i], contents[i..], 1);
    var before := Sections(contents[..i], 1);
    var piece := SectionHeader(i + 1) + contents[i];
    var rest := Sections(contents[i + 1..], i + 2);
    assert contents[i..][0] == contents[i] && contents[i..][1..] == contents[i + 1..];
    assert Sections(contents[i..], i + 1) == piece + rest;
    assert ctx == before + (piece + rest);
    assert ctx[|before|..] == piece + rest;
    assert (piece + rest)[..|piece|] == piece;
    assert HasPrefix(ctx[|before|..], piece);
    ContainsInSuffix(ctx, |before|, piece);
  }

  /** The handler's builder loop: one formatted section appended per result. */
  method BuildWebContext(contents: seq<string>) returns (ctx: string)
    ensures ctx == WebContext(contents)
    ensures forall i | 0 <= i < |contents| :: Contains(ctx, SectionHeader(i + 1) + contents[i])
  {
    ctx := "";
    for i := 0 to |contents|
      invariant ctx == Sections(contents[..i], 1)
    {
      SectionsAppend(contents[..i], [contents[i]], 1);
      assert contents[..i + 1] == contents[..i] + [contents[i]];
      assert Sections([contents[i]], 1 + i) == SectionHeader(i + 1) + contents[i];
      ctx := ctx + (SectionHeader(i + 1) + contents[i]);
    }
    assert contents[..|contents|] == contents;
    forall i | 0 <= i < |contents|
      ensures Contains(ctx, SectionHeader(i + 1) + contents[i])
    {
      WebContextHoldsEach(contents, i);
    }
  }

  // ---------------------------------------------------------------------------
  // Cleaning the model's reply
  // ---------------------------------------------------------------------------

  const JsonFence := "```json"

  /** Trims, deletes every "```json" and then every "```" wherever they stand,
      and trims again. */
  function StripMarkdown(raw: string): (r: string)
    ensures IsTrimmed(r)
    ensures !Contains(r, Fence)
  {
    var noJson := ReplaceAll(TrimSpace(raw), JsonFence, "");
    var noFence := ReplaceAll(noJson, Fence, "");
    RemoveFencesLeavesNone(noJson);
    TrimSpaceSlice(noFence, Fence);
    TrimSpace(noFence)
  }

  /** A string without `sub` stays without it once trimmed. */
  lemma TrimSpaceSlice(s: string, sub: string)
    requires !Contains(s, sub)
    ensures !Contains(TrimSpace(s), sub)
  {
    var left := TrimLeft(s);
    var k := |s| - |left|;
    if Contains(TrimSpace(s), sub) {
      assert TrimSpace(s) == left[..|TrimSpace(s)|];
      ContainsInPrefix(left, |TrimSpace(s)|, sub);
      ContainsInSuffix(s, k, sub);
    }
  }

  /** Keeps the stretch from the first "[" through the last "]" when both are
      there in that order; anything else is left as it is. */
  function BracketSpan(s: string): (r: string)
    ensures r == s || (|r| >= 2 && r[0] == '[' && r[|r| - 1] == ']')
    ensures exists i, j | 0 <= i <= j <= |s| :: r == s[i..j]
  {
    var start := IndexOf(s, '[');
    if start == -1 then (assert s == s[0..|s|]; s)
    else
      var end := LastIndexOf(s, ']');
      if end != -1 && end >= start then s[start..end + 1] else (assert s == s[0..|s|]; s)
  }

  /** Some "[" stands at or before some "]". */
  predicate HasBracketPair(s: string) {
    exists i, j | 0 <= i <= j < |s| :: s[i] == '[' && s[j] == ']'
  }

  /** Any "[" lies at or after the first one, any "]" at or before the last one. */
  lemma BracketPairBounds(s: string, i: int, j: int)
    requires 0 <= i <= j < |s| && s[i] == '[' && s[j] == ']'
    ensures 0 <= IndexOf(s, '[') <= i && j <= LastIndexOf(s, ']')
  {
    assert s[i] in s && s[j] in s;
    var first := IndexOf(s, '[');
    assert forall k | 0 <= k < first :: s[..first][k] == s[k];
    var last := LastIndexOf(s, ']');
    assert forall k | last < k < |s| :: s[last + 1..][k - last - 1] == s[k];
  }

  /** The bracket span, stated without positions found by search: when some
      "[" precedes some "]" it is the stretch from the first "[" through the
      last "]". */
  lemma BracketSpanOfPair(s: string)
    requires HasBracketPair(s)
    ensures exists i, j | 0 <= i <= j < |s| ::
      && s[i] == '[' && s[j] == ']' && '[' !in s[..i] && ']' !in s[j + 1..]
      && BracketSpan(s) == s[i..j + 1]
  {
    var i, j :| 0 <= i <= j < |s| && s[i] == '[' && s[j] == ']';
    BracketPairBounds(s, i, j);
    var start := IndexOf(s, '[');
    var end := LastIndexOf(s, ']');
    assert 0 <= start <= end < |s|;
    assert s[start] == '[' && s[end] == ']' && '[' !in s[..start] && ']' !in s[end + 1..];
    assert BracketSpan(s) == s[start..end + 1];
  }

  /** Otherwise the text is kept whole. */
  lemma BracketSpanWithoutPair(s: string)
    requires !HasBracketPair(s)
    ensures BracketSpan(s) == s
  {
    var start := IndexOf(s, '[');
    var end := LastIndexOf(s, ']');
    if start != -1 && end != -1 && end >= start {
      PairFromIndices(s);
      assert false;
    }
  }

  /** The first "[" and the last "]", in that order, are a bracket pair. */
  lemma PairFromIndices(s: string)
    requires IndexOf(s, '[') != -1 && LastIndexOf(s, ']') != -1 && LastIndexOf(s, ']') >= IndexOf(s, '[')
    ensures HasBracketPair(s)
  {
    var start := IndexOf(s, '[');
    var end := LastIndexOf(s, ']');
    assert s[start] == '[' && s[end] == ']';
  }

  /** Taking the bracket span twice is taking it once. */
  lemma BracketSpanIdempotent(s: string)
    ensures BracketSpan(BracketSpan(s)) == BracketSpan(s)
  {
    var r := BracketSpan(s);
    if r != s {
      assert IndexOf(r, '[') == 0;
      assert LastIndexOf(r, ']') == |r| - 1;
      assert r[0..|r|] == r;
    }
  }

  /** A JSON array standing between text with no "[" before it and no "]"
      after it is cut out exactly. */
  lemma {:induction false} BracketSpanFinds(u: string, p: string, v: string)
    requires |p| >= 2 && p[0] == '[' && p[|p| - 1] == ']'
    requires '[' !in u && ']' !in v
    ensures BracketSpan(u + p + v) == p
  {
    var s := u + p + v;
    assert s[|u|] == '[' && s[..|u|] == u;
    assert IndexOf(s, '[') == |u|;
    var e := |u| + |p| - 1;
    assert s[e] == ']' && s[e + 1..] == v;
    assert LastIndexOf(s, ']') == e;
    assert s[|u|..e + 1] == p;
  }

  /** The whole cleanup of the model's reply before decoding. */
  function CleanArrayReply(raw: string): (r: string)
    ensures !Contains(r, Fence)
    ensures BracketSpan(r) == r
  {
    var stripped := StripMarkdown(raw);
    var r := BracketSpan(stripped);
    assert !Contains(r, Fence) by {
      var i, j :| 0 <= i <= j <= |stripped| && r == stripped[i..j];
      if Contains(r, Fence) {
        ContainsInSlice(stripped, i, j, Fence);
      }
    }
    BracketSpanIdempotent(stripped);
    r
  }

  /** The opening "```json" fence goes, the array passes untouched and the
      closing "```" is too short to match. */
  lemma DropJsonFence(p: string)
    requires '`' !in p
    ensures ReplaceAll(JsonFence + p + Fence, JsonFence, "") == p + Fence
  {
    assert JsonFence + p + Fence == JsonFence + (p + Fence);
    ReplaceAllFront(p + Fence, JsonFence, "");
    ReplaceAllSkip(p, Fence, JsonFence, "");
    assert ReplaceAll(Fence, JsonFence, "") == Fence;
  }

  /** The closing fence goes, and the array before it passes untouched. */
  lemma DropClosingFence(p: string)
    requires '`' !in p
    ensures ReplaceAll(p + Fence, Fence, "") == p
  {
    ReplaceAllSkip(p, Fence, Fence, "");
    assert Fence == Fence + [];
    ReplaceAllFront([], Fence, "");
    assert p + [] == p;
  }

  /** A string without backticks passes both fence removals unchanged. */
  lemma NoFencesToDrop(t: string)
    requires '`' !in t
    ensures ReplaceAll(ReplaceAll(t, JsonFence, ""), Fence, "") == t
  {
    assert t + [] == t;
    ReplaceAllSkip(t, [], JsonFence, "");
    ReplaceAllSkip(t, [], Fence, "");
  }

  /** An array, read as text, already has no white space at its ends and is
      its own bracket span. */
  lemma ArrayIsClean(p: string)
    requires |p| >= 2 && p[0] == '[' && p[|p| - 1] == ']'
    ensures TrimSpace(p) == p && BracketSpan(p) == p
  {
    TrimSpaceOfTrimmed(p);
    BracketSpanFinds([], p, []);
    assert [] + p + [] == p;
  }

  /** A reply wrapped in a "```json" fence, with only white space around the
      fence and between the fence and the array (the usual layout puts a line
      break on each side), gives back exactly the array inside it, provided
      the array holds no backtick. */
  lemma FencedArrayRecovered(w1: string, w3: string, p: string, w4: string, w2: string)
    requires AllSpace(w1) && AllSpace(w2) && AllSpace(w3) && AllSpace(w4)
    requires |p| >= 2 && p[0] == '[' && p[|p| - 1] == ']' && '`' !in p
    ensures CleanArrayReply(w1 + JsonFence + w3 + p + w4 + Fence + w2) == p
  {
    var inner := w3 + p + w4;
    assert '`' !in inner by {
      assert !IsSpace('`');
      assert forall i | 0 <= i < |w3| :: w3[i] != '`';
      assert forall i | 0 <= i < |w4| :: w4[i] != '`';
    }
    var fenced := JsonFence + inner + Fence;
    assert w1 + JsonFence + w3 + p + w4 + Fence + w2 == w1 + fenced + w2;
    StripFencedReply(w1, inner, w2);
    TrimSpacePadded(w3, p, w4);
    ArrayIsClean(p);
  }

  /** Every "```" is deleted wherever it stands, inside JSON string values
      too: an array holding one is never served as the model wrote it. */
  lemma FenceInsideArrayLost(raw: string, p: string)
    requires Contains(p, Fence)
    ensures CleanArrayReply(raw) != p
  {
  }

  /** Markdown stripping of a fenced reply keeps the trimmed text inside. */
  lemma StripFencedReply(w1: string, inner: string, w2: string)
    requires AllSpace(w1) && AllSpace(w2) && '`' !in inner
    ensures StripMarkdown(w1 + (JsonFence + inner + Fence) + w2) == TrimSpace(inner)
  {
    var fenced := JsonFence + inner + Fence;
    TrimSpacePadded(w1, fenced, w2);
    TrimSpaceOfTrimmed(fenced);
    DropJsonFence(inner);
    DropClosingFence(inner);
  }

  /** A reply with prose around the array and no backtick in either: the
      prose is cut away as long as it holds no bracket that would widen the
      span. */
  lemma ProseAroundArrayRecovered(u: string, p: string, v: string)
    requires |p| >= 2 && p[0] == '[' && p[|p| - 1] == ']'
    requires '`' !in u && '`' !in p && '`' !in v
    requires '[' !in u && ']' !in v
    ensures CleanArrayReply(u + p + v) == p
  {
    var lu, rv := TrimLeft(u), TrimRight(v);
    TrimSpaceAround(u, p, v);
    assert lu == u[|u| - |lu|..] && rv == v[..|rv|];
    assert '`' !in lu + p + rv;
    StripMarkdownWithoutBackticks(u + p + v);
    BracketSpanFinds(lu, p, rv);
  }

  /** A reply without backticks only loses its surrounding white space. */
  lemma StripMarkdownWithoutBackticks(raw: string)
    requires '`' !in TrimSpace(raw)
    ensures StripMarkdown(raw) == TrimSpace(raw)
  {
    var t := TrimSpace(raw);
    NoFencesToDrop(t);
    TrimSpaceOfTrimmed(t);
  }

  // ---------------------------------------------------------------------------
  // The handler
  // ---------------------------------------------------------------------------

  /** The search request for a trimmed user query. */
  function SearchRequest(cfg: Config, query: string): (req: TavilyRequest)
    ensures HasPrefix(req.query, QueryPrefix) && req.query[|QueryPrefix|..] == query
    ensures req.apiKey == cfg.tavilyKey && req.searchDepth == "advanced"
    ensures !req.includeAnswer && req.maxResults == 5
  {
    TavilyRequest(cfg.tavilyKey, QueryPrefix + query, "advanced", false, 5)
  }

  /** The model step for a non-empty list of snippets: create the client,
      send the numbered context, clean and decode the reply. */
  function AskModel(query: string, contents: seq<string>, svc: Services): (r: Outcome)
    requires |contents| > 0
    // the model is asked once, about exactly the numbered snippets, unless
    // its client cannot be created
    ensures svc.clientReady <==> r.calls == [ModelCall(query, WebContext(contents))]
    ensures !svc.clientReady ==> r.calls == [] && r.status == 500
    ensures r.status in {200, 500}
    ensures r.status == 200 <==> r.body.Events?
    // a list is the empty answer or exactly what the cleaned reply decodes to
    ensures r.body.Events? ==>
      var gen := svc.generate(query, WebContext(contents));
      (gen == NoContent && r.body.items == [])
      || (gen.Reply? && svc.decode(CleanArrayReply(gen.text)) == Some(r.body.items))
    // a reply that does not decode is an error, never a partial list
    ensures svc.clientReady ==>
      var gen := svc.generate(query, WebContext(contents));
      gen.Reply? && svc.decode(CleanArrayReply(gen.text)).None? ==> r.status == 500
    // a failed generation is an error
    ensures svc.clientReady && svc.generate(query, WebContext(contents)) == GenerateError ==> r.status == 500
    // an answer without content is the empty list
    ensures svc.clientReady && svc.generate(query, WebContext(contents)) == NoContent ==>
      r.status == 200 && r.body == Events([])
    // a reply that decodes is served as decoded
    ensures svc.clientReady ==>
      var gen := svc.generate(query, WebContext(contents));
      gen.Reply? && svc.decode(CleanArrayReply(gen.text)).Some? ==>
        r.status == 200 && r.body == Events(svc.decode(CleanArrayReply(gen.text)).value)
  {
    if !svc.clientReady then Outcome(500, ErrorBody("Failed to initialize AI processor"), [])
    else
      var context := WebContext(contents);
      var asked := [ModelCall(query, context)];
      match svc.generate(query, context)
      case GenerateError => Outcome(500, ErrorBody("Failed to process search results via AI"), asked)
      case NoContent => Outcome(200, Events([]), asked)
      case Reply(raw) =>
        match svc.decode(CleanArrayReply(raw))
        case None => Outcome(500, ErrorBody("Failed to parse AI response"), asked)
        case Some(items) => Outcome(200, Events(items), asked)
  }

  /** What one request to the search endpoint yields: the status, the body
      and the outside calls made on the way, first the search and then at
      most one model call. */
  function SearchAI(cfg: Config, rawQuery: string, svc: Services): (r: Outcome)
    ensures r.status == 200 <==> r.body.Events?
    ensures |r.calls| >= 1 ==> r.calls[0] == SearchCall(SearchRequest(cfg, TrimSpace(rawQuery)))
    // a blank query is a bad request and a missing key a server error, and
    // in neither case does anything leave the handler
    ensures r.status == 400 <==> TrimSpace(rawQuery) == ""
    ensures r.calls == [] <==> TrimSpace(rawQuery) == "" || cfg.tavilyKey == "" || cfg.geminiKey == ""
    ensures r.calls == [] && r.status != 400 ==> r.status == 500
    // past the guards, what follows the search decides the response
    ensures r.calls != [] ==>
      var after := AfterSearch(TrimSpace(rawQuery), svc.search(SearchRequest(cfg, TrimSpace(rawQuery))), svc);
      r.calls[1..] == after.calls && r.status == after.status && r.body == after.body
  {
    var query := TrimSpace(rawQuery);
    if query == "" then Outcome(400, ErrorBody("Query parameter 'q' is required"), [])
    else if cfg.tavilyKey == "" || cfg.geminiKey == "" then
      Outcome(500, ErrorBody("Server misconfigured: missing API keys"), [])
    else
      var req := SearchRequest(cfg, query);
      Behind(SearchCall(req), AfterSearch(query, svc.search(req), svc))
  }

  /** The outcome `after` with the call `first` made before everything it did. */
  function Behind(first: Call, after: Outcome): (r: Outcome)
    ensures |r.calls| >= 1 && r.calls[0] == first && r.calls[1..] == after.calls
    ensures r.status == after.status && r.body == after.body
  {
    assert ([first] + after.calls)[1..] == after.calls;
    Outcome(after.status, after.body, [first] + after.calls)
  }

  /** Everything after the search request went out, for a trimmed non-blank
      query: the provider's answer is checked, and a non-empty list of
      results goes to the model step. */
  function AfterSearch(query: string, reply: SearchReply, svc: Services): (r: Outcome)
    ensures r.status in {200, 500, 502}
    ensures r.status == 200 <==> r.body.Events?
    ensures r.status == 502 <==> !reply.HttpReply? || reply.status != 200
    ensures reply == HttpReply(200, Some([])) ==> r == Outcome(200, Events([]), [])
    ensures reply == HttpReply(200, None) ==> r.status == 500 && r.calls == []
    ensures r.calls == [] || (reply.HttpReply? && reply.contents.Some? && |reply.contents.value| > 0
                              && r.calls == [ModelCall(query, WebContext(reply.contents.value))])
    ensures reply.HttpReply? && reply.status == 200 && reply.contents.Some? && |reply.contents.value| > 0 ==>
      r == AskModel(query, reply.contents.value, svc)
  {
    match reply
    case TransportError => Outcome(502, ErrorBody("Failed to search the web"), [])
    case HttpReply(status, contents) =>
      if status != 200 then Outcome(502, ErrorBody("Web search provider returned an error"), [])
      else if contents.None? then Outcome(500, ErrorBody("Error parsing web search results"), [])
      else if |contents.value| == 0 then Outcome(200, Events([]), [])
      else AskModel(query, contents.value, svc)
  }
}
