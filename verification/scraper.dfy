/** The ingestion cycle of the scraper: reading posts out of a channel preview
    page, the keyword and age gates, cleaning and converting the language
    model's JSON reply, and the title-keyed deduplication in front of the store.
    The network, the HTML parser, the language model, the JSON decoder and the
    database are parameters. */
module Scraper {
  import opened Optional
  import opened Text
  import opened Seqs
  import opened Dates
  import opened Records

  // ---------------------------------------------------------------------------
  // Posts on a channel page
  // ---------------------------------------------------------------------------

  /** One message block of a channel preview page: the text of its message-text
      element, when it has one, and the `datetime` attribute of its `<time>`
      element, when it has one. */
  datatype Block = Block(text: Option<string>, datetime: Option<string>)

  datatype ScrapedPost = ScrapedPost(text: string, publishedAt: Instant)

  /** What fetching one channel page gives: a transport error, a non-200 status
      or unparsable HTML, or the message blocks in document order. */
  datatype ChannelFetch = FetchFailed | Fetched(blocks: seq<Block>)

  /** The channels polled on every cycle. */
  const Channels: seq<string> :=
    ["astanahub", "uppertunity", "nuris_nu", "terriconvalley", "bluescreenkz", "kolesa_team", "tce_kz", "hackathons_ru"]

  /** The topical keyword test, applied to the lower-cased text. */
  predicate MentionsHackathon(lowered: string) {
    Contains(lowered, "хакатон") || Contains(lowered, "hackathon")
  }

  /** What one block contributes: a post when it has a text and a timestamp
      attribute that parses as RFC 3339 and its text mentions the keyword. The
      post keeps the trimmed text in its original case. */
  function BlockToPost(b: Block, parseTime: string -> Option<Instant>): (r: Option<ScrapedPost>)
    ensures r.Some? <==> b.text.Some? && b.datetime.Some? && parseTime(b.datetime.value).Some?
                         && MentionsHackathon(Lower(TrimSpace(b.text.value)))
    ensures r.Some? ==> r.value.text == TrimSpace(b.text.value)
                        && r.value.publishedAt == parseTime(b.datetime.value).value
  {
    match b.text
    case None => None
    case Some(raw) =>
      var text := TrimSpace(raw);
      var lowerText := Lower(text);
      match b.datetime
      case None => None
      case Some(attr) =>
        match parseTime(attr)
        case None => None
        case Some(publishedAt) =>
          if MentionsHackathon(lowerText) then Some(ScrapedPost(text, publishedAt)) else None
  }

  /** The posts of one channel page: one per qualifying block, in document order. */
  function ScrapeChannel(blocks: seq<Block>, parseTime: string -> Option<Instant>): (posts: seq<ScrapedPost>)
    ensures |posts| <= |blocks|
    ensures forall j | 0 <= j < |posts| :: IsTrimmed(posts[j].text) && MentionsHackathon(Lower(posts[j].text))
    ensures forall j | 0 <= j < |posts| :: exists i :: 0 <= i < |blocks| && BlockToPost(blocks[i], parseTime) == Some(posts[j])
    ensures forall i | 0 <= i < |blocks| :: BlockToPost(blocks[i], parseTime).Some? ==> BlockToPost(blocks[i], parseTime).value in posts
  {
    FilterMap(b => BlockToPost(b, parseTime), blocks)
  }

  /** Posts of earlier blocks come before posts of later blocks. */
  lemma ScrapeChannelOrder(a: seq<Block>, b: seq<Block>, parseTime: string -> Option<Instant>)
    ensures ScrapeChannel(a + b, parseTime) == ScrapeChannel(a, parseTime) + ScrapeChannel(b, parseTime)
  {
    FilterMapAppend(b => BlockToPost(b, parseTime), a, b);
  }

  lemma TrimExample()
    ensures TrimSpace(" ХАКАТОН AI ") == "ХАКАТОН AI"
  {
    var core := "ХАКАТОН AI";
    assert " ХАКАТОН AI " == " " + core + " ";
    assert IsTrimmed(core) && |core| > 0;
    TrimOneSpaceEachSide(core);
  }

  lemma CapitalKeywordExample()
    ensures MentionsHackathon(Lower("ХАКАТОН AI"))
  {
    var lowered := Lower("ХАКАТОН AI");
    assert forall i | 0 <= i < 7 :: lowered[i] == "хакатон"[i];
    assert HasPrefix(lowered, "хакатон");
  }

  /** The keyword test ignores case, but the stored text keeps it; white space
      around the text is dropped. */
  lemma KeywordIgnoresCase(parseTime: string -> Option<Instant>, at: Instant)
    requires parseTime("2026-02-21T15:04:05+05:00") == Some(at)
    ensures BlockToPost(Block(Some(" ХАКАТОН AI "), Some("2026-02-21T15:04:05+05:00")), parseTime)
            == Some(ScrapedPost("ХАКАТОН AI", at))
  {
    TrimExample();
    CapitalKeywordExample();
  }

  // ---------------------------------------------------------------------------
  // The age gate
  // ---------------------------------------------------------------------------

  /** A post is processed unless it was published strictly before the cutoff
      (two calendar months before the start of the cycle). */
  predicate IsFresh(post: ScrapedPost, cutoff: Instant) {
    !(post.publishedAt < cutoff)
  }

  // ---------------------------------------------------------------------------
  // Cleaning and converting the model's reply
  // ---------------------------------------------------------------------------

  const JsonFenceOpen := "```json\n"
  const FenceOpen := "```\n"
  const FenceClose := "\n```"

  /** Strips at most one "```json\n" prefix, then at most one "```\n" prefix,
      then at most one "\n```" suffix, then surrounding white space. */
  function CleanFences(raw: string): (r: string)
    ensures IsTrimmed(r)
    ensures |r| <= |raw|
  {
    TrimSpace(TrimSuffix(TrimPrefix(TrimPrefix(raw, JsonFenceOpen), FenceOpen), FenceClose))
  }

  /** A reply with no fence at either end and no surrounding white space is
      left exactly as it is. */
  lemma CleanFencesKeepsBareReply(s: string)
    requires !HasPrefix(s, JsonFenceOpen) && !HasPrefix(s, FenceOpen) && !HasSuffix(s, FenceClose)
    requires IsTrimmed(s)
    ensures CleanFences(s) == s
  {
    TrimSpaceOfTrimmed(s);
  }

  lemma NoFenceOpenAfter(p: string)
    requires !HasPrefix(p, Fence)
    ensures !HasPrefix(p + FenceClose, FenceOpen)
  {
    if |p| >= 3 {
      assert (p + FenceClose)[..3] == p[..3] != Fence;
    } else {
      assert (p + FenceClose)[|p|] == '\n' != FenceOpen[|p|];
    }
  }

  /** The closing fence comes off again. */
  lemma DropFenceClose(p: string)
    ensures TrimSuffix(p + FenceClose, FenceClose) == p
  {
    assert HasSuffix(p + FenceClose, FenceClose) && (p + FenceClose)[..|p|] == p;
  }

  /** A payload wrapped in a "```json" fence cleans to the same text as the
      bare payload. */
  lemma CleanFencesUnwrapsJson(p: string)
    requires !HasPrefix(p, Fence) && !HasSuffix(p, FenceClose)
    ensures CleanFences(JsonFenceOpen + p + FenceClose) == TrimSpace(p)
  {
    var body := p + FenceClose;
    assert TrimPrefix(JsonFenceOpen + p + FenceClose, JsonFenceOpen) == body by {
      assert JsonFenceOpen + p + FenceClose == JsonFenceOpen + body;
      TrimPrefixConcat(JsonFenceOpen, body);
    }
    assert TrimPrefix(body, FenceOpen) == body by {
      NoFenceOpenAfter(p);
    }
    DropFenceClose(p);
  }

  /** So does a payload wrapped in an untagged fence. */
  lemma CleanFencesUnwrapsPlain(p: string)
    requires !HasPrefix(p, Fence) && !HasSuffix(p, FenceClose)
    ensures CleanFences(FenceOpen + p + FenceClose) == TrimSpace(p)
  {
    var body := p + FenceClose;
    var w := FenceOpen + p + FenceClose;
    assert TrimPrefix(w, JsonFenceOpen) == w by {
      assert w[3] == '\n' != JsonFenceOpen[3];
    }
    assert TrimPrefix(w, FenceOpen) == body by {
      assert w == FenceOpen + body;
      TrimPrefixConcat(FenceOpen, body);
    }
    DropFenceClose(p);
  }

  /** A payload with no fence at its start or end only loses white space. */
  lemma CleanFencesOfBare(p: string)
    requires !HasPrefix(p, Fence) && !HasSuffix(p, FenceClose)
    ensures CleanFences(p) == TrimSpace(p)
  {
    assert !HasPrefix(p, JsonFenceOpen) by {
      if |p| >= 8 { assert p[..3] == p[..8][..3]; }
    }
    assert TrimPrefix(p, JsonFenceOpen) == p;
    assert !HasPrefix(p, FenceOpen) by {
      if |p| >= 4 { assert p[..3] == p[..4][..3]; }
    }
    assert TrimPrefix(p, FenceOpen) == p;
    assert TrimSuffix(p, FenceClose) == p;
  }

  /** The closing fence is only recognised at the very end: a fenced payload
      followed by a line break keeps its closing fence, since the fences come
      off before the white space does. */
  lemma CleanFencesKeepsCloseBeforeNewline(p: string)
    requires |p| > 0 && IsTrimmed(p) && !HasPrefix(p, Fence)
    ensures CleanFences(JsonFenceOpen + p + FenceClose + "\n") == p + FenceClose
  {
    var closed := p + FenceClose;
    FencesStayBeforeNewline(p);
    assert closed[0] == p[0] && closed[|closed| - 1] == '`';
    TrimTrailingBreak(closed);
  }

  /** None of the three fence removals applies to a fenced payload followed
      by a line break, except the opening "```json\n". */
  lemma FencesStayBeforeNewline(p: string)
    requires !HasPrefix(p, Fence)
    ensures TrimSuffix(TrimPrefix(TrimPrefix(JsonFenceOpen + p + FenceClose + "\n", JsonFenceOpen), FenceOpen), FenceClose)
         == p + FenceClose + "\n"
  {
    var closed := p + FenceClose;
    var body := closed + "\n";
    assert TrimPrefix(JsonFenceOpen + p + FenceClose + "\n", JsonFenceOpen) == body by {
      assert JsonFenceOpen + p + FenceClose + "\n" == JsonFenceOpen + body;
      TrimPrefixConcat(JsonFenceOpen, body);
    }
    assert TrimPrefix(body, FenceOpen) == body by {
      NoFenceOpenAfter(p);
      assert body[..4] == closed[..4];
    }
    assert body[|body| - 1] == '\n' != FenceClose[3];
  }

  /** A trailing line break comes off a trimmed, non-empty text. */
  lemma TrimTrailingBreak(c: string)
    requires |c| > 0 && IsTrimmed(c)
    ensures TrimSpace(c + "\n") == c
  {
    assert AllSpace("\n") && AllSpace([]);
    assert [] + c + "\n" == c + "\n";
    TrimSpacePadded([], c, "\n");
    TrimSpaceOfTrimmed(c);
  }

  /** Only one "```json\n" is stripped per call: a doubled opening fence
      leaves the second one in place. */
  lemma CleanFencesStripsOnce(p: string)
    requires |p| >= 4 && IsTrimmed(p) && !HasSuffix(p, FenceClose)
    ensures CleanFences(JsonFenceOpen + JsonFenceOpen + p) == JsonFenceOpen + p
  {
    var t := JsonFenceOpen + p;
    var s := JsonFenceOpen + t;
    assert s == JsonFenceOpen + JsonFenceOpen + p;
    assert s[..|JsonFenceOpen|] == JsonFenceOpen && s[|JsonFenceOpen|..] == t;
    assert t[3] == 'j' != FenceOpen[3];
    assert t[|t| - 4..] == p[|p| - 4..];
    assert t[0] == '`' && t[|t| - 1] == p[|p| - 1];
    TrimSpaceOfTrimmed(t);
  }

  /** The JSON object the model is asked for. `city` and `link` are JSON
      strings or null; the other fields are strings, a null leaving them "". */
  datatype AIResponse = AIResponse(
    title: string,
    dateStr: string,
    deadline: string,
    format: string,
    city: Option<string>,
    ageLimit: string,
    link: Option<string>,
    status: string)

  /** An optional text field: a JSON null or the string "null" becomes "". */
  function NullableText(v: Option<string>): (r: string)
    ensures v.None? || v.value == NullText ==> r == ""
    ensures v.Some? && v.value != NullText ==> r == v.value
  {
    match v
    case Some(s) => if s != NullText then s else ""
    case None => ""
  }

  /** The deadline: set exactly when the field is neither "" nor "null" and
      parses as `YYYY-MM-DD`; the date held prints back as the field's text. */
  function DeadlineOf(s: string): (r: Option<Date>)
    ensures r.Some? <==> s != "" && s != NullText && ParseIsoDate(s).Some?
    ensures r.Some? ==> IsValidDate(r.value) && HasFourDigitYear(r.value) && FormatIsoDate(r.value) == s
  {
    if s != "" && s != NullText then
      var parsed := ParseIsoDate(s);
      if parsed.Some? then FormatParseRoundTrip(s); parsed else None
    else None
  }

  /** The deadline as stored: midnight UTC of the parsed date, if any. */
  function DeadlineInstant(s: string): (r: Option<Instant>)
    ensures r.Some? <==> DeadlineOf(s).Some?
    ensures r.Some? ==> r.value == MidnightUtc(DeadlineOf(s).value)
  {
    match DeadlineOf(s)
    case Some(d) => Some(MidnightUtc(d))
    case None => None
  }

  /** Converts the decoded reply into a record: title, date text, format, age
      limit and status are copied verbatim; city and link lose a null. */
  function ToRecord(ai: AIResponse): (h: Hackathon)
    ensures h.title == ai.title && h.date == ai.dateStr && h.format == ai.format
    ensures h.ageLimit == ai.ageLimit && h.status == ai.status
    ensures h.city == NullableText(ai.city) && h.link == NullableText(ai.link)
    ensures h.deadline.Some? <==> DeadlineOf(ai.deadline).Some?
    ensures h.deadline.Some? ==> h.deadline.value == MidnightUtc(DeadlineOf(ai.deadline).value)
  {
    Hackathon(
      title := ai.title,
      date := ai.dateStr,
      format := ai.format,
      city := NullableText(ai.city),
      ageLimit := ai.ageLimit,
      link := NullableText(ai.link),
      status := ai.status,
      deadline := DeadlineInstant(ai.deadline))
  }

  /** One extraction: `reply` is the model's text, None when the client could
      not be created, the call failed or no candidate came back. A record comes
      out only when the cleaned reply decodes and carries a usable title. */
  function ParseWithAI(reply: Option<string>, decode: string -> Option<AIResponse>): (r: Option<Hackathon>)
    ensures r.Some? <==> reply.Some? && decode(CleanFences(reply.value)).Some?
                         && IsUsableTitle(decode(CleanFences(reply.value)).value.title)
    ensures r.Some? ==> r.value == ToRecord(decode(CleanFences(reply.value)).value)
    ensures r.Some? ==> IsUsableTitle(r.value.title)
  {
    match reply
    case None => None
    case Some(raw) =>
      match decode(CleanFences(raw))
      case None => None
      case Some(ai) => if ai.title == "" || ai.title == NullText then None else Some(ToRecord(ai))
  }

  // ---------------------------------------------------------------------------
  // The deduplication gate
  // ---------------------------------------------------------------------------

  predicate HasTitle(store: seq<Hackathon>, title: string) {
    exists i | 0 <= i < |store| :: store[i].title == title
  }

  /** No two records of `store` share a title. */
  predicate UniqueTitles(store: seq<Hackathon>) {
    forall i, j | 0 <= i < j < |store| :: store[i].title != store[j].title
  }

  /** What the store can do to one gate passage: nothing goes wrong, the
      title lookup fails with an error other than "not found", or the insert
      fails. */
  datatype StoreFault = NoFault | LookupFault | InsertFault

  datatype LookupOutcome = Found(existing: Hackathon) | NotFound | LookupError

  /** The first record with this title. */
  function FindByTitle(store: seq<Hackathon>, title: string): (r: Option<Hackathon>)
    ensures r.None? <==> !HasTitle(store, title)
    ensures r.Some? ==> r.value in store && r.value.title == title
  {
    if |store| == 0 then None
    else if store[0].title == title then Some(store[0])
    else
      var rest := FindByTitle(store[1..], title);
      assert forall i | 1 <= i < |store| :: store[1..][i - 1] == store[i];
      rest
  }

  /** `WHERE title = ? … First`: three outcomes. */
  function Lookup(store: seq<Hackathon>, title: string, fault: StoreFault): (r: LookupOutcome)
    ensures r.LookupError? <==> fault == LookupFault
    ensures r.NotFound? <==> fault != LookupFault && !HasTitle(store, title)
    ensures r.Found? ==> r.existing in store && r.existing.title == title
  {
    if fault == LookupFault then LookupError
    else match FindByTitle(store, title)
      case Some(h) => Found(h)
      case None => NotFound
  }

  /** One record through the gate: inserted only on NotFound and a successful
      insert; on Found, on a lookup error or a failed insert the store is left
      as it was. */
  function Ingest(store: seq<Hackathon>, h: Hackathon, fault: StoreFault): (r: seq<Hackathon>)
    ensures r == store || r == store + [h]
    ensures r == store + [h] <==> fault == NoFault && !HasTitle(store, h.title)
  {
    match Lookup(store, h.title, fault)
    case NotFound => if fault == InsertFault then store else store + [h]
    case _ => store
  }

  /** The gate applied to candidates in order; the `n`-th candidate meets the
      store fault `faults(n)`. */
  function IngestAll(store0: seq<Hackathon>, cands: seq<Hackathon>, faults: nat -> StoreFault): (r: seq<Hackathon>)
    ensures store0 <= r
    ensures forall i | |store0| <= i < |r| :: !HasTitle(r[..i], r[i].title)
    ensures forall i | |store0| <= i < |r| :: r[i] in cands
  {
    if |cands| == 0 then store0
    else
      var before := IngestAll(store0, cands[..|cands| - 1], faults);
      var h := cands[|cands| - 1];
      var r := Ingest(before, h, faults(|cands| - 1));
      assert r[..|before|] == before;
      assert forall i | |store0| <= i < |before| :: r[..i] == before[..i];
      r
  }

  /** No fault at all: every candidate's title is in the store afterwards. */
  lemma {:induction false} IngestAllComplete(store0: seq<Hackathon>, cands: seq<Hackathon>, faults: nat -> StoreFault)
    requires forall n | 0 <= n < |cands| :: faults(n) == NoFault
    ensures forall j | 0 <= j < |cands| :: HasTitle(IngestAll(store0, cands, faults), cands[j].title)
  {
    if |cands| > 0 {
      var init := cands[..|cands| - 1];
      var before := IngestAll(store0, init, faults);
      var r := IngestAll(store0, cands, faults);
      IngestAllComplete(store0, init, faults);
      assert r[..|before|] == before;
      forall j | 0 <= j < |cands|
        ensures HasTitle(r, cands[j].title)
      {
        if j < |cands| - 1 {
          assert cands[j] == init[j];
          var i :| 0 <= i < |before| && before[i].title == cands[j].title;
          assert r[i] == before[i];
        } else if !HasTitle(before, cands[j].title) {
          assert r[|before|] == cands[j];
        } else {
          var i :| 0 <= i < |before| && before[i].title == cands[j].title;
          assert r[i] == before[i];
        }
      }
    }
  }

  /** Candidates whose titles are all stored already change nothing, whatever
      the faults: running a cycle again over the same posts is a no-op. */
  lemma {:induction false} IngestAllKnownTitles(store0: seq<Hackathon>, cands: seq<Hackathon>, faults: nat -> StoreFault)
    requires forall j | 0 <= j < |cands| :: HasTitle(store0, cands[j].title)
    ensures IngestAll(store0, cands, faults) == store0
  {
    if |cands| > 0 {
      IngestAllKnownTitles(store0, cands[..|cands| - 1], faults);
    }
  }

  /** What the gate guarantees about a whole run: rows are only appended, no
      appended row repeats a title already stored or appended before it, a
      fault-free run stores every candidate's title, and candidates that are
      all known already leave the store as it was. */
  lemma GateGuarantees(store0: seq<Hackathon>, cands: seq<Hackathon>, faults: nat -> StoreFault)
    ensures var r := IngestAll(store0, cands, faults);
      && store0 <= r
      && (UniqueTitles(store0) ==> UniqueTitles(r))
      && ((forall n: nat :: faults(n) == NoFault) ==> forall h | h in cands :: HasTitle(r, h.title))
      && ((forall h | h in cands :: HasTitle(store0, h.title)) ==> r == store0)
  {
    var r := IngestAll(store0, cands, faults);
    if forall n: nat :: faults(n) == NoFault {
      IngestAllComplete(store0, cands, faults);
    }
    if forall h | h in cands :: HasTitle(store0, h.title) {
      IngestAllKnownTitles(store0, cands, faults);
    }
    if UniqueTitles(store0) {
      forall i, j | 0 <= i < j < |r|
        ensures r[i].title != r[j].title
      {
        if |store0| <= j {
          assert r[..j][i] == r[i];
        }
      }
    }
  }

  // ---------------------------------------------------------------------------
  // One cycle
  // ---------------------------------------------------------------------------

  /** The outside world of one cycle. */
  datatype Env = Env(
    fetch: string -> ChannelFetch,
    parseTime: string -> Option<Instant>,
    reply: ScrapedPost -> Option<string>,
    decode: string -> Option<AIResponse>,
    faults: nat -> StoreFault)

  /** What one post offers the gate: stale posts are dropped before any model
      call; fresh ones go through extraction. */
  function Offer(env: Env, cutoff: Instant, post: ScrapedPost): (r: Option<Hackathon>)
    ensures !IsFresh(post, cutoff) ==> r == None
    ensures IsFresh(post, cutoff) ==> r == ParseWithAI(env.reply(post), env.decode)
  {
    if post.publishedAt < cutoff then None else ParseWithAI(env.reply(post), env.decode)
  }

  function PostCandidates(env: Env, cutoff: Instant, posts: seq<ScrapedPost>): seq<Hackathon> {
    FilterMap(p => Offer(env, cutoff, p), posts)
  }

  function ChannelCandidates(env: Env, cutoff: Instant, channel: string): seq<Hackathon> {
    match env.fetch(channel)
    case FetchFailed => []
    case Fetched(blocks) => PostCandidates(env, cutoff, ScrapeChannel(blocks, env.parseTime))
  }

  /** Every record that reaches the gate in one cycle over `channels`, in the
      order the cycle meets them. */
  function CycleCandidates(env: Env, cutoff: Instant, channels: seq<string>): seq<Hackathon> {
    if |channels| == 0 then []
    else CycleCandidates(env, cutoff, channels[..|channels| - 1]) + ChannelCandidates(env, cutoff, channels[|channels| - 1])
  }

  /** `h` is the extraction of one of the fresh posts among `posts`. */
  ghost predicate ExtractedFromPosts(env: Env, cutoff: Instant, posts: seq<ScrapedPost>, h: Hackathon) {
    exists i | 0 <= i < |posts| :: IsFresh(posts[i], cutoff) && ParseWithAI(env.reply(posts[i]), env.decode) == Some(h)
  }

  /** `h` is the extraction of a fresh post scraped from channel `c`. */
  ghost predicate ExtractedFrom(env: Env, cutoff: Instant, c: string, h: Hackathon) {
    env.fetch(c).Fetched? && ExtractedFromPosts(env, cutoff, ScrapeChannel(env.fetch(c).blocks, env.parseTime), h)
  }

  lemma PostCandidatesFrom(env: Env, cutoff: Instant, posts: seq<ScrapedPost>, h: Hackathon)
    requires h in PostCandidates(env, cutoff, posts)
    ensures ExtractedFromPosts(env, cutoff, posts, h) && IsUsableTitle(h.title)
  {
    var cands := PostCandidates(env, cutoff, posts);
    var j :| 0 <= j < |cands| && cands[j] == h;
    var i :| 0 <= i < |posts| && Offer(env, cutoff, posts[i]) == Some(h);
  }

  lemma ChannelCandidatesFrom(env: Env, cutoff: Instant, c: string, h: Hackathon)
    requires h in ChannelCandidates(env, cutoff, c)
    ensures ExtractedFrom(env, cutoff, c, h) && IsUsableTitle(h.title)
  {
    match env.fetch(c)
    case Fetched(blocks) =>
      PostCandidatesFrom(env, cutoff, ScrapeChannel(blocks, env.parseTime), h);
  }

  /** Every record that reaches the gate is the extraction of a fresh post of
      one of the polled channels, and carries a usable title. */
  lemma {:induction false} CandidatesAreFreshExtractions(env: Env, cutoff: Instant, channels: seq<string>, h: Hackathon)
    requires h in CycleCandidates(env, cutoff, channels)
    ensures IsUsableTitle(h.title)
    ensures exists c | c in channels :: ExtractedFrom(env, cutoff, c, h)
  {
    var init := channels[..|channels| - 1];
    var last := channels[|channels| - 1];
    if h in CycleCandidates(env, cutoff, init) {
      CandidatesAreFreshExtractions(env, cutoff, init, h);
      var c :| c in init && ExtractedFrom(env, cutoff, c, h);
      assert c in channels;
    } else {
      ChannelCandidatesFrom(env, cutoff, last, h);
    }
  }

  /** A cycle's candidates are the channels' candidates one after the other. */
  lemma CycleCandidatesSnoc(env: Env, cutoff: Instant, channels: seq<string>, c: nat)
    requires c < |channels|
    ensures CycleCandidates(env, cutoff, channels[..c + 1])
         == CycleCandidates(env, cutoff, channels[..c]) + ChannelCandidates(env, cutoff, channels[c])
  {
    assert channels[..c + 1][..c] == channels[..c];
  }

  /** A channel's candidates are its posts' candidates one after the other. */
  lemma PostCandidatesSnoc(env: Env, cutoff: Instant, posts: seq<ScrapedPost>, k: nat)
    requires k < |posts|
    ensures PostCandidates(env, cutoff, posts[..k + 1])
         == PostCandidates(env, cutoff, posts[..k])
            + (match Offer(env, cutoff, posts[k]) case Some(h) => [h] case None => [])
  {
    assert posts[..k + 1] == posts[..k] + [posts[k]];
    FilterMapAppend(p => Offer(env, cutoff, p), posts[..k], [posts[k]]);
  }

  /** The gate applied to one more candidate. */
  lemma IngestAllSnoc(store0: seq<Hackathon>, cands: seq<Hackathon>, h: Hackathon, faults: nat -> StoreFault)
    ensures IngestAll(store0, cands + [h], faults) == Ingest(IngestAll(store0, cands, faults), h, faults(|cands|))
  {
    assert (cands + [h])[..|cands|] == cands;
  }

  /** One more post: the candidates met so far grow by its extraction, if
      any, and the gate's result grows by one gate step. */
  lemma CandidateStep(env: Env, cutoff: Instant, posts: seq<ScrapedPost>, k: nat,
                      seen: seq<Hackathon>, store0: seq<Hackathon>)
    requires k < |posts|
    ensures var met := seen + PostCandidates(env, cutoff, posts[..k]);
      var next := seen + PostCandidates(env, cutoff, posts[..k + 1]);
      match Offer(env, cutoff, posts[k])
      case None => next == met
      case Some(h) =>
        && next == met + [h]
        && IngestAll(store0, next, env.faults) == Ingest(IngestAll(store0, met, env.faults), h, env.faults(|met|))
  {
    var met := seen + PostCandidates(env, cutoff, posts[..k]);
    PostCandidatesSnoc(env, cutoff, posts, k);
    match Offer(env, cutoff, posts[k])
    case None =>
      assert met + [] == met;
    case Some(h) =>
      IngestAllSnoc(store0, met, h, env.faults);
  }

  /** The gate as the loop runs it: look the title up, insert only on
      NotFound; an insert that fails leaves the store as it was. */
  method GateStep(store0: seq<Hackathon>, h: Hackathon, fault: StoreFault) returns (store: seq<Hackathon>)
    ensures store == Ingest(store0, h, fault)
    ensures store == store0 + [h] <==> fault == NoFault && !HasTitle(store0, h.title)
  {
    store := store0;
    match Lookup(store0, h.title, fault) {
      case NotFound =>
        if fault != InsertFault {
          store := store0 + [h];
        }
      case _ =>
    }
  }

  /** The inner loop of a cycle: the posts of one channel, in order, against
      the store as it stands. `seen` are the candidates met earlier in the
      cycle and `n` counts them. */
  method IngestPosts(env: Env, cutoff: Instant, posts: seq<ScrapedPost>, store0: seq<Hackathon>,
                     ghost seen: seq<Hackathon>, store1: seq<Hackathon>, n0: nat)
    returns (store: seq<Hackathon>, n: nat)
    requires n0 == |seen| && store1 == IngestAll(store0, seen, env.faults)
    ensures n == |seen + PostCandidates(env, cutoff, posts)|
    ensures store == IngestAll(store0, seen + PostCandidates(env, cutoff, posts), env.faults)
  {
    store, n := store1, n0;
    assert seen + PostCandidates(env, cutoff, posts[..0]) == seen;
    for k := 0 to |posts|
      invariant n == |seen + PostCandidates(env, cutoff, posts[..k])|
      invariant store == IngestAll(store0, seen + PostCandidates(env, cutoff, posts[..k]), env.faults)
    {
      CandidateStep(env, cutoff, posts, k, seen, store0);
      var post := posts[k];
      if !(post.publishedAt < cutoff) {
        var h := ParseWithAI(env.reply(post), env.decode);
        if h.Some? {
          store := GateStep(store, h.value, env.faults(n));
          n := n + 1;
        }
      }
    }
    assert posts[..|posts|] == posts;
  }

  /** One cycle over `channels` against a store whose rows are `store0`;
      returns the rows afterwards. A fetch error skips the channel, a stale
      post never reaches the model, a post whose extraction fails is skipped,
      and every other post meets the gate once, in order. */
  method RunCycle(env: Env, cutoff: Instant, channels: seq<string>, store0: seq<Hackathon>) returns (store: seq<Hackathon>)
    ensures store == IngestAll(store0, CycleCandidates(env, cutoff, channels), env.faults)
    ensures store0 <= store
    ensures forall i | |store0| <= i < |store| :: !HasTitle(store[..i], store[i].title)
    ensures forall i | |store0| <= i < |store| :: store[i] in CycleCandidates(env, cutoff, channels)
    ensures UniqueTitles(store0) ==> UniqueTitles(store)
    ensures (forall n: nat :: env.faults(n) == NoFault) ==>
      forall h | h in CycleCandidates(env, cutoff, channels) :: HasTitle(store, h.title)
    ensures (forall h | h in CycleCandidates(env, cutoff, channels) :: HasTitle(store0, h.title)) ==> store == store0
  {
    store := store0;
    var n := 0;
    for c := 0 to |channels|
      invariant n == |CycleCandidates(env, cutoff, channels[..c])|
      invariant store == IngestAll(store0, CycleCandidates(env, cutoff, channels[..c]), env.faults)
    {
      ghost var met := CycleCandidates(env, cutoff, channels[..c]);
      CycleCandidatesSnoc(env, cutoff, channels, c);
      var fetched := env.fetch(channels[c]);
      if fetched.Fetched? {
        var posts := ScrapeChannel(fetched.blocks, env.parseTime);
        assert ChannelCandidates(env, cutoff, channels[c]) == PostCandidates(env, cutoff, posts);
        store, n := IngestPosts(env, cutoff, posts, store0, met, store, n);
      } else {
        assert ChannelCandidates(env, cutoff, channels[c]) == [];
        assert met + [] == met;
      }
    }
    assert channels[..|channels|] == channels;
    GateGuarantees(store0, CycleCandidates(env, cutoff, channels), env.faults);
  }

  /** The scraper's cycle: the fixed channel list, polled in order. */
  method RunScraper(env: Env, cutoff: Instant, store0: seq<Hackathon>) returns (store: seq<Hackathon>)
    ensures store == IngestAll(store0, CycleCandidates(env, cutoff, Channels), env.faults)
  {
    store := RunCycle(env, cutoff, Channels, store0);
  }
}
