# HackFlow ingestion and search core, in Dafny

HackFlow collects announcements of IT hackathons in Kazakhstan and serves
them through a small HTTP API. This project models the logic that decides
what gets stored and what gets served:

- **The Telegram scraper cycle** (`scraper.dfy`, module `Scraper`). The
  scraper polls eight public channels. It keeps the message blocks that have
  a text, a parsable timestamp and the word "хакатон" or "hackathon". It
  drops posts older than the two-month cutoff. It asks a language model to
  extract one event per post, strips code fences from the reply and decodes
  it. It converts the decoded object into a record and passes each record
  through a title-keyed deduplication gate into the store.
- **The live AI search endpoint** (`ai_search.dfy`, module `AiSearch`). This
  endpoint guards the query and the API keys and builds the web-search
  request. It short-circuits on zero results and numbers the result
  snippets into one context. It cleans the model's reply: every fence is
  removed, then the first `[` through the last `]` is kept. The decoded
  list is returned without being stored.
- **The database read path** (`read_path.dfy`, module `HackathonHandler`).
  `GET /api/hackathons` fetches all rows or the rows whose title or city
  matches `ILIKE '%q%'`. It then recomputes each row's status from its
  deadline, or from a legacy date text, before serving.
- **The stand-alone demo server** (`demo_api.dfy`, module `DemoApi`). This
  is an in-memory list filtered by a case-insensitive substring match on
  title or city.

Shared pieces:

- `text.dfy` (`Text`): the parts of Go's `strings` and `unicode` packages
  used above, stated over code points: TrimSpace, ToLower, Contains,
  TrimPrefix/TrimSuffix, ReplaceAll, Index/LastIndex and `%d`.
- `seqs.dfy` (`Seqs`): order-preserving Filter and FilterMap.
- `dates.dfy` (`Dates`): the strict `YYYY-MM-DD` layout and its instant at
  midnight UTC.
- `records.dfy` (`Records`): the stored record.
- `optional.dfy` (`Optional`): the Option type.

Everything outside the program becomes a parameter:

- the HTML page of a channel (`ChannelFetch`);
- the RFC 3339 timestamp parser;
- the model's reply to a post and the JSON decoders;
- the search provider and model outcomes (`Services`);
- the store's failures, where the n-th record offered to the gate meets
  fault `faults(n)`;
- the current instant and the two-month cutoff;
- whether the database query fails.

Points where the code's behaviour may surprise:

- A record whose deadline is at or after `now` keeps its stored status. It
  is never set back to LIVE.
- Status flips to DEAD only strictly after midnight UTC of the deadline
  date.
- The scraper's three-second pause follows each insert attempt, not each
  post.
- The record type declared for the ORM has no deadline or status column,
  yet both are written and read. `Records.Hackathon` follows the sites that
  use them and holds the deadline as the instant it was parsed to.
- The database search passes the query into the `LIKE` pattern as it is,
  so `%` and `_` in the query act as wildcards and `\` as the escape
  character. It is substring search only for queries without these three
  characters (`HackathonHandler.UnderscoreMatchesAnything` shows the
  difference).
- The search endpoint deletes every "```" in the model's reply, including
  one inside a JSON string value, so such a value never reaches the client
  as the model wrote it (`AiSearch.FenceInsideArrayLost`).
- The scraper strips its fences before it trims white space, and only at
  the very ends. A fenced reply followed by a line break keeps its closing
  fence and then fails to decode (`Scraper.CleanFencesKeepsCloseBeforeNewline`).
  The search endpoint's cleanup has no such gap.

## Model

| member | source | states |
|---|---|---|
| Scraper.BlockToPost | backend/cmd/scraper/main.go:146-174 | a block yields a post iff it has a text, a datetime attribute that parses, and the lower-cased trimmed text mentions "хакатон" or "hackathon"; the post keeps the trimmed text in its original case and the parsed instant |
| Scraper.ScrapeChannel | backend/cmd/scraper/main.go:144-176 | every post comes from a qualifying block and every qualifying block gives a post; stored texts are trimmed and mention the keyword |
| Scraper.ScrapeChannelOrder | backend/cmd/scraper/main.go:146-174 | posts keep document order: the posts of a concatenation of blocks are the posts of each part, one after the other |
| Scraper.KeywordIgnoresCase | backend/cmd/scraper/main.go:152-172 | a block whose text is " ХАКАТОН AI " passes the keyword test yet is stored as "ХАКАТОН AI", upper case intact |
| Scraper.Offer | backend/cmd/scraper/main.go:79-101 | a post published strictly before the cutoff never reaches extraction; a post at or after it (the cutoff itself included) offers exactly its extraction |
| Scraper.CleanFences | backend/cmd/scraper/main.go:220-223 | the cleaned reply has no white space at either end and is never longer than the raw reply |
| Scraper.CleanFencesKeepsBareReply | backend/cmd/scraper/main.go:220-223 | a reply with no opening fence, no closing fence and no surrounding white space is left unchanged |
| Scraper.CleanFencesOfBare | backend/cmd/scraper/main.go:220-223 | a payload with no fence at either end only loses its surrounding white space |
| Scraper.CleanFencesUnwrapsJson | backend/cmd/scraper/main.go:220-223 | a payload wrapped as "```json\n" + payload + "\n```", with nothing after the closing fence, cleans to the trimmed payload |
| Scraper.CleanFencesUnwrapsPlain | backend/cmd/scraper/main.go:221-223 | a payload wrapped as "```\n" + payload + "\n```", with nothing after the closing fence, cleans to the trimmed payload |
| Scraper.CleanFencesKeepsCloseBeforeNewline | backend/cmd/scraper/main.go:220-223 | a "```json" fenced payload followed by a line break keeps its closing fence after cleaning |
| Scraper.CleanFencesStripsOnce | backend/cmd/scraper/main.go:220 | each prefix is removed at most once: a doubled "```json" opening leaves the second copy in place |
| Scraper.NullableText | backend/cmd/scraper/main.go:245-250 | an absent value or the text "null" becomes ""; any other value is copied verbatim |
| Scraper.DeadlineOf | backend/cmd/scraper/main.go:252-259 | a deadline is set iff the field is neither "" nor "null" and parses as YYYY-MM-DD; the date held is valid and prints back as the field's text |
| Scraper.DeadlineInstant | backend/cmd/scraper/main.go:252-255 | the stored deadline exists exactly when the date parses, and is midnight UTC of that date |
| Scraper.ToRecord | backend/cmd/scraper/main.go:237-259 | title, date text, format, age limit and status are copied verbatim; city and link lose a null; the deadline is set exactly when the date parses, and a parse failure still yields the record |
| Scraper.ParseWithAI | backend/cmd/scraper/main.go:207-261 | a record comes out iff there is a reply, the fence-cleaned reply decodes, and the title is neither "" nor "null"; the record is the conversion of the decoded object |
| Scraper.FindByTitle | backend/cmd/scraper/main.go:103-104 | the lookup finds nothing iff no stored record has the title; what it finds is stored and has the title |
| Scraper.Lookup | backend/cmd/scraper/main.go:103-111 | three outcomes: Error exactly on a lookup fault; NotFound exactly when there is no fault and no record with the title; Found returns a stored record with the title |
| Scraper.Ingest | backend/cmd/scraper/main.go:103-117 | the gate leaves the store as it is or appends the record, and it appends iff nothing fails and the title is not stored yet |
| Scraper.IngestAll | backend/cmd/scraper/main.go:91-120 | the stored rows only grow at the end; no appended row repeats a title stored or appended before it; every appended row is one of the candidates |
| Scraper.IngestAllComplete | backend/cmd/scraper/main.go:103-117 | with no store fault, every candidate's title is stored afterwards |
| Scraper.IngestAllKnownTitles | backend/cmd/scraper/main.go:103-107 | candidates whose titles are all stored already leave the store as it was, whatever the faults |
| Scraper.GateGuarantees | backend/cmd/scraper/main.go:98-117 | a run only appends, preserves unique titles, stores every candidate's title when nothing fails, and is a no-op when every title is known |
| Scraper.CandidatesAreFreshExtractions | backend/cmd/scraper/main.go:81-101 | every record reaching the gate has a usable title and is the extraction of a fresh post scraped from one of the polled channels |
| Scraper.GateStep | backend/cmd/scraper/main.go:103-117 | one passage through the gate inserts iff the lookup reports NotFound and the insert succeeds |
| Scraper.IngestPosts | backend/cmd/scraper/main.go:91-120 | the inner loop equals the gate applied, in order, to the extractions of the channel's fresh posts, continuing the count of offered records |
| Scraper.RunCycle | backend/cmd/scraper/main.go:81-121 | a cycle skips failed channels and stale posts and applies the gate to every extraction in order; rows only grow, new rows carry new titles and come from the candidates, unique titles are preserved, a fault-free cycle stores every candidate title, and a rerun over known titles is a no-op |
| Scraper.RunScraper | backend/cmd/scraper/main.go:76-121 | one cycle over the fixed eight channels, in the listed order, is the gate applied to their candidates |
| AiSearch.SearchAI | backend/internal/handlers/ai_search.go:62-119 | a blank query gives 400 and a missing key gives 500, and neither makes any outside call; otherwise the first call is the search request and the rest follows the search; 200 comes with a list and every other status with an error |
| AiSearch.SearchRequest | backend/internal/handlers/ai_search.go:78-84 | the request carries the search key, the query behind "Hackathons IT events in Kazakhstan ", depth "advanced", no answer and at most 5 results |
| AiSearch.AfterSearch | backend/internal/handlers/ai_search.go:93-119 | 502 iff the provider is unreachable or does not answer 200; a 200 reply whose body does not decode is 500 with no model call; zero results give an empty list without a model call; otherwise the model step decides |
| AiSearch.AskModel | backend/internal/handlers/ai_search.go:127-209 | the model is asked once about exactly the numbered snippets unless its client cannot be created (500); a generation error is 500; an answer without content is 200 with an empty list; a reply whose cleaned text decodes is 200 with exactly the decoded list; an undecodable reply is 500 with no partial list |
| AiSearch.SectionsAppend | backend/internal/handlers/ai_search.go:121-124 | numbering a concatenation of snippets numbers the second part on from where the first stopped |
| AiSearch.WebContextHoldsEach | backend/internal/handlers/ai_search.go:121-125 | the i-th snippet appears in the context right behind the header "--- РЕЗУЛЬТАТ i+1 ---" |
| AiSearch.BuildWebContext | backend/internal/handlers/ai_search.go:121-125 | the builder loop produces the snippets in order, numbered from 1, each behind its header |
| AiSearch.StripMarkdown | backend/internal/handlers/ai_search.go:183-186 | after removing every "```json" and then every "```" anywhere and trimming, no "```" is left and no white space stands at the ends |
| AiSearch.BracketSpan | backend/internal/handlers/ai_search.go:189-193 | the result is the input or a bracketed stretch of it, and always a slice of the input |
| AiSearch.BracketSpanOfPair | backend/internal/handlers/ai_search.go:189-193 | when some "[" precedes some "]", the result is exactly the stretch from the first "[" through the last "]" |
| AiSearch.BracketSpanWithoutPair | backend/internal/handlers/ai_search.go:189-193 | when no "[" precedes a "]", the text is kept whole |
| AiSearch.BracketSpanIdempotent | backend/internal/handlers/ai_search.go:189-193 | taking the bracket span twice is taking it once |
| AiSearch.BracketSpanFinds | backend/internal/handlers/ai_search.go:189-193 | an array with no "[" before it and no "]" after it is cut out exactly |
| AiSearch.CleanArrayReply | backend/internal/handlers/ai_search.go:183-193 | the cleaned reply holds no fence and is its own bracket span |
| AiSearch.FencedArrayRecovered | backend/internal/handlers/ai_search.go:183-193 | a reply that is a "```json" fenced array, with white space around the fence and around the array inside it (the "```json\n[…]\n```" layout), cleans to exactly the array, provided the array holds no backtick |
| AiSearch.ProseAroundArrayRecovered | backend/internal/handlers/ai_search.go:183-193 | an array with prose around it cleans to exactly the array, provided there is no backtick in the prose or the array and the prose holds no bracket that would widen the span |
| AiSearch.FenceInsideArrayLost | backend/internal/handlers/ai_search.go:183-186 | an array holding "```" inside it is never what the cleanup returns, whatever the reply |
| HackathonHandler.GetHackathons | backend/internal/handlers/hackathon.go:28-61 | a failing query is 500 with "Failed to fetch data" or "Failed to search data" by branch; a blank query serves every row in order, refreshed; otherwise the rows whose title or city matches the ILIKE pattern, in order, refreshed |
| HackathonHandler.GetHackathonsSubstring | backend/internal/handlers/hackathon.go:39-46 | for a query without `%`, `_` or `\` the served rows are, one for one, the rows whose lower-cased title or city contains the lower-cased query, differing in status only |
| HackathonHandler.LikeInfix | backend/internal/handlers/hackathon.go:40-42 | the pattern "%q%" matches exactly the texts containing q, when q holds no `%`, `_` or `\` |
| HackathonHandler.ILikeIsSubstring | backend/internal/handlers/hackathon.go:40-42 | ILIKE against "%q%" is case-insensitive substring search for a q without `%`, `_` or `\` |
| HackathonHandler.UnderscoreMatchesAnything | backend/internal/handlers/hackathon.go:40-42 | the query "_" matches every non-empty title, so the search is not plain substring search |
| HackathonHandler.RefreshStatus | backend/internal/handlers/hackathon.go:51-58 | only the status may change, and only to DEAD; with a deadline, DEAD iff the deadline is strictly before now or it was DEAD; without one, DEAD iff the date text names "февраля 2026" or it was DEAD |
| HackathonHandler.RefreshStatusIdempotent | backend/internal/handlers/hackathon.go:50-58 | recomputing again at the same instant changes nothing |
| HackathonHandler.RefreshStatusMonotone | backend/internal/handlers/hackathon.go:52-56 | a record DEAD at some instant is DEAD at every later one |
| HackathonHandler.RefreshStatusKeepsBeforeDeadline | backend/internal/handlers/hackathon.go:52-58 | up to and including the deadline the stored status is served unchanged; it is never set to LIVE |
| HackathonHandler.RefreshStatusPastDate | backend/internal/handlers/hackathon.go:52-53 | a deadline date before today's date makes the record DEAD at today's midnight |
| HackathonHandler.RefreshAll | backend/internal/handlers/hackathon.go:50-58 | the list keeps its length and order; row i is the status recomputation of stored row i, so it differs in status only, which stays or becomes DEAD |
| HackathonHandler.RefreshAllIdempotent | backend/internal/handlers/hackathon.go:50-58 | refreshing a refreshed list at the same instant changes nothing |
| DemoApi.SearchEvents | backend/main.go:87-118 | a blank query serves the whole list in order; otherwise every served event matches and comes from the list, every matching event is served, and the result is an order-preserving subsequence of the list |
| DemoApi.CollectMatches | backend/main.go:98-114 | the loop collects exactly the events whose lower-cased title or city contains the lower-cased query, in list order |
| DemoApi.GetHackathons | backend/main.go:87-118 | the handler serves what the search promises |
| DemoApi.AstanaQuery | backend/main.go:25-118 | on the starting list the query "астана" serves exactly the two events held in Astana, in list order |
| DemoApi.SameNormalFormSameAnswer | backend/main.go:89-98 | two queries with the same lower-cased trimmed form give the same answer |
| DemoApi.PaddingIgnored | backend/main.go:89 | white space around the query does not change the answer |
| Dates.ParseIsoDate | backend/cmd/scraper/main.go:253 | the layout accepts exactly four year digits, two month digits and two day digits between dashes, naming a real calendar date |
| Dates.ParseFormatRoundTrip | backend/cmd/scraper/main.go:253 | every date the layout can express is read back from its own text |
| Dates.FormatParseRoundTrip | backend/cmd/scraper/main.go:253 | an accepted text is the canonical text of the date it yields |
| Dates.MidnightUtcOrder | backend/internal/handlers/hackathon.go:52 | calendar order of dates and order of their midnights agree, in both directions |
| Text.NatToStringRoundTrip | backend/internal/handlers/ai_search.go:123 | the snippet number prints as digits without a leading zero and reads back as the number |
| Text.RemoveFencesLeavesNone | backend/internal/handlers/ai_search.go:185 | removing every "```" leaves no "```" behind |
| Seqs.FilterAppend | backend/main.go:105-114 | filtering a concatenation filters each part, in order |
| Seqs.FilterCounts | backend/main.go:105-114 | each value that passes the test is kept as many times as it occurs, and every other value is dropped |

## Left out

- HTTP and HTML. The channel page fetch, goquery traversal, the POST to the
  search provider and the JSON encoding of responses are outside the model.
  A page arrives as `ChannelFetch`, a list of blocks with an optional text
  and an optional datetime attribute.
- RFC 3339 parsing of post timestamps (section 5.6 of RFC 3339). It is a
  parameter returning an optional instant.
- The language model. This covers client creation, the prompts (including
  today's date written into them), temperature and the model names. It is a
  parameter giving the reply text, or no reply, for each post or query.
- JSON decoding of the model's reply and of the search response. These are
  parameters returning an optional value.
- The marshalling error branch of the search request. Marshalling a
  structure of strings, a bool and an int cannot fail.
- The database. GORM queries, row ids and timestamps are outside the model.
  The store is the sequence of stored rows and faults are a parameter. The
  model assumes that both queries of the read path return rows in one fixed
  table order. SQL does not promise this without ORDER BY.
- Clocks and timing: `time.Now`, `AddDate(0, -2, 0)`, the three-second
  sleep and the six-hourly ticker. The cutoff and `now` are parameters, and
  sleeping has no effect on the result.
- Unicode case folding. `Text.Lower` maps ASCII and the basic Cyrillic
  capitals U+0400 to U+042F. Every other code point is left as it is.
- Invalid UTF-8. Strings are sequences of code points.
- Logging, configuration loading, database setup, the logger, the API entry
  point and router, the ORM model file and the web frontend.
- HackathonHandler.Like: a pattern ending in a lone "\" is modelled as
  matching nothing, where the database reports an error. The patterns
  "%q%" the handler builds never end that way.
- DemoApi.GetHackathons: the served list is a sequence. The difference
  between an empty list and a JSON null does not arise.
