/** The read path of the API: `GET /api/hackathons` fetches every stored
    record, or the records whose title or city matches the query under
    PostgreSQL's `ILIKE`, and recomputes each record's status before serving. */
module HackathonHandler {
  import opened Optional
  import opened Text
  import opened Seqs
  import opened Dates
  import opened Records

  // ---------------------------------------------------------------------------
  // ILIKE
  // ---------------------------------------------------------------------------

  /** SQL `LIKE` with the default escape character: "%" matches any run of
      characters, "_" exactly one, and "\" makes the next pattern character
      literal. A pattern ending in a lone "\" matches nothing here (the
      database rejects it; a pattern "%…%" never ends that way). */
  predicate Like(t: string, p: string)
    decreases |t| + |p|
  {
    if |p| == 0 then |t| == 0
    else if p[0] == '%' then Like(t, p[1..]) || (|t| > 0 && Like(t[1..], p))
    else if p[0] == '_' then |t| > 0 && Like(t[1..], p[1..])
    else if p[0] == '\\' then |p| >= 2 && |t| > 0 && t[0] == p[1] && Like(t[1..], p[2..])
    else |t| > 0 && t[0] == p[0] && Like(t[1..], p[1..])
  }

  /** `ILIKE`: `LIKE` on the lower-cased text and pattern. */
  predicate ILike(t: string, p: string) {
    Like(Lower(t), Lower(p))
  }

  /** The query holds none of the characters `LIKE` gives a meaning to. */
  predicate IsPlainQuery(q: string) {
    '%' !in q && '_' !in q && '\\' !in q
  }

  /** The pattern the handler builds from a query. */
  function SearchPattern(query: string): string {
    "%" + query + "%"
  }

  /** A trailing "%" matches whatever is left. */
  lemma {:induction false} LikeAnyRest(t: string)
    ensures Like(t, "%")
    decreases |t|
  {
    if |t| > 0 {
      LikeAnyRest(t[1..]);
    }
  }

  /** A literal followed by "%" matches exactly the strings starting with it. */
  lemma {:induction false} LikeLiteralPrefix(t: string, q: string)
    requires IsPlainQuery(q)
    ensures Like(t, q + "%") <==> HasPrefix(t, q)
    decreases |q|
  {
    if |q| == 0 {
      assert q + "%" == "%";
      LikeAnyRest(t);
    } else {
      var p := q + "%";
      assert p[0] == q[0] && p[1..] == q[1..] + "%";
      assert IsPlainQuery(q[1..]) by {
        assert forall c | c in q[1..] :: c in q;
      }
      if |t| > 0 {
        LikeLiteralPrefix(t[1..], q[1..]);
        assert HasPrefix(t, q) <==> t[0] == q[0] && HasPrefix(t[1..], q[1..]) by {
          if HasPrefix(t, q) {
            assert t[1..][..|q| - 1] == t[..|q|][1..];
          }
          if t[0] == q[0] && HasPrefix(t[1..], q[1..]) {
            assert t[..|q|] == [t[0]] + t[1..][..|q| - 1];
          }
        }
      }
    }
  }

  /** "%" + q + "%" matches exactly the strings containing `q`, when `q`
      holds no `%`, `_` or `\`. */
  lemma {:induction false} LikeInfix(t: string, q: string)
    requires IsPlainQuery(q)
    ensures Like(t, SearchPattern(q)) <==> Contains(t, q)
    decreases |t|
  {
    var p := SearchPattern(q);
    assert p[0] == '%' && p[1..] == q + "%";
    LikeLiteralPrefix(t, q);
    if |t| > 0 {
      LikeInfix(t[1..], q);
    }
  }

  /** Lower-casing neither creates nor removes a character `LIKE` gives a meaning to. */
  lemma LowerKeepsPlain(q: string)
    requires IsPlainQuery(q)
    ensures IsPlainQuery(Lower(q))
  {
  }

  /** For a plain query (no `%`, `_` or `\`), the database search is case-insensitive
      substring search. */
  lemma ILikeIsSubstring(t: string, q: string)
    requires IsPlainQuery(q)
    ensures ILike(t, SearchPattern(q)) <==> Contains(Lower(t), Lower(q))
  {
    LowerConcat("%" + q, "%");
    LowerConcat("%", q);
    assert Lower(SearchPattern(q)) == SearchPattern(Lower(q));
    LowerKeepsPlain(q);
    LikeInfix(Lower(t), Lower(q));
  }

  /** With a wildcard in it the query is not a substring: "_" matches every
      non-empty text, though no text need contain an underscore. */
  lemma UnderscoreMatchesAnything(t: string)
    requires |t| > 0
    ensures ILike(t, SearchPattern("_"))
  {
    assert Lower(SearchPattern("_")) == "%_%";
    assert Like(Lower(t), "_%") by {
      LikeAnyRest(Lower(t)[1..]);
    }
  }

  // ---------------------------------------------------------------------------
  // Status recomputation
  // ---------------------------------------------------------------------------

  /** The date text that marks a legacy record, written before deadlines were
      stored, as past. */
  const LegacyPastDate := "февраля 2026"

  /** The status a record is served with at instant `now`: DEAD once the
      deadline lies strictly before `now`; without a deadline, DEAD when the
      date text names February 2026; otherwise the stored status, whatever it
      is (a future deadline does not bring back LIVE). */
  function RefreshStatus(h: Hackathon, now: Instant): (r: Hackathon)
    ensures SameExceptStatus(h, r)
    ensures r.status == h.status || r.status == Dead
    ensures h.deadline.Some? ==> (r.status == Dead <==> h.deadline.value < now || h.status == Dead)
    ensures h.deadline.None? ==> (r.status == Dead <==> Contains(h.date, LegacyPastDate) || h.status == Dead)
  {
    if h.deadline.Some? && h.deadline.value < now then h.(status := Dead)
    else if h.deadline.None? && Contains(h.date, LegacyPastDate) then h.(status := Dead)
    else h
  }

  /** Recomputing again at the same instant changes nothing. */
  lemma RefreshStatusIdempotent(h: Hackathon, now: Instant)
    ensures RefreshStatus(RefreshStatus(h, now), now) == RefreshStatus(h, now)
  {
  }

  /** A record that is DEAD at some instant stays DEAD at every later one. */
  lemma RefreshStatusMonotone(h: Hackathon, now1: Instant, now2: Instant)
    requires now1 <= now2 && RefreshStatus(h, now1).status == Dead
    ensures RefreshStatus(h, now2).status == Dead
  {
  }

  /** Up to and including the deadline itself, the stored status is served
      unchanged; LIVE is never written. */
  lemma RefreshStatusKeepsBeforeDeadline(h: Hackathon, now: Instant)
    requires h.deadline.Some? && now <= h.deadline.value
    ensures RefreshStatus(h, now) == h
  {
  }

  /** A record whose deadline date lies before the date of today is DEAD, in
      calendar terms: the 2024-01-01 deadline read on 2025-01-01 is one. */
  lemma RefreshStatusPastDate(h: Hackathon, deadline: Date, today: Date)
    requires IsValidDate(deadline) && IsValidDate(today) && DateBefore(deadline, today)
    requires h.deadline == Some(MidnightUtc(deadline))
    ensures RefreshStatus(h, MidnightUtc(today)).status == Dead
  {
    MidnightUtcOrder(deadline, today);
  }

  lemma DeadlineScenario(h: Hackathon)
    requires h.deadline == Some(MidnightUtc(Date(2024, 1, 1)))
    ensures RefreshStatus(h, MidnightUtc(Date(2025, 1, 1))).status == Dead
  {
    RefreshStatusPastDate(h, Date(2024, 1, 1), Date(2025, 1, 1));
  }

  /** The loop over the fetched rows: each row refreshed in place. */
  function RefreshAll(rows: seq<Hackathon>, now: Instant): (r: seq<Hackathon>)
    ensures |r| == |rows|
    ensures forall i | 0 <= i < |rows| :: SameExceptStatus(rows[i], r[i])
    ensures forall i | 0 <= i < |rows| :: r[i].status == rows[i].status || r[i].status == Dead
    // each row gets the status rule of its own
    ensures forall i | 0 <= i < |rows| :: r[i] == RefreshStatus(rows[i], now)
  {
    seq(|rows|, i requires 0 <= i < |rows| => RefreshStatus(rows[i], now))
  }

  lemma RefreshAllIdempotent(rows: seq<Hackathon>, now: Instant)
    ensures RefreshAll(RefreshAll(rows, now), now) == RefreshAll(rows, now)
  {
    var once := RefreshAll(rows, now);
    forall i | 0 <= i < |rows|
      ensures RefreshAll(once, now)[i] == once[i]
    {
      RefreshStatusIdempotent(rows[i], now);
    }
  }

  // ---------------------------------------------------------------------------
  // The handler
  // ---------------------------------------------------------------------------

  datatype Reply = Failure(status: int, message: string) | Rows(rows: seq<Hackathon>)

  /** Whether a row answers the query: its title or its city matches the
      pattern built from it. */
  predicate MatchesQuery(h: Hackathon, query: string) {
    ILike(h.title, SearchPattern(query)) || ILike(h.city, SearchPattern(query))
  }

  /** `GET /api/hackathons?q=…` against a table holding `table` (in the order
      the database returns rows); `dbFails` says whether the query errs. */
  function GetHackathons(rawQuery: string, table: seq<Hackathon>, dbFails: bool, now: Instant): (r: Reply)
    // a failing query is a server error, with the message of the branch taken
    ensures dbFails ==> r == Failure(500, if TrimSpace(rawQuery) == "" then "Failed to fetch data" else "Failed to search data")
    ensures !dbFails ==> r.Rows?
    // a blank query serves every row, in order, refreshed
    ensures !dbFails && TrimSpace(rawQuery) == "" ==> r.rows == RefreshAll(table, now)
    // otherwise exactly the matching rows, in order, refreshed
    ensures !dbFails && TrimSpace(rawQuery) != "" ==>
      r.rows == RefreshAll(Filter(h => MatchesQuery(h, TrimSpace(rawQuery)), table), now)
  {
    var query := TrimSpace(rawQuery);
    if query == "" then
      if dbFails then Failure(500, "Failed to fetch data") else Rows(RefreshAll(table, now))
    else
      if dbFails then Failure(500, "Failed to search data")
      else Rows(RefreshAll(Filter(h => MatchesQuery(h, query), table), now))
  }

  /** For a plain query the served rows are exactly the rows whose
      lower-cased title or city contains the lower-cased query, in table
      order, and every served row differs from its stored row in status only. */
  lemma GetHackathonsSubstring(rawQuery: string, table: seq<Hackathon>, now: Instant)
    requires TrimSpace(rawQuery) != "" && IsPlainQuery(TrimSpace(rawQuery))
    ensures var q := Lower(TrimSpace(rawQuery));
      var served := GetHackathons(rawQuery, table, false, now).rows;
      var matching := Filter((h: Hackathon) => Contains(Lower(h.title), q) || Contains(Lower(h.city), q), table);
      && |served| == |matching|
      && forall i | 0 <= i < |served| :: SameExceptStatus(matching[i], served[i])
  {
    var query := TrimSpace(rawQuery);
    var q := Lower(query);
    var byPattern := (h: Hackathon) => MatchesQuery(h, query);
    var bySubstring := (h: Hackathon) => Contains(Lower(h.title), q) || Contains(Lower(h.city), q);
    forall i | 0 <= i < |table|
      ensures byPattern(table[i]) == bySubstring(table[i])
    {
      ILikeIsSubstring(table[i].title, query);
      ILikeIsSubstring(table[i].city, query);
    }
    FilterSamePredicate(byPattern, bySubstring, table);
  }
}
