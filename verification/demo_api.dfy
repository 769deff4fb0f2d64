/** The stand-alone demo API: a fixed in-memory list of events served by
    `GET /api/hackathons`, filtered by a case-insensitive substring match of
    the query on the title or the city. */
module DemoApi {
  import opened Text
  import opened Seqs

  /** One event of the in-memory list. */
  datatype Event = Event(
    id: string,
    title: string,
    date: string,
    format: string,
    city: string,
    ageLimit: string,
    link: string)

  /** The list the demo server starts with. */
  const Seed: seq<Event> := [Decentrathon, Aitucap, SpaceApps, HackFlowLaunch]

  const Decentrathon := Event("1", "Decentrathon", "15 Марта 2026", "Офлайн", "Астана", "18+", "https://decentrathon.io")
  const Aitucap := Event("2", "AITUCAP Hackathon", "10 Апреля 2026", "Офлайн", "Алматы", "16+", "https://aitucap.kz")
  const SpaceApps := Event("3", "NASA Space Apps Challenge", "5 Октября 2026", "Онлайн", "Global", "Нет ограничений", "https://spaceappschallenge.org")
  const HackFlowLaunch := Event("4", "HackFlow Beta Launch", "20 Мая 2026", "Офлайн / Онлайн", "Астана", "16+", "https://hackflow.dev")

  /** An event answers a lower-cased query when its lower-cased title or
      city contains it. */
  predicate Matches(e: Event, lowerQuery: string) {
    Contains(Lower(e.title), lowerQuery) || Contains(Lower(e.city), lowerQuery)
  }

  function MatchesQuery(lowerQuery: string): Event -> bool {
    e => Matches(e, lowerQuery)
  }

  /** What the handler serves for the raw `q` parameter. */
  function SearchEvents(events: seq<Event>, rawQuery: string): (result: seq<Event>)
    // a blank query serves the whole list, in order
    ensures TrimSpace(rawQuery) == "" ==> result == events
    // soundness and completeness of the match
    ensures TrimSpace(rawQuery) != "" ==>
      forall i | 0 <= i < |result| :: result[i] in events && Matches(result[i], Lower(TrimSpace(rawQuery)))
    ensures TrimSpace(rawQuery) != "" ==>
      forall i | 0 <= i < |events| :: Matches(events[i], Lower(TrimSpace(rawQuery))) ==> events[i] in result
    // the events come out unmodified and in their original order
    ensures TrimSpace(rawQuery) != "" ==> IsSubsequence(result, events)
  {
    var query := TrimSpace(rawQuery);
    if query == "" then events else Filter(MatchesQuery(Lower(query)), events)
  }

  /** The handler's loop: a fresh empty list, and each event appended when
      its title or city contains the lower-cased query. */
  method CollectMatches(events: seq<Event>, lowerQuery: string) returns (result: seq<Event>)
    ensures result == Filter(MatchesQuery(lowerQuery), events)
  {
    result := [];
    for i := 0 to |events|
      invariant result == Filter(MatchesQuery(lowerQuery), events[..i])
    {
      var e := events[i];
      CollectStep(events, i, lowerQuery);
      if Contains(Lower(e.title), lowerQuery) || Contains(Lower(e.city), lowerQuery) {
        result := result + [e];
      }
    }
    assert events[..|events|] == events;
  }

  /** One more event seen by the loop adds it to the matches iff it matches. */
  lemma CollectStep(events: seq<Event>, i: nat, lowerQuery: string)
    requires i < |events|
    ensures Filter(MatchesQuery(lowerQuery), events[..i + 1])
         == Filter(MatchesQuery(lowerQuery), events[..i])
            + (if Contains(Lower(events[i].title), lowerQuery) || Contains(Lower(events[i].city), lowerQuery)
               then [events[i]] else [])
  {
    var m := MatchesQuery(lowerQuery);
    assert events[..i + 1] == events[..i] + [events[i]];
    FilterAppend(m, events[..i], [events[i]]);
    assert [events[i]][1..] == [];
  }

  /** `GET /api/hackathons?q=…` over the in-memory list. */
  method GetHackathons(events: seq<Event>, rawQuery: string) returns (result: seq<Event>)
    ensures result == SearchEvents(events, rawQuery)
  {
    var query := TrimSpace(rawQuery);
    if query == "" {
      return events;
    }
    result := CollectMatches(events, Lower(query));
  }

  /** When nothing matches the answer is the empty list. */
  lemma NoMatchIsEmpty(events: seq<Event>, rawQuery: string)
    requires TrimSpace(rawQuery) != ""
    requires forall i | 0 <= i < |events| :: !Matches(events[i], Lower(TrimSpace(rawQuery)))
    ensures SearchEvents(events, rawQuery) == []
  {
  }

  /** Only the lower-cased trimmed query matters. */
  lemma SameNormalFormSameAnswer(events: seq<Event>, q1: string, q2: string)
    requires Lower(TrimSpace(q1)) == Lower(TrimSpace(q2))
    ensures SearchEvents(events, q1) == SearchEvents(events, q2)
  {
    assert |TrimSpace(q1)| == |TrimSpace(q2)|;
  }

  /** On the starting list the query "астана" serves the two events held in
      Astana, whatever the case of the city's spelling, and nothing else. */
  lemma AstanaQuery()
    ensures SearchEvents(Seed, "астана") == [Decentrathon, HackFlowLaunch]
  {
    AstanaSpelling();
    SearchOfNormalQuery(Seed, "астана");
    AstanaMatchesEvent(Decentrathon);
    AstanaMatchesEvent(HackFlowLaunch);
    AitucapMisses();
    SpaceAppsMisses();
    FilterOfFour(MatchesQuery("астана"), Decentrathon, Aitucap, SpaceApps, HackFlowLaunch);
  }

  /** A query already trimmed and lower-cased is used as it is. */
  lemma SearchOfNormalQuery(events: seq<Event>, q: string)
    requires q != "" && IsTrimmed(q) && Lower(q) == q
    ensures SearchEvents(events, q) == Filter(MatchesQuery(q), events)
  {
    TrimSpaceOfTrimmed(q);
  }

  /** The Almaty event has an ASCII title and a different city. */
  lemma AitucapMisses()
    ensures !Matches(Aitucap, "астана")
  {
    AsciiLacksQuery(Aitucap.title, "астана");
    AlmatyLacksQuery();
  }

  /** The online event is written in ASCII throughout. */
  lemma SpaceAppsMisses()
    ensures !Matches(SpaceApps, "астана")
  {
    AsciiLacksQuery(SpaceApps.title, "астана");
    AsciiLacksQuery(SpaceApps.city, "астана");
  }

  /** Filtering four elements of which the first and last pass. */
  lemma FilterOfFour<T>(p: T -> bool, a: T, b: T, c: T, d: T)
    requires p(a) && !p(b) && !p(c) && p(d)
    ensures Filter(p, [a, b, c, d]) == [a, d]
  {
    assert [d][1..] == [];
    assert Filter(p, [d]) == [d];
    assert [c, d][1..] == [d];
    assert Filter(p, [c, d]) == [d];
    assert [b, c, d][1..] == [c, d];
    assert Filter(p, [b, c, d]) == [d];
    assert [a, b, c, d][1..] == [b, c, d];
  }

  /** Both spellings of the city lower-case to the query. */
  lemma AstanaSpelling()
    ensures Lower("астана") == "астана" && Lower("Астана") == "астана"
  {
  }

  /** An event whose city is spelt "Астана" answers the query "астана". */
  lemma AstanaMatchesEvent(e: Event)
    requires e.city == "Астана"
    ensures Matches(e, "астана")
  {
    AstanaSpelling();
    assert HasPrefix(Lower(e.city), "астана");
  }

  /** A text written in ASCII letters cannot contain a Cyrillic query. */
  lemma AsciiLacksQuery(s: string, q: string)
    requires forall i | 0 <= i < |s| :: s[i] < 0x80 as char
    requires |q| > 0 && q[0] >= 0x400 as char
    ensures !Contains(Lower(s), q)
  {
    assert forall i | 0 <= i < |Lower(s)| :: Lower(s)[i] < 0x80 as char;
    ContainsHead(Lower(s), q);
  }

  /** The other city of the list is a different word of the same length. */
  lemma AlmatyLacksQuery()
    ensures !Contains(Lower("Алматы"), "астана")
  {
    assert Lower("Алматы") == "алматы";
    ContainsSameLength(Lower("Алматы"), "астана");
  }

  /** White space around the query is ignored. */
  lemma PaddingIgnored(events: seq<Event>, before: string, q: string, after: string)
    requires AllSpace(before) && AllSpace(after)
    ensures SearchEvents(events, before + q + after) == SearchEvents(events, q)
  {
    TrimSpacePadded(before, q, after);
  }
}
