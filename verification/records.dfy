/** The stored event record, as the scraper writes it and the read path
    serves it. */
module Records {
  import opened Optional
  import opened Dates

  /** One hackathon row. `deadline` and `status` are the fields the scraper
      fills and the read path recomputes; the deadline is held as the instant
      it was parsed to. The row id and the bookkeeping timestamps of the ORM
      are not modelled. */
  datatype Hackathon = Hackathon(
    title: string,
    date: string,
    format: string,
    city: string,
    ageLimit: string,
    link: string,
    status: string,
    deadline: Option<Instant>)

  const Dead := "DEAD"

  /** The literal the language model sometimes writes instead of a JSON null. */
  const NullText := "null"

  /** A title that can serve as the identity key of a record. */
  predicate IsUsableTitle(title: string) {
    title != "" && title != NullText
  }

  /** All fields but `status` agree. */
  predicate SameExceptStatus(a: Hackathon, b: Hackathon) {
    a.(status := b.status) == b
  }
}
