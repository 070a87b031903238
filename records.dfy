/** The rows of a Web of Science export as the profiler sees them. Only the columns the
    profiler reads are kept; `None` is a missing cell. The script later adds two columns,
    `ISU_CA` (a Boolean) and `PU_cleaned` (the publisher's display name); each stage that
    adds one has its own row type so that "the other fields are unchanged" can be stated. */
module Records {
  import opened Wrappers

  datatype Record = Record(
    DT: Option<string>,  // document type, e.g. "Article; Early Access"
    RP: Option<string>,  // reprint (corresponding-author) address
    TI: Option<string>,  // title
    PU: Option<string>,  // publisher code
    SO: Option<string>,  // source (journal) title
    JI: Option<string>,  // journal abbreviation
    DI: Option<string>)  // DOI

  /** A row after the `ISU_CA` column is added. */
  datatype Flagged = Flagged(rec: Record, ISU_CA: bool)

  /** A row after the publisher merge added `PU_cleaned`. */
  datatype Joined = Joined(PU_cleaned: Option<string>, row: Flagged)

  /** One line of the publisher counts: a display name and how many rows carry it. */
  datatype PieEntry = PieEntry(PU_cleaned: string, count: nat)
}
