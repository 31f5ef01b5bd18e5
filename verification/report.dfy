/**
 The match report exchanged between the analysis service and the web client:
 a score and an ordered list of titled sections, each with a derived status.
 */
module Report {

  /**
   A section description as it arrives in JSON: a narrative string, a list of
   keywords, or missing altogether (`undefined` or `null`).
   */
  datatype Description = Text(text: string) | List(items: seq<string>) | Absent

  /** The three-valued classification that drives the colour of a section. */
  datatype Status = Success | Warning | Error

  /** A report section once its status has been derived. */
  datatype Section = Section(title: string, description: Description, status: Status)

  /** The report returned for one evaluation request. */
  datatype MatchReport = MatchReport(matchScore: int, sections: seq<Section>)

  /** The titles the status classifier and the keyword repair treat specially. */
  const SkillsAnalysis := "Skills Analysis"
  const MissingKeywords := "Missing Keywords"
  const Recommendations := "Recommendations"
}
