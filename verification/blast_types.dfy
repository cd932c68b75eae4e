/** The data the search module works on once the alignment report has been parsed:
    records, their alignments, and each alignment's high-scoring pairs (HSPs), plus the
    errors the module raises. */
module BlastTypes {

  /** One high-scoring pair: the counts and query coordinates the filter reads from it. */
  datatype Hsp = Hsp(positives: int, identities: int, queryStart: int, queryEnd: int)

  /** One alignment of the report: the hit's identifier and its HSPs, in report order. */
  datatype Alignment = Alignment(hitId: string, hsps: seq<Hsp>)

  /** One search record of the report: its alignments, in report order. */
  datatype BlastRecord = BlastRecord(alignments: seq<Alignment>)

  /** The identity and coverage thresholds, in percent, read from the parameter file. */
  datatype Thresholds = Thresholds(identity: real, coverage: real)

  /** The failures the module surfaces. Both messages that name a path name the report file. */
  datatype BlastError =
    | InvalidXmlOrNotFound(path: string)   // "<path> - Invalid xml or not found"
    | NoHitsFound(path: string)            // "<path> - No Hits found in PSI-BLAST search"
    | ZeroDivision                         // a zero query span in the coverage ratio

  /** The report file of search `id` in directory `dirname`. */
  function ReportPath(dirname: string, id: string): (p: string)
    ensures |p| == |dirname| + |id| + 4
    ensures p[..|dirname|] == dirname && p[|p| - 4..] == ".xml"
  {
    dirname + id + ".xml"
  }
}
