# PSI-BLAST hit extraction (pycoevol `src/BLAST.py`), modelled in Dafny

The `psiblast` class of pycoevol runs a PSI-BLAST search and writes an XML
report. It checks that report, and then turns it into a FASTA file of full-length
hit sequences. Each hit is tagged with its species. This project models the pure
logic inside the two report-reading steps, written as functions over strings and
over sequences of parsed HSP records:

- `validXML`: the report header check. The first line must open with `<?xml`.
  Every failure comes out as one error, "Invalid xml or not found".
- `sequencesXML`:
  - the coverage/identity filter over records → alignments → HSPs (high-scoring
    pairs), which builds the ordered hit-id list and keeps duplicates;
  - the division-by-zero and "No Hits found" error outcomes;
  - the accession cut out of each hit id;
  - the split of a fetched FASTA text into description and sequence;
  - the species tag taken from the description's brackets;
  - the record appended to the `.blast` file for each hit.

The code is Python 2. Its `str.find`, slicing, `split()`, `rstrip("\n")`,
`readline()` and line iteration are modelled exactly in module `PyStr`. The edge
cases of these operations decide the results:

- `find` returns -1 when the marker is absent, so `find("id|") + 4` is 3.
- A slice end of -1 means one character short of the end.
- An end index that does not exceed the start index gives an empty slice.

Modules:

- `Results`: `Option`, `Result` and `Outcome`. These replace the exceptions.
- `PyStr`: the Python string semantics listed above.
- `BlastTypes`: HSP / alignment / record datatypes, the thresholds, the error
  kinds, and the report path.
- `BlastReport`: `validXML`.
- `BlastHits`: the threshold filter, as a loop model (`CollectHits`) and as a
  recursive reference (`RecordHits`), with lemmas about its contents.
- `BlastSequences`: accession, fetched-record split, species tag, record format
  and the whole extraction (`SequencesXml`).

Where a plain reading of the identifier convention and the code differ, the model
follows the code:

- The accession is meant to be "the part between `id|` and `|ref`", but the code
  starts four characters after the start of `id|`. That skips the first character
  after the marker: `"gi|123|id|ABC123|ref|XYZ"` yields `"BC123"`, not
  `"ABC123"`. This is proved in `AccessionSkipsFirstCharacterAfterIdMarker`.
  For the usual `gi|<n>|ref|…` ids the absent marker puts the start at 3, so
  they yield the gi number (`AccessionOfGiRefId`).
- A description without brackets is not an error. A missing `[` starts the
  organism at 0, and a missing `]` ends it one character short. So a header line
  with no brackets still yields a tag from its first words (`NoBracketsTakesWholeLine`).
  Only a description with no words between the markers fails, for example one
  with `]` before `[`.

## Model

| member | source | states |
|---|---|---|
| BlastReport.ValidXml | src/BLAST.py:114-124 | the report passes exactly when the file exists and its text starts with `<?xml`; every failure (missing file, short or empty first line, other prefix) is the single "Invalid xml or not found" error naming the report path |
| BlastReport.HeaderOfFirstLine | src/BLAST.py:117-119 | testing the first five characters of the first line is the same as testing the first five characters of the whole file, since a newline in them would cut the line short |
| BlastReport.ShortFirstLineRejected | src/BLAST.py:117-124 | a report whose first line is shorter than five characters, including an empty file, is rejected |
| PyStr.PyFind | src/BLAST.py:157 | Python `find`: -1 exactly when the pattern never occurs, otherwise the position of an occurrence with none earlier |
| PyStr.PySlice | src/BLAST.py:157 | Python slicing: in-range bounds give the plain subsequence, a negative end counts from the end, an end past the length is clamped; the result is empty when the end does not exceed the start, when the start is at or past the length, and when a negative end lands at or before the start |
| PyStr.Split | src/BLAST.py:174 | Python `split()`: every piece is a non-empty whitespace-free token, and there are no pieces exactly when the text is all whitespace |
| PyStr.SplitSkipsSpace | src/BLAST.py:174 | a leading whitespace character contributes nothing to `split()` |
| PyStr.SplitLeadingToken | src/BLAST.py:174 | a leading whitespace-free run ended by whitespace or by the end of the text is split off whole as the first token; with SplitSkipsSpace this fixes `split()` on every input |
| PyStr.SplitJoin | src/BLAST.py:174 | splitting tokens joined by single spaces gives back exactly those tokens, in order |
| PyStr.ReadLine | src/BLAST.py:117 | Python `readline()`: a prefix of the text that is empty only at end of file, holds a newline at most as its last character, and ends in one unless it is the whole text |
| PyStr.RStripNewlines | src/BLAST.py:171 | Python `rstrip("\n")`: a prefix of the input, followed only by newlines in the input, and not itself ending in a newline |
| PyStr.StripEachLineRemovesNewlines | src/BLAST.py:169-171 | stripping trailing newlines from every line and concatenating removes exactly the newlines of the text and keeps every other character in order |
| BlastHits.Passes | src/BLAST.py:140-149 | an HSP with a zero span never passes; for a forward span it passes exactly when 100 × positives exceeds coverage threshold × span and 100 × identities exceeds identity threshold × span, and for a reversed span both comparisons turn round (see also PassesCrossMultiplied, PercentAbove) |
| BlastHits.PassesCrossMultiplied | src/BLAST.py:140-149 | for a forward query span an HSP passes exactly when 100 × positives exceeds coverage threshold × span and 100 × identities exceeds identity threshold × span; both are strict, so a percentage equal to its threshold is excluded |
| BlastHits.ScoreHsps | src/BLAST.py:139-150 | over one alignment's HSPs: fails with the division error exactly when some span is zero, otherwise yields the alignment's hit id once per passing HSP |
| BlastHits.ScoreAlignments | src/BLAST.py:137-150 | over one record's alignments: fails exactly when some HSP span is zero, otherwise yields the hits of each alignment in order |
| BlastHits.CollectHits | src/BLAST.py:135-151 | the report loop: fails with the division error exactly when some HSP of some alignment of some record has a zero span, otherwise yields the record-by-record, alignment-by-alignment, HSP-by-HSP hit list |
| BlastHits.HitMembership | src/BLAST.py:135-150 | a hit id is in the list exactly when some HSP of an alignment with that id clears both thresholds |
| BlastHits.HspHitsCount | src/BLAST.py:139-150 | duplicates are kept: an alignment contributes its own id, once for each of its passing HSPs |
| BlastHits.HitCount | src/BLAST.py:135-150 | the hit list is exactly as long as the number of passing HSPs in the report |
| BlastHits.HitsMonotone | src/BLAST.py:149 | raising either threshold can only remove entries from the hit list (as a multiset), never add one |
| BlastHits.FilterHits | src/BLAST.py:135-154 | the division error exactly when some span is zero; otherwise "No Hits found" for the report path exactly when no HSP passes; otherwise the non-empty hit list, one entry per passing HSP; no other error is possible |
| BlastSequences.Accession | src/BLAST.py:157 | the slice from four past the first `id|` (3 when absent) to the first `|ref` (one short of the end when absent): empty exactly when that end does not exceed that start, otherwise the hit id between them (characterized case by case by AccessionBetweenMarkers, AccessionWithoutIdMarker, AccessionWithoutRefMarker) |
| BlastSequences.AccessionBetweenMarkers | src/BLAST.py:157 | with `id|` first at p and `|ref` first at q ≥ p + 4, the accession is the hit id from p + 4 up to q |
| BlastSequences.AccessionWithoutIdMarker | src/BLAST.py:157 | with no `id|` the accession starts at index 3 and runs to the first `|ref` |
| BlastSequences.AccessionWithoutRefMarker | src/BLAST.py:157 | with no `|ref` the accession runs to one character short of the end of the hit id |
| BlastSequences.AccessionOfGiRefId | src/BLAST.py:157 | `gi|4507949|ref|NP_003397.1|` yields `4507949` |
| BlastSequences.AccessionSkipsFirstCharacterAfterIdMarker | src/BLAST.py:157 | `gi|123|id|ABC123|ref|XYZ` yields `BC123`: the start lands one past the end of `id|` |
| BlastSequences.SplitFetched | src/BLAST.py:166-171 | the description is the first line of the fetched text, including its newline; the sequence is the rest of the text with every newline removed, so it holds no newline |
| BlastSequences.Organism | src/BLAST.py:173 | the slice from one past the first `[` (0 when absent) to the first `]` (one short of the end when absent): empty exactly when that end does not exceed that start, otherwise the description between them (see SpeciesOfBracketedText, BracketsReversed, NoBracketsTakesWholeLine) |
| BlastSequences.SpeciesTag | src/BLAST.py:172-178 | the "No Hits found" error exactly when the text between the markers holds no word; otherwise a whitespace-free tag containing `_` that starts with the first word |
| BlastSequences.SpeciesOfBracketedName | src/BLAST.py:173-178 | for `<prefix>[w0 w1 …]<suffix>` with no bracket before `[`: one word gives `w0_sp.`, two or more give `w0_w1`, and later words are dropped |
| BlastSequences.SpeciesOfBracketedText | src/BLAST.py:173-178 | for `<prefix>[<name>]<suffix>` with no bracket in prefix or name, the organism is exactly the name, whatever whitespace it holds; no word in it gives "No Hits found", one word `w0` gives `w0_sp.`, two or more give `w0_w1` |
| BlastSequences.BracketsReversed | src/BLAST.py:173-176 | a `]` at or before the first `[` leaves nothing between the markers, which is the "No Hits found" error |
| BlastSequences.NoBracketsTakesWholeLine | src/BLAST.py:173 | with no brackets at all the organism is the whole description but its last character |
| BlastSequences.SpeciesOfTwoWords | src/BLAST.py:173-176 | `some header [Homo sapiens]` (newline-terminated) gives `Homo_sapiens` |
| BlastSequences.SpeciesOfOneWord | src/BLAST.py:173-178 | `[Bacteria]` gives `Bacteria_sp.` |
| BlastSequences.FormatRecord | src/BLAST.py:181 | the record is `\n`, `>`, the tag, `\n`, the sequence, `\n`, each at its stated position, four characters longer than tag and sequence together (read back line by line in RecordReadBack) |
| BlastSequences.RecordReadBack | src/BLAST.py:181 | an emitted record reads back as an empty line, then `>` + tag, then the sequence, which ends the record |
| BlastSequences.RecordFor | src/BLAST.py:156-184 | one hit: fetch by accession, split, tag, format; a failure is always "No Hits found" for the report path, and a written record opens with `\n>` and ends with `\n` (fully characterized by RecordForReadBack) |
| BlastSequences.RecordForReadBack | src/BLAST.py:157-184 | a hit's record fails exactly when its description gives no species tag, and then with "No Hits found"; otherwise it reads back as an empty line, the `>` + tag header, and the fetched sequence |
| BlastSequences.WriteUntilFailure | src/BLAST.py:156-184 | the records are written in hit order up to the first failing hit, whose error is raised; the records before it stay written; with no failure every hit gets its record |
| BlastSequences.WriteHits | src/BLAST.py:156-184 | the per-hit loop: record i is the record of hit i, never more records than hits, and a run without error writes one record per hit |
| BlastSequences.WriteHitsStops | src/BLAST.py:156-184 | the loop completes exactly when every hit yields a record; otherwise it stops at the first hit whose record fails, raising "No Hits found" |
| BlastSequences.SequencesXml | src/BLAST.py:126-184 | a zero span gives the division error and a report with no passing HSP gives "No Hits found", in both cases before anything is written; any error is one of those two; record i is the record of hit i; with no zero span and some passing HSP, the run completes exactly when every hit yields a record, writing one record per passing HSP, and otherwise stops at the first hit whose species tag fails, with "No Hits found", keeping the records of the hits before it |

## Left out

- `searchPSIBLAST` (src/BLAST.py:38-109): running the external tool, the remote
  `qblast` request and the report write are all I/O. Its `.fa` → `.fasta` step
  calls `open.close()` on the builtin. That raises, so the `remove` is never
  reached and the `move` always runs, even over an existing `.fasta`.
- Sequence fetch with retries (src/BLAST.py:158-165): network code. The fetch is
  a parameter `fetch: string -> string` that always returns text. Fetch failures,
  the retry count, and the extra fetch at line 165 in the fallback path are not modelled.
- Report parsing (`NCBIXML.parse`), `SeqIO` and the parameter loader `LoadParameters`:
  foreign libraries. Records are given as already-parsed integer HSP records, and
  the thresholds as reals. `LoadParameters` is not part of this model. If it
  returned strings, Python 2 would compare every float as smaller than a string,
  and every HSP would fail.
- Floating point: coverage and identity are computed over the reals, without IEEE
  rounding.
- File opening, reading, appending and closing, including the handle that line 75
  leaves open. `ValidXml` takes the file's text, or `None` when it is missing or
  unreadable. `SequencesXml` returns the records it would append, in order,
  rather than writing them.
- SplitFetched: requires a non-empty fetched text. On an empty response the
  source would leave `description` unbound, or stale from the previous hit
  (src/BLAST.py:166-168). `SequencesXml` requires a fetch that always returns
  text, for the same reason.
- `SequencesXml` computes every hit's record before writing any. The source
  fetches and writes one hit at a time. The two give the same written records and
  the same error, because fetch failures are left out.
- A failure while appending to the `.blast` file is also reported as "No Hits found"
  (the `except` at line 183). File I/O is not modelled, so that path is not modelled.
- BlastSequences.SpeciesTag: its own contract gives the error case exactly and the
  shape of the tag (whitespace-free, holding `_`, starting with the first word). The
  exact one-word / two-word rule is stated by `SpeciesOfBracketedText` for every
  bracketed description and by `SpeciesOfBracketedName` for single-space names.
- `__init__` / `__call__` (src/BLAST.py:24-36): plain field assignment.
