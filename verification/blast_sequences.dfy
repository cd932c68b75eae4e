/** From the filtered hit list to the appended FASTA records: the accession cut from each
    hit id, the fetched record split into description and sequence, the species tag taken
    from the description's brackets, and the record written for each hit. */
module BlastSequences {
  import opened Results
  import opened PyStr
  import opened BlastTypes
  import opened BlastHits

  // ---------------------------------------------------------------- accession

  /** The accession passed to the sequence fetch: the hit id from four characters past
      the first "id|" up to the first "|ref", with Python's slice rules. When "id|" is
      absent, -1 + 4 puts the start at 3, just past a leading "gi|"; when "|ref" is
      absent, the end -1 drops the last character. */
  function Accession(hitId: string): (acc: string)
    ensures var lo := PyFind(hitId, "id|") + 4;
      var hi := if PyFind(hitId, "|ref") < 0 then |hitId| - 1 else PyFind(hitId, "|ref");
      && (acc == [] <==> hi <= lo)
      && (lo < hi ==> hi <= |hitId| && acc == hitId[lo..hi])
  {
    PySlice(hitId, PyFind(hitId, "id|") + 4, PyFind(hitId, "|ref"))
  }

  /** With both markers present and in order, the accession starts one character past
      the end of "id|" and stops at "|ref". */
  lemma AccessionBetweenMarkers(hitId: string, p: nat, q: nat)
    requires OccursAt(hitId, "id|", p) && forall k :: 0 <= k < p ==> !OccursAt(hitId, "id|", k)
    requires OccursAt(hitId, "|ref", q) && forall k :: 0 <= k < q ==> !OccursAt(hitId, "|ref", k)
    requires p + 4 <= q
    ensures Accession(hitId) == hitId[p + 4..q]
  {
    FindIs(hitId, "id|", p);
    FindIs(hitId, "|ref", q);
  }

  /** Without "id|" the accession starts at index 3: for "gi|<number>|ref|..." ids, the number. */
  lemma AccessionWithoutIdMarker(hitId: string, q: nat)
    requires forall k :: !OccursAt(hitId, "id|", k)
    requires OccursAt(hitId, "|ref", q) && forall k :: 0 <= k < q ==> !OccursAt(hitId, "|ref", k)
    requires 3 <= q
    ensures Accession(hitId) == hitId[3..q]
  {
    FindIs(hitId, "|ref", q);
  }

  /** Without "|ref" the accession runs to the second-to-last character of the hit id. */
  lemma AccessionWithoutRefMarker(hitId: string)
    requires forall k :: !OccursAt(hitId, "|ref", k)
    requires PyFind(hitId, "id|") + 4 <= |hitId| - 1
    ensures Accession(hitId) == hitId[PyFind(hitId, "id|") + 4..|hitId| - 1]
  {
  }

  const GiRefId: string := "gi|4507949|ref|NP_003397.1|"
  const MarkedId: string := "gi|123|id|ABC123|ref|XYZ"

  lemma GiRefIdLiterals()
    ensures GiRefId == "gi|4507949" + "|ref" + "|NP_003397.1|"
    ensures GiRefId == "gi|" + "4507949" + "|ref|NP_003397.1|"
  {
  }

  lemma GiRefIdFinds()
    ensures PyFind(GiRefId, "id|") == -1
    ensures PyFind(GiRefId, "|ref") == 10
  {
    var h := GiRefId;
    GiRefIdLiterals();
    SliceOfMiddle("gi|4507949", "|ref", "|NP_003397.1|");
    forall k | 0 <= k < |h| ensures !OccursAt(h, "id|", k) {
      if k == 1 {
        MismatchAt(h, "id|", k, 1);
      } else {
        MismatchAt(h, "id|", k, 0);
      }
    }
    forall k | 0 <= k < 10 ensures !OccursAt(h, "|ref", k) {
      if k == 2 {
        MismatchAt(h, "|ref", k, 1);
      } else {
        MismatchAt(h, "|ref", k, 0);
      }
    }
    FindIs(h, "|ref", 10);
  }

  /** A RefSeq hit id of the usual shape yields its gi number. */
  lemma AccessionOfGiRefId()
    ensures Accession(GiRefId) == "4507949"
  {
    GiRefIdFinds();
    GiRefIdLiterals();
    SliceOfMiddle("gi|", "4507949", "|ref|NP_003397.1|");
  }

  lemma MarkedIdLiterals()
    ensures MarkedId == "gi|123|" + "id|" + "ABC123|ref|XYZ"
    ensures MarkedId == "gi|123|id|ABC123" + "|ref" + "|XYZ"
    ensures MarkedId == "gi|123|id|A" + "BC123" + "|ref|XYZ"
  {
  }

  lemma MarkedIdFindsId()
    ensures PyFind(MarkedId, "id|") == 7
  {
    var h := MarkedId;
    MarkedIdLiterals();
    SliceOfMiddle("gi|123|", "id|", "ABC123|ref|XYZ");
    forall k | 0 <= k < 7 ensures !OccursAt(h, "id|", k) {
      if k == 1 {
        MismatchAt(h, "id|", k, 1);
      } else {
        MismatchAt(h, "id|", k, 0);
      }
    }
    FindIs(h, "id|", 7);
  }

  lemma MarkedIdNoRefBefore(lo: nat, hi: nat)
    requires hi <= 16
    ensures forall k :: lo <= k < hi ==> !OccursAt(MarkedId, "|ref", k)
  {
    var h := MarkedId;
    forall k | lo <= k < hi ensures !OccursAt(h, "|ref", k) {
      if k == 2 || k == 6 || k == 9 {
        MismatchAt(h, "|ref", k, 1);
      } else {
        MismatchAt(h, "|ref", k, 0);
      }
    }
  }

  lemma MarkedIdFinds()
    ensures PyFind(MarkedId, "id|") == 7
    ensures PyFind(MarkedId, "|ref") == 16
  {
    var h := MarkedId;
    MarkedIdFindsId();
    MarkedIdLiterals();
    SliceOfMiddle("gi|123|id|ABC123", "|ref", "|XYZ");
    MarkedIdNoRefBefore(0, 8);
    MarkedIdNoRefBefore(8, 16);
    FindIs(h, "|ref", 16);
  }

  /** When "id|" is present the start lands one character past it, so the first
      character after the marker is lost. */
  lemma AccessionSkipsFirstCharacterAfterIdMarker()
    ensures Accession(MarkedId) == "BC123"
  {
    MarkedIdFinds();
    MarkedIdLiterals();
    SliceOfMiddle("gi|123|id|A", "BC123", "|ref|XYZ");
  }

  // ---------------------------------------------------------------- the fetched record

  /** A fetched FASTA record as the module reads it. */
  datatype Fetched = Fetched(description: string, sequence: string)

  /** The first item read from the fetched text is the description; every later line is
      appended with its trailing newlines stripped. The text must be non-empty: on an
      empty response the source would read an unbound or stale description. */
  function SplitFetched(text: string): (f: Fetched)
    requires text != ""
    ensures 0 < |f.description| <= |text| && f.description == text[..|f.description|]
    ensures IsLine(f.description)
    ensures |f.description| < |text| ==> f.description[|f.description| - 1] == '\n'
    ensures f.sequence == RemoveNewlines(text[|f.description|..])
    ensures forall i :: 0 <= i < |f.sequence| ==> f.sequence[i] != '\n'
  {
    var description := ReadLine(text);
    var rest := text[|description|..];
    StripEachLineRemovesNewlines(rest);
    Fetched(description, StripEachLine(rest))
  }

  // ---------------------------------------------------------------- species tag

  /** The text between the first "[" and the first "]" of a description, with Python's
      slice rules: a missing "[" starts at 0, a missing "]" ends one short of the end,
      and a "]" before the "[" gives the empty string. */
  function Organism(description: string): (organism: string)
    ensures var lo := PyFind(description, "[") + 1;
      var hi := if PyFind(description, "]") < 0 then |description| - 1 else PyFind(description, "]");
      && (organism == [] <==> hi <= lo)
      && (lo < hi ==> hi <= |description| && organism == description[lo..hi])
  {
    PySlice(description, PyFind(description, "[") + 1, PyFind(description, "]"))
  }

  /** No character of `s` is whitespace. */
  predicate NoSpace(s: string) {
    forall i :: 0 <= i < |s| ==> !IsSpace(s[i])
  }

  /** The species tag of a description: "<genus>_<species>" from the first two words of
      the organism, "<word>_sp." when there is only one, and, when there are none, the
      "No Hits found" error of the report at `path` (the index error is caught and
      reported under that message). */
  function SpeciesTag(path: string, description: string): (r: Result<string, BlastError>)
    ensures r.Failure? <==> forall i :: 0 <= i < |Organism(description)| ==> IsSpace(Organism(description)[i])
    ensures r.Failure? ==> r.error == NoHitsFound(path)
    ensures r.Success? ==> NoSpace(r.value) && '_' in r.value
    ensures r.Success? ==> Split(Organism(description))[0] < r.value
  {
    var words := Split(Organism(description));
    if |words| == 0 then Failure(NoHitsFound(path))
    else if |words| != 1 then
      assert words[0] + "_" + words[1] == words[0] + ("_" + words[1]);
      Success(words[0] + "_" + words[1])
    else
      assert words[0] + "_sp." == words[0] + ("_sp.");
      Success(words[0] + "_sp.")
  }

  /** No character of `s` is a square bracket. */
  predicate NoBrackets(s: string) {
    forall i :: 0 <= i < |s| ==> s[i] != '[' && s[i] != ']'
  }

  lemma {:induction false} JoinNoBrackets(ts: seq<string>)
    requires forall k :: 0 <= k < |ts| ==> NoBrackets(ts[k])
    ensures NoBrackets(Join(ts))
  {
    if |ts| > 1 {
      JoinNoBrackets(ts[1..]);
      var j := Join(ts[1..]);
      assert forall i :: 0 <= i < |ts[0]| ==> (ts[0] + " " + j)[i] == ts[0][i];
      assert forall i :: |ts[0]| + 1 <= i < |ts[0]| + 1 + |j| ==> (ts[0] + " " + j)[i] == j[i - |ts[0]| - 1];
    }
  }

  /** In "<prefix>[<name>]<suffix>" with no bracket in prefix or name, the first "[" and
      the first "]" are the ones written around the name. */
  lemma BracketPositions(prefix: string, name: string, suffix: string)
    requires NoBrackets(prefix) && NoBrackets(name)
    ensures var d := (prefix + "[") + name + ("]" + suffix);
      && PyFind(d, "[") == |prefix|
      && PyFind(d, "]") == |prefix| + 1 + |name|
  {
    var a := prefix + "[";
    var d := a + name + ("]" + suffix);
    assert forall i :: 0 <= i < |prefix| ==> d[i] == prefix[i];
    assert d[|prefix|] == '[';
    FindChar(d, '[', |prefix|);
    assert forall i :: |a| <= i < |a| + |name| ==> d[i] == name[i - |a|];
    assert d[|a| + |name|] == ']';
    FindChar(d, ']', |a| + |name|);
  }

  /** For a description "<prefix>[<words>]<suffix>" whose prefix holds no bracket, the tag
      is built from the bracketed words: the first two joined by "_", or the only one
      followed by "_sp.". */
  lemma SpeciesOfBracketedName(path: string, prefix: string, words: seq<string>, suffix: string)
    requires NoBrackets(prefix)
    requires |words| >= 1
    requires forall k :: 0 <= k < |words| ==> IsToken(words[k]) && NoBrackets(words[k])
    ensures SpeciesTag(path, (prefix + "[") + Join(words) + ("]" + suffix))
         == Success(if |words| == 1 then words[0] + "_sp." else words[0] + "_" + words[1])
  {
    var name := Join(words);
    JoinNoBrackets(words);
    BracketPositions(prefix, name, suffix);
    SliceOfMiddle(prefix + "[", name, "]" + suffix);
    assert Organism((prefix + "[") + name + ("]" + suffix)) == name;
    SplitJoin(words);
  }

  /** For a description "<prefix>[<name>]<suffix>" whose prefix and name hold no bracket,
      the organism is exactly the bracketed name, whatever whitespace it holds, and the tag
      comes from its words: none is the "No Hits found" error, one gives "<word>_sp.", two
      or more give the first two joined by "_". */
  lemma SpeciesOfBracketedText(path: string, prefix: string, name: string, suffix: string)
    requires NoBrackets(prefix) && NoBrackets(name)
    ensures var d := (prefix + "[") + name + ("]" + suffix);
      var w := Split(name);
      && Organism(d) == name
      && SpeciesTag(path, d) == (if |w| == 0 then Failure(NoHitsFound(path))
                                 else if |w| == 1 then Success(w[0] + "_sp.")
                                 else Success(w[0] + "_" + w[1]))
  {
    BracketPositions(prefix, name, suffix);
    SliceOfMiddle(prefix + "[", name, "]" + suffix);
  }

  /** A "]" before the first "[" leaves no words, which is reported as "No Hits found". */
  lemma BracketsReversed(path: string, description: string)
    requires 0 <= PyFind(description, "]") <= PyFind(description, "[")
    ensures SpeciesTag(path, description) == Failure(NoHitsFound(path))
  {
  }

  /** With no brackets at all the whole description but its last character is taken, so
      a newline-terminated header line still yields a tag. */
  lemma NoBracketsTakesWholeLine(description: string)
    requires |description| > 0 && NoBrackets(description)
    ensures Organism(description) == description[..|description| - 1]
  {
    FindCharAbsent(description, '[');
    FindCharAbsent(description, ']');
  }

  lemma TwoWordsLiterals()
    ensures "Homo" + "_" + "sapiens" == "Homo_sapiens"
    ensures Join(["Homo", "sapiens"]) == "Homo sapiens"
    ensures ("some header " + "[") + "Homo sapiens" + ("]" + "\n") == "some header [Homo sapiens]\n"
  {
  }

  /** A two-word organism gives "<genus>_<species>". */
  lemma SpeciesOfTwoWords(path: string)
    ensures SpeciesTag(path, "some header [Homo sapiens]\n") == Success("Homo_sapiens")
  {
    var homo, sapiens := "Homo", "sapiens";
    var words := [homo, sapiens];
    assert IsToken(homo) && NoBrackets(homo);
    assert IsToken(sapiens) && NoBrackets(sapiens);
    assert NoBrackets("some header ");
    var d := ("some header " + "[") + Join(words) + ("]" + "\n");
    SpeciesOfBracketedName(path, "some header ", words, "\n");
    assert SpeciesTag(path, d) == Success(homo + "_" + sapiens);
    TwoWordsLiterals();
  }

  lemma OneWordLiterals()
    ensures "Bacteria" + "_sp." == "Bacteria_sp."
    ensures Join(["Bacteria"]) == "Bacteria"
    ensures ("" + "[") + "Bacteria" + ("]" + "") == "[Bacteria]"
  {
  }

  /** A one-word organism gives "<word>_sp.". */
  lemma SpeciesOfOneWord(path: string)
    ensures SpeciesTag(path, "[Bacteria]") == Success("Bacteria_sp.")
  {
    var bacteria := "Bacteria";
    var words := [bacteria];
    assert IsToken(bacteria) && NoBrackets(bacteria);
    assert NoBrackets("");
    var d := ("" + "[") + Join(words) + ("]" + "");
    SpeciesOfBracketedName(path, "", words, "");
    assert SpeciesTag(path, d) == Success(bacteria + "_sp.");
    OneWordLiterals();
  }

  // ---------------------------------------------------------------- output records

  /** The text appended to the ".blast" file for one hit. */
  function FormatRecord(species: string, sequence: string): (rec: string)
    ensures |rec| == |species| + |sequence| + 4
    ensures rec[0] == '\n' && rec[1] == '>' && rec[|species| + 2] == '\n' && rec[|rec| - 1] == '\n'
    ensures rec[2..|species| + 2] == species && rec[|species| + 3..|rec| - 1] == sequence
  {
    "\n>" + species + "\n" + sequence + "\n"
  }

  /** A record reads back as three lines: an empty one, the ">"-prefixed species header,
      and the sequence, which ends the record. */
  lemma RecordReadBack(species: string, sequence: string)
    requires forall i :: 0 <= i < |species| ==> species[i] != '\n'
    requires forall i :: 0 <= i < |sequence| ==> sequence[i] != '\n'
    ensures var rec := FormatRecord(species, sequence);
      && |rec| == |species| + |sequence| + 4
      && ReadLine(rec) == "\n"
      && ReadLine(rec[1..]) == ">" + species + "\n"
      && rec[|species| + 3..] == sequence + "\n"
      && ReadLine(rec[|species| + 3..]) == sequence + "\n"
  {
    var rec := FormatRecord(species, sequence);
    ReadLineThrough("", rec[1..]);
    assert rec == "" + "\n" + rec[1..];
    ReadLineThrough(">" + species, sequence + "\n");
    assert rec[1..] == ">" + species + "\n" + (sequence + "\n");
    ReadLineThrough(sequence, "");
    assert rec[|species| + 3..] == sequence + "\n" + "";
  }

  /** The record written for one hit: fetch by accession, split, tag, format. */
  function RecordFor(path: string, hitId: string, fetch: string -> string): (r: Result<string, BlastError>)
    requires fetch(Accession(hitId)) != ""
    ensures r.Failure? ==> r.error == NoHitsFound(path)
    ensures r.Success? ==> |r.value| >= 5 && r.value[0] == '\n' && r.value[1] == '>' && r.value[|r.value| - 1] == '\n'
  {
    var f := SplitFetched(fetch(Accession(hitId)));
    match SpeciesTag(path, f.description)
    case Failure(e) => Failure(e)
    case Success(species) => Success(FormatRecord(species, f.sequence))
  }

  /** A hit's record fails exactly when its description yields no species tag, and then
      with the report's "No Hits found" error; a written record reads back as the tag
      header followed by the fetched sequence. */
  lemma RecordForReadBack(path: string, hitId: string, fetch: string -> string)
    requires fetch(Accession(hitId)) != ""
    ensures var f := SplitFetched(fetch(Accession(hitId)));
      var r := RecordFor(path, hitId, fetch);
      && (r.Failure? <==> SpeciesTag(path, f.description).Failure?)
      && (r.Failure? ==> r.error == NoHitsFound(path))
      && (r.Success? ==> |r.value| > 1 && r.value[0] == '\n' && ReadLine(r.value[1..]) == ">" + SpeciesTag(path, f.description).value + "\n")
      && (r.Success? ==> |SpeciesTag(path, f.description).value| + 3 <= |r.value|
                          && r.value[|SpeciesTag(path, f.description).value| + 3..] == f.sequence + "\n")
  {
    var f := SplitFetched(fetch(Accession(hitId)));
    var tag := SpeciesTag(path, f.description);
    if tag.Success? {
      var species := tag.value;
      assert forall i :: 0 <= i < |species| ==> species[i] != '\n' by {
        assert NoSpace(species);
      }
      RecordReadBack(species, f.sequence);
    }
  }

  /** What one run appended to the ".blast" file: the records written, in order, and the
      error that stopped the run, if any. */
  datatype Appended = Appended(records: seq<string>, error: Option<BlastError>)

  /** Writes the per-hit results in order, stopping at the first failure, whose error
      the run then raises; the records before it stay written. */
  function WriteUntilFailure(results: seq<Result<string, BlastError>>): (a: Appended)
    decreases |results|
    ensures |a.records| <= |results|
    ensures forall i :: 0 <= i < |a.records| ==> results[i] == Success(a.records[i])
    ensures a.error.None? <==> |a.records| == |results|
    ensures a.error.Some? ==> results[|a.records|] == Failure(a.error.value)
  {
    if |results| == 0 then Appended([], None)
    else
      match results[0]
      case Failure(e) => Appended([], Some(e))
      case Success(record) =>
        var rest := WriteUntilFailure(results[1..]);
        Appended([record] + rest.records, rest.error)
  }

  /** Each hit's record, in hit-list order. */
  function RecordsFor(path: string, hits: seq<string>, fetch: string -> string): (results: seq<Result<string, BlastError>>)
    requires forall acc :: fetch(acc) != ""
    ensures |results| == |hits|
    ensures forall i :: 0 <= i < |hits| ==> results[i] == RecordFor(path, hits[i], fetch)
  {
    seq(|hits|, i requires 0 <= i < |hits| => RecordFor(path, hits[i], fetch))
  }

  /** The per-hit loop: each hit's record is appended in hit-list order until the first
      hit whose description yields no species tag, which raises "No Hits found". */
  function WriteHits(path: string, hits: seq<string>, fetch: string -> string): (a: Appended)
    requires forall acc :: fetch(acc) != ""
    ensures |a.records| <= |hits|
    ensures forall i :: 0 <= i < |a.records| ==> RecordFor(path, hits[i], fetch) == Success(a.records[i])
    ensures a.error.None? ==> |a.records| == |hits|
  {
    WriteUntilFailure(RecordsFor(path, hits, fetch))
  }

  /** The loop runs to the end exactly when every hit yields a record, and otherwise stops
      at the first hit whose record fails, raising that hit's "No Hits found". */
  lemma WriteHitsStops(path: string, hits: seq<string>, fetch: string -> string)
    requires forall acc :: fetch(acc) != ""
    ensures var a := WriteHits(path, hits, fetch);
      && (a.error.None? <==> forall i :: 0 <= i < |hits| ==> RecordFor(path, hits[i], fetch).Success?)
      && (a.error.Some? ==> |a.records| < |hits| && a.error.value == NoHitsFound(path)
                            && RecordFor(path, hits[|a.records|], fetch) == Failure(NoHitsFound(path)))
  {
    var results := RecordsFor(path, hits, fetch);
    var a := WriteUntilFailure(results);
    if a.error.Some? {
      assert results[|a.records|] == Failure(a.error.value);
    } else {
      assert forall i :: 0 <= i < |hits| ==> results[i].Success?;
    }
  }

  // ---------------------------------------------------------------- the whole extraction

  /** The pure part of extracting the hits of search `id` in `dirname`: filter the parsed
      report, then write one record per hit, in hit-list order. A zero query span or an
      empty hit list stops the run before anything is written; a hit whose description
      yields no species tag stops it after the records of the hits before it. */
  function SequencesXml(dirname: string, id: string, rs: seq<BlastRecord>, t: Thresholds,
                        fetch: string -> string): (a: Appended)
    requires forall acc :: fetch(acc) != ""
    ensures a.error == Some(ZeroDivision) <==> exists i, j, k :: ZeroSpanAt(rs, i, j, k)
    ensures a.error == Some(ZeroDivision) ==> a.records == []
    ensures (forall i, j, k :: !ZeroSpanAt(rs, i, j, k)) && (forall i, j, k :: !PassingAt(rs, t, i, j, k))
            ==> a == Appended([], Some(NoHitsFound(ReportPath(dirname, id))))
    ensures a.error.Some? ==> a.error.value in {ZeroDivision, NoHitsFound(ReportPath(dirname, id))}
    ensures a.error.None? ==> |a.records| == TotalPassing(rs, t) > 0
    ensures |a.records| <= |RecordHits(rs, t)|
    ensures forall i :: 0 <= i < |a.records| ==>
      RecordFor(ReportPath(dirname, id), RecordHits(rs, t)[i], fetch) == Success(a.records[i])
    ensures (forall i, j, k :: !ZeroSpanAt(rs, i, j, k)) && TotalPassing(rs, t) > 0 ==>
      (a.error.None? <==> forall i :: 0 <= i < |RecordHits(rs, t)| ==>
                            RecordFor(ReportPath(dirname, id), RecordHits(rs, t)[i], fetch).Success?)
    ensures (forall i, j, k :: !ZeroSpanAt(rs, i, j, k)) && TotalPassing(rs, t) > 0 ==>
      (a.error.Some? ==> |a.records| < |RecordHits(rs, t)|
                         && RecordFor(ReportPath(dirname, id), RecordHits(rs, t)[|a.records|], fetch)
                            == Failure(NoHitsFound(ReportPath(dirname, id))))
  {
    var path := ReportPath(dirname, id);
    HitCount(rs, t);
    match FilterHits(path, rs, t)
    case Failure(e) => Appended([], Some(e))
    case Success(hits) =>
      WriteHitsStops(path, hits, fetch);
      WriteHits(path, hits, fetch)
  }
}
