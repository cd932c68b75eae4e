/** The threshold filter over a parsed report: every HSP of every alignment of every
    record is scored, and the alignment's hit id is kept once per HSP whose coverage and
    identity both strictly exceed their thresholds. */
module BlastHits {
  import opened Results
  import opened BlastTypes

  // ---------------------------------------------------------------- scoring one HSP

  /** The query span the ratios divide by. */
  function Span(h: Hsp): int {
    h.queryEnd - h.queryStart
  }

  /** `count` as a percentage of a non-zero query span, `count / span * 100`, over the reals. */
  function Percent(count: int, span: int): real
    requires span != 0
  {
    (count as real) / (span as real) * 100.0
  }

  /** The HSP clears both thresholds; both comparisons are strict. A zero span never
      passes, but the filter never reaches this test for one (it fails first). */
  predicate Passes(h: Hsp, t: Thresholds): (b: bool)
    ensures b ==> Span(h) != 0
    ensures Span(h) > 0 ==> (b <==> ((100 * h.positives) as real > t.coverage * Span(h) as real
                                   && (100 * h.identities) as real > t.identity * Span(h) as real))
    ensures Span(h) < 0 ==> (b <==> ((100 * h.positives) as real < t.coverage * Span(h) as real
                                   && (100 * h.identities) as real < t.identity * Span(h) as real))
  {
    if Span(h) == 0 then false
    else
      PercentAbove(h.positives, Span(h), t.coverage);
      PercentAbove(h.identities, Span(h), t.identity);
      Percent(h.positives, Span(h)) > t.coverage && Percent(h.identities, Span(h)) > t.identity
  }

  /** A percentage exceeds a threshold exactly when the cross-multiplied count does;
      the comparison turns round when the span is negative. */
  lemma PercentAbove(count: int, span: int, c: real)
    requires span != 0
    ensures span > 0 ==> (Percent(count, span) > c <==> (100 * count) as real > c * span as real)
    ensures span < 0 ==> (Percent(count, span) > c <==> (100 * count) as real < c * span as real)
  {
    var p := Percent(count, span);
    assert p * (span as real) == (100 * count) as real;
    if span > 0 {
      assert p > c <==> p * (span as real) > c * (span as real);
    } else {
      assert p > c <==> p * (span as real) < c * (span as real);
    }
  }

  /** The pass test without division: for a forward span, 100 times each count must
      strictly exceed threshold times span, so a percentage equal to its threshold fails. */
  lemma PassesCrossMultiplied(h: Hsp, t: Thresholds)
    requires Span(h) > 0
    ensures Passes(h, t) <==>
      && (100 * h.positives) as real > t.coverage * Span(h) as real
      && (100 * h.identities) as real > t.identity * Span(h) as real
  {
    PercentAbove(h.positives, Span(h), t.coverage);
    PercentAbove(h.identities, Span(h), t.identity);
  }

  // ---------------------------------------------------------------- where the report is degenerate

  /** Every HSP in `hsps` has a non-zero query span. */
  predicate SpansNonZero(hsps: seq<Hsp>) {
    forall k :: 0 <= k < |hsps| ==> Span(hsps[k]) != 0
  }

  predicate AlignmentsNonZero(aligns: seq<Alignment>) {
    forall j :: 0 <= j < |aligns| ==> SpansNonZero(aligns[j].hsps)
  }

  predicate RecordsNonZero(rs: seq<BlastRecord>) {
    forall i :: 0 <= i < |rs| ==> AlignmentsNonZero(rs[i].alignments)
  }

  /** HSP `k` of alignment `j` of record `i` exists and has a zero query span. */
  predicate ZeroSpanAt(rs: seq<BlastRecord>, i: int, j: int, k: int) {
    && 0 <= i < |rs|
    && 0 <= j < |rs[i].alignments|
    && 0 <= k < |rs[i].alignments[j].hsps|
    && Span(rs[i].alignments[j].hsps[k]) == 0
  }

  /** HSP `k` of alignment `j` of record `i` exists and clears the thresholds. */
  predicate PassingAt(rs: seq<BlastRecord>, t: Thresholds, i: int, j: int, k: int) {
    && 0 <= i < |rs|
    && 0 <= j < |rs[i].alignments|
    && 0 <= k < |rs[i].alignments[j].hsps|
    && Passes(rs[i].alignments[j].hsps[k], t)
  }

  lemma ZeroSpanWitness(rs: seq<BlastRecord>)
    ensures !RecordsNonZero(rs) <==> exists i, j, k :: ZeroSpanAt(rs, i, j, k)
  {
    if !RecordsNonZero(rs) {
      var i :| 0 <= i < |rs| && !AlignmentsNonZero(rs[i].alignments);
      var j :| 0 <= j < |rs[i].alignments| && !SpansNonZero(rs[i].alignments[j].hsps);
      var k :| 0 <= k < |rs[i].alignments[j].hsps| && Span(rs[i].alignments[j].hsps[k]) == 0;
      assert ZeroSpanAt(rs, i, j, k);
    }
  }

  // ---------------------------------------------------------------- the hit list

  /** Hit ids contributed by one alignment: its id once per passing HSP, in HSP order. */
  function HspHits(id: string, hsps: seq<Hsp>, t: Thresholds): seq<string>
    decreases |hsps|
  {
    if |hsps| == 0 then []
    else HspHits(id, hsps[..|hsps| - 1], t) + (if Passes(hsps[|hsps| - 1], t) then [id] else [])
  }

  /** Hit ids contributed by a record's alignments, in alignment order. */
  function AlignmentHits(aligns: seq<Alignment>, t: Thresholds): seq<string>
    decreases |aligns|
  {
    if |aligns| == 0 then []
    else
      var last := aligns[|aligns| - 1];
      AlignmentHits(aligns[..|aligns| - 1], t) + HspHits(last.hitId, last.hsps, t)
  }

  /** Hit ids contributed by the report's records, in record order. */
  function RecordHits(rs: seq<BlastRecord>, t: Thresholds): seq<string>
    decreases |rs|
  {
    if |rs| == 0 then []
    else RecordHits(rs[..|rs| - 1], t) + AlignmentHits(rs[|rs| - 1].alignments, t)
  }

  /** The innermost loop of the report reader, over one alignment's HSPs: appends the
      alignment's hit id for each passing HSP and fails on the first zero query span. */
  method ScoreHsps(hitId: string, hsps: seq<Hsp>, t: Thresholds) returns (r: Result<seq<string>, BlastError>)
    ensures r.Failure? <==> !SpansNonZero(hsps)
    ensures r.Failure? ==> r.error == ZeroDivision
    ensures r.Success? ==> r.value == HspHits(hitId, hsps, t)
  {
    var hits: seq<string> := [];
    var k := 0;
    while k < |hsps|
      invariant 0 <= k <= |hsps|
      invariant SpansNonZero(hsps[..k])
      invariant hits == HspHits(hitId, hsps[..k], t)
    {
      var hsp := hsps[k];
      var query := hsp.queryEnd - hsp.queryStart;
      if query == 0 {
        return Failure(ZeroDivision);
      }
      var coverage := (hsp.positives as real) / (query as real) * 100.0;
      var identity := (hsp.identities as real) / (query as real) * 100.0;
      if coverage > t.coverage && identity > t.identity {
        hits := hits + [hitId];
      }
      assert hsps[..k + 1][..k] == hsps[..k];
      k := k + 1;
    }
    assert hsps[..k] == hsps;
    return Success(hits);
  }

  /** The middle loop of the report reader, over one record's alignments. */
  method ScoreAlignments(aligns: seq<Alignment>, t: Thresholds) returns (r: Result<seq<string>, BlastError>)
    ensures r.Failure? <==> !AlignmentsNonZero(aligns)
    ensures r.Failure? ==> r.error == ZeroDivision
    ensures r.Success? ==> r.value == AlignmentHits(aligns, t)
  {
    var hits: seq<string> := [];
    var j := 0;
    while j < |aligns|
      invariant 0 <= j <= |aligns|
      invariant AlignmentsNonZero(aligns[..j])
      invariant hits == AlignmentHits(aligns[..j], t)
    {
      var found := ScoreHsps(aligns[j].hitId, aligns[j].hsps, t);
      if found.Failure? {
        return found;
      }
      hits := hits + found.value;
      assert aligns[..j + 1][..j] == aligns[..j];
      j := j + 1;
    }
    assert aligns[..j] == aligns;
    return Success(hits);
  }

  /** The report reader: walks records, alignments and HSPs in report order, collecting
      the hit id of every passing HSP, and fails on the first zero query span. */
  method CollectHits(rs: seq<BlastRecord>, t: Thresholds) returns (r: Result<seq<string>, BlastError>)
    ensures r.Failure? <==> exists i, j, k :: ZeroSpanAt(rs, i, j, k)
    ensures r.Failure? ==> r.error == ZeroDivision
    ensures r.Success? ==> r.value == RecordHits(rs, t)
  {
    ZeroSpanWitness(rs);
    var hits: seq<string> := [];
    var i := 0;
    while i < |rs|
      invariant 0 <= i <= |rs|
      invariant RecordsNonZero(rs[..i])
      invariant hits == RecordHits(rs[..i], t)
    {
      var found := ScoreAlignments(rs[i].alignments, t);
      if found.Failure? {
        return found;
      }
      hits := hits + found.value;
      assert rs[..i + 1][..i] == rs[..i];
      i := i + 1;
    }
    assert rs[..i] == rs;
    return Success(hits);
  }

  // ---------------------------------------------------------------- what is in the list

  lemma {:induction false} HspHitsMembers(id: string, hsps: seq<Hsp>, t: Thresholds, x: string)
    ensures x in HspHits(id, hsps, t) <==> x == id && exists k :: 0 <= k < |hsps| && Passes(hsps[k], t)
    decreases |hsps|
  {
    if |hsps| > 0 {
      var init := hsps[..|hsps| - 1];
      HspHitsMembers(id, init, t, x);
      assert forall k :: 0 <= k < |init| ==> init[k] == hsps[k];
    }
  }

  lemma {:induction false} AlignmentHitsMembers(aligns: seq<Alignment>, t: Thresholds, x: string)
    ensures x in AlignmentHits(aligns, t) <==>
      exists j, k :: 0 <= j < |aligns| && 0 <= k < |aligns[j].hsps|
                  && aligns[j].hitId == x && Passes(aligns[j].hsps[k], t)
    decreases |aligns|
  {
    if |aligns| > 0 {
      var n := |aligns| - 1;
      var init := aligns[..n];
      AlignmentHitsMembers(init, t, x);
      HspHitsMembers(aligns[n].hitId, aligns[n].hsps, t, x);
      assert forall j :: 0 <= j < n ==> init[j] == aligns[j];
      if x in AlignmentHits(aligns, t) && x !in AlignmentHits(init, t) {
        var k :| 0 <= k < |aligns[n].hsps| && Passes(aligns[n].hsps[k], t);
        assert aligns[n].hitId == x;
      }
    }
  }

  /** A hit id is in the list exactly when some HSP of an alignment carrying that id passes. */
  lemma {:induction false} HitMembership(rs: seq<BlastRecord>, t: Thresholds, x: string)
    ensures x in RecordHits(rs, t) <==>
      exists i, j, k :: PassingAt(rs, t, i, j, k) && rs[i].alignments[j].hitId == x
    decreases |rs|
  {
    if |rs| > 0 {
      var n := |rs| - 1;
      var init := rs[..n];
      HitMembership(init, t, x);
      AlignmentHitsMembers(rs[n].alignments, t, x);
      assert forall i :: 0 <= i < n ==> init[i] == rs[i];
      if x in RecordHits(rs, t) {
        if x !in RecordHits(init, t) {
          var j, k :| 0 <= j < |rs[n].alignments| && 0 <= k < |rs[n].alignments[j].hsps|
                      && rs[n].alignments[j].hitId == x && Passes(rs[n].alignments[j].hsps[k], t);
          assert PassingAt(rs, t, n, j, k);
        } else {
          var i, j, k :| PassingAt(init, t, i, j, k) && init[i].alignments[j].hitId == x;
          assert PassingAt(rs, t, i, j, k);
        }
      } else {
        forall i, j, k | PassingAt(rs, t, i, j, k)
          ensures rs[i].alignments[j].hitId != x
        {
          if i < n {
            assert PassingAt(init, t, i, j, k);
          }
        }
      }
    }
  }

  // ---------------------------------------------------------------- how many times

  /** Positions of the HSPs that pass. */
  function PassingIndices(hsps: seq<Hsp>, t: Thresholds): set<int> {
    set k | 0 <= k < |hsps| && Passes(hsps[k], t)
  }

  /** Duplicates are kept: an alignment contributes its id once for every passing HSP. */
  lemma {:induction false} HspHitsCount(id: string, hsps: seq<Hsp>, t: Thresholds)
    ensures |HspHits(id, hsps, t)| == |PassingIndices(hsps, t)|
    ensures forall x :: x in HspHits(id, hsps, t) ==> x == id
    decreases |hsps|
  {
    if |hsps| > 0 {
      var n := |hsps| - 1;
      var init := hsps[..n];
      HspHitsCount(id, init, t);
      var before := PassingIndices(init, t);
      assert forall k :: 0 <= k < n ==> init[k] == hsps[k];
      if Passes(hsps[n], t) {
        assert PassingIndices(hsps, t) == before + {n};
      } else {
        assert PassingIndices(hsps, t) == before;
      }
    }
  }

  /** The number of passing HSPs over a record's alignments. */
  function AlignmentPassing(aligns: seq<Alignment>, t: Thresholds): nat
    decreases |aligns|
  {
    if |aligns| == 0 then 0
    else AlignmentPassing(aligns[..|aligns| - 1], t) + |PassingIndices(aligns[|aligns| - 1].hsps, t)|
  }

  /** The number of passing HSPs over the whole report. */
  function TotalPassing(rs: seq<BlastRecord>, t: Thresholds): nat
    decreases |rs|
  {
    if |rs| == 0 then 0
    else TotalPassing(rs[..|rs| - 1], t) + AlignmentPassing(rs[|rs| - 1].alignments, t)
  }

  lemma {:induction false} AlignmentHitsCount(aligns: seq<Alignment>, t: Thresholds)
    ensures |AlignmentHits(aligns, t)| == AlignmentPassing(aligns, t)
    decreases |aligns|
  {
    if |aligns| > 0 {
      var last := aligns[|aligns| - 1];
      AlignmentHitsCount(aligns[..|aligns| - 1], t);
      HspHitsCount(last.hitId, last.hsps, t);
    }
  }

  /** The hit list has exactly one entry per passing HSP in the report. */
  lemma {:induction false} HitCount(rs: seq<BlastRecord>, t: Thresholds)
    ensures |RecordHits(rs, t)| == TotalPassing(rs, t)
    decreases |rs|
  {
    if |rs| > 0 {
      HitCount(rs[..|rs| - 1], t);
      AlignmentHitsCount(rs[|rs| - 1].alignments, t);
    }
  }

  // ---------------------------------------------------------------- stricter thresholds

  /** `t2` asks at least as much as `t1` on both counts. */
  predicate AtLeastAsStrict(t2: Thresholds, t1: Thresholds) {
    t2.coverage >= t1.coverage && t2.identity >= t1.identity
  }

  lemma {:induction false} HspHitsMonotone(id: string, hsps: seq<Hsp>, t1: Thresholds, t2: Thresholds)
    requires AtLeastAsStrict(t2, t1)
    ensures multiset(HspHits(id, hsps, t2)) <= multiset(HspHits(id, hsps, t1))
    decreases |hsps|
  {
    if |hsps| > 0 {
      HspHitsMonotone(id, hsps[..|hsps| - 1], t1, t2);
    }
  }

  lemma {:induction false} AlignmentHitsMonotone(aligns: seq<Alignment>, t1: Thresholds, t2: Thresholds)
    requires AtLeastAsStrict(t2, t1)
    ensures multiset(AlignmentHits(aligns, t2)) <= multiset(AlignmentHits(aligns, t1))
    decreases |aligns|
  {
    if |aligns| > 0 {
      var last := aligns[|aligns| - 1];
      AlignmentHitsMonotone(aligns[..|aligns| - 1], t1, t2);
      HspHitsMonotone(last.hitId, last.hsps, t1, t2);
    }
  }

  /** Raising either threshold can only drop entries from the hit list, never add any. */
  lemma {:induction false} HitsMonotone(rs: seq<BlastRecord>, t1: Thresholds, t2: Thresholds)
    requires AtLeastAsStrict(t2, t1)
    ensures multiset(RecordHits(rs, t2)) <= multiset(RecordHits(rs, t1))
    decreases |rs|
  {
    if |rs| > 0 {
      HitsMonotone(rs[..|rs| - 1], t1, t2);
      AlignmentHitsMonotone(rs[|rs| - 1].alignments, t1, t2);
    }
  }

  // ---------------------------------------------------------------- the filter's outcome

  /** The hits of the report at `path`: a zero query span anywhere is a division error
      raised before anything else; otherwise an empty hit list is the "No Hits found" error. */
  function FilterHits(path: string, rs: seq<BlastRecord>, t: Thresholds): (r: Result<seq<string>, BlastError>)
    ensures r == Failure(ZeroDivision) <==> exists i, j, k :: ZeroSpanAt(rs, i, j, k)
    ensures r == Failure(NoHitsFound(path)) <==>
      (forall i, j, k :: !ZeroSpanAt(rs, i, j, k)) && (forall i, j, k :: !PassingAt(rs, t, i, j, k))
    ensures r.Success? ==> r.value == RecordHits(rs, t) && |r.value| == TotalPassing(rs, t) > 0
    ensures r.Failure? ==> r.error in {ZeroDivision, NoHitsFound(path)}
  {
    ZeroSpanWitness(rs);
    HitCount(rs, t);
    var hits := RecordHits(rs, t);
    if !RecordsNonZero(rs) then Failure(ZeroDivision)
    else if hits == [] then
      assert forall i, j, k :: !PassingAt(rs, t, i, j, k) by {
        forall i, j, k | PassingAt(rs, t, i, j, k)
          ensures false
        {
          HitMembership(rs, t, rs[i].alignments[j].hitId);
        }
      }
      Failure(NoHitsFound(path))
    else
      HitMembership(rs, t, hits[0]);
      Success(hits)
  }
}
