/** Properties of `split_diff`: the records partition the input lines in
    order, the split points and names are exactly those the headers dictate,
    and the error case is the one the final check describes. */
module DiffSplitterLemmas {
  import opened Wrappers
  import opened Text
  import opened FilenameFix
  import opened DiffSplitter

  /** The name declared by the last header line with `marker`, "" if none. */
  function LastHeaderName(lines: seq<string>, marker: string): string
    requires |marker| == 4
  {
    if |lines| == 0 then ""
    else if StartsWith(lines[|lines| - 1], marker) then HeaderName(lines[|lines| - 1])
    else LastHeaderName(lines[..|lines| - 1], marker)
  }

  /** The lines of all segments, in order. */
  function Flatten(segs: seq<Segment>): seq<string>
  {
    if |segs| == 0 then [] else Flatten(segs[..|segs| - 1]) + segs[|segs| - 1].lines
  }

  /** The lines recovered from the records' contents, in order. */
  function RecordLines(rs: seq<PatchFile>): seq<string>
  {
    if |rs| == 0 then [] else RecordLines(rs[..|rs| - 1]) + SplitOn(rs[|rs| - 1].contents, '\n')
  }

  /** A segment's names are those of its last `--- ` and `+++ ` lines. */
  ghost predicate NamedByHeaders(seg: Segment)
  {
    && seg.oldName == LastHeaderName(seg.lines, OldMarker)
    && seg.newName == LastHeaderName(seg.lines, NewMarker)
  }

  /** No `diff ` line inside a segment comes at a point where the last
      `--- ` line of the segment before it gave a name. */
  ghost predicate NoInnerSplit(seg: Segment)
  {
    forall k :: 0 <= k < |seg.lines| && IsFileStart(seg.lines[k]) ==>
      LastHeaderName(seg.lines[..k], OldMarker) == ""
  }

  /** `seg` starts with the `diff ` line that closed the named segment `prev`. */
  ghost predicate OpensNewFile(prev: Segment, seg: Segment)
  {
    |seg.lines| > 0 && IsFileStart(seg.lines[0]) && prev.oldName != ""
  }

  /** A reference description of the split, independent of the loop: the
      segments cover the lines in order, each is named by its own headers,
      and a new segment starts exactly at a `diff ` line met while the
      last `--- ` line of the current segment gave a name. */
  ghost predicate ValidPartition(lines: seq<string>, segs: seq<Segment>)
  {
    && |segs| > 0
    && Flatten(segs) == lines
    && (forall j :: 0 <= j < |segs| ==> NamedByHeaders(segs[j]) && NoInnerSplit(segs[j]))
    && (forall j :: 0 < j < |segs| ==> OpensNewFile(segs[j - 1], segs[j]))
  }

  /** How many `diff ` lines the loop meets while an old name is pending. */
  function Boundaries(lines: seq<string>): nat
  {
    if |lines| == 0 then 0
    else
      var prefix := lines[..|lines| - 1];
      Boundaries(prefix) + (if IsFileStart(lines[|lines| - 1]) && ScanAll(prefix).open.oldName != "" then 1 else 0)
  }

  /** The three markers are mutually exclusive. */
  lemma MarkersExclusive(line: string)
    ensures IsFileStart(line) ==> !IsOldHeader(line) && !IsNewHeader(line)
    ensures IsOldHeader(line) ==> !IsNewHeader(line)
  {
    if |line| >= 4 {
      assert line[..4][0] == line[0];
    }
    if |line| >= 5 {
      assert line[..5][0] == line[0];
    }
  }

  lemma FlattenSnoc(segs: seq<Segment>, seg: Segment)
    ensures Flatten(segs + [seg]) == Flatten(segs) + seg.lines
  {
    assert (segs + [seg])[..|segs|] == segs;
  }

  lemma LastHeaderSnoc(lines: seq<string>, line: string, marker: string)
    requires |marker| == 4
    ensures LastHeaderName(lines + [line], marker) ==
      if StartsWith(line, marker) then HeaderName(line) else LastHeaderName(lines, marker)
  {
    assert (lines + [line])[..|lines|] == lines;
  }

  lemma LastHeaderOfFileStart(line: string)
    requires IsFileStart(line)
    ensures LastHeaderName([line], OldMarker) == "" && LastHeaderName([line], NewMarker) == ""
  {
    MarkersExclusive(line);
    LastHeaderSnoc([], line, OldMarker);
    LastHeaderSnoc([], line, NewMarker);
    assert [] + [line] == [line];
  }

  /** Starting a new segment at a `diff ` line keeps the description valid. */
  lemma ValidAfterSplit(lines: seq<string>, segs: seq<Segment>, line: string)
    requires ValidPartition(lines, segs)
    requires IsFileStart(line) && segs[|segs| - 1].oldName != ""
    ensures ValidPartition(lines + [line], segs + [Segment([line], "", "")])
  {
    var started := Segment([line], "", "");
    var segs' := segs + [started];
    FlattenSnoc(segs, started);
    LastHeaderOfFileStart(line);
    assert [line][..0] == [];
    assert NamedByHeaders(started) && NoInnerSplit(started);
    assert forall j :: 0 <= j < |segs| ==> segs'[j] == segs[j];
    assert OpensNewFile(segs'[|segs| - 1], segs'[|segs|]);
  }

  /** Extending the open segment by a line that does not split keeps the
      segment named by its headers and free of inner splits. */
  lemma ExtendKeepsSegment(seg: Segment, line: string)
    requires NamedByHeaders(seg) && NoInnerSplit(seg)
    requires !(IsFileStart(line) && seg.oldName != "")
    ensures NamedByHeaders(Extend(seg, line)) && NoInnerSplit(Extend(seg, line))
    ensures |seg.lines| > 0 ==> Extend(seg, line).lines[0] == seg.lines[0]
  {
    var ext := Extend(seg, line);
    MarkersExclusive(line);
    LastHeaderSnoc(seg.lines, line, OldMarker);
    LastHeaderSnoc(seg.lines, line, NewMarker);
    forall k | 0 <= k < |ext.lines| && IsFileStart(ext.lines[k])
      ensures LastHeaderName(ext.lines[..k], OldMarker) == ""
    {
      if k < |seg.lines| {
        assert ext.lines[..k] == seg.lines[..k];
        assert ext.lines[k] == seg.lines[k];
      } else {
        assert ext.lines[..k] == seg.lines;
      }
    }
  }

  /** Extending the last segment by a line that does not split keeps the
      description valid. */
  lemma ValidAfterExtend(lines: seq<string>, front: seq<Segment>, seg: Segment, line: string)
    requires ValidPartition(lines, front + [seg])
    requires !(IsFileStart(line) && seg.oldName != "")
    ensures ValidPartition(lines + [line], front + [Extend(seg, line)])
  {
    var segs := front + [seg];
    var ext := Extend(seg, line);
    var segs' := front + [ext];
    FlattenSnoc(front, seg);
    FlattenSnoc(front, ext);
    assert segs[|front|] == seg;
    ExtendKeepsSegment(seg, line);
    assert forall j :: 0 <= j < |front| ==> segs'[j] == segs[j];
    if |front| > 0 {
      assert OpensNewFile(segs[|front| - 1], segs[|front|]);
      assert OpensNewFile(segs'[|front| - 1], segs'[|front|]);
    }
  }

  /** The loop's segments satisfy the reference description. */
  lemma {:induction false} SegmentsValid(lines: seq<string>)
    ensures ValidPartition(lines, Segments(lines))
    decreases |lines|
  {
    if |lines| == 0 {
      assert Segments(lines) == [] + [EmptySegment];
      FlattenSnoc([], EmptySegment);
    } else {
      var prefix, l := lines[..|lines| - 1], lines[|lines| - 1];
      assert prefix + [l] == lines;
      SegmentsValid(prefix);
      var st := ScanAll(prefix);
      if IsFileStart(l) && st.open.oldName != "" {
        ValidAfterSplit(prefix, Segments(prefix), l);
      } else {
        ValidAfterExtend(prefix, st.closed, st.open, l);
      }
    }
  }

  /** Dropping a last segment that holds only its `diff ` line leaves a valid
      description of the shorter input, whose open segment it closes. */
  lemma ValidDropStarted(lines: seq<string>, front: seq<Segment>, last: Segment)
    requires ValidPartition(lines, front + [last])
    requires |front| > 0 && |last.lines| == 1
    ensures |lines| > 0 && lines[|lines| - 1] == last.lines[0]
    ensures ValidPartition(lines[..|lines| - 1], front)
    ensures IsFileStart(last.lines[0]) && front[|front| - 1].oldName != ""
    ensures last == Segment([last.lines[0]], "", "")
  {
    var segs := front + [last];
    FlattenSnoc(front, last);
    assert segs[|front|] == last;
    assert OpensNewFile(segs[|front| - 1], segs[|front|]);
    assert lines[..|lines| - 1] == Flatten(front);
    assert forall j :: 0 <= j < |front| ==> front[j] == segs[j];
    assert last.lines == [last.lines[0]];
    LastHeaderOfFileStart(last.lines[0]);
  }

  /** The last segment without its last line, named by its own headers. */
  function Trim(seg: Segment): Segment
    requires |seg.lines| > 0
  {
    var body := seg.lines[..|seg.lines| - 1];
    Segment(body, LastHeaderName(body, OldMarker), LastHeaderName(body, NewMarker))
  }

  /** Dropping the last line of a longer last segment leaves a valid
      description of the shorter input, which that line extends. */
  lemma ValidDropLine(lines: seq<string>, front: seq<Segment>, last: Segment)
    requires ValidPartition(lines, front + [last])
    requires |lines| > 0
    requires |front| == 0 || |last.lines| > 1
    ensures |last.lines| > 0 && lines[|lines| - 1] == last.lines[|last.lines| - 1]
    ensures ValidPartition(lines[..|lines| - 1], front + [Trim(last)])
    ensures var l := lines[|lines| - 1];
      !(IsFileStart(l) && Trim(last).oldName != "") && Extend(Trim(last), l) == last
  {
    var segs := front + [last];
    FlattenSnoc(front, last);
    assert segs[|front|] == last;
    if |front| > 0 {
      assert OpensNewFile(segs[|front| - 1], segs[|front|]);
    }
    var k := |last.lines| - 1;
    var body := last.lines[..k];
    var l := last.lines[k];
    assert body + [l] == last.lines;
    var trimmed := Trim(last);
    var segs' := front + [trimmed];
    FlattenSnoc(front, trimmed);
    forall i | 0 <= i < |body| && IsFileStart(body[i])
      ensures LastHeaderName(body[..i], OldMarker) == ""
    {
      assert body[i] == last.lines[i];
      assert body[..i] == last.lines[..i];
    }
    assert NoInnerSplit(trimmed);
    assert forall j :: 0 <= j < |front| ==> segs'[j] == segs[j];
    if |front| > 0 {
      assert body[0] == last.lines[0];
      assert OpensNewFile(segs'[|front| - 1], segs'[|front|]);
    }
    MarkersExclusive(l);
    LastHeaderSnoc(body, l, OldMarker);
    LastHeaderSnoc(body, l, NewMarker);
  }

  /** Any partition meeting the reference description is the loop's. */
  lemma {:induction false} PartitionUnique(lines: seq<string>, segs: seq<Segment>)
    requires ValidPartition(lines, segs)
    ensures segs == Segments(lines)
    decreases |lines|
  {
    var m := |segs|;
    var last := segs[m - 1];
    var front := segs[..m - 1];
    assert front + [last] == segs;
    FlattenSnoc(front, last);
    if m > 1 {
      assert OpensNewFile(segs[m - 2], segs[m - 1]);
    }
    if |lines| == 0 {
      assert m == 1 && last.lines == [];
      assert segs == [EmptySegment];
    } else {
      var prefix, l := lines[..|lines| - 1], lines[|lines| - 1];
      assert prefix + [l] == lines;
      if m > 1 && |last.lines| == 1 {
        ValidDropStarted(lines, front, last);
        PartitionUnique(prefix, front);
        var st := ScanAll(prefix);
        assert front == st.closed + [st.open];
      } else {
        ValidDropLine(lines, front, last);
        PartitionUnique(prefix, front + [Trim(last)]);
        var st := ScanAll(prefix);
        assert front + [Trim(last)] == st.closed + [st.open];
        assert st.open == Trim(last) && st.closed == front;
      }
    }
  }

  /** The reference description determines the split, both ways. */
  lemma SegmentsCharacterised(lines: seq<string>, segs: seq<Segment>)
    ensures ValidPartition(lines, segs) <==> segs == Segments(lines)
  {
    SegmentsValid(lines);
    if ValidPartition(lines, segs) {
      PartitionUnique(lines, segs);
    }
  }

  /** A header name that is not "" comes from some header line. */
  lemma {:induction false} HeaderNameHasSource(lines: seq<string>, marker: string)
    requires |marker| == 4
    ensures LastHeaderName(lines, marker) != "" ==>
      exists i :: 0 <= i < |lines| && StartsWith(lines[i], marker)
  {
    if |lines| > 0 && !StartsWith(lines[|lines| - 1], marker) {
      var prefix := lines[..|lines| - 1];
      HeaderNameHasSource(prefix, marker);
      if LastHeaderName(prefix, marker) != "" {
        var i :| 0 <= i < |prefix| && StartsWith(prefix[i], marker);
        assert lines[i] == prefix[i];
      }
    }
  }

  lemma {:induction false} FlattenHasLine(segs: seq<Segment>, j: nat, k: nat)
    requires j < |segs| && k < |segs[j].lines|
    ensures segs[j].lines[k] in Flatten(segs)
    decreases |segs|
  {
    var m := |segs|;
    var front := segs[..m - 1];
    assert front + [segs[m - 1]] == segs;
    FlattenSnoc(front, segs[m - 1]);
    if j < m - 1 {
      FlattenHasLine(front, j, k);
    }
  }

  /** The call fails exactly when the final segment lacks a `--- ` or a
      `+++ ` header naming something; earlier segments are not consulted. */
  lemma SplitDiffErrIff(lines: seq<string>)
    ensures var segs := Segments(lines);
      SplitDiffSpec(lines).Err? <==>
        LastHeaderName(segs[|segs| - 1].lines, OldMarker) == "" ||
        LastHeaderName(segs[|segs| - 1].lines, NewMarker) == ""
    ensures SplitDiffSpec(lines).Err? ==> SplitDiffSpec(lines).error == MissingNamesError
  {
    SegmentsValid(lines);
  }

  /** An input without any `--- ` line, or without any `+++ ` line, fails. */
  lemma MissingHeaderIsError(lines: seq<string>)
    requires (forall i :: 0 <= i < |lines| ==> !IsOldHeader(lines[i])) ||
             (forall i :: 0 <= i < |lines| ==> !IsNewHeader(lines[i]))
    ensures SplitDiffSpec(lines) == Err(MissingNamesError)
  {
    SegmentsValid(lines);
    var segs := Segments(lines);
    var last := segs[|segs| - 1];
    HeaderNameHasSource(last.lines, OldMarker);
    HeaderNameHasSource(last.lines, NewMarker);
    forall k | 0 <= k < |last.lines|
      ensures last.lines[k] in lines
    {
      FlattenHasLine(segs, |segs| - 1, k);
    }
  }

  /** On success every record has an old name, and the last one a new name
      as well; earlier records may lack a new name. */
  lemma RecordNamesNonEmpty(lines: seq<string>)
    requires SplitDiffSpec(lines).Ok?
    ensures var rs := SplitDiffSpec(lines).value;
      && |rs| == |Segments(lines)|
      && (forall j :: 0 <= j < |rs| ==> rs[j].oldName != "")
      && rs[|rs| - 1].newName != ""
  {
    SegmentsValid(lines);
    var segs := Segments(lines);
    forall j | 0 <= j < |segs| - 1
      ensures segs[j].oldName != ""
    {
      assert OpensNewFile(segs[j], segs[j + 1]);
    }
  }

  /** On success each record's names are those of the last `--- ` and
      `+++ ` lines of its own segment. */
  lemma RecordNamesFromHeaders(lines: seq<string>)
    requires SplitDiffSpec(lines).Ok?
    ensures var rs := SplitDiffSpec(lines).value; var segs := Segments(lines);
      && |rs| == |segs|
      && forall j :: 0 <= j < |rs| ==>
           && rs[j].oldName == LastHeaderName(segs[j].lines, OldMarker)
           && rs[j].newName == LastHeaderName(segs[j].lines, NewMarker)
           && rs[j].contents == Join(segs[j].lines, '\n')
  {
    SegmentsValid(lines);
  }

  lemma StartsWithPrefix(a: string, b: string, p: string)
    requires StartsWith(a, p) && a <= b
    ensures StartsWith(b, p)
  {
    assert b[..|p|] == a[..|p|];
  }

  /** On success every record after the first begins with its `diff ` line. */
  lemma LaterRecordsStartWithFileStart(lines: seq<string>)
    requires SplitDiffSpec(lines).Ok?
    ensures var rs := SplitDiffSpec(lines).value;
      forall j :: 0 < j < |rs| ==> IsFileStart(rs[j].contents)
  {
    SegmentsValid(lines);
    var segs := Segments(lines);
    var rs := SplitDiffSpec(lines).value;
    forall j | 0 < j < |rs|
      ensures IsFileStart(rs[j].contents)
    {
      assert OpensNewFile(segs[j - 1], segs[j]);
      StartsWithPrefix(segs[j].lines[0], rs[j].contents, FileStartMarker);
    }
  }

  /** Splitting each record's contents at newlines, and concatenating, gives
      the lines of the segments back. */
  lemma {:induction false} RecordLinesOfSegments(segs: seq<Segment>)
    requires forall j :: 0 <= j < |segs| ==> segs[j].lines != []
    requires forall j, k :: 0 <= j < |segs| && 0 <= k < |segs[j].lines| ==> '\n' !in segs[j].lines[k]
    ensures RecordLines(Records(segs)) == Flatten(segs)
    decreases |segs|
  {
    if |segs| > 0 {
      var m := |segs|;
      var front := segs[..m - 1];
      assert Records(segs)[..m - 1] == Records(front);
      RecordLinesOfSegments(front);
      SplitOnJoin(segs[m - 1].lines, '\n');
    }
  }

  /** Round trip: on success, the records' contents split at newlines give
      back exactly the input lines, each once and in order. */
  lemma SplitDiffRoundTrip(lines: seq<string>)
    requires forall i :: 0 <= i < |lines| ==> '\n' !in lines[i]
    requires SplitDiffSpec(lines).Ok?
    ensures RecordLines(SplitDiffSpec(lines).value) == lines
  {
    SegmentsValid(lines);
    var segs := Segments(lines);
    forall j | 0 <= j < |segs|
      ensures segs[j].lines != []
    {
      if j < |segs| - 1 {
        assert OpensNewFile(segs[j], segs[j + 1]);
      }
      assert segs[j].oldName != "";
    }
    forall j, k | 0 <= j < |segs| && 0 <= k < |segs[j].lines|
      ensures '\n' !in segs[j].lines[k]
    {
      FlattenHasLine(segs, j, k);
    }
    RecordLinesOfSegments(segs);
  }

  /** There is one segment more than there are `diff ` lines met while an
      old name was pending. */
  lemma {:induction false} SegmentCount(lines: seq<string>)
    ensures |Segments(lines)| == 1 + Boundaries(lines)
    decreases |lines|
  {
    if |lines| > 0 {
      SegmentCount(lines[..|lines| - 1]);
    }
  }

  /** On success there is one record more than there are splitting lines. */
  lemma RecordCount(lines: seq<string>)
    requires SplitDiffSpec(lines).Ok?
    ensures |SplitDiffSpec(lines).value| == 1 + Boundaries(lines)
  {
    SegmentCount(lines);
  }

  /** Before any `--- ` line nothing is flushed and no old name is pending. */
  lemma {:induction false} NoFlushBeforeOldHeader(lines: seq<string>)
    requires forall i :: 0 <= i < |lines| ==> !IsOldHeader(lines[i])
    ensures ScanAll(lines).closed == [] && ScanAll(lines).open.lines == lines
    ensures ScanAll(lines).open.oldName == ""
    decreases |lines|
  {
    if |lines| > 0 {
      var prefix := lines[..|lines| - 1];
      NoFlushBeforeOldHeader(prefix);
      assert prefix + [lines[|lines| - 1]] == lines;
    }
  }

  /** The first segment only ever grows as lines are added. */
  lemma {:induction false} FirstSegmentGrows(lines: seq<string>, k: nat)
    requires k <= |lines|
    ensures Segments(lines[..k])[0].lines <= Segments(lines)[0].lines
    decreases |lines| - k
  {
    if k < |lines| {
      var n := |lines|;
      var prefix := lines[..n - 1];
      assert prefix[..k] == lines[..k];
      FirstSegmentGrows(prefix, k);
      assert prefix + [lines[n - 1]] == lines;
      var st := ScanAll(prefix);
      assert Segments(prefix)[0].lines <= Segments(lines)[0].lines by {
        if st.closed == [] && !(IsFileStart(lines[n - 1]) && st.open.oldName != "") {
          assert Segments(lines)[0].lines == st.open.lines + [lines[n - 1]];
        }
      }
    } else {
      assert lines[..k] == lines;
    }
  }

  /** Text before the first `--- ` line (a commit header, say) stays at the
      start of the first segment: it is neither dropped nor split off. */
  lemma HeaderStaysInFirstSegment(lines: seq<string>, k: nat)
    requires k <= |lines|
    requires forall i :: 0 <= i < k ==> !IsOldHeader(lines[i])
    ensures lines[..k] <= Segments(lines)[0].lines
  {
    NoFlushBeforeOldHeader(lines[..k]);
    FirstSegmentGrows(lines, k);
  }

  lemma ScanAllSnoc(lines: seq<string>, line: string)
    ensures ScanAll(lines + [line]) == Step(ScanAll(lines), line)
  {
    assert (lines + [line])[..|lines|] == lines;
  }

  /** A named `--- ` line followed by a `diff ` line flushes a record with
      no new name. */
  lemma FlushWithoutNewName(oldHeader: string, fileStart: string)
    requires IsOldHeader(oldHeader) && HeaderName(oldHeader) != ""
    requires IsFileStart(fileStart)
    ensures ScanAll([oldHeader, fileStart]) ==
      Scan([Segment([oldHeader], HeaderName(oldHeader), "")], Segment([fileStart], "", ""))
  {
    MarkersExclusive(oldHeader);
    ScanAllSnoc([], oldHeader);
    assert [] + [oldHeader] == [oldHeader];
    ScanAllSnoc([oldHeader], fileStart);
    assert [oldHeader] + [fileStart] == [oldHeader, fileStart];
  }

  /** The states the loop passes through on a flushed segment without a
      new name followed by a complete one. */
  lemma ScanOfUnnamedFlush(oldHeader: string, fileStart: string, oldHeader2: string, newHeader2: string)
    requires IsOldHeader(oldHeader) && HeaderName(oldHeader) != ""
    requires IsFileStart(fileStart)
    requires IsOldHeader(oldHeader2)
    requires IsNewHeader(newHeader2)
    ensures ScanAll([oldHeader, fileStart, oldHeader2, newHeader2]) ==
      Scan([Segment([oldHeader], HeaderName(oldHeader), "")],
           Segment([fileStart, oldHeader2, newHeader2], HeaderName(oldHeader2), HeaderName(newHeader2)))
  {
    FlushWithoutNewName(oldHeader, fileStart);
    MarkersExclusive(oldHeader2);
    MarkersExclusive(newHeader2);
    var lines2 := [oldHeader, fileStart];
    var lines3 := lines2 + [oldHeader2];
    ScanAllSnoc(lines2, oldHeader2);
    assert [fileStart] + [oldHeader2] == [fileStart, oldHeader2];
    ScanAllSnoc(lines3, newHeader2);
    assert [fileStart, oldHeader2] + [newHeader2] == [fileStart, oldHeader2, newHeader2];
    assert lines3 + [newHeader2] == [oldHeader, fileStart, oldHeader2, newHeader2];
  }

  /** As written, a segment flushed by a `diff ` line needs only an old
      name: a named `--- ` line, a `diff ` line and a complete segment make
      a successful call whose first record has an empty new name. */
  lemma IntermediateNewNameMayBeEmpty(oldHeader: string, fileStart: string, oldHeader2: string, newHeader2: string)
    requires IsOldHeader(oldHeader) && HeaderName(oldHeader) != ""
    requires IsFileStart(fileStart)
    requires IsOldHeader(oldHeader2) && HeaderName(oldHeader2) != ""
    requires IsNewHeader(newHeader2) && HeaderName(newHeader2) != ""
    ensures var r := SplitDiffSpec([oldHeader, fileStart, oldHeader2, newHeader2]);
      && r.Ok? && |r.value| == 2
      && r.value[0] == PatchFile(HeaderName(oldHeader), "", oldHeader)
      && r.value[1].oldName == HeaderName(oldHeader2)
      && r.value[1].newName == HeaderName(newHeader2)
  {
    ScanOfUnnamedFlush(oldHeader, fileStart, oldHeader2, newHeader2);
    assert Join([oldHeader], '\n') == oldHeader;
  }

  /** A `diff ` line after a complete segment clears the pending names, so
      an input ending in one fails although it has both headers. */
  lemma TrailingFileStartIsError(oldHeader: string, newHeader: string, fileStart: string)
    requires IsOldHeader(oldHeader) && HeaderName(oldHeader) != ""
    requires IsNewHeader(newHeader)
    requires IsFileStart(fileStart)
    ensures SplitDiffSpec([oldHeader, newHeader, fileStart]) == Err(MissingNamesError)
  {
    MarkersExclusive(oldHeader);
    MarkersExclusive(newHeader);
    ScanAllSnoc([], oldHeader);
    assert [] + [oldHeader] == [oldHeader];
    ScanAllSnoc([oldHeader], newHeader);
    assert [oldHeader] + [newHeader] == [oldHeader, newHeader];
    assert ScanAll([oldHeader, newHeader]).open.oldName == HeaderName(oldHeader);
    ScanAllSnoc([oldHeader, newHeader], fileStart);
    assert [oldHeader, newHeader] + [fileStart] == [oldHeader, newHeader, fileStart];
  }
}
