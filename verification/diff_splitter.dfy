/** `split_diff`: cutting a multi-file diff, given as the sequence of its
    lines, into one patch record per file. */
module DiffSplitter {
  import opened Wrappers
  import opened Text
  import opened FilenameFix

  /** One output record (`PatchFile`): the normalised old and new names and
      the segment's lines joined by newlines. */
  datatype PatchFile = PatchFile(oldName: string, newName: string, contents: string)

  /** A segment as the splitter accumulates it: its lines and the names the
      headers seen so far in it declared ("" while none was seen). */
  datatype Segment = Segment(lines: seq<string>, oldName: string, newName: string)

  /** The splitter's state: the segments already flushed and the open one. */
  datatype Scan = Scan(closed: seq<Segment>, open: Segment)

  const MissingNamesError := "Did not find any lines starting with --- or +++ in the diff"

  const FileStartMarker := "diff "
  const OldMarker := "--- "
  const NewMarker := "+++ "

  predicate IsFileStart(line: string) { StartsWith(line, FileStartMarker) }
  predicate IsOldHeader(line: string) { StartsWith(line, OldMarker) }
  predicate IsNewHeader(line: string) { StartsWith(line, NewMarker) }

  /** The normalised name after a 4-character header marker. */
  function HeaderName(line: string): string
    requires |line| >= 4
  {
    FixFilenameInDiff(line[4..])
  }

  const EmptySegment := Segment([], "", "")

  /** The open segment after a line that does not start a new file: a
      header line sets its name, and the line is appended. */
  function Extend(seg: Segment, line: string): Segment
  {
    var oldName := if IsOldHeader(line) then HeaderName(line) else seg.oldName;
    var newName := if !IsOldHeader(line) && IsNewHeader(line) then HeaderName(line) else seg.newName;
    Segment(seg.lines + [line], oldName, newName)
  }

  /** One iteration of the loop over the lines. A `diff ` line flushes the
      open segment only once an old name is pending and then starts the next
      segment; any other line extends the open segment. */
  function Step(st: Scan, line: string): Scan
  {
    if IsFileStart(line) && st.open.oldName != "" then
      Scan(st.closed + [st.open], Segment([line], "", ""))
    else
      Scan(st.closed, Extend(st.open, line))
  }

  /** The state after the loop has consumed all of `lines`. */
  function ScanAll(lines: seq<string>): Scan
  {
    if |lines| == 0 then Scan([], EmptySegment)
    else Step(ScanAll(lines[..|lines| - 1]), lines[|lines| - 1])
  }

  /** All segments, the open one last. */
  function Segments(lines: seq<string>): seq<Segment>
  {
    ScanAll(lines).closed + [ScanAll(lines).open]
  }

  function ToRecord(seg: Segment): PatchFile
  {
    PatchFile(seg.oldName, seg.newName, Join(seg.lines, '\n'))
  }

  function Records(segs: seq<Segment>): seq<PatchFile>
  {
    seq(|segs|, j requires 0 <= j < |segs| => ToRecord(segs[j]))
  }

  /** What `split_diff` returns: an error when the final segment lacks an
      old or a new name, otherwise one record per segment. */
  function SplitDiffSpec(lines: seq<string>): Result<seq<PatchFile>, string>
  {
    var st := ScanAll(lines);
    if st.open.oldName == "" || st.open.newName == "" then Err(MissingNamesError)
    else Ok(Records(st.closed + [st.open]))
  }

  /** `split_diff`, over the lines that `str::lines()` yields. */
  method SplitDiff(diff: seq<string>) returns (r: Result<seq<PatchFile>, string>)
    ensures r == SplitDiffSpec(diff)
  {
    var patchFiles: seq<PatchFile> := [];
    var currentFileLines: seq<string> := [];
    var oldFileName := "";
    var newFileName := "";
    for i := 0 to |diff|
      invariant patchFiles == Records(ScanAll(diff[..i]).closed)
      invariant ScanAll(diff[..i]).open == Segment(currentFileLines, oldFileName, newFileName)
    {
      var line := diff[i];
      assert diff[..i + 1][..i] == diff[..i];
      if IsFileStart(line) && oldFileName != "" {
        patchFiles := patchFiles + [PatchFile(oldFileName, newFileName, Join(currentFileLines, '\n'))];
        currentFileLines := [];
        oldFileName := "";
        newFileName := "";
      } else if IsOldHeader(line) {
        oldFileName := FixFilenameInDiff(line[4..]);
      } else if IsNewHeader(line) {
        newFileName := FixFilenameInDiff(line[4..]);
      }
      currentFileLines := currentFileLines + [line];
    }
    assert diff[..|diff|] == diff;
    if oldFileName == "" || newFileName == "" {
      return Err(MissingNamesError);
    }
    patchFiles := patchFiles + [PatchFile(oldFileName, newFileName, Join(currentFileLines, '\n'))];
    ghost var st := ScanAll(diff);
    assert Records(st.closed + [st.open]) == Records(st.closed) + [ToRecord(st.open)];
    return Ok(patchFiles);
  }
}
