# splitpr: splitting a multi-file diff, verified model

`splitpr` reads one unified diff that covers several files and writes one
patch file per file. Two algorithms do the work, and this project models both
in Dafny:

- **`split_diff`** goes through the lines of the diff once. It keeps a buffer of
  lines, a pending old name and a pending new name. A `diff ` line flushes the
  buffer as a `PatchFile` record, but only once an old name is pending.
  `--- ` and `+++ ` lines set the names. Every line joins the buffer. The
  final buffer is flushed at the end. The call fails if that final segment
  lacks an old name or a new name.
- **`fix_filename_in_diff`** normalises a header name. It removes one `a/` or
  `b/` prefix, then cuts the name at the first tab.
- **`generate_filename`** picks the name to write a record to. It uses the new
  name, or the old name for a deleted file (new name `/dev/null`). It replaces
  the ten forbidden characters `/ < > : " \ | ? * .` with `_`. It then probes
  `base.diff`, `base-1.diff`, `base-2.diff`, … until one does not exist.

Layout:

- `wrappers.dfy`: `Option` and `Result`.
- `text.dfy`: the string operations the code relies on: `starts_with`,
  `find`, `join` and decimal formatting. It also holds splitting at a
  separator, which the code never does; it is there to read the records'
  contents back into lines for the round trip.
- `filename_fix.dfy`: `fix_filename_in_diff`.
- `diff_splitter.dfy`: the `PatchFile` record and the loop of `split_diff`.
  The loop is an imperative method. It is proved equal to a left fold,
  `ScanAll`, over the lines.
- `diff_splitter_lemmas.dfy`: properties of the split. These include a
  reference description of a correct split (`ValidPartition`), and the proof
  that the loop's split is the only one that meets it.
- `filename_allocator.dfy`: sanitising, the candidate names and the probe
  loop of `generate_filename`. The loop runs over an abstract directory.
- `filename_allocator_examples.dfy`: the allocator's unit tests, stated as
  lemmas.

The input of `split_diff` is the sequence of lines that `str::lines()`
yields. Each record's `contents` is its lines joined by `"\n"`. The round
trip is stated over that sequence: split every record's contents at newlines,
concatenate the pieces in order, and you get the input lines back.

The directory is the value `Dir(entries, unprobeable)`. `entries` holds the
names that exist. `unprobeable` holds the names whose existence check fails
with an I/O error. One `try_exists` call is one `Probe`.

## Model

| member | source | states |
|---|---|---|
| `DiffSplitter.SplitDiff` | src/splitpr.rs:49-97 | The loop's vectors and pending names always equal the fold `ScanAll` over the lines consumed so far. The result is the error when the final segment lacks a name, and otherwise one record per segment, in order. |
| `DiffSplitterLemmas.SegmentsValid` | src/splitpr.rs:58-84 | The loop's segments concatenate to the input lines in order. Each segment's names are those of its own last `--- ` and `+++ ` lines. No `diff ` line inside a segment comes where the last `--- ` line of the segment before it gave a name. Every later segment begins with a `diff ` line that closed a segment with an old name. |
| `DiffSplitterLemmas.PartitionUnique` | src/splitpr.rs:58-84 | Any list of segments that meets that description is exactly the loop's list. |
| `DiffSplitterLemmas.SegmentsCharacterised` | src/splitpr.rs:58-84 | Both directions: a list of segments meets the reference description if and only if it is the loop's list. |
| `DiffSplitterLemmas.SplitDiffErrIff` | src/splitpr.rs:86-88 | The call fails, with the "Did not find any lines starting with --- or +++" message, exactly when the final segment's last `--- ` or last `+++ ` line gives no name. Earlier segments are not consulted. |
| `DiffSplitterLemmas.TrailingFileStartIsError` | src/splitpr.rs:68-88 | A named `--- ` line, a `+++ ` line and then a `diff ` line make an input that fails. The final `diff ` line flushes the named segment and clears both names. |
| `DiffSplitterLemmas.MissingHeaderIsError` | src/splitpr.rs:86-88 | An input with no `--- ` line, or with no `+++ ` line, always fails. |
| `DiffSplitterLemmas.RecordNamesNonEmpty` | src/splitpr.rs:68-94 | On success there is one record per segment and every record has a non-empty old name. The last record also has a non-empty new name. |
| `DiffSplitterLemmas.RecordNamesFromHeaders` | src/splitpr.rs:69-80 | On success each record's old and new names are the normalised names of the last `--- ` and `+++ ` lines of its own segment. Its contents are that segment's lines joined by newlines. |
| `DiffSplitterLemmas.LaterRecordsStartWithFileStart` | src/splitpr.rs:68-83 | On success the contents of every record after the first begin with `diff `. |
| `DiffSplitterLemmas.SplitDiffRoundTrip` | src/splitpr.rs:58-94 | On success, if no input line contains a newline, splitting each record's contents at newlines and concatenating gives the input lines exactly. |
| `DiffSplitterLemmas.RecordCount` | src/splitpr.rs:68-94 | On success the number of records is one more than the number of `diff ` lines met while an old name was pending. |
| `DiffSplitterLemmas.HeaderStaysInFirstSegment` | src/splitpr.rs:63-68 | The lines before the first `--- ` line are a prefix of the first segment. They are neither dropped nor split off. |
| `DiffSplitterLemmas.IntermediateNewNameMayBeEmpty` | src/splitpr.rs:68-73 | A named `--- ` line, a `diff ` line, then a named `--- ` and a named `+++ ` line make an input that succeeds with two records. The first record has the first old name and an empty new name. |
| `Text.FindChar` | src/splitpr.rs:107 | `find` returns an index holding the character with no earlier occurrence, or nothing when the character is absent. |
| `Text.SplitOnJoin` | src/splitpr.rs:72 | Joining non-empty, separator-free lines with a separator and splitting at it gives the lines back. |
| `Text.JoinSplitOn` | src/splitpr.rs:72 | Splitting a string at a separator and joining the pieces gives the string back. |
| `Text.DecimalRoundTrip` | src/splitpr.rs:149 | Reading back the decimal form of the counter gives the counter, so distinct counters format differently. |
| `FilenameFix.FixFilenameInDiff` | src/splitpr.rs:99-111 | The result has no tab. It is a prefix of the name with one `a/`/`b/` prefix removed, and it stops at the first tab or runs to the end. It is never longer than the input. A name with no prefix and no tab is returned unchanged. |
| `FilenameFix.TreePrefixStrippedOnce` | src/splitpr.rs:101-103 | A tab-free name behind `a/` or `b/` comes out without exactly those two characters. |
| `FilenameFix.NestedTreePrefixExample` | src/splitpr.rs:101-103 | `a/b/x` becomes `b/x`: the prefix is removed only once. |
| `FilenameFix.TimestampDropped` | src/splitpr.rs:104-109 | A name with no `a/` or `b/` prefix, followed by a tab and a timestamp, comes out as the name alone. |
| `FilenameAllocator.Sanitize` | src/splitpr.rs:131-140 | The result has the same length as the name. A forbidden character becomes `_` and any other character is kept. The result holds no forbidden character. |
| `FilenameAllocator.SanitizeIdempotent` | src/splitpr.rs:17 | Sanitising twice gives the same result as sanitising once. |
| `FilenameAllocator.CandidatesDistinct` | src/splitpr.rs:141-149 | Different counters give different candidate names. |
| `FilenameAllocator.GenerateFilename` | src/splitpr.rs:123-151 | On success the name returned does not exist. It is candidate n for some n no larger than the number of existing entries, with candidates 0..n-1 all occupied, so it is the first free candidate. On failure, the error is that of the first check that failed, and every earlier candidate was occupied. The base is the sanitised new name, or the old name when the new name is `/dev/null`. |
| `FilenameAllocator.FirstFreeUnique` | src/splitpr.rs:144-150 | There is only one first free candidate, so the name returned is determined by the record and the directory. |
| `FilenameAllocator.EmptyNewNameGivesEmptyCandidate` | src/splitpr.rs:141 | A record with an empty new name gets an empty base. Its first candidate is the empty name, because giving an empty path an extension leaves it empty. |
| `FilenameAllocatorExamples.SanitizeExample` | src/splitpr.rs:131-140 | `a/b<c>.txt` sanitises to `a_b_c__txt`. |
| `FilenameAllocatorExamples.SimpleFilenameExample` | src/splitpr.rs:159-167 | Old `foo`, new `bar`, empty directory: `bar.diff`. |
| `FilenameAllocatorExamples.DevNullExample` | src/splitpr.rs:169-177 | Old `foo`, new `/dev/null`: `foo.diff`. |
| `FilenameAllocatorExamples.FileWithExtensionExample` | src/splitpr.rs:179-187 | New `bar.diff`: `bar_diff.diff`. |
| `FilenameAllocatorExamples.FileExistsExample` | src/splitpr.rs:189-212 | When `base.diff` exists and `base-1.diff` does not, `base-1.diff` is the first free candidate. |
| `FilenameAllocatorExamples.TwoRecordsExample` | src/splitpr.rs:127-141 | The record for `Cargo.toml` has base `Cargo_toml`, and the record deleting `src/main.rs` has base `src_main_rs`. In an empty directory their first free candidates are `Cargo_toml.diff` and `src_main_rs.diff`. |

## Behaviour of the code worth knowing

- **Error condition.** The error message at src/splitpr.rs:87 says that no
  line starting with `--- ` or `+++ ` was found. The test at
  src/splitpr.rs:86 looks only at the names pending after the last line. So
  the lines `--- x`, `+++ y`, `diff z` fail with that message even though
  they hold both headers. That is `SplitDiffErrIff` and
  `TrailingFileStartIsError`.
- **Record names.** The flush inside the loop (src/splitpr.rs:68) requires
  only an old name. So a record other than the last can have an empty new
  name. That is `IntermediateNewNameMayBeEmpty`.
- **Dots in names.** `.` is one of the forbidden characters
  (src/splitpr.rs:17). So the record for `Cargo.toml` is written to
  `Cargo_toml.diff`, and `src/main.rs` becomes `src_main_rs.diff`. That is
  `TwoRecordsExample`.

## Left out

- `main` (src/splitpr.rs:19-31): reading stdin and setting up logging are I/O
  and configuration.
- `write_out_new_diffs` (src/splitpr.rs:113-121): it only calls `fs::write`
  and logs. The race between the existence check and the write
  (src/splitpr.rs:117) needs concurrency, which a sequential model does not
  have.
- `str::lines()`: the model takes the line sequence as given. It does not
  model how `lines()` drops a trailing `\r` or handles a final newline.
- `try_exists`: the only error modelled is an abstract failure on a given
  path (`Dir.unprobeable`). The kinds of I/O error are not modelled.
- `std::path::Path`: candidates are plain string concatenation. This is exact
  for a base with no `/` and no `.`, and sanitising guarantees that. The one
  special case kept is an empty base, where `with_extension` changes nothing.
- Positions are character positions, not byte offsets. The markers are
  ASCII, so cutting 4 characters equals cutting 4 bytes. `find` of a tab
  gives the same cut either way.
- The fixture-based tests (src/splitpr.rs:214-269): the fixture files are not
  part of this model.
- FilenameAllocator.GenerateFilename: the counter is an unbounded `nat`. In
  the code it is an `i32` (src/splitpr.rs:142), so `counter += 1`
  (src/splitpr.rs:148) overflows after 2147483647 occupied candidates: a
  panic in a debug build, a wrap to a negative counter in a release build.
  The model does not capture that overflow. It is reached only in a
  directory holding more than 2147483647 of the candidate names, since the
  counter never exceeds the number of existing entries.
