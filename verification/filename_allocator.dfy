/** `generate_filename`: choosing a free, filesystem-safe output name for one
    patch record. The directory is an abstract value: the names that exist
    and the names whose existence check fails with an I/O error. */
module FilenameAllocator {
  import opened Wrappers
  import opened Text
  import opened DiffSplitter

  /** Characters Windows refuses in file names, plus `/` (the Unix
      separator) and `.` (the extension separator). */
  const FilenameForbiddenChars: seq<char> := ['/', '<', '>', ':', '"', '\\', '|', '?', '*', '.']

  /** The name diff tools give the missing side of an added or deleted file. */
  const NullDevice := "/dev/null"

  const Extension := ".diff"

  /** The name the output is derived from: the new name, unless the file
      was deleted, in which case the old one. */
  function SelectName(pf: PatchFile): string
  {
    if pf.newName == NullDevice then pf.oldName else pf.newName
  }

  function SanitizeChar(c: char): char
  {
    if c in FilenameForbiddenChars then '_' else c
  }

  /** The name with every forbidden character replaced by `_`. */
  function Sanitize(name: string): (r: string)
    ensures |r| == |name|
    ensures forall i :: 0 <= i < |name| && name[i] in FilenameForbiddenChars ==> r[i] == '_'
    ensures forall i :: 0 <= i < |name| && name[i] !in FilenameForbiddenChars ==> r[i] == name[i]
    ensures forall i :: 0 <= i < |r| ==> r[i] !in FilenameForbiddenChars
  {
    seq(|name|, i requires 0 <= i < |name| => SanitizeChar(name[i]))
  }

  /** The sanitised base every candidate of a record shares. */
  function BaseFilename(pf: PatchFile): string
  {
    Sanitize(SelectName(pf))
  }

  /** The `n`-th name tried: `base.diff`, then `base-1.diff`, `base-2.diff`, ...
      Giving an empty path an extension leaves it empty, so an empty base
      is first tried as the empty name. */
  function Candidate(base: string, n: nat): string
  {
    if n == 0 then (if base == "" then "" else base + Extension)
    else base + "-" + DecimalString(n) + Extension
  }

  /** The directory as the existence checks see it. */
  datatype Dir = Dir(entries: set<string>, unprobeable: set<string>)

  /** What `try_exists` answers for a path. */
  datatype ProbeOutcome = Free | Occupied | ProbeFailed

  function Probe(dir: Dir, path: string): ProbeOutcome
  {
    if path in dir.unprobeable then ProbeFailed
    else if path in dir.entries then Occupied
    else Free
  }

  /** The I/O error of a failed existence check, with the path checked. */
  datatype IoError = IoError(path: string)

  /** The first `n` candidates are all occupied. */
  ghost predicate OccupiedBefore(base: string, dir: Dir, n: nat)
  {
    forall k :: 0 <= k < n ==> Probe(dir, Candidate(base, k)) == Occupied
  }

  /** Candidate `n` is the first one that is free. */
  ghost predicate FirstFreeAt(base: string, dir: Dir, n: nat)
  {
    Probe(dir, Candidate(base, n)) == Free && OccupiedBefore(base, dir, n)
  }

  /** The check of candidate `n`, the first not occupied, fails. */
  ghost predicate FirstFailureAt(base: string, dir: Dir, n: nat)
  {
    Probe(dir, Candidate(base, n)) == ProbeFailed && OccupiedBefore(base, dir, n)
  }

  /** Different counters give different candidates. */
  lemma CandidatesDistinct(base: string, m: nat, n: nat)
    requires Candidate(base, m) == Candidate(base, n)
    ensures m == n
  {
    if m != 0 && n != 0 {
      var dm, dn := DecimalString(m), DecimalString(n);
      var cm, cn := Candidate(base, m), Candidate(base, n);
      assert |dm| == |dn|;
      assert cm[|base| + 1..|base| + 1 + |dm|] == dm;
      assert cn[|base| + 1..|base| + 1 + |dn|] == dn;
      DecimalInjective(m, n);
    }
  }

  lemma SubsetCardinality(a: set<string>, b: set<string>)
    requires a <= b
    ensures |a| <= |b|
  {
    assert b == a + (b - a);
  }

  /** `generate_filename`: probes `base.diff`, `base-1.diff`, ... and returns
      the first that does not exist, or the error of the first check that
      fails. Every probed name that is occupied is a distinct existing entry,
      so at most |entries| + 1 names are probed. */
  method GenerateFilename(pf: PatchFile, dir: Dir) returns (r: Result<string, IoError>)
    ensures r.Ok? ==> r.value !in dir.entries
    ensures r.Ok? ==> exists n :: (0 <= n <= |dir.entries| &&
      FirstFreeAt(BaseFilename(pf), dir, n) && r.value == Candidate(BaseFilename(pf), n))
    ensures r.Err? ==> exists n :: (0 <= n <= |dir.entries| &&
      FirstFailureAt(BaseFilename(pf), dir, n) && r.error == IoError(Candidate(BaseFilename(pf), n)))
  {
    var diffFilename := pf.newName;
    if diffFilename == NullDevice {
      diffFilename := pf.oldName;
    }
    var baseFilename := Sanitize(diffFilename);
    assert baseFilename == BaseFilename(pf);
    var withExt := if baseFilename == "" then "" else baseFilename + Extension;
    var counter: nat := 0;
    ghost var probed: set<string> := {};
    while true
      invariant withExt == Candidate(baseFilename, counter)
      invariant probed <= dir.entries && |probed| == counter
      invariant OccupiedBefore(baseFilename, dir, counter)
      invariant forall p :: p in probed ==> exists k :: 0 <= k < counter && p == Candidate(baseFilename, k)
      decreases |dir.entries| - counter
    {
      SubsetCardinality(probed, dir.entries);
      match Probe(dir, withExt)
      case ProbeFailed =>
        assert FirstFailureAt(baseFilename, dir, counter);
        return Err(IoError(withExt));
      case Free =>
        assert FirstFreeAt(baseFilename, dir, counter);
        return Ok(withExt);
      case Occupied =>
        if withExt in probed {
          var k :| 0 <= k < counter && withExt == Candidate(baseFilename, k);
          CandidatesDistinct(baseFilename, k, counter);
          assert false;
        }
        probed := probed + {withExt};
        SubsetCardinality(probed, dir.entries);
        counter := counter + 1;
        withExt := baseFilename + "-" + DecimalString(counter) + Extension;
    }
  }

  /** Sanitising twice changes nothing more: `_` is not forbidden. */
  lemma SanitizeIdempotent(name: string)
    ensures Sanitize(Sanitize(name)) == Sanitize(name)
  {
    var once := Sanitize(name);
    assert forall i :: 0 <= i < |once| ==> Sanitize(once)[i] == once[i];
  }

  /** A name is sanitised to `r` when `r` agrees with it character by
      character up to forbidden characters. */
  lemma SanitizedTo(name: string, r: string)
    requires |r| == |name|
    requires forall i :: 0 <= i < |name| ==> r[i] == SanitizeChar(name[i])
    ensures Sanitize(name) == r
  {
    var s := Sanitize(name);
    forall i | 0 <= i < |name|
      ensures s[i] == r[i]
    {
      if name[i] in FilenameForbiddenChars {
        assert s[i] == '_';
      } else {
        assert s[i] == name[i];
      }
    }
  }

  /** There is at most one first free candidate. */
  lemma FirstFreeUnique(base: string, dir: Dir, m: nat, n: nat)
    requires FirstFreeAt(base, dir, m) && FirstFreeAt(base, dir, n)
    ensures m == n
  {
  }

  /** A record with an empty new name (possible for a record flushed by a
      `diff ` line) gets an empty base, and its first candidate is the empty
      name. */
  lemma EmptyNewNameGivesEmptyCandidate(pf: PatchFile)
    requires pf.newName == ""
    ensures BaseFilename(pf) == "" && Candidate(BaseFilename(pf), 0) == ""
  {
  }
}
