/** The behaviour the allocator's own tests and the two-file git scenario
    describe, stated on the model. */
module FilenameAllocatorExamples {
  import opened Text
  import opened DiffSplitter
  import opened FilenameAllocator

  /** Every forbidden character of a name maps to `_`. */
  lemma SanitizeExample()
    ensures Sanitize("a/b<c>.txt") == "a_b_c__txt"
  {
    SanitizedTo("a/b<c>.txt", "a_b_c__txt");
  }

  /** A record keeps its new name, dots and all, as the base. */
  lemma SimpleFilenameExample()
    ensures BaseFilename(PatchFile("foo", "bar", "nothing")) == "bar"
    ensures FirstFreeAt("bar", Dir({}, {}), 0) && Candidate("bar", 0) == "bar.diff"
  {
  }

  /** A deleted file is named after its old name. */
  lemma DevNullExample()
    ensures BaseFilename(PatchFile("foo", "/dev/null", "nothing")) == "foo"
    ensures FirstFreeAt("foo", Dir({}, {}), 0) && Candidate("foo", 0) == "foo.diff"
  {
  }

  /** A name that already ends in `.diff` has its dot replaced. */
  lemma FileWithExtensionExample()
    ensures BaseFilename(PatchFile("foo.diff", "bar.diff", "nothing")) == "bar_diff"
    ensures FirstFreeAt("bar_diff", Dir({}, {}), 0) && Candidate("bar_diff", 0) == "bar_diff.diff"
  {
    SanitizedTo("bar.diff", "bar_diff");
  }

  /** When `base.diff` exists and `base-1.diff` does not, `base-1.diff` is
      the first free candidate. */
  lemma FileExistsExample(base: string, dir: Dir)
    requires base != ""
    requires Probe(dir, base + ".diff") == Occupied
    requires Probe(dir, base + "-1.diff") == Free
    ensures FirstFreeAt(base, dir, 1) && Candidate(base, 1) == base + "-1.diff"
  {
    assert DecimalString(1) == "1";
    assert base + "-" + "1" + ".diff" == base + "-1.diff";
    assert OccupiedBefore(base, dir, 1);
  }

  /** Two records of a git diff, `Cargo.toml` and the deleted `src/main.rs`,
      are written to `Cargo_toml.diff` and `src_main_rs.diff` in an empty
      directory: the dot before the original extension is replaced too. */
  lemma TwoRecordsExample()
    ensures BaseFilename(PatchFile("Cargo.toml", "Cargo.toml", "")) == "Cargo_toml"
    ensures FirstFreeAt("Cargo_toml", Dir({}, {}), 0) && Candidate("Cargo_toml", 0) == "Cargo_toml.diff"
    ensures BaseFilename(PatchFile("src/main.rs", "/dev/null", "")) == "src_main_rs"
    ensures FirstFreeAt("src_main_rs", Dir({}, {}), 0) && Candidate("src_main_rs", 0) == "src_main_rs.diff"
  {
    SanitizedTo("Cargo.toml", "Cargo_toml");
    SanitizedTo("src/main.rs", "src_main_rs");
  }
}
