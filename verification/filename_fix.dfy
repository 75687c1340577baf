/** Normalisation of the file name found after a `--- ` or `+++ ` marker
    (`fix_filename_in_diff`). */
module FilenameFix {
  import opened Wrappers
  import opened Text

  /** git marks the two trees of a diff with these path prefixes. */
  predicate HasTreePrefix(name: string)
  {
    StartsWith(name, "a/") || StartsWith(name, "b/")
  }

  /** The name with one leading tree prefix removed, if it has one. */
  function WithoutTreePrefix(name: string): string
  {
    if HasTreePrefix(name) then name[2..] else name
  }

  /** Strips one `a/` or `b/` prefix, then cuts at the first tab (where the
      plain `diff` tool puts a timestamp). The result is the longest
      tab-free prefix of the stripped name. */
  function FixFilenameInDiff(filename: string): (r: string)
    ensures '\t' !in r
    ensures r <= WithoutTreePrefix(filename)
    ensures |r| == |WithoutTreePrefix(filename)| || WithoutTreePrefix(filename)[|r|] == '\t'
    ensures |r| <= |filename|
    ensures !HasTreePrefix(filename) && '\t' !in filename ==> r == filename
  {
    var name := WithoutTreePrefix(filename);
    match FindChar(name, '\t')
    case None => name
    case Some(tabPos) => name[..tabPos]
  }

  /** A tab-free name carrying a tree prefix loses exactly that prefix. */
  lemma {:induction false} TreePrefixStrippedOnce(prefix: string, rest: string)
    requires prefix == "a/" || prefix == "b/"
    requires '\t' !in rest
    ensures FixFilenameInDiff(prefix + rest) == rest
  {
    assert (prefix + rest)[..2] == prefix;
    assert (prefix + rest)[2..] == rest;
  }

  /** The prefix is removed only once: `a/b/x` becomes `b/x`. */
  lemma NestedTreePrefixExample()
    ensures FixFilenameInDiff("a/b/x") == "b/x"
  {
    TreePrefixStrippedOnce("a/", "b/x");
  }

  /** A timestamp after a tab is dropped together with the tab. */
  lemma {:induction false} TimestampDropped(name: string, stamp: string)
    requires !HasTreePrefix(name + "\t" + stamp)
    requires '\t' !in name
    ensures FixFilenameInDiff(name + "\t" + stamp) == name
  {
    FindAfterPiece(name, '\t', stamp);
    assert (name + "\t" + stamp)[..|name|] == name;
  }
}
