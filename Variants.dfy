/** The extractor exists in two copies that differ only in configuration: the
    browser library (src/lib/memoryParser.ts) and the build script
    (scripts/buildMemories.ts). A Variant selects which copy a function
    models; everything else is shared. */
module Variants {
  import opened Text

  datatype Variant = Library | Script

  /** The keyword vocabulary of the library copy. */
  const LibraryKeywords: seq<string> := ["important", "todo", "decision", "lesson", "project", "person", "idea"]

  /** The build script's vocabulary adds two names to the library's. */
  const ScriptKeywords: seq<string> := LibraryKeywords + ["miguel", "gandalf"]

  /** The fixed keyword vocabulary searched for in a node's content. */
  function Keywords(v: Variant): seq<string>
  {
    if v == Library then LibraryKeywords else ScriptKeywords
  }

  /** Node.js's `path.basename(p, ext)` for a path without a trailing '/': the
      last segment, without ext when it ends with ext and is not ext itself. */
  function Basename(p: string, ext: string): (r: string)
    ensures '/' !in r
    ensures p == ext ==> r == []
    ensures p != ext && EndsWithLonger(LastSegment(p), ext) ==> r + ext == LastSegment(p)
    ensures p != ext && !EndsWithLonger(LastSegment(p), ext) ==> r == LastSegment(p)
  {
    var seg := LastSegment(p);
    if p == ext then []
    else if EndsWithLonger(seg, ext) then
      var stem := seg[..|seg| - |ext|];
      assert stem + ext == seg;
      assert forall k :: 0 <= k < |stem| ==> stem[k] == seg[k];
      stem
    else seg
  }

  /** s ends with suffix and has something before it. */
  predicate EndsWithLonger(s: string, suffix: string) {
    |suffix| < |s| && s[|s| - |suffix|..] == suffix
  }

  /** Title of the whole-document node that a document without sections gets. */
  function FallbackTitle(v: Variant, sourcePath: string): string
  {
    match v
    case Library =>
      var t := ReplaceFirst(LastSegment(sourcePath), ".md", "");
      if t == [] then "Untitled" else t
    case Script => Basename(sourcePath, ".md")
  }

  /** The `source` field a node records for the document it came from. */
  function StoredSource(v: Variant, sourcePath: string): string
  {
    match v
    case Library => sourcePath
    case Script => LastSegment(sourcePath)
  }

  /** The library's fallback title is never empty. */
  lemma LibraryFallbackTitleNonEmpty(sourcePath: string)
    ensures FallbackTitle(Library, sourcePath) != []
  {
  }

  /** For a file `dir/name.md` whose name holds no other ".md", both copies
      title the fallback node with the bare name. */
  lemma {:induction false} FallbackTitleStripsExtension(v: Variant, dir: string, name: string)
    requires dir == [] || dir[|dir| - 1] == '/'
    requires name != [] && '/' !in name
    requires !Contains(name + ".m", ".md")
    ensures FallbackTitle(v, dir + name + ".md") == name
  {
    var seg := name + ".md";
    assert '/' !in seg;
    assert dir + name + ".md" == dir + seg;
    LastSegmentOfSuffix(dir, seg);
    match v
    case Library =>
      FirstMdAtEnd(name);
    case Script =>
      assert seg[|seg| - 3..] == ".md";
  }

  /** In name + ".md", when name + ".m" holds no ".md", the first ".md" is the final one. */
  lemma FirstMdAtEnd(name: string)
    requires !Contains(name + ".m", ".md")
    ensures ReplaceFirst(name + ".md", ".md", "") == name
  {
    var seg := name + ".md";
    var i := IndexOf(seg, ".md");
    assert OccursAt(seg, ".md", |name|);
    if i < |name| {
      assert seg[i..i + 3] == (name + ".m")[i..i + 3];
      assert OccursAt(name + ".m", ".md", i);
    }
    assert seg[..|name|] == name;
  }

  /** The last segment of dir + name, for a name without '/' after a
      directory part that is empty or ends in '/', is the name. */
  lemma {:induction false} LastSegmentOfSuffix(dir: string, name: string)
    requires dir == [] || dir[|dir| - 1] == '/'
    requires '/' !in name
    ensures LastSegment(dir + name) == name
  {
    var p := dir + name;
    var r := LastSegment(p);
    assert p[|dir|..] == name;
  }
}
