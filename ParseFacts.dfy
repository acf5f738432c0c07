/** What `parseMemoryFile` promises about the nodes it returns, stated over
    the blocks of the document (a heading and the lines under it): which
    blocks become nodes, what each node holds, which date it carries, when
    the whole-document fallback fires, and where the library's and the
    script's copies agree. */
module ParseFacts {
  import opened Text
  import opened Variants
  import opened Nodes
  import opened Ids
  import opened Parser

  /** The blocks of a document, in order. */
  function Blocks(content: string): seq<Block>
  {
    LayoutOf(Split(content, '\n')).blocks
  }

  /** The m-th node made from the sections is made from the m-th emitting block. */
  lemma NodesOfSections(mk: Section -> MemoryNode, fileDate: Option<string>, bs: seq<Block>, m: nat)
    requires m < |EmittedIndices(bs)|
    ensures |Sections(fileDate, bs)| == |EmittedIndices(bs)|
    ensures EmittedIndices(bs)[m] < |bs|
    ensures |NodesOf(mk, Sections(fileDate, bs))| == |EmittedIndices(bs)|
    ensures NodesOf(mk, Sections(fileDate, bs))[m] == mk(SectionAt(fileDate, bs, EmittedIndices(bs)[m]))
  {
    SectionsInBlockOrder(fileDate, bs);
    NodesOfAt(mk, Sections(fileDate, bs), m);
  }

  /** The block the m-th node is made from: the m-th block with a line under
      its heading. */
  function BlockOf(content: string, m: nat): (k: nat)
    requires m < |EmittedIndices(Blocks(content))|
    ensures k < |Blocks(content)| && Blocks(content)[k].body != []
  {
    var idx := EmittedIndices(Blocks(content));
    assert idx[m] in idx;
    idx[m]
  }

  /** Every heading of a document carries valid heading text. */
  lemma BlockHeadingsValid(content: string, k: nat)
    requires k < |Blocks(content)|
    ensures IsHeadingText(Blocks(content)[k].heading.text)
  {
    LayoutPartition(Split(content, '\n'));
    assert Blocks(content)[k] in Blocks(content);
  }

  /** Outside the fallback the nodes are the sections' nodes. */
  lemma ParseIsNodesOf(v: Variant, content: string, sourcePath: string)
    requires EmittedIndices(Blocks(content)) != []
    ensures Parse(v, content, sourcePath) == NodesOf(NodeMaker(v, sourcePath), Sections(FileDate(sourcePath), Blocks(content)))
  {
    SectionsInBlockOrder(FileDate(sourcePath), Blocks(content));
  }

  /** The m-th node is made from the section of the m-th block with a line
      under its heading. */
  lemma ParsedSection(v: Variant, content: string, sourcePath: string, m: nat)
    requires m < |EmittedIndices(Blocks(content))|
    ensures |Parse(v, content, sourcePath)| == |EmittedIndices(Blocks(content))|
    ensures Parse(v, content, sourcePath)[m]
            == NodeMaker(v, sourcePath)(SectionAt(FileDate(sourcePath), Blocks(content), BlockOf(content, m)))
  {
    ParseIsNodesOf(v, content, sourcePath);
    NodesOfSections(NodeMaker(v, sourcePath), FileDate(sourcePath), Blocks(content), m);
  }

  /** The node of block k's section is `createNode` applied to the block's
      heading, its lines joined by '\n', and the date in effect at it. */
  lemma SectionMade(v: Variant, sourcePath: string, fileDate: Option<string>, bs: seq<Block>, k: nat)
    requires k < |bs|
    ensures NodeMaker(v, sourcePath)(SectionAt(fileDate, bs, k))
            == CreateNode(v, bs[k].heading.text, Join(bs[k].body, '\n'), sourcePath, DateAfter(fileDate, bs[..k + 1]))
  {
  }

  /** One node per block with at least one line under its heading, in block
      order: its title is the heading text (never empty), its content the
      trimmed lines of the block joined by '\n', its id the slug of title and
      path, and its source the path as the copy stores it. */
  lemma SectionNode(v: Variant, content: string, sourcePath: string, m: nat)
    requires m < |EmittedIndices(Blocks(content))|
    ensures var b := Blocks(content)[BlockOf(content, m)];
            var nodes := Parse(v, content, sourcePath);
            && |nodes| == |EmittedIndices(Blocks(content))|
            && nodes[m].title == b.heading.text
            && IsHeadingText(nodes[m].title)
            && nodes[m].content == Trim(Join(b.body, '\n'))
            && nodes[m].id == GenerateId(b.heading.text, sourcePath)
            && nodes[m].source == StoredSource(v, sourcePath)
  {
    ParsedSection(v, content, sourcePath, m);
    SectionMade(v, sourcePath, FileDate(sourcePath), Blocks(content), BlockOf(content, m));
    BlockHeadingsValid(content, BlockOf(content, m));
  }

  /** Up to a block with no date-valued `# ` heading at or before it, the
      file's date is in effect. */
  lemma PrefixDateFromFile(fileDate: Option<string>, bs: seq<Block>, k: nat)
    requires k < |bs|
    requires forall j :: 0 <= j <= k ==> !IsDateHeading(bs[j].heading)
    ensures DateAfter(fileDate, bs[..k + 1]) == fileDate
  {
    var upto := bs[..k + 1];
    assert forall j :: 0 <= j < |upto| ==> upto[j] == bs[j];
    DateAfterNoDateHeading(fileDate, upto);
  }

  /** Up to a block after date heading d and before the next one, d's date
      is in effect. */
  lemma PrefixDateFromHeading(fileDate: Option<string>, bs: seq<Block>, k: nat, d: nat)
    requires d <= k < |bs| && IsDateHeading(bs[d].heading)
    requires forall j :: d < j <= k ==> !IsDateHeading(bs[j].heading)
    ensures DateAfter(fileDate, bs[..k + 1]) == Some(bs[d].heading.text)
  {
    var upto := bs[..k + 1];
    assert forall j :: 0 <= j < |upto| ==> upto[j] == bs[j];
    DateAfterLastDateHeading(fileDate, upto, d);
  }

  /** Before any date-valued `# ` heading a node carries the file's date
      (none unless the path names a daily log). */
  lemma NodeDateFromFile(v: Variant, content: string, sourcePath: string, m: nat)
    requires m < |EmittedIndices(Blocks(content))|
    requires forall j :: 0 <= j <= BlockOf(content, m) ==> !IsDateHeading(Blocks(content)[j].heading)
    ensures m < |Parse(v, content, sourcePath)|
    ensures Parse(v, content, sourcePath)[m].date == FileDate(sourcePath)
  {
    var k := BlockOf(content, m);
    ParsedSection(v, content, sourcePath, m);
    SectionMade(v, sourcePath, FileDate(sourcePath), Blocks(content), k);
    PrefixDateFromFile(FileDate(sourcePath), Blocks(content), k);
  }

  /** After a date-valued `# ` heading, and up to the next one, every node
      carries that heading's date; `## ` headings leave it alone. */
  lemma NodeDateFromHeading(v: Variant, content: string, sourcePath: string, m: nat, d: nat)
    requires m < |EmittedIndices(Blocks(content))|
    requires d <= BlockOf(content, m)
    requires IsDateHeading(Blocks(content)[d].heading)
    requires forall j :: d < j <= BlockOf(content, m) ==> !IsDateHeading(Blocks(content)[j].heading)
    ensures m < |Parse(v, content, sourcePath)|
    ensures Parse(v, content, sourcePath)[m].date == Some(Blocks(content)[d].heading.text)
  {
    var k := BlockOf(content, m);
    ParsedSection(v, content, sourcePath, m);
    SectionMade(v, sourcePath, FileDate(sourcePath), Blocks(content), k);
    PrefixDateFromHeading(FileDate(sourcePath), Blocks(content), k, d);
  }

  /** A text made only of white-space lines joined by '\n' is white space. */
  lemma {:induction false} JoinBlank(lines: seq<string>)
    requires forall line :: line in lines ==> Trim(line) == []
    ensures Trim(Join(lines, '\n')) == []
    decreases |lines|
  {
    if |lines| > 1 {
      var front := lines[..|lines| - 1];
      var last := lines[|lines| - 1];
      assert last in lines;
      assert forall line :: line in front ==> line in lines;
      JoinBlank(front);
      var j := Join(front, '\n');
      var s := Join(lines, '\n');
      assert s == j + ['\n'] + last;
      forall k | 0 <= k < |s|
        ensures IsSpace(s[k])
      {
        if k < |j| {
          assert s[k] == j[k];
        } else if k > |j| {
          assert s[k] == last[k - |j| - 1];
        }
      }
    } else if |lines| == 1 {
      assert lines[0] in lines;
    }
  }

  /** A heading followed only by blank lines still makes a node, with empty
      content. */
  lemma BlankSectionEmptyContent(v: Variant, content: string, sourcePath: string, m: nat)
    requires m < |EmittedIndices(Blocks(content))|
    requires forall line :: line in Blocks(content)[BlockOf(content, m)].body ==> Trim(line) == []
    ensures m < |Parse(v, content, sourcePath)|
    ensures Parse(v, content, sourcePath)[m].content == []
  {
    var bs := Blocks(content);
    ParsedSection(v, content, sourcePath, m);
    SectionMade(v, sourcePath, FileDate(sourcePath), bs, BlockOf(content, m));
    JoinBlank(bs[BlockOf(content, m)].body);
  }

  /** Every piece of a split holds only characters of the text. */
  lemma {:induction false} SplitChars(s: string, sep: char)
    ensures forall p, k :: p in Split(s, sep) && 0 <= k < |p| ==> p[k] in s
    decreases |s|
  {
    if s != [] {
      var front := s[..|s| - 1];
      var c := s[|s| - 1];
      SplitChars(front, sep);
      assert forall x :: x in front ==> x in s;
      assert c in s;
      var init := Split(front, sep);
      assert forall p :: p in init[..|init| - 1] ==> p in init;
      assert init[|init| - 1] in init;
    }
  }

  /** A white-space document has no heading line and so no block. */
  lemma BlankDocumentNoBlocks(content: string)
    requires Trim(content) == []
    ensures Blocks(content) == []
  {
    var lines := Split(content, '\n');
    SplitChars(content, '\n');
    forall line | line in lines
      ensures IsPlain(line)
    {
      if line != [] {
        assert line[0] in content;
        if |line| >= 2 { assert line[..2][0] == line[0]; }
        if |line| >= 3 { assert line[..3][0] == line[0]; }
      }
    }
    NoHeadingNoBlocks(lines);
  }

  /** A document yields no node exactly when it is all white space. */
  lemma ParseEmptyIffBlank(v: Variant, content: string, sourcePath: string)
    ensures Parse(v, content, sourcePath) == [] <==> Trim(content) == []
  {
    var bs := Blocks(content);
    var secs := Sections(FileDate(sourcePath), bs);
    if Trim(content) == [] {
      BlankDocumentNoBlocks(content);
    } else if secs != [] {
      SectionsInBlockOrder(FileDate(sourcePath), bs);
      NodesOfSections(NodeMaker(v, sourcePath), FileDate(sourcePath), bs, 0);
    }
  }

  /** When no heading has a line under it and the document is not blank, the
      result is one node for the whole document: titled after the file, its
      content the trimmed document, dated by the last date heading or the
      file name. */
  lemma FallbackNode(v: Variant, content: string, sourcePath: string)
    requires forall k :: 0 <= k < |Blocks(content)| ==> Blocks(content)[k].body == []
    requires Trim(content) != []
    ensures var nodes := Parse(v, content, sourcePath);
            && |nodes| == 1
            && nodes[0].title == FallbackTitle(v, sourcePath)
            && nodes[0].content == Trim(content)
            && nodes[0].id == GenerateId(FallbackTitle(v, sourcePath), sourcePath)
            && nodes[0].source == StoredSource(v, sourcePath)
            && nodes[0].date == DateAfter(FileDate(sourcePath), Blocks(content))
  {
    var bs := Blocks(content);
    SectionsInBlockOrder(FileDate(sourcePath), bs);
    NoEmittingBlock(bs);
  }

  lemma NoEmittingBlock(bs: seq<Block>)
    requires forall k :: 0 <= k < |bs| ==> bs[k].body == []
    ensures EmittedIndices(bs) == []
  {
    var idx := EmittedIndices(bs);
    assert forall k :: k !in idx;
  }

  /** Two nodes hold the same text and date. */
  predicate SameContent(a: MemoryNode, b: MemoryNode) {
    a.content == b.content && a.date == b.date
  }

  /** Two nodes have the same title and id. */
  predicate SameHeading(a: MemoryNode, b: MemoryNode) {
    a.title == b.title && a.id == b.id
  }

  /** Two ways of making nodes that agree on every section agree on every
      list of sections, node by node. */
  lemma {:induction false} NodesOfAgree(mk1: Section -> MemoryNode, mk2: Section -> MemoryNode, secs: seq<Section>)
    requires forall s :: SameContent(mk1(s), mk2(s)) && SameHeading(mk1(s), mk2(s))
    ensures |NodesOf(mk1, secs)| == |NodesOf(mk2, secs)| == |secs|
    ensures forall m :: 0 <= m < |secs| ==>
              SameContent(NodesOf(mk1, secs)[m], NodesOf(mk2, secs)[m])
              && SameHeading(NodesOf(mk1, secs)[m], NodesOf(mk2, secs)[m])
    decreases |secs|
  {
    if secs != [] {
      var front := secs[..|secs| - 1];
      NodesOfAgree(mk1, mk2, front);
      var n1, n2 := NodesOf(mk1, secs), NodesOf(mk2, secs);
      forall m | 0 <= m < |secs|
        ensures SameContent(n1[m], n2[m]) && SameHeading(n1[m], n2[m])
      {
        if m < |front| {
          assert n1[m] == NodesOf(mk1, front)[m] && n2[m] == NodesOf(mk2, front)[m];
        }
      }
    }
  }

  /** Both copies make the same node from a section, up to source and tags. */
  lemma MakersAgree(sourcePath: string)
    ensures forall s :: SameContent(NodeMaker(Library, sourcePath)(s), NodeMaker(Script, sourcePath)(s))
                        && SameHeading(NodeMaker(Library, sourcePath)(s), NodeMaker(Script, sourcePath)(s))
  {
  }

  /** The library's and the script's copies cut a document into the same
      nodes, in the same order, with the same content and date; outside the
      fallback they also agree on title and id. They differ only in the
      stored source, the keyword vocabulary and the fallback title. */
  lemma VariantsAgree(content: string, sourcePath: string)
    ensures var lib := Parse(Library, content, sourcePath);
            var script := Parse(Script, content, sourcePath);
            && |lib| == |script|
            && forall m :: 0 <= m < |lib| ==>
                 && SameContent(lib[m], script[m])
                 && (EmittedIndices(Blocks(content)) != [] ==> SameHeading(lib[m], script[m]))
  {
    var bs := Blocks(content);
    var fileDate := FileDate(sourcePath);
    SectionsInBlockOrder(fileDate, bs);
    MakersAgree(sourcePath);
    NodesOfAgree(NodeMaker(Library, sourcePath), NodeMaker(Script, sourcePath), Sections(fileDate, bs));
  }
}
