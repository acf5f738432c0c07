/** `parseMemoryFile`: one pass over the lines of a markdown document that
    cuts it into sections at `# ` and `## ` headings and emits one memory
    node per section that has at least one line under its heading.

    The specification is declarative. `LayoutOf` cuts the lines into a
    preamble (the lines before the first heading) and blocks (a heading and
    the lines under it); `LayoutPartition` and `LayoutUnique` show that this
    is the only such cut. `Sections` makes one node per block with a
    non-empty body, in block order, dated by the last date-valued `# `
    heading so far or else by the file name. `Parse` adds the whole-document
    fallback, and the method `ParseMemoryFile`, the loop itself, is proved
    to compute `Parse`. */
module Parser {
  import opened Text
  import opened Variants
  import opened Nodes

  /* ---------------- Dates ---------------- */

  /** `\d{4}-\d{2}-\d{2}` matched against a whole string. */
  predicate IsDate(s: string) {
    |s| == 10
    && IsDigit(s[0]) && IsDigit(s[1]) && IsDigit(s[2]) && IsDigit(s[3]) && s[4] == '-'
    && IsDigit(s[5]) && IsDigit(s[6]) && s[7] == '-' && IsDigit(s[8]) && IsDigit(s[9])
  }

  /** The date in the name of a daily log: the ten characters before a final
      ".md" when they form a date. */
  function FileDate(sourcePath: string): (d: Option<string>)
    ensures d.Some? ==> IsDate(d.value) && |sourcePath| >= 13
                        && sourcePath[|sourcePath| - 13..] == d.value + ".md"
  {
    var n := |sourcePath|;
    if n >= 13 && sourcePath[n - 3..] == ".md" && IsDate(sourcePath[n - 13..n - 3]) then
      assert sourcePath[n - 13..] == sourcePath[n - 13..n - 3] + sourcePath[n - 3..];
      Some(sourcePath[n - 13..n - 3])
    else None
  }

  /** A daily log `<dir>YYYY-MM-DD.md` is dated by its name, whatever the directory. */
  lemma FileDateOfDailyLog(dir: string, d: string)
    requires IsDate(d)
    ensures FileDate(dir + d + ".md") == Some(d)
  {
    var p := dir + d + ".md";
    assert p[|p| - 3..] == ".md";
    assert p[|p| - 13..|p| - 3] == d;
  }

  /* ---------------- Headings ---------------- */

  datatype Heading = H1(text: string) | H2(text: string)

  /** What `.+` accepts: at least one character, none a line terminator. */
  predicate IsHeadingText(t: string) {
    t != [] && forall k :: 0 <= k < |t| ==> !IsLineTerminator(t[k])
  }

  /** `line.match(/^# (.+)$/)`: the heading text of a level-1 heading. */
  function MatchH1(line: string): Option<string>
  {
    if |line| >= 2 && line[..2] == "# " && IsHeadingText(line[2..]) then Some(line[2..]) else None
  }

  /** `line.match(/^## (.+)$/)`: the heading text of a level-2 heading. */
  function MatchH2(line: string): Option<string>
  {
    if |line| >= 3 && line[..3] == "## " && IsHeadingText(line[3..]) then Some(line[3..]) else None
  }

  /** How the loop reads a line: a level-1 heading is tried first. */
  function ClassifyLine(line: string): Option<Heading>
  {
    match MatchH1(line)
    case Some(t) => Some(H1(t))
    case None =>
      match MatchH2(line)
      case Some(t) => Some(H2(t))
      case None => None
  }

  /** A line that is not a heading: it goes into the current section's buffer. */
  predicate IsPlain(line: string) {
    ClassifyLine(line).None?
  }

  /** The line a heading is read from. */
  function HeadingLine(h: Heading): string
  {
    match h
    case H1(t) => "# " + t
    case H2(t) => "## " + t
  }

  /** A heading line is exactly its marker followed by valid heading text. */
  lemma ClassifyHeadingLine(line: string)
    requires ClassifyLine(line).Some?
    ensures HeadingLine(ClassifyLine(line).value) == line
    ensures IsHeadingText(ClassifyLine(line).value.text)
  {
    if MatchH1(line).Some? {
      assert line == line[..2] + line[2..];
    } else {
      assert line == line[..3] + line[3..];
    }
  }

  /** Every valid heading is read back from its own line. */
  lemma HeadingLineClassifies(h: Heading)
    requires IsHeadingText(h.text)
    ensures ClassifyLine(HeadingLine(h)) == Some(h)
  {
    var line := HeadingLine(h);
    match h
    case H1(t) =>
      assert line[..2] == "# " && line[2..] == t;
    case H2(t) =>
      assert line[..2] == "##";
      assert line[..3] == "## " && line[3..] == t;
  }

  /** A heading line that ends in a carriage return (a CRLF file) is plain
      content, because `.` does not match '\r'. */
  lemma CarriageReturnHeadingIsPlain(marker: string, t: string)
    requires marker == "# " || marker == "## "
    ensures IsPlain(marker + t + "\r")
  {
    var line := marker + t + "\r";
    assert line[|line| - 1] == '\r';
    if |line| >= 2 && line[..2] == "# " {
      assert line[2..][|line| - 3] == '\r';
    }
    if |line| >= 3 && line[..3] == "## " {
      assert line[3..][|line| - 4] == '\r';
    }
  }

  /* ---------------- Layout: preamble and blocks ---------------- */

  /** A heading and the lines under it, up to the next heading. */
  datatype Block = Block(heading: Heading, body: seq<string>)

  /** A document cut at its headings. */
  datatype Layout = Layout(preamble: seq<string>, blocks: seq<Block>)

  /** Reading one more line: a heading opens a new block; any other line joins
      the last block, or the preamble before the first heading. */
  function Extend(prev: Layout, line: string): Layout
  {
    match ClassifyLine(line)
    case Some(h) => Layout(prev.preamble, prev.blocks + [Block(h, [])])
    case None =>
      if prev.blocks == [] then Layout(prev.preamble + [line], [])
      else
        var n := |prev.blocks|;
        Layout(prev.preamble, prev.blocks[..n - 1] + [Block(prev.blocks[n - 1].heading, prev.blocks[n - 1].body + [line])])
  }

  /** The cut of a document's lines, built line by line. */
  function LayoutOf(lines: seq<string>): Layout
  {
    if lines == [] then Layout([], [])
    else Extend(LayoutOf(lines[..|lines| - 1]), lines[|lines| - 1])
  }

  /** The lines of a sequence of blocks, headings included. */
  function FlattenBlocks(bs: seq<Block>): seq<string>
  {
    if bs == [] then []
    else FlattenBlocks(bs[..|bs| - 1]) + [HeadingLine(bs[|bs| - 1].heading)] + bs[|bs| - 1].body
  }

  /** The lines a layout was cut from. */
  function Flatten(lay: Layout): seq<string>
  {
    lay.preamble + FlattenBlocks(lay.blocks)
  }

  /** Headings are valid, and no heading hides in the preamble or in a body. */
  predicate WellFormed(lay: Layout) {
    (forall line :: line in lay.preamble ==> IsPlain(line))
    && forall b :: b in lay.blocks ==>
         IsHeadingText(b.heading.text) && forall line :: line in b.body ==> IsPlain(line)
  }

  lemma FlattenBlocksSnoc(bs: seq<Block>, b: Block)
    ensures FlattenBlocks(bs + [b]) == FlattenBlocks(bs) + [HeadingLine(b.heading)] + b.body
  {
    assert (bs + [b])[..|bs|] == bs;
  }

  /** Reading a line keeps a layout well formed and appends the line to its lines. */
  lemma ExtendKeepsLines(prev: Layout, line: string)
    requires WellFormed(prev)
    ensures WellFormed(Extend(prev, line))
    ensures Flatten(Extend(prev, line)) == Flatten(prev) + [line]
  {
    if ClassifyLine(line).Some? {
      ExtendByHeading(prev, line);
    } else if prev.blocks != [] {
      ExtendBody(prev, line);
    }
  }

  lemma ExtendByHeading(prev: Layout, line: string)
    requires WellFormed(prev) && ClassifyLine(line).Some?
    ensures WellFormed(Extend(prev, line))
    ensures Flatten(Extend(prev, line)) == Flatten(prev) + [line]
  {
    var h := ClassifyLine(line).value;
    ClassifyHeadingLine(line);
    FlattenBlocksSnoc(prev.blocks, Block(h, []));
    assert Extend(prev, line).blocks == prev.blocks + [Block(h, [])];
  }

  lemma ExtendBody(prev: Layout, line: string)
    requires WellFormed(prev) && IsPlain(line) && prev.blocks != []
    ensures WellFormed(Extend(prev, line))
    ensures Flatten(Extend(prev, line)) == Flatten(prev) + [line]
  {
    var n := |prev.blocks|;
    var last := prev.blocks[n - 1];
    var front := prev.blocks[..n - 1];
    var grown := Block(last.heading, last.body + [line]);
    assert Extend(prev, line) == Layout(prev.preamble, front + [grown]);
    assert prev.blocks == front + [last];
    GrowLastBlock(prev.preamble, front, last, line);
  }

  lemma GrowLastBlock(preamble: seq<string>, front: seq<Block>, last: Block, line: string)
    requires WellFormed(Layout(preamble, front + [last])) && IsPlain(line)
    ensures WellFormed(Layout(preamble, front + [Block(last.heading, last.body + [line])]))
    ensures Flatten(Layout(preamble, front + [Block(last.heading, last.body + [line])]))
            == Flatten(Layout(preamble, front + [last])) + [line]
  {
    FlattenBlocksSnoc(front, last);
    FlattenBlocksSnoc(front, Block(last.heading, last.body + [line]));
    assert last in front + [last];
    assert forall b :: b in front ==> b in front + [last];
  }

  /** The layout of a document is well formed and gives the document back. */
  lemma {:induction false} LayoutPartition(lines: seq<string>)
    ensures WellFormed(LayoutOf(lines))
    ensures Flatten(LayoutOf(lines)) == lines
    decreases |lines|
  {
    if lines != [] {
      var init, last := lines[..|lines| - 1], lines[|lines| - 1];
      LayoutPartition(init);
      LayoutPartitionStep(LayoutOf(init), LayoutOf(lines), init, last);
      FrontAndLast(lines);
    }
  }

  lemma LayoutPartitionStep(prev: Layout, next: Layout, init: seq<string>, last: string)
    requires next == Extend(prev, last)
    requires WellFormed(prev) && Flatten(prev) == init
    ensures WellFormed(next) && Flatten(next) == init + [last]
  {
    ExtendKeepsLines(prev, last);
  }

  /** The layout of one more line of a document. */
  lemma LayoutOfPrefix(lines: seq<string>, i: nat)
    requires i < |lines|
    ensures LayoutOf(lines[..i + 1]) == Extend(LayoutOf(lines[..i]), lines[i])
  {
    assert lines[..i + 1][..i] == lines[..i];
  }

  /** The layout before the last line of a non-empty layout was read. */
  function Retract(lay: Layout): Layout
    requires Flatten(lay) != []
  {
    if lay.blocks == [] then Layout(lay.preamble[..|lay.preamble| - 1], [])
    else
      var n := |lay.blocks|;
      var last := lay.blocks[n - 1];
      if last.body == [] then Layout(lay.preamble, lay.blocks[..n - 1])
      else Layout(lay.preamble, lay.blocks[..n - 1] + [Block(last.heading, last.body[..|last.body| - 1])])
  }

  /** Retract undoes Extend on a well-formed layout. */
  lemma RetractUndoesExtend(lay: Layout)
    requires WellFormed(lay) && Flatten(lay) != []
    ensures WellFormed(Retract(lay))
    ensures Flatten(Retract(lay)) + [Flatten(lay)[|Flatten(lay)| - 1]] == Flatten(lay)
    ensures Extend(Retract(lay), Flatten(lay)[|Flatten(lay)| - 1]) == lay
  {
    if lay.blocks == [] {
      RetractPreamble(lay);
    } else if lay.blocks[|lay.blocks| - 1].body == [] {
      RetractHeading(lay);
    } else {
      RetractBodyLine(lay);
    }
  }

  lemma RetractPreamble(lay: Layout)
    requires WellFormed(lay) && Flatten(lay) != [] && lay.blocks == []
    ensures WellFormed(Retract(lay))
    ensures Flatten(Retract(lay)) + [Flatten(lay)[|Flatten(lay)| - 1]] == Flatten(lay)
    ensures Extend(Retract(lay), Flatten(lay)[|Flatten(lay)| - 1]) == lay
  {
    var pre := lay.preamble;
    assert Flatten(lay) == pre;
    assert pre[|pre| - 1] in pre;
    assert pre == pre[..|pre| - 1] + [pre[|pre| - 1]];
  }

  lemma RetractHeading(lay: Layout)
    requires WellFormed(lay) && lay.blocks != [] && lay.blocks[|lay.blocks| - 1].body == []
    ensures Flatten(lay) != []
    ensures WellFormed(Retract(lay))
    ensures Flatten(Retract(lay)) + [Flatten(lay)[|Flatten(lay)| - 1]] == Flatten(lay)
    ensures Extend(Retract(lay), Flatten(lay)[|Flatten(lay)| - 1]) == lay
  {
    var n := |lay.blocks|;
    var front := lay.blocks[..n - 1];
    var last := lay.blocks[n - 1];
    assert lay.blocks == front + [last];
    assert last in lay.blocks;
    FlattenBlocksSnoc(front, last);
    assert Flatten(lay) == Flatten(Layout(lay.preamble, front)) + [HeadingLine(last.heading)];
    assert forall b :: b in front ==> b in lay.blocks;
    HeadingLineClassifies(last.heading);
  }

  lemma RetractBodyLine(lay: Layout)
    requires WellFormed(lay) && lay.blocks != [] && lay.blocks[|lay.blocks| - 1].body != []
    ensures Flatten(lay) != []
    ensures WellFormed(Retract(lay))
    ensures Flatten(Retract(lay)) + [Flatten(lay)[|Flatten(lay)| - 1]] == Flatten(lay)
    ensures Extend(Retract(lay), Flatten(lay)[|Flatten(lay)| - 1]) == lay
  {
    var n := |lay.blocks|;
    var front := lay.blocks[..n - 1];
    var last := lay.blocks[n - 1];
    var k := |last.body|;
    var line := last.body[k - 1];
    var cut := Block(last.heading, last.body[..k - 1]);
    FrontAndLast(lay.blocks);
    FrontAndLast(last.body);
    ShrinkLastBody(lay.preamble, front, last);
    assert Retract(lay) == Layout(lay.preamble, front + [cut]);
    GrowLastBlock(lay.preamble, front, cut, line);
    assert lay == Layout(lay.preamble, front + [Block(cut.heading, cut.body + [line])]);
    ExtendPlainOnto(lay.preamble, front, cut, line);
  }

  /** Dropping the last body line keeps a layout well formed; that line is plain. */
  lemma ShrinkLastBody(preamble: seq<string>, front: seq<Block>, last: Block)
    requires WellFormed(Layout(preamble, front + [last])) && last.body != []
    ensures WellFormed(Layout(preamble, front + [Block(last.heading, last.body[..|last.body| - 1])]))
    ensures IsPlain(last.body[|last.body| - 1])
  {
    assert last in front + [last];
    assert forall b :: b in front ==> b in front + [last];
    assert last.body[|last.body| - 1] in last.body;
    assert forall l :: l in last.body[..|last.body| - 1] ==> l in last.body;
  }

  /** A plain line read after the blocks front + [b] joins b's body. */
  lemma ExtendPlainOnto(preamble: seq<string>, front: seq<Block>, b: Block, line: string)
    requires IsPlain(line)
    ensures Extend(Layout(preamble, front + [b]), line)
            == Layout(preamble, front + [Block(b.heading, b.body + [line])])
  {
    assert (front + [b])[..|front|] == front;
  }

  /** A well-formed layout is the layout of its own lines: LayoutOf is the
      only way to cut a document into preamble and blocks. */
  lemma {:induction false} LayoutUnique(lay: Layout)
    requires WellFormed(lay)
    ensures LayoutOf(Flatten(lay)) == lay
    decreases |Flatten(lay)|
  {
    var lines := Flatten(lay);
    if lines != [] {
      RetractUndoesExtend(lay);
      var shorter := Retract(lay);
      assert lines[..|lines| - 1] == Flatten(shorter);
      LayoutUnique(shorter);
    }
  }

  /** Lines before the first heading never reach a block: a plain prefix only
      lengthens the preamble. */
  lemma PreambleDiscarded(pre: seq<string>, rest: seq<string>)
    requires forall line :: line in pre ==> IsPlain(line)
    ensures LayoutOf(pre + rest) == Layout(pre + LayoutOf(rest).preamble, LayoutOf(rest).blocks)
  {
    var r := LayoutOf(rest);
    LayoutPartition(rest);
    var lay := Layout(pre + r.preamble, r.blocks);
    assert Flatten(lay) == pre + rest;
    LayoutUnique(lay);
  }

  /** A document without heading lines has no blocks. */
  lemma NoHeadingNoBlocks(lines: seq<string>)
    requires forall line :: line in lines ==> IsPlain(line)
    ensures LayoutOf(lines).blocks == []
  {
    var lay := Layout(lines, []);
    assert Flatten(lay) == lines;
    LayoutUnique(lay);
  }

  /* ---------------- The date in effect ---------------- */

  /** A `# ` heading whose whole text is a date. */
  predicate IsDateHeading(h: Heading) {
    h.H1? && IsDate(h.text)
  }

  /** `currentDate` once the headings of bs have been read: the file's date,
      replaced at each date-valued `# ` heading. */
  function DateAfter(fileDate: Option<string>, bs: seq<Block>): Option<string>
  {
    if bs == [] then fileDate
    else if IsDateHeading(bs[|bs| - 1].heading) then Some(bs[|bs| - 1].heading.text)
    else DateAfter(fileDate, bs[..|bs| - 1])
  }

  /** Without a date-valued `# ` heading the file's date stays in effect;
      `## ` headings never change it. */
  lemma {:induction false} DateAfterNoDateHeading(fileDate: Option<string>, bs: seq<Block>)
    requires forall k :: 0 <= k < |bs| ==> !IsDateHeading(bs[k].heading)
    ensures DateAfter(fileDate, bs) == fileDate
    decreases |bs|
  {
    if bs != [] {
      var front := bs[..|bs| - 1];
      assert forall k :: 0 <= k < |front| ==> front[k] == bs[k];
      DateAfterNoDateHeading(fileDate, front);
    }
  }

  /** The date in effect is the text of the last date-valued `# ` heading. */
  lemma {:induction false} DateAfterLastDateHeading(fileDate: Option<string>, bs: seq<Block>, k: nat)
    requires k < |bs| && IsDateHeading(bs[k].heading)
    requires forall j :: k < j < |bs| ==> !IsDateHeading(bs[j].heading)
    ensures DateAfter(fileDate, bs) == Some(bs[k].heading.text)
    decreases |bs|
  {
    if k < |bs| - 1 {
      var front := bs[..|bs| - 1];
      assert forall j :: 0 <= j < |front| ==> front[j] == bs[j];
      DateAfterLastDateHeading(fileDate, front, k);
    }
  }

  /* ---------------- Sections ---------------- */

  /** What a section hands to `createNode`: its heading text, its buffered
      lines joined with '\n', and the date in effect. */
  datatype Section = Section(title: string, text: string, date: Option<string>)

  /** The blocks that emit a node: those with at least one line under the
      heading, blank lines included, in document order. */
  function EmittedIndices(bs: seq<Block>): (idx: seq<nat>)
    ensures forall k :: k in idx ==> k < |bs|
    ensures forall k :: 0 <= k < |bs| ==> (k in idx <==> bs[k].body != [])
    ensures forall a, b :: 0 <= a < b < |idx| ==> idx[a] < idx[b]
  {
    if bs == [] then []
    else
      var rest := EmittedIndices(bs[..|bs| - 1]);
      EmittedStep(bs, rest);
      rest + (if bs[|bs| - 1].body != [] then [|bs| - 1] else [])
  }

  /** The inductive step of EmittedIndices: the last block's index, if it
      emits, comes after all earlier ones. */
  lemma EmittedStep(bs: seq<Block>, rest: seq<nat>)
    requires bs != []
    requires forall k :: k in rest ==> k < |bs[..|bs| - 1]|
    requires forall k :: 0 <= k < |bs[..|bs| - 1]| ==> (k in rest <==> bs[..|bs| - 1][k].body != [])
    requires forall a, b :: 0 <= a < b < |rest| ==> rest[a] < rest[b]
    ensures var r := rest + (if bs[|bs| - 1].body != [] then [|bs| - 1] else []);
            && (forall k :: k in r ==> k < |bs|)
            && (forall k :: 0 <= k < |bs| ==> (k in r <==> bs[k].body != []))
            && (forall a, b :: 0 <= a < b < |r| ==> r[a] < r[b])
  {
    var front := bs[..|bs| - 1];
    var r := rest + (if bs[|bs| - 1].body != [] then [|bs| - 1] else []);
    forall k | 0 <= k < |bs|
      ensures k in r <==> bs[k].body != []
    {
      if k < |front| {
        assert front[k] == bs[k];
      }
    }
    forall a, b | 0 <= a < b < |r|
      ensures r[a] < r[b]
    {
      if b >= |rest| {
        assert rest[a] in rest;
      }
    }
  }

  /** The section of block k, dated by the headings up to and including its own. */
  function SectionAt(fileDate: Option<string>, bs: seq<Block>, k: nat): Section
    requires k < |bs|
  {
    Section(bs[k].heading.text, Join(bs[k].body, '\n'), DateAfter(fileDate, bs[..k + 1]))
  }

  /** The sections the blocks flush, block by block. */
  function Sections(fileDate: Option<string>, bs: seq<Block>): seq<Section>
  {
    if bs == [] then []
    else
      var last := bs[|bs| - 1];
      Sections(fileDate, bs[..|bs| - 1])
      + (if last.body != [] then [Section(last.heading.text, Join(last.body, '\n'), DateAfter(fileDate, bs))] else [])
  }

  /** Adding a block adds its section, if it emits one, after the others. */
  lemma SectionsSnoc(fileDate: Option<string>, bs: seq<Block>, b: Block)
    ensures Sections(fileDate, bs + [b]) ==
            Sections(fileDate, bs)
            + (if b.body != [] then [Section(b.heading.text, Join(b.body, '\n'), DateAfter(fileDate, bs + [b]))] else [])
  {
    assert (bs + [b])[..|bs|] == bs;
  }

  /** A block's section depends only on the blocks up to its own. */
  lemma SectionAtPrefix(fileDate: Option<string>, bs: seq<Block>, j: nat, k: nat)
    requires k < j <= |bs|
    ensures SectionAt(fileDate, bs[..j], k) == SectionAt(fileDate, bs, k)
  {
    assert bs[..j][..k + 1] == bs[..k + 1];
  }

  /** The m-th section is the one of the m-th emitting block: one section per
      block with a non-empty body, in block order, and no other. */
  lemma {:induction false} SectionsInBlockOrder(fileDate: Option<string>, bs: seq<Block>)
    ensures InBlockOrder(fileDate, bs)
    decreases |bs|
  {
    if bs != [] {
      SectionsInBlockOrder(fileDate, bs[..|bs| - 1]);
      InBlockOrderStep(fileDate, bs);
    }
  }

  /** The m-th section is the section of the m-th emitting block. */
  ghost predicate InBlockOrder(fileDate: Option<string>, bs: seq<Block>) {
    && |Sections(fileDate, bs)| == |EmittedIndices(bs)|
    && forall m :: 0 <= m < |EmittedIndices(bs)| ==>
         EmittedIndices(bs)[m] < |bs|
         && Sections(fileDate, bs)[m] == SectionAt(fileDate, bs, EmittedIndices(bs)[m])
  }

  lemma InBlockOrderStep(fileDate: Option<string>, bs: seq<Block>)
    requires bs != [] && InBlockOrder(fileDate, bs[..|bs| - 1])
    ensures InBlockOrder(fileDate, bs)
  {
    var front := bs[..|bs| - 1];
    var last := bs[|bs| - 1];
    var idx := EmittedIndices(front);
    assert EmittedIndices(bs) == idx + (if last.body != [] then [|bs| - 1] else []);
    SectionsLast(fileDate, bs);
    var all := EmittedIndices(bs);
    var secs := Sections(fileDate, bs);
    forall m | 0 <= m < |all|
      ensures all[m] < |bs| && secs[m] == SectionAt(fileDate, bs, all[m])
    {
      if m < |idx| {
        assert idx[m] in idx;
        SectionAtPrefix(fileDate, bs, |bs| - 1, idx[m]);
      }
    }
  }

  /** The last block contributes its own section, if any, after the others. */
  lemma SectionsLast(fileDate: Option<string>, bs: seq<Block>)
    requires bs != []
    ensures Sections(fileDate, bs) ==
            Sections(fileDate, bs[..|bs| - 1])
            + (if bs[|bs| - 1].body != [] then [SectionAt(fileDate, bs, |bs| - 1)] else [])
  {
    assert bs[..|bs|] == bs;
  }

  /** The node `createNode` makes from a section of a file at sourcePath. */
  function NodeMaker(v: Variant, sourcePath: string): Section -> MemoryNode
  {
    (s: Section) => CreateNode(v, s.title, s.text, sourcePath, s.date)
  }

  /** mk applied to each section, in order. */
  function NodesOf(mk: Section -> MemoryNode, secs: seq<Section>): seq<MemoryNode>
  {
    if secs == [] then []
    else NodesOf(mk, secs[..|secs| - 1]) + [mk(secs[|secs| - 1])]
  }

  /** Adding a section adds its node at the end. */
  lemma NodesOfSnoc(mk: Section -> MemoryNode, secs: seq<Section>, s: Section)
    ensures NodesOf(mk, secs + [s]) == NodesOf(mk, secs) + [mk(s)]
  {
    assert (secs + [s])[..|secs|] == secs;
  }

  /** The m-th node is made from the m-th section. */
  lemma {:induction false} NodesOfAt(mk: Section -> MemoryNode, secs: seq<Section>, m: nat)
    requires m < |secs|
    ensures |NodesOf(mk, secs)| == |secs|
    ensures NodesOf(mk, secs)[m] == mk(secs[m])
    decreases |secs|
  {
    var front := secs[..|secs| - 1];
    if m < |front| {
      NodesOfAt(mk, front, m);
      assert front[m] == secs[m];
    } else if front != [] {
      NodesOfAt(mk, front, 0);
    }
  }

  /** The nodes `parseMemoryFile` returns for a document: one per section, or,
      when no section emits one and the document is not blank, one node for
      the whole document titled after the file. */
  function Parse(v: Variant, content: string, sourcePath: string): seq<MemoryNode>
  {
    var blocks := LayoutOf(Split(content, '\n')).blocks;
    var fileDate := FileDate(sourcePath);
    var secs := Sections(fileDate, blocks);
    if secs == [] && Trim(content) != [] then
      [CreateNode(v, FallbackTitle(v, sourcePath), content, sourcePath, DateAfter(fileDate, blocks))]
    else NodesOf(NodeMaker(v, sourcePath), secs)
  }

  /* ---------------- The loop ---------------- */

  /** What the loop's variables hold after the lines of `lay` have been read:
      the title and buffer of the open section (none before the first
      heading, whose lines are buffered and later dropped), the date in effect,
      and the nodes of the sections already closed. */
  ghost predicate ScanInvariant(mk: Section -> MemoryNode, fileDate: Option<string>, lay: Layout,
                                title: string, buffer: seq<string>, date: Option<string>, nodes: seq<MemoryNode>)
  {
    && date == DateAfter(fileDate, lay.blocks)
    && (lay.blocks == [] ==> title == [] && buffer == lay.preamble && nodes == [])
    && (lay.blocks != [] ==>
          var last := lay.blocks[|lay.blocks| - 1];
          && title == last.heading.text
          && buffer == last.body
          && nodes == NodesOf(mk, Sections(fileDate, lay.blocks[..|lay.blocks| - 1])))
  }

  /** The open section is flushed when its title and buffer are non-empty. */
  function Flush(mk: Section -> MemoryNode, title: string, buffer: seq<string>, date: Option<string>,
                 nodes: seq<MemoryNode>): seq<MemoryNode>
  {
    if title != [] && |buffer| > 0 then nodes + [mk(Section(title, Join(buffer, '\n'), date))] else nodes
  }

  /** Flushing the open section gives the nodes of every block read so far. */
  lemma FlushCloses(mk: Section -> MemoryNode, fileDate: Option<string>, lay: Layout,
                    title: string, buffer: seq<string>, date: Option<string>, nodes: seq<MemoryNode>)
    requires WellFormed(lay)
    requires ScanInvariant(mk, fileDate, lay, title, buffer, date, nodes)
    ensures Flush(mk, title, buffer, date, nodes) == NodesOf(mk, Sections(fileDate, lay.blocks))
  {
    var bs := lay.blocks;
    if bs != [] {
      var n := |bs|;
      var front := bs[..n - 1];
      var last := bs[n - 1];
      assert last in bs;
      assert bs == front + [last];
      SectionsSnoc(fileDate, front, last);
      if last.body != [] {
        var sec := Section(title, Join(buffer, '\n'), date);
        assert IsHeadingText(title);
        assert Sections(fileDate, bs) == Sections(fileDate, front) + [sec];
        NodesOfSnoc(mk, Sections(fileDate, front), sec);
        assert Flush(mk, title, buffer, date, nodes) == nodes + [mk(sec)];
      } else {
        assert Sections(fileDate, bs) == Sections(fileDate, front);
        assert nodes == NodesOf(mk, Sections(fileDate, front));
      }
    }
  }

  /** A heading line closes the open section and opens its own. */
  lemma HeadingStep(mk: Section -> MemoryNode, fileDate: Option<string>, lay: Layout,
                    title: string, buffer: seq<string>, date: Option<string>, nodes: seq<MemoryNode>, line: string)
    requires WellFormed(lay) && ClassifyLine(line).Some?
    requires ScanInvariant(mk, fileDate, lay, title, buffer, date, nodes)
    ensures var h := ClassifyLine(line).value;
            ScanInvariant(mk, fileDate, Extend(lay, line), h.text, [],
                          if IsDateHeading(h) then Some(h.text) else date,
                          Flush(mk, title, buffer, date, nodes))
  {
    var h := ClassifyLine(line).value;
    FlushCloses(mk, fileDate, lay, title, buffer, date, nodes);
    var after := lay.blocks + [Block(h, [])];
    assert Extend(lay, line).blocks == after;
    assert after[..|after| - 1] == lay.blocks;
  }

  /** Any other line joins the open section's buffer. */
  lemma PlainStep(mk: Section -> MemoryNode, fileDate: Option<string>, lay: Layout,
                  title: string, buffer: seq<string>, date: Option<string>, nodes: seq<MemoryNode>, line: string)
    requires IsPlain(line)
    requires ScanInvariant(mk, fileDate, lay, title, buffer, date, nodes)
    ensures ScanInvariant(mk, fileDate, Extend(lay, line), title, buffer + [line], date, nodes)
  {
    var bs := lay.blocks;
    if bs != [] {
      var n := |bs|;
      var after := Extend(lay, line).blocks;
      assert after == bs[..n - 1] + [Block(bs[n - 1].heading, bs[n - 1].body + [line])];
      assert after[..n - 1] == bs[..n - 1];
    }
  }

  /** `parseMemoryFile(content, sourcePath)` of the given copy. */
  method ParseMemoryFile(v: Variant, content: string, sourcePath: string) returns (nodes: seq<MemoryNode>)
    ensures nodes == Parse(v, content, sourcePath)
  {
    nodes := [];
    var lines := Split(content, '\n');
    var currentTitle: string := "";
    var currentContent: seq<string> := [];
    var currentDate := FileDate(sourcePath);
    ghost var fileDate := currentDate;
    var mk := NodeMaker(v, sourcePath);

    for i := 0 to |lines|
      invariant ScanInvariant(mk, fileDate, LayoutOf(lines[..i]), currentTitle, currentContent, currentDate, nodes)
    {
      var line := lines[i];
      ghost var before := LayoutOf(lines[..i]);
      LayoutPartition(lines[..i]);
      LayoutOfPrefix(lines, i);
      var h1 := MatchH1(line);
      var h2 := MatchH2(line);
      if h1.Some? || h2.Some? {
        HeadingStep(mk, fileDate, before, currentTitle, currentContent, currentDate, nodes, line);
        nodes := Flush(mk, currentTitle, currentContent, currentDate, nodes);
        if h1.Some? {
          currentTitle := h1.value;
          currentContent := [];
          if IsDate(currentTitle) {
            currentDate := Some(currentTitle);
          }
        } else {
          currentTitle := h2.value;
          currentContent := [];
        }
      } else {
        PlainStep(mk, fileDate, before, currentTitle, currentContent, currentDate, nodes, line);
        currentContent := currentContent + [line];
      }
    }
    assert lines[..|lines|] == lines;
    LayoutPartition(lines);
    FlushCloses(mk, fileDate, LayoutOf(lines), currentTitle, currentContent, currentDate, nodes);
    nodes := Flush(mk, currentTitle, currentContent, currentDate, nodes);
    if |nodes| == 0 && Trim(content) != "" {
      var title := FallbackTitle(v, sourcePath);
      nodes := nodes + [CreateNode(v, title, content, sourcePath, currentDate)];
    }
  }
}
