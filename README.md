# Memory palace extractor and linker, in Dafny

This project models the part of the memory palace that turns markdown memory
files into a memory graph:

- **`parseMemoryFile`** cuts a document into sections at `# ` and `## `
  headings. Each section with at least one line under its heading becomes a
  memory node. A document that yields no section and is not blank becomes one
  node titled after its file.
- **Dates.** A daily log named `YYYY-MM-DD.md` dates its nodes. A `# ` heading
  whose text is a date re-dates every node after it, until the next such
  heading.
- **`createNode`** trims the section text, derives the node id from source and
  title (`generateId`) and attaches tags (`extractTags`). Tags are the
  hashtags of the content plus each keyword of a fixed vocabulary that occurs
  in the lower-cased content.
- **`findConnections`** scores every pair of nodes `i < j`. Each shared tag
  adds 0.3, an equal date adds 0.2, and each shared title word longer than
  three characters adds 0.15. A pair scoring at least 0.2 becomes a link, in
  the order the nested loops meet it, with strength capped at 1.

The extractor exists twice: in the browser library (`src/lib/memoryParser.ts`)
and in the build script (`scripts/buildMemories.ts`). `Variants.Variant`
selects the copy. The copies differ in three ways:

- the keyword vocabulary: the script adds `miguel` and `gandalf`;
- the fallback title: the library uses `split('/').pop().replace('.md', '')`
  or `Untitled`, the script uses `path.basename(p, '.md')`;
- the stored `source`: the library keeps the path, the script keeps the
  basename.

`Build` models the pure step of the script's `main`: parse every file with the
script's copy, concatenate the nodes in file order, and link them all in one
pass.

Modules, in dependency order:

- `Text`: JavaScript string primitives on `seq<char>`: `trim`, `split`/`join`
  on one character, `includes`, `indexOf`, `replace` of a literal, ASCII
  `toLowerCase`. White space is JavaScript's `\s` set.
- `Variants`: the two copies' configuration; `path.basename`.
- `Tags`: `extractTags` as a specification function `TagsOf` and as the
  method `ExtractTags` with its loops.
- `Ids`: `generateId` and the shape of every id.
- `Nodes`: the `MemoryNode` record and `createNode`.
- `Parser`: `parseMemoryFile`.
  - The specification is declarative. `LayoutOf` cuts the lines into a
    preamble and blocks (a heading and the lines under it), and it is the
    only such cut (`LayoutPartition`, `LayoutUnique`).
  - `Sections` makes one section per block with a body.
  - `Parse` adds the fallback.
  - The loop `ParseMemoryFile` is proved to compute `Parse`.
- `ParseFacts`: what the nodes of a document are, stated over its blocks.
- `Linker`: `findConnections`.
  - `Connections` is the specification. It is proved equal to the links of
    the pairs `i < j` in lexicographic order that reach the threshold.
  - The nested loops `FindConnections` are proved to compute it.
- `Build`: the script's parse-all-then-link step.

Strengths are exact integers in hundredths (0.3 is 30, 0.2 is 20, 0.15 is 15,
the cap 1 is 100).

The model follows the code where it departs from what one might expect:

- Ids are not unique. Two sections with the same title in the same file get
  the same id, and a cut at 50 characters can merge longer ids.
- A heading followed only by blank lines still yields a node, with empty
  content (`ParseFacts.BlankSectionEmptyContent`).
- The library stores the full path as `source`. Only the script stores the
  file name.
- The fallback node's content is trimmed like every other node's.

## Model

| member | source | states |
|---|---|---|
| Text.Trim | src/lib/memoryParser.ts:70 | `trim()`: the result is a slice of the input with only white space cut on either side. Neither end of a non-empty result is white space. The result is empty exactly when the input is all white space. |
| Text.Split | src/lib/memoryParser.ts:9 | `split('\n')` returns at least one piece, and no piece holds the separator. |
| Text.JoinSplit | src/lib/memoryParser.ts:9 | Joining the lines of a split with the separator gives the document back. |
| Text.SplitJoin | src/lib/memoryParser.ts:29 | Splitting a join of separator-free pieces gives the pieces back. |
| Text.Contains | src/lib/memoryParser.ts:102 | `includes` holds exactly when the needle occurs at some position. |
| Text.IndexOf | src/lib/memoryParser.ts:57 | The position `replace('.md', '')` acts on is the first occurrence, or -1 when there is none. |
| Text.LastSegment | src/lib/memoryParser.ts:57 | `split('/').pop()` is the suffix after the last '/' and holds no '/'. |
| Text.LowerChar | src/lib/memoryParser.ts:102 | ASCII lower-casing leaves no capital, changes nothing but capitals, and keeps letters letters and digits digits. |
| Text.LowerCharOffset | src/lib/memoryParser.ts:102 | A capital becomes the lower-case letter at the same place in the alphabet (as far from 'a' as the capital is from 'A'). |
| Variants.Basename | scripts/buildMemories.ts:70 | `path.basename(p, '.md')` holds no '/'. It is the last segment without a final `.md`, unless that segment is `.md` itself. It is empty when the path is `.md`. |
| Variants.LibraryFallbackTitleNonEmpty | src/lib/memoryParser.ts:57 | The library's fallback title is never empty, because of the `'Untitled'` default. |
| Variants.FallbackTitleStripsExtension | scripts/buildMemories.ts:70 | For `dir/name.md` with no earlier `.md`, both copies title the fallback node `name`. |
| Tags.TagRun | src/lib/memoryParser.ts:94 | A tag's body is the longest run of `[a-zA-Z0-9_-]` after its first letter. |
| Tags.Hashtags | src/lib/memoryParser.ts:94-97 | Every hashtag found, without `#`, is non-empty, starts with a lower-case letter and holds only lower-case tag characters. |
| Tags.HashtagsExact | src/lib/memoryParser.ts:94-97 | The global match finds exactly the lower-cased bodies of the `#`-letter occurrences of the content, wherever they stand. |
| Tags.HashtagInLowered | src/lib/memoryParser.ts:96 | A hashtag also occurs in the lower-cased content. |
| Tags.KeywordHitsExact | src/lib/memoryParser.ts:100-105 | The keyword loop pushes exactly the keywords that occur in the lower-cased content. |
| Tags.Dedup | src/lib/memoryParser.ts:107 | `[...new Set(tags)]` has no repeats and the same members. |
| Tags.TagsOf | src/lib/memoryParser.ts:90-108 | `extractTags` as a value: the lower-cased hashtags of the content, then the vocabulary words the lower-cased content includes, without repeats. `Tags.TagsOfExact` states its members. |
| Tags.TagsOfExact | src/lib/memoryParser.ts:90-108 | The tags have no repeats. A keyword is a tag exactly when the lower-cased content holds it. Every tag is a hashtag of the content or a keyword. |
| Tags.ExtractTags | scripts/buildMemories.ts:96-109 | The method with the loops returns `TagsOf` for the given copy's vocabulary. |
| Ids.CollapseRuns | src/lib/memoryParser.ts:85 | `replace(/[^a-z0-9]+/g, '-')` leaves only `[a-z0-9-]` with no two dashes in a row. It starts with '-' exactly when the input starts outside `[a-z0-9]`. It keeps the alphanumerics. |
| Ids.CollapseRunsAllAlnum | src/lib/memoryParser.ts:85 | A text made only of `[a-z0-9]` is left as it is. |
| Ids.CollapseRunsNoAlnum | src/lib/memoryParser.ts:85 | A non-empty text with no `[a-z0-9]` character becomes a single '-'. |
| Ids.CollapseRunsAppend | src/lib/memoryParser.ts:85 | Where two texts meet at an alphanumeric character, replacing the runs of the whole is replacing them in each part. With the two rows above this fixes the result of every input. |
| Ids.SlugShape | src/lib/memoryParser.ts:84-86 | After dropping the leading and trailing dash, the slug has no dash at either end. It keeps the alphanumerics of the lower-cased text. |
| Ids.GenerateId | src/lib/memoryParser.ts:83-88 | Every id has at most 50 characters from `[a-z0-9-]`, no leading dash and no two dashes in a row. |
| Ids.IdKeepsAlphanumerics | scripts/buildMemories.ts:89-94 | The id keeps a prefix of the letters and digits of the lower-cased `source-title`. An uncut id keeps all of them and does not end in '-'. |
| Nodes.CreateNode | src/lib/memoryParser.ts:64-81 | `createNode`: the id from title and path, the given title and date, the trimmed content, the source as the copy stores it, and the tags of the trimmed content. `Nodes.CreatedNodeShape` states its shape. |
| Nodes.CreatedNodeShape | src/lib/memoryParser.ts:64-81 | A created node's content has no surrounding white space, and its id has the slug shape. Its tags have no repeats. A keyword is a tag exactly when the lower-cased content holds it, and every other tag is a hashtag of the content. |
| Parser.FileDate | src/lib/memoryParser.ts:15-19 | A file date is present only when the path ends in a date followed by `.md`. |
| Parser.FileDateOfDailyLog | scripts/buildMemories.ts:36-39 | `<dir>YYYY-MM-DD.md` is dated `YYYY-MM-DD`, whatever the directory. |
| Parser.ClassifyHeadingLine | src/lib/memoryParser.ts:23-24 | A line read as a heading is its marker followed by valid heading text. |
| Parser.HeadingLineClassifies | src/lib/memoryParser.ts:23-26 | Every heading with valid text is read back from its own line, with `# ` tried first. |
| Parser.CarriageReturnHeadingIsPlain | src/lib/memoryParser.ts:23-24 | A heading line ending in '\r' (a CRLF file) is plain content, because `.` does not match '\r'. |
| Parser.LayoutPartition | src/lib/memoryParser.ts:21-48 | The cut of the lines into preamble and blocks is well formed: valid headings, no heading line in the preamble or a body. It flattens back to the lines. |
| Parser.LayoutUnique | src/lib/memoryParser.ts:21-48 | Every well-formed cut is the cut of its own lines, so the cut is unique. |
| Parser.PreambleDiscarded | src/lib/memoryParser.ts:28 | Lines before the first heading only lengthen the preamble and never reach a node. |
| Parser.NoHeadingNoBlocks | src/lib/memoryParser.ts:45-47 | A document without heading lines has no blocks. |
| Parser.DateAfterNoDateHeading | src/lib/memoryParser.ts:13-19 | Without a date-valued `# ` heading the file's date stays in effect, and `## ` headings never change it. |
| Parser.DateAfterLastDateHeading | src/lib/memoryParser.ts:34-37 | The date in effect is the text of the last date-valued `# ` heading. |
| Parser.EmittedIndices | src/lib/memoryParser.ts:28-53 | The blocks that emit are exactly those with at least one line under the heading, in increasing order. |
| Parser.SectionsInBlockOrder | src/lib/memoryParser.ts:26-53 | The m-th section is that of the m-th emitting block, dated by the headings up to its own. |
| Parser.NodesOfAt | src/lib/memoryParser.ts:29 | The m-th node is made from the m-th section. |
| Parser.FlushCloses | src/lib/memoryParser.ts:50-53 | Flushing the open section gives the nodes of every block read so far. |
| Parser.HeadingStep | src/lib/memoryParser.ts:26-44 | A heading line closes the open section, opens its own, and re-dates on a date-valued `# ` heading, keeping the loop invariant. |
| Parser.PlainStep | src/lib/memoryParser.ts:45-47 | Any other line joins the open buffer, keeping the loop invariant. |
| Parser.Parse | src/lib/memoryParser.ts:7-62 | `parseMemoryFile` as a value: one node per heading block with a body, dated by the file name or the last date heading, or the fallback node for a non-blank document with none. The `ParseFacts` rows state its nodes. |
| Parser.ParseMemoryFile | src/lib/memoryParser.ts:7-62 | The loop returns `Parse`, for either copy. |
| ParseFacts.ParseIsNodesOf | src/lib/memoryParser.ts:55-61 | When some block emits, the nodes are the sections' nodes and the fallback does not fire. |
| ParseFacts.ParsedSection | src/lib/memoryParser.ts:26-53 | There is one node per emitting block. The m-th is made from the section of the m-th emitting block. |
| ParseFacts.SectionMade | src/lib/memoryParser.ts:29 | A section's node is `createNode` of the heading text, the lines joined by '\n', and the date in effect at the heading. |
| ParseFacts.SectionNode | src/lib/memoryParser.ts:26-81 | The m-th node's title is its heading text (never empty), and its content is the trimmed joined lines of its block. Its id is `generateId(title, path)`, and its source is the path as the copy stores it. |
| ParseFacts.BlockHeadingsValid | src/lib/memoryParser.ts:31 | Every block's title is non-empty and free of line terminators. |
| ParseFacts.NodeDateFromFile | src/lib/memoryParser.ts:15-19 | A node with no date-valued `# ` heading at or before its own carries the file's date. |
| ParseFacts.NodeDateFromHeading | src/lib/memoryParser.ts:34-37 | A node after a date-valued `# ` heading, and before the next one, carries that heading's date. |
| ParseFacts.JoinBlank | src/lib/memoryParser.ts:29 | Blank lines joined by '\n' are blank. |
| ParseFacts.BlankSectionEmptyContent | src/lib/memoryParser.ts:45-53 | A heading followed only by blank lines still yields a node, with empty content. |
| ParseFacts.BlankDocumentNoBlocks | src/lib/memoryParser.ts:21-24 | A white-space document has no blocks. |
| ParseFacts.ParseEmptyIffBlank | src/lib/memoryParser.ts:55-61 | A document yields no node exactly when it is all white space. |
| ParseFacts.FallbackNode | src/lib/memoryParser.ts:55-59 | When no block has a body and the document is not blank, there is exactly one node. Its title is the fallback title, and its content is the trimmed document. Its id and source follow the path, and its date is the last date heading's or the file's. |
| ParseFacts.NoEmittingBlock | src/lib/memoryParser.ts:56 | Blocks without bodies emit nothing. |
| ParseFacts.MakersAgree | scripts/buildMemories.ts:77-87 | Both copies' `createNode` agree on title, content, date and id for any section. |
| ParseFacts.NodesOfAgree | scripts/buildMemories.ts:28-75 | Node makers that agree on every section agree on every list of sections, node by node. |
| ParseFacts.VariantsAgree | scripts/buildMemories.ts:28-75 | Both copies cut a document into the same number of nodes, with equal content and date at each position. Outside the fallback they also have equal titles and ids. |
| Linker.WordStartSpan | src/lib/memoryParser.ts:134 | The characters from a word's start to its end hold no white space, and the one before the start, if any, is white space. |
| Linker.GapStartSpan | src/lib/memoryParser.ts:134 | The characters from a white-space run's start to its end are all white space, and the one before the start, if any, is not. |
| Linker.TokensNoSpace | src/lib/memoryParser.ts:134 | No piece of `split(/\s+/)` holds white space. |
| Linker.TokensSplitAtRuns | src/lib/memoryParser.ts:134 | `split(/\s+/)` cuts the text at its maximal white-space runs: the pieces with non-empty white-space gaps between them rebuild the text, and only the first and last piece can be empty. With `TokensNoSpace`, the non-empty pieces are the maximal runs of non-white-space characters, in order. |
| Linker.TokensOfJoin | src/lib/memoryParser.ts:134-135 | Non-empty words joined by single spaces split back into the same words. |
| Linker.SharedTagsMembers | src/lib/memoryParser.ts:125 | A tag is shared exactly when both nodes hold it. Nothing is shared exactly when the nodes have no tag in common. |
| Linker.SharedTagsCount | src/lib/memoryParser.ts:125-126 | The filter counts every common tag at least once, and exactly once when a's tags have no repeats. |
| Linker.SharedWordsMembers | src/lib/memoryParser.ts:136 | A title word is shared exactly when it is longer than three characters and both titles hold it. |
| Linker.SharedWordsCount | src/lib/memoryParser.ts:136-137 | The filter keeps one word for each position of a's words whose word is longer than three characters and occurs among b's words, repeats included. |
| Linker.RawStrength | src/lib/memoryParser.ts:122-137 | The pair's uncapped score in hundredths: 30 per shared tag, 20 for an equal defined date, 15 per shared long title word. `Linker.RawStrengthCounts` states it in counts. |
| Linker.RawStrengthCounts | src/lib/memoryParser.ts:122-137 | When a's tags have no repeats, as every created node's do, the score is 30 per common tag, 20 for an equal defined date, and 15 per position of a's lower-cased title words whose word is longer than three characters and occurs in b's lower-cased title. |
| Linker.LinkStrengthBounds | src/lib/memoryParser.ts:139-146 | A pair yields at most one link, exactly when its score reaches 20. The link runs from a's id to b's id, with strength between 20 and 100. |
| Linker.NoOverlapNoLink | src/lib/memoryParser.ts:122-140 | Nodes with no common tag, no common date and no common long title word score 0 and are not linked. |
| Linker.FourSharedTagsFullStrength | src/lib/memoryParser.ts:144 | Four common tags give a link of full strength 100. |
| Linker.AllPairsExact | src/lib/memoryParser.ts:116-117 | The loops visit each pair i < j < n exactly once, in lexicographic order: n(n-1)/2 pairs. |
| Linker.PairsBeforeCount | src/lib/memoryParser.ts:116-117 | The first i rows hold i(2n-i-1)/2 pairs. |
| Linker.Kept | src/lib/memoryParser.ts:140 | The kept pairs are the visited pairs whose score reaches the threshold. |
| Linker.KeptSorted | src/lib/memoryParser.ts:140-146 | Keeping pairs of a sorted visit keeps them sorted. |
| Linker.LinksAlongAppend | src/lib/memoryParser.ts:116-148 | The links along two visits in a row are the links along each, in order. |
| Linker.ConnectionsAlongPairs | src/lib/memoryParser.ts:116-148 | The nested loops, row after row, emit the links of all pairs i < j in lexicographic order. |
| Linker.LinkedPairsExact | src/lib/memoryParser.ts:116-146 | The linked pairs are exactly the pairs i < j whose score reaches 20, in lexicographic order. |
| Linker.ConnectionsFromPairs | src/lib/memoryParser.ts:140-146 | The m-th link joins the ids of the m-th linked pair, with the capped score. |
| Linker.ConnectionsCount | src/lib/memoryParser.ts:113-151 | There are at most n(n-1)/2 links. |
| Linker.ConnectionsEndpoints | src/lib/memoryParser.ts:141-145 | Every link joins `nodes[i].id` to `nodes[j].id` for some i < j, with strength between 20 and 100. |
| Linker.PairStrength | src/lib/memoryParser.ts:122-137 | The inner loop's accumulated strength is the pair's score. |
| Linker.Connections | src/lib/memoryParser.ts:113-150 | `findConnections` as a value: the links of the nested loops, row after row. `Linker.LinkedPairsExact` and `Linker.ConnectionsFromPairs` state which pairs link and how. |
| Linker.FindConnections | src/lib/memoryParser.ts:113-151 | The nested loops return `Connections`, the links of the pairs in loop order. |
| Build.GatherExact | scripts/buildMemories.ts:179-183 | The nodes gathered from the first k files are exactly the nodes of those files. |
| Build.AllNodesExact | scripts/buildMemories.ts:179-183 | The graph's nodes are exactly the nodes the script's parser yields for some file. |
| Build.GraphLinksJoinNodes | scripts/buildMemories.ts:179-188 | Every link of the built graph joins two of its nodes' ids, the first listed before the second. |
| Build.BuildGraph | scripts/buildMemories.ts:179-188 | Parsing every file, concatenating the nodes and linking them once gives `GraphOf(files)`. |

## Left out

- I/O of the build script's `main`: reading `MEMORY.md` and `memory/*.md`, the console output, writing `memories.json`, and the `lastUpdated` timestamp. The model takes the files as a list of path and text.
- `loadMemories`, the sample data and the display components. They consume the graph and are not part of this model.
- Linker.PairStrength: strengths are exact hundredths, not IEEE doubles. Every keep-or-drop decision agrees with the doubles (the only score next to the threshold is 0.2 itself), but a stored strength such as 0.9 can differ from the double in its last bit (three shared tags give 0.8999999999999999).
- Text.LowerChar: `toLowerCase` is modelled on ASCII only, so non-ASCII capitals (Ü, É, Σ, Cyrillic) are not lowered. This changes the title-word term of `findConnections`: titles "Über Größe" and "über größe" with no tags and no date share 2 words in the source (score 0.3, linked) but only "größe" in the model (score 15, not linked). It also changes ids: the Kelvin sign and a dotted capital I lower to ASCII letters in the source but are replaced by '-' in the model.
- Linker.SharedWordsMembers: `w.length > 3` counts characters, while JavaScript counts UTF-16 code units, so a word is one longer in the source per character outside the Basic Multilingual Plane ("😀😀" has length 4 there and 2 in the model, and passes `w.length > 3` only in the source).
- Variants.Basename: paths ending in '/' are not modelled. Node.js strips trailing slashes before taking the last segment, and the memory file paths never end in '/'.
- Tags.Dedup: the contract states no repeats and the same members, not that the first occurrences keep their order. The body keeps that order.
- Ids are not proved unique, because they are not: equal titles in one file give equal ids.
