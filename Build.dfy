/** The pure step of the build script: every memory file is parsed with the
    script's copy of the parser, the node lists are concatenated in file
    order, and one pass of `findConnections` links the whole list. */
module Build {
  import opened Variants
  import opened Nodes
  import opened Parser
  import opened Linker

  /** A memory file as read from disk: its path relative to the memory
      directory and its text. */
  datatype MemoryFile = MemoryFile(path: string, content: string)

  /** The graph written out: the nodes and the links between them. */
  datatype Graph = Graph(nodes: seq<MemoryNode>, links: seq<Link>)

  /** How a file's text and path become its nodes. */
  type FileParser = (string, string) -> seq<MemoryNode>

  /** The script's parser: `parseMemoryFile(file.content, file.path)`. */
  function ScriptParser(): FileParser
  {
    (content: string, path: string) => Parse(Script, content, path)
  }

  /** The nodes of the first k files, file after file. */
  function Gather(parse: FileParser, files: seq<MemoryFile>, k: nat): seq<MemoryNode>
    requires k <= |files|
  {
    if k == 0 then [] else Gather(parse, files, k - 1) + parse(files[k - 1].content, files[k - 1].path)
  }

  /** The nodes of all files. */
  function AllNodes(files: seq<MemoryFile>): seq<MemoryNode>
  {
    Gather(ScriptParser(), files, |files|)
  }

  /** A node gathered from the first k files comes from one of them, and
      every node of each of them is gathered. */
  lemma {:induction false} GatherExact(parse: FileParser, files: seq<MemoryFile>, k: nat)
    requires k <= |files|
    ensures forall n :: n in Gather(parse, files, k) <==>
              exists m :: 0 <= m < k && n in parse(files[m].content, files[m].path)
  {
    if k > 0 {
      GatherExact(parse, files, k - 1);
      GatherStep(parse(files[k - 1].content, files[k - 1].path), Gather(parse, files, k - 1),
                 parse, files, k - 1);
    }
  }

  lemma GatherStep(last: seq<MemoryNode>, before: seq<MemoryNode>, parse: FileParser, files: seq<MemoryFile>, k: nat)
    requires k < |files| && last == parse(files[k].content, files[k].path)
    requires forall n :: n in before <==> exists m :: 0 <= m < k && n in parse(files[m].content, files[m].path)
    ensures forall n :: n in before + last <==>
              exists m :: 0 <= m < k + 1 && n in parse(files[m].content, files[m].path)
  {
    forall n | n in before + last
      ensures exists m :: 0 <= m < k + 1 && n in parse(files[m].content, files[m].path)
    {
      if n !in before {
        assert n in parse(files[k].content, files[k].path);
      }
    }
  }

  /** The graph's nodes are exactly the nodes of the files. */
  lemma AllNodesExact(files: seq<MemoryFile>)
    ensures forall n :: n in AllNodes(files) <==>
              exists k :: 0 <= k < |files| && n in Parse(Script, files[k].content, files[k].path)
  {
    GatherExact(ScriptParser(), files, |files|);
  }

  /** The graph the build script writes for the given files. */
  function GraphOf(files: seq<MemoryFile>): Graph
  {
    var nodes := AllNodes(files);
    Graph(nodes, Connections(nodes))
  }

  /** Every link of the graph joins the ids of two of its nodes, the first
      listed before the second. */
  lemma GraphLinksJoinNodes(files: seq<MemoryFile>)
    ensures var g := GraphOf(files);
            forall l :: l in g.links ==>
              exists i, j :: 0 <= i < j < |g.nodes| && l.source == g.nodes[i].id && l.target == g.nodes[j].id
  {
    ConnectionsEndpoints(AllNodes(files));
  }

  /** The parse-and-link step of the build script's `main`. */
  method BuildGraph(files: seq<MemoryFile>) returns (g: Graph)
    ensures g == GraphOf(files)
  {
    var allNodes: seq<MemoryNode> := [];
    for k := 0 to |files|
      invariant allNodes == Gather(ScriptParser(), files, k)
    {
      var file := files[k];
      var nodes := ParseMemoryFile(Script, file.content, file.path);
      allNodes := allNodes + nodes;
    }
    var links := FindConnections(allNodes);
    g := Graph(allNodes, links);
  }
}
