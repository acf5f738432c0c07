/** The memory node record and `createNode`, which trims the section text,
    derives the id from title and source path, and attaches the tags. */
module Nodes {
  import opened Text
  import opened Variants
  import opened Tags
  import opened Ids

  /** One memory: the fields the extractor fills in (the layout fields of the
      display layer are never written by it). */
  datatype MemoryNode = MemoryNode(
    id: string,
    title: string,
    content: string,
    date: Option<string>,
    source: string,
    tags: seq<string>)

  /** `createNode(title, content, source, date)` of the given copy. */
  function CreateNode(v: Variant, title: string, content: string, sourcePath: string, date: Option<string>): MemoryNode
  {
    var trimmed := Trim(content);
    MemoryNode(GenerateId(title, sourcePath), title, trimmed, date, StoredSource(v, sourcePath),
               TagsOf(Keywords(v), trimmed))
  }

  /** What every node says about itself: its content carries no surrounding
      white space, its id has the slug shape, its tags are duplicate-free, and
      a keyword is among its tags exactly when the lower-cased content holds it. */
  lemma CreatedNodeShape(v: Variant, title: string, content: string, sourcePath: string, date: Option<string>)
    ensures var n := CreateNode(v, title, content, sourcePath, date);
            && (n.content == [] || (!IsSpace(n.content[0]) && !IsSpace(n.content[|n.content| - 1])))
            && IsSlugId(n.id)
            && NoDup(n.tags)
            && (forall k :: k in Keywords(v) ==> (k in n.tags <==> Contains(Lower(n.content), k)))
            && (forall t :: t in n.tags ==> IsHashtagOf(n.content, t) || t in Keywords(v))
  {
    var n := CreateNode(v, title, content, sourcePath, date);
    assert n.content == Trim(content) && n.tags == TagsOf(Keywords(v), n.content);
    TagsOfExact(Keywords(v), n.content);
  }
}
