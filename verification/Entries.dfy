/** What the cache holds under a key, and what the readers make of it. */
module Entries {
  import opened Wrappers
  import opened Forest
  import opened Storage
  import opened Trees
  import opened Json
  import opened CacheKeys

  /** A stored value: plain text, a JSON document, or bytes that are neither. */
  datatype Blob = Text(text: string) | Document(json: Json) | Garbage

  datatype GetResult = GetFailed | Miss | Hit(blob: Blob)

  /** The arguments a tree key is made of. */
  datatype Params = Params(epoch: int, id: Id, depth: int, withEmployees: bool)

  function KeyOf(p: Params): string {
    TreeKey(p.epoch, p.id, p.depth, p.withEmployees)
  }

  /** readDepartmentTreeEpoch; no value stands for an error, including a text that is not a counter. */
  function ReadEpoch(got: GetResult): Option<int> {
    match got
    case GetFailed => None
    case Miss => Some(0)
    case Hit(Text(text)) =>
      var n := ParseInt(text);
      if n.Some? && n.value >= 0 then n else None
    case Hit(_) => None
  }

  /** The tree in a stored value, if it decodes and passes the check for these parameters. */
  function Accept(blob: Blob, p: Params): Option<Tree> {
    if !blob.Document? then None
    else
      var tree := DecodeTree(blob.json);
      if tree.Ok? && Valid(tree.value, p.id, p.depth, p.withEmployees) then Some(tree.value) else None
  }

  datatype CacheRead = ReadError | NotCached | Cached(tree: Tree)

  /** readCachedDepartmentTree. */
  function ReadCached(got: GetResult, p: Params): CacheRead {
    match got
    case GetFailed => ReadError
    case Miss => NotCached
    case Hit(blob) =>
      var tree := Accept(blob, p);
      if tree.Some? then Cached(tree.value) else NotCached
  }

  lemma KeyOfInjective(p: Params, q: Params)
    requires KeyOf(p) == KeyOf(q)
    ensures p == q
  {
    TreeKeyInjective(p.epoch, p.id, p.depth, p.withEmployees, q.epoch, q.id, q.depth, q.withEmployees);
  }

  /** A tree of a well-formed database passes the check for its own parameters, and survives the store. */
  lemma RepresentedIsAccepted(db: Database, tree: Tree, p: Params)
    requires WellFormed(db) && tree.id == p.id && Represents(db, tree, p.depth, p.withEmployees)
    ensures Accept(Document(EncodeTree(tree)), p) == Some(tree)
  {
    RepresentedIsValid(db, tree, p.depth, p.withEmployees);
    ValidRoundTrip(tree, p.id, p.depth, p.withEmployees);
  }
}
