/**
 * The documents the monorepo logic reads from the npm document store:
 * registry entries (one per package, keyed by the package name) and pending
 * markers (keyed by "monorepo:" followed by the group name). Both share one
 * shape: an `_id`, a `distTags` dictionary and an optional `updatedAt` instant.
 */
module Documents {
  import opened Wrappers

  type Id = string

  /** Instants are integers in milliseconds, as JavaScript's `Date.getTime()`. */
  datatype Doc = Doc(id: Id, distTags: map<string, string>, updatedAt: Option<int>)

  /** One row of a bulk read: a document, or an error for a key that is not found. */
  datatype Row = Found(doc: Doc) | Failed(key: Id, error: string)

  /** `doc.distTags['latest']`, absent when the tag is not set. */
  function Latest(d: Doc): (r: Option<string>)
    ensures r.Some? <==> "latest" in d.distTags
  {
    if "latest" in d.distTags then Some(d.distTags["latest"]) else None
  }

  /** JavaScript truthiness of a string that may be `undefined`: the empty string is falsy. */
  predicate Truthy(s: Option<string>)
  {
    s.Some? && s.value != ""
  }
}
