/** The post catalog: the records of the `POSTS` list (log.js:3-17). */
module Catalog {

  datatype Option<T> = None | Some(value: T)

  /** One post descriptor. `tags` may be missing from a record, which the
      script reads as no tags at all. */
  datatype Post = Post(file: string, title: string, date: string, tags: Option<seq<string>>)

  /** `p.tags ?? []` */
  function TagsOrEmpty(p: Post): seq<string>
  {
    match p.tags
    case Some(ts) => ts
    case None => []
  }
}
