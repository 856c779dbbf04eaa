/** What a language lets its comments say. */
module CommentRules {

  /** The three sets of rules a language's comments are read by. */
  datatype Rules = Fenced | FencedUntagged | Indentation
  {
    predicate ReadsDocTags() { !FencedUntagged? }

    /** The name of the set in a cache key. */
    function Tag(): string {
      match this
      case Fenced => "fenced"
      case FencedUntagged => "fenced-untagged"
      case Indentation => "indented"
    }
  }
}
