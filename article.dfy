/** The `Article` record the feed code produces (the shared article model). */
module Articles {
  import opened Wrappers

  /** What `new Date(...)` is handed for `publishDate`: the item's `pubDate`
      text, or the clock reading `Date.now()` taken at the call. */
  datatype DateSource = PubDateText(text: string) | CallTime

  /** One article. `featuredImage` and `categories` are optional in the
      record's type, as in the interface. */
  datatype Article = Article(
    id: string,
    title: string,
    author: string,
    publishDate: DateSource,
    excerpt: string,
    url: string,
    featuredImage: Option<string>,
    categories: Option<seq<string>>)
}
