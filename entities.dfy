/** The value the engine hands to a sink. */
module Entities {
  import opened UrlRoot

  /** A fetched page: its URL and its document serialized back to text. */
  datatype Page = Page(link: Url, content: string)
}
