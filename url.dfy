/** The WHATWG `URL` constructor, kept abstract: a parser is any total function that
    either yields the parsed `protocol` (with its colon, as in "https:") and `hostname`,
    or fails, which in the source is the constructor throwing a `TypeError`. */
module WhatwgUrl {
  import opened Wrappers

  datatype Url = Url(protocol: string, hostname: string)

  type UrlParser = string -> Option<Url>
}
