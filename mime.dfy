/**
 * The static suffix-to-content-type table of HttpHandler.h (class MimeType):
 * built once, looked up by file suffix, with the "default" entry as fallback.
 */
module Mime {

  const Table: map<string, string> := map[
    "doc" := "application/msword",
    "gz" := "application/x-gzip",
    "ico" := "application/x-ico",
    "gif" := "image/gif",
    "jpg" := "image/jpeg",
    "png" := "image/png",
    "bmp" := "image/bmp",
    "mp3" := "audio/mp3",
    "avi" := "video/x-msvideo",
    "html" := "text/html",
    "htm" := "text/html",
    "css" := "text/html",
    "js" := "text/html",
    "c" := "text/plain",
    "txt" := "text/plain",
    "default" := "text/plain"
  ]

  /**
   * getMineType_: the table entry for a known suffix, otherwise the "default"
   * entry. The lookup is total and always yields one of the table's types.
   */
  function GetMimeType(suffix: string): (r: string)
    ensures suffix in Table ==> r == Table[suffix]
    ensures suffix !in Table ==> r == "text/plain"
    ensures r in Table.Values
  {
    if suffix in Table then Table[suffix] else Table["default"]
  }

  /** A few entries as the table states them. */
  lemma KnownSuffixes()
    ensures GetMimeType("html") == "text/html"
    ensures GetMimeType("png") == "image/png"
    ensures GetMimeType("jpg") == "image/jpeg"
    ensures GetMimeType("doc") == "application/msword"
  {
  }

  /** Style sheets and scripts are served as HTML; C sources and text files as plain text. */
  lemma TextAliases()
    ensures GetMimeType("htm") == GetMimeType("css") == GetMimeType("js") == "text/html"
    ensures GetMimeType("c") == GetMimeType("txt") == "text/plain"
  {
  }

  /** An unknown suffix, including the empty one, falls back to plain text. */
  lemma UnknownSuffixIsPlainText(suffix: string)
    requires suffix !in Table.Keys
    ensures GetMimeType(suffix) == "text/plain"
  {
  }
}
