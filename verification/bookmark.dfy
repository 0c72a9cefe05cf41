/** The record both browser parsers produce, and the failures that end an
    extraction. */
module Bookmarks {

  /** One bookmark or folder. `url == ""` marks a folder; `parent` holds the
      NAME of the containing folder (or of the Chromium root), not an id. */
  datatype Bookmark = Bookmark(id: string, name: string, url: string, parent: string)
  {
    predicate IsFolder() {
      url == ""
    }
  }

  /** Why an extraction stopped: a failed Go type assertion (a panic) or a
      `log.Fatal` call. */
  datatype Error =
    | NotAnObject          // the document or a child is not a JSON object
    | NotAString(key: string)  // a required member is absent or not a string
    | NoRoots              // `roots` is absent or not an object
    | RowUnreadable        // a result row could not be scanned into strings
    | RowIteration         // the row cursor reported an error after the last row
}
