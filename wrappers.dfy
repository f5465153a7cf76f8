/** The optional value the downloader uses for "the server gave bytes" / "it did not". */
module Wrappers {
  datatype Option<+T> = None | Some(value: T)
}
