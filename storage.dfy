/** The file store the account data lives in, and the foreign primitives the
    blob code calls. Files are an abstract map from path to bytes; the share
    list file `shares.json` is kept in its decoded form, since JSON is not
    part of this model, so a missing file and an unreadable one look alike. */
module Storage {

  import opened Wrappers
  import opened Ints

  type Bytes = seq<U8>

  class FileStore<S> {
    /** Raw files by path: account records (`data.json`) and blob files. */
    var files: map<string, Bytes>
    /** Share lists by the path of their `shares.json`. */
    var shareFiles: map<string, seq<S>>

    constructor (files: map<string, Bytes>, shareFiles: map<string, seq<S>>)
      ensures this.files == files && this.shareFiles == shareFiles
    {
      this.files := files;
      this.shareFiles := shareFiles;
    }
  }

  /** SHA-256 over bytes (as lower-case hex text) and the standard base64
      codec; the model assumes nothing about them. */
  datatype Primitives = Primitives(
    sha256: Bytes -> string,
    base64Encode: Bytes -> string,
    base64Decode: string -> Option<Bytes>)
}
