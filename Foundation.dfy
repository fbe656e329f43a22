/**
 * The Foundation values the registries hold, and the file system they read fixtures from.
 *
 * The file system is an ordered tree: a directory lists its entries in the order the
 * shallow enumerator yields them (hidden entries already skipped), and either could be
 * listed or not. A file either has readable bytes or `Data(contentsOf:)` fails on it.
 */
module Foundation {
  import opened Wrappers

  newtype byte = x: int | 0 <= x < 256

  /** `Data`. */
  type Bytes = seq<byte>

  /** `NSError`, compared by domain and code. */
  datatype NSError = NSError(domain: string, code: int)

  const NSURLErrorDomain: string := "NSURLErrorDomain"
  const NSURLErrorTimedOut: int := -1001

  /** `HTTPURLResponse`: an object compared by identity; only its status code is read. */
  datatype HttpUrlResponse = HttpUrlResponse(identity: nat, statusCode: int)

  /** The URL of a file or directory, as its path components below the bundle root. */
  type Url = seq<string>

  datatype Entry =
    | File(name: string, contents: Option<Bytes>)
    | Folder(name: string, dir: Dir)

  /** A directory: `listable` is false when `FileManager` cannot enumerate it. */
  datatype Dir = Dir(listable: bool, entries: seq<Entry>)

  /** `url.isFile`. */
  predicate IsFile(e: Entry)
  {
    e.File?
  }

  /** `url.isDirectory`. */
  predicate IsFolder(e: Entry)
  {
    e.Folder?
  }
}
