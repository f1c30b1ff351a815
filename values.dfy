/** Values shared by the whole model: an optional value and the values that
    can appear in the checker's configuration dictionary. */
module Values {

  datatype Option<+T> = None | Some(value: T)

  /** One download entry of the configuration, a mapping such as
      `{name: ..., url: ...}`. */
  type DownloadEntry = map<string, string>

  /** A value stored under a key of the configuration dictionary. */
  datatype Value =
    | Str(s: string)
    | Int(i: int)
    | StrList(items: seq<string>)
    | DownloadList(entries: seq<DownloadEntry>)

  /** The configuration dictionary, keyed by option name. */
  type Entries = map<string, Value>
}
