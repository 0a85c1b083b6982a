/** The converter's configuration: a record of two optional strings, as the
    TOML file or the built-in default supplies it. */
module Settings {
  import opened Wrappers

  datatype Config = Config(delimiter: Option<string>, url: Option<string>)

  const DefaultDelimiter: string := ","
  const DefaultUrl: string := "https://example.org"

  /** `Config::default`: both fields present. */
  function Default(): Config {
    Config(Some(DefaultDelimiter), Some(DefaultUrl))
  }

  /** The configuration `main` passes on: the one read from the file named
      with `--config` when there is one (`fromFile`), otherwise the default.
      The file's configuration is taken whole, so a field it omits stays absent. */
  function Resolve(fromFile: Option<Config>): (c: Config)
    ensures fromFile.None? ==> c.delimiter == Some(",") && c.url == Some("https://example.org")
    ensures fromFile.Some? ==> c == fromFile.value
  {
    match fromFile
    case None => Default()
    case Some(file) => file
  }

  /** A field missing from the configuration file is not filled in from the default. */
  lemma {:induction false} NoFieldDefaulting(delimiter: Option<string>, url: Option<string>)
    ensures Resolve(Some(Config(delimiter, url))).delimiter == delimiter
    ensures Resolve(Some(Config(delimiter, url))).url == url
  {
  }
}
