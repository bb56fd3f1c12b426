/** The files the scripts write, by name, with their contents. */
module OutputFiles {
  import opened Wrappers

  type Files = map<string, string>

  /** Content of a file, or `None` when it does not exist. */
  function Lookup(files: Files, name: string): (r: Option<string>)
    ensures r.Some? <==> name in files
    ensures r.Some? ==> r.value == files[name]
  {
    if name in files then Some(files[name]) else None
  }
}
