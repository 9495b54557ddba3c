/**
 * The data buildcv.py works on: the value trees tomllib produces (tables
 * become Python dicts, arrays become lists), the Python dict objects that
 * hold them, and the exceptions the script can raise.
 */
module TomlData {
  import opened Results

  /** A TOML scalar; floats, dates and times are kept as their Python str() text. */
  datatype Scalar = Str(s: string) | Int(i: int) | Bool(b: bool) | Other(text: string)

  /** A TOML value: a scalar, an array (a Python list) or a table (a Python dict). */
  datatype Toml =
    | Leaf(v: Scalar)
    | Array(items: seq<Toml>)
    | Table(entries: map<string, Toml>)

  /** The exceptions the modelled code raises. */
  datatype PyError =
    | KeyError(arg: string)
    | TypeError
    | NotAMapping
    | RuntimeError(msg: string)

  /** A Python dict object whose values are TOML values. */
  class Dict {
    var entries: map<string, Toml>

    constructor(entries: map<string, Toml>)
      ensures this.entries == entries
    {
      this.entries := entries;
    }
  }

  /** The value reached from `t` by following the keys of `path` through nested tables. */
  function At(t: Toml, path: seq<string>): Option<Toml>
    decreases |path|
  {
    if path == [] then Some(t)
    else if t.Table? && path[0] in t.entries then At(t.entries[path[0]], path[1..])
    else None
  }
}
