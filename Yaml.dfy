/**
 * What the YAML parser hands back. Parsing itself is a foreign library and is not
 * modelled: callers receive already-parsed values.
 */
module Yaml {

  /**
   * A YAML value. `Str` is a YAML string; `Atom` any other hashable scalar (number,
   * boolean, date) and `Unhashable` a nested sequence or mapping, each carrying the
   * text Python's `str()` gives for it.
   */
  datatype YamlValue = Null | Str(s: string) | Atom(text: string) | Unhashable(text: string)

  /** The outcome of `yaml.safe_load` on one fenced block body. */
  datatype ParsedBlock =
    | ParseError                                  // yaml.YAMLError
    | NotMapping                                  // parsed, but not a dict (a list, a scalar, None)
    | Mapping(entries: map<string, YamlValue>)    // a dict; keys that are not strings never match a lookup

  /** An empty Python list: the value `raw_card_data.get("tags", [])` falls back to. */
  const EmptyList: YamlValue := Unhashable("[]")

  /** Python's `str(v)`, also what an f-string interpolates. */
  function Show(v: YamlValue): string
  {
    match v
    case Null => "None"
    case Str(s) => s
    case Atom(t) => t
    case Unhashable(t) => t
  }

  /** `d.get(key, default)`. */
  function Get(d: map<string, YamlValue>, key: string, default: YamlValue): YamlValue
  {
    if key in d then d[key] else default
  }
}
