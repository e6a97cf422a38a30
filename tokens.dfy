/** Design tokens as the style-dictionary formats and filters of the build see them. */
module Tokens {
  import opened Wrappers

  /** A JavaScript value in a token's `value` slot. Strings are what the build
      inspects; any other value (a number, a composite object) is kept opaque,
      with the text a template literal turns it into and its truthiness. */
  datatype Value = Str(s: string) | Other(text: string, truthy: bool)

  /** JavaScript truthiness: the empty string is falsy. */
  predicate Truthy(v: Value) {
    match v
    case Str(s) => s != ""
    case Other(_, t) => t
  }

  /** `${v}` */
  function Text(v: Value): string {
    match v
    case Str(s) => s
    case Other(t, _) => t
  }

  /** One entry of `dictionary.allTokens`: its path, its resolved value,
      `original.value` and `original.filePath` (absent when `original` or the
      property is missing), its own `filePath`, and whether the
      `attribute/themeable` transform marked it. */
  datatype Token = Token(
    path: seq<string>,
    value: Value,
    originalValue: Option<Value>,
    filePath: Option<string>,
    originalFilePath: Option<string>,
    themeable: bool)

  /** `token.filePath || ''` */
  function FilePathOrEmpty(t: Token): string {
    t.filePath.GetOr("")
  }
}
