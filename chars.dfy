/**
  Character classes and single-character case mapping used by the identifier-case
  helpers of templates/input.ts, restricted to ASCII.

  JavaScript's `\w` is `[A-Za-z0-9_]`; its `\s` and `String.prototype.trim` remove,
  among ASCII characters, the space and the five control characters tab, line feed,
  vertical tab, form feed and carriage return. `toUpperCase`/`toLowerCase` are
  modelled on the ASCII letters only; every other character maps to itself.
 */
module Chars {

  predicate IsUpper(c: char) { 'A' <= c <= 'Z' }

  predicate IsLower(c: char) { 'a' <= c <= 'z' }

  predicate IsDigit(c: char) { '0' <= c <= '9' }

  /** `\w`: a letter, a digit or the underscore. */
  predicate IsWord(c: char) { IsUpper(c) || IsLower(c) || IsDigit(c) || c == '_' }

  /** `\s` (ASCII part): space, or one of U+0009 .. U+000D. */
  predicate IsSpace(c: char) { c == ' ' || '\t' <= c <= '\r' }

  /** The class `[_\-]` that `camel` turns into spaces. */
  predicate IsDashOrUnderscore(c: char) { c == '_' || c == '-' }

  /** The class `[\s\-]` that `snake` turns into underscores. */
  predicate IsSpaceOrDash(c: char) { IsSpace(c) || c == '-' }

  /** Anything that separates words for `camel`: whitespace, `_` or `-`. */
  predicate IsSeparator(c: char) { IsSpace(c) || IsDashOrUnderscore(c) }

  /** The first half of a camel hump, `[a-z0-9]`. */
  predicate IsLowerOrDigit(c: char) { IsLower(c) || IsDigit(c) }

  /** The regular-expression character classes the helpers match runs of. */
  datatype Class =
    | Space               // `\s`
    | DashOrUnderscore    // `[_\-]`
    | SpaceOrDash         // `[\s\-]`
    | Separator           // whitespace, `_` or `-`
    | Upper               // `[A-Z]`

  predicate In(cls: Class, c: char) {
    match cls
    case Space => IsSpace(c)
    case DashOrUnderscore => IsDashOrUnderscore(c)
    case SpaceOrDash => IsSpaceOrDash(c)
    case Separator => IsSeparator(c)
    case Upper => IsUpper(c)
  }

  function ToUpper(c: char): (r: char)
    ensures IsLower(c) ==> IsUpper(r) && r as int == c as int - 32
    ensures !IsLower(c) ==> r == c
  {
    if IsLower(c) then (c as int - 32) as char else c
  }

  function ToLower(c: char): (r: char)
    ensures IsUpper(c) ==> IsLower(r) && r as int == c as int + 32
    ensures !IsUpper(c) ==> r == c
  {
    if IsUpper(c) then (c as int + 32) as char else c
  }

  /** Re-casing never turns a character into, or out of, a word character or a separator. */
  lemma CaseKeepsClasses(c: char)
    ensures IsWord(ToUpper(c)) == IsWord(c) && IsWord(ToLower(c)) == IsWord(c)
    ensures IsSeparator(ToUpper(c)) == IsSeparator(c) && IsSeparator(ToLower(c)) == IsSeparator(c)
    ensures IsSpaceOrDash(ToLower(c)) == IsSpaceOrDash(c)
    ensures !IsUpper(ToLower(c))
    ensures ToUpper(ToUpper(c)) == ToUpper(c) && ToLower(ToLower(c)) == ToLower(c)
    ensures ToLower(ToUpper(c)) == ToLower(c)
  {
  }
}
