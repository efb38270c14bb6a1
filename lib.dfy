/** The older six-kind `JsonValueKind` of src/lib.rs and its `from_char`,
    which guesses the kind of a value from its first character. */
module Lib {
  import opened Wrappers

  datatype JsonValueKind = Null | Bool | Number | String | Array | Object

  /** `from_char`: the kind a value starting with `c` has, if any. */
  function FromChar(c: char): (r: Option<JsonValueKind>)
    ensures r.Some? <==> c in "ntf\"[{" || '0' <= c <= '9'
    ensures r == Some(Number) <==> '0' <= c <= '9'
  {
    match c
    case 'n' => Some(Null)
    case 't' => Some(Bool)
    case 'f' => Some(Bool)
    case '"' => Some(String)
    case '[' => Some(Array)
    case '{' => Some(Object)
    case _ => if '0' <= c <= '9' then Some(Number) else None
  }

  /** Which characters start which kind: a value is recognised from exactly
      n, t, f, a digit, '"', '[' or '{'; '-' and whitespace are not among them. */
  lemma FromCharClassifies(c: char)
    ensures FromChar(c) == Some(Null) <==> c == 'n'
    ensures FromChar(c) == Some(Bool) <==> c == 't' || c == 'f'
    ensures FromChar(c) == Some(Number) <==> '0' <= c <= '9'
    ensures FromChar(c) == Some(String) <==> c == '"'
    ensures FromChar(c) == Some(Array) <==> c == '['
    ensures FromChar(c) == Some(Object) <==> c == '{'
    ensures FromChar(c).None? <==> !(c in "ntf\"[{" || '0' <= c <= '9')
    ensures FromChar('-').None? && FromChar(' ').None?
  {
  }
}
