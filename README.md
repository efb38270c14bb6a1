# nojson core, modelled in Dafny

nojson is a dependency-free JSON library for Rust. This project models its core:

- **Parsing.** `JsonParser` of `src/parse.rs` turns a text into a flat index of
  `JsonValueIndexEntry` values. It has two comment handlers, plain JSON and
  JSONC. `src/parser.rs` holds an older, stricter parser.
- **The parsed view.** `RawJson` / `RawJsonValue` of `src/raw.rs` offer the
  accessors, `parent`, `get_value_by_position`, the `Children` and
  `JsonKeyValuePairs` iterators, `to_fixed_array`, `to_fixed_object` and the
  unescaper `to_unquoted_str`.
- **Conversions.** The `TryFrom<RawJsonValue>` conversions of
  `src/try_from_impls.rs`.
- **Serialisers.** The `DisplayJson` serialisers of `src/fmt.rs` and
  `src/format.rs`, and the `JsonFormatter` of `src/formatter.rs`.
- **Small types.** `JsonValueKind` (`src/kind.rs`, `src/lib.rs`) and
  `JsonParseError` (`src/parse_error.rs`).

Texts are byte sequences (`seq<Byte>`), and every position is a UTF-8 byte offset, as in the library.

How the modules map onto the source:

| Dafny module (file) | source | form |
|---|---|---|
| `Parse` (parse.dfy) | src/parse.rs | classes `JsonParser` and `CommentHandler` whose methods update the parser's fields; each is proved equal to a function of `ParseSpec` |
| `ParseSpec` (parse_spec.dfy) | src/parse.rs | the parser as recursive functions over positions |
| `ParseProofs` (parse_proofs.dfy) | src/parse.rs | the index is one well-formed tree; literals and numbers follow RFC 8259, strings the parser's string grammar `Grammar.StringContent` |
| `ParseOutcomes` (parse_outcomes.dfy) | src/parse.rs | exact error kinds and offsets |
| `Table`, `Tree` (table.dfy, tree.dfy) | src/parse.rs, src/raw.rs | the index, its well-formedness, children, depth |
| `Raw` (raw.dfy) | src/raw.rs | classes `RawJson`, `Children`, `JsonKeyValuePairs`; `RawJsonValue` as a value |
| `TryFrom` (try_from.dfy) | src/try_from_impls.rs | conversions as functions of a target type; `[T; N]` as a method with arrays |
| `Fmt`, `Escaping`, `Sinks` (fmt.dfy, escape.dfy, sink.dfy) | src/fmt.rs, src/format.rs | writers over a sink object that can fail |
| `Formatter` (formatter.dfy) | src/formatter.rs | the older array writer |
| `OldParser`, `OldParserSpec`, `OldParserProofs` | src/parser.rs | the older parser: methods, functions, lemmas |
| `Kind`, `Lib`, `ParseError` | src/kind.rs, src/lib.rs, src/parse_error.rs | datatypes |
| `Grammar`, `Decimal`, `Utf8`, `Bytes`, `Seqs`, `Wrappers` | — | the token grammar the parsers accept (RFC 8259 literals and numbers; the parsers' own string grammar), decimal text, UTF-8, helpers |

Some things in the source contradict each other. The model resolves them as follows:

- **`JsonParser::new` arity.** src/raw.rs:43 calls it with one argument, while
  src/parse.rs:60 takes a comment handler. `RawJson.Parse` passes the plain
  (no-comment) handler.
- **The boolean kind.** src/parse.rs:116 names `JsonValueKind::Boolean`, while
  src/kind.rs names the variant `Bool`. The model uses `Bool`.
- **Accessor names.** src/try_from_impls.rs calls `to_array`, `as_boolean_str`
  and `invalid`. These are taken to be `to_array_values`, `as_bool_str` and
  `JsonParseError::invalid_value` of src/raw.rs.

## Model

| member | source | states |
|---|---|---|
| Kind.PredicatesPartitionKinds | src/kind.rs:13-43 | each `is_*` predicate holds for exactly its own variant, and `is_number` exactly for Integer and Float |
| Kind.NameIsInjective | src/kind.rs:45-55 | `name` maps distinct kinds to distinct names, and the names that differ from the variant's are "boolean" for Bool and "number" for Integer (Float is "float") |
| Kind.JsonValueKind.Name | src/kind.rs:45-55 | the name is "number" exactly for Integer and "boolean" exactly for Bool |
| Kind.JsonValueKind.IsNumber | src/kind.rs:29-31 | `is_number` holds exactly when `is_integer` or `is_float` does |
| Kind.OrderFollowsDeclaration | src/kind.rs:1-10 | the derived order is a strict total order following the declaration, Null < Bool < … < Object |
| Lib.FromCharClassifies | src/lib.rs:12-22 | `from_char` gives Null exactly for 'n', Bool for 't'/'f', Number for digits, String for '"', Array for '[', Object for '{', None for anything else, '-' and blanks included |
| Lib.FromChar | src/lib.rs:12-22 | `from_char` recognises exactly 'n', 't', 'f', '"', '[', '{' and the digits, and gives Number exactly for a digit |
| ParseError.JsonParseError.Position | src/parse_error.rs:43-53 | `position()` returns the offset stored in every variant unchanged |
| ParseSpec.TrimStartMatches | src/parse.rs:87-94 | `trim_start_matches` stops at the end or at the first byte not matching the pattern |
| ParseSpec.TrimmedBytesMatch | src/parse.rs:87-94 | every skipped byte matches the pattern |
| ParseSpec.FindBlockEnd | src/parse.rs:38-42 | the block-comment terminator search finds the first `*/` at or after the position, or reports that none exists |
| ParseSpec.JsoncComments | src/parse.rs:28-48 | the JSONC handler stops where no comment starts and only adds ranges to those already recorded |
| ParseSpec.HandleComment | src/parse.rs:10-48 | the plain handler returns the text unchanged; either handler only moves forward and only adds comment ranges; after the JSONC handler no comment starts |
| ParseSpec.SkipWsAndComments | src/parse.rs:87-94 | skipping stops at the end or at a non-blank byte, keeps kind and index, and fails only in JSONC mode, with an unexpected end of the current kind |
| ParseSpec.JsoncCommentsEndAfterWhitespace | src/parse.rs:28-48 | after comments, the handler's stop is preceded only by whitespace it skipped |
| ParseSpec.PushEntry | src/parse.rs:294-307 | `push_entry(len)` appends one entry and moves the position by `len`, keeping the earlier entries |
| ParseSpec.FinalizeEntry | src/parse.rs:309-312 | `finalize_entry` changes only entry `index` and the entries after it, and neither position nor kind |
| ParseSpec.FirstMismatch | src/parse.rs:123-141 | the first offset where the text differs from the literal's suffix, with all earlier bytes equal |
| ParseSpec.ParseLiteral | src/parse.rs:111-141 | a literal adds entries and advances, or fails with an unexpected end at the text's end or an unexpected character inside the text |
| ParseSpec.StripDigits | src/parse.rs:193-198 | fails exactly when no digit is at `s`, with the error at `s`; otherwise stops after the last digit |
| ParseSpec.StrippedDigits | src/parse.rs:193-198 | what it strips is a non-empty digit run |
| ParseSpec.StripChar | src/parse.rs:188-191 | succeeds exactly when the byte is `c`, moving one past it; otherwise the error at `s` |
| ParseSpec.NumberInt | src/parse.rs:154-165 | the integer part advances, or fails with a syntax error at or after the start |
| ParseSpec.NumberFrac | src/parse.rs:166-172 | the kind stays Integer exactly when no fraction is consumed |
| ParseSpec.NumberExp | src/parse.rs:173-180 | the exponent consumes nothing, or more bytes and makes the kind Float |
| ParseSpec.ParseNumber | src/parse.rs:153-186 | a number adds entries and advances, or fails with a syntax error |
| ParseSpec.Escape | src/parse.rs:276-288 | an escape takes at least two bytes, or fails with a syntax error |
| ParseSpec.StringEnd | src/parse.rs:264-292 | the string loop ends at a closing quote inside the text, the escape flag only ever set |
| ParseSpec.ParseString | src/parse.rs:264-292 | a string pushes exactly one String entry from its opening to after its closing quote |
| ParseSpec.StringPushed | src/parse.rs:289-291 | the push and the escaped-flag update leave that one entry |
| ParseSpec.ParseValue | src/parse.rs:96-109 | one value adds entries, keeps the earlier ones and advances, or fails with a syntax error at or after the start |
| ParseSpec.ValueAt | src/parse.rs:96-109 | dispatch on the first byte keeps the same guarantee |
| ParseSpec.ParseArray | src/parse.rs:237-262 | an array keeps the parse-value guarantee |
| ParseSpec.ArrayOpened | src/parse.rs:238-246 | "[]" or the placeholder and the loop keep it |
| ParseSpec.ArrayElements | src/parse.rs:247-261 | the element loop keeps the entries before the array's placeholder |
| ParseSpec.ArrayAfterElement | src/parse.rs:249-250 | the blanks after an element keep it |
| ParseSpec.ArrayNext | src/parse.rs:251-259 | ']' or ',' after an element keeps it |
| ParseSpec.ParseObject | src/parse.rs:200-235 | an object keeps the parse-value guarantee |
| ParseSpec.ObjectOpened | src/parse.rs:201-209 | "{}" or the placeholder and the loop keep it |
| ParseSpec.ObjectMembers | src/parse.rs:210-234 | the member loop (string key first) keeps it |
| ParseSpec.ObjectAfterKey | src/parse.rs:214-216 | blanks and ':' after the key keep it |
| ParseSpec.ObjectValue | src/parse.rs:217 | the member value keeps it |
| ParseSpec.ObjectAfterValue | src/parse.rs:218-219 | the blanks after the value keep it |
| ParseSpec.ObjectNext | src/parse.rs:220-233 | '}' or ',' after a member keeps it |
| ParseSpec.Parse | src/parse.rs:70-74 | success gives a non-empty index and extends the comment list; failure is a syntax error or a trailing character |
| ParseSpec.CheckTrailingChar | src/parse.rs:76-85 | success means the whole text was consumed; failure is an unexpected end or a trailing character of the value's kind at or after its end |
| Parse.CommentHandler.constructor | src/parse.rs:15-27 | a handler of the given mode with no recorded comments |
| Parse.CommentHandler.HandleComment | src/parse.rs:17-48 | `handle_comment` computes `JsoncComments` (JSONC) or returns the position unchanged (plain), recording the same ranges |
| Parse.JsonParser.constructor | src/parse.rs:60-68 | a parser at offset 0 with no kind and no entries |
| Parse.JsonParser.Parse | src/parse.rs:70-74 | the method's result is exactly `ParseSpec.Parse` |
| Parse.JsonParser.CheckTrailingChar | src/parse.rs:76-85 | computes `ParseSpec.CheckTrailingChar` on the parser's state |
| Parse.JsonParser.SkipWhitespacesAndComments | src/parse.rs:87-94 | computes `ParseSpec.SkipWsAndComments` |
| Parse.JsonParser.ParseValue | src/parse.rs:96-109 | computes `ParseSpec.ParseValue` |
| Parse.JsonParser.ValueAt | src/parse.rs:100-108 | computes `ParseSpec.ValueAt` |
| Parse.JsonParser.ParseLiteral | src/parse.rs:123-141 | computes `ParseSpec.ParseLiteral` |
| Parse.JsonParser.FirstMismatch | src/parse.rs:130-137 | the zipped loop returns `ParseSpec.FirstMismatch` |
| Parse.JsonParser.ParseNumber | src/parse.rs:153-186 | computes `ParseSpec.ParseNumber` |
| Parse.JsonParser.ParseString | src/parse.rs:264-292 | computes `ParseSpec.ParseString` |
| Parse.JsonParser.ParseArray | src/parse.rs:237-262 | computes `ParseSpec.ParseArray` |
| Parse.JsonParser.ArrayLoop | src/parse.rs:247-261 | computes `ParseSpec.ArrayElements` |
| Parse.JsonParser.ArrayRound | src/parse.rs:248-260 | one round ends the array or continues, as `ArrayElements` does |
| Parse.JsonParser.ParseObject | src/parse.rs:200-235 | computes `ParseSpec.ParseObject` |
| Parse.JsonParser.ObjectLoop | src/parse.rs:210-234 | computes `ParseSpec.ObjectMembers` |
| Parse.JsonParser.ObjectRound | src/parse.rs:211-233 | one round ends the object or continues, as `ObjectMembers` does |
| Parse.JsonParser.ObjectMemberValue | src/parse.rs:214-219 | ':' and the value, as `ObjectAfterKey` does |
| Parse.JsonParser.ObjectNext | src/parse.rs:220-233 | '}' or ',', as `ObjectAfterValue` does |
| Parse.JsonParser.PushEntry | src/parse.rs:294-307 | the new state is `ParseSpec.PushEntry` of the old one |
| Parse.JsonParser.FinalizeEntry | src/parse.rs:309-312 | the new state is `ParseSpec.FinalizeEntry` of the old one |
| ParseProofs.ParseWellFormed | src/parse.rs:70-74 | on success the index is one well-formed tree rooted at entry 0: each entry's subtree ends in the index, leaves end at i+1, composites one past their last descendant, children inside their parent, and each token follows the token grammar of `Grammar` (RFC 8259 literals and numbers, the parser's string grammar `Grammar.StringContent`) |
| ParseProofs.ValueWF | src/parse.rs:96-109 | `parse_value` appends exactly one well-formed subtree lying between its start and end positions |
| ParseProofs.ValueAtWF | src/parse.rs:100-108 | the same for each kind of value |
| ParseProofs.ArrayWF | src/parse.rs:237-262 | an array adds one subtree whose children are its elements |
| ParseProofs.ArrayOpenedWF | src/parse.rs:238-246 | "[]" is one leaf-shaped entry; otherwise the placeholder opens the array |
| ParseProofs.ArrayElementsWF | src/parse.rs:247-261 | each element extends the open array |
| ParseProofs.ArrayAfterElementWF | src/parse.rs:249-250 | skipping blanks keeps the array open |
| ParseProofs.ArrayNextWF | src/parse.rs:251-259 | ']' closes the array into one subtree; ',' keeps it open |
| ParseProofs.ObjectWF | src/parse.rs:200-235 | an object adds one subtree whose children pair up as key, value |
| ParseProofs.ObjectOpenedWF | src/parse.rs:201-209 | "{}" is one entry; otherwise the placeholder opens the object |
| ParseProofs.ObjectMembersStep | src/parse.rs:210-213 | one member round is the key, then the rest of the round |
| ParseProofs.ObjectMembersWF | src/parse.rs:210-234 | each member extends the open object by a key and a value |
| ParseProofs.ObjectAfterKeyWF | src/parse.rs:214-216 | the key stays pending through ':' |
| ParseProofs.ObjectValueWF | src/parse.rs:217 | the value completes the member |
| ParseProofs.ObjectAfterValueWF | src/parse.rs:218-219 | skipping blanks keeps the object open |
| ParseProofs.ObjectNextClose | src/parse.rs:220-223 | '}' closes the object |
| ParseProofs.ObjectNextComma | src/parse.rs:224-233 | ',' and blanks start the next member |
| ParseProofs.ObjectNextWF | src/parse.rs:220-233 | '}' closes the object into one subtree; ',' keeps it open |
| ParseProofs.KeyOpen | src/parse.rs:210-213 | after a key the object is open with the key as its last entry |
| ParseProofs.FinalizeClose | src/parse.rs:309-312 | `finalize_entry` after the closing bracket turns the placeholder and the elements into one subtree |
| ParseProofs.LeafTree | src/parse.rs:294-307 | a pushed leaf entry is a subtree on its own |
| ParseProofs.OpenExtend | src/parse.rs:246-250 | a container's elements grow by one value starting after the previous one |
| ParseProofs.OpenAddMember | src/parse.rs:214-219 | a value after a pending key completes an object member |
| ParseProofs.OpenWiden | src/parse.rs:249-259 | an open container may extend to a later bound |
| ParseProofs.PairsFrame | src/parse.rs:294-307 | key/value pairing only depends on the entries it spans |
| ParseProofs.SegmentFrame | src/parse.rs:294-307 | a sequence of subtrees only depends on its own entries |
| ParseProofs.SegmentJoin | src/parse.rs:246-259 | two adjacent sequences of subtrees, disjoint in the text, form one |
| ParseProofs.PairsAppend | src/parse.rs:214-219 | a key followed by one value extends the pairing |
| ParseProofs.LiteralToken | src/parse.rs:123-141 | a literal's entry spans its first byte and the whole suffix |
| ParseProofs.LiteralMismatch | src/parse.rs:123-141 | a failing literal is reported at its first differing byte, or as an unexpected end when the text stops first |
| ParseProofs.NumberIntToken | src/parse.rs:154-165 | the integer part stops after an RFC 8259 `int` |
| ParseProofs.NumberFracToken | src/parse.rs:166-172 | the fraction part consumes nothing or an RFC 8259 `frac` |
| ParseProofs.NumberExpToken | src/parse.rs:173-180 | the exponent part consumes nothing or an RFC 8259 `exp` |
| ParseProofs.NumberSplitOf | src/parse.rs:153-186 | the three parts split the token as the grammar does |
| ParseProofs.NumberScanText | src/parse.rs:153-186 | the three stages scan an RFC 8259 number, Integer exactly when neither fraction nor exponent is present |
| ParseProofs.NumberToken | src/parse.rs:153-186 | `parse_number` pushes one entry whose text is an RFC 8259 number, Integer exactly without fraction and exponent |
| ParseProofs.PlainContent | src/parse.rs:268-273 | bytes that stand for themselves form string content without a backslash |
| ParseProofs.PlainThenContent | src/parse.rs:268-273 | plain bytes may precede any string content |
| ParseProofs.EscapeToken | src/parse.rs:276-288 | an accepted escape is a backslash and a simple escape letter, or `u` and four bytes denoting a character |
| ParseProofs.EscapeThenContent | src/parse.rs:276-288 | an accepted escape followed by string content is string content |
| ParseProofs.PlainRun | src/parse.rs:268-273 | the run `trim_start_matches` skips inside a string is content without a backslash |
| ParseProofs.PlainThenEscape | src/parse.rs:268-288 | plain bytes followed by content starting with a backslash is content |
| ParseProofs.StringEndContent | src/parse.rs:264-292 | the string loop accepts only content of the parser's string grammar `Grammar.StringContent`, and the flag says whether a backslash occurred |
| ParseProofs.ContentRun | src/parse.rs:268 | within string content, the run of plain bytes stops inside the content, and the rest is content again |
| ParseProofs.ContentEscape | src/parse.rs:275-288 | inside string content, a byte that is not plain starts an escape the loop accepts, and the content goes on after it |
| ParseProofs.ContentAccepted | src/parse.rs:264-292 | conversely, the loop accepts all content of the parser's string grammar `Grammar.StringContent` followed by a quote, stops at that quote, and sets the flag exactly when a backslash occurred |
| ParseProofs.StringToken | src/parse.rs:264-292 | `parse_string` pushes one String entry whose text is a string of the parser's string grammar `Grammar.StringText`, flagged escaped exactly when its content has a backslash |
| Grammar.DelRefused | src/parse.rs:269 | a raw DEL (0x7F) is not string content, because `is_ascii_control` includes it |
| Grammar.SurrogatePairRefused | src/parse.rs:283-288 | the escaped surrogate pair `\uD83D\uDE00` is not string content: `char::from_u32` refuses the high half alone |
| Grammar.PlusSignedEscapeTaken | src/parse.rs:283-288 | `\u+abc` is string content: `u32::from_str_radix` takes a leading '+' |
| Grammar.HexValueOfFour | src/parse.rs:286 | four hexadecimal digits have the value of the positional sum |
| ParseProofs.LiteralTree | src/parse.rs:111-141 | a literal is a subtree of one entry |
| ParseProofs.StringTree | src/parse.rs:264-292 | a string is a subtree of one entry |
| ParseProofs.NumberTree | src/parse.rs:153-186 | a number is a subtree of one entry |
| ParseOutcomes.BlankText | src/parse.rs:322-327 | the empty or all-whitespace text fails with an unexpected end, no kind, at its length ("" at 0, "    " at 4) |
| ParseOutcomes.NoSkip | src/parse.rs:87-94 | at a byte that is neither blank nor `/` skipping stops at once, whichever handler, leaving the state unchanged |
| ParseOutcomes.FirstValue | src/parse.rs:96-109 | a text starting with such a byte dispatches on it at once |
| ParseOutcomes.ValueFails | src/parse.rs:70-74 | an error of the top-level value is the error of the whole parse |
| ParseOutcomes.NotAValueStart | src/parse.rs:96-108 | a text starting with a byte that starts no value (`e`, `+`, `.` …) fails with an unexpected character, no kind, at 0 |
| ParseOutcomes.ValueThenByte | src/parse.rs:76-85 | a value followed directly by a byte other than blank or '/' gives a trailing character at that byte, of the value's kind |
| ParseOutcomes.IntegerValue | src/parse.rs:153-186 | an integer part not followed by `.`, `e` or `E` is a whole Integer value; a following byte is a trailing character |
| ParseOutcomes.LeadingZero | src/parse.rs:157-159 | "0" followed by a digit ("0123", "00") fails as a trailing Integer character at 1 |
| ParseOutcomes.NegativeLeadingZero | src/parse.rs:157-159 | "-0" followed by a digit fails as a trailing Integer character at 2 |
| ParseOutcomes.LiteralMismatchAt | src/parse.rs:123-141 | "nuL" fails with an unexpected Null character at 2 |
| ParseOutcomes.LiteralCutShort | src/parse.rs:123-141 | "nul" fails with an unexpected end of a Null at 3 |
| ParseOutcomes.FalseMismatchAt | src/parse.rs:123-141 | "fale" fails with an unexpected Bool character at 3 |
| ParseOutcomes.TrimTo | src/parse.rs:268 | `trim_start_matches` stops at the first byte that does not match |
| ParseOutcomes.StringControlByte | src/parse.rs:268-276 | a raw ASCII control byte inside a string fails with an unexpected String character at that byte |
| ParseOutcomes.StringUnterminated | src/parse.rs:268-276 | a string running to the end of the text fails with an unexpected end of a String at the text's length |
| ParseOutcomes.StringCutAfterBackslash | src/parse.rs:275-280 | a text ending right after a backslash fails with an unexpected end of a String |
| ParseOutcomes.StringBadEscape | src/parse.rs:277-281 | a backslash followed by a byte that is neither a simple escape letter nor `u` fails with an unexpected String character at that byte |
| ParseOutcomes.StringShortUnicode | src/parse.rs:281-284 | `\u` followed by fewer than four bytes fails with an unexpected end of a String at the text's length |
| ParseOutcomes.StringBadUnicode | src/parse.rs:285-288 | `\u` followed by four bytes that are not a hexadecimal scalar value fails with an unexpected String character at the first of them |
| ParseOutcomes.BlankThenString | src/parse.rs:96-109 | a string after leading whitespace fails exactly as its loop does |
| ParseOutcomes.BadEscapeExample | src/parse.rs:277-281 | ` "ab\xc" ` fails with an unexpected String character at 5 |
| ParseOutcomes.BadUnicodeExample | src/parse.rs:285-288 | ` "ab\uXyz0c" ` fails with an unexpected String character at 6 |
| ParseOutcomes.ShortUnicodeExample | src/parse.rs:281-284 | ` "ab\u01` fails with an unexpected end of a String at 8 |
| ParseOutcomes.ControlByteExample | src/parse.rs:268-276 | a line feed inside ` "a\nb"` (a raw byte 0x0A) fails with an unexpected String character at 3 |
| ParseOutcomes.DoubleMinus | src/parse.rs:154-165 | "--1" fails with an unexpected Integer character at 1 |
| ParseOutcomes.DoubleDot | src/parse.rs:166-172 | "1..2" fails with an unexpected Float character at 2 |
| ParseOutcomes.ExponentTwoSigns | src/parse.rs:173-180 | "1e+-3" fails with an unexpected Float character at 3 |
| ParseOutcomes.FractionCutShort | src/parse.rs:143-151 | "123." fails with an unexpected end of a Float at 4, not an unexpected character |
| ParseOutcomes.SecondValue | src/parse.rs:76-85 | "false true" fails with a trailing Bool character at 6 |
| ParseOutcomes.ArrayTrailingComma | src/parse.rs:251-259 | ',' then ']' inside an array is an unexpected Array character at the ']' ("[1,2,]" at 5) |
| ParseOutcomes.ArrayBadSeparator | src/parse.rs:251-259 | after an element anything but ']' or ',' is an unexpected Array character there, or an unexpected end at the text's end |
| ParseOutcomes.ArrayLeadingComma | src/parse.rs:238-250 | ',' right after '[' is an unexpected Array character |
| ParseOutcomes.ObjectKeyNotString | src/parse.rs:210-213 | a key that does not start with '"' is an unexpected Object character |
| ParseOutcomes.ObjectMissingColon | src/parse.rs:214-216 | a byte other than ':' after a key is an unexpected Object character |
| ParseOutcomes.ObjectTrailingComma | src/parse.rs:224-233 | ',' then '}' inside an object is an unexpected Object character at the '}' (`{"foo":"bar",}` at 13) |
| ParseOutcomes.ObjectBadSeparator | src/parse.rs:220-233 | after a member anything but '}' or ',' (the ']' of `{"foo":[]]}`) is an unexpected Object character, or an unexpected end |
| ParseOutcomes.UnterminatedBlockComment | src/parse.rs:36-42 | with the JSONC handler a `/*` never closed is an unexpected end at the text's end, of the current kind |
| ParseOutcomes.LineCommentRange | src/parse.rs:30-35 | a line comment is recorded after the earlier ranges, from `//` up to the next line feed (excluded) or the end |
| ParseOutcomes.CommentWithoutHandler | src/parse.rs:17-21 | without comment handling "1 //" fails with a trailing Integer character at 2 |
| ParseOutcomes.CommentWithHandler | src/parse.rs:28-48 | with the JSONC handler "1 //" is one Integer entry and the comment range [2, 4) |
| Tree.WellFormedNested | src/parse.rs:294-312 | a well-formed index is nested: subtrees are non-empty entry ranges, byte ranges non-empty, any two entries nested or disjoint |
| Tree.ChildrenFrom | src/raw.rs:406-417 | hopping along `end_index` from `c` visits entries between `c` and `e`, starting with `c` |
| Tree.SubtreeChain | src/raw.rs:399-417 | inside a subtree, hopping from any entry reaches the subtree's end, so `Children` terminates |
| Tree.ChildrenOf | src/raw.rs:393-417 | the direct children of an entry lie strictly inside its subtree |
| Tree.ChainOrder | src/raw.rs:406-417 | children met earlier end their subtrees before later ones start |
| Tree.ChainCover | src/raw.rs:406-417 | every entry of a subtree lies under exactly one of its direct children |
| Tree.SiblingsDisjoint | src/raw.rs:406-417 | two direct children have disjoint byte ranges, in order |
| Tree.InsideAncestor | src/parse.rs:294-312 | a descendant's byte range lies inside its ancestor's |
| Tree.FirstContaining | src/raw.rs:101-110 | `find` returns the first child whose range contains the position, or None when none does |
| Tree.Deepest | src/raw.rs:101-110 | the descent of `get_value_by_position` stays inside the starting subtree |
| Tree.DeepestContains | src/raw.rs:101-110 | the value reached contains the position and none of its children does |
| Tree.DeepestIsDeepest | src/raw.rs:101-110 | every value containing the position is an ancestor of (or equal to) the value reached |
| Tree.ParentExists | src/raw.rs:192-197 | every entry but the root is a direct child of some entry |
| Tree.ParentIsDeepestBefore | src/raw.rs:192-197 | the byte before a child starts lies in the root, and its deepest container is the child's parent |
| Tree.MembersFrom | src/raw.rs:420-440 | member pairs are a string key and the entry right after it |
| Tree.PairsChain | src/raw.rs:420-440 | an object's children alternate key, value: even places are keys, the ones after them values |
| Raw.UnescapePlain | src/raw.rs:240-242 | content without a backslash unescapes to itself, so borrowing it is right |
| Raw.UnescapeShorter | src/raw.rs:244 | unescaping never lengthens the text |
| Raw.AsWrittenKeepsLetter | src/raw.rs:252 | as written, the escaped newline `\n` unescapes to the letter `n`, not to a line feed |
| Raw.EscapedByte | src/raw.rs:252 | the corrected byte of a simple escape: '"', '\\' and '/' stand for themselves, the other letters for control bytes below 0x20; any other byte is unchanged |
| Raw.Unescape | src/raw.rs:235-273 | the corrected unescaper: content without a backslash denotes itself |
| Raw.UnescapeAsWritten | src/raw.rs:246-269 | the unescaper as written: content without a backslash denotes itself (see Raw.AsWrittenKeepsLetter for where it goes wrong) |
| Raw.IndexOf | src/raw.rs:354-357 | `position` gives the first place of the name, or None exactly when it is absent |
| Raw.UnescapeBytes | src/raw.rs:244-271 | the unescaping loop returns exactly the corrected `Unescape` of the content (a simple escape yields the byte it stands for, not the letter src/raw.rs:252 pushes) |
| Raw.UnescapeOne | src/raw.rs:246-269 | one round consumes one byte or escape and yields what it denotes under the corrected `Unescape` |
| Raw.UnescapeStep | src/raw.rs:246-269 | under the corrected `Unescape`, a plain byte is itself, a simple escape the byte it stands for (where src/raw.rs:252 keeps the letter), `\uXXXX` the UTF-8 of its code |
| Raw.RawJson.Parse | src/raw.rs:42-45 | success exactly when the parser succeeds with the plain handler; the result holds the text and the parser's index, which is well formed; a failure is the parser's error |
| Raw.RawJson.Value | src/raw.rs:68-73 | `value()` is entry 0, whose subtree is the whole index |
| Raw.RawJson.GetValueByPosition | src/raw.rs:101-110 | None exactly when the position is outside the root's range; otherwise the deepest value containing it, inside every value that contains it |
| Raw.RawJsonValue.ChildIndices | src/raw.rs:393-417 | the children lie inside this value's subtree |
| Raw.RawJsonValue.AsRawStr | src/raw.rs:207-210 | exactly `text[start..end]`: a spelled-out literal, an RFC 8259 number, a string with its quotes (escaped flag iff a backslash inside), or bracketed text |
| Raw.RawJsonValue.Kind | src/raw.rs:184-186 | in a well-formed index the value's position lies in the text and its byte starts a token of the kind: 'n' for Null, 't' or 'f' for Bool, '"', '[' and '{' for String, Array and Object |
| Raw.RawJsonValue.Position | src/raw.rs:203-205 | in a well-formed index the position lies inside the text |
| Raw.RawJsonValue.KindMismatch | src/raw.rs:279-289 | an invalid-value error of this value's kind, at its position, naming the expected kinds and the kind found |
| Raw.RawJsonValue.FixedObject | src/raw.rs:338-377 | a non-object fails with the kind error; every failure is an invalid value at this value's position; a success has one slot per required and one per optional name |
| Raw.RawJsonValue.Expect | src/raw.rs:275-292 | succeeds with this value exactly when its kind is accepted, else the kind error at this value |
| Raw.RawJsonValue.AsBoolStr | src/raw.rs:212-214 | succeeds exactly for Bool, with "true" or "false" |
| Raw.RawJsonValue.AsIntegerStr | src/raw.rs:216-219 | succeeds exactly for Integer, with integer text |
| Raw.RawJsonValue.AsFloatStr | src/raw.rs:221-223 | succeeds exactly for Float, with float text |
| Raw.RawJsonValue.AsNumberStr | src/raw.rs:225-228 | succeeds exactly for Integer or Float |
| Raw.RawJsonValue.Content | src/raw.rs:236-238 | a string's content is grammar content, with a backslash exactly when flagged escaped |
| Raw.RawJsonValue.Unquoted | src/raw.rs:235-273 | a non-string is its raw text; a string unescapes its content, borrowed exactly when not escaped |
| Raw.RawJsonValue.ToUnquotedStr | src/raw.rs:235-273 | the method returns `Unquoted()` |
| Raw.RawJsonValue.ToUnquotedStringStr | src/raw.rs:230-233 | succeeds exactly for a string, with its unescaped text |
| Raw.RawJsonValue.Parent | src/raw.rs:192-197 | None exactly for the root; otherwise an earlier entry of which this one is a direct child |
| Raw.RawJsonValue.ToArrayValues | src/raw.rs:294-298 | succeeds exactly for an array, iterating over its children |
| Raw.RawJsonValue.FixedArray | src/raw.rs:300-326 | success holds exactly the `n` children in order |
| Raw.RawJsonValue.ToFixedArray | src/raw.rs:300-326 | exactly `n` elements in document order; fewer is "got only" and more "got N+extra" at the array, and a non-array is the kind error |
| Raw.RawJsonValue.Members | src/raw.rs:420-440 | member pairs lie after this object's entry |
| Raw.RawJsonValue.ToObjectMembers | src/raw.rs:328-336 | succeeds exactly for an object, iterating over its member pairs |
| Raw.RawJsonValue.Entries | src/raw.rs:352-356 | one (key, value) per member, the value being the member's entry |
| Raw.RawJsonValue.MemberEntries | src/raw.rs:351-361 | no member value is the object itself |
| Raw.RawJsonValue.FixedObjectResult | src/raw.rs:338-377 | succeeds exactly when every required name is found; each slot holds the last member of its name; absent optional names stay None; otherwise one error at the object lists the missing names in order |
| Raw.RawJsonValue.ToFixedObject | src/raw.rs:338-377 | the method returns `FixedObject` |
| Raw.RawJsonValue.FillSlots | src/raw.rs:351-361 | the member loop computes `Fill` over the members in order |
| Raw.RawJsonValue.FillRound | src/raw.rs:351-361 | one round stores one member or reports exhaustion |
| Raw.CollectMissing | src/raw.rs:363-374 | the missing-name check returns `MissingNames` |
| Raw.TakeInto | src/raw.rs:305-312 | the filling loop takes as many children as fit, in order |
| Raw.Put | src/raw.rs:352-360 | a member goes to its name's first required slot, else its first optional slot, else nowhere |
| Raw.StoreMember | src/raw.rs:352-360 | the arrays become `Put` of their old contents |
| Raw.Fill | src/raw.rs:351-361 | the loop keeps the slot counts |
| Raw.LastValueOf | src/raw.rs:351-361 | the value of the last member of that name, None exactly when no member has it |
| Raw.FillLastWins | src/raw.rs:351-361 | after the loop each slot holds the last member of its name, if the slot is that name's first place |
| Raw.NotFoundEmpty | src/raw.rs:363-374 | the missing list is empty exactly when every required name is found |
| Raw.MissingAreNotFound | src/raw.rs:363-374 | the slots still holding the object are exactly the names not found |
| Raw.Children.constructor | src/raw.rs:399-403 | the iterator starts at the entry after the parent and will yield its direct children |
| Raw.Children.Next | src/raw.rs:409-416 | `next` yields the next direct child and skips its subtree, None when exhausted |
| Raw.Children.Count | src/raw.rs:406-417 | counting consumes the children and returns how many there were |
| Raw.Children.Find | src/raw.rs:104-109 | `find` returns the first child whose range contains the position |
| Raw.JsonKeyValuePairs.constructor | src/raw.rs:425-430 | the iterator yields the object's members |
| Raw.JsonKeyValuePairs.Next | src/raw.rs:435-439 | `next` yields (key, value); a key's value always follows |
| TryFrom.IntFromStr | src/try_from_impls.rs:17-26 | `from_str` of an integer type: the sign rules and the digit loop |
| TryFrom.Accumulate | src/try_from_impls.rs:17-26 | the digit loop reports the first non-digit or the first out-of-range prefix |
| TryFrom.AccumulateDigits | src/try_from_impls.rs:17-26 | on digits it fails only by overflow, exactly when the value is out of range |
| TryFrom.IntegerTextFromStr | src/try_from_impls.rs:17-26 | an integer token gives its value in range, else the overflow on its side; an unsigned type rejects "-0" |
| TryFrom.AccumulateFailurePersists | src/try_from_impls.rs:17-26 | a failure on a prefix is the failure of the whole run |
| TryFrom.FromStr | src/try_from_impls.rs:6-26 | `bool` accepts exactly "true"/"false"; NonZero parses and rejects 0; String cannot fail |
| TryFrom.ParseAt | src/try_from_impls.rs:12-13 | a parse failure becomes an error at the given value |
| TryFrom.FromUnquoted | src/try_from_impls.rs:244-261 | strings and map keys are unquoted, then parsed |
| TryFrom.ConvertScalar | src/try_from_impls.rs:6-26 | the scalar conversions check the kind first, then parse |
| TryFrom.Convert | src/try_from_impls.rs:338-701 | every success has the target type |
| TryFrom.ConvertOption | src/try_from_impls.rs:338-351 | null is None; anything else is the inner result in Some |
| TryFrom.FirstFailure | src/try_from_impls.rs:353-366 | the first failing index, or the length |
| TryFrom.Collect | src/try_from_impls.rs:353-366 | `collect` into a Result: every value in order, or the first error |
| TryFrom.CollectAll | src/try_from_impls.rs:353-366 | with no failure, every value in order |
| TryFrom.Values | src/try_from_impls.rs:353-366 | the values of all-successful results, in order |
| TryFrom.ConvertElements | src/try_from_impls.rs:353-366 | elements converted in order, the first error aborting |
| TryFrom.Results | src/try_from_impls.rs:421-445 | one result per element, in order |
| TryFrom.Elements | src/try_from_impls.rs:356-363 | the children of an array, or the kind error |
| TryFrom.ConvertVec | src/try_from_impls.rs:353-381 | `Vec`/`VecDeque` convert element-wise in document order |
| TryFrom.VecConversion | src/try_from_impls.rs:353-381 | the first element that fails gives the error; otherwise each element's conversion, in order |
| TryFrom.ConvertSet | src/try_from_impls.rs:383-411 | `BTreeSet`/`HashSet`: a non-array gives the kind error; a success has the set type |
| TryFrom.SetConversion | src/try_from_impls.rs:383-411 | a set of an array converts every element in order: the first failing element gives the error, otherwise the set holds exactly the elements' conversions |
| TryFrom.ConvertArray | src/try_from_impls.rs:413-447 | `[T; N]`: arity first (a failing `to_fixed_array` gives its error unchanged); a success has the array type |
| TryFrom.ArrayFromValue | src/try_from_impls.rs:413-447 | the method with its loops returns `ConvertArray` |
| TryFrom.ArrayOfElements | src/try_from_impls.rs:413-447 | `ConvertArray` is the first error of the converted elements, or all of them |
| TryFrom.ConvertAll | src/try_from_impls.rs:421-430 | the conversion loop fills the array with each element's result |
| TryFrom.FirstError | src/try_from_impls.rs:431-445 | the loop finds the first error's index, or the length |
| TryFrom.ConvertTuple | src/try_from_impls.rs:449-653 | `()` and tuples: arity first (a failing `to_fixed_array` with the tuple's size gives its error unchanged); a success has the tuple type |
| TryFrom.ComponentResults | src/try_from_impls.rs:458-653 | one result per component, each element converted to the component type at its position |
| TryFrom.TupleConversion | src/try_from_impls.rs:449-653 | arity first; then the components convert left to right, the first failing one gives the error, and otherwise the list holds each component's value in order |
| TryFrom.UnitConversion | src/try_from_impls.rs:449-456 | `()` accepts exactly the empty array |
| TryFrom.ConvertMember | src/try_from_impls.rs:655-677 | a key is unquoted and parsed (errors at the key), then the value converted |
| TryFrom.MapFromPairs | src/try_from_impls.rs:655-701 | every map entry is one of the pairs |
| TryFrom.ToMap | src/try_from_impls.rs:655-701 | `collect` into a map: empty exactly for no pairs, the last pair's key holds its value, and there are no more keys than pairs |
| TryFrom.MapLastWins | src/try_from_impls.rs:655-701 | every key is kept, with the value of its last pair |
| TryFrom.ConvertMap | src/try_from_impls.rs:655-701 | a non-object gives the kind error; a success has the map type |
| TryFrom.MapConversion | src/try_from_impls.rs:655-701 | a map of an object: the first member whose key or value fails gives the error, otherwise the map built from every member's pair in document order |
| TryFrom.ConvertMembers | src/try_from_impls.rs:655-701 | a success has the map type |
| TryFrom.MemberResults | src/try_from_impls.rs:655-701 | one result per member, in order; each success a typed key and value |
| TryFrom.MembersConversion | src/try_from_impls.rs:655-701 | the members converted in order, the first error aborting; otherwise the map of all the pairs |
| TryFrom.MembersMapEntries | src/try_from_impls.rs:655-701 | when every member converts, every key is in the map, and a key not repeated later holds its member's value (a later duplicate wins) |
| TryFrom.MapHasType | src/try_from_impls.rs:655-701 | a map of typed pairs has the map type |
| TryFrom.OptionConversion | src/try_from_impls.rs:338-351 | null is None whatever the inner type; otherwise the inner result in Some, errors unchanged |
| TryFrom.BoolConversion | src/try_from_impls.rs:6-15 | `bool` accepts only Bool values, "true" as true |
| TryFrom.IntegerConversion | src/try_from_impls.rs:17-218 | integer types accept only Integer values (Float is a kind error); the value must fit; unsigned rejects a minus; NonZero rejects 0; every error at the number |
| TryFrom.IntegerFromStr | src/try_from_impls.rs:17-26 | the parse of an integer token fails exactly for the listed cause |
| TryFrom.StringConversion | src/try_from_impls.rs:244-261 | `String` accepts only a string, giving its unescaped text |
| Bytes.HexDigitValue | src/format.rs:23 | a hexadecimal digit denotes a value below 16 |
| Escaping.HexDigit | src/format.rs:23 | a lowercase hex digit denoting `d` |
| Escaping.Hex4 | src/format.rs:23 | `{:04x}` is four hex digits |
| Escaping.Hex4Value | src/format.rs:23 | the four digits read back as the value |
| Escaping.WriteEscaped | src/format.rs:10-30 | writes a quote, the escaped characters and a quote, stopping at the first failed write |
| Escaping.WriteChars | src/format.rs:14-26 | the character loop writes each character's escape in order |
| Escaping.CharFailed | src/format.rs:14-26 | a failed write of one character is a failed write of the whole escape |
| Escaping.WroteChar | src/format.rs:14-26 | one more character keeps the loop's invariant |
| Escaping.EscapeSnoc | src/format.rs:14-26 | escaping one more character appends its escape |
| Escaping.EscapeSplit | src/format.rs:14-26 | escaping splits at any character |
| Escaping.EscapeSingle | src/format.rs:14-26 | the escape of a one-character string is that character's escape |
| Escaping.EscapeAppend | src/format.rs:14-26 | escaping distributes over concatenation |
| Escaping.EscapeCharUnescapes | src/format.rs:16-24 | a character's escape is string content that unescapes to its UTF-8 bytes |
| Escaping.UnescapeConsPlain | src/raw.rs:246-269 | content starting with a plain byte unescapes to that byte followed by the rest's unescape |
| Escaping.UnescapePlainPrefix | src/raw.rs:246-269 | plain bytes unescape to themselves |
| Escaping.EscapeRoundTrip | src/format.rs:10-30 | the escaped text is content of the parsers' string grammar `Grammar.StringContent`, and unescaping gives back the string's UTF-8 bytes |
| Escaping.QuotedIsStringText | src/format.rs:12-27 | the output is a JSON string token, beginning and ending with '"' |
| Escaping.EscapeHasNoControl | src/format.rs:14-26 | no raw ASCII control byte survives escaping |
| Escaping.CopiedVerbatim | src/format.rs:24 | a character that is not a control character, '"' or '\' is copied as its UTF-8 bytes |
| Escaping.IsControl | src/format.rs:23 | `char::is_control` holds for the five characters with short escapes and never for '"', '\\' or space |
| Escaping.EscapeChar | src/format.rs:14-25 | one to six bytes, starting with a backslash exactly for a control character, '"' and '\\' |
| Escaping.Escape | src/format.rs:13-26 | a string's escape has at least one and at most six bytes per character |
| Escaping.Quoted | src/format.rs:10-30 | a quote, then at least one byte per character, then a quote |
| Escaping.AsWrittenBreaksRoundTrip | src/raw.rs:252 | the as-written unescaper does not invert the escaper for "\n" |
| Sinks.AppendedOk | src/fmt.rs:229-247 | a write reports success exactly when the whole text fits |
| Sinks.AppendedThen | src/fmt.rs:229-247 | two successive writes are one write of both texts |
| Sinks.AppendedFailed | src/fmt.rs:229-247 | a failed write stays failed whatever was meant to follow |
| Sinks.AppendedLonger | src/fmt.rs:229-247 | a failed write of a text is a failed write of any text it begins |
| Sinks.Sink.constructor | src/formatter.rs:41-44 | an empty sink of the given capacity |
| Sinks.Sink.Write | src/formatter.rs:42-44 | `write_str` appends everything, or nothing and an error |
| Decimal.Digits | src/fmt.rs:43-113 | the decimal digits of `n`, no leading zero |
| Decimal.DigitsValueOfDigits | src/fmt.rs:43-113 | the digits denote `n` |
| Decimal.RenderIsIntegerText | src/fmt.rs:43-113 | an integer's display is an integer token denoting it |
| Decimal.Render | src/fmt.rs:43-113 | an integer's display is non-empty, starts with '-' exactly when the integer is negative, and is digits otherwise |
| Utf8.EncodeScalar | src/format.rs:24 | one to four bytes; one byte exactly for ASCII |
| Utf8.Encode | src/format.rs:24 | a string's UTF-8 bytes are at least as many as its characters |
| Utf8.EncodeAppend | src/format.rs:24 | encoding distributes over concatenation |
| Fmt.RenderAll | src/fmt.rs:144-166 | one text per item |
| Fmt.MembersText | src/fmt.rs:168-178 | one text per member |
| Fmt.RenderAllAppend | src/fmt.rs:144-166 | rendering a concatenation of items concatenates their texts |
| Fmt.MembersTextAppend | src/fmt.rs:168-178 | the same for members |
| Fmt.Render | src/fmt.rs:37-178 | the text is never empty; an integer starts with '-' exactly when negative; a string is between quotes, an array between brackets, an object between braces |
| Fmt.JoinSnoc | src/fmt.rs:233-240 | one more text joins on after a comma, except the first |
| Fmt.JoinPrefix | src/fmt.rs:257-271 | joining more texts only extends the result |
| Fmt.ArrayTextSnoc | src/fmt.rs:225-248 | writing one more value appends its separator and text |
| Fmt.ObjectTextSnoc | src/fmt.rs:298-324 | writing one more member appends its separator, key, ':' and value |
| Fmt.ArrayTextPrefix | src/fmt.rs:257-271 | what was written for a prefix of the values is a prefix of the whole |
| Fmt.ObjectTextPrefix | src/fmt.rs:334-349 | the same for members |
| Fmt.IntRoundTrip | src/fmt.rs:43-113 | an integer is written as a token that the same type's conversion reads back as that integer |
| Fmt.BoolRoundTrip | src/fmt.rs:37-41 | a boolean is written as "true"/"false", which `bool` reads back |
| Fmt.ArrayExample | src/fmt.rs:144-166 | `[1, 2, 3]` is written `[1,2,3]`, and an empty sequence `[]` |
| Fmt.OptionExample | src/fmt.rs:199-207 | `[Some(1), None, Some(3)]` is written `[1,null,3]` |
| Fmt.ObjectExample | src/fmt.rs:282-358 | `{"a":1,"b":[]}`: quoted keys, colons, no spaces |
| Fmt.WriteValue | src/fmt.rs:37-207 | writes the value's rendering onto the sink, stopping at the first failed write |
| Fmt.WriteArray | src/fmt.rs:144-166 | a sequence is written as `[` + the items joined by ',' + `]` |
| Fmt.WriteObject | src/fmt.rs:168-178 | a map is written as `{` + the members joined by ',' + `}` |
| Fmt.WriteMember | src/fmt.rs:298-324 | a member is the quoted key, ':' and the value |
| Fmt.ArrayFormatter.constructor | src/fmt.rs:216-223 | `new` writes `[` and latches a failure |
| Fmt.ArrayFormatter.Value | src/fmt.rs:225-255 | nothing after an error; otherwise a comma unless first, then the value; `first` flips to false |
| Fmt.ArrayFormatter.Values | src/fmt.rs:257-271 | each value in order, stopping at the first error |
| Fmt.ArrayFormatter.Finish | src/fmt.rs:273-279 | the latched error without `]`, or the write of `]` |
| Fmt.ObjectFormatter.constructor | src/fmt.rs:289-296 | `new` writes `{` and latches a failure |
| Fmt.ObjectFormatter.Member | src/fmt.rs:298-332 | nothing after an error; otherwise a comma unless first, the quoted key, ':' and the value |
| Fmt.ObjectFormatter.Members | src/fmt.rs:334-349 | each member in order, stopping at the first error |
| Fmt.ObjectFormatter.Finish | src/fmt.rs:351-357 | the latched error without `}`, or the write of `}` |
| Formatter.Texts | src/formatter.rs:50-70 | one display text per value |
| Formatter.Text | src/formatter.rs:50-57 | what `{value}` writes for a bool or a `usize` is what `DisplayJson` writes for it in src/fmt.rs |
| Formatter.ArrayTextSnoc | src/formatter.rs:50-59 | one more value appends ',' (unless first) and its text |
| Formatter.SameAsFmt | src/formatter.rs:34-79 | this writer and the one in src/fmt.rs write the same text for a sequence of booleans or `usize`s |
| Formatter.JsonFormatter.constructor | src/formatter.rs:24-26 | a formatter over the writer |
| Formatter.JsonFormatter.Array | src/formatter.rs:28-30 | an array writer that has written `[` |
| Formatter.ArrayFormatter.constructor | src/formatter.rs:41-48 | `new` writes `[` and records any error |
| Formatter.ArrayFormatter.Value | src/formatter.rs:50-59 | nothing once an error is set; the first value alone; later ones as `,value` |
| Formatter.ArrayFormatter.Values | src/formatter.rs:61-70 | `value` on each item in order |
| Formatter.ArrayFormatter.Finish | src/formatter.rs:72-78 | the stored error without `]`, or the write of `]`, so n values give `[v1,...,vn]` |
| OldParserSpec.Trim | src/parser.rs:5 | skipping whitespace stops at the end or at a non-blank byte |
| OldParserSpec.OpenThenAdvanced | src/parser.rs:152-188 | a value parsed inside an open composite continues it |
| OldParserSpec.ContinuesThrough | src/parser.rs:112-188 | a value after blanks or a separator continues an open composite |
| OldParserSpec.CloseCompletes | src/parser.rs:139-143 | closing a composite completes it |
| OldParserSpec.RestCompletes | src/parser.rs:171-175 | what follows a separator completes the composite |
| OldParserSpec.Push | src/parser.rs:284-296 | `push_value` records [pos, pos+len) with end_index = index+1 and moves past it |
| OldParserSpec.Close | src/parser.rs:139-143 | a closed composite ends at the position, its subtree at the end of the index |
| OldParserSpec.CloseFrom | src/parser.rs:171-175 | the close does not depend on the earlier position |
| OldParserSpec.ParseValue | src/parser.rs:26-59 | one value parsed from the position, or an error at or after it |
| OldParserSpec.ValueAt | src/parser.rs:30-55 | dispatch on the first byte: literals, strings, containers, numbers, else the errors of lines 42-54 |
| OldParserSpec.Digits | src/parser.rs:62-110 | one or more digits, else `eos_or_number_error` |
| OldParserSpec.NumberInt | src/parser.rs:66-80 | `int`: a lone `0` or digits; a `0` followed by a digit is an invalid number |
| OldParserSpec.NumberFrac | src/parser.rs:81-90 | a `.` and digits make the number a non-integer |
| OldParserSpec.NumberExp | src/parser.rs:91-103 | `e`/`E`, an optional sign, digits |
| OldParserSpec.NumberScan | src/parser.rs:62-110 | a malformed number is reported at its first byte, a text ending early at the end |
| OldParserSpec.ParseNumber | src/parser.rs:62-110 | one number entry, followed by the end or a `NUMBER_END_PATTERN` byte |
| OldParserSpec.EscapeAt | src/parser.rs:200-214 | one escape of a string |
| OldParserSpec.StringEnd | src/parser.rs:190-220 | the closing quote and whether an escape was met |
| OldParserSpec.ParseString | src/parser.rs:190-220 | one string entry |
| OldParserSpec.ParseArray | src/parser.rs:152-188 | `[]`, or a placeholder and the loop |
| OldParserSpec.ArrayElements | src/parser.rs:160-170 | an element may not start with ',' or ']' |
| OldParserSpec.ArrayNext | src/parser.rs:171-186 | ']' closes, ',' continues, '}' is unmatched, anything else invalid at the element's end |
| OldParserSpec.ObjectError | src/parser.rs:231-240 | `eos_or_invalid_object`: the end or an invalid object |
| OldParserSpec.ParseObject | src/parser.rs:112-150 | `{}`, or a placeholder and the loop |
| OldParserSpec.ObjectMembers | src/parser.rs:118-127 | a string key first |
| OldParserSpec.ObjectAfterKey | src/parser.rs:128-133 | ':' and the value |
| OldParserSpec.ObjectNext | src/parser.rs:134-148 | '}' closes, ',' continues |
| OldParserSpec.CheckEos | src/parser.rs:266-282 | only whitespace may remain; otherwise Unmatched*Close or NotEos at the first offending byte |
| OldParserSpec.Document | src/parser.rs:26-59 | one value then only whitespace: the index or the first error |
| OldParser.JsonParser.constructor | src/parser.rs:18-24 | a parser at offset 0 with an empty index |
| OldParser.JsonParser.ParseValue | src/parser.rs:26-59 | computes `OldParserSpec.ParseValue` |
| OldParser.JsonParser.ParseNumber | src/parser.rs:62-110 | computes `OldParserSpec.ParseNumber` |
| OldParser.JsonParser.EosOrNumberError | src/parser.rs:222-228 | an error at the end of the text consumes it |
| OldParser.JsonParser.ParseString | src/parser.rs:190-220 | computes `OldParserSpec.ParseString` |
| OldParser.JsonParser.StringLoop | src/parser.rs:193-218 | the loop returns `OldParserSpec.StringEnd` |
| OldParser.JsonParser.ParseArray | src/parser.rs:152-188 | computes `OldParserSpec.ParseArray` |
| OldParser.JsonParser.ArrayLoop | src/parser.rs:160-187 | computes `OldParserSpec.ArrayElements` |
| OldParser.JsonParser.ArrayRound | src/parser.rs:160-186 | one round closes the array or continues |
| OldParser.JsonParser.ArrayNext | src/parser.rs:171-186 | ']' or ',' after an element, as `OldParserSpec.ArrayNext` |
| OldParser.JsonParser.ParseObject | src/parser.rs:112-150 | computes `OldParserSpec.ParseObject` |
| OldParser.JsonParser.ObjectLoop | src/parser.rs:118-149 | computes `OldParserSpec.ObjectMembers` |
| OldParser.JsonParser.ObjectRound | src/parser.rs:118-148 | one round closes the object or continues |
| OldParser.JsonParser.ObjectMemberValue | src/parser.rs:128-148 | ':' and the value, then '}' or ',' |
| OldParser.JsonParser.ObjectNext | src/parser.rs:134-148 | '}' or ',' after a member |
| OldParser.JsonParser.EosOrInvalidObject | src/parser.rs:231-240 | returns `OldParserSpec.ObjectError` |
| OldParser.JsonParser.CheckEos | src/parser.rs:266-282 | computes `OldParserSpec.CheckEos` |
| OldParser.JsonParser.PushValue | src/parser.rs:284-296 | the new state is `OldParserSpec.Push` |
| OldParser.JsonParser.Finalize | src/parser.rs:139-143 | the new state is `OldParserSpec.Close` |
| OldParser.JsonParser.UnexpectedEos | src/parser.rs:302-307 | the rest of the text is consumed, so the error is at its length |
| OldParserProofs.DigitRun | src/parser.rs:62-110 | the digits a stage strips are a digit run |
| OldParserProofs.IntToken | src/parser.rs:66-80 | the integer stage stops after an RFC 8259 `int` |
| OldParserProofs.FracToken | src/parser.rs:81-90 | the fraction stage consumes nothing or a `frac` |
| OldParserProofs.ExpToken | src/parser.rs:91-103 | the exponent stage consumes nothing or an `exp` |
| OldParserProofs.StagesToken | src/parser.rs:62-110 | the stages cover an RFC 8259 number |
| OldParserProofs.ScanToken | src/parser.rs:62-110 | the scan is a number, an integer only without fraction and exponent |
| OldParserProofs.NumberToken | src/parser.rs:62-110 | `parse_number` pushes one entry that is an RFC 8259 number followed by the end or a byte of pattern 7 |
| OldParserProofs.NoLiteralAt | src/parser.rs:30-41 | no literal starts with another byte |
| OldParserProofs.LeadingZero | src/parser.rs:72-76 | a leading `0` followed by a digit is an invalid number at the number's first byte |
| OldParserProofs.EscapeToken | src/parser.rs:200-214 | an accepted escape is a simple letter or `u` and four hex digits |
| OldParserProofs.EscapeThenContent | src/parser.rs:200-214 | an escape followed by content is content |
| OldParserProofs.StringEndContent | src/parser.rs:190-220 | the loop accepts only content of the parser's string grammar `Grammar.StringContent`, with the escape flag |
| OldParserProofs.ContentEscape | src/parser.rs:190-220 | inside string content, a byte that is not plain starts an escape the loop accepts, and the content goes on after it |
| OldParserProofs.ContentAccepted | src/parser.rs:190-220 | conversely, the loop accepts all content of the parser's string grammar `Grammar.StringContent` followed by a quote, stops at that quote, and sets the flag exactly when a backslash occurred |
| OldParserProofs.StringToken | src/parser.rs:190-220 | one string entry whose text is a string of the parser's string grammar `Grammar.StringText` |
| OldParserProofs.StrayStart | src/parser.rs:42-54 | `+` or `.` is an invalid number, `]` or `}` the matching unmatched close, each at that byte |
| OldParserProofs.DocumentShape | src/parser.rs:266-296 | an accepted index has the root first, spanning from the first non-blank byte, followed only by whitespace, with the whole index as its subtree |
| OldParserProofs.TrailingComma | src/parser.rs:163-166 | `[1,]`: an element slot may not start with ']' |
| OldParserProofs.ObjectCloseInArray | src/parser.rs:180-184 | `[1}`: a '}' after an element is an unmatched object close |
| OldParserProofs.InvalidArrayBeforeWhitespace | src/parser.rs:184-186 | `[1 0`: an invalid array reported where the element ended |
| OldParserProofs.TrailingClose | src/parser.rs:266-282 | `1 ]`: only whitespace may follow the value |
| OldParserProofs.LoneMinus | src/parser.rs:302-307 | `-`: a number cut short is an unexpected end at the text's length |

## Left out

- The string grammar `Grammar.StringContent` is the parsers' and not that of section 7 of RFC 8259; it differs in three ways: a raw DEL (0x7F) is refused (src/parse.rs:269, `is_ascii_control`), an escaped surrogate pair such as `\uD83D\uDE00` is refused because each half alone fails `char::from_u32` (src/parse.rs:286-287), and `\u+abc` is accepted because `u32::from_str_radix` takes a leading '+' (src/parse.rs:286). The model follows the code; `Grammar.DelRefused`, `Grammar.SurrogatePairRefused` and `Grammar.PlusSignedEscapeTaken` exhibit the three cases. The same holds for src/parser.rs:194 and 211-214.
- Floating point: `parse_float` and the `f32`/`f64` conversions (src/try_from_impls.rs:220-242), `JsonF64` of src/formatter.rs, and float rendering. Float tokens are still parsed and classified.
- `PathBuf`, `IpAddr`, `Ipv4Addr`, `Ipv6Addr` and the `SocketAddr` conversions (src/try_from_impls.rs:263-336): they delegate to standard-library parsers that are not part of this model.
- `try_to`, `FromRawJsonValue`, `Display` for `RawJson`/`RawJsonValue`, `Hash`, `PartialEq`/`Ord` of `RawJson`, `text()` and `json()`: trivial or outside the core.
- src/value.rs, src/value2.rs, src/value3.rs, src/builder.rs, src/display_json.rs, src/from_raw_json_value.rs, src/num.rs and src/str.rs are not part of this model. Pretty-printing and indentation (`JsonFormatterConfig`) are left out too.
- `JsonError`, `JsonValueStrKind` and the entry type of the old parser are declared in src/str.rs. They are given here with the variants src/parser.rs uses.
- Line and column numbers of errors, and the `Display` text of `JsonParseError`: only the variants and positions are modelled.
- The boxed cause of `InvalidValue` is a `Cause` datatype naming the reason, not a formatted message.
- `value_with` and `member_with` take a closure. Here they take the value the closure would write.
- `HashMap`/`HashSet`: iteration order is taken as a given sequence. Hashing is not modelled.
- Rust's generic dispatch over target types is a `Target` datatype, and the result a `Typed` value.
- What makes `std::fmt::Write` fail is not in the library. The sink here has a capacity, and a write that does not fit fails and writes nothing.
- Tests, fuzz targets and property tests are not modelled.
- Fmt.WriteValue: integers are unbounded `int`s, and no Rust integer type bounds them. Fmt.IntRoundTrip states the reading back for each type's range.
- Formatter.SameAsFmt: `usize` is taken as 64-bit.
- TryFrom.IntegerConversion: `isize`/`usize` are taken as 64-bit.
- OldParser.JsonParser.ArrayLoop: the loops of src/parser.rs are split into one method per round (ArrayRound, ObjectRound). The control flow is unchanged.
- Parse.CommentHandler.HandleComment: the `HandleComment` trait and its two implementations are one class with a `mode` field.
- Raw.RawJsonValue.ToUnquotedStr: implements the corrected unescaper (see Findings). The as-written unescaping is the recursive function `Raw.UnescapeAsWritten`, and `Raw.AsWrittenKeepsLetter` shows where the two differ.
- Raw.RawJsonValue.Unquoted: uses the corrected unescaper `Raw.Unescape` (see Findings), so a simple escape yields the byte it stands for; src/raw.rs:252 as written keeps the letter, so the program returns `atb` for the string `"a\tb"` where this member gives `a`, a tab, `b`.
- Raw.RawJsonValue.ToUnquotedStringStr: uses the corrected unescaper `Raw.Unescape` (see Findings), so a simple escape yields the byte it stands for; src/raw.rs:252 as written keeps the letter, so its text for an escaped string differs from the program's in the same way.
- Raw.RawJsonValue.Entries: uses the corrected unescaper `Raw.Unescape` (see Findings), so a simple escape yields the byte it stands for; src/raw.rs:252 as written keeps the letter, so member names with simple escapes are compared after decoding: the program matches `{"\n":1}` to the name "n", this model to a line feed.
- Raw.RawJsonValue.MemberEntries: uses the corrected unescaper `Raw.Unescape` (see Findings), so a simple escape yields the byte it stands for; src/raw.rs:252 as written keeps the letter, so member names with simple escapes are decoded as in Raw.RawJsonValue.Entries.
- Raw.RawJsonValue.FixedObjectResult: uses the corrected unescaper `Raw.Unescape` (see Findings), so a simple escape yields the byte it stands for; src/raw.rs:252 as written keeps the letter, so a required name "n" is missing from `{"\n":1}` here but found by the program.
- Raw.RawJsonValue.ToFixedObject: uses the corrected unescaper `Raw.Unescape` (see Findings), so a simple escape yields the byte it stands for; src/raw.rs:252 as written keeps the letter, so a required name "n" is missing from `{"\n":1}` here but found by the program.
- Raw.RawJsonValue.FillSlots: uses the corrected unescaper `Raw.Unescape` (see Findings), so a simple escape yields the byte it stands for; src/raw.rs:252 as written keeps the letter, so the names it matches are the decoded ones.
- Raw.RawJsonValue.FillRound: uses the corrected unescaper `Raw.Unescape` (see Findings), so a simple escape yields the byte it stands for; src/raw.rs:252 as written keeps the letter, so the name it matches is the decoded one.
- Raw.RawJsonValue.ToFixedObject, Raw.RawJsonValue.FillSlots and Raw.RawJsonValue.FillRound: the debug output of the member loop is not modelled. `to_fixed_object` calls `dbg!(&k)` on every member key (src/raw.rs:353) and `dbg!(v)` on every value it stores in a required or optional slot (src/raw.rs:355, 358), so each call writes the expression and its value to standard error. The model has no output stream; the calls look like debugging left behind in a library API.
- Raw.UnescapeBytes: computes the corrected `Raw.Unescape`; the loop of src/raw.rs:246-269 pushes the escape letter for a simple escape, which `Raw.UnescapeAsWritten` models.
- Raw.UnescapeOne: yields the corrected byte for a simple escape, where src/raw.rs:252 pushes the letter.
- Raw.UnescapeStep: is stated for the corrected `Raw.Unescape`, where src/raw.rs:252 pushes the letter.
- TryFrom.FromUnquoted: uses the corrected unescaper `Raw.Unescape` (see Findings), so a simple escape yields the byte it stands for; src/raw.rs:252 as written keeps the letter, so a `String` converted from `"a\tb"` holds a tab here and `atb` in the program.
- TryFrom.ConvertScalar: uses the corrected unescaper `Raw.Unescape` (see Findings), so a simple escape yields the byte it stands for; src/raw.rs:252 as written keeps the letter, so string and string-parsed targets see decoded text.
- TryFrom.Convert: uses the corrected unescaper `Raw.Unescape` (see Findings), so a simple escape yields the byte it stands for; src/raw.rs:252 as written keeps the letter, so string and string-parsed targets see decoded text.
- TryFrom.ConvertMember: uses the corrected unescaper `Raw.Unescape` (see Findings), so a simple escape yields the byte it stands for; src/raw.rs:252 as written keeps the letter, so map keys are decoded text.
- TryFrom.ConvertMap: uses the corrected unescaper `Raw.Unescape` (see Findings), so a simple escape yields the byte it stands for; src/raw.rs:252 as written keeps the letter, so map keys with simple escapes differ from the program's: `{"\n":1}` has the key line feed here and "n" there.
- TryFrom.ConvertMembers: uses the corrected unescaper `Raw.Unescape` (see Findings), so a simple escape yields the byte it stands for; src/raw.rs:252 as written keeps the letter, so map keys are decoded text.
- TryFrom.StringConversion: uses the corrected unescaper `Raw.Unescape` (see Findings), so a simple escape yields the byte it stands for; src/raw.rs:252 as written keeps the letter, so the converted string of `"a\tb"` is `a`, tab, `b` here and `atb` in the program.
- Fmt.ObjectFormatter.Member: keys are strings, written quoted and escaped. src/fmt.rs:27-29 also lets a `&T` or `Box<T>` of any `DisplayJson` type be a key, which is then written as that value (a `BTreeMap<&i32, i32>` gives `{1:2}`, not valid JSON); such keys are not modelled.
- Fmt.WriteObject: keys are strings only, as for Fmt.ObjectFormatter.Member; the unquoted `&T`/`Box<T>` keys that src/fmt.rs:27-29 and 168-178 allow are not modelled.

## Findings

| source | as written | input that shows it | evidently intended | confidence | as-written member | corrected member |
|---|---|---|---|---|---|---|
| src/raw.rs:252 | a simple escape pushes the escape letter itself (`\n` becomes `n`) | the JSON string `"\n"`, which the escaper of src/format.rs:16 writes for a newline | push the control character the escape stands for (`\n` becomes a line feed), so that unescaping inverts escaping | high; not executed | Raw.AsWrittenKeepsLetter, Escaping.AsWrittenBreaksRoundTrip | Raw.Unescape, Escaping.EscapeRoundTrip |
