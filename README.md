# minigrep core in Dafny

A model of the core of `minigrep`, a small line-search tool written in Rust.
Given a query and the text of a file, it returns every line that contains
the query, in the order the lines appear. With the ignore-case option it
lower-cases each line before the test, but it does not lower-case the
query. The model covers three pieces:

- `RustStr` (RustStr.dfy): the parts of Rust's `str` that the filter relies on.
  - `RustStr.Lines` models `lines`: split after each `'\n'`, drop the `'\n'` and then one `'\r'` before it. A final terminator adds no empty line.
  - `RustStr.Contains` models `contains`: a left-to-right search, proved equal to "is a contiguous substring".
  - `RustStr.ToLowercase` models `to_lowercase`, restricted to ASCII letters.
- `Search` (Search.dfy): `Search.Filter` models `filter` from src/search.rs.
  - It is proved sound, complete and order-preserving in both modes.
  - It is proved to return each kept line as often as it occurs.
  - `Search.Run` models `run` once the file has been read: the file text is passed in, and the printed lines are returned.
- `Lib` (Lib.dfy): from src/lib.rs.
  - `Lib.New` and `Lib.Parse` model `CommandConfig::new` and `CommandConfig::parse`. `parse` returns `Err("not enough arguments")` for fewer than three arguments. Otherwise it builds the configuration from arguments 1 and 2.
  - `Lib.Array.Fmt` models `Array`'s `Display::fmt`: a method with a loop, proved against a specification function.

The `ignore_case` asymmetry is kept as the source has it. The lemma
`IgnoreCaseUpperQueryFindsNothing` shows the result: in ignore-case mode, a
query that holds an ASCII upper-case letter (`'A'` to `'Z'`) matches no
line. The configuration holds only the query and the path, as
`CommandConfig` does in the source. The source has no ignore-case flag in
the configuration, and `parse` reads no flag.

## Model

| member | source | states |
|---|---|---|
| `RustStr.Contains` | src/search.rs:7 | a query at the start of the line is found; a query longer than the line is never found; in the empty line only the empty query is found; the exact characterisation is `RustStr.ContainsIffSubstring` |
| `RustStr.ContainsIffSubstring` | src/search.rs:7 | `contains` holds exactly when the query occurs as a contiguous substring of the line (both directions) |
| `RustStr.EmptyPatternContained` | src/search.rs:7 | the empty query is contained in every line |
| `RustStr.ToLowercase` | src/search.rs:5 | the result has the line's length; each ASCII capital `'A'` to `'Z'` becomes its lower-case letter and every other character is unchanged |
| `RustStr.SubstringSurvivesLowercase` | src/search.rs:5 | an occurrence of the query in a line is still an occurrence after both are lower-cased |
| `RustStr.ToLowercaseIdempotent` | src/search.rs:5 | lower-casing twice equals lower-casing once, and leaves no ASCII capital (`'A'` to `'Z'`) |
| `RustStr.Lines` | src/search.rs:5-7 | only empty text has no lines; no line contains a `'\n'` |
| `RustStr.LinesAfterLine` | src/search.rs:7 | a line without `'\n'` followed by `'\n'` is the first line, minus one trailing `'\r'`, and the rest of the text gives the remaining lines |
| `RustStr.LinesOfTerminated` | src/search.rs:7 | text written as lines that each end in `'\n'` or `"\r\n"`, chosen line by line, splits back into exactly those lines; only the terminator is dropped, provided no line that ends in `'\r'` is followed by a bare `'\n'` (Rust reads that `'\r'` as part of a `"\r\n"` terminator) |
| `RustStr.FinalNewlineOptional` | src/search.rs:7 | adding a final `'\n'` to non-empty text that ends in neither `'\n'` nor `'\r'` gives the same lines (empty text has no lines while `"\n"` has one, and `"a\r"` is one line `"a\r"` while `"a\r\n"` is `"a"`) |
| `RustStr.SingleLine` | src/search.rs:7 | non-empty text without a `'\n'` is exactly one line |
| `Search.Filter` | src/search.rs:3-8 | the result is a subsequence of the lines of the contents, and a line is in it iff it is one of those lines and passes the mode's test; empty contents give nothing |
| `Search.FilterLines` | src/search.rs:3-8 | the result is a subsequence of the lines; a line is in it iff it is one of the lines and passes the test; each kept line occurs as often as in the input, each other line never |
| `Search.FilterCaseSensitive` | src/search.rs:7 | case-sensitive `filter` returns a subsequence of the lines; a line appears in it iff it contains the query as a substring, and then exactly as often as in the contents |
| `Search.FilterIgnoreCase` | src/search.rs:4-5 | ignore-case `filter` returns a subsequence of the lines, in their original case; a line appears in it iff its lower-cased text contains the query as given, and then exactly as often as in the contents |
| `Search.FilterEmptyContents` | src/search.rs:5-7 | empty contents gives an empty result in both modes |
| `Search.FilterEmptyQuery` | src/search.rs:5-7 | the empty query returns every line of the contents, in both modes |
| `Search.FilterLinesIdempotent` | src/search.rs:3-8 | filtering a result again with the same query and mode changes nothing |
| `Search.IgnoreCaseUpperQueryFindsNothing` | src/search.rs:5 | because the query is not lower-cased, a query with an ASCII upper-case letter finds nothing in ignore-case mode |
| `Search.IgnoreCaseFindsCaseSensitiveMatches` | src/search.rs:4-7 | for an already lower-case query, every case-sensitive match is also an ignore-case match |
| `Search.FilterSingleLine` | src/search.rs:5-7 | non-empty contents without a `'\n'` is returned whole when it passes the test, and otherwise nothing is returned |
| `Search.TestFilter` | src/search.rs:30-36 | `filter("public", "public struct Test {}", false)` is that one line |
| `Search.TestFilterCaseSensitive` | src/search.rs:41-47 | `filter("public", "PUBLIC struct Test {}", false)` is empty |
| `Search.TestFilterIgnoreCase` | src/search.rs:51-57 | `filter("public", "PUBLIC struct Test {}", true)` is the line in its original upper case |
| `Search.TestFilterNoResult` | src/search.rs:62-68 | `filter("public", "struct Test {}", false)` is empty |
| `Search.Bullets` | src/search.rs:19-21 | one printed line per match, the i-th being `"* "` followed by the i-th match |
| `Search.Render` | src/search.rs:14-21 | no matches print exactly `"Oops! No result found."`; otherwise `"Result:"` followed by `"* " + line` for each match in order |
| `Search.RenderInjective` | src/search.rs:14-21 | different match lists print differently, so the output determines the matches |
| `Search.Run` | src/search.rs:11-21 | `run`'s output, once the file is read, is one line longer than the result of `filter`: first the notice if nothing matched or `"Result:"` otherwise, then `"* "` followed by each match in order |
| `Search.RunReports` | src/search.rs:11-21 | `run` prints the notice iff no line of the contents passes the test; every printed line after the first is `"* "` followed by a line that passes |
| `Lib.New` | src/lib.rs:57-63 | needs two arguments; the query is argument 0 and the path argument 1 |
| `Lib.NewArgumentsRoundTrip` | src/lib.rs:57-63 | `new` and listing a configuration's two arguments undo each other |
| `Lib.Parse` | src/lib.rs:76-82 | `Err("not enough arguments")` exactly when there are fewer than three arguments; otherwise `Ok` with query = argument 1 and path = argument 2 |
| `Lib.ParseIgnoresExtraArguments` | src/lib.rs:81 | arguments after the third do not change the result |
| `Lib.ParseRoundTrip` | src/lib.rs:76-82 | parsing program name, query, path and anything after gives back that configuration |
| `Lib.Array.Fmt` | src/lib.rs:14-27 | the loop builds exactly `Shown(items)`: `"["`, each element followed by `", "` unless it equals the last element by value, then `"]"` |
| `Lib.ShownBracketed` | src/lib.rs:16-24 | the output starts with `'['` and ends with `']'`; it is `"[]"` exactly when every element is empty, the empty vector included |
| `Lib.ShownIsJoinWhenLastUnique` | src/lib.rs:18-23 | when no earlier element equals the last, the output is `"[" + join(", ") + "]"` |
| `Lib.ShownOfAppended` | src/lib.rs:18-23 | appending a value that no earlier element equals gives the `", "`-joined form |
| `Lib.ShownShortWhenLastRepeated` | src/lib.rs:20 | when an earlier element equals the last, the output is shorter than the joined form |
| `Lib.ShownIsJoinIff` | src/lib.rs:18-23 | the output is `"[" + join(", ") + "]"` iff no element before the last equals the last by value |
| `Lib.ShownRepeatedLast` | src/lib.rs:20 | `["x", "y", "x"]` renders as `"[xy, x]"`, not the joined `"[x, y, x]"` |
| `Lib.Array.FmtByPosition` | src/lib.rs:18-23 | the corrected loop, which tests the position and not the value, builds `"[" + join(", ") + "]"` for every vector |

## Findings

| source | as written | input that shows it | evidently intended | confidence | as-written member | corrected member |
|---|---|---|---|---|---|---|
| src/lib.rs:20 | the separator is skipped after every element equal by value to the last element | `Array(vec!["x", "y", "x"])` prints `[xy, x]` | skip the separator only after the element in the last position, giving `[x, y, x]` | high (not executed) | `Lib.ShownRepeatedLast` | `Lib.Array.FmtByPosition` |

`Lib.ShownIsJoinIff` says exactly which inputs are affected: those where an
element before the last has the same value as the last one.

## Left out

- Reading the file (`std::fs::read_to_string` and its `unwrap`, src/search.rs:12) is left out. The contents are a parameter of `Search.Run`.
- `search` in src/lib.rs:92-99 only reads and prints a file, so it is left out.
- Printing is left out. `println!` in `run` is modelled as the returned list of output lines. `write!` into the formatter in `fmt` is modelled as the returned string, and the formatter's `fmt::Result` is not modelled.
- src/main.rs is left out. It collects argv, prints, and maps errors to exit codes 1 and 2.
- src/about.rs and src/version.rs are left out. They only print build-time constants.
- `RustStr.ToLowercase`: lower-cases ASCII letters only. Rust's `to_lowercase` applies full Unicode case mapping, which can change a string's length.
- `RustStr.Lines`: follows the current Rust standard library, which keeps a bare `'\r'` that ends the text without a following `'\n'`. Older Rust releases also stripped it.
- `filter` returns slices borrowed from the contents. The model returns the same text as values, so lifetimes and borrowing are not captured.
- The boxed error type (`Box<dyn Error>`) of the file-reading path is not modelled. The only error in the core is `parse`'s fixed message, `Lib.NotEnoughArguments`.
- Because the source has none, there is no ignore-case flag in `CommandConfig` and no flag parsing in `parse`.
