# Datalog text notation, modelled in Dafny

This project models the core of a small Rust crate for a Datalog-style notation.
The crate has facts, rules and queries built from named predicates over literal and variable identifiers.
Three pieces are modelled:

- **Data model and canonical text** (`predicates.dfy`).
  `Id`, `Pred` and `Stmt` are datatypes. The `Render*` functions state the exact text:
  - a predicate renders as `name(a,b,c)`;
  - a literal renders as `'x'`, with its text copied verbatim;
  - a variable renders bare;
  - a fact is followed by `.` and a query by `?`;
  - a rule renders as `head :- b1, b2.`
  
  The `Display` implementations for `Pred` and `Stmt` append to the formatter step by step. They are modelled as methods, each proved equal to its rendering function: `FmtPred` and `FmtTail` hold the loops, and `FmtStmt` dispatches on the statement kind. The `Display` implementation for `ID` writes a single piece and is the pure function `RenderId`.
- **Statement writer** (`writer.dfy`). `FileWriter` owns its output as a `string` field. `Add` appends the rendering and a newline, piece by piece as the source does. The ghost field `written` records the statements added so far. `Valid()` ties the two together: the output is always `Lines(written)`, i.e. the rendered lines in call order, starting from the empty text a freshly created file holds.
- **Literal recognizers** (`parser.dfy`). `Scan` mirrors the escaped-run combinator:
  - a run of characters that are not a quote or a backslash, or of a backslash followed by a character from an escape set;
  - the run stops at the first unescaped quote or at the end of the input.
  
  `ParseLiteral` is the quoted `literal` recognizer, with escapes `'` and `\`. `EscapedString` is `escaped_string`, with escapes `" ' \ b t n f r`. Both return the raw matched text; escapes are never decoded. Any failure is `None`.

`strings.dfy` holds the separator join and character counting that the renderer and writer share. `wrappers.dfy` holds `Option`.

The main result is the round trip between renderer and recognizer, `Parser.LiteralRoundTrip`. The renderer does not escape and the parser does not unescape. So parsing the rendering of `Literal(s)` (followed by any `rest`) gives back `(Literal(s), rest)` exactly when `s` is well-formed escaped content:
- `s` is non-empty;
- `s` has no unescaped quote;
- every backslash in `s` is followed by `'` or `\`.

Soundness holds in general (`ParseLiteral`'s own contract): whatever the literal recognizer accepts, rendering its result gives back the consumed input.

Two consequences of the code are worth stating:
- The renderer copies literal text verbatim (src/predicates.rs:77), and the recognizer returns the raw slice (src/parser.rs:11, 25). So text holding an unescaped quote does not read back: `Parser.UnescapedQuoteExample` shows that `Literal("a'b")` renders as `'a'b'`, which reads back as `Literal("a")` with `b'` left over.
- An empty rule body is accepted and renders as `head :- .` (src/predicates.rs:42-52): `Predicates.EmptyRuleBodyRendering`.

## Model

| member | source | states |
|---|---|---|
| `Predicates.NewPredAccessors` | src/predicates.rs:20-22 | `name`, `ids` and `len` of a predicate built by `new` return the given name, the given ids and their count; `is_empty` holds exactly for an empty id list |
| `Predicates.IsEmpty` | src/predicates.rs:98-100 | `is_empty` holds exactly when `len` is zero |
| `Predicates.FmtPred` | src/predicates.rs:61-71 | the formatter loop writes `name(`, the first id bare and every later id after a `,`, then `)`; the result equals `RenderPred` |
| `Predicates.EmptyPredRendering` | src/predicates.rs:62-70 | a predicate with no ids renders as `name()` |
| `Predicates.FmtTail` | src/predicates.rs:44-50 | the `fold` with a `first` flag writes the body joined by `", "`, with the separator only between elements |
| `Predicates.FmtStmt` | src/predicates.rs:39-55 | the statement formatter writes `p.` for a fact, `head :- body.` for a rule and `p?` for a query; the result equals `RenderStmt` |
| `Predicates.EmptyRuleBodyRendering` | src/predicates.rs:42-52 | a rule with an empty body is not rejected and renders as `head :- .` |
| `Predicates.QueryExamples` | src/predicates.rs:109-121 | the queries in the unit tests render as `foo('bar','baz')?` and `foo('bar')?` |
| `Predicates.FactExamples` | src/predicates.rs:124-136 | the facts in the unit tests render as `foo('bar','baz').` and `foo('bar').` |
| `Predicates.TestPredicates` | src/predicates.rs:76-77 | the test predicates render with each literal quoted verbatim and a bare comma between arguments |
| `Predicates.PredCommaCount` | src/predicates.rs:63-69 | if no name or argument contains a comma, a predicate's rendering has exactly `len - 1` commas (none when `len` is zero), so its arity can be read from the text |
| `Predicates.PredRenderingAvoids` | src/predicates.rs:61-79 | a character that is not `(`, `)` or `,` appears in a predicate's rendering only if it appears in its name or an argument |
| `Predicates.BodyRenderingAvoids` | src/predicates.rs:44-50 | the same holds for a rule body joined by `", "` |
| `Predicates.StmtRenderingAvoids` | src/predicates.rs:38-56 | the same holds for a statement, whose own punctuation is `(),:-.?` and space |
| `Strings.JoinCount` | src/predicates.rs:63-69 | when no element contains a character, joining `n > 0` elements adds exactly `n - 1` copies of the separator's occurrences of it |
| `Strings.JoinSnoc` | src/predicates.rs:44-50 | joining one more element appends exactly one separator and that element, so the separator never leads or trails |
| `Writer.FileWriter.constructor` | src/writer.rs:17-19 | a new writer starts from empty contents, since creating the file truncates it, with no statements written |
| `Writer.FileWriter.WriteTail` | src/writer.rs:28-34 | the writer's `fold` over the rule body appends the body predicates joined by `", "`, changing nothing but the contents |
| `Writer.FileWriter.WriteStmt` | src/writer.rs:24-37 | the match arms append exactly the statement's `Display` rendering, changing nothing but the contents |
| `Writer.FileWriter.Add` | src/writer.rs:23-39 | `add` only appends: the new contents are the old contents followed by the statement's rendering and one newline, and the invariant contents = `Lines(written)` is kept with the statement added last |
| `Writer.LineShapes` | src/writer.rs:25-37 | the appended line is `p.` plus newline for a fact, `p?` plus newline for a query, and `head :- ` plus the body joined by `", "` plus `.` and newline for a rule |
| `Writer.LinesConcat` | src/writer.rs:23-39 | the contents after two batches of `add` calls are the first batch's lines followed by the second's, so call order is preserved |
| `Writer.LinesSnoc` | src/writer.rs:23-39 | adding one statement after a batch appends exactly that statement's line |
| `Writer.LinesNewlineCount` | src/writer.rs:23-39 | if no name, literal or variable contains a newline, the contents after N statements hold exactly N newlines |
| `Parser.Scan` | src/parser.rs:11 | a successful scan covers a well-escaped prefix that ends at an unescaped quote or at the end of the input |
| `Parser.ScanComplete` | src/parser.rs:11 | every well-escaped content followed by a quote or by nothing is scanned in full, so the scanner stops at the first unescaped quote |
| `Parser.ScanFails` | src/parser.rs:11 | the scanner fails exactly when no well-escaped prefix is closed by a quote or by the end of the input |
| `Parser.ScanBadEscape` | src/parser.rs:11 | a backslash followed by a character outside the escape set, or by nothing, makes the scan fail |
| `Parser.WellEscapedWiden` | src/parser.rs:5 | content well escaped for the literal's escapes is well escaped for the wider set of `escaped_string` |
| `Parser.Escaped` | src/parser.rs:5 | a successful run is non-empty and well escaped, and the input is split into that raw run and a remainder that is empty or starts with a quote |
| `Parser.EscapedString` | src/parser.rs:4-6 | `escaped_string` returns the raw recognized slice, escapes included, and leaves an unescaped quote in the remaining input |
| `Parser.EscapedStringStopsAtQuote` | src/parser.rs:4-6 | on well-escaped content followed by a quote, `escaped_string` returns exactly that content and leaves the quote and everything after it |
| `Parser.ParseLiteral` | src/parser.rs:8-14 | an accepted literal is a `Literal` with non-empty, well-escaped raw text, and the consumed input is exactly its rendering, so the remainder is everything after the closing quote |
| `Parser.RenderedLiteralParses` | src/parser.rs:8-14 | a literal whose text is non-empty and well escaped parses back from its rendering followed by any input, leaving that input |
| `Parser.LiteralRoundTrip` | src/parser.rs:8-14 | parsing the rendering of `Literal(s)` followed by `rest` gives `(Literal(s), rest)` exactly when `s` is non-empty and well escaped |
| `Parser.UnquotedRejected` | src/parser.rs:10 | input that does not start with a quote is rejected |
| `Parser.LiteralBadEscapeRejected` | src/parser.rs:11 | inside a literal, a backslash followed by anything but a quote or a backslash makes the literal fail |
| `Parser.LiteralPayloadIsEscapedString` | src/parser.rs:4-14 | the payload of an accepted literal is what `escaped_string` recognizes on the text after the opening quote, with the closing quote left over |
| `Parser.PlainLiteralExample` | src/parser.rs:24 | `'asdf'` parses to `Literal("asdf")` with nothing left |
| `Parser.EscapedQuoteLiteralExample` | src/parser.rs:25 | `'asd\'f'` parses to `Literal` of the raw `asd\'f`, backslash kept |
| `Parser.NewlineEscapeExamples` | src/parser.rs:4-11 | `\n` inside a literal is rejected, while `escaped_string` accepts it and stops at the following quote |
| `Parser.UnescapedQuoteExample` | src/predicates.rs:77 | the renderer does not escape: `Literal("a'b")` renders as `'a'b'`, which reads back as `Literal("a")` with `b'` left over |

## Left out

- File-system plumbing is not modelled: `File::create` and its panic on failure, flushing on `Drop`, and `io::Error` results. The file is its in-memory text and writes cannot fail, so `Add` returns nothing.
- Formatter errors and the `.unwrap()` calls inside the `Display` implementations are not modelled; formatting is total.
- `Escaped`: an empty run is modelled as a failure, so `''` is not a literal. Whether the combinator library accepts an empty run depends on its version, which is not part of this model. The round trip therefore needs non-empty text.
- `Scan`: running out of input right after a backslash is folded into the same `None` as a bad escape. The combinator library's distinction between "incomplete" and "error", and its behaviour at the end of input, are not modelled.
- `ParseLiteral`: the UTF-8 validation of the matched bytes (`from_utf8`) is not modelled, because the model works on characters, not bytes.
- The generic `Predicate<T>` trait and `Pred<'a, T>` are instantiated at `Id` only. Borrowed string slices are plain string values.
- `src/lib.rs` is not modelled. It is a second, disconnected copy of the data model (`Constant`, `RuleID::FreeVariable`, a `len` accessor), and the modelled files do not use it.
- `Predicates.Name`, `Predicates.Ids`, `Predicates.Len` and `Predicates.NewPred` are plain accessors and a constructor without contracts of their own; `Predicates.NewPredAccessors` states what they return.
- `Predicates.RenderId`, the model of `Display` for `ID` (src/predicates.rs:74-81), is a definition without a contract of its own; `Parser.LiteralRoundTrip` and `Predicates.TestPredicates` state what it produces.
