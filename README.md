# gm-docs-parser in Dafny

A model of the core of gm-docs-parser. This scraper reads the HTML pages of
the GameMaker Language reference manual and turns them into records:
functions, variables and constants, each with its description, example,
return text and link. The model covers five parts.

- **The Markdown flattener** (`src/markdown.rs`). It walks an HTML subtree and
  writes Markdown: bold, italic, code snippets, fenced code, hyperlinks and
  tooltips. An element with nothing written falls back to its `alt` text.
- **The page parser's copy of the flattener** (`src/parse_file.rs`). It has no
  such fallback.
- **The page parser** (`src/parse_file.rs`):
  - the section scans for "syntax", "returns" and "example" over the `h4`
    headings, sharing one cursor;
  - the signature parser, which classifies parameters as required or optional
    by bracket nesting and detects `..`;
  - the parameter-table pass, which reconciles the table rows with the
    signature and computes the required-parameter count;
  - the name and description from the first `h1`;
  - the assembly of a page into a function or variable record.
- **The constants-table reader** (`parse_inner` in `src/parse_constants.rs`):
  - the header row's column scheme;
  - filling a constant cell by cell;
  - the name and descriptor clean-up;
  - insertion into the map of constants.
- **The keyword-index filter** (`src/parse_fnames.rs`). It keeps or drops an
  entry, and rewrites its extension to `htm`.

How the model is built:

- Each operation that works step by step is a method, with loops where the
  Rust code has them. Each method is proved equal to a specification
  function, and the properties are proved about those functions.
- A `&mut String` that a Rust function appends to is an input buffer and a
  returned buffer.
- The shared `Select` cursor is an index into the list of headings.
- A panic in the source (`unwrap` on a comment node, `nth(1).unwrap()`,
  `order[caret]`, a slice with start past end, `usize` underflow) is a
  precondition of the member that would panic.
- `BTreeMap<String, String>` is a list sorted by key (`SortedMap`).
- The map of constants is a Dafny `map`.
- The set of page paths is a `set<string>`.

Modules and files:

| file | module | models |
|---|---|---|
| wrappers.dfy | Wrappers | `Option` |
| strings.dfy | Strings | `trim`, `contains`, `find`, `split`, ASCII lowercasing, UTF-8 length |
| dom.dfy | Dom | the scraper's node tree |
| markdown.dfy | Markdown | `src/markdown.rs` |
| file_markdown.dfy | FileMarkdown | `flatten_element_into_markdown` of `src/parse_file.rs` |
| signature.dfy, signature_examples.dfy | Signature, SignatureExamples | `parse_signature` and its test vectors |
| parameters.dfy | Parameters | the row pass of `parse_parameters`, `required_parameters` |
| parse_file.dfy | ParseFile | section scans, `parse_returns`, `parse_example`, `parse_name_and_description`, `parse_function_file` |
| manual.dfy, sorted_map.dfy | Manual, SortedMap | the records of `src/lib.rs`, `BTreeMap` |
| parse_constants.dfy | ParseConstants | `parse_inner`, the table loop of `parse_constant` |
| parse_fnames.dfy | ParseFnames | the filter and path rewrite of `parse_fnames` |

Where the code departs from its record documentation and from what its
names suggest, the model follows the code:

- **Shared cursor.** The three section scans share one cursor, so the
  sections are found only in the order syntax, returns, example. A missing
  syntax heading uses up every heading. They are not independent scans.
- **No "argument" header check.** The parameter pass reads the first table
  after the signature.
- **Any `..` counts as variadic.** A trailing ellipsis is not treated
  differently.
- **Required count.** When no parameter is optional the code reports 0
  required parameters, and when the first optional guess lies past the last
  parameter it reports that position. The model records the corrected count
  instead. See Findings and "Left out".
- **Empty constant names.** The code stores a row whose cleaned name is
  empty under the key `""`. The record documentation promises that a
  constant's name is never empty. The model skips such a row instead. See
  Findings and "Left out".
- **Section body.** The body of a section is always the sibling after next
  of its heading, not the first non-blank sibling.
- **Lowercasing.** The "constant", "syntax", "returns" and "example" tests
  use ASCII lowercasing. The "description" test uses `to_lowercase`.
- **Record types.** `parse_function_file` builds `FunctionDoc` and
  `VariableDoc`, and `parse_constants.rs` calls a two-argument
  `convert_to_markdown`. Neither is defined in the files of the repository.
  The model uses the records of `src/lib.rs`, and the one-argument
  `Markdown::convert_to_markdown` of `src/markdown.rs`.

## Model

| member | source | states |
|---|---|---|
| Markdown.StyleTable | src/markdown.rs:37-75 | the style of each tag: i/em italic; b/strong/h4 bold; tt snippet; a p with class "code" fenced code; an a with href, or an img with src, a hyperlink to that value; an a with class "tooltip" and no href a tooltip; every other tag plain |
| Markdown.WrapRoundTrip | src/markdown.rs:100-131 | each style's rendering can be undone: unwrapping gives back the text (trimmed for fenced code) |
| Markdown.WriteInMd | src/markdown.rs:100-131 | appends the styled rendering of the text to the buffer and changes nothing before it; the copy at src/parse_file.rs:341-373 renders the same way and is modelled by this method too |
| Markdown.EmergencyWriteInMd | src/markdown.rs:134-140 | appends `[alt](dest)` for a hyperlink element with an alt attribute, and nothing otherwise |
| Markdown.ToMd | src/markdown.rs:30-98 | appends the flattening of the node: text as is, each text or element child rendered in the element's style, comment children skipped, the fallback when no child was written |
| Markdown.WriteChild | src/markdown.rs:79-93 | one pass of the child loop appends the child's part: a text rendered in the style, an element flattened into a fresh buffer and then rendered, a comment nothing |
| Markdown.ConvertToMarkdown | src/markdown.rs:23-28 | returns the flattening of the node, and a text node unchanged |
| Markdown.FallbackOnlyForHyperlinkAlt | src/markdown.rs:95-140 | an element with no text or element child gives non-empty output exactly when it is a hyperlink with an alt attribute |
| Markdown.SilentBody | src/markdown.rs:77-93 | when no child is text or element, the children write nothing |
| Markdown.FlattenSplitsChildren | src/markdown.rs:79-93 | splitting an element's children into two parts that each write something splits its flattening the same way |
| Markdown.BodyConcat | src/markdown.rs:79-93 | the written children of a concatenation are the written children of each part, one after the other |
| Markdown.OtherChildIgnored | src/markdown.rs:91 | a comment child changes nothing in the flattening |
| Markdown.NestedElementWrapped | src/markdown.rs:85-89 | an element child is flattened first and then rendered in the parent's style |
| Markdown.PlainTreeYieldsText | src/markdown.rs:30-98 | a tree of plain-styled elements flattens to its text content |
| FileMarkdown.FlattenElementIntoMarkdown | src/parse_file.rs:279-339 | appends the page parser's flattening of the node to the buffer |
| FileMarkdown.FlattenChild | src/parse_file.rs:326-337 | one pass of the page parser's child loop appends the child's part in the same way |
| FileMarkdown.FlattenersAgree | src/parse_file.rs:279-339 | on trees where no element falls back, the page parser's flattener and `to_md` agree |
| FileMarkdown.SilentElementWritesNothing | src/parse_file.rs:326-338 | an element with no text or element child flattens to the empty string in the page parser |
| FileMarkdown.FlattenersDiffer | src/parse_file.rs:279-339 | an `a` with href "d", alt "x" and no children gives `[x](d)` under `to_md` and nothing under the page parser's copy |
| Strings.FindChar | src/parse_file.rs:376-377 | `None` exactly when the character is absent; otherwise the first position holding it |
| Strings.SplitJoin | src/parse_file.rs:395 | joining the pieces of a split with the separator gives the string back |
| Strings.JoinSplit | src/parse_file.rs:395 | splitting a join of separator-free pieces gives the pieces back |
| Strings.TrimCharacterised | src/parse_file.rs:396-397 | trimming leaves nothing exactly when the string is blank, and otherwise leaves no whitespace at either end |
| Strings.AsciiLower | src/parse_file.rs:104 | same length, each character mapped by ASCII lowercasing |
| Strings.Utf8Len | src/parse_file.rs:390 | the byte length is at least the number of characters |
| Signature.ParseSignature | src/parse_file.rs:375-419 | no `(` or no `)` gives no guesses, not variadic, not a function; fewer than two bytes between them gives a function with no guesses; otherwise the guesses and the variadic flag of the trimmed non-empty pieces between the first `(` and the first `)` |
| Signature.ScanParameters | src/parse_file.rs:393-415 | the loop yields the scan of the tokens and whether any token has `..` |
| Signature.ScanPiece | src/parse_file.rs:395-414 | a piece that trims to nothing leaves the scan as it is; any other piece's trim becomes the next token, and the guesses and both flags become those of the longer token list |
| Signature.ScanToken | src/parse_file.rs:397-414 | one token pushes the running flag or its own leading `[`, opens on `[`, closes on `]`, and notes `..` |
| Signature.ScanIsGuesses | src/parse_file.rs:393-415 | the running-flag scan equals the closed form: a token is optional when it starts with `[` or an unclosed `[` opened earlier |
| Signature.RunningAfterIsOpen | src/parse_file.rs:398-409 | the running flag after a prefix is true exactly when a token with `[` and no `]` has had no `]` after it |
| Signature.Tokens | src/parse_file.rs:395-397 | the tokens are non-empty and no more than the pieces |
| SignatureExamples.ParsedFromParts | src/parse_file.rs:375-419 | for `name(inner)rest` with no parenthesis in the name, no `)` in inner and inner at least two long, the result is the scan of inner's comma-separated parts |
| SignatureExamples.EmptyParameterList | src/parse_file.rs:389-390 | `name()` is a function with no guesses |
| SignatureExamples.OneByteParameter | src/parse_file.rs:390 | `name(x)` with one ASCII character between the parentheses is also a function with no guesses |
| SignatureExamples.InstanceDestroy | src/parse_file.rs:482-486 | `Parsed` of the test string `instance_destroy([id, execute_event_flag]);` is safe and gives the guesses [true, true], not variadic, a function |
| SignatureExamples.ShaderSetUniformF | src/parse_file.rs:488-492 | `Parsed` of `shader_set_uniform_f(handle, value1 [, value2, value3, value4]);` is safe and gives [false, false, true, true, true], not variadic, a function |
| SignatureExamples.Choose | src/parse_file.rs:494-498 | `Parsed` of `choose(val0, val1, val2... max_val);` is safe and gives [false, false, false], variadic, a function |
| SignatureExamples.PlaceEmpty | src/parse_file.rs:500-504 | `Parsed` of `place_empty(x, y, [object_id]);` is safe and gives [false, false, true], not variadic, a function |
| SignatureExamples.DsListAdd | src/parse_file.rs:506-517 | `Parsed` of `ds_list_add(id, val1 [, val2, ... max_val]);`, and of the same string followed by a line break and twelve spaces, is safe and gives [false, false, true, true], variadic, a function |
| SignatureExamples.DisplaySetGuiMaximise | src/parse_file.rs:519-523 | `Parsed` of `display_set_gui_maximise(<i>xscale, yscale, xoffset, yoffset</i>);` is safe and gives four false guesses, not variadic, a function |
| SignatureExamples.Vector | src/parse_file.rs:375-419 | a string `name(` + inner + `)rest` whose comma pieces are blank padding before tokens free of outer whitespace parses to the guesses and the ellipsis flag of those tokens |
| SignatureExamples.TokensOfPadded | src/parse_file.rs:395-397 | pieces that are blank padding before tokens free of outer whitespace trim to exactly those tokens |
| SignatureExamples.InstanceDestroyGuesses | src/parse_file.rs:482-486 | the tokens `[id` and `execute_event_flag]` give [true, true] and no ellipsis |
| SignatureExamples.ShaderSetUniformFGuesses | src/parse_file.rs:488-492 | the tokens of the second vector give [false, false, true, true, true] and no ellipsis |
| SignatureExamples.ChooseGuesses | src/parse_file.rs:494-498 | the tokens of the third vector give three false guesses and an ellipsis |
| SignatureExamples.PlaceEmptyGuesses | src/parse_file.rs:500-504 | the tokens of the fourth vector give [false, false, true] and no ellipsis |
| SignatureExamples.DsListAddGuesses | src/parse_file.rs:506-517 | the tokens of the `ds_list_add` vectors give [false, false, true, true] and an ellipsis |
| SignatureExamples.DisplaySetGuiMaximiseGuesses | src/parse_file.rs:519-523 | the tokens of the last vector give four false guesses and no ellipsis |
| Parameters.ReconcileRows | src/parse_file.rs:139-201 | the row loop returns the reconciled data: the parameters of the data rows, the upgraded guesses' required count, and the variadic flag or any row with `..`; `None` when a data row lacks its cells |
| Parameters.ReconcileArity | src/parse_file.rs:139-201 | the required count is at most the number of parameters, nothing before it is optional, the position at it is optional, and a variadic signature stays variadic |
| Parameters.UpgradeMonotone | src/parse_file.rs:178-184 | the guesses grow to cover every row; an optional guess stays optional; an optional row makes its position optional; nothing else becomes optional |
| Parameters.ReadRow | src/parse_file.rs:150-166 | a data row yields the flattened second and fourth children as name and description, or nothing when it has fewer than four children |
| Parameters.DataParametersStuck | src/parse_file.rs:153-164 | a data row with fewer than four children makes the whole pass fail |
| Parameters.RequiredParameters | src/parse_file.rs:193-194 | the corrected count: the first optional position, or all parameters when none is optional |
| Parameters.FirstTrue | src/parse_file.rs:194 | `position(|v| *v)`: `None` exactly when no guess is true, otherwise the first true one |
| Parameters.RequiredAgreesWhenSomeOptional | src/parse_file.rs:193-194 | when some parameter is optional, the count as written and the corrected count agree |
| Parameters.RequiredAsWrittenMiscounts | src/parse_file.rs:193-194 | two mandatory parameters: the count as written is 0, the corrected count 2 |
| Parameters.RequiredAsWrittenOvercounts | src/parse_file.rs:193-194 | guesses [false, false, false, true] over two parameters: the count as written is 3, more than the parameters, the corrected count 2 |
| Parameters.RequiredWhenNoneOptional | src/parse_file.rs:193-194 | with no optional guess among the parameters, the corrected count is all of them while the count as written is 0 or a position past the last parameter |
| ParseFile.FindHeading | src/parse_file.rs:98-108 | the first heading at or after the cursor whose first child, flattened and lowercased, contains the keyword; the cursor just past it, or past the end when none matches |
| ParseFile.ExhaustedCursor | src/parse_file.rs:22-25 | a scan starting at the end finds nothing and stays at the end |
| ParseFile.ParseParameters | src/parse_file.rs:96-203 | the syntax section, its signature, and the first table at least four siblings after the heading read through the rows of the table's second child; the cursor after the scan |
| ParseFile.NoCallIsVariable | src/parse_file.rs:118-124 | a syntax line without `(` or `)` gives `Variable` |
| ParseFile.ParseReturns | src/parse_file.rs:253-277 | the flattened sibling after next of the "returns" heading |
| ParseFile.ReturnsSection | src/parse_file.rs:253-277 | a text exactly when the heading is found and that sibling exists; the cursor after the scan |
| ParseFile.ExamplePieceStops | src/parse_file.rs:226-247 | a sibling stops the example exactly when it is a comment or an element that flattens to blank text; a text sibling always adds something; any other element adds its flattening |
| ParseFile.NextPiece | src/parse_file.rs:227-246 | the loop body: a newline for blank text, the trimmed text, an element's flattening, or the break |
| ParseFile.CollectExample | src/parse_file.rs:226-247 | the loop appends the tail of the siblings up to the first one that stops it |
| ParseFile.ExampleTailStops | src/parse_file.rs:239-245 | siblings after a stopping one are never read |
| ParseFile.ExampleTailConcat | src/parse_file.rs:226-247 | without a stopping sibling the tail is the siblings' pieces one after the other |
| ParseFile.ExampleSection | src/parse_file.rs:205-251 | an example exactly when the heading and the sibling after next exist, and it starts with that sibling's flattening |
| ParseFile.ParseExample | src/parse_file.rs:205-251 | the first example body, flattened, followed by the tail of the siblings after it |
| ParseFile.NameAndDescription | src/parse_file.rs:76-89 | a result exactly when there is an `h1` whose first child is text and which has a sibling after next; the name is that text |
| ParseFile.ParseNameAndDescription | src/parse_file.rs:76-89 | the name and the flattened description of the first `h1` |
| ParseFile.ParseFunctionFile | src/parse_file.rs:15-72 | the record the page yields, from the name, the three sections and the link |
| ParseFile.FunctionFileCharacterised | src/parse_file.rs:31-71 | an entry exactly when name and description, returns and example were found; a function exactly when the syntax data is a function; every field taken from the parts found |
| ParseFile.SectionsInOrder | src/parse_file.rs:22-25 | on a page that yields an entry, the syntax heading precedes the returns heading, which precedes the example heading |
| ParseFile.MissingSyntaxYieldsNothing | src/parse_file.rs:22-32 | a page without a syntax heading yields no entry |
| ParseFile.NoCallPageIsVariable | src/parse_file.rs:118-124 | a page whose syntax line has no `(` yields a variable |
| ParseFile.MissingExampleYieldsNothing | src/parse_file.rs:31-32 | a page whose example scan finds nothing yields no entry |
| Dom.FindNamed | src/parse_file.rs:127-137 | the first element with the tag at or after the start, with none before it, or `None` when there is none |
| SortedMap.Insert | src/parse_constants.rs:130-135 | `BTreeMap::insert`: the key holds the new value, every other key keeps its own, the keys stay sorted |
| SortedMap.FilterNonBlank | src/parse_constants.rs:155-160 | keeps exactly the entries whose key and value are both non-blank, in order |
| SortedMap.FirstKeyIsLeast | src/parse_constants.rs:162-164 | the first entry holds the least key, which `keys().next()` yields |
| SortedMap.LeastKey | src/parse_constants.rs:162-164 | the first entry of a sorted map is present and its key is below every other present key |
| SortedMap.RemoveFirst | src/parse_constants.rs:163-164 | removing the first entry of a sorted map removes its key and keeps every other entry |
| ParseConstants.ColumnOf | src/parse_constants.rs:86-90 | a later header cell is never the name column; a non-description header becomes a secondary column named by its text |
| ParseConstants.SchemeAfter | src/parse_constants.rs:78-99 | the columns the later header cells add contain no name column |
| ParseConstants.Scheme | src/parse_constants.rs:44-105 | a table of constants has the name column first and only there |
| ParseConstants.BuildOrder | src/parse_constants.rs:75-101 | the header walk yields the name column followed by the columns of the later `th` cells, stopping at another element or at a `th` with no children |
| ParseConstants.FindOrder | src/parse_constants.rs:46-105 | the header row is the second row; no `th`, or a first `th` without "constant", gives no scheme |
| ParseConstants.FillRow | src/parse_constants.rs:108-139 | the cell loop fills the constant the scheme assigns each cell to |
| ParseConstants.Fill | src/parse_constants.rs:108-139 | the filled constant carries the page's link, and its descriptors stay sorted |
| ParseConstants.FillUniqueColumn | src/parse_constants.rs:123-129 | the name or description is the cell under its column, or empty when the row is too short |
| ParseConstants.FillUniqueDescriptor | src/parse_constants.rs:130-135 | a secondary column's header maps to the cell under it, and to nothing when the row is too short |
| ParseConstants.NameIsFirstCell | src/parse_constants.rs:76-126 | in a table of constants the name is the row's first cell |
| ParseConstants.Unwrap | src/parse_constants.rs:142-149 | a wrapped string is the marker, the result and the marker; anything else is unchanged |
| ParseConstants.CleanNameUnwraps | src/parse_constants.rs:141-149 | `` `**name**` `` cleans to `name`, and a name without markers stays as it is |
| ParseConstants.Cleaned | src/parse_constants.rs:141-170 | skipped exactly when the cleaned name starts with a backslash; a kept constant has that name and the link; its descriptors are non-empty, sorted and non-blank when present; a blank description has no descriptors; a non-blank description is kept, with descriptors filtered; a blank description with descriptors left after filtering takes the value under the least kept key, and that key alone leaves the map; with none left, the description stays and the descriptors become `None` |
| ParseConstants.CleanUp | src/parse_constants.rs:141-170 | the clean-up statements compute `Cleaned` of the constant, with every property stated there: the skip, the name, the filter and the promotion of the least descriptor |
| ParseConstants.BacktickNameCleaned | src/parse_constants.rs:141-153 | a name in backticks loses them; a row without secondary columns keeps its description |
| ParseConstants.TwoColumnRow | src/parse_constants.rs:107-172 | under the scheme Constant, Description a row of two cells records the unquoted name with the description and no secondary columns |
| ParseConstants.RedConstant | src/parse_constants.rs:107-172 | the row `` `c_red` ``, "the color red" records `c_red` described as "the color red" |
| ParseConstants.ParseInner | src/parse_constants.rs:38-177 | the map after the table: unchanged for a table that is not a table of constants, otherwise each surviving row with a non-empty name inserted under it |
| ParseConstants.ReadRows | src/parse_constants.rs:107-175 | the row loop inserts every surviving row with a non-empty name, in order, each under its cleaned name, a later row replacing an earlier one of the same name |
| ParseConstants.InsertRow | src/parse_constants.rs:108-174 | one row: an element row is filled, cleaned and inserted under its name unless the clean-up skips it or the name is empty; any other row changes nothing |
| ParseConstants.AddRow | src/parse_constants.rs:108-174 | reading a row never adds or changes an entry under the empty name |
| ParseConstants.AddRowAgrees | src/parse_constants.rs:141-172 | the corrected reading of a row equals the source's, except for a row whose cleaned name is empty: the source stores it under `""` and the corrected reading leaves the map unchanged |
| ParseConstants.EmptyNameStored | src/parse_constants.rs:108-172 | under the scheme "Constant", "Description", the row of an empty cell and "d" is stored by the source as `("", "d")` under `""`; the corrected reading stores nothing |
| ParseConstants.EmptyFirstCellFill | src/parse_constants.rs:109-139 | that row fills to the name `""` and the description "d" |
| ParseConstants.BackticksOnlyNameEmpty | src/parse_constants.rs:143-146 | a first cell of two backticks cleans to the empty name |
| ParseConstants.RowsIntoKeeps | src/parse_constants.rs:107-175 | the rows keep the map consistent (each constant under its own non-empty name and well formed), only add keys, and write entries with the page's link |
| ParseConstants.InnerKeeps | src/parse_constants.rs:38-177 | a table keeps the map consistent, only adds keys, and leaves every entry it does not write unchanged |
| ParseConstants.ParseConstant | src/parse_constants.rs:33-36 | the tables are read one after the other into the map |
| ParseConstants.AllTablesKeep | src/parse_constants.rs:33-36 | a page's tables keep the map consistent and only add keys |
| ParseFnames.ParseFnames | src/parse_fnames.rs:10-40 | every path of the result is the page path of an entry whose keyword has no uppercase letter, whose file name (if any) has none, and whose path contains `GameMaker_Language/GML_Reference`; every such entry gives its page path; every result path with a file name ends in `.htm` |
| ParseFnames.FileName | src/parse_fnames.rs:19-21 | the last component, non-empty and without a separator |
| ParseFnames.Join | src/parse_fnames.rs:34 | an absolute path replaces the directory; otherwise the result starts with the directory and ends with the path |
| ParseFnames.SetExtension | src/parse_fnames.rs:35 | a path without a file name is unchanged; otherwise the stem followed by `.htm` |
| ParseFnames.PagePathExtension | src/parse_fnames.rs:34-37 | a kept path with a file name ends in `.htm` |
| ParseFnames.SetExtensionIdempotent | src/parse_fnames.rs:35 | setting the extension twice is setting it once |
| ParseFnames.DroppedEntry | src/parse_fnames.rs:17-33 | an entry the filter drops contributes nothing: the result equals that of the index without it |
| ParseFnames.UppercaseKeywordDropped | src/parse_fnames.rs:18 | an entry whose keyword has an uppercase letter can be removed from the index without changing the result |
| ParseFnames.UppercaseFileNameDropped | src/parse_fnames.rs:19-25 | an entry whose file name has an uppercase letter can be removed without changing the result, whatever its keyword |
| ParseFnames.MissingRootDropped | src/parse_fnames.rs:26-32 | an entry whose path lacks `GameMaker_Language/GML_Reference` can be removed without changing the result |
| ParseFnames.ParseFnamesBound | src/parse_fnames.rs:16-39 | the set of paths is no larger than the index |

## Left out

- File and directory I/O is not modelled: reading the pages, the recursive `read_dir` walk of `parse_constants`, and decoding the JSON keyword index. The model starts from a page's node tree and from the decoded index map.
- HTML parsing and the `h1`, `h4` and `table` selectors are given, not derived. A page is the list of its `h1` and `h4` headings, each a position among its parent's children.
- `convert_to_url`, `Url` and `Path::to_path_buf` are not modelled. A link is an opaque string passed in.
- `parse_constants` in `src/parse_file.rs` (lines 421-452) is unfinished and does not compile. It and its call in `parse_function_file` are left out. Constants are modelled by `src/parse_constants.rs`.
- Logging (`error!`, `trace!`, `info!`), `src/main.rs`, `src/arg.rs` and output serialisation are not modelled.
- ParseFnames.Keep: uppercase is tested on ASCII letters only, where the source uses Unicode `char::is_uppercase`. A keyword or file name with only non-ASCII capitals is kept by the model and dropped by the source.
- ParseConstants.ColumnOf: "description" is looked for after ASCII lowercasing, where the source uses Unicode `to_lowercase`. They differ only on header text with non-ASCII capitals.
- ParseFnames.FileName: paths are `/`-separated strings. `.` components, trailing separators and Windows prefixes are not normalised as `std::path` does. A last component of `..` or an empty one counts as no file name.
- ParseFnames.ParseFnames: the result is a `set`, so the `BTreeSet` order is not modelled. Collapsing duplicates is modelled.
- Parameters.ReconcileRows: records the corrected required count `RequiredParameters`, not the source's `position(|v| *v).unwrap_or_default()`. The two agree whenever a guess among the parameters is optional (`RequiredAgreesWhenSomeOptional`); both discrepancies are under Findings.
- Parameters.Reconcile: records the corrected required count, as `ReconcileRows` does.
- ParseFile.ParseParameters: the required count it returns is the corrected one, from `Reconcile`.
- ParseFile.ParseFunctionFile: the `required_parameters` of the page's function is the corrected count, from `Reconcile`.
- ParseConstants.InsertRow: a row whose cleaned name is empty is skipped, where the source stores it under `""`. The source's reading is `AddRowAsWritten`, and `AddRowAgrees` shows the two differ only there. The discrepancy is under Findings.
- ParseConstants.ReadRows: skips rows with an empty cleaned name, through `InsertRow`.
- ParseConstants.ParseInner: skips rows with an empty cleaned name, through `ReadRows`.
- ParseConstants.ParseConstant: skips rows with an empty cleaned name, through `ParseInner`.
- Panics are preconditions, not modelled behaviour:
  - flattening a comment node: `HeadingSafe`, `BodySafe`, `HeaderCellSafe`, `SchemeSafe`;
  - a signature whose first `)` precedes its first `(`: `SignatureSafe`;
  - `parameters.unwrap()` when the name, returns and example are all found but the syntax section yields nothing: `PageSafe`. A missing syntax heading never gets there (`MissingSyntaxYieldsNothing`). The cases that do are a syntax heading with no sibling after next, a call signature with no later `table` sibling, a table with fewer than two children, and a data row with fewer than four children;
  - a table with fewer than two children: `TableSafe`;
  - a row with more cells than columns: `RowsSafe`;
  - a name of one backtick, or of `**` or `***` after the backticks are removed: `NameSliceable`.

## Findings

| source | as written | input that shows it | evidently intended | confidence | as-written member | corrected member |
|---|---|---|---|---|---|---|
| src/parse_file.rs:193-194 | `required_parameters` is `position(|v| *v).unwrap_or_default()`, which is 0 when no parameter is optional | a function with two rows and guesses [false, false]: both parameters are mandatory and the count is 0 | the number of parameters when none is optional, as the record's field documentation "The count of the number of required parameters" (src/lib.rs:43) says | high, not executed | Parameters.RequiredAsWritten, shown by Parameters.RequiredAsWrittenMiscounts and Parameters.RequiredWhenNoneOptional | Parameters.RequiredParameters (used by Parameters.Reconcile; proved by Parameters.ReconcileArity and Parameters.RequiredAgreesWhenSomeOptional) |
| src/parse_file.rs:193-194 | the position is searched over all the guesses, and the signature may have more guesses than the table has rows | `f(a, b, c, [d])`, guesses [false, false, false, true], and a table of two mandatory rows: the count is 3 with 2 parameters | a count no larger than the number of parameters | medium, not executed | Parameters.RequiredAsWritten, shown by Parameters.RequiredAsWrittenOvercounts and Parameters.RequiredWhenNoneOptional | Parameters.RequiredParameters (bounded by the parameters in Parameters.ReconcileArity) |
| src/parse_constants.rs:141-172 | a row is inserted under its cleaned name whatever that name is | under the scheme "Constant", "Description", a row whose first cell is empty, or is two backticks, is stored under the name `""` | no constant with an empty name, as the record documentation says: the name is the one field guaranteed to be non-empty (src/lib.rs:99-100) | medium, not executed | ParseConstants.AddRowAsWritten, shown by ParseConstants.EmptyNameStored and ParseConstants.BackticksOnlyNameEmpty | ParseConstants.AddRow (used by ParseConstants.InsertRow and the row loop; related to the source by ParseConstants.AddRowAgrees; no empty name kept by ParseConstants.RowsIntoKeeps, ParseConstants.InnerKeeps and ParseConstants.AllTablesKeep) |
