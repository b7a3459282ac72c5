# enigma tag server, modelled in Dafny

enigma is a small tag server for editors. It loads extended ctags files into
an in-memory tag database. Then it answers one-line text requests: `echo`,
`find-other-file`, `load-tags-file`, `describe` and `find`. This project models
its core and proves properties of the model:

- **Tag kinds** (`tag_kinds.dfy`, module `TagKinds`): the kind enumeration and
  its two lookup tables. One maps the one-character code of a tag line, the
  other the lower-cased kind name a client passes to `describe`.
- **Tag-line parser** (`tag_definition.dfy`, `TagDefinitions`): a
  `TagDefinition` owns its line and keeps every piece as a `(start, end)`
  offset pair. `FromString` parses `NAME\tFILE\tADDRESS;"\tKIND\tFIELDS` and
  panics wherever the code unwraps or slices out of range.
  `TuplesFromSplit` is the range-splitting loop.
- **Assembled tag lines** (`tag_lines.dfy`, `TagLines`): what the parser reads
  back from a line built from its parts. The parser's unit-test lines are
  of this shape.
- **Tag files and database** (`tag_file.dfy`, `tag_database.dfy`; `TagFiles`,
  `TagDatabases`): the line loop of `TagFile::from_file` skips `!_` header
  lines and lines that fail to read. It parses every other line, and one bad
  line aborts the whole load. The database is a class holding the sequence
  of loaded files; `all_tags` is their flattening.
- **Abbreviation matcher** (`search.dfy`, `Search`): `match_abbrev` as a
  method, proved against a reference predicate. The predicate accepts a
  case-insensitive prefix, or the query's camel-case parts found in the
  value in order.
- **Argument tokenizer** (`args.dfy`, `Args`): `split_args` as a method over
  its loop state, proved equal to a recursive specification. Lemmas state
  what it does to quote-free input, including that one-character words
  before whitespace are dropped, and what a quoted phrase does to the loop
  state. Two lemmas give the tokens of `word "a quoted phrase"` and of two
  quoted phrases: the phrases without their quotes.
- **Commands and dispatcher** (`commands.dfy`, `server.dfy`; `Commands`,
  `Servers`): each command is a prefix test plus a reply function. Only
  `load-tags-file` changes the database, and it appends. The `Server` class
  holds the ordered command list, the database and the request counter.
  `Execute` runs the first command that accepts the request, or replies
  "Unrecognized command".
- Shared pieces: `prelude.dfy` (`Prelude`: `Option`, `Result` with a `Fault`
  naming each panic, first-match search), `text.dfy` (`Text`: the `str`
  operations the code uses), and `paths.dfy` (`Paths`: `Path::file_name`,
  `extension` and `file_stem` for Unix paths).

Conventions of the model:

- Strings are ASCII `seq<char>`, so byte offsets and character indices agree.
- A Rust panic is the `Panic(fault)` alternative of a `Result`.
- Integers are unbounded, and `usize` parsing is bounded by `UsizeMax`.
- The file system is a parameter mapping each path to the lines read from it.
  A line is either its text or a read error.
- The `getopts` parser of `describe` is a parameter. It turns the argument
  list into a failure message, or into whether the `kind` option was given
  and with which value.

## Model

| member | source | states |
|---|---|---|
| TagKinds.KindFromCharTable | src/tags/mod.rs:34-58 | A character gives a known kind exactly when it is one of the 21 table characters; `N` and `U` (and only they) give NamespaceUsingStatement, only `F` gives File, anything else Unknown |
| TagKinds.KindFromChar | src/tags/mod.rs:34-58 | The table gives a known kind exactly for the 21 kind characters |
| TagKinds.KindCode | src/tags/mod.rs:35-56 | Every one of the 20 known kinds is reached by some table character |
| TagKinds.KindFromCharCollisions | src/tags/mod.rs:54-55 | Two distinct characters give the same known kind only when they are `N` and `U`: 21 characters, 20 distinct kinds |
| TagKinds.KindCodeUnique | src/tags/mod.rs:36-56 | Apart from `U`, each table character is the one code of its kind |
| TagKinds.KindFromStr | src/tags/mod.rs:61-85 | A known kind is returned exactly when the lower-cased input is that kind's name; Unknown exactly when it is no kind's name |
| TagKinds.KindFromStrName | src/tags/mod.rs:62-82 | Every known kind is found from its name in any letter case |
| TagKinds.KindFromStrClassExamples | src/tags/mod.rs:62-78 | "CLASS", "Class" and "class" all give Class |
| TagKinds.KindFromStrUnknownExample | src/tags/mod.rs:83 | A string that is no kind name gives Unknown |
| TagKinds.KindFromStrCaseInsensitive | src/tags/mod.rs:62 | Only the lower-cased input decides the kind |
| TagKinds.DebugNameInjective | src/tags/mod.rs:8-10 | The derived `Debug` names of distinct kinds differ, so the kind in a rendering identifies it |
| TagKinds.DebugNameNoQuote | src/tags/mod.rs:8-10 | No kind's `Debug` name holds a double quote |
| TagDefinitions.TagDefinition.Fields | src/tags/tag_definition.rs:82-83 | Every extension-field range is a slice of the owned line |
| TagDefinitions.TagDefinition.Name | src/tags/tag_definition.rs:19-21 | `name()` is the text of the owned line that starts at the name range's start and is as long as the range |
| TagDefinitions.TagDefinition.SourceFile | src/tags/tag_definition.rs:23-25 | `source_file()` is the text of the owned line that starts at the file range's start and is as long as the range |
| TagDefinitions.TagDefinition.Declaration | src/tags/tag_definition.rs:35-37 | `declaration()` returns exactly when its range lies within the line, and then the text at that range; it panics with DeclarationOutOfRange otherwise |
| TagDefinitions.TagDefinition.ToElisp | src/tags/tag_definition.rs:107-110 | With a name and source file free of double quotes, cutting the rendering at its double quotes gives five pieces: `(tag :name `, the name, ` :source `, the source file, and ` line: N :kind 'Kind))` |
| TagDefinitions.Blank | src/tags/tag_definition.rs:39-48 | `new`: empty name, source file and declaration, kind File, line 0, no fields |
| TagDefinitions.NewFile | src/tags/tag_definition.rs:50-59 | `new_file(p)`: name p, empty source file and declaration, kind File, line 0, no fields |
| TagDefinitions.ParseDeclaration | src/tags/tag_definition.rs:113-124 | On success the cursor returned is three past the first `;"` |
| TagDefinitions.SeparatorIndices | src/tags/tag_definition.rs:127 | Every offset returned holds the separator |
| TagDefinitions.SeparatorIndicesSorted | src/tags/tag_definition.rs:127 | The offsets come in strictly increasing order |
| TagDefinitions.SeparatorIndicesComplete | src/tags/tag_definition.rs:127 | Every occurrence of the separator is among them |
| TagDefinitions.SplitRangesAt | src/tags/tag_definition.rs:136-141 | Range k runs from separator k-1 (or 0) to separator k (or the end) |
| TagDefinitions.SplitRangesTile | src/tags/tag_definition.rs:126-143 | No ranges for an empty value, otherwise one more than there are separators, from 0 to the length, each a slice of the value |
| TagDefinitions.SplitRangesContiguous | src/tags/tag_definition.rs:137-141 | Each range starts where the previous ends, and every range after the first starts at a separator |
| TagDefinitions.SplitRangesSeparators | src/tags/tag_definition.rs:137-141 | A separator inside a range can only be the first character of a range after the first |
| TagDefinitions.TuplesFromSplit | src/tags/tag_definition.rs:126-143 | The loop that pushes one range per gap builds exactly the ranges above |
| TagDefinitions.FieldSpans | src/tags/tag_definition.rs:82-83 | The field ranges, shifted to line offsets, lie within the line |
| TagDefinitions.FieldSpansAt | src/tags/tag_definition.rs:82-83 | Each field range is the tab-split range of the rest of the line moved by the start offset |
| TagDefinitions.FieldSpansTile | src/tags/tag_definition.rs:82-83 | The field ranges cover the rest of the line from the start offset to the end |
| TagDefinitions.FieldSpansTabs | src/tags/tag_definition.rs:82-83 | A tab inside a field range is that range's first character, and only for fields after the first |
| TagDefinitions.FieldStartsAtTab | src/tags/tag_definition.rs:82-83 | Every field range after the first starts on the tab that separates it from the previous field |
| TagDefinitions.FirstFieldSpan | src/tags/tag_definition.rs:82-87 | The first field is the text from the start offset up to the next tab |
| TagDefinitions.FromString | src/tags/tag_definition.rs:61-105 | A parsed record owns the line it was read from and its ranges are valid for that line |
| TagDefinitions.FromAddress | src/tags/tag_definition.rs:75-83 | After the address: success needs a `;"` and a kind character followed by one more character; the kind sits three past `;"` |
| TagDefinitions.FromFields | src/tags/tag_definition.rs:78-104 | The record keeps the given ranges, the kind of the kind character, and the line number read from the fields; it fails exactly when that read fails |
| TagDefinitions.FromStringRanges | src/tags/tag_definition.rs:66-72 | The name range ends at the first tab; the source-file range runs from after it to the next tab |
| TagDefinitions.FromStringAddress | src/tags/tag_definition.rs:75 | The declaration range is the one `parse_declaration` returns, and at least three characters follow the first `;"` (the tab, the kind character and the one the cursor skips) |
| TagDefinitions.FromStringKindAndFields | src/tags/tag_definition.rs:78-83 | The kind is that of the character three past `;"`, and the fields begin five past it |
| TagDefinitions.FromStringLocation | src/tags/tag_definition.rs:86-95 | The stored line number is the one read from the record's own fields |
| TagDefinitions.FromStringName | src/tags/tag_definition.rs:66-67 | `name()` holds no tab and is followed by a tab at the start of the line: the text before the first tab |
| TagDefinitions.FromStringSourceFile | src/tags/tag_definition.rs:71-72 | `source_file()` is the tab-free text between the first and second tabs |
| TagDefinitions.FromStringKind | src/tags/tag_definition.rs:75-79 | In both address forms the kind is that of the character three past the first `;"` |
| TagDefinitions.FromStringDeclaration | src/tags/tag_definition.rs:113-124 | Without `/^` the declaration is empty; with it, it runs from after `/^` to two before the first `;"`, and reading it panics when those offsets cross |
| TagDefinitions.AddressDeclaration | src/tags/tag_definition.rs:35-37 | `declaration()` slices the range `parse_declaration` produced, with the same two cases |
| TagDefinitions.OnlyFirstFieldIsLineField | src/tags/tag_definition.rs:87 | A field after the first starts with its tab, so it never starts with `line:` |
| TagDefinitions.FromStringSourceLine | src/tags/tag_definition.rs:86-95 | The line number is the usize after `line:` when the first field is a `line:` field, and 1 otherwise |
| TagDefinitions.LocationFromFirstField | src/tags/tag_definition.rs:86-95 | The line-number lookup depends only on the text up to the first tab after the start; a bad number panics |
| TagDefinitions.LineFieldValue | src/tags/tag_definition.rs:87-93 | With only the first field a candidate, the number is parsed after its colon, and is 1 without a `line:` field |
| TagDefinitions.FromFieldsOk | src/tags/tag_definition.rs:86-104 | The record is built whenever the line number can be read |
| TagDefinitions.FromAddressOk | src/tags/tag_definition.rs:75-83 | A line whose first `;"` is followed by at least three characters, with a readable line number, passes the address step |
| TagDefinitions.FromStringOkIffWellFormed | src/tags/tag_definition.rs:61-105 | `from_string` returns exactly on well-formed lines (two tabs, a first `;"` with at least three characters after it, at offset 2 or later for a `/^` address, a readable `line:` number) and panics on all others |
| TagLines.TagLineTabs | src/tags/tag_definition.rs:66-72 | In a line `name\tfile\t...` with tab-free name and file, the two tabs are found where name and file end |
| TagLines.FromStringTagLine | src/tags/tag_definition.rs:151-170 | Parsing an assembled line gives back its name, source file, kind and line number (1 without a `line:` field): the two unit tests' lines are instances |
| TagLines.TagLineReadBack | src/tags/tag_definition.rs:61-105 | A line laid out like an assembled one parses to its parts |
| TagLines.RecordNameAndFile | src/tags/tag_definition.rs:19-25 | The accessors slice out the name and the source file at their ranges |
| TagLines.FieldsLocationOk | src/tags/tag_definition.rs:86-95 | A readable `line:` number (or none) lets the line-number step succeed |
| TagLines.RecordSourceLine | src/tags/tag_definition.rs:86-95 | The line number is the parsed `line:` value, or 1 |
| TagLines.TagLineOk | src/tags/tag_definition.rs:61-105 | Given its tabs, `;"` and a readable line number, the line parses |
| TagLines.TagLineRanges | src/tags/tag_definition.rs:66-72 | The ranges of a parsed line are those of its two tabs |
| TagLines.TagLineKindAndLocation | src/tags/tag_definition.rs:78-95 | The kind and line number of a parsed line come from three and five past its `;"` |
| TagLines.DeclarationOk | src/tags/tag_definition.rs:113-124 | A `;"` at offset 2 or later makes `parse_declaration` succeed |
| TagLines.FromStringTagLineNoPattern | src/tags/tag_definition.rs:116-117 | A line without a `/^` pattern parses with an empty declaration |
| TagFiles.Kept | src/tags/tag_file.rs:27-36 | A read line is kept exactly when it reads and does not start with `!_`, and then as its text |
| TagFiles.TagTexts | src/tags/tag_file.rs:26-37 | The kept texts are never header lines and no more than the lines |
| TagFiles.TagTextsAppend | src/tags/tag_file.rs:26-37 | The loop over two runs of lines keeps the texts of both, in order |
| TagFiles.TagTextsStep | src/tags/tag_file.rs:26-37 | One more line adds its text when kept and nothing otherwise |
| TagFiles.TagTextsComplete | src/tags/tag_file.rs:32-33 | Every line that reads and is not a header line is kept |
| TagFiles.ParseEach | src/tags/tag_file.rs:33 | A load that returns has one tag per kept text |
| TagFiles.ParseEachParsed | src/tags/tag_file.rs:33 | Tag k is the parse of text k: order is kept |
| TagFiles.ParseEachAborts | src/tags/tag_file.rs:33 | A failed load fails at the first text that does not parse, with that text's fault |
| TagFiles.ParseEachOkIff | src/tags/tag_file.rs:33 | The load returns exactly when every kept text parses |
| TagFiles.ParseEachStep | src/tags/tag_file.rs:33 | One more text appends its tag or aborts with its fault |
| TagFiles.ParseEachAborted | src/tags/tag_file.rs:33 | Once a text has failed, later lines change nothing |
| TagFiles.LoadOkIffWellFormed | src/tags/tag_file.rs:26-37 | A file loads exactly when every kept line is well formed: one malformed line aborts the load |
| TagFiles.LoadedFileTags | src/tags/tag_file.rs:16-37 | A loaded file keeps its path, has one tag per kept line, and tag k is the valid record of line k |
| TagFiles.FromFile | src/tags/tag_file.rs:16-42 | The loop that pushes one tag per kept line builds exactly the loaded file, or panics like it; a missing file panics |
| TagDatabases.FlattenAppend | src/tags/mod.rs:98-100 | The tags of two runs of files are those of the first followed by those of the second |
| TagDatabases.FlattenFirst | src/tags/mod.rs:98-100 | All tags are the first file's tags followed by the rest's |
| TagDatabases.FlattenMember | src/tags/mod.rs:98-100 | A tag is among all tags exactly when it is in some file |
| TagDatabases.FlattenMembers | src/tags/mod.rs:98-100 | The same for every tag at once |
| TagDatabases.TagDatabase.AllTags | src/tags/mod.rs:98-100 | `all_tags` holds a tag exactly when some loaded file holds it |
| TagDatabases.TagDatabase.constructor | src/tags/mod.rs:92-96 | A new database has no files and no tags |
| Search.Camel | src/search.rs:7-20 | No completed part is empty, and the current part is not empty once the query is |
| Search.CamelStep | src/search.rs:9-17 | One more character closes the current part at an uppercase character, otherwise extends it |
| Search.CamelShape | src/search.rs:7-20 | The parts spell the query back; only a part's first character may be uppercase, and every later part starts with one |
| Search.CamelPartsShape | src/search.rs:7-20 | The final parts concatenate to the query, are non-empty, and all after the first start uppercase |
| Search.OccursInSuffix | src/search.rs:24 | Finding in `value[index..]` at p is finding in the value at index + p |
| Search.FirstOccurrence | src/search.rs:22-30 | Moving the cursor to the first match of a part loses no way of matching the rest |
| Search.LaterStart | src/search.rs:22-30 | Parts that match from a later cursor match from an earlier one |
| Search.NoOccurrence | src/search.rs:24-25 | A part missing after the cursor means no match |
| Search.MatchAbbrev | src/search.rs:1-33 | True exactly when the lower-cased value starts with the lower-cased query, or the query's camel-case parts occur in the value in order, each at or after the start of the previous one |
| Search.PrefixAbbreviates | src/search.rs:3-5 | The case-insensitive prefix test alone accepts; the empty query matches everything |
| Search.Abbreviates | src/search.rs:1-5 | The empty query and the value itself are always accepted |
| Args.GetSplit | src/server/commands/args.rs:27-33 | Panics exactly on a quoted segment shorter than two characters; otherwise a slice of the input, with the quotes stripped when the segment saw one |
| Args.PiecesAppend | src/server/commands/args.rs:12 | Pushing a slice of the input keeps every token a slice of it |
| Args.Step | src/server/commands/args.rs:10-19 | One loop iteration never moves the segment start past the next character, and `i - 1` cannot underflow on trimmed input |
| Args.ScanPrefix | src/server/commands/args.rs:9-20 | The segment start never passes the loop position |
| Args.ScanPieces | src/server/commands/args.rs:9-20 | Every token the loop pushes is a slice of the trimmed input |
| Args.SplitTrimmed | src/server/commands/args.rs:1-25 | A result has at least one token, all of them slices of the trimmed input |
| Args.SplitArgs | src/server/commands/args.rs:1-25 | The loop with `prev_split`, `quoted` and `was_quote` computes the specification on the trimmed input |
| Args.BlankInput | src/server/commands/args.rs:2-22 | Empty or all-whitespace input gives `[""]` |
| Args.EmptyInput | src/server/commands/args.rs:22 | The final push happens even on empty input |
| Args.WsSplit | src/server/commands/args.rs:10 | Reference cut at each whitespace character: at least one piece, none holding whitespace |
| Args.LongPieces | src/server/commands/args.rs:11 | The pieces the `prev_split < i - 1` test keeps have at least two characters |
| Args.ScanUnquoted | src/server/commands/args.rs:9-20 | Without quotes, the loop keeps the long pieces before the current one and the current segment is the last piece |
| Args.UnquotedSpace | src/server/commands/args.rs:10-15 | A whitespace character ends the current piece |
| Args.UnquotedOther | src/server/commands/args.rs:16-19 | Any other character extends it |
| Args.UnquotedSplit | src/server/commands/args.rs:9-22 | Without quotes, the tokens are the pieces of two or more characters before the last, then the last piece, always |
| Args.UnquotedTokens | src/server/commands/args.rs:10-22 | Quote-free input never panics and no token holds whitespace |
| Args.NonEmptyPieces | src/server/commands/args.rs:10 | Reference words: the non-empty pieces, in order |
| Args.LongPiecesNonEmpty | src/server/commands/args.rs:11 | With no one-character piece, the long pieces are the non-empty ones |
| Args.LastPieceNonEmpty | src/server/commands/args.rs:2 | A trimmed input's last piece is not empty |
| Args.SplitOnWhitespaceRuns | src/server/commands/args.rs:1-25 | Quote-free input with no one-character word splits into its words on runs of whitespace, leading and trailing whitespace ignored |
| Args.WsSplitWord | src/server/commands/args.rs:10 | A space and a word add that word as the last piece |
| Args.OneLetterWordDropped | src/server/commands/args.rs:11-15 | A one-character word before whitespace is dropped: `c word` gives `[word]` |
| Args.ShortFirstPiece | src/server/commands/args.rs:11-22 | With two pieces, a first piece under two characters is dropped and the second kept |
| Args.LastWord | src/server/commands/args.rs:22 | The last token of a quote-free request ending in a word is that word |
| Args.LastTokenIsLastPiece | src/server/commands/args.rs:22 | The last token is the last piece |
| Args.InertRun | src/server/commands/args.rs:10-19 | A run of quote-free characters that are not whitespace, or that fall inside a quote, leaves the loop state as it was |
| Args.SpaceRun | src/server/commands/args.rs:10-15 | Outside a quote, a run of whitespace with no segment pending (`prev_split` at most one before the run) pushes nothing and only moves `prev_split` past the run |
| Args.QuotedPhrase | src/server/commands/args.rs:16-18 | A quoted phrase with no quote inside, read outside a quote, toggles `quoted` back off and sets `was_quote`, with the tokens and segment start unchanged |
| Args.QuotedPhraseCut | src/server/commands/args.rs:10-14 | Whitespace after a quoted phrase pushes the phrase without its quotes and clears `was_quote` |
| Args.QuotedPhraseLast | src/server/commands/args.rs:22 | A quoted phrase that ends the input is the last token, without its quotes |
| Args.PaddedSplit | src/server/commands/args.rs:2 | Whitespace around the input changes none of its tokens |
| Args.WordThenQuoted | src/server/commands/args.rs:64 | Padded `word "phrase"`, with a word of two or more characters, gives `[word, phrase]`: spaces inside the quotes are kept |
| Args.QuotedThenQuoted | src/server/commands/args.rs:65-66 | Two padded quoted phrases give the two phrases without their quotes |
| Commands.Prefix | src/server/commands/echo.rs:13-14 | Each command's prefix is at least five characters and ends with a space |
| Commands.PrefixesExclusive | src/server/commands/find_tags.rs:39-40 | No request is accepted by two commands; `find ` does not accept `find-other-file ` requests |
| Commands.EchoReply | src/server/commands/echo.rs:17-24 | The reply is everything after the first space, or "" without a space |
| Commands.EchoAfterPrefix | src/server/commands/echo.rs:13-22 | An accepted request is answered with what follows `echo ` |
| Commands.SecondToken | src/server/commands/load_tags_file.rs:19-20 | Panics with NoFirstLine exactly on the empty request, and with MissingArgument exactly when its first line holds no space, that is when `split(" ")` gives fewer than two tokens |
| Commands.SecondTokenValue | src/server/commands/load_tags_file.rs:19-20 | Otherwise the argument is the trimmed text between the first space of the first line and the next space, or the line's end |
| Commands.EmptyArgument | src/server/commands/load_tags_file.rs:19-20 | A command followed by two spaces, as in `load-tags-file  x`, gives the empty argument |
| Commands.FirstLineOnly | src/server/commands/load_tags_file.rs:19-20 | Only the first line is split: text after the first newline never changes the argument or the panics |
| Commands.ArgumentOf | src/server/commands/load_tags_file.rs:19-20 | For `cmd arg` with a whitespace-free argument the argument is the trimmed second token |
| Commands.ArgumentOfCommand | src/server/commands/find_other_file.rs:48-50 | The argument of a `find-other-file` or `load-tags-file` request is the text after its prefix |
| Commands.CompanionsSymmetric | src/server/commands/find_other_file.rs:14-19 | The companion map is symmetric and no extension is its own companion |
| Commands.MatchOtherFileNamed | src/server/commands/find_other_file.rs:23-39 | `dir/stem.ext` matches exactly when the stem equals the one given and the extension is in the list |
| Commands.FindOtherOnArgument | src/server/commands/find_other_file.rs:47-69 | "" for an argument without extension, a panic for an unmapped one, else the source file of the first tag named like a companion, or "Other file not found." |
| Commands.FindOtherReply | src/server/commands/find_other_file.rs:47-69 | Panics with NoFirstLine exactly on the empty request, with MissingArgument exactly when its first line holds no space, and otherwise only for an unmapped extension |
| Commands.FindOtherFileReply | src/server/commands/find_other_file.rs:47-69 | The same for a request `find-other-file arg` |
| Commands.DoDescribe | src/server/commands/describe_tag.rs:22-32 | "" exactly when no tag has that name and kind; otherwise the rendering of the first one |
| Commands.DescribeReply | src/server/commands/describe_tag.rs:44-59 | An empty request panics |
| Commands.DescribeLastWord | src/server/commands/describe_tag.rs:44-59 | The name looked up is the last word; without a `kind` option the reply is the usage line |
| Commands.DoFindTags | src/server/commands/find_tags.rs:25-35 | "nil" exactly when no tag name starts with the query; otherwise the rendering of the first such tag |
| Commands.FindTagsReply | src/server/commands/find_tags.rs:43-51 | An empty request panics |
| Commands.FindTagsLastWord | src/server/commands/find_tags.rs:43-51 | The query is the request's last word |
| Commands.LoadAppends | src/server/commands/load_tags_file.rs:18-26 | "Done" and exactly one file appended, loaded from the argument, earlier files unchanged, its tags after all earlier tags; a panic appends nothing; tags stay valid |
| Commands.Run | src/server/mod.rs:22-25 | Every command but `load-tags-file` leaves the tag files unchanged |
| Commands.RunKeepsValid | src/server/mod.rs:88 | Whatever command runs, every tag stays a valid record |
| Commands.LoadTagsFileInto | src/server/commands/load_tags_file.rs:18-26 | Appending in place gives the reply and files of the load specification |
| Commands.Execute | src/server/mod.rs:88 | A command's execute on the database gives the reply and files of its specification |
| Servers.StandardDispatch | src/server/mod.rs:48-52 | With the standard commands, a request goes to the one command that accepts it |
| Servers.FindTagsUnregistered | src/server/mod.rs:48-52 | A `find` request reaches no standard command |
| Servers.Server.constructor | src/server/mod.rs:28-34 | No commands, an empty database, counter 0 |
| Servers.Server.AddCommand | src/server/mod.rs:62-64 | Appends the command, leaving earlier ones, the database and the counter alone |
| Servers.Server.Execute | src/server/mod.rs:78-101 | Counter up by one; the first accepting command runs and its reply is returned; with none, "Unrecognized command" and the database untouched; tags stay valid |
| Servers.StandardServer | src/server/mod.rs:48-52 | The standard server has Echo, FindOtherFile, LoadTagsFile and DescribeTag in that order, an empty database and counter 0 |
| Prelude.FirstWhere | src/server/mod.rs:86-93 | The first index satisfying the test, with none before it; None when no element does |
| Text.ToLower | src/search.rs:3 | Lower-casing keeps the length and lowers each character |
| Text.ToLowerIdempotent | src/tags/mod.rs:62 | Lower-casing twice is lower-casing once |
| Text.Find | src/tags/tag_definition.rs:66 | `str::find`: the first offset where the pattern occurs, None when it occurs nowhere |
| Text.Split | src/server/commands/find_other_file.rs:48 | At least one piece, none holding the separator |
| Text.JoinSplit | src/server/commands/find_other_file.rs:48 | Joining the pieces with the separator gives the string back |
| Text.SplitConcat | src/server/commands/find_other_file.rs:24-26 | Splitting `a sep b` gives the pieces of `a` followed by those of `b` |
| Text.TrimStart | src/server/commands/args.rs:2 | A suffix that starts with a non-whitespace character, only whitespace removed |
| Text.TrimEnd | src/server/commands/args.rs:2 | A prefix that ends with a non-whitespace character, only whitespace removed |
| Text.Trim | src/server/commands/args.rs:2 | A slice with no whitespace at either end, empty exactly for all-whitespace input |
| Text.TrimPadded | src/server/commands/args.rs:2 | Trimming removes exactly the whitespace padding around a string |
| Text.FirstLine | src/server/commands/find_other_file.rs:48 | `lines().nth(0)`: None exactly for the empty string, otherwise a newline-free prefix, and the whole string when it holds no newline |
| Text.FirstLineOf | src/server/commands/find_other_file.rs:48 | The first line of `a\nb` is `a`, for `a` without a newline or a final carriage return |
| Text.FirstLineOfCrLf | src/server/commands/find_other_file.rs:48 | The first line of `a\r\nb` is `a`: the carriage return before the newline is dropped |
| Text.Decimal | src/tags/tag_definition.rs:108 | The decimal rendering is a non-empty string of digits, one digit exactly below 10, with no leading zero |
| Text.DigitsValueDecimal | src/tags/tag_definition.rs:92 | Reading back a rendered number gives the number |
| Text.ParseUsizeDecimal | src/tags/tag_definition.rs:92 | `parse::<usize>` accepts every rendered usize |
| Text.ParseUsize | src/tags/tag_definition.rs:92 | `parse::<usize>` accepts only a digit, or a `+` and at least one more character, followed by digits only; the value is that of the digits after any `+` and never above the usize maximum, so an overflowing string gives None; a string of digits (with or without `+`) whose value fits is read as that value |
| Text.DecimalInjective | src/tags/tag_definition.rs:108 | Distinct line numbers render differently |
| Text.DecimalNoQuote | src/tags/tag_definition.rs:108 | A rendered number holds no double quote |
| Text.SplitHasSecond | src/server/commands/load_tags_file.rs:19-20 | A split has a second piece exactly when the separator occurs |
| Text.SplitFirstTwo | src/server/commands/load_tags_file.rs:19-20 | With the separator present, the first piece runs up to its first occurrence, and the second up to the next occurrence or the end |
| Paths.LastComponent | src/server/commands/find_other_file.rs:59 | The last piece that is neither empty nor `.`, with only such pieces after it; None exactly when every piece is empty or `.` |
| Paths.LastComponentPadded | src/server/commands/find_other_file.rs:59 | An empty or `.` piece at the end changes nothing |
| Paths.FileName | src/server/commands/find_other_file.rs:24-26 | A file name holds no `/` and is never empty, `.` or `..` |
| Paths.TrailingSlash | src/server/commands/find_other_file.rs:24-26 | A trailing `/` or `/.` leaves the file name as it was: `a/b/` and `a/b/.` name `b`, `/` names nothing |
| Paths.LastIndexOf | src/server/commands/find_other_file.rs:26 | The last occurrence of the character, or None when it is absent |
| Paths.ExtensionDot | src/server/commands/find_other_file.rs:26 | The splitting dot is the last one, and never the first character |
| Paths.Extension | src/server/commands/find_other_file.rs:53 | An extension holds no dot and no slash |
| Paths.FileStem | src/server/commands/find_other_file.rs:59 | A stem exists exactly when a file name does, and is never empty: the `unwrap` after an extension never panics |
| Paths.StemDotExtension | src/server/commands/find_other_file.rs:53-59 | Stem, dot and extension spell the file name |
| Paths.SplitLastPiece | src/server/commands/find_other_file.rs:106 | The last `/` piece of `dir/name` is the name |
| Paths.DirectoryIgnored | src/server/commands/find_other_file.rs:106 | Directories in front of a file name change neither it nor its stem or extension |
| Paths.StemAndExtension | src/server/commands/find_other_file.rs:88-89 | `stem.ext` splits back into stem and extension |

## Left out

- TagDefinitions.ParseDeclaration: `usize` arithmetic follows a debug build, where `declaration_end - 2` panics when the first `;"` sits at offset 0 or 1 (`DeclarationEndUnderflow`). A release build wraps around instead, and then only a later `declaration()` call panics; that behaviour is not modelled.
- The TCP listener, the 512-byte request read and the reply write are not
  modelled. Nor are the YAML configuration, the configured startup requests,
  logging and timing. `StandardServer` models only the command registration
  of `start_with_config_file`.
- File I/O is a map from path to read lines. The read-error message and the
  elapsed-time print of `from_file` are not modelled. A path missing from
  the map is the `File::open` unwrap panic.
- `getopts` is a parameter of `describe`, so the option grammar is not
  modelled.
- A panic leaves the database as it was. In the program a panic in a command
  ends the server; the model only records the panic as the reply.
- Servers.Server.Execute: requires the database invariant `Valid()` (every tag a
  valid record of its line) as a class invariant. The constructor,
  `StandardServer` and `Execute` itself establish or keep it.
- Servers.Server.Execute: `command_index` is an unbounded `nat`; the `usize`
  overflow after 2^64 requests is not modelled.
- Unicode is not modelled. Strings are ASCII, so byte offsets (`find`,
  slicing) and character indices (`chars().nth`, `chars().enumerate()`)
  coincide.
- `TagDefinition` keeps the extension fields as the offset where they
  begin; `Fields()` recomputes the ranges from it. The code stores the
  vector of ranges, which is the same ranges.
- The declaration range is not part of `Valid()`. For an address such as
  `/^;"` it comes out inverted; then only `Declaration()` fails, as
  slicing does in the code.
- `from_string` defaults a missing `line:` field to 1, and `new_file` uses
  0. The model follows the code.
- `parse_declaration` searches the whole line for `/^` and `;"`, not only
  the address. The model does the same, so a `;"` inside a name or file
  name would be taken as the address end.
- The stray `X` after a closing brace in the matcher's loop is ignored. The
  matcher is also not reachable from any command.
- The concrete unit-test examples are covered by the general lemmas, not
  evaluated on their literal strings:
  - the two parser test lines are instances of `FromStringTagLine`;
  - the `find` test rests on `DoFindTags`;
  - the matcher tests rest on `MatchAbbrev`'s specification;
  - the `find-other-file` tests rest on `MatchOtherFileNamed`, `DirectoryIgnored` and `FindOtherOnArgument`.
- The round trip of an assembled line with a `/^...$/` address back to its
  declaration text is not stated for assembled lines.
  `FromStringDeclaration` states the declaration of every parsed line.
- Commands.Companions: the companion map is evaluated by the
  `CompanionsSymmetric` lemma rather than given a contract of its own.
- Commands.DescribeReply and Commands.FindTagsReply: contracts state only
  the empty-request panic. The other cases are stated for quote-free
  requests ending in a word, by `DescribeLastWord` and `FindTagsLastWord`.
- The superseded modules (`src/tags.rs`, `src/tags_old.rs`,
  `src/server.rs`, `src/commands.rs`, `src/commands/*`) are not part of this
  model. `src/server/commands/mod.rs` holds only declarations.
