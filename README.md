# Specenum definitions compiler and SDL3 line splitter, in Dafny

This project models two pieces of the Freeciv source tree and proves properties
of them.

**The specenum definitions compiler** (`gen_headers/generate_enums.py`) reads
enum definition files and writes a C header of `#define SPECENUM_...` lines for
each enum. The model covers the whole path from input lines to the header body:

- `comments.dfy` (module `Comments`) is the comment stripper. It turns raw
  physical lines into logical lines. `#` and `//` comments run to the end of
  the line. `/* ... */` comments may span lines, and the text on either side
  of such a comment is joined with one space. End of input inside a block
  comment is an error. The stripper is a method with the source's two loops.
  It is proved equal to a recursive function, and the properties are proved
  about that function.
- `enum_value.dfy` (module `EnumValues`) holds a value line: an identifier and
  an optional name. It also holds the line syntax that values and options
  share.
- `options.dfy` (module `SpecenumOptions`) is one turn of the option loop of
  `Specenum.__init__` and the fold over all option lines.
- `specenum.dfy` (module `Specenums`) holds the validity and sanity rules, the
  value list (explicit values, then the generic ones) and the constructor.
- `emitter.dfy` (module `Emitter`) holds `code_parts` and the body that
  `write_header` writes. Its partner is a decoder that reads the lines back.
- `definitions.dfy` (module `Definitions`) holds the enum header and `end`
  lines and `parse_clean_lines`. The parse is stated for any enum
  constructor that keeps the header's name (`Builder`), and the model uses
  `BuildSpecenum`. The class `EnumsDefinition` has the
  source's two fields, `enums` and `enums_by_name`. `main`'s loop over the
  input files is the method `ParseInputs`.
- `errors.dfy` has one constructor per error message.
- `text.dfy` has ASCII character classes, stripping and decimal numbers.
- `wrappers.dfy` has `Option` and `Result`.

**`create_new_line_utf8strs`** (`client/gui-sdl3/utf8string.c`) cuts a
NUL-terminated string at its newlines. The pieces go into a static array of
512 entries, and a NULL entry ends them. An empty piece before a newline
becomes a single space. The text after the last newline becomes an entry only
when it is not empty. An empty string leaves the array as the previous call
left it. `utf8string.dfy` (module `Utf8Strings`) models the loop imperatively:

- the string is an `array<char>` up to its first NUL;
- the static buffer is an `array<Option<string>>`, where `None` is NULL;
- the method is proved against a specification function `Lines` on the
  string.

Raw input lines are modelled without their line terminator. No group of the
two comment patterns can capture a newline at the end of a raw line: `.` does
not match it, and it is consumed by `\s*`, by `[^*]*` or by the optional
final `\n`. A line that is only a newline yields nothing, like an empty one.
So leaving the terminator out changes no result. The other patterns only see
cleaned lines, which hold no newline. `\w`, `\s` and `\d` are their ASCII classes.

## Model

| member | source | states |
|---|---|---|
| Comments.CommentStartFromLeftmost | gen_headers/generate_enums.py:557-575 | The comment found is the leftmost `#`, `//` or `/*`. No marker lies before it. |
| Comments.ScanPass | gen_headers/generate_enums.py:637-654 | Each pass of the inner loop leaves a strictly shorter remainder, so the loop ends. |
| Comments.ScanPhysicalLine | gen_headers/generate_enums.py:637-654 | The inner loop over one physical line gives the scanner state and the pending parts that the line scan defines. |
| Comments.CleanLines | gen_headers/generate_enums.py:629-663 | The stripper (flag, parts list, output) computes the recursive stripping function: its logical lines, then the end-of-input error if the input ends inside a block comment. |
| Comments.CleanLinesFragments | gen_headers/generate_enums.py:629-663 | Every logical line is non-empty, stripped and free of comment markers. The only possible error is the end of input inside a block comment. |
| Comments.CleanFailsIffUnclosed | gen_headers/generate_enums.py:662-663 | The stripper fails exactly when the scanner state after the last line is inside a block comment. |
| Comments.CleanOfFragments | gen_headers/generate_enums.py:629-663 | Lines that are already clean come out unchanged and raise no error. |
| Comments.CleanIdempotent | gen_headers/generate_enums.py:629-663 | Stripping the stripper's output again changes nothing and cannot fail. |
| Comments.CleanTwoLines | gen_headers/generate_enums.py:656-660 | When a line opens a comment after content x and the next line closes it before content y, the two lines make one logical line `x y`. |
| Comments.BlockCommentJoins | gen_headers/generate_enums.py:629-632 | `a /* c` followed by `d*/ b` yields the single logical line `a b`. |
| Comments.InsideCommentHidden | gen_headers/generate_enums.py:638-646 | A line that starts inside a block comment and holds no `*/` is hidden whole, and the comment stays open. |
| Comments.InsideCommentCloses | gen_headers/generate_enums.py:638-646 | A line that starts inside a block comment and holds a `*/` is hidden up to the first `*/`. The rest, left-stripped, is scanned as from outside a comment, whatever markers it holds. |
| Comments.CommentOnlyLines | gen_headers/generate_enums.py:636-660 | Inside an open block comment, lines with no `*/` yield nothing. The parts pending before them are still pending after them. |
| Comments.BlockCommentSpans | gen_headers/generate_enums.py:629-660 | A block comment spanning any number of lines, `a /* c`, lines with no `*/`, then `d*/ b`, gives the single logical line `a b`. |
| Comments.NoMarkerKeepsLine | gen_headers/generate_enums.py:557-575 | Outside a comment, a line with no marker is kept whole, stripped, and is dropped if blank. |
| Comments.LineCommentWins | gen_headers/generate_enums.py:557-575 | When the leftmost marker is `#` or `//`, the text before it is kept, stripped. The rest of the line is discarded, including any `/*`. |
| Comments.BlockCommentResumes | gen_headers/generate_enums.py:584-594 | When the leftmost marker is `/*` and a later `*/` exists, the text before the `/*` is kept. Everything up to the first such `*/` is hidden. Scanning resumes on the left-stripped rest, outside the comment. |
| Comments.BlockCommentStaysOpen | gen_headers/generate_enums.py:567-571 | A `/*` with no later `*/` keeps the text before it and leaves the scanner inside the comment. |
| EnumValues.ParseHeadSpelled | gen_headers/generate_enums.py:289-299 | Every line built as padding, word, gap, argument (whose inner gaps are kept) and padding parses back to that word and argument. |
| EnumValues.ParseHeadSound | gen_headers/generate_enums.py:289-299 | Every line the parser accepts has that shape, with a non-empty word of the allowed characters and a stripped, non-empty argument. |
| EnumValues.ParseValueSpelled | gen_headers/generate_enums.py:312-318 | A well-formed value, spelled with any padding, parses back to itself. |
| EnumValues.ParseValueSound | gen_headers/generate_enums.py:312-318 | A parsed value is well formed and is spelled by its line. A failure is the invalid-value error carrying the line. |
| SpecenumOptions.ParseGenericSpelled | gen_headers/generate_enums.py:364-370 | `<digits> <stem>` with any padding parses to the digits' value and the stem. |
| SpecenumOptions.ParseGenericStem | gen_headers/generate_enums.py:364-370 | An accepted `generic` argument has a non-empty stem of word characters. |
| SpecenumOptions.CheckArgumentNames | gen_headers/generate_enums.py:435-492 | A checked argument sets the option that was named. `prefix` stores a non-empty string and `generic` a positive amount. |
| SpecenumOptions.ParseGenericSound | gen_headers/generate_enums.py:364-370 | Every accepted `generic` argument is padding, digits, a gap, a stem of word characters and padding. The amount is the value of the digits. |
| SpecenumOptions.ApplyOptionRejects | gen_headers/generate_enums.py:428-492 | A line that is not of the option shape gives the malformed-option error. An unknown option name gives the unrecognized-option error. |
| SpecenumOptions.ApplyOptionFlag | gen_headers/generate_enums.py:441-480 | `bitwise`, `name-override` and `name-updater` refuse an argument. Without one they switch on their own field. |
| SpecenumOptions.ApplyOptionText | gen_headers/generate_enums.py:435-486 | `bitvector`, `invalid` and `prefix` require an argument and store it in their own field. |
| SpecenumOptions.ApplyOptionGeneric | gen_headers/generate_enums.py:451-462 | `generic` requires an argument of the `<amount> <stem>` shape with a positive amount. It stores the amount and the stem. |
| SpecenumOptions.ApplyOptionSpecial | gen_headers/generate_enums.py:447-490 | `zero` and `count` take the built-in default without an argument. Otherwise they take the parsed value line, or raise its invalid-value error. |
| SpecenumOptions.StoreFrame | gen_headers/generate_enums.py:435-490 | Storing an option marks it as set and leaves every other option's fields alone. |
| SpecenumOptions.ApplyOptionContextFree | gen_headers/generate_enums.py:428-492 | An option line on the options so far gives the duplicate error when its option is already set. Otherwise it succeeds or fails exactly as on fresh options: the same error, or the same value for its own option and nothing else changed. |
| SpecenumOptions.FoldOptionsAcceptable | gen_headers/generate_enums.py:424-492 | The option loop succeeds iff each line is acceptable alone and no option repeats. The options collected are then those the lines set, with defaults for the rest. |
| Specenums.Validate | gen_headers/generate_enums.py:494-506 | No error iff no rule is broken. An error is that of the first broken rule, in the source's order. |
| Specenums.ValuesSepIndex | gen_headers/generate_enums.py:424-427 | The options end at the first `values` line, or at the end of the body. |
| Specenums.ParseValuesOk | gen_headers/generate_enums.py:508-509 | The value lines parse iff each one does, and then give their values in order. |
| Specenums.ParseValuesFirstErr | gen_headers/generate_enums.py:508-509 | A failure is the error of the first value line that does not parse. |
| Specenums.GenericValuesDistinct | gen_headers/generate_enums.py:510-513 | The generic values have distinct identifiers. With a stem of word characters, each one is a well-formed value. |
| Specenums.BuildSpecenumOptions | gen_headers/generate_enums.py:416-506 | A defined enum's option lines are acceptable. Its fields are the options those lines set, and these satisfy every rule. |
| Specenums.BuildSpecenumValues | gen_headers/generate_enums.py:508-513 | A defined enum's values are the parsed value lines in order, then the generic values `stem1`..`stemN`. |
| Specenums.BuildSpecenumErr | gen_headers/generate_enums.py:424-506 | The checks come in the source's order. A failing option loop gives its error. Then, when the body has no `values` line, the stripper's error is raised where the option loop reads past the last line. Then a broken rule gives the error of the first rule broken. |
| Specenums.BuildSpecenumValuesErr | gen_headers/generate_enums.py:508-513 | With good options, a value line that does not parse gives the error of the first such line. When every value line parses, the stripper's error is raised after the last one. |
| Specenums.BuildSpecenumOk | gen_headers/generate_enums.py:416-513 | The constructor succeeds iff every option line is acceptable, no option repeats, every rule holds, every value line parses and the stripper raised nothing. |
| Specenums.ReadOptions | gen_headers/generate_enums.py:424-492 | The option loop, run line by line, stops at the separator or at the first error and gives the fold's result. |
| Specenums.ReadValues | gen_headers/generate_enums.py:508-509 | The loop over the value lines gives the value list's result. |
| Specenums.AppendGeneric | gen_headers/generate_enums.py:510-513 | The loop appends the generic values after the explicit ones. |
| Specenums.NewSpecenum | gen_headers/generate_enums.py:416-513 | The constructor computes the enum that the body defines, or the error that it raises. |
| Emitter.DecodeDefineLine | gen_headers/generate_enums.py:324-333 | A `#define SPECENUM_<symbol> <value>` line reads back as its kind and value. |
| Emitter.DecodeFlagLine | gen_headers/generate_enums.py:521-524 | A `#define SPECENUM_<symbol>` line reads back as its kind with no value. |
| Emitter.ClassifyValue | gen_headers/generate_enums.py:335-337 | `VALUE<i>` and `VALUE<i>NAME` are told apart and give back i. |
| Emitter.WalkValues | gen_headers/generate_enums.py:528-529 | The value lines read back, in index order, as the values with the prefix applied. |
| Emitter.DecodeEnumRoundTrip | gen_headers/generate_enums.py:515-551 | An enum's lines read back as every field they carry, and the decoder stops right after the closing `#include`. Nothing is lost and the order is fixed. |
| Emitter.DecodeHeaderRoundTrip | gen_headers/generate_enums.py:707-714 | The header body (an empty line, then each enum's lines) reads back as what it says about each enum, in order. |
| Definitions.EnumHeaderSpelled | gen_headers/generate_enums.py:602-610 | Every header spelled from a name of word characters, with an optional semicolon and any padding, reads back as that name. |
| Definitions.EnumHeaderSound | gen_headers/generate_enums.py:602-610 | Every accepted header line is spelled that way. |
| Definitions.EndIsNoHeader | gen_headers/generate_enums.py:616 | An `end` line is never an enum header. |
| Definitions.EndIndex | gen_headers/generate_enums.py:684-687 | An enum's body runs up to the first `end` line, or to the end of the lines. |
| Definitions.FindEnd | gen_headers/generate_enums.py:684-687 | The loop finds that first `end` line. |
| Definitions.BuildSpecenumKeepsNames | gen_headers/generate_enums.py:416-423 | A built enum carries the name it was built with. |
| Definitions.StepAt | gen_headers/generate_enums.py:674-694 | One turn of the loop: the parse moves forward. With a constructor that keeps the name, a defined enum has a name not known before. |
| Definitions.ParseFromNames | gen_headers/generate_enums.py:669-694 | The enums a parse defines have distinct names, none of them defined before. |
| Definitions.ParseFromFailure | gen_headers/generate_enums.py:662-663 | An error of the comment stripper is never swallowed by the parse. |
| Definitions.ParseRenderedThen | gen_headers/generate_enums.py:669-694 | Parsing valid blocks followed by more lines gives the blocks' enums, then whatever the more lines give with the blocks' names known. |
| Definitions.ParseRendered | gen_headers/generate_enums.py:669-694 | A file written as `enum <name>`, body, `end` for each valid block parses without error to the enums of the blocks. |
| Definitions.ParseAtUnexpected | gen_headers/generate_enums.py:675-694 | A line that is not an enum header, where a header is expected, gives the unexpected-line error. |
| Definitions.ParseAtDuplicate | gen_headers/generate_enums.py:679-680 | A header naming a known enum gives the duplicate-name error, and nothing more is read. |
| Definitions.ParseAtUnterminated | gen_headers/generate_enums.py:682-690 | A header with no `end` line after it takes all remaining lines as its body, and the stripper's error becomes its tail. |
| Definitions.UnexpectedAfterBlocks | gen_headers/generate_enums.py:674-694 | After valid blocks, a line that is not a header gives the unexpected-line error. The blocks' enums stay defined. |
| Definitions.DuplicateAfterBlocks | gen_headers/generate_enums.py:679-680 | After valid blocks, a header naming an enum known before or defined by the blocks gives the duplicate-name error. The blocks' enums stay defined. |
| Definitions.UnterminatedAfterBlocks | gen_headers/generate_enums.py:682-690 | After valid blocks, a header with no `end` line after it builds its enum from the remaining lines, with the stripper's error as tail. |
| Definitions.DuplicateInOneFile | gen_headers/generate_enums.py:679-680 | The same block twice in one file defines its enum, then gives the duplicate-name error. |
| Definitions.IndexKeys | gen_headers/generate_enums.py:690-691 | The name table's keys are exactly the names of the enums defined. |
| Definitions.EnumsDefinition.constructor | gen_headers/generate_enums.py:696-699 | Starts with no enums and an empty table. |
| Definitions.EnumsDefinition.Add | gen_headers/generate_enums.py:690-691 | Appends the enum and enters it in the table, keeping the table in step with the list. |
| Definitions.EnumsDefinition.ReadEnum | gen_headers/generate_enums.py:675-692 | One turn of the loop computes the step function with the table's names as known names. |
| Definitions.EnumsDefinition.ParseCleanLines | gen_headers/generate_enums.py:669-694 | Appends the enums the lines define. Those defined before an error stay. The error is the parse's. |
| Definitions.EnumsDefinition.ParseLines | gen_headers/generate_enums.py:665-667 | Parses the stripper's output for the raw lines. |
| Definitions.RedefinedInLaterFile | gen_headers/generate_enums.py:679-680 | An enum defined in one file and defined again in a later file, after any valid blocks of other names, gives the duplicate-name error. The enums of the first file and of those blocks stay. |
| Definitions.ParseAllNames | gen_headers/generate_enums.py:717-726 | Over all input files, the enum names are distinct. |
| Definitions.ParseInputs | gen_headers/generate_enums.py:717-726 | The files are parsed in order into one table, which stops at the first error. |
| Utf8Strings.StrLenFrom | client/gui-sdl3/utf8string.c:37 | The string ends at the first NUL. |
| Utf8Strings.SplitCount | client/gui-sdl3/utf8string.c:37-65 | There is one more piece than there are newlines. |
| Utf8Strings.LinesCount | client/gui-sdl3/utf8string.c:37-65 | There is one entry per newline, plus one if text follows the last newline. |
| Utf8Strings.LinesShape | client/gui-sdl3/utf8string.c:38-51 | Every entry is non-empty and holds no newline. |
| Utf8Strings.SplitJoin | client/gui-sdl3/utf8string.c:37-65 | The pieces joined with newlines give back the string. |
| Utf8Strings.LinesOfPieces | client/gui-sdl3/utf8string.c:38-60 | The entries are the pieces before each newline (a space for an empty one), then the last piece if it is not empty. |
| Utf8Strings.StoreLine | client/gui-sdl3/utf8string.c:39-48 | Stores the closed piece, or a space for an empty one, in the next slot and changes no other slot. |
| Utf8Strings.Terminate | client/gui-sdl3/utf8string.c:55-63 | Stores the last piece if it is not empty, then NULL, and changes no other slot. |
| Utf8Strings.ReadChar | client/gui-sdl3/utf8string.c:38-64 | One turn of the loop keeps the buffer equal to the entries of the text read so far. At the NUL it leaves the finished array. |
| Utf8Strings.CreateNewLineStrs | client/gui-sdl3/utf8string.c:31-68 | The buffer holds the entries of the string, then NULL, with the slots after it unchanged. An empty string changes nothing. |

## Left out

- The command line and `ScriptConfig`, file opening, the output's header guards and prologue, `lazy_overwrite_open`, `files_equal` and `__iter__` are not modelled. These are file I/O and configuration. The header body is a sequence of strings.
- Python's Unicode character classes are not modelled. `\w`, `\s` and `\d` are ASCII only.
- The regular expressions are hand-written scanners. Each one is proved against a description of the lines it accepts, not against a regex engine.
- The lazy generators and the shared `takewhile` iterator are modelled eagerly. The stripper returns all its lines plus the error it would raise at the end. The parser raises that error exactly where the source would read past the last line.
- Error messages are not modelled as text. Each message is an `Error` constructor carrying the values it mentions.
- `Specenum` is a datatype built by a method, not a class. Its fields are set once, by the constructor.
- `write_header` is modelled as the function `HeaderParts` that gives the lines it writes.
- `Emitter.DecodeEnumRoundTrip`: the decoder recovers the enum's fields with the prefix applied to the identifiers. It does not recover the prefix separately, because the header does not carry it.
- `fc_calloc`, `memcpy`, allocation failure, freeing the entries and the non-re-entrant static array are not modelled. The static array is an array parameter of 512 entries, and each entry is a character sequence.
- C `char` bytes are modelled as Dafny `char`. Splitting UTF-8 text at `'\n'` does not depend on this, because the byte `'\n'` never occurs inside a multi-byte sequence.
- `SpecenumOptions.ParseGeneric` accepts an amount of any number of digits. Python's `int()` refuses strings of more than 4300 digits by default, and raises an error that the model does not have.
- `Utf8Strings.CreateNewLineStrs` requires that the entries and their NULL fit in the 512 slots. The C code does not check this and writes past the array.
