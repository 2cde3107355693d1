# cannolo command-line front end: file discovery and rc-file arguments

This project models three parts of cannolo's command-line front end
(`lib/cannolo/cli.js`) and proves properties about them:

- `shellwords(line)` with `SHELLWORDS_PATTERN`. This is the Bash-style splitter that
  turns a line of text into arguments: bare words, `'single'` and `"double"`
  quoted strings.
- `cli.readEnvFile(file)`. It reads an rc file, blanks the lines that start with
  `#`, splits what is left with `shellwords`, and inserts the words into
  `process.argv` at index 2.
- `cli.findFiles(paths, excludes, callback)`. Starting from the given roots, it
  collects every entry that no exclude rule rejects. A rule is a glob pattern
  compiled with `minimatch.makeRe`, or a predicate on path and stats. The
  callback gets the collected paths in sorted order.

The modules:

- `JsText` covers the JavaScript string semantics these functions rely on:
  - the regular-expression classes `\s` and line terminator;
  - the UTF-16 code units that string comparison works on.
- `ArraySort` defines `Array.prototype.sort()` on strings with no comparator.
  It is specified up to uniqueness: the sorted permutation of an array is unique,
  so every sorting algorithm gives the same result.
- `Shellwords` has:
  - the regular expression as a deterministic matcher (`MatchAt`, and `Exec`
    for the leftmost match);
  - the splitter as a method with the source's loop (`Shellwords.Shellwords`);
  - the function `Words` that the loop is proved equal to;
  - the lemmas about `Words`.
- `EnvFile` has:
  - the comment stripper (`StripComments`) and its lemmas;
  - rc files as lists of comment, blank and argument lines (`RcLine`), with the
    words such a file gives (`FileWords`);
  - `argv` splicing;
  - the class `Process`, whose `argv` field `ReadEnvFile` updates.
- `FindFiles` splits `findFiles` into specification functions:
  - `Visit`: which entries are reached and how the traversal stops;
  - `Screen`: which entries `process` records;
  - `Conclude`: how the call ends.

  The class `Search` carries the closure state (`entries`, the `paths`
  queue) and runs the source's `process` and `walk` steps. It is proved to end
  exactly as the specification says.

Inputs from the outside world are parameters:

- the rc file's text is a map from file name to contents;
- the file system is a map from path to `lstat` result and, for directories,
  what `FsTools.walk` reports;
- `minimatch.makeRe` is a function argument.

These behaviours are easy to get wrong. The model follows the code:

- `findFiles` does not deduplicate. A path reached twice is handed to the callback
  twice (`FindFiles.DuplicateRootKept`).
- A walk error still calls the callback with the entries recorded so far
  (`FindFiles.WalkErrorStops`).
- A glob pattern that `minimatch.makeRe` rejects is not an error when the rules
  are compiled. `process` throws a `TypeError` when it reaches that rule for an
  entry, and only when no earlier rule has already said yes
  (`FindFiles.DecideTypeError`).
- An unterminated quote does not end the splitting. The pattern finds a later
  match, and the loop then drops that match's length from the front of the line,
  so `'abc` gives `abc` and `c` (`Shellwords.UnterminatedQuoteExample`).

## Model

| member | source | states |
|---|---|---|
| JsText.Utf16 | lib/cannolo/cli.js:262 | One code unit for a BMP character, a surrogate pair otherwise. A lone unit is never a surrogate, so neither form is mistaken for the other. Decoding the units gives the character back: the unit itself, or `0x10000 + (high - 0xD800) * 0x400 + (low - 0xDC00)`. This is the basis of the comparison `entries.sort()` uses. |
| JsText.Utf16Injective | lib/cannolo/cli.js:262 | Two characters with the same UTF-16 encoding are the same character. |
| JsText.Utf16PrefixFree | lib/cannolo/cli.js:262 | An encoded character followed by more code units determines both the character and the rest. |
| JsText.Units | lib/cannolo/cli.js:262 | A string has at least as many code units as characters, and none exactly when it is empty. |
| JsText.UnitsInjective | lib/cannolo/cli.js:262 | Distinct strings have distinct code-unit sequences, so string comparison never ties two different paths. |
| ArraySort.LessEqTotalOrder | lib/cannolo/cli.js:262 | The default comparison of `sort()` is total, transitive and antisymmetric on strings. |
| ArraySort.Insert | lib/cannolo/cli.js:262 | Inserting into a sorted array keeps it sorted and adds exactly the one element. |
| ArraySort.Sort | lib/cannolo/cli.js:262 | `entries.sort()` returns a sorted permutation of the entries, duplicates kept. |
| ArraySort.SortedUnique | lib/cannolo/cli.js:262 | Two sorted arrays with the same elements, counted with multiplicity, are equal. |
| ArraySort.SortedPermutationIsSort | lib/cannolo/cli.js:262 | Any sorted permutation of the input is `Sort` of it, whatever algorithm produced it. |
| ArraySort.SortSameContents | lib/cannolo/cli.js:262 | Two arrays sort to the same result exactly when they hold the same elements with the same multiplicities. |
| Shellwords.SkipWhiteSpace | lib/cannolo/cli.js:291 | The leading `\s*` stops within the line, before a character that is not white space or at the end. |
| Shellwords.SkipWhiteSpaceSpan | lib/cannolo/cli.js:291 | Everything `\s*` passes over is white space. |
| Shellwords.SkipWhiteSpaceOver | lib/cannolo/cli.js:291 | A run of white space that ends at the end of the line or before other text is exactly what `\s*` consumes. |
| Shellwords.UnquotedEnd | lib/cannolo/cli.js:291 | The first alternative `[^\s\\'"]+` stops within the line, before a white space, backslash or quote character or at the end. |
| Shellwords.UnquotedSpan | lib/cannolo/cli.js:291 | Everything the first alternative passes over is neither white space, nor backslash, nor quote. |
| Shellwords.UnquotedOver | lib/cannolo/cli.js:291 | A maximal run of such characters is exactly what the first alternative consumes. |
| Shellwords.QuotedBodyEndShape | lib/cannolo/cli.js:291 | What the greedy scan of a quoted body passes over consists of characters other than the quote and backslash, and of backslash pairs whose second character `.` matches. |
| Shellwords.QuotedBodyEndAt | lib/cannolo/cli.js:291 | A well-formed body followed by its closing quote is consumed up to exactly that quote. |
| Shellwords.MatchAt | lib/cannolo/cli.js:291 | A match found at a position starts there, consumes at least one character, stays within the line, and its captured field lies inside it. |
| Shellwords.MatchShape | lib/cannolo/cli.js:291 | The matched text is white space followed by one token as written. The token is either a nonempty unquoted run, which is the field, or a quoted body between two quotes of the same kind. |
| Shellwords.Exec | lib/cannolo/cli.js:296 | A match that `exec` reports lies within the line, at or after the search start, and is nonempty. |
| Shellwords.ExecLeftmost | lib/cannolo/cli.js:296 | `exec` reports the match at the leftmost position where the pattern matches. No position before it matches, and `exec` fails exactly when no position matches. |
| Shellwords.UnescapeNoEscape | lib/cannolo/cli.js:302 | `replace(/\\(.)/, '$1')` leaves a field without escapes unchanged. |
| Shellwords.UnescapeFirstOnly | lib/cannolo/cli.js:302 | Only the first escape loses its backslash. Every other character stays, in order, including later backslashes. |
| Shellwords.UnescapeSpanIsUnescape | lib/cannolo/cli.js:302 | Reading the field off the line with its first escape resolved gives `Unescape` of the field. |
| Shellwords.WordsAtExec | lib/cannolo/cli.js:295-305 | The model's scan for the next word is `exec`. With no match there are no more words. With a match, its unescaped field comes next, followed by the words after `match[0].length` more characters of the line. |
| Shellwords.WordsFromBound | lib/cannolo/cli.js:295-305 | Each word costs the line at least one character, so there are never more words than characters. |
| Shellwords.MatchAtCut | lib/cannolo/cli.js:291-301 | The pattern has no anchor or look-behind. Matching on the line with a prefix cut off is matching on the original line, moved by the length of the prefix. |
| Shellwords.WordsFromCut | lib/cannolo/cli.js:301 | The words of the line after `line.substr(n)` are the words of the original line counted from offset `n`. |
| Shellwords.WordsNone | lib/cannolo/cli.js:296-299 | When `exec` finds nothing, the loop ends with no more words. |
| Shellwords.WordsNext | lib/cannolo/cli.js:296-304 | When `exec` finds a match, the next word is its field with the first escape resolved. The words after it are those of `line.substr(match[0].length)`. |
| Shellwords.NextWord | lib/cannolo/cli.js:296-304 | One round of the loop either stops where no words remain, or yields the next word and a strictly shorter line whose words are the rest. |
| Shellwords.Shellwords | lib/cannolo/cli.js:292-309 | The `while (line)` loop returns exactly `Words(line)`. |
| Shellwords.WordsFromUnquoted | lib/cannolo/cli.js:291-305 | A bare word after white space is the next word, verbatim, and splitting resumes right after it. |
| Shellwords.WordsFromQuoted | lib/cannolo/cli.js:291-305 | A quoted string after white space is the next word, with its first escape resolved and its white space kept. Splitting resumes after the closing quote, whatever follows it. |
| Shellwords.WordsFromBlank | lib/cannolo/cli.js:295-299 | White space up to the end of the line gives no words. |
| Shellwords.WordsBlank | lib/cannolo/cli.js:295-299 | A line of white space only, or the empty line, gives no words. |
| Shellwords.PlainIsQuotedBody | lib/cannolo/cli.js:291 | A word without double quote or backslash is a valid double-quoted body. |
| Shellwords.WordsFromQuote | lib/cannolo/cli.js:291-305 | Such a word, written bare when it can be and double-quoted otherwise, and followed by white space or the end of the line, is split back out unchanged. |
| Shellwords.LayoutAt | lib/cannolo/cli.js:292-309 | Words of that kind written one after the other with white space between them are split back into exactly those words. Quoted words keep their white space and may be empty. |
| Shellwords.LayoutRoundTrip | lib/cannolo/cli.js:292-309 | The same for a whole line that may start with white space. This is the round trip between writing arguments and `shellwords`. |
| EnvFile.PrependWords | lib/cannolo/cli.js:320-321 | An argument line followed by a line feed and a further layout is one layout of both lines' words. The gaps still keep the words apart. |
| Shellwords.AdjacentSegments | lib/cannolo/cli.js:291-305 | A bare word followed directly by a quoted string gives two words, not one as in Bash. |
| Shellwords.QuotedAlone | lib/cannolo/cli.js:291-305 | A line that is one quoted string gives its unescaped body as the only word, including the empty word for `''` and `""`. |
| Shellwords.TitleExample | lib/cannolo/cli.js:326-327 | `--title "Foobar #123"` gives `--title` and `Foobar #123`. |
| Shellwords.LibExample | lib/cannolo/cli.js:332 | `lib` gives the single word `lib`. |
| Shellwords.EmptyExamples | lib/cannolo/cli.js:295-304 | The empty line and a blank line give no words; `''` and `""` each give one empty word. |
| Shellwords.AdjacentSegmentsExample | lib/cannolo/cli.js:291-305 | `foo"bar"` gives `foo` and `bar`. |
| Shellwords.UnterminatedQuoteExample | lib/cannolo/cli.js:301 | `'abc` gives `abc` and `c`: the match is found after the quote, but its length is cut off the front of the line. |
| Shellwords.FirstEscapeOnlyExample | lib/cannolo/cli.js:302 | In `"a\"b\"c"` only the first escaped quote loses its backslash. |
| EnvFile.LineEnd | lib/cannolo/cli.js:339 | `.*` extends to just before the next line terminator or to the end of the text. |
| EnvFile.StripWithinLine | lib/cannolo/cli.js:339 | Outside a line start, text up to the next terminator is kept as it is. |
| EnvFile.StripLine | lib/cannolo/cli.js:339 | A line followed by a terminator is blanked if it starts with `#` and kept otherwise. The terminator is kept, and the next line starts a new `^`. |
| EnvFile.StripLastLine | lib/cannolo/cli.js:339 | The same for a last line that has no terminator. |
| EnvFile.StripIdempotent | lib/cannolo/cli.js:339 | Stripping comments twice is the same as stripping them once. |
| EnvFile.BlankAll | lib/cannolo/cli.js:339 | Each line is blanked independently of the others. |
| EnvFile.StripByLines | lib/cannolo/cli.js:339 | On text joined from lines, `replace(/^#.*/gm, '')` blanks exactly the lines that start with `#` and keeps every line break. |
| EnvFile.QuotedLine | lib/cannolo/cli.js:339 | A word without quotes, backslashes or line terminators, as written, stays on one line. It starts with `#` only when the word itself does, so comment stripping leaves it alone otherwise. |
| EnvFile.RcBlanked | lib/cannolo/cli.js:339 | In the rc-file layout of the documentation, the comment lines become empty and the argument lines survive. |
| EnvFile.RcLayout | lib/cannolo/cli.js:315-341 | The documented 8-line layout: for any comment lines and any writable option, value and path, reading the file gives exactly those three arguments. |
| EnvFile.LineBlanked | lib/cannolo/cli.js:339 | A comment line or an argument line stays one line. Stripping empties it exactly when it is a comment. |
| EnvFile.FileLayout | lib/cannolo/cli.js:320-341 | For any list of comment, blank and argument lines, the stripped text is white space followed by all the argument words laid out with separating white space. Each line break joins the gap after the line's last word. |
| EnvFile.FileWords | lib/cannolo/cli.js:320-341 | Arguments may span lines and every `#` line is a comment. For any list of comment, blank and argument lines, the words of the stripped file are the argument lines' words concatenated in order. |
| EnvFile.RcExample | lib/cannolo/cli.js:326-336 | The documented `.cannolorc` gives `--title`, `Foobar #123`, `lib`: the `#123` inside quotes is not a comment. |
| EnvFile.Splice | lib/cannolo/cli.js:340 | `splice(2, 0, ...words)` keeps `argv` before index 2, inserts the words in order, then keeps the rest. On an `argv` shorter than 2 the words go at the end. |
| EnvFile.Process.ReadEnvFile | lib/cannolo/cli.js:338-341 | A readable file puts the words of its comment-stripped text into `argv` at index 2. An unreadable file fails and leaves `argv` as it was. |
| FindFiles.Compile | lib/cannolo/cli.js:233-235 | A function becomes `{test: p}`. A pattern that `makeRe` accepts becomes exactly the regular expression `makeRe` returns. It becomes no matcher exactly when `makeRe` rejects it. |
| FindFiles.CompileAll | lib/cannolo/cli.js:233-235 | Every rule is compiled, in order, one matcher per rule. |
| FindFiles.NonEmpty | lib/cannolo/cli.js:238 | Exactly the non-empty paths are kept. |
| FindFiles.NonEmptyAppend | lib/cannolo/cli.js:238 | The filter distributes over concatenation of root lists. |
| FindFiles.NonEmptyAround | lib/cannolo/cli.js:238 | A non-empty root keeps its place among the filtered roots. |
| FindFiles.DecideTail | lib/cannolo/cli.js:243-246 | A rule that compiled and says no passes the entry on to the rules after it. |
| FindFiles.DecideAllCompiled | lib/cannolo/cli.js:240-252 | When every rule compiled, `process` never throws, and it excludes an entry exactly when some rule says yes to it. |
| FindFiles.DecideTypeError | lib/cannolo/cli.js:243-246 | `process` throws exactly when a rule without `test` is reached with every earlier rule saying no. |
| FindFiles.Paths | lib/cannolo/cli.js:250 | The paths of the entries, position by position. |
| FindFiles.ScreenAppend | lib/cannolo/cli.js:240-252 | Processing two runs of entries records the first run's paths, then the second's, unless one of them throws. |
| FindFiles.ScreenOne | lib/cannolo/cli.js:240-252 | One entry is recorded if included, skipped if excluded, and throws on a rule without `test`. |
| FindFiles.ScreenThrows | lib/cannolo/cli.js:240-252 | Processing throws exactly when some entry's decision throws. |
| FindFiles.ScreenRecords | lib/cannolo/cli.js:240-252 | A path is recorded exactly when some processed entry with that path is decided `Include`. |
| FindFiles.ScreenNoRules | lib/cannolo/cli.js:243 | With no rules, every entry is recorded in the order it came, duplicates included. |
| FindFiles.VisitAppend | lib/cannolo/cli.js:254-280 | The roots are taken one after the other. A later run of roots is reached only when the earlier run finished without stopping. |
| FindFiles.ConcludePrepend | lib/cannolo/cli.js:240-280 | Processing a run of entries moves what it records into the recorded array before the rest of the traversal. |
| FindFiles.ConcludeWalk | lib/cannolo/cli.js:261-279 | After a directory walk, an error calls the callback with the sorted entries recorded so far; otherwise the next root follows. |
| FindFiles.FilesSortedPermutation | lib/cannolo/cli.js:262 | The callback receives a sorted permutation of exactly the recorded paths. |
| FindFiles.Recorded | lib/cannolo/cli.js:222-283 | A path reaches the callback exactly when some entry reached with that path is decided `Include`. |
| FindFiles.RecordedUnlessExcluded | lib/cannolo/cli.js:222-283 | When every pattern compiles, the call never throws `TypeError`. A path then reaches the callback exactly when it was reached and no rule said yes to it. This is stated both for the compiled matchers and for the rules as given: a predicate's own answer, or the pattern's regular expression. |
| FindFiles.NoExcludesKeepsAll | lib/cannolo/cli.js:226-243 | With excludes omitted or empty, every reached entry reaches the callback, sorted, duplicates included. A root that cannot be stat'ed still throws. |
| FindFiles.EmptyPathSkipped | lib/cannolo/cli.js:238-261 | An empty path anywhere in the roots changes nothing. |
| FindFiles.VisitFailedWalk | lib/cannolo/cli.js:261-279 | The traversal stops at a directory whose walk fails, whatever roots follow it. |
| FindFiles.WalkErrorStops | lib/cannolo/cli.js:261-279 | A walk that ends with an error ends the call. The roots after it are never looked at, and the callback gets the error and the sorted entries recorded so far. |
| FindFiles.TwoRuns | lib/cannolo/cli.js:254-282 | A call on two runs of roots ends without an error exactly when the traversal gets through both and `process` throws on neither. The callback then gets what both runs recorded, sorted. |
| FindFiles.RootOrderIrrelevant | lib/cannolo/cli.js:254-282 | For a call that succeeds, the order of the roots does not change the result. |
| FindFiles.MissingRootThrows | lib/cannolo/cli.js:267 | A root that cannot be stat'ed makes the call throw. |
| FindFiles.DuplicateRootKept | lib/cannolo/cli.js:249-262 | A file given twice as a root reaches the callback twice. |
| FindFiles.Search.constructor | lib/cannolo/cli.js:223-238 | The closure starts with an empty `entries` array and the filtered `paths` queue. |
| FindFiles.Search.Process | lib/cannolo/cli.js:240-252 | `process` pushes the entry exactly when it is decided `Include`, and throws exactly on `TypeError`. |
| FindFiles.Search.ProcessAll | lib/cannolo/cli.js:276-279 | The walk's iterator processes every entry in order. `entries` grows by exactly what `Screen` records, and it throws exactly when `Screen` does. |
| FindFiles.Search.Walk | lib/cannolo/cli.js:254-282 | The chain of `walk` calls ends exactly as `Conclude` says for the traversal `Visit` of the queue. When the callback is called, `entries` is the sorted array it receives. |
| FindFiles.FindFilesCall | lib/cannolo/cli.js:222-283 | The whole call, from compiling the rules to the callback, ends exactly as `FindFilesSpec` says. |

## Left out

- Argument parsing, the command-line actions, the documentation builder and the
  HTML renderer are not part of this model. Neither is any other part of
  `lib/cannolo/cli.js` outside the three functions above.
- Reading files is a parameter:
  - `fs.readFileSync(file, 'utf8')` is a map from file names to text. A missing
    file is the only failure modelled.
  - UTF-8 decoding, including its replacement of malformed bytes, is not modelled.
- `fs.lstatSync` and `FsTools.walk` are a map from paths to their stats and walk
  result. For a directory, the entries walk yields and the error it ends with are
  given as data. Walk's own recursion and ordering are not modelled.
- `minimatch.makeRe` is a function parameter. Glob syntax and the regular
  expressions it builds are not modelled.
- The asynchronous callback chain of `walk` is a loop. Calling the callback is
  the loop's final `Called` outcome. Exceptions are the `Throws` outcome:
  - the one thrown by `lstatSync`;
  - the `TypeError` from calling `test` on `false`.
- `Throws` does not say where the exception surfaces. Before the first directory
  root is walked, it escapes from the `findFiles` call itself. After that,
  `process` runs inside `FsTools.walk`'s iterator and `walk` runs as its final
  callback. The `lstatSync` error and the `TypeError` are then raised inside
  those callbacks, not out of `findFiles`.
- Exceptions thrown by the callback itself or by a user predicate are not modelled.
  User predicates are total functions here.
- `_.isFunction(excludes)` is the `Omitted` case of `Excludes`. Values that are
  neither a list nor a function are not modelled.
- `Stats` holds only `isDirectory` and `isSymbolicLink`, the parts of an `lstat`
  result a rule is expected to inspect.
- `FindFiles.Search.Walk`: the JavaScript `entries` array passed to the callback is
  the closure's own array, sorted in place. The model reassigns the `entries`
  field to the sorted sequence and does not model aliasing of that array.
- `EnvFile.Process.ReadEnvFile`: an I/O failure is reported as `read == false`
  rather than as a thrown exception.
- Text is a sequence of Unicode characters, not of UTF-16 code units. JavaScript
  strings can hold lone surrogates, and `shellwords` can create one. The model's
  strings cannot. UTF-16 is modelled only for the comparison that `sort()` makes.
- Shellwords.WordsFromCut: `line.substr(n)` is modelled as cutting `n` characters, while
  JavaScript cuts `n` UTF-16 code units. The two agree when the line has no
  character outside the Basic Multilingual Plane, and whenever the match starts at
  the front of the line. On `'😀` (a quote and one
  astral character) `exec` matches the two-unit run at index 1. JavaScript then
  cuts two units and leaves the lone low surrogate, giving `["😀", "\uDE00"]`. The
  model cuts one character and gives `["😀", "😀"]`.
- Shellwords.WordsNext: the words after a match are those of the line with
  `match[0].length` characters cut off, not code units. The two differ on
  astral text, for example `'😀` as in the line above.
- Shellwords.NextWord: `rest` is the line with `match[0].length` characters cut
  off, not code units. It differs from JavaScript's `line` on astral text such as
  `'😀`, for the reason given for `WordsFromCut`.
- The `!match[0]` test of `shellwords` is kept in `Shellwords.NextWord`, but it
  never fires: every alternative of the pattern consumes at least one character.
