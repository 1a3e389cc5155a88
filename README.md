# Sass Formatter, modelled in Dafny

Sass Formatter is a VS Code extension that formats `.scss`, `.sass` and `.css` documents by
running the external `sass-convert` command line tool on them. This project models what the
extension itself does around that tool, and proves properties of the model:

- it resolves the command from the `sassPath` setting;
- it builds the option string from the file's extension and the `sassFormat.*` settings;
- it marks inline comments before conversion and puts them back afterwards;
- it turns double quotes into single quotes outside comments;
- it drops the leading zero of numbers;
- it cleans up the converter's error text;
- it turns the result into at most one replacement edit.

The older provider of `src/extension.ts` is modelled too. It has its own option rules, and it
runs the converter on the saved file instead of piping the text to it.

The modules follow the source files:

- `Settings`: the configuration snapshot, documents, ranges, edits, and the converter type.
- `Text`: the JavaScript string operations the extension uses.
  - `replace` with a string pattern replaces only the first occurrence.
  - `trim`, `split`/`join` on newlines, and the space-separated words of a command line.
- `SassConvertService`: `src/sassConvertService.ts`, with the command-holding class
  `SassConvert`.
- `ConvertOptions`: `_getSassConvertOptions` of `src/sassFormatterEditProvider.ts`.
- `InlineComments`, `SingleQuotes`, `LeadingZero`: the three rewrites of `_formatSass`.
  - Each regular-expression replace is written as a left-to-right, leftmost, non-overlapping
    scan over the string.
- `FormatterEditProvider`: `_formatSass`, `_getTextEdit` and the two provider entry points,
  with the provider class `SassFormatterEditProvider`.
- `LegacyExtension`: `src/extension.ts`, with the class `SassFormatEditProvider`.

How the model stands in for what it cannot see:

- **The converter.** `sass-convert` is a function parameter of type `Converter`. Given the
  command line and the text piped to it, it returns `Success(output)` or `Failure(error text)`.
- **Messages and the output panel.** The provider classes record the messages they show in a
  `notifications` sequence, and the output panel as a string that errors are appended to.
- **Option strings.** Their meaning is stated over `Words`: the arguments the shell passes
  when it splits the command line at spaces.

Where the code does something one might not expect, the model follows the code:

- The current option builder always emits `--default-encoding`, even for "default".
- The leading-zero rewrite keeps only the LAST digit of the run: ` 0.25` becomes ` .5`.
  - This is because `$2` refers to a repeated group.
  - `LeadingZero.LastDigitKept` and `LeadingZero.LeadingZeroExamples` state it.
- The leftover-marker cleanup after restoring inline comments is a string-pattern `replace`.
  - It removes only the first `//` marker and the first `/*` marker
    (`InlineComments.LeftoverLineMarkerOnce`, `InlineComments.LeftoverBlockMarkerOnce`).
- The `//` pattern of the single-quote rewrite does not know about strings.
  - A `//` inside a quoted URL protects the rest of its line, like a comment would.
- The legacy provider does not quote the file path.
  - A path with spaces becomes several arguments (`LegacyExtension.CommandWords`).
- The legacy provider formats the file as last saved.
  - The text in the editor plays no part in the result (`LegacyExtension.BufferIgnored`).

The proofs about the inline-comment marker and the double-quote placeholder hold for any
marker or placeholder of a stated shape: `MarkerShape` and `PlaceholderShape`. The
extension's own strings are shown to have that shape.

## Model

| member | source | states |
|---|---|---|
| Settings.WholeRange | src/sassFormatterEditProvider.ts:69-73 | the whole-document range starts at the first character and ends after the last |
| Settings.GetText | src/sassFormatterEditProvider.ts:75 | the text of a range inside the document is exactly that slice; the text of any range is never longer than the document |
| Text.ReplaceFirst | src/sassConvertService.ts:86-87 | a string-pattern replace leaves a text without the pattern unchanged, and otherwise changes its length by the difference of pattern and replacement |
| Text.ReplaceFirstOf | src/sassFormatterEditProvider.ts:138-145 | a string-pattern replace rewrites the first occurrence and keeps everything before and after it |
| Text.Trim | src/sassConvertService.ts:83 | the trimmed text neither starts nor ends with whitespace, and it occurs in the original with only whitespace before and after it |
| Text.TrimAround | src/sassConvertService.ts:83 | whitespace on both sides of a text without whitespace at its ends is exactly what trimming removes |
| Text.JoinSplitLines | src/sassConvertService.ts:85 | joining the lines of a text with newlines gives the text back |
| Text.DropFirstLine | src/sassConvertService.ts:85 | dropping the first line keeps exactly what follows the first newline, or nothing if there is none |
| Text.WordsAround | src/sassFormatterEditProvider.ts:108-110 | the words of two texts joined by a space are the words of the first followed by those of the second |
| SassConvertService.CommandFor | src/sassConvertService.ts:64-76 | the command always ends with `sass-convert`; it is exactly `sass-convert` iff `sassPath` is absent or empty |
| SassConvertService.CommandInDirectory | src/sassConvertService.ts:67-72 | a configured path gives that directory, less at most one trailing `/`, joined to `sass-convert` by one `/` |
| SassConvertService.TrailingSlashIgnored | src/sassConvertService.ts:68-72 | `p` and `p/` give the same command; from `p//` only one slash is dropped |
| SassConvertService.WarningFor | src/sassConvertService.ts:50-54 | after a failed probe the invalid-path warning is chosen iff the command is not the default, the missing-command warning otherwise |
| SassConvertService.WarningBlamesConfiguredPath | src/sassConvertService.ts:50-54 | the invalid-path warning is shown iff a non-empty `sassPath` was configured |
| SassConvertService.FormatError | src/sassConvertService.ts:82-92 | the cleaned-up error ends with a newline, and the text before it has no leading or trailing whitespace |
| SassConvertService.SingleLineErrorIsBanner | src/sassConvertService.ts:83-91 | an error of one line is all banner: the result is exactly a newline |
| SassConvertService.BannerDropped | src/sassConvertService.ts:83-91 | the first line is dropped, and details without a backtrace hint are kept, trimmed, followed by a newline |
| SassConvertService.TraceHintRemoved | src/sassConvertService.ts:83-91 | the `Use --trace for backtrace.` line after the details is removed, whatever whitespace follows it, leaving the trimmed details and a newline |
| SassConvertService.TraceHintOnce | src/sassConvertService.ts:86-87 | each hint form is replaced once: of three hints, the first goes, the second keeps only its dot, the third stays |
| SassConvertService.SassConvert.constructor | src/sassConvertService.ts:36-38 | a new service holds the command resolved from the settings |
| SassConvertService.SassConvert.SetSassConvertCommand | src/sassConvertService.ts:64-76 | the command field becomes the command resolved from `sassPath`; nothing else changes |
| SassConvertService.SassConvert.CheckSassConvert | src/sassConvertService.ts:42-61 | a working probe shows no warning and writes the trimmed version as a line; a failing one chooses the warning by the command and writes the cleaned-up error |
| ConvertOptions.SassConvertOptions | src/sassFormatterEditProvider.ts:226-273 | the option string starts with the extension's dialect flags and ends with ` --no-cache --quiet` |
| ConvertOptions.OptionsWords | src/sassFormatterEditProvider.ts:226-273 | split into words, the options are the dialect pair, `--dasherize` if set, `--indent` and its value, `--stdin`, `--default-encoding` and its value, `--no-cache`, `--quiet`, in that order |
| ConvertOptions.GetSassConvertOptions | src/sassFormatterEditProvider.ts:211-274 | the `+=` builder yields that option string; the deprecation notice is produced iff `unixNewlines` is set |
| ConvertOptions.DialectByExtension | src/sassFormatterEditProvider.ts:230-241 | `.scss` and `.css` start the arguments with `--from scss --to scss`, `.sass` with `--from sass --to sass` |
| ConvertOptions.NoDialectForOtherExtensions | src/sassFormatterEditProvider.ts:230-241 | any other extension, a differently cased one included, gets neither `--from` nor `--to` |
| ConvertOptions.DasherizeIff | src/sassFormatterEditProvider.ts:245-247 | `--dasherize` is an argument iff the setting is on |
| ConvertOptions.FixedFlagsOnce | src/sassFormatterEditProvider.ts:249-260 | `--indent`, `--stdin` and `--default-encoding` each occur exactly once, whatever the settings |
| ConvertOptions.ArgsCount | src/sassFormatterEditProvider.ts:226-273 | how often any long flag occurs among the arguments: once for each fixed flag, never otherwise |
| ConvertOptions.OptionsIgnoreDeprecatedSettings | src/sassFormatterEditProvider.ts:251-267 | `oldStyle` and `unixNewlines` never change the option string |
| InlineComments.MarkPoint | src/sassFormatterEditProvider.ts:115 | a mark point follows a run that starts with `;`, `{` or `}` and holds only those and blanks, and it is just after a `//` or `/*` opener |
| InlineComments.MarkPointOrdered | src/sassFormatterEditProvider.ts:115 | before a mark point come a non-empty run of `;`, `{`, `}` and then only spaces and tabs, in that order |
| InlineComments.MarkPointAt | src/sassFormatterEditProvider.ts:115 | a non-empty run of `;`, `{`, `}`, then spaces and tabs, then `//` or `/*` is a match, and its mark point is just after the opener |
| InlineComments.FirstMarkPointAt | src/sassFormatterEditProvider.ts:115-121 | the first mark point of a line is the one of the leftmost index where the pattern matches |
| InlineComments.FirstMarkPointNone | src/sassFormatterEditProvider.ts:115-121 | a line has no first mark point iff the pattern matches at none of its indices |
| InlineComments.MarkedInlineComment | src/sassFormatterEditProvider.ts:115-121 | on a line of code free of `;`, `{` and `}` followed by such a run, blanks, an opener and a comment, the marker is inserted right after the opener and nothing else changes |
| InlineComments.InlineCommentMarked | src/sassFormatterEditProvider.ts:113-121 | a `//` comment after a `;` gets the extension's sentinel right after its opener |
| InlineComments.MarkRoundTrip | src/sassFormatterEditProvider.ts:113-121 | marking only inserts markers: removing them gives the input back, for any marker of the stated shape the input does not hold |
| InlineComments.SentinelRoundTrip | src/sassFormatterEditProvider.ts:113-121 | removing the extension's sentinel from the marked text gives the input back |
| InlineComments.MarkLine | src/sassFormatterEditProvider.ts:115-121 | marking works line by line, and each line is marked only at its leftmost mark point |
| InlineComments.MarkOneLine | src/sassFormatterEditProvider.ts:118-121 | a line without a mark point is unchanged; a marked line grows by exactly the marker |
| InlineComments.RestoreIdentity | src/sassFormatterEditProvider.ts:131-134 | the restoring replace leaves text without the marker unchanged |
| InlineComments.RestoredLine | src/sassFormatterEditProvider.ts:131-134 | whitespace, newlines included, then an opener, the marker and the comment become one space, the opener and the comment |
| InlineComments.CleanUpLeftovers | src/sassFormatterEditProvider.ts:136-145 | the cleanup leaves text without the marker unchanged |
| InlineComments.RestoreInlineComments | src/sassFormatterEditProvider.ts:129-146 | the restoring step leaves text without the sentinel unchanged |
| InlineComments.RestoreRejoin | src/sassFormatterEditProvider.ts:129-146 | a comment the converter moved onto a line of its own is joined back to the end of the text before it, with the marker gone |
| InlineComments.SentinelRejoin | src/sassFormatterEditProvider.ts:129-146 | the same, for the extension's sentinel |
| InlineComments.LeftoverLineMarkerOnce | src/sassFormatterEditProvider.ts:138-141 | only the first leftover `//` marker is cleaned; a later one is still there |
| InlineComments.LeftoverBlockMarkerOnce | src/sassFormatterEditProvider.ts:142-145 | only the first leftover `/*` marker is cleaned; a later one is still there |
| SingleQuotes.PlaceholderShaped | src/sassFormatterEditProvider.ts:158-159 | the extension's placeholder holds no quote, slash or line terminator, and no occurrence of it can start inside another |
| SingleQuotes.HideQuotes | src/sassFormatterEditProvider.ts:165 | hiding leaves text without double quotes unchanged, and with a placeholder free of them, leaves none |
| SingleQuotes.BlockCommentEnd | src/sassFormatterEditProvider.ts:152 | a block comment match ends just after the first `*/` that follows its opener |
| SingleQuotes.LineCommentEnd | src/sassFormatterEditProvider.ts:156 | a line comment match runs to the end of its line, and holds no line terminator |
| SingleQuotes.QuotesToSingle | src/sassFormatterEditProvider.ts:178 | the global replace keeps the length and leaves no double quote |
| SingleQuotes.BlockProtected | src/sassFormatterEditProvider.ts:161-167 | the block-comment pass puts the placeholder in place of exactly the double quotes inside block comments |
| SingleQuotes.LineProtected | src/sassFormatterEditProvider.ts:169-175 | the line-comment pass then also hides exactly the double quotes inside `//` comments |
| SingleQuotes.RevealMasked | src/sassFormatterEditProvider.ts:178-184 | after the quote swap, turning the placeholder back gives the conversion of the original text |
| SingleQuotes.SingleQuotesConverts | src/sassFormatterEditProvider.ts:148-185 | the four passes equal the character-wise conversion under the protected positions, for any placeholder of the stated shape |
| SingleQuotes.UseSingleQuotesConverts | src/sassFormatterEditProvider.ts:148-185 | length kept; a double quote becomes a single quote iff no comment protects it; every other character unchanged |
| SingleQuotes.BlockCommentProtected | src/sassFormatterEditProvider.ts:152 | every position of a block comment, up to its first `*/`, is protected |
| SingleQuotes.LineCommentProtected | src/sassFormatterEditProvider.ts:156 | every position of a `//` comment, to the end of its line, is protected |
| SingleQuotes.NoSlashNoProtection | src/sassFormatterEditProvider.ts:148-185 | text without a slash has no protected position, so all its double quotes are converted |
| LeadingZero.DigitRun | src/sassFormatterEditProvider.ts:188 | the repeated `\d` consumes the maximal digit run after ` 0.` |
| LeadingZero.StripLeadingZeros | src/sassFormatterEditProvider.ts:188 | the rewrite never lengthens the text and keeps its first character |
| LeadingZero.NoLeadingZeroRemains | src/sassFormatterEditProvider.ts:188 | afterwards no space, `0.` and digit remains anywhere |
| LeadingZero.StripIdentity | src/sassFormatterEditProvider.ts:188 | a text without such a match, for example with a `0.` not after a space, is unchanged |
| LeadingZero.StripIdempotent | src/sassFormatterEditProvider.ts:188 | rewriting twice equals rewriting once |
| LeadingZero.LastDigitKept | src/sassFormatterEditProvider.ts:188 | a space, `0.` and a digit run become a space, `.` and only the run's last digit |
| LeadingZero.LeadingZeroExamples | src/sassFormatterEditProvider.ts:188 | ` 0.5em` gives ` .5em`, and ` 0.25` gives ` .5` |
| FormatterEditProvider.FormatCommand | src/sassFormatterEditProvider.ts:108-110 | the command line starts with the resolved command |
| FormatterEditProvider.CommandWords | src/sassFormatterEditProvider.ts:106-110 | split into words, the command line is the command's words, then the converter arguments |
| FormatterEditProvider.Edits | src/sassFormatterEditProvider.ts:58-86 | at most one edit; one exactly when formatting gives a non-empty text; it replaces the target range with that text |
| FormatterEditProvider.ConverterSeesTarget | src/sassFormatterEditProvider.ts:66-76 | the formatted text is exactly the text of the range the edit replaces |
| FormatterEditProvider.RangeEditsAreLocal | src/sassFormatterEditProvider.ts:74-79 | without `formatOnPaste`, a range's edits depend only on that range's text |
| FormatterEditProvider.PlainFormatting | src/sassFormatterEditProvider.ts:112-189 | with every rewrite off, the result is the converter's own result |
| FormatterEditProvider.FailureIsConverterFailure | src/sassFormatterEditProvider.ts:124-127 | formatting fails iff the converter fails, with the converter's error |
| FormatterEditProvider.NoLeadingZeroAfterFormatting | src/sassFormatterEditProvider.ts:187-189 | with `numberLeadingZero` off, no space, `0.` and digit remains in a formatted text |
| FormatterEditProvider.SingleQuotesAfterFormatting | src/sassFormatterEditProvider.ts:148-185 | with only `useSingleQuotes` on, the formatted text is the converter output with its unprotected double quotes made single |
| FormatterEditProvider.RewriteOutput | src/sassFormatterEditProvider.ts:129-189 | the reassignments of the output apply the restore, quote and leading-zero rewrites in that order, each only when its setting asks |
| FormatterEditProvider.PrepareConversion | src/sassFormatterEditProvider.ts:106-122 | the command line is the command and the option string; the input is the text, marked when `inlineComments` is on; the notice comes iff `unixNewlines` is set |
| FormatterEditProvider.SassFormatterEditProvider.constructor | src/sassFormatterEditProvider.ts:35-38 | the provider keeps its output panel and service, and has shown nothing |
| FormatterEditProvider.SassFormatterEditProvider.FormatSass | src/sassFormatterEditProvider.ts:93-205 | returns the post-processed output, or None when the converter fails; shows the notice and then the error message; appends the cleaned-up error to the output panel |
| FormatterEditProvider.SassFormatterEditProvider.GetTextEdit | src/sassFormatterEditProvider.ts:58-86 | returns the edits above, having formatted the whole document or the range as `formatOnPaste` decides |
| FormatterEditProvider.SassFormatterEditProvider.ProvideDocumentFormattingEdits | src/sassFormatterEditProvider.ts:41-43 | at most one edit, over the whole document; the notice, the error message and the cleaned-up error of formatting the whole text are appended to the notifications and the output panel |
| FormatterEditProvider.SassFormatterEditProvider.ProvideDocumentRangeFormattingEdits | src/sassFormatterEditProvider.ts:46-51 | at most one edit, over the range, or over the whole document when `formatOnPaste` is on; the notifications and the output panel get what formatting that text produces |
| LegacyExtension.DialectFlags | src/extension.ts:101-107 | the dialect segment is empty, `--to scss` or `--to sass` |
| LegacyExtension.SassConvertOptions | src/extension.ts:95-135 | the option string starts with the dialect segment and ends with ` --no-cache --quiet` |
| LegacyExtension.OptionsWords | src/extension.ts:95-135 | split into words, the options are the dialect pair, `--dasherize` if set, `--indent` and its value, `--old` if set, `--default-encoding` and its value unless "default", `--unix-newlines` if set, `--no-cache`, `--quiet` |
| LegacyExtension.ExtensionsExclusive | src/extension.ts:101-107 | no path ends both in `.sass` and in `.scss` or `.css`, so the two separate tests never both append |
| LegacyExtension.GetSassConvertOptions | src/extension.ts:88-136 | the `+=` builder yields that option string |
| LegacyExtension.DialectByPath | src/extension.ts:101-107 | a path ending in `.scss` or `.css` starts the arguments with `--to scss`, one ending in `.sass` with `--to sass` |
| LegacyExtension.NoDialectForOtherPaths | src/extension.ts:101-107 | any other path gets no `--to` |
| LegacyExtension.NoSourceDialectNoStdin | src/extension.ts:95-135 | `--from` and `--stdin` never occur |
| LegacyExtension.ArgsMembership | src/extension.ts:95-135 | which words occur among the arguments, segment by segment |
| LegacyExtension.FlagsIffSettings | src/extension.ts:111-129 | `--dasherize`, `--old` and `--unix-newlines` each occur iff their setting is on |
| LegacyExtension.EncodingIffNotDefault | src/extension.ts:123-125 | `--default-encoding` occurs iff the setting is not "default" |
| LegacyExtension.IndentOnce | src/extension.ts:115 | `--indent` occurs exactly once, whatever the settings |
| LegacyExtension.FixedFlagsLast | src/extension.ts:133 | the arguments end with `--no-cache --quiet` |
| LegacyExtension.FormatCommand | src/extension.ts:68-70 | the command line starts with `sass-convert ` and ends with a space and the file path |
| LegacyExtension.CommandWords | src/extension.ts:66-70 | split into words, the command line is `sass-convert`, the arguments, then the words of the path |
| LegacyExtension.FormatResult | src/extension.ts:74-81 | `formatSass` gives the converter's output, or None iff the converter fails |
| LegacyExtension.Edits | src/extension.ts:47-61 | at most one edit; one exactly when the converter gives a non-empty text; it replaces the whole document with that text |
| LegacyExtension.BufferIgnored | src/extension.ts:66-75 | two documents saved at the same path get the same replacement text |
| LegacyExtension.CheckDependencies | src/extension.ts:35-43 | the missing-command message is asked for iff `sass-convert --version` fails |
| LegacyExtension.SassFormatEditProvider.constructor | src/extension.ts:32 | a new provider has shown nothing |
| LegacyExtension.SassFormatEditProvider.FormatSass | src/extension.ts:63-86 | returns the converter's output, or None with the missing-command message shown when it fails |
| LegacyExtension.SassFormatEditProvider.ProvideDocumentFormattingEdits | src/extension.ts:47-61 | returns the edits above, showing the missing-command message when the converter fails |

## Left out

- Running `sass-convert` through a shell (`execSync`) is not modelled.
  - The converter is a function parameter.
  - Its command line is modelled as space-separated words; shell quoting and other separators
    are not modelled.
  - `Words` splits at spaces only.
- VS Code UI is not modelled: message boxes, `outputChannel.show()`, `console.*` logging,
  `activate`, `registerSassFormat` and the registration of providers.
  - Shown messages are recorded in `notifications`.
  - The output panel is a string.
- `workspace.getConfiguration` reads are not modelled. Each request gets a `Config` value.
  - An unset boolean setting reads as false.
  - `indent` and `defaultEncoding` are the text their value prints as.
- `path.extname` is not modelled. The extension is a parameter.
- Documents are not modelled as lines and positions. They are a text plus a path, and ranges
  are character offsets.
- The JavaScript regular-expression engine is not modelled.
  - Each pattern is a hand-written scan.
  - Character classes follow JavaScript: `.` excludes the four line terminators, and `\s` is
    whitespace plus line terminators.
- `error.toString('utf8')` on arbitrary error objects is not modelled. Errors are strings.
- SassConvertService.SassConvert.constructor: does not run the version probe that the
  source's constructor also runs. That probe is `CheckSassConvert`, taking the runner as a
  parameter.
- SingleQuotes.UseSingleQuotesConverts: stated only for converter output that does not hold
  the placeholder. The rewrite itself is modelled for every text.
- InlineComments.MarkRoundTrip: stated only for input that does not hold the marker.
- ConvertOptions.DasherizeIff: the membership and count lemmas of both option builders assume
  the indent and encoding values do not hold the flag in question.
  - ConvertOptions.FixedFlagsOnce, ConvertOptions.NoDialectForOtherExtensions and the
    LegacyExtension lemmas about flags assume the same.
- LegacyExtension.SassFormatEditProvider.FormatSass: the converter gets an empty standard
  input, since the command names the file.
  - What the file holds on disk is not modelled.
  - The console logging of the error is not modelled.
