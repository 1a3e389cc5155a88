/**
 * The formatting provider: it chooses the text to format (the whole document or a range),
 * runs `sass-convert` on it with the option string of the current settings, post-processes
 * the converter's output, and turns a non-empty result into a single replacement edit.
 */
module FormatterEditProvider {
  import opened Wrappers
  import opened Text
  import opened Settings
  import opened ConvertOptions
  import opened SassConvertService
  import InlineComments
  import SingleQuotes
  import LeadingZero

  /** The command line run for a document: the resolved command, a space, the options. */
  function FormatCommand(command: string, extName: string, config: Config): (cmd: string)
    ensures command <= cmd
  {
    command + " " + SassConvertOptions(extName, config)
  }

  /** What the converter reads on its standard input: the text, its inline comments marked
      when that setting is on. */
  function ConverterInput(text: string, config: Config): string {
    if config.inlineComments then InlineComments.MarkInlineComments(text) else text
  }

  /** The rewrites applied to the converter's output, in order: restoring inline comments,
      single quotes, dropping leading zeros. Each runs only when its setting asks for it. */
  function PostProcess(converted: string, config: Config): string {
    var restored :=
      if config.inlineComments then InlineComments.RestoreInlineComments(converted) else converted;
    var quoted := if config.useSingleQuotes then SingleQuotes.UseSingleQuotes(restored) else restored;
    if config.numberLeadingZero then quoted else LeadingZero.StripLeadingZeros(quoted)
  }

  /** The outcome of formatting `text`: the post-processed output, or the converter's error. */
  function Formatted(text: string, extName: string, config: Config, command: string, convert: Converter)
    : Result<string, string>
  {
    match convert(FormatCommand(command, extName, config), ConverterInput(text, config))
    case Success(converted) => Success(PostProcess(converted, config))
    case Failure(error) => Failure(error)
  }

  /** `_formatSass`'s return value: the formatted text, or null (None) once the call threw. */
  function FormatResult(text: string, extName: string, config: Config, command: string, convert: Converter)
    : Option<string>
  {
    match Formatted(text, extName, config, command, convert)
    case Success(formatted) => Some(formatted)
    case Failure(_) => None
  }

  /** The messages shown while formatting: the deprecation notice of `unixNewlines`, then the
      error message if the converter failed. */
  function Notifications(config: Config, outcome: Result<string, string>): seq<string> {
    (if config.unixNewlines then [UnixNewlinesNotice] else [])
    + (if outcome.Failure? then [ErrorMessage] else [])
  }

  /** What is appended to the output panel: the cleaned-up error, if there was one. */
  function OutputFor(outcome: Result<string, string>): string {
    if outcome.Failure? then FormatError(outcome.error) else ""
  }

  /** The range the edit replaces: the whole document when no range was asked for or when
      `editor.formatOnPaste` is on, otherwise the range asked for. */
  function EditTarget(document: Document, range: Option<Range>, config: Config): Range {
    if range.None? || config.formatOnPaste then WholeRange(document) else range.value
  }

  /** The text that is formatted. */
  function EditText(document: Document, range: Option<Range>, config: Config): string {
    if range.None? || config.formatOnPaste then document.text else GetText(document, range.value)
  }

  /**
   * `_getTextEdit`'s result: at most one edit. There is one exactly when formatting produced
   * a non-empty text; it replaces the target range with that text.
   */
  function Edits(document: Document, range: Option<Range>, extName: string, config: Config,
                 command: string, convert: Converter): (edits: seq<TextEdit>)
    ensures |edits| <= 1
    ensures var r := FormatResult(EditText(document, range, config), extName, config, command, convert);
      edits != [] <==> r.Some? && r.value != ""
    ensures edits != [] ==>
      edits[0].range == EditTarget(document, range, config)
      && Some(edits[0].newText)
         == FormatResult(EditText(document, range, config), extName, config, command, convert)
  {
    var newText := FormatResult(EditText(document, range, config), extName, config, command, convert);
    if newText.Some? && newText.value != "" then
      [Replace(EditTarget(document, range, config), newText.value)]
    else []
  }

  // ---------------------------------------------------------------------------------------
  // What formatting promises: the converter followed by the rewrite passes.

  /** Split into words, the command line is the command's words and then the converter's
      arguments. */
  lemma CommandWords(command: string, extName: string, config: Config)
    ensures Words(FormatCommand(command, extName, config)) == Words(command) + ConvertArgs(extName, config)
  {
    WordsAround(command, SassConvertOptions(extName, config));
    OptionsWords(extName, config);
  }

  /** The converter is given exactly the text of the target range. */
  lemma ConverterSeesTarget(document: Document, range: Option<Range>, config: Config)
    ensures EditText(document, range, config) == GetText(document, EditTarget(document, range, config))
  {
    assert document.text[0..|document.text|] == document.text;
  }

  /** With every rewrite switched off, the result is the converter's output as it is. */
  lemma PlainFormatting(text: string, extName: string, config: Config, command: string, convert: Converter)
    requires !config.inlineComments && !config.useSingleQuotes && config.numberLeadingZero
    ensures Formatted(text, extName, config, command, convert)
         == convert(FormatCommand(command, extName, config), text)
  {
  }

  /** Formatting fails exactly when the converter fails, and with the converter's error. */
  lemma FailureIsConverterFailure(text: string, extName: string, config: Config, command: string,
                                  convert: Converter)
    ensures var outcome := convert(FormatCommand(command, extName, config), ConverterInput(text, config));
      Formatted(text, extName, config, command, convert).Failure? <==> outcome.Failure?
    ensures var outcome := convert(FormatCommand(command, extName, config), ConverterInput(text, config));
      outcome.Failure? ==> Formatted(text, extName, config, command, convert).error == outcome.error
  {
  }

  /** With `numberLeadingZero` off, no space, `0.` and digit remains in a formatted text. */
  lemma NoLeadingZeroAfterFormatting(text: string, extName: string, config: Config, command: string,
                                     convert: Converter)
    requires !config.numberLeadingZero
    requires Formatted(text, extName, config, command, convert).Success?
    ensures LeadingZero.NoLeadingZero(Formatted(text, extName, config, command, convert).value)
  {
    var converted := convert(FormatCommand(command, extName, config), ConverterInput(text, config)).value;
    var restored :=
      if config.inlineComments then InlineComments.RestoreInlineComments(converted) else converted;
    var quoted := if config.useSingleQuotes then SingleQuotes.UseSingleQuotes(restored) else restored;
    LeadingZero.NoLeadingZeroRemains(quoted);
  }

  /** With only `useSingleQuotes` on, the formatted text is the converter's output with its
      unprotected double quotes turned into single quotes, character for character. */
  lemma SingleQuotesAfterFormatting(text: string, extName: string, config: Config, command: string,
                                    convert: Converter, converted: string)
    requires config.useSingleQuotes && !config.inlineComments && config.numberLeadingZero
    requires convert(FormatCommand(command, extName, config), text) == Success(converted)
    requires !Contains(converted, SingleQuotes.Placeholder)
    ensures var formatted := Formatted(text, extName, config, command, convert);
      && formatted.Success?
      && |formatted.value| == |converted|
      && forall i | 0 <= i < |converted| ::
           formatted.value[i]
           == if converted[i] == '"' && !SingleQuotes.Protected(converted)[i] then '\'' else converted[i]
  {
    SingleQuotes.UseSingleQuotesConverts(converted);
  }

  /** Formatting a range depends on the text of that range only. */
  lemma RangeEditsAreLocal(d1: Document, d2: Document, range: Range, extName: string, config: Config,
                           command: string, convert: Converter)
    requires !config.formatOnPaste
    requires GetText(d1, range) == GetText(d2, range)
    ensures Edits(d1, Some(range), extName, config, command, convert)
         == Edits(d2, Some(range), extName, config, command, convert)
  {
  }

  /**
   * The rewriting half of `_formatSass`: the converter's output is reassigned by each rewrite
   * in turn, inline comments first, then quotes, then leading zeros.
   */
  method RewriteOutput(converted: string, config: Config) returns (result: string)
    ensures result == PostProcess(converted, config)
  {
    result := converted;
    if config.inlineComments {
      result := InlineComments.RestoreComments(result, InlineComments.Sentinel);
      result := ReplaceFirst(result, "//" + InlineComments.Sentinel, "//");
      result := ReplaceFirst(result, "/*" + InlineComments.Sentinel, "/*");
    }
    if config.useSingleQuotes {
      result := SingleQuotes.ProtectBlockComments(result, SingleQuotes.Placeholder);
      result := SingleQuotes.ProtectLineComments(result, SingleQuotes.Placeholder);
      result := SingleQuotes.QuotesToSingle(result);
      result := SingleQuotes.RevealQuotes(result, SingleQuotes.Placeholder);
    }
    if !config.numberLeadingZero {
      result := LeadingZero.StripLeadingZeros(result);
    }
  }

  /**
   * The preparing half of `_formatSass`: the option string (and the deprecation notice it may
   * ask for), the command line, and the input with its inline comments marked if asked.
   */
  method PrepareConversion(command: string, text: string, extName: string, config: Config)
    returns (sassConvertFormatCommand: string, input: string, notice: Option<string>)
    ensures sassConvertFormatCommand == FormatCommand(command, extName, config)
    ensures input == ConverterInput(text, config)
    ensures notice.Some? <==> config.unixNewlines
    ensures notice.Some? ==> notice.value == UnixNewlinesNotice
  {
    var sassConvertOptions;
    sassConvertOptions, notice := GetSassConvertOptions(extName, config);
    sassConvertFormatCommand := command + " " + sassConvertOptions;
    input := text;
    if config.inlineComments {
      input := InlineComments.MarkInlineComments(input);
    }
  }

  // ---------------------------------------------------------------------------------------
  // The provider object.

  /**
   * The provider holds the output panel it writes errors to and the service that knows the
   * command. `notifications` records the messages it shows, in order.
   */
  class SassFormatterEditProvider {
    var outputChannel: string
    var notifications: seq<string>
    const sassConvert: SassConvert

    constructor (outputChannel: string, sassConvert: SassConvert)
      ensures this.outputChannel == outputChannel && notifications == []
      ensures this.sassConvert == sassConvert
    {
      this.outputChannel := outputChannel;
      notifications := [];
      this.sassConvert := sassConvert;
    }

    /**
     * `_formatSass`: builds the options, marks inline comments, runs the converter, then
     * rewrites its output step by step. A failing converter shows the error message, appends
     * the cleaned-up error to the output panel and yields None.
     */
    method FormatSass(text: string, extName: string, config: Config, convert: Converter)
      returns (result: Option<string>)
      modifies this
      ensures result == FormatResult(text, extName, config, sassConvert.sassConvertCommand, convert)
      ensures notifications == old(notifications)
        + Notifications(config, Formatted(text, extName, config, sassConvert.sassConvertCommand, convert))
      ensures outputChannel == old(outputChannel)
        + OutputFor(Formatted(text, extName, config, sassConvert.sassConvertCommand, convert))
    {
      ghost var command := sassConvert.sassConvertCommand;
      var sassConvertFormatCommand, input, notice := PrepareConversion(sassConvert.sassConvertCommand, text, extName, config);
      ghost var notices := if config.unixNewlines then [UnixNewlinesNotice] else [];
      if notice.Some? {
        notifications := notifications + [notice.value];
      }
      assert notifications == old(notifications) + notices;

      var outcome := convert(sassConvertFormatCommand, input);
      match outcome
      case Failure(error) =>
        assert Formatted(text, extName, config, command, convert) == Failure(error);
        notifications := notifications + [ErrorMessage];
        outputChannel := outputChannel + FormatError(error);
        result := None;
        Regroup(old(notifications), notices, [ErrorMessage], []);
      case Success(converted) =>
        var r := RewriteOutput(converted, config);
        assert Formatted(text, extName, config, command, convert) == Success(r);
        result := Some(r);
        assert notices + [] == notices;
    }

    /**
     * `_getTextEdit`: formats the whole document or the range, and pushes one replacement
     * edit when the result is a non-empty text.
     */
    method GetTextEdit(document: Document, range: Option<Range>, extName: string, config: Config,
                       convert: Converter)
      returns (result: seq<TextEdit>)
      modifies this
      ensures result == Edits(document, range, extName, config, sassConvert.sassConvertCommand, convert)
      ensures notifications == old(notifications) + Notifications(config,
        Formatted(EditText(document, range, config), extName, config, sassConvert.sassConvertCommand, convert))
      ensures outputChannel == old(outputChannel) + OutputFor(
        Formatted(EditText(document, range, config), extName, config, sassConvert.sassConvertCommand, convert))
    {
      result := [];
      var text: string;
      var target: Range;
      if range.None? || config.formatOnPaste {
        text := document.text;
        target := WholeRange(document);
      } else {
        target := range.value;
        text := GetText(document, target);
      }

      var newText := FormatSass(text, extName, config, convert);
      if newText.Some? && newText.value != "" {
        result := result + [Replace(target, newText.value)];
      }
    }

    /** Formatting a whole document: at most one edit, over the whole document. */
    method ProvideDocumentFormattingEdits(document: Document, extName: string, config: Config,
                                          convert: Converter)
      returns (edits: seq<TextEdit>)
      modifies this
      ensures edits == Edits(document, None, extName, config, sassConvert.sassConvertCommand, convert)
      ensures |edits| <= 1 && (edits != [] ==> edits[0].range == WholeRange(document))
      ensures notifications == old(notifications) + Notifications(config,
        Formatted(document.text, extName, config, sassConvert.sassConvertCommand, convert))
      ensures outputChannel == old(outputChannel) + OutputFor(
        Formatted(document.text, extName, config, sassConvert.sassConvertCommand, convert))
    {
      edits := GetTextEdit(document, None, extName, config, convert);
    }

    /** Formatting a range: at most one edit, over the range unless `formatOnPaste` widens it
        to the whole document. */
    method ProvideDocumentRangeFormattingEdits(document: Document, range: Range, extName: string,
                                               config: Config, convert: Converter)
      returns (edits: seq<TextEdit>)
      modifies this
      ensures edits == Edits(document, Some(range), extName, config, sassConvert.sassConvertCommand, convert)
      ensures |edits| <= 1
      ensures edits != [] ==>
        edits[0].range == if config.formatOnPaste then WholeRange(document) else range
      ensures notifications == old(notifications) + Notifications(config,
        Formatted(EditText(document, Some(range), config), extName, config, sassConvert.sassConvertCommand, convert))
      ensures outputChannel == old(outputChannel) + OutputFor(
        Formatted(EditText(document, Some(range), config), extName, config, sassConvert.sassConvertCommand, convert))
    {
      edits := GetTextEdit(document, Some(range), extName, config, convert);
    }
  }
}
