/**
 * The first version of the extension, kept in `src/extension.ts`: a probe of `sass-convert`
 * at activation, an option string with `--to` only, and a whole-document formatter that runs
 * the converter on the file saved at the document's path instead of piping the text to it.
 */
module LegacyExtension {
  import opened Wrappers
  import opened Text
  import opened Settings
  import ConvertOptions

  /** The command, looked up on the process search path; this version has no `sassPath`. */
  const SassConvertCommand := "sass-convert"

  const SassConvertMissingCommandMessage :=
    "Please install the sass command line tools from http://sass-lang.com/install if you want to use Sass Formatter extension."

  /** The target dialect chosen by the end of the path; no source dialect is ever named. */
  function DialectFlags(fsPath: string): (flags: string)
    ensures flags == "" || flags == "--to scss" || flags == "--to sass"
  {
    if EndsWith(fsPath, ".scss") || EndsWith(fsPath, ".css") then "--to scss"
    else if EndsWith(fsPath, ".sass") then "--to sass"
    else ""
  }

  /**
   * The option string of this version, segment after segment: the dialect, `--dasherize`
   * when set, `--indent` and its value, `--old` when set, `--default-encoding` and its value
   * unless the setting is "default", `--unix-newlines` when set, then the fixed flags.
   */
  function SassConvertOptions(fsPath: string, config: Config): (options: string)
    ensures DialectFlags(fsPath) <= options
    ensures EndsWith(options, " --no-cache --quiet")
  {
    var dialect := DialectFlags(fsPath);
    var dasherized := if config.dasherize then dialect + " --dasherize" else dialect;
    var indented := dasherized + " --indent " + config.indent;
    var styled := if config.oldStyle then indented + " --old" else indented;
    var encoded :=
      if config.defaultEncoding != "default" then styled + " --default-encoding " + config.defaultEncoding
      else styled;
    var newlines := if config.unixNewlines then encoded + " --unix-newlines" else encoded;
    assert dialect <= dasherized <= indented <= styled <= encoded <= newlines;
    newlines + " --no-cache --quiet"
  }

  function DialectArgs(fsPath: string): seq<string> {
    if EndsWith(fsPath, ".scss") || EndsWith(fsPath, ".css") then ["--to", "scss"]
    else if EndsWith(fsPath, ".sass") then ["--to", "sass"]
    else []
  }

  function FlagIf(on: bool, flag: string): seq<string> {
    if on then [flag] else []
  }

  function EncodingArgs(encoding: string): seq<string> {
    if encoding != "default" then ["--default-encoding"] + Words(encoding) else []
  }

  /** The arguments before `--indent`: the dialect and `--dasherize`. */
  function LeadingArgs(fsPath: string, config: Config): seq<string> {
    DialectArgs(fsPath) + FlagIf(config.dasherize, "--dasherize")
  }

  /** The arguments after the indent value: `--old`, the encoding, `--unix-newlines`, and the
      fixed flags. */
  function TrailingArgs(config: Config): seq<string> {
    FlagIf(config.oldStyle, "--old") + EncodingArgs(config.defaultEncoding)
    + FlagIf(config.unixNewlines, "--unix-newlines") + ["--no-cache", "--quiet"]
  }

  /** The arguments the converter receives, word by word, before the file path. */
  function LegacyArgs(fsPath: string, config: Config): seq<string> {
    LeadingArgs(fsPath, config) + ["--indent"] + Words(config.indent) + TrailingArgs(config)
  }

  lemma DialectWords(fsPath: string)
    ensures Words(DialectFlags(fsPath)) == DialectArgs(fsPath)
  {
    var flags := DialectFlags(fsPath);
    if flags != "" {
      var lang := flags[5..];
      assert flags == "--to" + " " + lang;
      WordThen("--to", lang);
      WordsOfWord(lang);
    }
  }

  lemma OptionalFlagStep(prefix: string, on: bool, flag: string, next: string)
    requires flag != [] && ' ' !in flag
    requires next == if on then prefix + " " + flag else prefix
    ensures Words(next) == Words(prefix) + FlagIf(on, flag)
  {
    if on {
      assert prefix + " " + flag == prefix + (" " + flag);
      ConvertOptions.LoneFlagSegment(prefix, flag, " " + flag);
    } else {
      assert Words(prefix) + [] == Words(prefix);
    }
  }

  lemma UnixNewlinesStep(prefix: string, on: bool, next: string)
    requires next == if on then prefix + " --unix-newlines" else prefix
    ensures Words(next) == Words(prefix) + FlagIf(on, "--unix-newlines")
  {
    var flag := "--unix-newlines";
    assert ' ' !in flag;
    assert prefix + " --unix-newlines" == prefix + " " + flag;
    OptionalFlagStep(prefix, on, flag, next);
  }

  lemma OptionalEncodingStep(prefix: string, encoding: string, next: string)
    requires next == if encoding != "default" then prefix + " --default-encoding " + encoding else prefix
    ensures Words(next) == Words(prefix) + EncodingArgs(encoding)
  {
    if encoding != "default" {
      ConvertOptions.FlagShapes();
      ConvertOptions.FlagSegment(prefix, "--default-encoding", " --default-encoding ", encoding);
      Regroup(Words(prefix), ["--default-encoding"], Words(encoding), []);
    } else {
      assert Words(prefix) + [] == Words(prefix);
    }
  }

  /** Four appended segments, each adding its words, add the four word lists in order. */
  lemma Chain<T>(a: seq<T>, b: seq<T>, c: seq<T>, d: seq<T>, e: seq<T>,
                 x: seq<T>, y: seq<T>, z: seq<T>, u: seq<T>)
    requires b == a + x && c == b + y && d == c + z && e == d + u
    ensures e == a + (x + y + z + u)
  {
    assert e == a + x + y + z + u;
  }

  /** The segments up to the indent value give the leading arguments, `--indent` and the
      value's words. */
  lemma LeadingWords(fsPath: string, config: Config, dialect: string, dasherized: string, indented: string)
    requires Words(dialect) == DialectArgs(fsPath)
    requires dasherized == if config.dasherize then dialect + " --dasherize" else dialect
    requires indented == dasherized + " --indent " + config.indent
    ensures Words(indented) == LeadingArgs(fsPath, config) + ["--indent"] + Words(config.indent)
  {
    OptionalFlagStep(dialect, config.dasherize, "--dasherize", dasherized);
    ConvertOptions.FlagShapes();
    ConvertOptions.FlagSegment(dasherized, "--indent", " --indent ", config.indent);
  }

  /** The segments after the indent value add the trailing arguments. */
  lemma TrailingWords(indented: string, config: Config, styled: string, encoded: string, newlines: string)
    requires styled == if config.oldStyle then indented + " --old" else indented
    requires encoded ==
      if config.defaultEncoding != "default" then styled + " --default-encoding " + config.defaultEncoding
      else styled
    requires newlines == if config.unixNewlines then encoded + " --unix-newlines" else encoded
    ensures Words(newlines + " --no-cache --quiet") == Words(indented) + TrailingArgs(config)
  {
    OptionalFlagStep(indented, config.oldStyle, "--old", styled);
    OptionalEncodingStep(styled, config.defaultEncoding, encoded);
    UnixNewlinesStep(encoded, config.unixNewlines, newlines);
    ConvertOptions.FixedStep(newlines);
    Chain(Words(indented), Words(styled), Words(encoded), Words(newlines), Words(newlines + " --no-cache --quiet"),
          FlagIf(config.oldStyle, "--old"), EncodingArgs(config.defaultEncoding),
          FlagIf(config.unixNewlines, "--unix-newlines"), ["--no-cache", "--quiet"]);
  }

  /** Split into words, the option string is exactly the argument list above. */
  lemma OptionsWords(fsPath: string, config: Config)
    ensures Words(SassConvertOptions(fsPath, config)) == LegacyArgs(fsPath, config)
  {
    var dialect := DialectFlags(fsPath);
    var dasherized := if config.dasherize then dialect + " --dasherize" else dialect;
    var indented := dasherized + " --indent " + config.indent;
    var styled := if config.oldStyle then indented + " --old" else indented;
    var encoded :=
      if config.defaultEncoding != "default" then styled + " --default-encoding " + config.defaultEncoding
      else styled;
    var newlines := if config.unixNewlines then encoded + " --unix-newlines" else encoded;
    assert SassConvertOptions(fsPath, config) == newlines + " --no-cache --quiet";
    DialectWords(fsPath);
    LeadingWords(fsPath, config, dialect, dasherized, indented);
    TrailingWords(indented, config, styled, encoded, newlines);
  }

  /** No path ends both in `.sass` and in `.scss` or `.css`, so at most one dialect applies. */
  lemma ExtensionsExclusive(fsPath: string)
    ensures !(EndsWith(fsPath, ".sass") && (EndsWith(fsPath, ".scss") || EndsWith(fsPath, ".css")))
  {
    if EndsWith(fsPath, ".sass") {
      var n := |fsPath|;
      assert fsPath[n - 3] == 'a' && fsPath[n - 4] == 's';
      assert !EndsWith(fsPath, ".scss") by {
        assert ".scss"[2] == 'c';
      }
      assert !EndsWith(fsPath, ".css") by {
        assert ".css"[0] == '.';
      }
    }
  }

  /**
   * `getSassConvertOptions`: appends each segment to a local string in turn, the dialect by
   * two separate tests of the path's ending.
   */
  method GetSassConvertOptions(fsPath: string, config: Config) returns (sassConvertOptions: string)
    ensures sassConvertOptions == SassConvertOptions(fsPath, config)
    ensures Words(sassConvertOptions) == LegacyArgs(fsPath, config)
  {
    sassConvertOptions := "";

    if EndsWith(fsPath, ".scss") || EndsWith(fsPath, ".css") {
      sassConvertOptions := sassConvertOptions + "--to scss";
    }
    if EndsWith(fsPath, ".sass") {
      sassConvertOptions := sassConvertOptions + "--to sass";
    }
    ExtensionsExclusive(fsPath);
    assert sassConvertOptions == DialectFlags(fsPath);

    if config.dasherize {
      sassConvertOptions := sassConvertOptions + " --dasherize";
    }
    sassConvertOptions := sassConvertOptions + " --indent " + config.indent;
    if config.oldStyle {
      sassConvertOptions := sassConvertOptions + " --old";
    }

    if config.defaultEncoding != "default" {
      sassConvertOptions := sassConvertOptions + " --default-encoding " + config.defaultEncoding;
    }
    if config.unixNewlines {
      sassConvertOptions := sassConvertOptions + " --unix-newlines";
    }

    sassConvertOptions := sassConvertOptions + " --no-cache --quiet";
    OptionsWords(fsPath, config);
  }

  // ---------------------------------------------------------------------------------------
  // What the option string promises.

  /** A path ending in `.scss` or `.css` starts the arguments with `--to scss`, one ending in
      `.sass` with `--to sass`. */
  lemma DialectByPath(fsPath: string, config: Config)
    ensures EndsWith(fsPath, ".scss") || EndsWith(fsPath, ".css") ==>
      LegacyArgs(fsPath, config)[..2] == ["--to", "scss"]
    ensures EndsWith(fsPath, ".sass") ==> LegacyArgs(fsPath, config)[..2] == ["--to", "sass"]
  {
    ExtensionsExclusive(fsPath);
  }

  lemma LeadingMembership(fsPath: string, config: Config, w: string)
    ensures w in LeadingArgs(fsPath, config) <==>
      w in DialectArgs(fsPath) || (config.dasherize && w == "--dasherize")
  {
  }

  lemma TrailingMembership(config: Config, w: string)
    ensures w in TrailingArgs(config) <==>
      || (config.oldStyle && w == "--old")
      || (config.defaultEncoding != "default"
          && (w == "--default-encoding" || w in Words(config.defaultEncoding)))
      || (config.unixNewlines && w == "--unix-newlines")
      || w == "--no-cache" || w == "--quiet"
  {
    var enc := EncodingArgs(config.defaultEncoding);
    assert TrailingArgs(config) == FlagIf(config.oldStyle, "--old") + (enc + FlagIf(config.unixNewlines, "--unix-newlines")
                    + ["--no-cache", "--quiet"]);
    assert w in enc <==>
      config.defaultEncoding != "default" && (w == "--default-encoding" || w in Words(config.defaultEncoding));
  }

  /** Which words occur among the arguments, segment by segment. */
  lemma ArgsMembership(fsPath: string, config: Config, w: string)
    ensures w in LegacyArgs(fsPath, config) <==>
      || w in DialectArgs(fsPath)
      || (config.dasherize && w == "--dasherize")
      || w == "--indent" || w in Words(config.indent)
      || (config.oldStyle && w == "--old")
      || (config.defaultEncoding != "default"
          && (w == "--default-encoding" || w in Words(config.defaultEncoding)))
      || (config.unixNewlines && w == "--unix-newlines")
      || w == "--no-cache" || w == "--quiet"
  {
    var lead := LeadingArgs(fsPath, config);
    var trail := TrailingArgs(config);
    assert LegacyArgs(fsPath, config) == lead + (["--indent"] + Words(config.indent) + trail);
    LeadingMembership(fsPath, config, w);
    TrailingMembership(config, w);
  }

  /** Any other path gets no dialect flag (provided no setting value holds the word). */
  lemma NoDialectForOtherPaths(fsPath: string, config: Config)
    requires !EndsWith(fsPath, ".scss") && !EndsWith(fsPath, ".css") && !EndsWith(fsPath, ".sass")
    requires ConvertOptions.NotAValue(config, "--to")
    ensures "--to" !in LegacyArgs(fsPath, config)
  {
    ArgsMembership(fsPath, config, "--to");
  }

  /** `--from` and `--stdin` never appear: the source dialect is left to the converter and
      the text is not piped (provided no setting value holds those words). */
  lemma NoSourceDialectNoStdin(fsPath: string, config: Config)
    requires ConvertOptions.NotAValue(config, "--from") && ConvertOptions.NotAValue(config, "--stdin")
    ensures "--from" !in LegacyArgs(fsPath, config) && "--stdin" !in LegacyArgs(fsPath, config)
  {
    ArgsMembership(fsPath, config, "--from");
    ArgsMembership(fsPath, config, "--stdin");
  }

  /** Each optional flag appears exactly when its setting is on (provided no setting value
      holds that word). */
  lemma FlagsIffSettings(fsPath: string, config: Config)
    requires ConvertOptions.NotAValue(config, "--dasherize")
    requires ConvertOptions.NotAValue(config, "--old")
    requires ConvertOptions.NotAValue(config, "--unix-newlines")
    ensures "--dasherize" in LegacyArgs(fsPath, config) <==> config.dasherize
    ensures "--old" in LegacyArgs(fsPath, config) <==> config.oldStyle
    ensures "--unix-newlines" in LegacyArgs(fsPath, config) <==> config.unixNewlines
  {
    ArgsMembership(fsPath, config, "--dasherize");
    ArgsMembership(fsPath, config, "--old");
    ArgsMembership(fsPath, config, "--unix-newlines");
  }

  /** `--default-encoding` appears exactly when the setting is not "default" (provided the
      indent value does not hold the word). */
  lemma EncodingIffNotDefault(fsPath: string, config: Config)
    requires ConvertOptions.NotAValue(config, "--default-encoding")
    ensures "--default-encoding" in LegacyArgs(fsPath, config) <==> config.defaultEncoding != "default"
  {
    ArgsMembership(fsPath, config, "--default-encoding");
  }

  /** `--indent` appears exactly once, whatever the settings (provided no setting value holds
      the word). */
  lemma IndentOnce(fsPath: string, config: Config)
    requires ConvertOptions.NotAValue(config, "--indent")
    ensures multiset(LegacyArgs(fsPath, config))["--indent"] == 1
  {
    var f := "--indent";
    var lead := LeadingArgs(fsPath, config);
    var trail := TrailingArgs(config);
    assert f !in lead by {
      LeadingMembership(fsPath, config, f);
    }
    assert f !in trail by {
      TrailingMembership(config, f);
    }
    OnceBetween(lead, f, Words(config.indent), trail);
  }

  /** A value absent from the parts around it occurs once. */
  lemma OnceBetween<T>(a: seq<T>, f: T, b: seq<T>, c: seq<T>)
    requires f !in a && f !in b && f !in c
    ensures multiset(a + [f] + b + c)[f] == 1
  {
    assert multiset(a)[f] == 0 && multiset(b)[f] == 0 && multiset(c)[f] == 0;
    assert multiset(a + [f] + b + c) == multiset(a) + multiset([f]) + multiset(b) + multiset(c);
  }

  /** The arguments always end with `--no-cache --quiet`. */
  lemma FixedFlagsLast(fsPath: string, config: Config)
    ensures var args := LegacyArgs(fsPath, config);
      |args| >= 2 && args[|args| - 2..] == ["--no-cache", "--quiet"]
  {
  }

  // ---------------------------------------------------------------------------------------
  // Formatting a document.

  /** The command line: the command, the options and the document's path, joined by spaces. */
  function FormatCommand(fsPath: string, config: Config): (cmd: string)
    ensures SassConvertCommand + " " <= cmd && EndsWith(cmd, " " + fsPath)
  {
    var options := SassConvertOptions(fsPath, config);
    assert SassConvertCommand + " " + options + " " + fsPath
        == (SassConvertCommand + " ") + (options + " " + fsPath);
    SassConvertCommand + " " + options + " " + fsPath
  }

  /** Split into words, the command line is the command, the arguments, then the words of the
      path; a path holding spaces becomes several arguments, as the path is not quoted. */
  lemma CommandWords(fsPath: string, config: Config)
    ensures Words(FormatCommand(fsPath, config))
         == [SassConvertCommand] + LegacyArgs(fsPath, config) + Words(fsPath)
  {
    var options := SassConvertOptions(fsPath, config);
    assert FormatCommand(fsPath, config) == SassConvertCommand + " " + (options + " " + fsPath);
    WordThen(SassConvertCommand, options + " " + fsPath);
    WordsAround(options, fsPath);
    OptionsWords(fsPath, config);
  }

  /** What running the command gives. Nothing is piped: the converter reads the file at the
      path, as last saved, so its standard input is empty. */
  function Run(document: Document, config: Config, convert: Converter): Result<string, string> {
    convert(FormatCommand(document.fsPath, config), "")
  }

  /** `formatSass`'s return value: the converter's output, or null (None) once the call threw. */
  function FormatResult(document: Document, config: Config, convert: Converter): (r: Option<string>)
    ensures r.Some? <==> Run(document, config, convert).Success?
    ensures r.Some? ==> r.value == Run(document, config, convert).value
  {
    match Run(document, config, convert)
    case Success(output) => Some(output)
    case Failure(_) => None
  }

  /** `provideDocumentFormattingEdits`'s result: one edit over the whole document when the
      output is a non-empty text, none otherwise. */
  function Edits(document: Document, config: Config, convert: Converter): (edits: seq<TextEdit>)
    ensures |edits| <= 1
    ensures edits != [] <==> Run(document, config, convert).Success? && Run(document, config, convert).value != ""
    ensures edits != [] ==>
      edits[0] == Replace(WholeRange(document), Run(document, config, convert).value)
  {
    var newText := FormatResult(document, config, convert);
    if newText.Some? && newText.value != "" then [Replace(WholeRange(document), newText.value)] else []
  }

  /** The text in the editor plays no part in the result: two documents saved at the same path
      get the same replacement text, each over its own whole range. */
  lemma BufferIgnored(d1: Document, d2: Document, config: Config, convert: Converter)
    requires d1.fsPath == d2.fsPath
    ensures |Edits(d1, config, convert)| == |Edits(d2, config, convert)|
    ensures Edits(d1, config, convert) != [] ==>
      Edits(d1, config, convert)[0].newText == Edits(d2, config, convert)[0].newText
  {
  }

  /** The messages shown by a formatting request: the missing-command message once the call
      threw, whatever the reason it threw. */
  function FormatNotifications(document: Document, config: Config, convert: Converter): seq<string> {
    if Run(document, config, convert).Failure? then [SassConvertMissingCommandMessage] else []
  }

  /** `checkDependencies`: runs `sass-convert --version` and asks for the missing-command
      message when that throws. */
  method CheckDependencies(convert: Converter) returns (message: Option<string>)
    ensures message.Some? <==> convert(SassConvertCommand + " --version", "").Failure?
    ensures message.Some? ==> message.value == SassConvertMissingCommandMessage
  {
    var probe := convert(SassConvertCommand + " --version", "");
    if probe.Failure? {
      message := Some(SassConvertMissingCommandMessage);
    } else {
      message := None;
    }
  }

  /** The provider of this version. `notifications` records the messages it shows. */
  class SassFormatEditProvider {
    var notifications: seq<string>

    constructor ()
      ensures notifications == []
    {
      notifications := [];
    }

    /** `formatSass`: builds the command and runs it; a throwing call shows the missing-command
        message and yields None. */
    method FormatSass(document: Document, config: Config, convert: Converter)
      returns (result: Option<string>)
      modifies this
      ensures result == FormatResult(document, config, convert)
      ensures notifications == old(notifications) + FormatNotifications(document, config, convert)
    {
      var sassConvertOptions := GetSassConvertOptions(document.fsPath, config);
      var inputFile := document.fsPath;
      var sassConvertFormatCommand := SassConvertCommand + " " + sassConvertOptions + " " + inputFile;
      assert sassConvertFormatCommand == FormatCommand(document.fsPath, config);

      var outcome := convert(sassConvertFormatCommand, "");
      match outcome
      case Success(output) =>
        result := Some(output);
        assert notifications + [] == notifications;
      case Failure(_) =>
        notifications := notifications + [SassConvertMissingCommandMessage];
        result := None;
    }

    /** `provideDocumentFormattingEdits`: pushes one whole-document edit when `formatSass`
        gives a non-empty text. */
    method ProvideDocumentFormattingEdits(document: Document, config: Config, convert: Converter)
      returns (result: seq<TextEdit>)
      modifies this
      ensures result == Edits(document, config, convert)
      ensures notifications == old(notifications) + FormatNotifications(document, config, convert)
    {
      result := [];
      var newText := FormatSass(document, config, convert);
      if newText.Some? && newText.value != "" {
        var range := WholeRange(document);
        result := result + [Replace(range, newText.value)];
      }
    }
  }
}
