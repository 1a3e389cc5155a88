/**
 * The option string of the current formatter: dialect flags chosen by the file extension,
 * then the style flags, `--stdin`, the encoding and the fixed trailing flags, in that order.
 */
module ConvertOptions {
  import opened Wrappers
  import opened Text
  import opened Settings

  /** The information message shown instead of a flag when `unixNewlines` is set. */
  const UnixNewlinesNotice :=
    "sassFormat.unixNewlines setting is deprecated. Please use \"End of Line\" setting from VS Code."

  /** The dialect flags of an extension; the comparison is exact, so case matters. */
  function DialectFlags(extName: string): string {
    if extName == ".scss" || extName == ".css" then "--from scss --to scss"
    else if extName == ".sass" then "--from sass --to sass"
    else ""
  }

  /**
   * The option string built for an extension and a settings snapshot, segment after segment:
   * the dialect flags, `--dasherize` when set, `--indent` and its value, `--stdin`,
   * `--default-encoding` and its value, then the fixed flags.
   */
  function SassConvertOptions(extName: string, config: Config): (options: string)
    ensures DialectFlags(extName) <= options
    ensures EndsWith(options, " --no-cache --quiet")
  {
    var dialect := DialectFlags(extName);
    var dasherized := if config.dasherize then dialect + " --dasherize" else dialect;
    var indented := dasherized + " --indent " + config.indent;
    var piped := indented + " --stdin";
    var encoded := piped + " --default-encoding " + config.defaultEncoding;
    assert dialect <= dasherized <= indented <= piped <= encoded;
    encoded + " --no-cache --quiet"
  }

  /** The dialect arguments the converter receives. */
  function DialectArgs(extName: string): seq<string> {
    if extName == ".scss" || extName == ".css" then ["--from", "scss", "--to", "scss"]
    else if extName == ".sass" then ["--from", "sass", "--to", "sass"]
    else []
  }

  function DasherizeArgs(config: Config): seq<string> {
    if config.dasherize then ["--dasherize"] else []
  }

  /**
   * The arguments the converter receives, word by word: the dialect pair, `--dasherize` when
   * set, `--indent` with the words of the indent setting, `--stdin`, `--default-encoding` with
   * the words of the encoding setting (even when that is "default"), `--no-cache`, `--quiet`.
   */
  function ConvertArgs(extName: string, config: Config): seq<string> {
    DialectArgs(extName) + DasherizeArgs(config)
    + ["--indent"] + Words(config.indent)
    + ["--stdin"] + ["--default-encoding"] + Words(config.defaultEncoding)
    + ["--no-cache", "--quiet"]
  }

  lemma LanguageWords(lang: string)
    requires lang == "scss" || lang == "sass"
    ensures Words("--from " + lang + " --to " + lang) == ["--from", lang, "--to", lang]
  {
    assert "--from " + lang + " --to " + lang == "--from" + " " + lang + " " + "--to" + " " + lang;
    FourWords("--from", lang, "--to", lang);
  }

  lemma DialectWords(extName: string)
    ensures Words(DialectFlags(extName)) == DialectArgs(extName)
  {
    if extName == ".scss" || extName == ".css" {
      assert DialectFlags(extName) == "--from " + "scss" + " --to " + "scss";
      LanguageWords("scss");
    } else if extName == ".sass" {
      assert DialectFlags(extName) == "--from " + "sass" + " --to " + "sass";
      LanguageWords("sass");
    }
  }

  /** Appending a segment made of a flag between spaces and a value adds the flag and the
      value's words. */
  lemma FlagSegment(prefix: string, flag: string, segment: string, value: string)
    requires ValueFlag(flag, segment)
    ensures Words(prefix + segment + value) == Words(prefix) + [flag] + Words(value)
  {
    assert prefix + segment + value == prefix + (" " + flag + " " + value);
    WordsConcat(prefix, " " + flag + " " + value);
    FlagWords(flag, value);
  }

  /** Appending a segment made of a space and a flag adds that flag. */
  lemma LoneFlagSegment(prefix: string, flag: string, segment: string)
    requires LoneFlag(flag, segment)
    ensures Words(prefix + segment) == Words(prefix) + [flag]
  {
    WordsConcat(prefix, segment);
    LastFlagWords(flag);
  }

  /** The segments the option strings append, each a flag with its spaces. */
  predicate LoneFlag(flag: string, segment: string) {
    flag != [] && ' ' !in flag && segment == " " + flag
  }

  predicate ValueFlag(flag: string, segment: string) {
    flag != [] && ' ' !in flag && segment == " " + flag + " "
  }

  lemma FlagShapes()
    ensures LoneFlag("--dasherize", " --dasherize") && LoneFlag("--stdin", " --stdin")
    ensures LoneFlag("--old", " --old") && LoneFlag("--unix-newlines", " --unix-newlines")
    ensures ValueFlag("--indent", " --indent ")
    ensures ValueFlag("--default-encoding", " --default-encoding ")
    ensures ValueFlag("--no-cache", " --no-cache ")
  {
    LoneFlagShapes();
    ValueFlagShapes();
  }

  lemma LoneFlagShapes()
    ensures LoneFlag("--dasherize", " --dasherize") && LoneFlag("--stdin", " --stdin")
    ensures LoneFlag("--old", " --old") && LoneFlag("--unix-newlines", " --unix-newlines")
  {
  }

  lemma ValueFlagShapes()
    ensures ValueFlag("--indent", " --indent ")
    ensures ValueFlag("--default-encoding", " --default-encoding ")
    ensures ValueFlag("--no-cache", " --no-cache ")
  {
  }

  lemma FixedStep(prefix: string)
    ensures Words(prefix + " --no-cache --quiet") == Words(prefix) + ["--no-cache", "--quiet"]
  {
    assert prefix + " --no-cache --quiet" == prefix + " --no-cache " + "--quiet";
    FlagSegment(prefix, "--no-cache", " --no-cache ", "--quiet");
    WordsOfWord("--quiet");
  }

  /** Split into words, the option string is exactly the argument list above. */
  lemma OptionsWords(extName: string, config: Config)
    ensures Words(SassConvertOptions(extName, config)) == ConvertArgs(extName, config)
  {
    var dialect := DialectFlags(extName);
    var dasherized := if config.dasherize then dialect + " --dasherize" else dialect;
    var indented := dasherized + " --indent " + config.indent;
    var piped := indented + " --stdin";
    var encoded := piped + " --default-encoding " + config.defaultEncoding;
    assert Words(dasherized) == DialectArgs(extName) + DasherizeArgs(config) by {
      DialectWords(extName);
      if config.dasherize {
        FlagShapes();
        LoneFlagSegment(dialect, "--dasherize", " --dasherize");
      } else {
        assert DialectArgs(extName) + DasherizeArgs(config) == DialectArgs(extName);
      }
    }
    FlagShapes();
    FlagSegment(dasherized, "--indent", " --indent ", config.indent);
    LoneFlagSegment(indented, "--stdin", " --stdin");
    FlagSegment(piped, "--default-encoding", " --default-encoding ", config.defaultEncoding);
    FixedStep(encoded);
  }

  /**
   * `_getSassConvertOptions`: appends each segment to a local string in turn. The deprecated
   * `unixNewlines` setting adds no flag; it only produces an information message.
   */
  method GetSassConvertOptions(extName: string, config: Config)
    returns (sassConvertOptions: string, notice: Option<string>)
    ensures sassConvertOptions == SassConvertOptions(extName, config)
    ensures Words(sassConvertOptions) == ConvertArgs(extName, config)
    ensures notice.Some? <==> config.unixNewlines
    ensures notice.Some? ==> notice.value == UnixNewlinesNotice
  {
    sassConvertOptions := "";
    notice := None;

    if extName == ".scss" {
      sassConvertOptions := sassConvertOptions + "--from scss --to scss";
    }
    if extName == ".sass" {
      sassConvertOptions := sassConvertOptions + "--from sass --to sass";
    }
    if extName == ".css" {
      sassConvertOptions := sassConvertOptions + "--from scss --to scss";
    }
    assert sassConvertOptions == DialectFlags(extName);

    if config.dasherize {
      sassConvertOptions := sassConvertOptions + " --dasherize";
    }
    sassConvertOptions := sassConvertOptions + " --indent " + config.indent;

    sassConvertOptions := sassConvertOptions + " --stdin";
    sassConvertOptions := sassConvertOptions + " --default-encoding " + config.defaultEncoding;

    if config.unixNewlines {
      notice := Some(UnixNewlinesNotice);
    }

    sassConvertOptions := sassConvertOptions + " --no-cache --quiet";
    OptionsWords(extName, config);
  }

  /** The word `w` is not among the words of the indent or the encoding setting. */
  predicate NotAValue(config: Config, w: string) {
    w !in Words(config.indent) && w !in Words(config.defaultEncoding)
  }

  /** `--dasherize` is among the arguments exactly when the setting is on (provided the
      indent and encoding values do not hold that word). */
  lemma DasherizeIff(extName: string, config: Config)
    requires NotAValue(config, "--dasherize")
    ensures "--dasherize" in ConvertArgs(extName, config) <==> config.dasherize
  {
  }

  /** `--indent`, `--stdin` and `--default-encoding` each appear exactly once, whatever the
      settings (provided the indent and encoding values do not hold those words). */
  lemma FixedFlagsOnce(extName: string, config: Config)
    requires NotAValue(config, "--indent") && NotAValue(config, "--stdin")
    requires NotAValue(config, "--default-encoding")
    ensures multiset(ConvertArgs(extName, config))["--indent"] == 1
    ensures multiset(ConvertArgs(extName, config))["--stdin"] == 1
    ensures multiset(ConvertArgs(extName, config))["--default-encoding"] == 1
  {
    ArgsCount(extName, config, "--indent");
    ArgsCount(extName, config, "--stdin");
    ArgsCount(extName, config, "--default-encoding");
  }

  lemma ShortDialectWords(extName: string)
    ensures forall w <- DialectArgs(extName) :: |w| <= 6
  {
  }

  /** How often a word other than a dialect word, `--dasherize` or a value word occurs. */
  lemma ArgsCount(extName: string, config: Config, f: string)
    requires |f| > 6 && f != "--dasherize" && NotAValue(config, f)
    ensures multiset(ConvertArgs(extName, config))[f]
         == (if f == "--indent" then 1 else 0) + (if f == "--stdin" then 1 else 0)
          + (if f == "--default-encoding" then 1 else 0) + (if f == "--no-cache" then 1 else 0)
          + (if f == "--quiet" then 1 else 0)
  {
    ShortDialectWords(extName);
    assert f !in DialectArgs(extName);
    assert multiset(DialectArgs(extName))[f] == 0;
    assert multiset(DasherizeArgs(config))[f] == 0;
    assert multiset(Words(config.indent))[f] == 0;
    assert multiset(Words(config.defaultEncoding))[f] == 0;
  }

  /** The arguments start with the dialect pair of a recognised extension. */
  lemma DialectByExtension(extName: string, config: Config)
    ensures extName == ".scss" || extName == ".css" ==>
      ConvertArgs(extName, config)[..4] == ["--from", "scss", "--to", "scss"]
    ensures extName == ".sass" ==>
      ConvertArgs(extName, config)[..4] == ["--from", "sass", "--to", "sass"]
  {
  }

  /** Any other extension, upper-case ones included, gets no dialect flags at all (provided
      the indent and encoding values hold neither flag). */
  lemma NoDialectForOtherExtensions(extName: string, config: Config)
    requires extName != ".scss" && extName != ".sass" && extName != ".css"
    requires NotAValue(config, "--from") && NotAValue(config, "--to")
    ensures "--from" !in ConvertArgs(extName, config) && "--to" !in ConvertArgs(extName, config)
  {
  }

  /** The deprecated `unixNewlines` and `oldStyle` settings never change the option string. */
  lemma OptionsIgnoreDeprecatedSettings(extName: string, config: Config, unixNewlines: bool, oldStyle: bool)
    ensures SassConvertOptions(extName, config)
         == SassConvertOptions(extName, config.(unixNewlines := unixNewlines, oldStyle := oldStyle))
  {
  }
}
