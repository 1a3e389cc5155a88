/**
 * The service that resolves the `sass-convert` command from the `sassPath` setting, probes it
 * once, and turns a thrown error into the text shown in the output panel.
 */
module SassConvertService {
  import opened Wrappers
  import opened Text

  /** The executable's bare name, looked up on the process search path. */
  const SassConvertCommandDefault := "sass-convert"

  const MissingCommandMessage :=
    "Please install the sass command line tools from http://sass-lang.com/install if you want to use Sass Formatter extension."
  const InvalidSassPathMessage := "The sassPath setting is not valid."
  const ErrorMessage := "There was an error formatting your file. See Output panel for more details."

  /** The backtrace hints that `sass-convert` appends to its errors. */
  const TraceHint := "Use --trace for backtrace."
  const TraceHintWithoutDot := "Use --trace for backtrace"

  /**
   * The command derived from the `sassPath` setting: an absent or empty setting falls back to
   * the bare name; otherwise one trailing `/` is dropped and `/sass-convert` is appended.
   */
  function CommandFor(sassPath: Option<string>): (cmd: string)
    ensures EndsWith(cmd, SassConvertCommandDefault)
    ensures cmd == SassConvertCommandDefault <==> sassPath.None? || sassPath.value == ""
  {
    if sassPath.Some? && sassPath.value != "" then
      var p := sassPath.value;
      var dir := if EndsWith(p, "/") then p[..|p| - 1] else p;
      dir + "/" + SassConvertCommandDefault
    else
      SassConvertCommandDefault
  }

  /** A configured directory names the executable inside it: the command is the directory,
      less at most one trailing `/`, joined to the bare name by exactly one `/`. */
  lemma CommandInDirectory(p: string)
    requires p != ""
    ensures var cmd := CommandFor(Some(p));
      var dir := cmd[..|cmd| - |"/sass-convert"|];
      cmd == dir + "/sass-convert" && (dir == p || dir + "/" == p)
  {
    var dir := if EndsWith(p, "/") then p[..|p| - 1] else p;
    assert CommandFor(Some(p)) == dir + "/" + SassConvertCommandDefault;
    JoinedName(dir);
    if EndsWith(p, "/") {
      RestoreLast(p);
    }
  }

  lemma JoinedName(dir: string)
    ensures var cmd := dir + "/" + SassConvertCommandDefault;
      cmd == dir + "/sass-convert" && cmd[..|cmd| - |"/sass-convert"|] == dir
  {
  }

  lemma RestoreLast(p: string)
    requires p != []
    ensures p[..|p| - 1] + [p[|p| - 1]] == p
  {
  }

  /** One trailing slash makes no difference; a second one is kept. */
  lemma TrailingSlashIgnored(p: string)
    requires p != "" && !EndsWith(p, "/")
    ensures CommandFor(Some(p + "/")) == CommandFor(Some(p))
    ensures CommandFor(Some(p + "//")) == p + "//sass-convert"
  {
    var q := p + "/";
    DropLast(p, '/');
    DropLast(q, '/');
    assert q + "/" == p + "//";
    assert q + "/" + SassConvertCommandDefault == p + "//sass-convert";
  }

  lemma DropLast(p: string, c: char)
    ensures var q := p + [c]; EndsWith(q, [c]) && q[..|q| - 1] == p
  {
  }

  /** The warning shown when probing the command fails: the setting is blamed exactly when
      the command is not the default one. */
  function WarningFor(command: string): (msg: string)
    ensures msg == InvalidSassPathMessage <==> command != SassConvertCommandDefault
    ensures msg == MissingCommandMessage <==> command == SassConvertCommandDefault
  {
    if command != SassConvertCommandDefault then InvalidSassPathMessage else MissingCommandMessage
  }

  /** The warning after a failed probe blames the setting exactly when one was configured. */
  lemma WarningBlamesConfiguredPath(sassPath: Option<string>)
    ensures WarningFor(CommandFor(sassPath)) == InvalidSassPathMessage
            <==> sassPath.Some? && sassPath.value != ""
  {
  }

  /**
   * The cleaned-up text of a thrown error: trimmed, its first line (the banner) dropped, the
   * first `Use --trace for backtrace.` and then the first `Use --trace for backtrace` removed,
   * trimmed again, and terminated by one newline.
   */
  function FormatError(error: string): (r: string)
    ensures EndsWith(r, "\n")
    ensures var body := r[..|r| - 1];
      body == [] || (!IsWhitespace(body[0]) && !IsWhitespace(body[|body| - 1]))
  {
    CleanError(error, TraceHint, TraceHintWithoutDot)
  }

  /** The clean-up of `FormatError` with the two hints as parameters: `hint` is removed first,
      then `stem`. */
  function CleanError(error: string, hint: string, stem: string): (r: string)
    ensures EndsWith(r, "\n")
    ensures var body := r[..|r| - 1];
      body == [] || (!IsWhitespace(body[0]) && !IsWhitespace(body[|body| - 1]))
  {
    var formattedError := Trim(error);
    var withoutBanner := JoinLines(SplitLines(formattedError)[1..]);
    var withoutHint := ReplaceFirst(withoutBanner, hint, "");
    var withoutHints := ReplaceFirst(withoutHint, stem, "");
    Trim(withoutHints) + "\n"
  }

  /** The hint is its stem and a dot; neither holds a line break. */
  predicate HintShape(hint: string, stem: string) {
    hint == stem + "." && stem != [] && '\n' !in stem
  }

  lemma TraceHintShape()
    ensures HintShape(TraceHint, TraceHintWithoutDot)
  {
  }

  /** The steps of the clean-up, each named by its result. */
  lemma CleanErrorSteps(error: string, hint: string, stem: string,
                        trimmed: string, lines: string, w1: string, w2: string)
    requires trimmed == Trim(error)
    requires lines == JoinLines(SplitLines(trimmed)[1..])
    requires w1 == ReplaceFirst(lines, hint, "")
    requires w2 == ReplaceFirst(w1, stem, "")
    ensures CleanError(error, hint, stem) == Trim(w2) + "\n"
  {
  }

  /** An error of one line is all banner: nothing but the newline is left. */
  lemma SingleLineErrorIsBanner(error: string)
    requires '\n' !in Trim(error)
    ensures FormatError(error) == "\n"
  {
    TraceHintShape();
    CleanSingleLine(error, TraceHint, TraceHintWithoutDot);
  }

  lemma CleanSingleLine(error: string, hint: string, stem: string)
    requires '\n' !in Trim(error) && hint != [] && stem != []
    ensures CleanError(error, hint, stem) == "\n"
  {
    SingleLine(Trim(error));
    assert SplitLines(Trim(error))[1..] == [];
    assert !Contains("", hint) && !Contains("", stem);
    CleanErrorSteps(error, hint, stem, Trim(error), "", "", "");
  }

  /** Everything up to the first newline is dropped: an error made of a banner line and
      details without a backtrace hint shows exactly the trimmed details. */
  lemma BannerDropped(banner: string, details: string)
    requires '\n' !in banner && banner != [] && !IsWhitespace(banner[0])
    requires !Contains(details, TraceHintWithoutDot)
    ensures FormatError(banner + "\n" + details) == Trim(details) + "\n"
  {
    TraceHintShape();
    CleanBannerDropped(banner, details, TraceHint, TraceHintWithoutDot);
  }

  lemma CleanBannerDropped(banner: string, details: string, hint: string, stem: string)
    requires '\n' !in banner && banner != [] && !IsWhitespace(banner[0])
    requires HintShape(hint, stem) && !Contains(details, stem)
    ensures CleanError(banner + "\n" + details, hint, stem) == Trim(details) + "\n"
  {
    var error := banner + "\n" + details;
    var x := Trim(details);
    var d: nat :| TrimmedAt(details, x, d);
    if x == [] {
      BlankDetails(banner, details);
      CleanSingleLine(error, hint, stem);
    } else {
      var lead, rest := details[..d], details[d + |x|..];
      TrimmedParts(details, x, d, lead, rest);
      TrimUnderBanner(banner, details, lead, x, rest);
      FirstLineDropped(banner, lead + x);
      assert !Contains(lead + x, stem) by {
        ContainsSlice(details, 0, d + |x|, stem);
        assert details[0..d + |x|] == lead + x;
      }
      NoHintWithDot(lead + x, hint, stem);
      TrimLead(lead, x);
      CleanErrorSteps(error, hint, stem, banner + "\n" + (lead + x), lead + x, lead + x, lead + x);
    }
  }

  /** Trimming an error whose details are trimmed at `lead` and `rest` keeps their middle. */
  lemma TrimUnderBanner(banner: string, details: string, lead: string, x: string, rest: string)
    requires banner != [] && !IsWhitespace(banner[0])
    requires x != [] && !IsWhitespace(x[|x| - 1])
    requires details == lead + x + rest
    requires forall i | 0 <= i < |rest| :: IsWhitespace(rest[i])
    ensures Trim(banner + "\n" + details) == banner + "\n" + (lead + x)
  {
    var core := banner + "\n" + (lead + x);
    assert core[0] == banner[0] && core[|core| - 1] == x[|x| - 1];
    TrimAround([], core, rest);
    Regroup(banner + "\n", lead + x, rest, []);
    assert [] + core + rest == core + rest;
  }

  /** Trimmed text cuts its source into whitespace, itself and whitespace. */
  lemma TrimmedParts(details: string, x: string, d: nat, lead: string, rest: string)
    requires TrimmedAt(details, x, d)
    requires lead == details[..d] && rest == details[d + |x|..]
    ensures details == lead + x + rest
    ensures forall i | 0 <= i < |lead| :: IsWhitespace(lead[i])
    ensures forall i | 0 <= i < |rest| :: IsWhitespace(rest[i])
  {
    forall i | 0 <= i < |rest| ensures IsWhitespace(rest[i]) {
      assert rest[i] == details[d + |x| + i];
    }
  }

  /** Leading whitespace before trimmed text is what `trim()` removes. */
  lemma TrimLead(lead: string, x: string)
    requires forall i | 0 <= i < |lead| :: IsWhitespace(lead[i])
    requires x == [] || (!IsWhitespace(x[0]) && !IsWhitespace(x[|x| - 1]))
    ensures Trim(lead + x) == x
  {
    TrimAround(lead, x, []);
    assert lead + x + [] == lead + x;
  }

  /** After a banner, details made of whitespace only leave a single line to trim. */
  lemma BlankDetails(banner: string, details: string)
    requires '\n' !in banner && banner != [] && !IsWhitespace(banner[0])
    requires Trim(details) == []
    ensures '\n' !in Trim(banner + "\n" + details)
  {
    var s := banner + "\n" + details;
    var d: nat :| TrimmedAt(details, [], d);
    assert forall i | |banner| <= i < |s| :: IsWhitespace(s[i]) by {
      forall i | |banner| < i < |s| ensures IsWhitespace(s[i]) {
        assert s[i] == details[i - |banner| - 1];
      }
    }
    TrimBefore(s, |banner|);
    assert s[..|banner|] == banner;
    var t := Trim(s);
    var e: nat :| e <= |banner| && OccursAt(banner, t, e);
    forall k | 0 <= k < |t| ensures t[k] != '\n' {
      assert t[k] == banner[e + k];
    }
  }

  /** When only whitespace follows index `n`, the trimmed text lies before it. */
  lemma TrimBefore(s: string, n: nat)
    requires n <= |s| && forall i | n <= i < |s| :: IsWhitespace(s[i])
    ensures Contains(s[..n], Trim(s))
  {
    var t := Trim(s);
    var e: nat :| TrimmedAt(s, t, e);
    if t == [] {
      assert OccursAt(s[..n], t, 0);
    } else {
      assert t[|t| - 1] == s[e + |t| - 1];
      assert e + |t| <= n;
      assert s[e..e + |t|] == t;
      assert s[..n][e..e + |t|] == s[e..e + |t|];
      assert OccursAt(s[..n], t, e);
    }
  }

  /**
   * The hint `sass-convert` ends an error with is removed: an error made of a banner line,
   * details without a hint and the hint, followed by trailing whitespace, shows exactly the
   * trimmed details.
   */
  lemma TraceHintRemoved(banner: string, details: string, tail: string)
    requires '\n' !in banner && banner != [] && !IsWhitespace(banner[0])
    requires !Contains(details, TraceHintWithoutDot)
    requires forall i | 0 <= i < |tail| :: IsWhitespace(tail[i])
    ensures FormatError(banner + "\n" + details + "\n" + TraceHint + tail) == Trim(details) + "\n"
  {
    TraceHintShape();
    CleanHintRemoved(banner, details, tail, TraceHint, TraceHintWithoutDot);
  }

  lemma CleanHintRemoved(banner: string, details: string, tail: string, hint: string, stem: string)
    requires '\n' !in banner && banner != [] && !IsWhitespace(banner[0])
    requires HintShape(hint, stem) && !Contains(details, stem)
    requires forall i | 0 <= i < |tail| :: IsWhitespace(tail[i])
    ensures CleanError(banner + "\n" + details + "\n" + hint + tail, hint, stem) == Trim(details) + "\n"
  {
    var error := banner + "\n" + details + "\n" + hint + tail;
    var lines := details + "\n" + hint;
    TrimHintTail(banner, details, hint, tail);
    FirstLineDropped(banner, lines);
    FinalHintRemoved(details, hint, stem);
    NoStemAfter(details, stem);
    TrimNewline(details);
    CleanErrorSteps(error, hint, stem, banner + "\n" + lines, lines, details + "\n", details + "\n");
  }

  /** Trailing whitespace after a final hint is trimmed, and nothing else is. */
  lemma TrimHintTail(banner: string, details: string, hint: string, tail: string)
    requires banner != [] && !IsWhitespace(banner[0])
    requires hint != [] && hint[|hint| - 1] == '.'
    requires forall i | 0 <= i < |tail| :: IsWhitespace(tail[i])
    ensures Trim(banner + "\n" + details + "\n" + hint + tail) == banner + "\n" + (details + "\n" + hint)
  {
    var core := banner + "\n" + (details + "\n" + hint);
    assert core[0] == banner[0] && core[|core| - 1] == '.';
    TrimAround([], core, tail);
    Regroup(banner + "\n", details + "\n", hint, []);
    Regroup(banner + "\n", details, "\n", []);
    assert [] + core + tail == core + tail;
  }

  /** The first replace removes a final hint when the details before it hold none. */
  lemma FinalHintRemoved(details: string, hint: string, stem: string)
    requires HintShape(hint, stem) && !Contains(details, stem)
    ensures ReplaceFirst(details + "\n" + hint, hint, "") == details + "\n"
  {
    NoHintWithDot(details, hint, stem);
    NoEarlierOccurrence(details, '\n', hint);
    assert details + "\n" + hint == (details + "\n") + hint + [];
    ReplaceFirstOf(details + "\n", hint, [], "");
    assert (details + "\n") + "" + [] == details + "\n";
  }

  /** The second replace finds nothing once a newline follows details without the stem. */
  lemma NoStemAfter(details: string, stem: string)
    requires stem != [] && '\n' !in stem && !Contains(details, stem)
    ensures ReplaceFirst(details + "\n", stem, "") == details + "\n"
  {
    if Contains(details + ['\n'] + [], stem) {
      ContainsAround(details, '\n', [], stem);
    }
    assert details + ['\n'] + [] == details + "\n";
  }

  /** A pattern without `c`, absent from `x`, starts nowhere in `x` or at `c` after it. */
  lemma NoEarlierOccurrence(x: string, c: char, p: string)
    requires c !in p && !Contains(x, p)
    ensures forall i | 0 <= i < |x + [c]| :: !OccursAt(x + [c] + p + [], p, i)
  {
    var s := x + [c] + p;
    assert s + [] == s;
    forall i | 0 <= i < |x + [c]| ensures !OccursAt(s, p, i) {
      if OccursAt(s, p, i) {
        if i + |p| <= |x| {
          assert s[i..i + |p|] == x[i..i + |p|];
          assert OccursAt(x, p, i);
        } else {
          CoversSeparator(x, c, p, p, i);
        }
      }
    }
  }

  /** A trailing newline is trimmed like any other trailing whitespace. */
  lemma TrimNewline(details: string)
    ensures Trim(details + "\n") == Trim(details)
  {
    var x := Trim(details);
    var d: nat :| TrimmedAt(details, x, d);
    var lead, rest := details[..d], details[d + |x|..];
    TrimmedParts(details, x, d, lead, rest);
    TrimBeforeNewline(lead, x, rest);
  }

  lemma TrimBeforeNewline(lead: string, x: string, rest: string)
    requires forall i | 0 <= i < |lead| :: IsWhitespace(lead[i])
    requires forall i | 0 <= i < |rest| :: IsWhitespace(rest[i])
    requires x == [] || (!IsWhitespace(x[0]) && !IsWhitespace(x[|x| - 1]))
    ensures Trim(lead + x + rest + "\n") == x
  {
    var tail := rest + "\n";
    forall i | 0 <= i < |tail| ensures IsWhitespace(tail[i]) {
      if i < |rest| {
        assert tail[i] == rest[i];
      }
    }
    TrimAround(lead, x, tail);
    assert lead + x + rest + "\n" == lead + x + tail;
  }

  /**
   * Each hint is removed by a string-pattern replace, so only the first of each form goes:
   * of three hints, the first goes whole, the second loses all but its dot, the third stays.
   */
  lemma TraceHintOnce(banner: string)
    requires '\n' !in banner && banner != [] && !IsWhitespace(banner[0])
    ensures FormatError(banner + "\n" + TraceHint + "\n" + TraceHint + "\n" + TraceHint)
         == ".\n" + TraceHint + "\n"
  {
    TraceHintShape();
    CleanHintOnce(banner, TraceHint, TraceHintWithoutDot);
  }

  lemma CleanHintOnce(banner: string, hint: string, stem: string)
    requires '\n' !in banner && banner != [] && !IsWhitespace(banner[0])
    requires HintShape(hint, stem)
    ensures CleanError(banner + "\n" + hint + "\n" + hint + "\n" + hint, hint, stem)
         == ".\n" + hint + "\n"
  {
    var hints := hint + "\n" + hint + "\n" + hint;
    var error := banner + "\n" + hints;
    var y := "\n" + hint + "\n" + hint;
    var z := ".\n" + hint;
    assert Trim(error) == error by {
      ThreeHints(banner, hint, stem);
    }
    assert JoinLines(SplitLines(error)[1..]) == hints by {
      FirstLineDropped(banner, hints);
    }
    assert ReplaceFirst(hints, hint, "") == y && ReplaceFirst(y, stem, "") == "\n" + z by {
      HintsReplaced(banner, hint, stem);
    }
    assert Trim("\n" + z) == z by {
      TrimLead("\n", z);
    }
    assert banner + "\n" + hint + "\n" + hint + "\n" + hint == error by {
      ThreeHints(banner, hint, stem);
    }
    CleanErrorSteps(error, hint, stem, error, hints, y, "\n" + z);
  }

  /** The two replaces on three hints: the first hint goes, then the stem of the second. */
  lemma HintsReplaced(banner: string, hint: string, stem: string)
    requires '\n' !in banner && banner != [] && !IsWhitespace(banner[0])
    requires HintShape(hint, stem)
    ensures ReplaceFirst(hint + "\n" + hint + "\n" + hint, hint, "") == "\n" + hint + "\n" + hint
    ensures ReplaceFirst("\n" + hint + "\n" + hint, stem, "") == "\n" + (".\n" + hint)
  {
    var y := "\n" + hint + "\n" + hint;
    var z := ".\n" + hint;
    ThreeHints(banner, hint, stem);
    assert ReplaceFirst(hint + "\n" + hint + "\n" + hint, hint, "") == y by {
      ReplaceFirstLeading(hint, y, "");
    }
    StemAfterNewline(stem, z);
  }

  /** The stem right after a line break is the first one. */
  lemma StemAfterNewline(stem: string, z: string)
    requires stem != [] && '\n' !in stem
    ensures ReplaceFirst("\n" + stem + z, stem, "") == "\n" + z
  {
    assert stem[0] != '\n';
    assert !OccursAt("\n" + stem + z, stem, 0);
    ReplaceFirstOf("\n", stem, z, "");
    assert "\n" + "" + z == "\n" + z;
  }

  /** Three hints after a banner: nothing to trim, and the groupings the replaces see. */
  lemma ThreeHints(banner: string, hint: string, stem: string)
    requires banner != [] && !IsWhitespace(banner[0]) && HintShape(hint, stem)
    ensures banner + "\n" + hint + "\n" + hint + "\n" + hint
         == banner + "\n" + (hint + "\n" + hint + "\n" + hint)
    ensures Trim(banner + "\n" + (hint + "\n" + hint + "\n" + hint))
         == banner + "\n" + (hint + "\n" + hint + "\n" + hint)
    ensures hint + "\n" + hint + "\n" + hint == hint + ("\n" + hint + "\n" + hint)
    ensures "\n" + hint + "\n" + hint == "\n" + stem + (".\n" + hint)
  {
    ThreeParts(banner, "\n", hint);
    EndsWithDot(banner + "\n" + hint + "\n" + hint + "\n", hint, stem);
    var error := banner + "\n" + hint + "\n" + hint + "\n" + hint;
    assert error[0] == banner[0];
    TrimTrimmed(error);
    assert ".\n" == "." + "\n";
    DotSplit("\n", stem, ".", hint);
  }

  /** Text ending in a hint ends in its dot. */
  lemma EndsWithDot(x: string, hint: string, stem: string)
    requires HintShape(hint, stem)
    ensures (x + hint)[|x + hint| - 1] == '.'
  {
    assert (x + hint)[|x + hint| - 1] == hint[|hint| - 1] == (stem + ".")[|stem|];
  }

  /** The groupings of a banner and three parts separated by `n`. */
  lemma ThreeParts<T>(b: seq<T>, n: seq<T>, h: seq<T>)
    ensures b + n + h + n + h + n + h == b + n + (h + n + h + n + h)
    ensures h + n + h + n + h == h + (n + h + n + h)
  {
  }

  /** Moving the dot of the first part into the group that follows it. */
  lemma DotSplit<T>(n: seq<T>, s: seq<T>, dot: seq<T>, h: seq<T>)
    ensures n + (s + dot) + n + h == n + s + (dot + n + h)
  {
  }

  /** The hint with its dot contains the hint without it. */
  lemma NoHintWithDot(details: string, hint: string, stem: string)
    requires hint == stem + "." && !Contains(details, stem)
    ensures !Contains(details, hint)
  {
    if Contains(details, hint) {
      ContainsPrefixPattern(details, stem, ".");
    }
  }

  lemma FirstLineDropped(banner: string, details: string)
    requires '\n' !in banner
    ensures JoinLines(SplitLines(banner + "\n" + details)[1..]) == details
  {
    var error := banner + "\n" + details;
    DropFirstLine(error);
    assert Span(banner, NonNewline) == |banner|;
    SpanAppend(banner, "\n" + details, NonNewline);
    assert error == banner + ("\n" + details);
    assert error[|banner| + 1..] == details;
  }

  /**
   * The service object. Its one field is the command that every later conversion runs; it is
   * recomputed from the settings at start-up and whenever the configuration changes.
   */
  class SassConvert {
    var sassConvertCommand: string

    /** Resolves the command from the settings read at start-up. */
    constructor (sassPath: Option<string>)
      ensures sassConvertCommand == CommandFor(sassPath)
    {
      new;
      SetSassConvertCommand(sassPath);
    }

    /** `setSassConvertCommand`: re-reads `sassPath` and rewrites the command field. */
    method SetSassConvertCommand(sassPath: Option<string>)
      modifies this
      ensures sassConvertCommand == CommandFor(sassPath)
    {
      if sassPath.Some? && sassPath.value != "" {
        var configurationSassPath := sassPath.value;
        if EndsWith(configurationSassPath, "/") {
          configurationSassPath := configurationSassPath[..|configurationSassPath| - 1];
        }
        sassConvertCommand := configurationSassPath + "/" + SassConvertCommandDefault;
      } else {
        sassConvertCommand := SassConvertCommandDefault;
      }
    }

    /**
     * `_checkSassConvert`: runs `<command> --version` through `run`. On success the trimmed
     * version goes to the output panel as a line and no warning is shown; on failure the
     * warning is chosen by comparing the command with the default, and the cleaned-up error
     * goes to the output panel.
     */
    method CheckSassConvert(run: string -> Result<string, string>)
      returns (warning: Option<string>, output: string)
      ensures run(sassConvertCommand + " --version").Success? ==>
        warning == None && output == Trim(run(sassConvertCommand + " --version").value) + "\n"
      ensures run(sassConvertCommand + " --version").Failure? ==>
        && warning == Some(if sassConvertCommand != SassConvertCommandDefault
                           then InvalidSassPathMessage else MissingCommandMessage)
        && output == FormatError(run(sassConvertCommand + " --version").error)
    {
      var probe := run(sassConvertCommand + " --version");
      match probe
      case Success(version) =>
        var sassConvertVersion := Trim(version);
        warning, output := None, sassConvertVersion + "\n";
      case Failure(error) =>
        warning := Some(WarningFor(sassConvertCommand));
        output := FormatError(error);
    }
  }
}
