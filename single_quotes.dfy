/**
 * The rewrite applied when `useSingleQuotes` is on. Double quotes inside block comments and
 * inside line comments are first swapped for a placeholder, every remaining double quote
 * becomes a single quote, and the placeholder is turned back into a double quote.
 *
 * The passes are proved equal to a character-by-character conversion: the text keeps its
 * length, a double quote becomes a single quote unless a comment protects it, and every other
 * character stays where it is. The proofs hold for any placeholder of the shape described by
 * `PlaceholderShape`; the extension's own placeholder is one (`PlaceholderShaped`).
 */
module SingleQuotes {
  import opened Text

  /** The placeholder that stands in for a protected double quote between the passes. */
  const Placeholder := "VSCODE_SASS_FORMAT_DOUBLE" + "_QUOTE_PLACEHOLDER"

  /**
   * What the proofs need of a placeholder: it is not empty, holds no quote of either kind, no
   * slash and no line terminator, and its first character does not occur again, so that no
   * occurrence can start inside another one.
   */
  predicate PlaceholderShape(ph: string) {
    && ph != []
    && (forall i | 0 <= i < |ph| ::
          ph[i] != '"' && ph[i] != '\'' && ph[i] != '/' && !IsLineTerminator(ph[i]))
    && (forall i | 0 < i < |ph| :: ph[i] != ph[0])
  }

  lemma PlaceholderShaped()
    ensures PlaceholderShape(Placeholder)
  {
    forall i | 0 <= i < |Placeholder|
      ensures ('A' <= Placeholder[i] <= 'Z' || Placeholder[i] == '_')
      ensures 0 < i ==> Placeholder[i] != 'V'
    {
      if i < 25 {
        assert Placeholder[i] == "VSCODE_SASS_FORMAT_DOUBLE"[i];
      } else {
        assert Placeholder[i] == "_QUOTE_PLACEHOLDER"[i - 25];
      }
    }
  }

  /** The callback of both protecting passes, `match.replace(/"/g, ph)`. */
  function HideQuotes(s: string, ph: string): (r: string)
    ensures '"' !in s ==> r == s
    ensures '"' !in ph ==> '"' !in r
    decreases |s|
  {
    if s == [] then []
    else (if s[0] == '"' then ph else [s[0]]) + HideQuotes(s[1..], ph)
  }

  // Where `/\/\*(\*(?!\/)|[^*])*\*\//` matches at the start of `s`: a `/*` followed, at
  // some point, by a `*/` that does not reuse the star of the opener.
  predicate BlockCommentAt(s: string) {
    OccursAt(s, "/*", 0) && Contains(s[2..], "*/")
  }

  // The end of that match: just past the first `*/` after the opener. A body character is
  // anything but a star, or a star not followed by a slash, so the match stops there.
  function BlockCommentEnd(s: string): (e: nat)
    requires BlockCommentAt(s)
    ensures 4 <= e <= |s| && OccursAt(s, "*/", e - 2)
    ensures forall j: nat | 2 <= j < e - 2 :: !OccursAt(s, "*/", j)
  {
    var j := IndexOf(s[2..], "*/").value;
    assert s[2..][j..j + 2] == s[j + 2..j + 4];
    forall i: nat | 2 <= i < j + 2 ensures !OccursAt(s, "*/", i) {
      assert !OccursAt(s[2..], "*/", i - 2);
      if i + 2 <= |s| {
        assert s[2..][i - 2..i] == s[i..i + 2];
      }
    }
    j + 4
  }

  /** The block-comment pass: scanned from the left, each match has its double quotes hidden. */
  function ProtectBlockComments(s: string, ph: string): (r: string)
    decreases |s|
  {
    if s == [] then []
    else if BlockCommentAt(s) then
      HideQuotes(s[..BlockCommentEnd(s)], ph) + ProtectBlockComments(s[BlockCommentEnd(s)..], ph)
    else [s[0]] + ProtectBlockComments(s[1..], ph)
  }

  /** Where `/\/\/.+/` matches at the start of `s`: `//` and at least one character of the
      same line. */
  predicate LineCommentAt(s: string) {
    3 <= |s| && s[0] == '/' && s[1] == '/' && !IsLineTerminator(s[2])
  }

  /** The end of that match: `.+` is greedy, so it runs to the end of the line. */
  function LineCommentEnd(s: string): (e: nat)
    requires LineCommentAt(s)
    ensures 3 <= e <= |s|
    ensures e < |s| ==> IsLineTerminator(s[e])
    ensures forall i | 2 <= i < e :: !IsLineTerminator(s[i])
  {
    var n := Span(s[2..], NonTerminator);
    assert forall i | 2 <= i < 2 + n :: !IsLineTerminator(s[i]) by {
      forall i | 2 <= i < 2 + n {
        SpanPrefix(s[2..], NonTerminator, i - 2);
      }
    }
    2 + n
  }

  /** The line-comment pass, run on the output of the block-comment pass. */
  function ProtectLineComments(s: string, ph: string): (r: string)
    decreases |s|
  {
    if s == [] then []
    else if LineCommentAt(s) then
      HideQuotes(s[..LineCommentEnd(s)], ph) + ProtectLineComments(s[LineCommentEnd(s)..], ph)
    else [s[0]] + ProtectLineComments(s[1..], ph)
  }

  /** `result.replace(/"/g, "'")`. */
  function QuotesToSingle(s: string): (r: string)
    ensures |r| == |s|
    ensures '"' !in s ==> r == s
    ensures '"' !in r
    decreases |s|
  {
    if s == [] then []
    else [if s[0] == '"' then '\'' else s[0]] + QuotesToSingle(s[1..])
  }

  /** `result.replace(new RegExp(ph, "g"), '"')`. */
  function RevealQuotes(s: string, ph: string): string
    requires ph != []
  {
    ReplaceAll(s, ph, "\"")
  }

  /** The four passes in the extension's order, for a given placeholder. */
  function SingleQuotesWith(s: string, ph: string): string
    requires ph != []
  {
    RevealQuotes(QuotesToSingle(ProtectLineComments(ProtectBlockComments(s, ph), ph)), ph)
  }

  function UseSingleQuotes(s: string): string {
    SingleQuotesWith(s, Placeholder)
  }

  // ---------------------------------------------------------------------------------------
  // The reference definition: which characters the passes protect, and the conversion.

  function AllSet(n: nat): (m: seq<bool>)
    ensures |m| == n
  {
    seq(n, i => true)
  }

  function Either(a: seq<bool>, b: seq<bool>): (m: seq<bool>)
    requires |a| == |b|
    ensures |m| == |a|
  {
    seq(|a|, i requires 0 <= i < |a| => a[i] || b[i])
  }

  /** The positions that the block-comment pass covers, scanning the original text. */
  function BlockMask(s: string): (m: seq<bool>)
    ensures |m| == |s|
    decreases |s|
  {
    if s == [] then []
    else if BlockCommentAt(s) then AllSet(BlockCommentEnd(s)) + BlockMask(s[BlockCommentEnd(s)..])
    else [false] + BlockMask(s[1..])
  }

  /** The positions that the line-comment pass covers, scanning the original text. */
  function LineMask(s: string): (m: seq<bool>)
    ensures |m| == |s|
    decreases |s|
  {
    if s == [] then []
    else if LineCommentAt(s) then AllSet(LineCommentEnd(s)) + LineMask(s[LineCommentEnd(s)..])
    else [false] + LineMask(s[1..])
  }

  /** A position is protected when either scan covers it. */
  function Protected(s: string): (m: seq<bool>)
    ensures |m| == |s|
  {
    Either(BlockMask(s), LineMask(s))
  }

  /** Every unprotected double quote becomes a single quote; nothing else changes. */
  function Converted(s: string, m: seq<bool>): (r: string)
    requires |m| == |s|
  {
    seq(|s|, i requires 0 <= i < |s| => if s[i] == '"' && !m[i] then '\'' else s[i])
  }

  /**
   * The text between the passes: each character of `s` in turn, except that a double quote
   * becomes the placeholder where `m` protects it and `q` where it does not.
   */
  function Masked(s: string, m: seq<bool>, ph: string, q: char): string
    requires |m| == |s|
    decreases |s|
  {
    if s == [] then [] else Piece(s[0], m[0], ph, q) + Masked(s[1..], m[1..], ph, q)
  }

  function Piece(c: char, protected: bool, ph: string, q: char): string {
    if c != '"' then [c] else if protected then ph else [q]
  }

  // ---------------------------------------------------------------------------------------
  // Properties of the masked text.

  lemma MaskedCons(s: string, m: seq<bool>, ph: string, q: char)
    requires |m| == |s| && s != []
    ensures Masked(s, m, ph, q) == Piece(s[0], m[0], ph, q) + Masked(s[1..], m[1..], ph, q)
  {
  }

  lemma {:induction false} MaskedAppend(s: string, t: string, m: seq<bool>, n: seq<bool>, ph: string, q: char)
    requires |m| == |s| && |n| == |t|
    ensures Masked(s + t, m + n, ph, q) == Masked(s, m, ph, q) + Masked(t, n, ph, q)
    decreases |s|
  {
    if s == [] {
      assert s + t == t && m + n == n;
    } else {
      DropHead(s, t);
      DropHead(m, n);
      MaskedAppend(s[1..], t, m[1..], n, ph, q);
      Regroup(Piece(s[0], m[0], ph, q), Masked(s[1..], m[1..], ph, q), Masked(t, n, ph, q), []);
    }
  }

  /** Hiding every double quote of a span is protecting all of it. */
  lemma {:induction false} HideAll(s: string, ph: string, q: char)
    ensures HideQuotes(s, ph) == Masked(s, AllSet(|s|), ph, q)
    decreases |s|
  {
    if s != [] {
      assert AllSet(|s|)[1..] == AllSet(|s| - 1);
      HideAll(s[1..], ph, q);
    }
  }

  lemma {:induction false} HideQuotesAppend(a: string, b: string, ph: string)
    ensures HideQuotes(a + b, ph) == HideQuotes(a, ph) + HideQuotes(b, ph)
    decreases |a|
  {
    if a == [] {
      assert a + b == b;
    } else {
      DropHead(a, b);
      HideQuotesAppend(a[1..], b, ph);
      Regroup(if a[0] == '"' then ph else [a[0]], HideQuotes(a[1..], ph), HideQuotes(b, ph), []);
    }
  }

  /** Hiding the quotes of a span that is already masked protects the whole span. */
  lemma {:induction false} HideMasked(s: string, m: seq<bool>, ph: string)
    requires |m| == |s| && '"' !in ph
    ensures HideQuotes(Masked(s, m, ph, '"'), ph) == Masked(s, AllSet(|s|), ph, '"')
    decreases |s|
  {
    if s != [] {
      var p := Piece(s[0], m[0], ph, '"');
      HideQuotesAppend(p, Masked(s[1..], m[1..], ph, '"'), ph);
      assert HideQuotes(p, ph) == Piece(s[0], true, ph, '"');
      HideMasked(s[1..], m[1..], ph);
      assert AllSet(|s|)[1..] == AllSet(|s| - 1);
    }
  }

  lemma {:induction false} QuotesToSingleAppend(a: string, b: string)
    ensures QuotesToSingle(a + b) == QuotesToSingle(a) + QuotesToSingle(b)
    decreases |a|
  {
    if a == [] {
      assert a + b == b;
    } else {
      DropHead(a, b);
      QuotesToSingleAppend(a[1..], b);
    }
  }

  /** The single-quote pass turns exactly the unprotected quotes into single quotes. */
  lemma {:induction false} MaskedToSingle(s: string, m: seq<bool>, ph: string)
    requires |m| == |s| && '"' !in ph
    ensures QuotesToSingle(Masked(s, m, ph, '"')) == Masked(s, m, ph, '\'')
    decreases |s|
  {
    if s != [] {
      QuotesToSingleAppend(Piece(s[0], m[0], ph, '"'), Masked(s[1..], m[1..], ph, '"'));
      MaskedToSingle(s[1..], m[1..], ph);
    }
  }

  // ---------------------------------------------------------------------------------------
  // The block-comment pass.

  /** The block-comment pass protects exactly the positions of `BlockMask`. */
  lemma {:induction false} BlockProtected(s: string, ph: string)
    ensures ProtectBlockComments(s, ph) == Masked(s, BlockMask(s), ph, '"')
    decreases |s|
  {
    if s == [] {
    } else if BlockCommentAt(s) {
      var e := BlockCommentEnd(s);
      Cut(s, e, e);
      HideAll(s[..e], ph, '"');
      BlockProtected(s[e..], ph);
      MaskedAppend(s[..e], s[e..], AllSet(e), BlockMask(s[e..]), ph, '"');
    } else {
      BlockProtected(s[1..], ph);
      assert ([false] + BlockMask(s[1..]))[1..] == BlockMask(s[1..]);
    }
  }

  // ---------------------------------------------------------------------------------------
  // The line-comment pass, run on text whose quotes may already be hidden.

  lemma {:induction false} SpanOver(p: string, z: string)
    requires forall i | 0 <= i < |p| :: !IsLineTerminator(p[i])
    ensures Span(p + z, NonTerminator) == |p| + Span(z, NonTerminator)
    decreases |p|
  {
    if p == [] {
      assert p + z == z;
    } else {
      DropHead(p, z);
      assert (p + z)[0] == p[0] && In(p[0], NonTerminator);
      SpanOver(p[1..], z);
    }
  }

  /** A masked span of a line holds no line terminator, placeholders included. */
  lemma {:induction false} MaskedSpan(s: string, m: seq<bool>, ph: string, z: string)
    requires |m| == |s| && PlaceholderShape(ph)
    requires forall i | 0 <= i < |s| :: !IsLineTerminator(s[i])
    ensures Span(Masked(s, m, ph, '"') + z, NonTerminator)
         == |Masked(s, m, ph, '"')| + Span(z, NonTerminator)
    decreases |s|
  {
    if s == [] {
      assert Masked(s, m, ph, '"') + z == z;
    } else {
      var p := Piece(s[0], m[0], ph, '"');
      var rest := Masked(s[1..], m[1..], ph, '"');
      assert !IsLineTerminator(s[0]);
      SpanOver(p, rest + z);
      MaskedSpan(s[1..], m[1..], ph, z);
      Regroup(p, rest, z, []);
    }
  }

  /** A line comment of the original text is a line comment of the masked text, and it ends
      where the masked form of its line ends. */
  lemma LineCommentKept(s: string, m: seq<bool>, ph: string, e: nat, h1: string, h2: string)
    requires |m| == |s| && PlaceholderShape(ph) && LineCommentAt(s) && e == LineCommentEnd(s)
    requires h1 == Masked(s[..e], m[..e], ph, '"') && h2 == Masked(s[e..], m[e..], ph, '"')
    ensures LineCommentAt(h1 + h2) && LineCommentEnd(h1 + h2) == |h1|
  {
    var x := s[2..e];
    var mx := m[2..e];
    var hx := Masked(x, mx, ph, '"');
    assert s[..e][1..] == [s[1]] + x;
    assert m[..e][1..] == [m[1]] + mx;
    MaskedCons(s[..e], m[..e], ph, '"');
    MaskedCons([s[1]] + x, [m[1]] + mx, ph, '"');
    assert ([s[1]] + x)[1..] == x && ([m[1]] + mx)[1..] == mx;
    assert h1 == ['/'] + (['/'] + hx);
    assert hx != [] && !IsLineTerminator(hx[0]) by {
      MaskedCons(x, mx, ph, '"');
      assert x[0] == s[2];
    }
    assert h2 == [] || IsLineTerminator(h2[0]) by {
      if e < |s| {
        MaskedCons(s[e..], m[e..], ph, '"');
      }
    }
    assert (h1 + h2)[2..] == hx + h2;
    MaskedSpan(x, mx, ph, h2);
  }

  /** A position that starts no line comment in the original text starts none in the masked
      text either. */
  lemma NoLineCommentKept(s: string, m: seq<bool>, ph: string)
    requires |m| == |s| && PlaceholderShape(ph) && s != [] && !LineCommentAt(s)
    ensures !LineCommentAt(Masked(s, m, ph, '"'))
  {
    MaskedCons(s, m, ph, '"');
    if |s| >= 2 && s[0] == '/' {
      var rest := Masked(s[1..], m[1..], ph, '"');
      MaskedCons(s[1..], m[1..], ph, '"');
      if |s| >= 3 && s[1] == '/' {
        MaskedCons(s[2..], m[2..], ph, '"');
        assert rest[1] == s[2];
      }
    }
  }

  /** Text without a slash is copied through the line-comment pass unchanged. */
  lemma {:induction false} NoSlashSkipped(x: string, rest: string, ph: string)
    requires '/' !in x
    ensures ProtectLineComments(x + rest, ph) == x + ProtectLineComments(rest, ph)
    decreases |x|
  {
    if x == [] {
      assert x + rest == rest;
    } else {
      DropHead(x, rest);
      NoSlashSkipped(x[1..], rest, ph);
    }
  }

  /** Where a line comment of the masked text ends at `|h1|`, the pass hides the quotes of
      `h1` and carries on with `h2`. */
  lemma LineCommentPass(h1: string, h2: string, ph: string)
    requires LineCommentAt(h1 + h2) && LineCommentEnd(h1 + h2) == |h1|
    ensures ProtectLineComments(h1 + h2, ph) == HideQuotes(h1, ph) + ProtectLineComments(h2, ph)
  {
    assert (h1 + h2)[..|h1|] == h1 && (h1 + h2)[|h1|..] == h2;
  }

  /** Where no line comment starts, the pass copies the character and moves on by one. */
  lemma NoLineCommentPass(c: char, rest: string, ph: string)
    requires !LineCommentAt([c] + rest)
    ensures ProtectLineComments([c] + rest, ph) == [c] + ProtectLineComments(rest, ph)
  {
    assert ([c] + rest)[1..] == rest;
  }

  lemma LineMaskComment(s: string, m: seq<bool>, e: nat)
    requires |m| == |s| && LineCommentAt(s) && e == LineCommentEnd(s)
    ensures Either(m, LineMask(s)) == AllSet(e) + Either(m[e..], LineMask(s[e..]))
  {
  }

  lemma LineMaskSkip(s: string, m: seq<bool>)
    requires |m| == |s| && s != [] && !LineCommentAt(s)
    ensures Either(m, LineMask(s)) == [m[0]] + Either(m[1..], LineMask(s[1..]))
  {
  }

  /** One step of the line-comment pass over a line comment of the original text. */
  lemma LineCommentStep(s: string, m: seq<bool>, ph: string, e: nat)
    requires |m| == |s| && PlaceholderShape(ph) && LineCommentAt(s) && e == LineCommentEnd(s)
    requires ProtectLineComments(Masked(s[e..], m[e..], ph, '"'), ph)
          == Masked(s[e..], Either(m[e..], LineMask(s[e..])), ph, '"')
    ensures ProtectLineComments(Masked(s, m, ph, '"'), ph)
         == Masked(s, Either(m, LineMask(s)), ph, '"')
  {
    var h1 := Masked(s[..e], m[..e], ph, '"');
    var h2 := Masked(s[e..], m[e..], ph, '"');
    var tail := Either(m[e..], LineMask(s[e..]));
    Cut(s, e, e);
    Cut(m, e, e);
    MaskedAppend(s[..e], s[e..], m[..e], m[e..], ph, '"');
    LineCommentKept(s, m, ph, e, h1, h2);
    LineCommentPass(h1, h2, ph);
    HideMasked(s[..e], m[..e], ph);
    MaskedAppend(s[..e], s[e..], AllSet(e), tail, ph, '"');
    LineMaskComment(s, m, e);
  }

  /** One step of the line-comment pass over a character that starts no line comment. */
  lemma LineSkipStep(s: string, m: seq<bool>, ph: string)
    requires |m| == |s| && PlaceholderShape(ph) && s != [] && !LineCommentAt(s)
    requires ProtectLineComments(Masked(s[1..], m[1..], ph, '"'), ph)
          == Masked(s[1..], Either(m[1..], LineMask(s[1..])), ph, '"')
    ensures ProtectLineComments(Masked(s, m, ph, '"'), ph)
         == Masked(s, Either(m, LineMask(s)), ph, '"')
  {
    var rest := Masked(s[1..], m[1..], ph, '"');
    MaskedCons(s, m, ph, '"');
    if s[0] == '"' && m[0] {
      NoSlashSkipped(ph, rest, ph);
    } else {
      NoLineCommentKept(s, m, ph);
      NoLineCommentPass(s[0], rest, ph);
    }
    var both := Either(m, LineMask(s));
    LineMaskSkip(s, m);
    assert both[0] == m[0] && both[1..] == Either(m[1..], LineMask(s[1..]));
    MaskedCons(s, both, ph, '"');
  }

  /** The line-comment pass, on text already masked by `m`, adds exactly the positions of
      `LineMask` (computed on the original text) to the protected ones. */
  lemma {:induction false} LineProtected(s: string, m: seq<bool>, ph: string)
    requires |m| == |s| && PlaceholderShape(ph)
    ensures ProtectLineComments(Masked(s, m, ph, '"'), ph)
         == Masked(s, Either(m, LineMask(s)), ph, '"')
    decreases |s|
  {
    if s == [] {
    } else if LineCommentAt(s) {
      var e := LineCommentEnd(s);
      LineProtected(s[e..], m[e..], ph);
      LineCommentStep(s, m, ph, e);
    } else {
      LineProtected(s[1..], m[1..], ph);
      LineSkipStep(s, m, ph);
    }
  }

  // ---------------------------------------------------------------------------------------
  // The reveal pass.

  /** A prefix of masked text that holds neither a single quote nor the placeholder's first
      character is copied straight from the original text. */
  lemma {:induction false} MaskedPrefix(t: string, m: seq<bool>, ph: string, q: string)
    requires |m| == |t| && PlaceholderShape(ph)
    requires q <= Masked(t, m, ph, '\'')
    requires forall i | 0 <= i < |q| :: q[i] != ph[0] && q[i] != '\''
    ensures |q| <= |t| && t[..|q|] == q
    decreases |t|
  {
    if q != [] {
      assert t != [];
      MaskedCons(t, m, ph, '\'');
      assert q[0] == Piece(t[0], m[0], ph, '\'')[0];
      assert t[0] != '"';
      assert q[0] == t[0];
      MaskedPrefix(t[1..], m[1..], ph, q[1..]);
      assert t[..|q|] == [t[0]] + t[1..][..|q| - 1];
    }
  }

  /** An unprotected first character cannot start a placeholder in the masked text unless the
      original text itself starts with the placeholder. */
  lemma FrontNotPlaceholder(s: string, m: seq<bool>, ph: string)
    requires |m| == |s| && PlaceholderShape(ph) && s != [] && !(s[0] == '"' && m[0])
    ensures OccursAt(Masked(s, m, ph, '\''), ph, 0) ==> OccursAt(s, ph, 0)
  {
    var t := Masked(s, m, ph, '\'');
    var rest := Masked(s[1..], m[1..], ph, '\'');
    MaskedCons(s, m, ph, '\'');
    if s[0] == '"' {
      assert t[0] == '\'';
    } else if OccursAt(t, ph, 0) {
      var q := ph[1..];
      assert t == [s[0]] + rest;
      assert ph[0] == s[0];
      assert q <= rest;
      MaskedPrefix(s[1..], m[1..], ph, q);
      assert s[..|ph|] == [s[0]] + s[1..][..|q|];
    }
  }

  lemma RevealLeading(ph: string, x: string)
    requires ph != []
    ensures ReplaceAll(ph + x, ph, "\"") == "\"" + ReplaceAll(x, ph, "\"")
  {
    assert ph <= ph + x;
    assert (ph + x)[|ph|..] == x;
  }

  lemma ConvertedCons(s: string, m: seq<bool>)
    requires |m| == |s| && s != []
    ensures Converted(s, m)
         == [if s[0] == '"' && !m[0] then '\'' else s[0]] + Converted(s[1..], m[1..])
  {
  }

  /** Turning the placeholders back into double quotes yields the converted text, provided the
      original text never held the placeholder. */
  lemma {:induction false} RevealMasked(s: string, m: seq<bool>, ph: string)
    requires |m| == |s| && PlaceholderShape(ph) && !Contains(s, ph)
    ensures ReplaceAll(Masked(s, m, ph, '\''), ph, "\"") == Converted(s, m)
    decreases |s|
  {
    if s == [] {
      assert Converted(s, m) == [];
    } else {
      var rest := Masked(s[1..], m[1..], ph, '\'');
      ContainsTail(s, ph);
      RevealMasked(s[1..], m[1..], ph);
      ConvertedCons(s, m);
      MaskedCons(s, m, ph, '\'');
      if s[0] == '"' && m[0] {
        RevealLeading(ph, rest);
      } else {
        var c := if s[0] == '"' then '\'' else s[0];
        FrontNotPlaceholder(s, m, ph);
        assert !OccursAt(s, ph, 0);
        assert !(ph <= [c] + rest);
        assert ([c] + rest)[1..] == rest;
      }
    }
  }

  // ---------------------------------------------------------------------------------------
  // The conversion theorem.

  /** For any placeholder of the right shape that the text does not hold, the four passes are
      the conversion of the text under its protected positions. */
  lemma SingleQuotesConverts(s: string, ph: string)
    requires PlaceholderShape(ph) && !Contains(s, ph)
    ensures SingleQuotesWith(s, ph) == Converted(s, Protected(s))
  {
    BlockProtected(s, ph);
    LineProtected(s, BlockMask(s), ph);
    MaskedToSingle(s, Protected(s), ph);
    RevealMasked(s, Protected(s), ph);
  }

  /**
   * The single-quote rewrite, for a text that does not hold the placeholder, keeps the text's
   * length; a double quote turns into a single quote exactly when no comment protects it; and
   * every other character is unchanged.
   */
  lemma UseSingleQuotesConverts(s: string)
    requires !Contains(s, Placeholder)
    ensures |UseSingleQuotes(s)| == |s|
    ensures forall i | 0 <= i < |s| ::
      UseSingleQuotes(s)[i] == if s[i] == '"' && !Protected(s)[i] then '\'' else s[i]
  {
    PlaceholderShaped();
    SingleQuotesConverts(s, Placeholder);
  }

  // ---------------------------------------------------------------------------------------
  // What the protected positions are.

  // A block comment at the start of the text, from `/*` to the first `*/`, is protected in
  // full, even when it spans several lines.
  lemma BlockCommentProtected(body: string, rest: string)
    requires !Contains(body, "*/")
    ensures forall i | 0 <= i < |body| + 4 :: Protected("/*" + body + "*/" + rest)[i]
  {
    var s := "/*" + body + "*/" + rest;
    assert s[2..] == body + "*/" + rest;
    var t := s[2..];
    assert OccursAt(t, "*/", |body|);
    assert BlockCommentAt(s);
    forall k: nat | k < |body| ensures !OccursAt(t, "*/", k) {
      if k + 2 <= |body| {
        assert !OccursAt(body, "*/", k);
        assert t[k..k + 2] == body[k..k + 2];
      } else {
        assert t[k + 1] == '*';
      }
    }
    assert IndexOf(t, "*/").value == |body|;
    assert BlockMask(s) == AllSet(|body| + 4) + BlockMask(s[|body| + 4..]);
  }

  /** A `//` with text after it protects the rest of its line. */
  lemma LineCommentProtected(text: string, rest: string)
    requires text != [] && forall i | 0 <= i < |text| :: !IsLineTerminator(text[i])
    requires rest == [] || IsLineTerminator(rest[0])
    ensures forall i | 0 <= i < |text| + 2 :: Protected("//" + text + rest)[i]
  {
    var s := "//" + text + rest;
    assert s[2..] == text + rest;
    SpanOver(text, rest);
    assert LineCommentEnd(s) == |text| + 2;
    assert LineMask(s) == AllSet(|text| + 2) + LineMask(s[|text| + 2..]);
  }

  /** Without a slash there is no comment: every double quote becomes a single quote. */
  lemma {:induction false} NoSlashNoProtection(s: string)
    requires '/' !in s
    ensures forall i | 0 <= i < |s| :: !Protected(s)[i]
    decreases |s|
  {
    if s != [] {
      NoSlashNoProtection(s[1..]);
      assert !BlockCommentAt(s) && !LineCommentAt(s);
      assert BlockMask(s) == [false] + BlockMask(s[1..]);
      assert LineMask(s) == [false] + LineMask(s[1..]);
      assert forall i | 1 <= i < |s| :: Protected(s)[i] == Protected(s[1..])[i - 1];
    }
  }
}
