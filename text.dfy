/**
 * String operations of JavaScript that the extension relies on, written over `seq<char>`:
 * searching (`indexOf`, `includes`), the string-pattern `replace` (first occurrence only),
 * a global literal `replace`, `trim`, `split`/`join`, and the ECMAScript character classes
 * that the regular expressions `.` and `\s` use.
 */
module Text {
  import opened Wrappers

  /** The four ECMAScript line terminators: the characters `.` does not match. */
  predicate IsLineTerminator(c: char) {
    c == '\n' || c == '\r' || c == '\U{2028}' || c == '\U{2029}'
  }

  predicate NotLineTerminator(c: char) {
    !IsLineTerminator(c)
  }

  /** ECMAScript WhiteSpace and LineTerminator: what `\s` matches and what `trim()` removes. */
  predicate IsWhitespace(c: char) {
    || c == '\t' || c == '\n' || c == '\U{B}' || c == '\U{C}' || c == '\r' || c == ' '
    || c == '\U{A0}' || c == '\U{1680}' || ('\U{2000}' <= c <= '\U{200A}')
    || c == '\U{2028}' || c == '\U{2029}' || c == '\U{202F}' || c == '\U{205F}'
    || c == '\U{3000}' || c == '\U{FEFF}'
  }

  /** `\d` without the unicode flag: the ASCII digits. */
  predicate IsDigit(c: char) {
    '0' <= c <= '9'
  }

  /** The character classes the extension's patterns repeat greedily. */
  datatype CharClass =
    | NonNewline     // anything but `\n`: a line of `split('\n')`
    | Whitespace     // `\s`
    | NonSpace       // anything but ` `: a word of a command line
    | Blank          // `[ \t]`
    | Brace          // `[;{}]`
    | Digit          // `\d`
    | NonTerminator  // `.`

  predicate In(c: char, p: CharClass) {
    match p
    case NonNewline => c != '\n'
    case Whitespace => IsWhitespace(c)
    case NonSpace => c != ' '
    case Blank => c == ' ' || c == '\t'
    case Brace => c == ';' || c == '{' || c == '}'
    case Digit => IsDigit(c)
    case NonTerminator => !IsLineTerminator(c)
  }

  /** Length of the longest prefix of `s` whose characters all belong to `p`: a greedy `[...]*`. */
  function Span(s: string, p: CharClass): (n: nat)
    ensures n <= |s|
    ensures n < |s| ==> !In(s[n], p)
  {
    if s == [] || !In(s[0], p) then 0 else 1 + Span(s[1..], p)
  }

  /** Every character of the run satisfies `p`. */
  lemma {:induction false} SpanPrefix(s: string, p: CharClass, i: nat)
    requires i < Span(s, p)
    ensures In(s[i], p)
    decreases i
  {
    if i > 0 {
      SpanPrefix(s[1..], p, i - 1);
    }
  }

  /** A run over text whose characters all belong to `p` covers all of it. */
  lemma SpanAll(s: string, p: CharClass)
    requires forall i | 0 <= i < |s| :: In(s[i], p)
    ensures Span(s, p) == |s|
  {
  }

  /** The run stops at the latest at the first character outside `p`. */
  lemma {:induction false} SpanBound(s: string, p: CharClass, j: nat)
    requires j < |s| && !In(s[j], p)
    ensures Span(s, p) <= j
    decreases j
  {
    if In(s[0], p) {
      SpanBound(s[1..], p, j - 1);
    }
  }

  /** Appending text that cannot extend a maximal run leaves the run unchanged. */
  lemma {:induction false} SpanAppend(a: string, x: string, p: CharClass)
    requires Span(a, p) < |a| || x == [] || !In(x[0], p)
    ensures Span(a + x, p) == Span(a, p)
    decreases |a|
  {
    if a != [] && In(a[0], p) {
      assert (a + x)[1..] == a[1..] + x;
      SpanAppend(a[1..], x, p);
    }
  }

  /** `p` occurs in `s` at index `i`. */
  predicate OccursAt(s: string, p: string, i: nat) {
    i + |p| <= |s| && s[i..i + |p|] == p
  }

  /** `s.includes(p)`. */
  predicate Contains(s: string, p: string) {
    exists i: nat | i <= |s| :: OccursAt(s, p, i)
  }

  lemma OccursAtShift(s: string, p: string, i: nat)
    requires s != []
    ensures OccursAt(s, p, i + 1) <==> OccursAt(s[1..], p, i)
  {
    if i + 1 + |p| <= |s| {
      assert s[i + 1..i + 1 + |p|] == s[1..][i..i + |p|];
    }
  }

  /** An occurrence after the first character is an occurrence. */
  lemma ContainsTail(s: string, p: string)
    requires s != []
    ensures Contains(s[1..], p) ==> Contains(s, p)
  {
    if Contains(s[1..], p) {
      var i: nat :| i <= |s[1..]| && OccursAt(s[1..], p, i);
      OccursAtShift(s, p, i);
    }
  }

  lemma OccursAtZero(s: string, p: string)
    ensures OccursAt(s, p, 0) <==> p <= s
  {
  }

  /** `s.indexOf(p)`: the leftmost occurrence, or None for -1. */
  function IndexOf(s: string, p: string): (r: Option<nat>)
    ensures r.Some? ==> OccursAt(s, p, r.value)
    ensures r.Some? ==> forall j: nat :: j < r.value ==> !OccursAt(s, p, j)
    ensures r.None? <==> !Contains(s, p)
    decreases |s|
  {
    if p <= s then
      assert OccursAt(s, p, 0);
      Some(0)
    else if s == [] then
      assert forall i: nat | i <= |s| :: !OccursAt(s, p, i);
      None
    else
      var tail := IndexOf(s[1..], p);
      assert !OccursAt(s, p, 0);
      forall j: nat ensures OccursAt(s, p, j + 1) <==> OccursAt(s[1..], p, j) {
        OccursAtShift(s, p, j);
      }
      if tail.None? then
        assert forall i: nat | i <= |s| :: !OccursAt(s, p, i) by {
          forall i: nat | i <= |s| ensures !OccursAt(s, p, i) {
            if i > 0 {
              assert !OccursAt(s[1..], p, i - 1);
            }
          }
        }
        None
      else
        assert OccursAt(s[1..], p, tail.value);
        assert forall j: nat :: j < tail.value + 1 ==> !OccursAt(s, p, j) by {
          forall j: nat | j < tail.value + 1 ensures !OccursAt(s, p, j) {
            if j > 0 {
              assert !OccursAt(s[1..], p, j - 1);
            }
          }
        }
        Some(tail.value + 1)
  }

  /** `s.replace(p, r)` with a string pattern: only the first occurrence is replaced. */
  function ReplaceFirst(s: string, p: string, r: string): (t: string)
    ensures !Contains(s, p) ==> t == s
    ensures Contains(s, p) ==> |t| == |s| - |p| + |r|
  {
    match IndexOf(s, p)
    case None => s
    case Some(i) => s[..i] + r + s[i + |p|..]
  }

  /** `s.replace(new RegExp(p, "g"), r)` for a pattern without metacharacters: every
      occurrence, scanned left to right without overlap. */
  function ReplaceAll(s: string, p: string, r: string): (t: string)
    requires p != []
    decreases |s|
  {
    if p <= s then r + ReplaceAll(s[|p|..], p, r)
    else if s == [] then []
    else [s[0]] + ReplaceAll(s[1..], p, r)
  }

  /** An occurrence of `p` in `x + [c] + y` that is in neither part would have to contain `c`. */
  lemma ContainsAround(x: string, c: char, y: string, p: string)
    requires c !in p
    requires Contains(x + [c] + y, p)
    ensures Contains(x, p) || Contains(y, p)
  {
    var s := x + [c] + y;
    var i: nat :| i <= |s| && OccursAt(s, p, i);
    if i + |p| <= |x| {
      assert s[i..i + |p|] == x[i..i + |p|];
      assert OccursAt(x, p, i);
    } else if i > |x| {
      assert s[i..i + |p|] == y[i - |x| - 1..i - |x| - 1 + |p|];
      assert OccursAt(y, p, i - |x| - 1);
    } else {
      CoversSeparator(x, c, y, p, i);
      assert false;
    }
  }

  lemma CoversSeparator(x: string, c: char, y: string, p: string, i: nat)
    requires OccursAt(x + [c] + y, p, i) && i <= |x| < i + |p|
    ensures c in p
  {
    assert p[|x| - i] == (x + [c] + y)[|x|];
  }

  /** An occurrence of `p + q` contains one of `q`. */
  lemma ContainsSuffixPattern(s: string, p: string, q: string)
    requires Contains(s, p + q)
    ensures Contains(s, q)
  {
    var i: nat :| i <= |s| && OccursAt(s, p + q, i);
    assert s[i + |p|..i + |p| + |q|] == (p + q)[|p|..];
    assert OccursAt(s, q, i + |p|);
  }

  /** An occurrence of `p + q` contains one of `p`. */
  lemma ContainsPrefixPattern(s: string, p: string, q: string)
    requires Contains(s, p + q)
    ensures Contains(s, p)
  {
    var i: nat :| i <= |s| && OccursAt(s, p + q, i);
    assert s[i..i + |p|] == (p + q)[..|p|];
    assert OccursAt(s, p, i);
  }

  /** An occurrence inside a part is an occurrence in the whole. */
  lemma ContainsInfix(x: string, y: string, z: string, p: string)
    requires Contains(y, p)
    ensures Contains(x + y + z, p)
  {
    var i: nat :| i <= |y| && OccursAt(y, p, i);
    assert (x + y + z)[|x| + i..|x| + i + |p|] == y[i..i + |p|];
    assert OccursAt(x + y + z, p, |x| + i);
  }

  /** An occurrence inside a slice is an occurrence in the whole. */
  lemma ContainsSlice(s: string, i: nat, j: nat, p: string)
    requires i <= j <= |s|
    ensures Contains(s[i..j], p) ==> Contains(s, p)
  {
    if Contains(s[i..j], p) {
      var t := s[i..j];
      var k: nat :| k <= |t| && OccursAt(t, p, k);
      assert t[k..k + |p|] == p;
      forall x | 0 <= x < |p| ensures s[i + k + x] == p[x] {
        assert t[k..k + |p|][x] == t[k + x] == s[i + k + x];
      }
      assert s[i + k..i + k + |p|] == p;
      assert OccursAt(s, p, i + k);
    }
  }

  /** `replace` with a string pattern rewrites the occurrence after `x` when none starts
      earlier. */
  lemma ReplaceFirstOf(x: string, p: string, y: string, r: string)
    requires forall i | 0 <= i < |x| :: !OccursAt(x + p + y, p, i)
    ensures ReplaceFirst(x + p + y, p, r) == x + r + y
  {
    var s := x + p + y;
    assert s[|x|..|x| + |p|] == p;
    assert OccursAt(s, p, |x|);
    var k := IndexOf(s, p);
    assert k == Some(|x|);
    assert s[..|x|] == x && s[|x| + |p|..] == y;
  }

  /** `replace` with a string pattern rewrites a leading occurrence. */
  lemma ReplaceFirstLeading(p: string, y: string, r: string)
    ensures ReplaceFirst(p + y, p, r) == r + y
  {
    assert IndexOf(p + y, p) == Some(0) by {
      assert p <= p + y;
    }
    assert (p + y)[..0] == [] && (p + y)[|p|..] == y;
  }

  /** Regrouping concatenations. */
  lemma Regroup<T>(a: seq<T>, b: seq<T>, c: seq<T>, d: seq<T>)
    ensures a + (b + c) == a + b + c
    ensures a + (b + (c + d)) == a + b + c + d
  {
  }

  /** A non-empty sequence is its first element followed by the rest. */
  lemma HeadTail<T>(s: seq<T>)
    requires s != []
    ensures [s[0]] + s[1..] == s
  {
  }

  /** Dropping the first element of a concatenation whose first part is non-empty. */
  lemma DropHead<T>(a: seq<T>, b: seq<T>)
    requires a != []
    ensures (a + b)[1..] == a[1..] + b
    ensures a + b == [a[0]] + (a[1..] + b)
  {
  }

  /** Cutting a sequence at `i`, or at `i` and `j`, and joining the pieces gives it back. */
  lemma Cut<T>(s: seq<T>, i: nat, j: nat)
    requires i <= j <= |s|
    ensures s[..i] + s[i..] == s
    ensures s[..i] + s[i..j] == s[..j]
  {
  }

  /** `s.endsWith(p)`. */
  predicate EndsWith(s: string, p: string) {
    |p| <= |s| && s[|s| - |p|..] == p
  }

  /** `s.trimStart()`. */
  function TrimStart(s: string): (t: string)
    ensures |t| <= |s| && t == s[|s| - |t|..]
    ensures t == [] || !IsWhitespace(t[0])
    ensures forall i :: 0 <= i < |s| - |t| ==> IsWhitespace(s[i])
  {
    var n := Span(s, Whitespace);
    assert forall i | 0 <= i < n :: IsWhitespace(s[i]) by {
      forall i | 0 <= i < n {
        SpanPrefix(s, Whitespace, i);
      }
    }
    s[n..]
  }

  /** `s.trimEnd()`. */
  function TrimEnd(s: string): (t: string)
    ensures t <= s
    ensures t == [] || !IsWhitespace(t[|t| - 1])
    ensures forall i :: |t| <= i < |s| ==> IsWhitespace(s[i])
    decreases |s|
  {
    if s != [] && IsWhitespace(s[|s| - 1]) then TrimEnd(s[..|s| - 1]) else s
  }

  /** `s.trim()`: the infix of `s` left after removing whitespace at both ends. */
  function Trim(s: string): (t: string)
    ensures t == [] || (!IsWhitespace(t[0]) && !IsWhitespace(t[|t| - 1]))
    ensures Contains(s, t)
    ensures exists d: nat :: TrimmedAt(s, t, d)
  {
    var u := TrimStart(s);
    var t := TrimEnd(u);
    TrimmedBetween(s, u, t);
    t
  }

  /** Both halves of the trimming together leave `t` between whitespace. */
  lemma TrimmedBetween(s: string, u: string, t: string)
    requires |u| <= |s| && u == s[|s| - |u|..]
    requires forall i :: 0 <= i < |s| - |u| ==> IsWhitespace(s[i])
    requires t <= u && forall i :: |t| <= i < |u| ==> IsWhitespace(u[i])
    ensures TrimmedAt(s, t, |s| - |u|) && Contains(s, t)
  {
    var d := |s| - |u|;
    assert s[d..d + |t|] == t;
    forall i | d + |t| <= i < |s| ensures IsWhitespace(s[i]) {
      assert s[i] == u[i - d];
    }
    assert OccursAt(s, t, d);
  }

  /** `t` occurs in `s` at `d`, and only whitespace comes before and after it. */
  predicate TrimmedAt(s: string, t: string, d: nat) {
    && OccursAt(s, t, d)
    && (forall i | 0 <= i < d :: IsWhitespace(s[i]))
    && (forall i | d + |t| <= i < |s| :: IsWhitespace(s[i]))
  }

  /** Whitespace around text with no whitespace at its ends is exactly what `trim()` removes. */
  lemma TrimAround(a: string, x: string, b: string)
    requires forall i | 0 <= i < |a| :: IsWhitespace(a[i])
    requires forall i | 0 <= i < |b| :: IsWhitespace(b[i])
    requires x == [] || (!IsWhitespace(x[0]) && !IsWhitespace(x[|x| - 1]))
    ensures Trim(a + x + b) == x
  {
    var s := a + x + b;
    var t := Trim(s);
    var d: nat :| TrimmedAt(s, t, d);
    TrimmedIsMiddle(a, x, b, t, d);
  }

  /** The only infix between whitespace, with no whitespace at its ends, is the middle part. */
  lemma TrimmedIsMiddle(a: string, x: string, b: string, t: string, d: nat)
    requires forall i | 0 <= i < |a| :: IsWhitespace(a[i])
    requires forall i | 0 <= i < |b| :: IsWhitespace(b[i])
    requires x == [] || (!IsWhitespace(x[0]) && !IsWhitespace(x[|x| - 1]))
    requires t == [] || (!IsWhitespace(t[0]) && !IsWhitespace(t[|t| - 1]))
    requires TrimmedAt(a + x + b, t, d)
    ensures t == x
  {
    var s := a + x + b;
    if x == [] {
      forall i | 0 <= i < |s| ensures IsWhitespace(s[i]) {
        if i >= |a| {
          assert s[i] == b[i - |a|];
        }
      }
    } else {
      assert s[|a|] == x[0];
      assert s[|a| + |x| - 1] == x[|x| - 1];
      forall i | 0 <= i < |a| ensures IsWhitespace(s[i]) {
        assert s[i] == a[i];
      }
      forall i | |a| + |x| <= i < |s| ensures IsWhitespace(s[i]) {
        assert s[i] == b[i - |a| - |x|];
      }
      assert t != [];
      assert t[0] == s[d] && t[|t| - 1] == s[d + |t| - 1];
      assert d == |a|;
      assert d + |t| == |a| + |x|;
      assert s[|a|..|a| + |x|] == x;
    }
  }

  /** Trimming text that has nothing to trim changes nothing. */
  lemma TrimTrimmed(s: string)
    requires s == [] || (!IsWhitespace(s[0]) && !IsWhitespace(s[|s| - 1]))
    ensures Trim(s) == s
  {
  }

  /** `s.split('\n')`: never empty, one part more than there are newlines. */
  function SplitLines(s: string): (parts: seq<string>)
    ensures |parts| >= 1
    decreases |s|
  {
    var n := Span(s, NonNewline);
    if n == |s| then [s] else [s[..n]] + SplitLines(s[n + 1..])
  }

  /** `parts.join('\n')`. */
  function JoinLines(parts: seq<string>): string {
    if parts == [] then []
    else if |parts| == 1 then parts[0]
    else parts[0] + "\n" + JoinLines(parts[1..])
  }

  /** Splitting at a newline: the text before it, then the split of the text after it. */
  lemma SplitAtNewline(s: string, n: nat)
    requires n == Span(s, NonNewline) < |s|
    ensures SplitLines(s) == [s[..n]] + SplitLines(s[n + 1..])
  {
  }

  /** A text without a newline is a single line. */
  lemma SingleLine(s: string)
    requires '\n' !in s
    ensures Span(s, NonNewline) == |s| && SplitLines(s) == [s]
  {
  }

  lemma JoinCons(line: string, rest: seq<string>)
    requires rest != []
    ensures JoinLines([line] + rest) == line + "\n" + JoinLines(rest)
  {
    assert ([line] + rest)[1..] == rest;
  }

  /** A text is its part before index `n`, the character at `n`, and the part after it. */
  lemma Decompose(s: string, n: nat)
    requires n < |s|
    ensures s == s[..n] + [s[n]] + s[n + 1..]
  {
  }

  /** Joining the parts of a split with the same separator gives the text back. */
  lemma {:induction false} JoinSplitLines(s: string)
    ensures JoinLines(SplitLines(s)) == s
    decreases |s|
  {
    var n := Span(s, NonNewline);
    if n < |s| {
      SplitAtNewline(s, n);
      JoinCons(s[..n], SplitLines(s[n + 1..]));
      JoinSplitLines(s[n + 1..]);
      Decompose(s, n);
    }
  }

  /** The lines after the first one, rejoined: everything after the first newline, or
      nothing when there is no newline. */
  lemma {:induction false} DropFirstLine(s: string)
    ensures var n := Span(s, NonNewline);
      JoinLines(SplitLines(s)[1..]) == if n < |s| then s[n + 1..] else []
  {
    var n := Span(s, NonNewline);
    if n < |s| {
      SplitLinesTail(s);
      JoinSplitLines(s[n + 1..]);
    }
  }

  lemma SplitLinesTail(s: string)
    requires Span(s, NonNewline) < |s|
    ensures SplitLines(s)[1..] == SplitLines(s[Span(s, NonNewline) + 1..])
  {
    var n := Span(s, NonNewline);
    SplitAtNewline(s, n);
    TailOfCons(s[..n], SplitLines(s[n + 1..]));
  }

  lemma TailOfCons<T>(x: T, xs: seq<T>)
    ensures ([x] + xs)[1..] == xs
  {
  }

    /** The space-separated words of `s`: the arguments of a command line whose words are
      separated by spaces (the shell's other separators and its quoting are not modelled). */
  function Words(s: string): seq<string>
    decreases |s|
  {
    if s == [] then []
    else if s[0] == ' ' then Words(s[1..])
    else
      var n := Span(s, NonSpace);
      [s[..n]] + Words(s[n..])
  }

  /** A space always separates words: the words of a joined line are the words of its parts. */
  lemma {:induction false} WordsAround(a: string, b: string)
    ensures Words(a + " " + b) == Words(a) + Words(b)
    decreases |a|
  {
    var s := a + " " + b;
    if a == [] {
      assert s[1..] == b;
    } else if a[0] == ' ' {
      SplitJoined(a, 1, b);
      WordsAround(a[1..], b);
    } else {
      var n := Span(a, NonSpace);
      assert Span(s, NonSpace) == n by {
        assert s == a + (" " + b);
        SpanAppend(a, " " + b, NonSpace);
      }
      SplitJoined(a, n, b);
      WordsAround(a[n..], b);
    }
  }

  lemma SplitJoined(a: string, n: nat, b: string)
    requires n <= |a|
    ensures (a + " " + b)[..n] == a[..n] && (a + " " + b)[n..] == a[n..] + " " + b
  {
  }

  /** A non-empty text without spaces is a single word. */
  lemma WordsOfWord(w: string)
    requires w != [] && ' ' !in w
    ensures Words(w) == [w]
  {
    var n := Span(w, NonSpace);
    assert w[..n] == w;
    assert w[n..] == [];
  }

  /** Text that starts with a space adds its own words after those of the text before it. */
  lemma WordsConcat(a: string, b: string)
    requires b != [] && b[0] == ' '
    ensures Words(a + b) == Words(a) + Words(b)
  {
    assert b == " " + b[1..];
    assert a + b == a + " " + b[1..];
    WordsAround(a, b[1..]);
  }

  /** A space, a flag without spaces, a space and a value: the flag, then the value's words. */
  lemma FlagWords(flag: string, x: string)
    requires flag != [] && ' ' !in flag
    ensures Words(" " + flag + " " + x) == [flag] + Words(x)
  {
    var s := " " + flag + " " + x;
    assert Words(s) == Words(flag + " " + x) by {
      assert s[0] == ' ' && s[1..] == flag + " " + x;
    }
    WordThen(flag, x);
  }

  /** A space and a flag without spaces: that flag alone. */
  lemma LastFlagWords(flag: string)
    requires flag != [] && ' ' !in flag
    ensures Words(" " + flag) == [flag]
  {
    assert (" " + flag)[1..] == flag;
    WordsOfWord(flag);
  }

  /** A word followed by a space and more text: that word, then the words of the rest. */
  lemma WordThen(w: string, x: string)
    requires w != [] && ' ' !in w
    ensures Words(w + " " + x) == [w] + Words(x)
  {
    WordsAround(w, x);
    WordsOfWord(w);
  }

  /** Four words joined by single spaces split back into those four words. */
  lemma FourWords(a: string, b: string, c: string, d: string)
    requires a != [] && ' ' !in a && b != [] && ' ' !in b
    requires c != [] && ' ' !in c && d != [] && ' ' !in d
    ensures Words(a + " " + b + " " + c + " " + d) == [a, b, c, d]
  {
    var cd := c + " " + d;
    var bcd := b + " " + cd;
    assert Words(cd) == [c, d] by {
      WordThen(c, d);
      WordsOfWord(d);
    }
    assert Words(bcd) == [b, c, d] by {
      WordThen(b, cd);
    }
    JoinedRegroup(a, " ", b, c, d);
    WordThen(a, bcd);
  }

  lemma JoinedRegroup<T>(a: seq<T>, sep: seq<T>, b: seq<T>, c: seq<T>, d: seq<T>)
    ensures a + sep + b + sep + c + sep + d == a + sep + (b + sep + (c + sep + d))
  {
  }
}
