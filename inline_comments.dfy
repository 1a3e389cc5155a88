/**
 * Inline comments: before conversion, a comment that follows `;`, `{` or `}` on the same line
 * is marked by inserting a sentinel right after its opener; after conversion, a marked
 * comment that the converter moved onto a line of its own is joined back to the end of the
 * previous line, and leftover markers are cleaned up.
 */
module InlineComments {
  import opened Wrappers
  import opened Text

  /** The marker inserted after a comment opener (written in two pieces, it is one string). */
  const Sentinel := "---vscode-sass-format" + "-end-of-inline-comment---"

  /** A line-comment opener followed by the marker, and a block-comment opener followed by it. */
  const LineMarker := "//" + Sentinel
  const BlockMarker := "/*" + Sentinel

  /** The marker is made of dashes and lower-case letters only. */
  predicate MarkerChar(c: char) {
    c == '-' || 'a' <= c <= 'z'
  }

  /**
   * The shape of a marker the lemmas below work with: non-empty, dashes and lower-case
   * letters only, so that it holds no opener, no whitespace and no line terminator.
   */
  predicate MarkerShape(marker: string) {
    marker != [] && forall j | 0 <= j < |marker| :: MarkerChar(marker[j])
  }

  lemma SentinelShape()
    ensures MarkerShape(Sentinel)
  {
    forall j | 0 <= j < |Sentinel| ensures MarkerChar(Sentinel[j]) {
      if j < 21 {
        assert Sentinel[j] == "---vscode-sass-format"[j];
      } else {
        assert Sentinel[j] == "-end-of-inline-comment---"[j - 21];
      }
    }
  }

  /** A comment opener, a slash followed by a slash or a star, starts at index `i` of `s`. */
  predicate OpensAt(s: string, i: nat) {
    i + 2 <= |s| && s[i] == '/' && (s[i + 1] == '/' || s[i + 1] == '*')
  }

  /**
   * Where the marking pattern `([;{}]+[ \t]*)(\/\/|\/\*)(.*)$` matches at the start of `s`:
   * a run of `;`, `{`, `}`, then spaces and tabs, then a comment opener. The result is the
   * index just after the opener, where the marker goes.
   */
  function MarkPoint(s: string): (k: Option<nat>)
    ensures k.Some? ==> 2 <= k.value <= |s| && OpensAt(s, k.value - 2)
    ensures k.Some? ==> In(s[0], Brace)
    ensures k.Some? ==> forall j | 0 <= j < k.value - 2 :: In(s[j], Brace) || In(s[j], Blank)
  {
    if s != [] && In(s[0], Brace) && OpensAt(s, OpenerIndex(s)) then
      Some(OpenerIndex(s) + 2)
    else None
  }

  /** Before a mark point come the brace run and then the blanks, in that order. */
  lemma MarkPointOrdered(s: string, k: nat)
    requires MarkPoint(s) == Some(k)
    ensures BracesThenBlanks(s, k - 2)
  {
    OpenerIndexOrdered(s);
  }

  /** Every character of `s` is in the class `p`. */
  predicate AllOf(s: string, p: CharClass) {
    forall i | 0 <= i < |s| :: In(s[i], p)
  }

  /** `s[..e]` is a non-empty run of `;`, `{`, `}` followed by spaces and tabs, in that order. */
  predicate BracesThenBlanks(s: string, e: nat)
    requires e <= |s|
  {
    exists n | 0 < n <= e :: AllOf(s[..n], Brace) && AllOf(s[n..e], Blank)
  }

  /** Before the opener index come the brace run and then the blanks, when `s` starts with a brace. */
  lemma OpenerIndexOrdered(s: string)
    requires s != [] && In(s[0], Brace)
    ensures BracesThenBlanks(s, OpenerIndex(s))
  {
    var n := Span(s, Brace);
    var i := OpenerIndex(s);
    assert AllOf(s[..n], Brace) by {
      forall j | 0 <= j < n ensures In(s[..n][j], Brace) {
        SpanPrefix(s, Brace, j);
      }
    }
    assert AllOf(s[n..i], Blank) by {
      forall j | 0 <= j < i - n ensures In(s[n..i][j], Blank) {
        SpanPrefix(s[n..], Blank, j);
      }
    }
  }

  /** The index after the leading run of `;`, `{`, `}` and the spaces and tabs after it. */
  function OpenerIndex(s: string): (i: nat)
    ensures i <= |s|
    ensures forall j | 0 <= j < i :: In(s[j], Brace) || In(s[j], Blank)
  {
    var n := Span(s, Brace);
    var b := Span(s[n..], Blank);
    assert forall j | 0 <= j < n + b :: In(s[j], Brace) || In(s[j], Blank) by {
      forall j | 0 <= j < n + b ensures In(s[j], Brace) || In(s[j], Blank) {
        if j < n {
          SpanPrefix(s, Brace, j);
        } else {
          SpanPrefix(s[n..], Blank, j - n);
        }
      }
    }
    n + b
  }

  /** A run of `;`, `{`, `}`, then spaces and tabs, then an opener: the pattern matches, and
      the marker goes right after the opener. */
  lemma MarkPointAt(b: string, w: string, o: string, rest: string)
    requires b != [] && forall i | 0 <= i < |b| :: In(b[i], Brace)
    requires forall i | 0 <= i < |w| :: In(w[i], Blank)
    requires o == "//" || o == "/*"
    ensures MarkPoint(b + w + o + rest) == Some(|b| + |w| + 2)
  {
    var s := b + w + o + rest;
    SpanAll(b, Brace);
    assert s == b + (w + o + rest);
    SpanAppend(b, w + o + rest, Brace);
    assert s[|b|..] == w + (o + rest);
    SpanAll(w, Blank);
    SpanAppend(w, o + rest, Blank);
    assert s[|b| + |w|..] == o + rest;
  }

  /**
   * The marking pass, a global replace scanning left to right: at a mark point the text up to
   * the opener is kept, `marker` is inserted and the rest of the line is copied; the scan
   * resumes at the end of that line. Elsewhere one character is copied.
   */
  function MarkComments(s: string, marker: string): (r: string)
    ensures s != [] ==> r != [] && r[0] == s[0]
    decreases |s|
  {
    if s == [] then []
    else if MarkPoint(s).Some? then
      var k := MarkPoint(s).value;
      s[..k] + marker + s[k..LineEnd(s)] + MarkComments(s[LineEnd(s)..], marker)
    else [s[0]] + MarkComments(s[1..], marker)
  }

  /** Where the match of the marking pattern ends: the end of the line, before its terminator. */
  function LineEnd(s: string): (e: nat)
    requires MarkPoint(s).Some?
    ensures MarkPoint(s).value <= e <= |s|
    ensures e < |s| ==> IsLineTerminator(s[e])
  {
    var k := MarkPoint(s).value;
    k + Span(s[k..], NonTerminator)
  }

  /** The marking step applied to the text before it goes to the converter. */
  function MarkInlineComments(s: string): string {
    MarkComments(s, Sentinel)
  }

  /** Removing every occurrence of `marker` leaves text without one unchanged. */
  lemma {:induction false} RemoveIdentity(s: string, marker: string)
    requires marker != []
    ensures !Contains(s, marker) ==> ReplaceAll(s, marker, "") == s
    decreases |s|
  {
    if s != [] && !Contains(s, marker) {
      OccursAtZero(s, marker);
      assert !OccursAt(s, marker, 0);
      ContainsTail(s, marker);
      RemoveIdentity(s[1..], marker);
    }
  }

  /** Text in which no marker starts is kept as it is when markers are removed after it. */
  lemma {:induction false} RemoveAfter(a: string, y: string, marker: string)
    requires marker != []
    requires forall i | 0 <= i < |a| :: !OccursAt(a + y, marker, i)
    ensures ReplaceAll(a + y, marker, "") == a + ReplaceAll(y, marker, "")
    decreases |a|
  {
    if a == [] {
      assert a + y == y;
    } else {
      assert !OccursAt(a + y, marker, 0);
      OccursAtZero(a + y, marker);
      DropHead(a, y);
      forall i | 0 <= i < |a[1..]| ensures !OccursAt(a[1..] + y, marker, i) {
        OccursAtShift(a + y, marker, i);
      }
      RemoveAfter(a[1..], y, marker);
      DropHead(a, ReplaceAll(y, marker, ""));
    }
  }

  /** No marker starts inside `x` when `x` holds none and the character at index `c` of
      `x + y`, at the end of `x` or just after it, is no marker character. */
  lemma NoMarkerAcross(x: string, y: string, marker: string, c: nat)
    requires MarkerShape(marker) && !Contains(x, marker)
    requires c + 1 == |x| || c == |x|
    requires c < |x + y| ==> !MarkerChar((x + y)[c])
    ensures forall i | 0 <= i < |x| :: !OccursAt(x + y, marker, i)
  {
    var u := x + y;
    forall i | 0 <= i < |x| ensures !OccursAt(u, marker, i) {
      assert !OccursAt(x, marker, i);
      if i + |marker| <= |x| {
        assert u[i..i + |marker|] == x[i..i + |marker|];
      } else if i + |marker| <= |u| {
        assert u[i..i + |marker|][c - i] == u[c];
        assert MarkerChar(marker[c - i]);
      }
    }
  }

  /** A prefix of the marked text without `/` is the same prefix of the input. */
  lemma {:induction false} MarkPrefix(t: string, marker: string, m: nat)
    requires m <= |MarkComments(t, marker)|
    requires forall i | 0 <= i < m :: MarkComments(t, marker)[i] != '/'
    ensures m <= |t| && MarkComments(t, marker)[..m] == t[..m]
    decreases |t|
  {
    var r := MarkComments(t, marker);
    if t != [] {
      if MarkPoint(t).Some? {
        MarkPrefixAtPoint(t, marker, m);
      } else if m > 0 {
        var r' := MarkComments(t[1..], marker);
        assert r == [t[0]] + r' by {
          MarkSkip(t, marker);
        }
        forall i | 0 <= i < m - 1 ensures r'[i] != '/' {
          assert r'[i] == r[i + 1];
        }
        MarkPrefix(t[1..], marker, m - 1);
        PrefixCons(t, r, r', m);
      }
    }
  }

  lemma PrefixCons<T>(t: seq<T>, r: seq<T>, r': seq<T>, m: nat)
    requires t != [] && 0 < m && r == [t[0]] + r'
    requires m - 1 <= |t| - 1 && m - 1 <= |r'| && r'[..m - 1] == t[1..][..m - 1]
    ensures m <= |t| && r[..m] == t[..m]
  {
    assert r[..m] == [t[0]] + r'[..m - 1];
  }

  /** At a mark point, a prefix without `/` ends before the opener, so it is copied. */
  lemma MarkPrefixAtPoint(t: string, marker: string, m: nat)
    requires MarkPoint(t).Some? && m <= |MarkComments(t, marker)|
    requires forall i | 0 <= i < m :: MarkComments(t, marker)[i] != '/'
    ensures m <= |t| && MarkComments(t, marker)[..m] == t[..m]
  {
    var r := MarkComments(t, marker);
    var k := MarkPoint(t).value;
    assert r[..k] == t[..k] by {
      MarkStep(t, marker);
    }
    assert m <= k - 2 by {
      assert r[k - 2] == t[k - 2] == '/';
    }
    assert r[..m] == r[..k][..m];
  }

  /** Where no mark point is found, no marker starts the marked text unless one starts the
      input. */
  lemma FrontUnmarked(s: string, marker: string)
    requires s != [] && MarkPoint(s).None? && MarkerShape(marker)
    ensures OccursAt(MarkComments(s, marker), marker, 0) ==> OccursAt(s, marker, 0)
  {
    var r := MarkComments(s, marker);
    var r' := MarkComments(s[1..], marker);
    var m := |marker| - 1;
    if OccursAt(r, marker, 0) {
      assert r == [s[0]] + r' by {
        MarkSkip(s, marker);
      }
      forall i | 0 <= i < m ensures r'[i] != '/' {
        assert r'[i] == r[i + 1] == marker[i + 1];
        assert MarkerChar(marker[i + 1]);
      }
      MarkPrefix(s[1..], marker, m);
      PrefixCons(s, r, r', |marker|);
    }
  }

  /** One step of the marking scan at a mark point. */
  lemma MarkStep(s: string, marker: string)
    requires MarkPoint(s).Some?
    ensures MarkComments(s, marker)
         == s[..MarkPoint(s).value]
          + (marker + (s[MarkPoint(s).value..LineEnd(s)] + MarkComments(s[LineEnd(s)..], marker)))
  {
    var k := MarkPoint(s).value;
    Regroup(s[..k], marker, s[k..LineEnd(s)], MarkComments(s[LineEnd(s)..], marker));
  }

  /** One step of the marking scan where no mark point is found. */
  lemma MarkSkip(s: string, marker: string)
    requires s != [] && MarkPoint(s).None?
    ensures MarkComments(s, marker) == [s[0]] + MarkComments(s[1..], marker)
  {
  }

  /** A leading marker is removed. */
  lemma RemoveLeading(marker: string, x: string)
    requires marker != []
    ensures ReplaceAll(marker + x, marker, "") == ReplaceAll(x, marker, "")
  {
    assert marker <= marker + x;
    assert (marker + x)[|marker|..] == x;
  }

  /** A marked line loses exactly its marker. */
  lemma RemoveMarkedLine(head: string, line: string, rest: string, marker: string)
    requires MarkerShape(marker) && !Contains(head, marker) && !Contains(line, marker)
    requires head != [] && !MarkerChar(head[|head| - 1])
    requires rest == [] || IsLineTerminator(rest[0])
    ensures ReplaceAll(head + (marker + (line + rest)), marker, "")
         == head + (line + ReplaceAll(rest, marker, ""))
  {
    var tail := marker + (line + rest);
    NoMarkerAcross(head, tail, marker, |head| - 1);
    RemoveAfter(head, tail, marker);
    RemoveLeading(marker, line + rest);
    NoMarkerAcross(line, rest, marker, |line|);
    RemoveAfter(line, rest, marker);
  }

  /** The marked text at a mark point, with markers removed: the marked line and the rest. */
  lemma MarkedLine(s: string, marker: string)
    requires MarkerShape(marker) && !Contains(s, marker) && MarkPoint(s).Some?
    ensures ReplaceAll(MarkComments(s, marker), marker, "")
         == s[..LineEnd(s)] + ReplaceAll(MarkComments(s[LineEnd(s)..], marker), marker, "")
  {
    var k, e := MarkPoint(s).value, LineEnd(s);
    MarkStep(s, marker);
    ContainsSlice(s, 0, k, marker);
    ContainsSlice(s, k, e, marker);
    assert s[0..k] == s[..k];
    var rest := MarkComments(s[e..], marker);
    assert e < |s| ==> s[e..][0] == s[e];
    RemoveMarkedLine(s[..k], s[k..e], rest, marker);
    Regroup(s[..k], s[k..e], ReplaceAll(rest, marker, ""), []);
    Cut(s, k, e);
  }

  /** Removing the markers undoes the marking pass on text that holds no marker. */
  lemma {:induction false} MarkRoundTrip(s: string, marker: string)
    requires MarkerShape(marker) && !Contains(s, marker)
    ensures ReplaceAll(MarkComments(s, marker), marker, "") == s
    decreases |s|
  {
    if s != [] {
      if MarkPoint(s).Some? {
        var e := LineEnd(s);
        assert !Contains(s[e..], marker) by {
          ContainsSlice(s, e, |s|, marker);
          assert s[e..|s|] == s[e..];
        }
        assert ReplaceAll(MarkComments(s[e..], marker), marker, "") == s[e..] by {
          MarkRoundTrip(s[e..], marker);
        }
        MarkedLine(s, marker);
        Cut(s, e, e);
      } else {
        var r' := MarkComments(s[1..], marker);
        assert ReplaceAll(MarkComments(s, marker), marker, "") == [s[0]] + ReplaceAll(r', marker, "") by {
          MarkSkip(s, marker);
          FrontUnmarked(s, marker);
          assert !OccursAt(s, marker, 0);
          RemoveAfter([s[0]], r', marker);
        }
        assert ReplaceAll(r', marker, "") == s[1..] by {
          ContainsTail(s, marker);
          MarkRoundTrip(s[1..], marker);
        }
        HeadTail(s);
      }
    }
  }

  /** The marking step loses nothing: removing the sentinel gives the text back. */
  lemma SentinelRoundTrip(s: string)
    requires !Contains(s, Sentinel)
    ensures ReplaceAll(MarkInlineComments(s), Sentinel, "") == s
  {
    SentinelShape();
    MarkRoundTrip(s, Sentinel);
  }

  /** The leftmost mark point of a line, as the index just after its opener. */
  function FirstMarkPoint(s: string): (k: Option<nat>)
    ensures k.Some? ==> 2 <= k.value <= |s| && OpensAt(s, k.value - 2)
    decreases |s|
  {
    if s == [] then None
    else if MarkPoint(s).Some? then MarkPoint(s)
    else match FirstMarkPoint(s[1..])
      case None => None
      case Some(k) => Some(k + 1)
  }

  /**
   * The same left-to-right search for any pattern `f` that reports where it matches at the
   * start of a string: the result at the leftmost index where `f` matches, shifted by that
   * index.
   */
  function FirstMatch(f: string -> Option<nat>, s: string): Option<nat>
    decreases |s|
  {
    if s == [] then None
    else if f(s).Some? then f(s)
    else match FirstMatch(f, s[1..])
      case None => None
      case Some(k) => Some(k + 1)
  }

  /** `f` matches at no index of `s` before `j`. */
  predicate NoMatchBefore(f: string -> Option<nat>, s: string, j: nat)
    requires j <= |s|
  {
    forall i | 0 <= i < j :: f(s[i..]).None?
  }

  /** The search finds the match at the leftmost index where the pattern matches. */
  lemma {:induction false} FirstMatchAt(f: string -> Option<nat>, s: string, j: nat, v: nat)
    requires j < |s| && f(s[j..]) == Some(v) && NoMatchBefore(f, s, j)
    ensures FirstMatch(f, s) == Some(j + v)
    decreases j
  {
    if j == 0 {
      assert s[0..] == s;
    } else {
      assert f(s).None? by {
        assert s[0..] == s;
      }
      assert f(s[1..][j - 1..]) == Some(v) by {
        assert s[1..][j - 1..] == s[j..];
      }
      assert NoMatchBefore(f, s[1..], j - 1) by {
        forall i | 0 <= i < j - 1 ensures f(s[1..][i..]).None? {
          assert s[1..][i..] == s[i + 1..];
        }
      }
      FirstMatchAt(f, s[1..], j - 1, v);
    }
  }

  /** The search finds nothing exactly when the pattern matches at no index. */
  lemma {:induction false} FirstMatchNone(f: string -> Option<nat>, s: string)
    ensures FirstMatch(f, s).None? <==> NoMatchBefore(f, s, |s|)
    decreases |s|
  {
    if s != [] {
      assert s[0..] == s;
      FirstMatchNone(f, s[1..]);
      forall i | 0 <= i < |s| - 1 ensures s[1..][i..] == s[i + 1..] {
      }
      if FirstMatch(f, s).None? {
        forall i | 0 <= i < |s| ensures f(s[i..]).None? {
          if i > 0 {
            assert f(s[1..][i - 1..]).None?;
          }
        }
      } else if f(s).None? {
        var i :| 0 <= i < |s| - 1 && f(s[1..][i..]).Some?;
        assert f(s[i + 1..]).Some?;
      }
    }
  }

  /** The search for a mark point is the leftmost search for the marking pattern. */
  lemma {:induction false} FirstMarkPointIsFirstMatch(s: string)
    ensures FirstMarkPoint(s) == FirstMatch(MarkPoint, s)
    decreases |s|
  {
    if s != [] && MarkPoint(s).None? {
      FirstMarkPointIsFirstMatch(s[1..]);
    }
  }

  /** The first mark point is the one of the leftmost index where the marking pattern matches. */
  lemma FirstMarkPointAt(s: string, j: nat, v: nat)
    requires j < |s| && MarkPoint(s[j..]) == Some(v) && NoMatchBefore(MarkPoint, s, j)
    ensures FirstMarkPoint(s) == Some(j + v)
  {
    FirstMatchAt(MarkPoint, s, j, v);
    FirstMarkPointIsFirstMatch(s);
  }

  /** A line has no first mark point exactly when the marking pattern matches at none of its indices. */
  lemma FirstMarkPointNone(s: string)
    ensures FirstMarkPoint(s).None? <==> NoMatchBefore(MarkPoint, s, |s|)
  {
    FirstMarkPointIsFirstMatch(s);
    FirstMatchNone(MarkPoint, s);
  }

  /** A line after marking: the marker inserted after the opener of its first mark point. */
  function MarkOneLine(line: string, marker: string): (r: string)
    ensures FirstMarkPoint(line).None? ==> r == line
    ensures FirstMarkPoint(line).Some? ==> |r| == |line| + |marker|
  {
    match FirstMarkPoint(line)
    case None => line
    case Some(k) => line[..k] + marker + line[k..]
  }

  lemma OneLineCons(line: string, marker: string)
    requires line != [] && MarkPoint(line).None?
    ensures MarkOneLine(line, marker) == [line[0]] + MarkOneLine(line[1..], marker)
  {
    match FirstMarkPoint(line[1..])
    case None =>
    case Some(j) =>
      assert line[..j + 1] == [line[0]] + line[1..][..j];
      assert line[j + 1..] == line[1..][j..];
  }

  lemma OpenerIndexInLine(line: string, rest: string)
    requires rest == [] || IsLineTerminator(rest[0])
    ensures OpenerIndex(line + rest) == OpenerIndex(line)
  {
    var u := line + rest;
    var n := Span(line, Brace);
    SpanAppend(line, rest, Brace);
    assert u[n..] == line[n..] + rest;
    SpanAppend(line[n..], rest, Blank);
  }

  /** A line terminator ends the search for a mark point. */
  lemma MarkPointInLine(line: string, rest: string)
    requires line != [] && forall i | 0 <= i < |line| :: !IsLineTerminator(line[i])
    requires rest == [] || IsLineTerminator(rest[0])
    ensures MarkPoint(line + rest) == MarkPoint(line)
  {
    var u := line + rest;
    assert u[0] == line[0];
    if In(line[0], Brace) {
      OpenerIndexInLine(line, rest);
      var k := OpenerIndex(line);
      if k + 2 <= |line| {
        assert u[k] == line[k] && u[k + 1] == line[k + 1];
      } else if k + 2 <= |u| {
        if k == |line| {
          assert u[k] == rest[0];
        } else {
          assert u[k + 1] == rest[0];
        }
      }
    }
  }

  /** At a mark point the match runs to the end of the line. */
  lemma WholeLineMarked(line: string, rest: string, marker: string)
    requires forall i | 0 <= i < |line| :: !IsLineTerminator(line[i])
    requires rest == [] || IsLineTerminator(rest[0])
    requires MarkPoint(line).Some? && MarkPoint(line + rest) == MarkPoint(line)
    ensures MarkComments(line + rest, marker) == MarkOneLine(line, marker) + MarkComments(rest, marker)
  {
    var u := line + rest;
    var k := MarkPoint(line).value;
    assert u[k..] == line[k..] + rest;
    SpanAll(line[k..], NonTerminator);
    SpanAppend(line[k..], rest, NonTerminator);
    assert LineEnd(u) == |line|;
    MarkStep(u, marker);
    assert u[..k] == line[..k] && u[k..|line|] == line[k..] && u[|line|..] == rest;
    Regroup(line[..k], marker, line[k..], MarkComments(rest, marker));
  }

  /**
   * Marking works line by line and inserts at most one marker per line: at the leftmost mark
   * point, since the copied rest of the line is not searched again.
   */
  lemma {:induction false} MarkLine(line: string, rest: string, marker: string)
    requires forall i | 0 <= i < |line| :: !IsLineTerminator(line[i])
    requires rest == [] || IsLineTerminator(rest[0])
    ensures MarkComments(line + rest, marker) == MarkOneLine(line, marker) + MarkComments(rest, marker)
    decreases |line|
  {
    var u := line + rest;
    if line == [] {
      assert u == rest;
    } else {
      MarkPointInLine(line, rest);
      if MarkPoint(line).Some? {
        WholeLineMarked(line, rest, marker);
      } else {
        var marked, after := MarkOneLine(line[1..], marker), MarkComments(rest, marker);
        assert MarkComments(u, marker) == [line[0]] + MarkComments(line[1..] + rest, marker) by {
          MarkSkip(u, marker);
          DropHead(line, rest);
        }
        assert MarkComments(line[1..] + rest, marker) == marked + after by {
          MarkLine(line[1..], rest, marker);
        }
        assert MarkOneLine(line, marker) == [line[0]] + marked by {
          OneLineCons(line, marker);
        }
        Regroup([line[0]], marked, after, []);
      }
    }
  }

  /**
   * An inline comment gets its marker: on a line whose code holds no `;`, `{` or `}` before a
   * run of them, blanks and an opener, the marker goes right after that opener.
   */
  lemma MarkedInlineComment(code: string, b: string, w: string, o: string, note: string, marker: string)
    requires forall i | 0 <= i < |code| :: !In(code[i], Brace) && !IsLineTerminator(code[i])
    requires b != [] && forall i | 0 <= i < |b| :: In(b[i], Brace)
    requires forall i | 0 <= i < |w| :: In(w[i], Blank)
    requires o == "//" || o == "/*"
    requires forall i | 0 <= i < |note| :: !IsLineTerminator(note[i])
    ensures MarkComments(code + b + w + o + note, marker) == code + b + w + o + marker + note
  {
    var line := code + b + w + o + note;
    var k := |code| + |b| + |w| + 2;
    assert MarkComments(line, marker) == MarkOneLine(line, marker) by {
      InlineCommentLine(code, b, w, o, note);
      MarkLine(line, [], marker);
      assert line + [] == line;
    }
    InlineFirstMarkPoint(code, b, w, o, note);
    assert line[..k] == code + b + w + o && line[k..] == note by {
      SplitAfter(code + b + w + o, note);
    }
  }

  /** The first mark point of such a line is just after the opener of its comment. */
  lemma InlineFirstMarkPoint(code: string, b: string, w: string, o: string, note: string)
    requires forall i | 0 <= i < |code| :: !In(code[i], Brace)
    requires b != [] && forall i | 0 <= i < |b| :: In(b[i], Brace)
    requires forall i | 0 <= i < |w| :: In(w[i], Blank)
    requires o == "//" || o == "/*"
    ensures FirstMarkPoint(code + b + w + o + note) == Some(|code| + |b| + |w| + 2)
  {
    MarkPointAt(b, w, o, note);
    FirstMarkPointAfter(code, b + w + o + note, |b| + |w| + 2);
    AfterPrefix(code, b, w, o, note);
  }

  lemma AfterPrefix<T>(a: seq<T>, b: seq<T>, c: seq<T>, d: seq<T>, e: seq<T>)
    ensures a + b + c + d + e == a + (b + c + d + e)
  {
  }

  lemma SplitAfter<T>(x: seq<T>, y: seq<T>)
    ensures (x + y)[..|x|] == x && (x + y)[|x|..] == y
  {
  }

  /** A line of code, a brace run, blanks, an opener and a comment holds no line terminator. */
  lemma InlineCommentLine(code: string, b: string, w: string, o: string, note: string)
    requires forall i | 0 <= i < |code| :: !IsLineTerminator(code[i])
    requires forall i | 0 <= i < |b| :: In(b[i], Brace)
    requires forall i | 0 <= i < |w| :: In(w[i], Blank)
    requires o == "//" || o == "/*"
    requires forall i | 0 <= i < |note| :: !IsLineTerminator(note[i])
    ensures forall i | 0 <= i < |code + b + w + o + note| :: !IsLineTerminator((code + b + w + o + note)[i])
  {
    var line := code + b + w + o + note;
    var tail := b + w + o + note;
    assert line == code + tail;
    forall i | 0 <= i < |line| ensures !IsLineTerminator(line[i]) {
      if i >= |code| {
        var t := i - |code|;
        assert line[i] == tail[t];
        if t >= |b| + |w| + |o| {
          assert tail[t] == note[t - |b| - |w| - |o|];
        }
      }
    }
  }

  /** No mark point starts in code without `;`, `{` or `}`, whatever follows it. */
  lemma NoMarkPointIn(code: string, tail: string)
    requires forall i | 0 <= i < |code| :: !In(code[i], Brace)
    ensures NoMatchBefore(MarkPoint, code + tail, |code|)
  {
    forall i | 0 <= i < |code| ensures MarkPoint((code + tail)[i..]).None? {
      assert (code + tail)[i..][0] == code[i];
    }
  }

  /** After code without `;`, `{` or `}`, the first mark point is the one of what follows. */
  lemma FirstMarkPointAfter(code: string, tail: string, v: nat)
    requires forall i | 0 <= i < |code| :: !In(code[i], Brace)
    requires tail != [] && MarkPoint(tail) == Some(v)
    ensures FirstMarkPoint(code + tail) == Some(|code| + v)
  {
    NoMarkPointIn(code, tail);
    assert (code + tail)[|code|..] == tail;
    FirstMarkPointAt(code + tail, |code|, v);
  }

  /** The marking step on a line with an inline comment after a semicolon. */
  lemma InlineCommentMarked(code: string, w: string, note: string)
    requires forall i | 0 <= i < |code| :: !In(code[i], Brace) && !IsLineTerminator(code[i])
    requires forall i | 0 <= i < |w| :: In(w[i], Blank)
    requires forall i | 0 <= i < |note| :: !IsLineTerminator(note[i])
    ensures MarkInlineComments(code + ";" + w + "//" + note) == code + ";" + w + "//" + Sentinel + note
  {
    MarkedInlineComment(code, ";", w, "//", note, Sentinel);
  }

  /**
   * Where the restoring pattern `(\s+)(\/\/|\/\*)(marker)(.*)` matches at the start of `s`:
   * whitespace (newlines included), an opener, then the marker.
   */
  predicate RestoresAt(s: string, marker: string) {
    var w := Span(s, Whitespace);
    0 < w && OpensAt(s, w) && OccursAt(s, marker, w + 2)
  }

  /**
   * The restoring pass, a global replace scanning left to right: a match becomes a space, the
   * opener and the rest of its line, without the whitespace before it and without the
   * marker; the scan resumes at the end of that line.
   */
  function RestoreComments(s: string, marker: string): (r: string)
    decreases |s|
  {
    if s == [] then []
    else if RestoresAt(s, marker) then
      Rejoined(s, marker) + RestoreComments(s[NoteEnd(s, marker)..], marker)
    else [s[0]] + RestoreComments(s[1..], marker)
  }

  /** Where a match of the restoring pattern ends: the end of the comment's line. */
  function NoteEnd(s: string, marker: string): (e: nat)
    requires RestoresAt(s, marker)
    ensures Span(s, Whitespace) + 2 + |marker| <= e <= |s|
  {
    var start := Span(s, Whitespace) + 2 + |marker|;
    start + Span(s[start..], NonTerminator)
  }

  /** The replacement of a match: a space, the opener and the comment text after the marker. */
  function Rejoined(s: string, marker: string): (r: string)
    requires RestoresAt(s, marker)
  {
    var w := Span(s, Whitespace);
    " " + s[w..w + 2] + s[w + 2 + |marker|..NoteEnd(s, marker)]
  }

  /** The two string-pattern replaces of leftover markers after an opener: only the first of
      each kind goes. */
  function CleanUpLeftovers(s: string, marker: string): (r: string)
    ensures !Contains(s, marker) ==> r == s
  {
    MarkersHoldMarker(s, marker);
    ReplaceFirst(ReplaceFirst(s, "//" + marker, "//"), "/*" + marker, "/*")
  }

  /** The restoring step applied to the converter's output. */
  function RestoreInlineComments(s: string): (r: string)
    ensures !Contains(s, Sentinel) ==> r == s
  {
    RestoreIdentity(s, Sentinel);
    CleanUpLeftovers(RestoreComments(s, Sentinel), Sentinel)
  }

  lemma MarkersHoldMarker(s: string, marker: string)
    ensures !Contains(s, marker) ==> !Contains(s, "//" + marker) && !Contains(s, "/*" + marker)
  {
    if Contains(s, "//" + marker) {
      ContainsSuffixPattern(s, "//", marker);
    }
    if Contains(s, "/*" + marker) {
      ContainsSuffixPattern(s, "/*", marker);
    }
  }

  lemma {:induction false} RestoreIdentity(s: string, marker: string)
    ensures !Contains(s, marker) ==> RestoreComments(s, marker) == s
    decreases |s|
  {
    if s != [] && !Contains(s, marker) {
      var w := Span(s, Whitespace);
      assert !OccursAt(s, marker, w + 2);
      ContainsTail(s, marker);
      RestoreIdentity(s[1..], marker);
    }
  }

  /** No match starts inside text without a marker whose last character is no whitespace. */
  lemma NoRestoreIn(a: string, b: string, marker: string)
    requires MarkerShape(marker)
    requires a != [] && !Contains(a, marker) && !IsWhitespace(a[|a| - 1])
    requires b != [] && IsWhitespace(b[0])
    ensures !RestoresAt(a + b, marker)
  {
    var u := a + b;
    var w := Span(u, Whitespace);
    if 0 < w {
      assert u[|a| - 1] == a[|a| - 1];
      SpanBound(u, Whitespace, |a| - 1);
      if w + 1 == |a| {
        assert u[w + 1] == b[0];
      } else {
        var p := w + 2;
        assert !OccursAt(a, marker, p);
        if p + |marker| <= |a| {
          assert u[p..p + |marker|] == a[p..p + |marker|];
        } else if p + |marker| <= |u| {
          assert p <= |a| && u[|a|] == b[0];
          assert MarkerChar(marker[|a| - p]);
          assert u[p..p + |marker|][|a| - p] == u[|a|];
        }
      }
    }
  }

  /** One step of the restoring scan where no match starts. */
  lemma RestoreNoMatch(s: string, marker: string)
    requires s != [] && !RestoresAt(s, marker)
    ensures RestoreComments(s, marker) == [s[0]] + RestoreComments(s[1..], marker)
  {
  }

  /** Text without a marker, not ending in whitespace, passes through the restoring scan. */
  lemma {:induction false} RestoreSkip(a: string, b: string, marker: string)
    requires MarkerShape(marker)
    requires !Contains(a, marker) && (a == [] || !IsWhitespace(a[|a| - 1]))
    requires b != [] && IsWhitespace(b[0])
    ensures RestoreComments(a + b, marker) == a + RestoreComments(b, marker)
    decreases |a|
  {
    if a == [] {
      assert a + b == b;
    } else {
      NoRestoreIn(a, b, marker);
      RestoreNoMatch(a + b, marker);
      DropHead(a, b);
      ContainsTail(a, marker);
      RestoreSkip(a[1..], b, marker);
      DropHead(a, RestoreComments(b, marker));
    }
  }

  /** The parts of a text made of four pieces. */
  lemma FourParts(u: string, a: string, b: string, c: string, d: string)
    requires u == a + b + c + d
    ensures u[|a|..] == b + c + d && u[|a|..|a| + |b|] == b
    ensures u[|a| + |b|..|a| + |b| + |c|] == c && u[|a| + |b| + |c|..] == d
  {
    assert u == a + (b + c + d);
    assert u[|a|..] == b + c + d;
    assert b + c + d == b + (c + d);
  }

  /** Whitespace, an opener and the marker: the restoring pattern matches. */
  lemma MovedCommentMatches(ws: string, opener: string, marker: string, note: string)
    requires ws != [] && forall i | 0 <= i < |ws| :: IsWhitespace(ws[i])
    requires opener == "//" || opener == "/*"
    ensures Span(ws + opener + marker + note, Whitespace) == |ws|
    ensures RestoresAt(ws + opener + marker + note, marker)
  {
    var u := ws + opener + marker + note;
    var w := |ws|;
    FourParts(u, ws, opener, marker, note);
    assert u == ws + (opener + marker + note);
    assert u[w] == opener[0] && u[w + 1] == opener[1];
    SpanAll(ws, Whitespace);
    SpanAppend(ws, opener + marker + note, Whitespace);
  }

  /** The match runs to the end of a comment text without line terminators. */
  lemma MovedCommentNote(ws: string, opener: string, marker: string, note: string)
    requires forall i | 0 <= i < |note| :: !IsLineTerminator(note[i])
    requires Span(ws + opener + marker + note, Whitespace) == |ws| && |opener| == 2
    requires RestoresAt(ws + opener + marker + note, marker)
    ensures NoteEnd(ws + opener + marker + note, marker) == |ws + opener + marker + note|
    ensures Rejoined(ws + opener + marker + note, marker) == " " + opener + note
  {
    var u := ws + opener + marker + note;
    FourParts(u, ws, opener, marker, note);
    SpanAll(note, NonTerminator);
  }

  /** A match that runs to the end of the text is its whole restoration. */
  lemma LastMatch(s: string, marker: string)
    requires s != [] && RestoresAt(s, marker) && NoteEnd(s, marker) == |s|
    ensures RestoreComments(s, marker) == Rejoined(s, marker)
  {
    assert s[|s|..] == [];
  }

  /** A marked comment after whitespace becomes a space, the opener and the comment text. */
  lemma RestoredLine(ws: string, opener: string, marker: string, note: string)
    requires ws != [] && forall i | 0 <= i < |ws| :: IsWhitespace(ws[i])
    requires opener == "//" || opener == "/*"
    requires forall i | 0 <= i < |note| :: !IsLineTerminator(note[i])
    ensures RestoreComments(ws + opener + marker + note, marker) == " " + opener + note
  {
    MovedCommentMatches(ws, opener, marker, note);
    MovedCommentNote(ws, opener, marker, note);
    LastMatch(ws + opener + marker + note, marker);
  }

  /** Text made of parts without a marker, joined by characters no marker holds, holds none. */
  lemma JoinedWithoutMarker(a: string, opener: string, note: string, marker: string)
    requires MarkerShape(marker) && !Contains(a, marker) && !Contains(note, marker)
    requires opener == "//" || opener == "/*"
    ensures !Contains(a + (" " + opener + note), marker)
  {
    assert ' ' !in marker && opener[0] !in marker && opener[1] !in marker by {
      forall j | 0 <= j < |marker| ensures marker[j] != ' ' && marker[j] != '/' && marker[j] != '*' {
        assert MarkerChar(marker[j]);
      }
    }
    assert !Contains([], marker);
    NoMarkerAround([], opener[1], note, marker);
    assert [] + [opener[1]] + note == [opener[1]] + note;
    NoMarkerAround([], opener[0], [opener[1]] + note, marker);
    assert [] + [opener[0]] + ([opener[1]] + note) == opener + note;
    NoMarkerAround(a, ' ', opener + note, marker);
    assert a + [' '] + (opener + note) == a + (" " + opener + note);
  }

  lemma NoMarkerAround(x: string, c: char, y: string, marker: string)
    requires c !in marker && !Contains(x, marker) && !Contains(y, marker)
    ensures !Contains(x + [c] + y, marker)
  {
    if Contains(x + [c] + y, marker) {
      ContainsAround(x, c, y, marker);
    }
  }

  /**
   * A comment that the converter moved onto a line of its own is joined back: the whitespace
   * before its opener, line breaks included, becomes one space and the marker goes.
   */
  lemma RestoreRejoin(a: string, ws: string, opener: string, marker: string, note: string)
    requires MarkerShape(marker)
    requires !Contains(a, marker) && (a == [] || !IsWhitespace(a[|a| - 1]))
    requires ws != [] && forall i | 0 <= i < |ws| :: IsWhitespace(ws[i])
    requires opener == "//" || opener == "/*"
    requires forall i | 0 <= i < |note| :: !IsLineTerminator(note[i])
    requires !Contains(note, marker)
    ensures CleanUpLeftovers(RestoreComments(a + (ws + opener + marker + note), marker), marker)
         == a + (" " + opener + note)
  {
    var b := ws + opener + marker + note;
    RestoreSkip(a, b, marker);
    RestoredLine(ws, opener, marker, note);
    JoinedWithoutMarker(a, opener, note, marker);
  }

  /** The restoring step joins a moved comment back to the line it was written on. */
  lemma SentinelRejoin(a: string, ws: string, opener: string, note: string)
    requires !Contains(a, Sentinel) && (a == [] || !IsWhitespace(a[|a| - 1]))
    requires ws != [] && forall i | 0 <= i < |ws| :: IsWhitespace(ws[i])
    requires opener == "//" || opener == "/*"
    requires forall i | 0 <= i < |note| :: !IsLineTerminator(note[i])
    requires !Contains(note, Sentinel)
    ensures RestoreInlineComments(a + (ws + opener + Sentinel + note)) == a + (" " + opener + note)
  {
    SentinelShape();
    RestoreRejoin(a, ws, opener, Sentinel, note);
  }

  /**
   * Leftover markers are cleaned by string-pattern replaces, so only the first `//` marker
   * loses its marker; a later one is kept.
   */
  lemma LeftoverLineMarkerOnce(x: string, y: string, marker: string)
    requires forall i | 0 <= i < |x| :: !OccursAt(x + ("//" + marker) + y, "//" + marker, i)
    requires !Contains(x + "//" + y, "/*" + marker)
    ensures CleanUpLeftovers(x + ("//" + marker) + y, marker) == x + "//" + y
    ensures Contains(y, "//" + marker) ==>
      Contains(CleanUpLeftovers(x + ("//" + marker) + y, marker), "//" + marker)
  {
    var p := "//" + marker;
    ReplaceFirstOf(x, p, y, "//");
    if Contains(y, p) {
      ContainsInfix(x + "//", y, [], p);
      assert x + "//" + y + [] == x + "//" + y;
    }
  }

  /**
   * The same holds for block comments: once no line-comment marker is left, only the first
   * block-comment opener followed by the marker loses the marker; a later one is kept.
   */
  lemma LeftoverBlockMarkerOnce(x: string, y: string, marker: string)
    requires !Contains(x + ("/*" + marker) + y, "//" + marker)
    requires forall i | 0 <= i < |x| :: !OccursAt(x + ("/*" + marker) + y, "/*" + marker, i)
    ensures CleanUpLeftovers(x + ("/*" + marker) + y, marker) == x + "/*" + y
    ensures Contains(y, "/*" + marker) ==>
      Contains(CleanUpLeftovers(x + ("/*" + marker) + y, marker), "/*" + marker)
  {
    var p := "/*" + marker;
    ReplaceFirstOf(x, p, y, "/*");
    if Contains(y, p) {
      ContainsInfix(x + "/*", y, [], p);
      assert x + "/*" + y + [] == x + "/*" + y;
    }
  }
}
