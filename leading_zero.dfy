/**
 * The rewrite applied when `numberLeadingZero` is off: `/( 0\.)(\d)+/g` replaced by `" .$2"`.
 * The group `(\d)` is repeated, so `$2` holds only its last repetition: the whole digit run
 * is consumed but only its last digit is written back.
 */
module LeadingZero {
  import opened Text

  /** Where the pattern can start: a space, `0`, `.`, and at least one digit. */
  predicate LeadingZeroAt(s: string) {
    4 <= |s| && s[0] == ' ' && s[1] == '0' && s[2] == '.' && IsDigit(s[3])
  }

  /** No position of `s` starts a space, `0.` and a digit. */
  predicate NoLeadingZero(s: string)
    decreases |s|
  {
    !LeadingZeroAt(s) && (s == [] || NoLeadingZero(s[1..]))
  }

  /** The length of the digit run after ` 0.` at the start of `s`. */
  function DigitRun(s: string): (n: nat)
    requires LeadingZeroAt(s)
    ensures 1 <= n <= |s| - 3
    ensures forall i | 3 <= i < 3 + n :: IsDigit(s[i])
    ensures 3 + n < |s| ==> !IsDigit(s[3 + n])
  {
    var n := Span(s[3..], Digit);
    assert forall i | 3 <= i < 3 + n :: IsDigit(s[i]) by {
      forall i | 3 <= i < 3 + n {
        SpanPrefix(s[3..], Digit, i - 3);
      }
    }
    n
  }

  /**
   * `s.replace(/( 0\.)(\d)+/g, " .$2")`: scanned from the left, each match is a space, `0.`
   * and a maximal digit run, and becomes a space, `.` and the last digit of that run.
   */
  function StripLeadingZeros(s: string): (r: string)
    ensures |r| <= |s|
    ensures s != [] ==> r != [] && r[0] == s[0]
    decreases |s|
  {
    if LeadingZeroAt(s) then
      var n := DigitRun(s);
      " ." + [s[3 + n - 1]] + StripLeadingZeros(s[3 + n..])
    else if s == [] then []
    else [s[0]] + StripLeadingZeros(s[1..])
  }

  /** Where nothing matches, the first character is copied and the scan moves on by one. */
  lemma StripUnmatched(s: string)
    requires s != [] && s[0] != ' '
    ensures StripLeadingZeros(s) == [s[0]] + StripLeadingZeros(s[1..])
  {
  }

  /** A character that does not start a match cannot start one in the output either. */
  lemma NoNewMatchAtFront(s: string)
    requires s != [] && !LeadingZeroAt(s)
    ensures !LeadingZeroAt([s[0]] + StripLeadingZeros(s[1..]))
  {
    var r := StripLeadingZeros(s[1..]);
    if s[0] == ' ' && |r| >= 3 && r[0] == '0' && r[1] == '.' {
      StripUnmatched(s[1..]);
      var r2 := StripLeadingZeros(s[2..]);
      assert r == [s[1]] + r2;
      StripUnmatched(s[2..]);
      assert r2 == [s[2]] + StripLeadingZeros(s[3..]);
      assert r[2] == s[3];
    }
  }

  /** Prepending a character that starts no match keeps the text free of matches. */
  lemma NoLeadingZeroCons(c: char, t: string)
    requires NoLeadingZero(t) && !LeadingZeroAt([c] + t)
    ensures NoLeadingZero([c] + t)
  {
    assert ([c] + t)[1..] == t;
  }

  /** A run of digits starts no match, so it keeps a text without matches free of them. */
  lemma {:induction false} NoLeadingZeroDigits(ds: string, t: string)
    requires forall i | 0 <= i < |ds| :: IsDigit(ds[i])
    requires NoLeadingZero(t)
    ensures NoLeadingZero(ds + t)
    decreases |ds|
  {
    if ds == [] {
      assert ds + t == t;
    } else {
      NoLeadingZeroDigits(ds[1..], t);
      assert ds + t == [ds[0]] + (ds[1..] + t);
      NoLeadingZeroCons(ds[0], ds[1..] + t);
    }
  }

  /** Afterwards no space, `0.` and digit remains anywhere: the rewrite finds every match. */
  lemma {:induction false} NoLeadingZeroRemains(s: string)
    ensures NoLeadingZero(StripLeadingZeros(s))
    decreases |s|
  {
    if LeadingZeroAt(s) {
      var n := DigitRun(s);
      var rest := StripLeadingZeros(s[3 + n..]);
      NoLeadingZeroRemains(s[3 + n..]);
      NoLeadingZeroDigits([s[3 + n - 1]], rest);
      NoLeadingZeroCons('.', [s[3 + n - 1]] + rest);
      assert " ." + [s[3 + n - 1]] + rest == [' '] + (['.'] + ([s[3 + n - 1]] + rest));
      NoLeadingZeroCons(' ', ['.'] + ([s[3 + n - 1]] + rest));
    } else if s != [] {
      NoLeadingZeroRemains(s[1..]);
      NoNewMatchAtFront(s);
      NoLeadingZeroCons(s[0], StripLeadingZeros(s[1..]));
    }
  }

  /** A text without a match is left as it is; in particular a `0.` not preceded by a space. */
  lemma {:induction false} StripIdentity(s: string)
    requires NoLeadingZero(s)
    ensures StripLeadingZeros(s) == s
    decreases |s|
  {
    if s != [] {
      StripIdentity(s[1..]);
    }
  }

  /** Running the rewrite twice gives what running it once gives. */
  lemma StripIdempotent(s: string)
    ensures StripLeadingZeros(StripLeadingZeros(s)) == StripLeadingZeros(s)
  {
    NoLeadingZeroRemains(s);
    StripIdentity(StripLeadingZeros(s));
  }

  /** A space, `0.` and a maximal digit run become a space, `.` and the run's last digit;
      the rest of the text is rewritten independently. */
  lemma LastDigitKept(ds: string, rest: string)
    requires ds != [] && forall i | 0 <= i < |ds| :: IsDigit(ds[i])
    requires rest == [] || !IsDigit(rest[0])
    ensures StripLeadingZeros(" 0." + ds + rest) == " ." + [ds[|ds| - 1]] + StripLeadingZeros(rest)
  {
    var s := " 0." + ds + rest;
    MiddleOf(" 0.", ds, rest);
    assert LeadingZeroAt(s);
    assert DigitRun(s) == |ds| by {
      SpanAll(ds, Digit);
      SpanAppend(ds, rest, Digit);
    }
  }

  /** Where the middle part of a concatenation sits. */
  lemma MiddleOf<T>(p: seq<T>, x: seq<T>, y: seq<T>)
    requires x != []
    ensures (p + x + y)[|p|..] == x + y && (p + x + y)[|p| + |x|..] == y
    ensures (p + x + y)[|p|] == x[0] && (p + x + y)[|p| + |x| - 1] == x[|x| - 1]
  {
  }

  /** ` 0.5em` becomes ` .5em`, and ` 0.25` becomes ` .5`: the digits before the last are lost. */
  lemma LeadingZeroExamples()
    ensures StripLeadingZeros(" 0.5em") == " .5em"
    ensures StripLeadingZeros(" 0.25") == " .5"
  {
    LeadingZeroDropped();
    EarlierDigitsLost();
  }

  lemma LeadingZeroDropped()
    ensures StripLeadingZeros(" 0.5em") == " .5em"
  {
    LastDigitKept("5", "em");
    assert " 0.5em" == " 0." + "5" + "em";
    assert NoLeadingZero("em");
    StripIdentity("em");
  }

  lemma EarlierDigitsLost()
    ensures StripLeadingZeros(" 0.25") == " .5"
  {
    LastDigitKept("25", "");
    assert " 0.25" == " 0." + "25" + "";
  }
}
