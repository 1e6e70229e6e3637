/**
 * The duration probe: the encoder's diagnostic text is searched for the first
 * place where `Duration: (\d+):(\d+):(\d+\.\d+)` matches, and the captured
 * hours, minutes and seconds give the length of the video in seconds (0 when
 * nothing matches). Seconds are kept as an exact real number.
 *
 * At a given position the pattern can match in only one way: every `\d+`
 * is followed by a non-digit (':' or '.') or is the last group, so each group
 * is the longest run of digits at its place. `MatchAt` reads the pattern in
 * that deterministic form.
 */
module DurationProbe {
  import opened Wrappers
  import opened Numerals

  const Label: string := "Duration: "

  /** `t` begins with the characters of `p`, compared one at a time. */
  predicate StartsWith(t: string, p: string) {
    p == [] || (t != [] && t[0] == p[0] && StartsWith(t[1..], p[1..]))
  }

  lemma {:induction false} StartsWithMeaning(t: string, p: string)
    ensures StartsWith(t, p) <==> |t| >= |p| && t[..|p|] == p
  {
    if p != [] && t != [] {
      StartsWithMeaning(t[1..], p[1..]);
      if |t| >= |p| {
        assert t[..|p|] == [t[0]] + t[1..][..|p| - 1];
        assert p == [p[0]] + p[1..];
      }
    }
  }

  /** The length of the run of digits at the front of `t`. */
  function DigitRun(t: string): (n: nat)
    ensures n <= |t|
    ensures forall k :: 0 <= k < n ==> IsDigit(t[k])
    ensures n == |t| || !IsDigit(t[n])
  {
    if t != [] && IsDigit(t[0]) then 1 + DigitRun(t[1..]) else 0
  }

  /**
   * `(\d+)` followed by `sep` at the front of `t`: the digits, and what follows
   * the separator.
   */
  function Field(t: string, sep: char): (r: Option<(string, string)>)
    ensures r.Some? ==> |r.value.0| > 0 && AllDigits(r.value.0) && t == r.value.0 + [sep] + r.value.1
  {
    var n := DigitRun(t);
    if n == 0 || n == |t| || t[n] != sep then None
    else
      assert t == t[..n] + [sep] + t[n + 1..];
      Some((t[..n], t[n + 1..]))
  }

  /** `h * 3600 + m * 60 + s` for the captured digit strings, the seconds being `s.frac`. */
  function Seconds(h: string, m: string, s: string, frac: string): (secs: real)
    requires AllDigits(h) && AllDigits(m) && AllDigits(s) && AllDigits(frac)
    ensures secs >= 0.0
  {
    (DigitsValue(h) * 3600 + DigitsValue(m) * 60 + DigitsValue(s)) as real
      + DigitsValue(frac) as real / Pow10(|frac|) as real
  }

  /**
   * The groups the pattern captures when it matches at the very front of `t`
   * (hours, minutes, seconds, fraction) and the text after the match: digit
   * runs, the last one not followed by another digit.
   */
  function Groups(t: string): (r: Option<(string, string, string, string, string)>)
    ensures r.Some? ==> |t| >= |Label| && StartsWith(t, Label)
    ensures r.Some? ==> HeaderParts(r.value.0, r.value.1, r.value.2, r.value.3, r.value.4)
  {
    if |t| < |Label| || !StartsWith(t, Label) then None else FieldGroups(t[|Label|..])
  }

  /** `(\d+):(\d+):(\d+)\.(\d+)` at the front of `t`: the four groups and the text after them. */
  function FieldGroups(t: string): (r: Option<(string, string, string, string, string)>)
    ensures r.Some? ==> HeaderParts(r.value.0, r.value.1, r.value.2, r.value.3, r.value.4)
  {
    var hours := Field(t, ':');
    if hours.None? then None
    else
      var minutes := Field(hours.value.1, ':');
      if minutes.None? then None
      else
        var seconds := Field(minutes.value.1, '.');
        if seconds.None? then None
        else
          var t3 := seconds.value.1;
          var n := DigitRun(t3);
          if n == 0 then None
          else Some((hours.value.0, minutes.value.0, seconds.value.0, t3[..n], t3[n..]))
  }

  /**
   * The value the pattern captures when it matches at the very front of `t`,
   * in seconds; a duration is never negative.
   */
  function MatchFront(t: string): (r: Option<real>)
    ensures r.Some? ==> r.value >= 0.0
  {
    var g := Groups(t);
    if g.None? then None else Some(Seconds(g.value.0, g.value.1, g.value.2, g.value.3))
  }

  /** The value the pattern captures when it matches at position `i`. */
  function MatchAt(text: string, i: nat): Option<real> {
    if i <= |text| then MatchFront(text[i..]) else None
  }

  /** The leftmost position at or after `i` where the pattern matches, with its value. */
  function FirstMatch(text: string, i: nat): (r: Option<(nat, real)>)
    ensures r.Some? ==> i <= r.value.0 <= |text| && MatchAt(text, r.value.0) == Some(r.value.1)
    ensures r.Some? ==> forall q :: i <= q < r.value.0 ==> MatchAt(text, q).None?
    ensures r.None? ==> forall q :: i <= q ==> MatchAt(text, q).None?
  {
    FirstSome(Attempts(text), i)
  }

  /** The outcome of trying the pattern at each position of `text`, left to right. */
  function Attempts(text: string): (ms: seq<Option<real>>)
    ensures |ms| == |text| + 1
    ensures forall q :: 0 <= q <= |text| ==> ms[q] == MatchAt(text, q)
  {
    seq(|text| + 1, q requires 0 <= q <= |text| => MatchFront(text[q..]))
  }

  /** The first successful attempt at or after `i`, with its position. */
  function FirstSome(ms: seq<Option<real>>, i: nat): (r: Option<(nat, real)>)
    ensures r.Some? ==> i <= r.value.0 < |ms| && ms[r.value.0] == Some(r.value.1)
    ensures r.Some? ==> forall q :: i <= q < r.value.0 ==> ms[q].None?
    ensures r.None? ==> forall q :: i <= q < |ms| ==> ms[q].None?
    decreases |ms| - i
  {
    if i >= |ms| then None
    else if ms[i].Some? then Some((i, ms[i].value))
    else FirstSome(ms, i + 1)
  }

  /** The probed length in seconds: the first match's value, or 0 without a match. */
  function ProbeSeconds(stderr: string): (secs: real)
    ensures secs >= 0.0
  {
    match FirstMatch(stderr, 0)
    case Some((_, v)) => v
    case None => 0.0
  }

  /** The pattern cannot match at a position that does not hold a 'D'. */
  lemma NoMatchWithoutD(text: string, q: nat)
    requires q < |text| ==> text[q] != 'D'
    ensures MatchAt(text, q).None?
  {
    if q < |text| {
      var t := text[q..];
      assert t[0] == text[q];
      assert Label[0] == 'D';
    }
  }

  /** The probe returns the value of the leftmost match. */
  lemma ProbeIsFirstMatch(text: string, p: nat)
    requires MatchAt(text, p).Some?
    requires forall q :: 0 <= q < p ==> MatchAt(text, q).None?
    ensures ProbeSeconds(text) == MatchAt(text, p).value
  {
    var r := FirstMatch(text, 0);
    assert r.Some?;
  }

  /** Without any match the probe returns 0. */
  lemma ProbeWithoutMatch(text: string)
    requires forall q :: 0 <= q <= |text| ==> MatchAt(text, q).None?
    ensures ProbeSeconds(text) == 0.0
  {
    var r := FirstMatch(text, 0);
  }

  /** The digit run at the front of `d + rest` is `d` when `rest` starts with a non-digit. */
  lemma {:induction false} DigitRunOf(d: string, rest: string)
    requires AllDigits(d)
    requires rest == [] || !IsDigit(rest[0])
    ensures DigitRun(d + rest) == |d|
  {
    if d != [] {
      assert (d + rest)[1..] == d[1..] + rest;
      DigitRunOf(d[1..], rest);
    }
  }

  /** A nonempty digit string, a separator and the rest read back as that field. */
  lemma FieldOf(d: string, sep: char, rest: string)
    requires |d| > 0 && AllDigits(d) && !IsDigit(sep)
    ensures Field(d + [sep] + rest, sep) == Some((d, rest))
  {
    var t := d + [sep] + rest;
    assert t == d + ([sep] + rest);
    DigitRunOf(d, [sep] + rest);
    assert t[..|d|] == d && t[|d| + 1..] == rest;
  }

  /** The text a video of `h` hours, `m` minutes and `s.frac` seconds shows in its header. */
  function Header(h: string, m: string, s: string, frac: string): string {
    Label + h + ":" + m + ":" + s + "." + frac
  }

  /**
   * A duration header at the front of the text, not followed by another
   * digit, matches and gives back `h * 3600 + m * 60 + s.frac`.
   */
  lemma MatchFrontHeader(h: string, m: string, s: string, frac: string, rest: string)
    requires |h| > 0 && |m| > 0 && |s| > 0 && |frac| > 0
    requires AllDigits(h) && AllDigits(m) && AllDigits(s) && AllDigits(frac)
    requires rest == [] || !IsDigit(rest[0])
    ensures MatchFront(Header(h, m, s, frac) + rest) == Some(Seconds(h, m, s, frac))
  {
    var t0 := h + [':'] + (m + [':'] + (s + ['.'] + (frac + rest)));
    var t := Header(h, m, s, frac) + rest;
    HeaderConcat(h, m, s, frac, rest);
    assert t[..|Label|] == Label && t[|Label|..] == t0;
    StartsWithMeaning(t, Label);
    FieldGroupsOf(h, m, s, frac, rest);
  }

  /** The four groups and their separators read back as those groups. */
  lemma FieldGroupsOf(h: string, m: string, s: string, frac: string, rest: string)
    requires HeaderParts(h, m, s, frac, rest)
    ensures FieldGroups(h + [':'] + (m + [':'] + (s + ['.'] + (frac + rest)))) == Some((h, m, s, frac, rest))
  {
    var t3 := frac + rest;
    var t2 := s + ['.'] + t3;
    var t1 := m + [':'] + t2;
    FieldOf(h, ':', t1);
    FieldOf(m, ':', t2);
    FieldOf(s, '.', t3);
    DigitRunOf(frac, rest);
    assert t3[..|frac|] == frac && t3[|frac|..] == rest;
  }

  /**
   * A duration header matches where it stands, whatever precedes it, and gives
   * back `h * 3600 + m * 60 + s.frac`.
   */
  lemma MatchHeader(pre: string, h: string, m: string, s: string, frac: string, rest: string)
    requires |h| > 0 && |m| > 0 && |s| > 0 && |frac| > 0
    requires AllDigits(h) && AllDigits(m) && AllDigits(s) && AllDigits(frac)
    requires rest == [] || !IsDigit(rest[0])
    ensures MatchAt(pre + Header(h, m, s, frac) + rest, |pre|) == Some(Seconds(h, m, s, frac))
  {
    var text := pre + Header(h, m, s, frac) + rest;
    assert text[|pre|..] == Header(h, m, s, frac) + rest;
    MatchFrontHeader(h, m, s, frac, rest);
  }

  /**
   * With no 'D' in the text before it, a duration header is the first match,
   * so the probe returns its value.
   */
  lemma ProbeHeader(pre: string, h: string, m: string, s: string, frac: string, rest: string)
    requires |h| > 0 && |m| > 0 && |s| > 0 && |frac| > 0
    requires AllDigits(h) && AllDigits(m) && AllDigits(s) && AllDigits(frac)
    requires rest == [] || !IsDigit(rest[0])
    requires forall k :: 0 <= k < |pre| ==> pre[k] != 'D'
    ensures ProbeSeconds(pre + Header(h, m, s, frac) + rest) == Seconds(h, m, s, frac)
  {
    var text := pre + Header(h, m, s, frac) + rest;
    MatchHeader(pre, h, m, s, frac, rest);
    forall q | 0 <= q < |pre| ensures MatchAt(text, q).None? {
      assert text[q] == pre[q];
      NoMatchWithoutD(text, q);
    }
    ProbeIsFirstMatch(text, |pre|);
  }

  /**
   * The header of a video of ninety and a half seconds reads as 90.5 seconds,
   * whatever follows it on the line (", start: 0.000000" in FFmpeg's output).
   */
  lemma NinetySecondHeader(rest: string)
    requires rest == [] || !IsDigit(rest[0])
    ensures ProbeSeconds("  Duration: 00:01:30.50" + rest) == 90.5
  {
    NinetySecondText();
    NinetySeconds("00", "01", "30", "50");
    ProbeHeader("  ", "00", "01", "30", "50", rest);
  }

  lemma NinetySecondText()
    ensures "  Duration: 00:01:30.50" == "  " + Header("00", "01", "30", "50")
  {
  }

  lemma NinetySeconds(zero: string, one: string, thirty: string, fifty: string)
    requires zero == "00" && one == "01" && thirty == "30" && fifty == "50"
    ensures Seconds(zero, one, thirty, fifty) == 90.5
  {
    assert DigitsValue(fifty) == 50 by {
      assert fifty[..1] == "5" && fifty[1] == '0';
      assert DigitsValue("5") == 5 by { assert "5"[..0] == ""; }
    }
    assert Pow10(|fifty|) == 100;
    assert DigitsValue(thirty) == 30 by {
      assert thirty[..1] == "3" && thirty[1] == '0';
      assert DigitsValue("3") == 3 by { assert "3"[..0] == ""; }
    }
    assert DigitsValue(one) == 1 by {
      assert one[..1] == "0" && one[1] == '1';
      assert DigitsValue("0") == 0 by { assert "0"[..0] == ""; }
    }
    assert DigitsValue(zero) == 0 by {
      assert zero[..1] == "0" && zero[1] == '0';
      assert DigitsValue("0") == 0 by { assert "0"[..0] == ""; }
    }
  }

  /** The shape of a header the pattern matches, and what may follow it. */
  predicate HeaderParts(h: string, m: string, s: string, frac: string, rest: string) {
    |h| > 0 && |m| > 0 && |s| > 0 && |frac| > 0 &&
    AllDigits(h) && AllDigits(m) && AllDigits(s) && AllDigits(frac) &&
    (rest == [] || !IsDigit(rest[0]))
  }

  /**
   * Conversely to `MatchFrontHeader`, the pattern matches at the front of a
   * text only where a well-formed header stands, and the value is that header's.
   */
  lemma MatchFrontIsHeader(t: string)
    requires MatchFront(t).Some?
    ensures exists h, m, s, frac, rest ::
      (HeaderParts(h, m, s, frac, rest) && t == Header(h, m, s, frac) + rest &&
       MatchFront(t).value == Seconds(h, m, s, frac))
  {
    var g := Groups(t).value;
    GroupsAreHeader(t);
    assert HeaderParts(g.0, g.1, g.2, g.3, g.4);
  }

  /** Where the pattern matches, the text is the header its groups make, then the rest. */
  lemma GroupsAreHeader(t: string)
    requires Groups(t).Some?
    ensures var g := Groups(t).value; t == Header(g.0, g.1, g.2, g.3) + g.4
  {
    var t0 := t[|Label|..];
    var g := Groups(t).value;
    FieldGroupsJoin(t0);
    assert t == Label + t0 by {
      StartsWithMeaning(t, Label);
      assert t == t[..|Label|] + t[|Label|..];
    }
    HeaderConcat(g.0, g.1, g.2, g.3, g.4);
  }

  /** Where the four groups match, the text is the groups and their separators. */
  lemma FieldGroupsJoin(t: string)
    requires FieldGroups(t).Some?
    ensures var g := FieldGroups(t).value; t == g.0 + [':'] + (g.1 + [':'] + (g.2 + ['.'] + (g.3 + g.4)))
  {
    var f0 := Field(t, ':').value;
    var f1 := Field(f0.1, ':').value;
    var f2 := Field(f1.1, '.').value;
    var n := DigitRun(f2.1);
    assert FieldGroups(t).value == (f0.0, f1.0, f2.0, f2.1[..n], f2.1[n..]);
    SplitAt(f2.1, n);
    Nest(t, f0.0, f0.1, f1.0, f1.1, f2.0, f2.1, f2.1[..n], f2.1[n..]);
  }

  lemma SplitAt(t: string, n: nat)
    requires n <= |t|
    ensures t == t[..n] + t[n..]
  {
  }

  /** The three separators of a header, nested to the right. */
  lemma Nest(t0: string, h: string, t1: string, m: string, t2: string, s: string, t3: string, frac: string, rest: string)
    requires t0 == h + [':'] + t1 && t1 == m + [':'] + t2 && t2 == s + ['.'] + t3 && t3 == frac + rest
    ensures t0 == h + [':'] + (m + [':'] + (s + ['.'] + (frac + rest)))
  {
  }

  lemma HeaderConcat(h: string, m: string, s: string, frac: string, rest: string)
    ensures Header(h, m, s, frac) + rest == Label + (h + [':'] + (m + [':'] + (s + ['.'] + (frac + rest))))
  {
  }

  /** Diagnostic text without any 'D' holds no duration, and the probe returns 0. */
  lemma NoDurationLine(text: string)
    requires forall k :: 0 <= k < |text| ==> text[k] != 'D'
    ensures ProbeSeconds(text) == 0.0
  {
    forall q | 0 <= q <= |text| ensures MatchAt(text, q).None? {
      NoMatchWithoutD(text, q);
    }
    ProbeWithoutMatch(text);
  }
}
