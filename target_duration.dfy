/**
 * The target-length field of the encode job ("H:M:S"): the text is split on
 * every ':' as Python's str.split does, exactly three fields are required, and
 * each field is read as Python's int() reads a string in base 10.
 */
module TargetDuration {
  import opened Wrappers
  import opened Numerals

  /**
   * The characters int() strips from both ends of its argument. Below 0x80
   * these are only tab, line feed, vertical tab, form feed, carriage return
   * and space: the separators 0x1C..0x1F, although whitespace to
   * str.isspace(), are kept and make int() fail. Above 0x80 every Unicode
   * whitespace character is first turned into a space, so all of them are
   * stripped.
   */
  predicate IsSpace(c: char) {
    InRanges(c as int, SpaceRanges)
  }

  /** The code-point ranges, both ends included, of the characters int() strips. */
  const SpaceRanges: seq<(int, int)> := [(9, 13), (0x20, 0x20), (0x85, 0x85), (0xA0, 0xA0), (0x1680, 0x1680),
    (0x2000, 0x200A), (0x2028, 0x2029), (0x202F, 0x202F), (0x205F, 0x205F), (0x3000, 0x3000)]

  predicate InRanges(n: int, rs: seq<(int, int)>) {
    rs != [] && (rs[0].0 <= n <= rs[0].1 || InRanges(n, rs[1..]))
  }

  lemma {:induction false} OutsideRanges(n: int, rs: seq<(int, int)>)
    requires forall k :: 0 <= k < |rs| ==> n < rs[k].0 || rs[k].1 < n
    ensures !InRanges(n, rs)
  {
    if rs != [] {
      OutsideRanges(n, rs[1..]);
    }
  }

  /** Digits, signs, the underscore and the separators U+001C..U+001F are not stripped. */
  lemma NotSpace(c: char)
    requires IsDigit(c) || c == '+' || c == '-' || c == '_' || 0x1C <= c as int <= 0x1F
    ensures !IsSpace(c)
  {
    OutsideRanges(c as int, SpaceRanges);
  }

  predicate AllSpace(s: string) {
    forall i :: 0 <= i < |s| ==> IsSpace(s[i])
  }

  predicate NoColon(s: string) {
    forall i :: 0 <= i < |s| ==> s[i] != ':'
  }

  function ColonCount(s: string): nat {
    if s == [] then 0 else (if s[0] == ':' then 1 else 0) + ColonCount(s[1..])
  }

  /** Python's `s.split(":")`: the pieces between the colons, empty ones included. */
  function Split(s: string): (parts: seq<string>)
    ensures |parts| == ColonCount(s) + 1
    ensures forall i :: 0 <= i < |parts| ==> NoColon(parts[i])
  {
    if s == [] then [""]
    else
      var rest := Split(s[1..]);
      if s[0] == ':' then [""] + rest
      else [[s[0]] + rest[0]] + rest[1..]
  }

  /** Python's `":".join(parts)`. */
  function Join(parts: seq<string>): string
    requires |parts| >= 1
  {
    if |parts| == 1 then parts[0] else parts[0] + ":" + Join(parts[1..])
  }

  /** Splitting and joining again gives the text back. */
  lemma {:induction false} JoinSplit(s: string)
    ensures Join(Split(s)) == s
  {
    if s != [] {
      JoinSplit(s[1..]);
      var rest := Split(s[1..]);
      if s[0] != ':' {
        if |rest| == 1 {
          assert Join(Split(s)) == [s[0]] + rest[0];
        } else {
          assert Join(Split(s)) == ([s[0]] + rest[0]) + ":" + Join(rest[1..]);
          assert Join(rest) == rest[0] + ":" + Join(rest[1..]);
        }
      } else {
        assert Join(Split(s)) == "" + ":" + Join(rest);
      }
    }
  }

  /** Joining colon-free fields and splitting again gives the same fields. */
  lemma {:induction false} SplitJoin(parts: seq<string>)
    requires |parts| >= 1
    requires forall i :: 0 <= i < |parts| ==> NoColon(parts[i])
    ensures Split(Join(parts)) == parts
  {
    if |parts| == 1 {
      SplitNoColon(parts[0]);
    } else {
      SplitJoin(parts[1..]);
      SplitPrefix(parts[0], Join(parts[1..]));
      assert [""] + parts[1..] == [""] + Split(Join(parts[1..]));
    }
  }

  lemma {:induction false} SplitNoColon(p: string)
    requires NoColon(p)
    ensures Split(p) == [p]
  {
    if p != [] {
      SplitNoColon(p[1..]);
      assert [p[0]] + p[1..] == p;
    }
  }

  /** A colon-free field in front of ":" + t becomes the first piece. */
  lemma {:induction false} SplitPrefix(p: string, t: string)
    requires NoColon(p)
    ensures Split(p + ":" + t) == [p] + Split(t)
  {
    if p == [] {
      assert p + ":" + t == [':'] + t;
      assert ([':'] + t)[1..] == t;
    } else {
      SplitPrefix(p[1..], t);
      assert (p + ":" + t)[1..] == p[1..] + ":" + t;
      assert [p[0]] + p[1..] == p;
    }
  }

  /** `s` without the whitespace at its front. */
  function DropLeadingSpace(s: string): (r: string)
    ensures r == [] || !IsSpace(r[0])
    ensures |r| <= |s|
  {
    if s != [] && IsSpace(s[0]) then DropLeadingSpace(s[1..]) else s
  }

  /** What DropLeadingSpace removes is whitespace, and what it keeps is the rest of `s`. */
  lemma {:induction false} DropLeadingParts(s: string)
    ensures var r := DropLeadingSpace(s);
      (forall i :: 0 <= i < |s| - |r| ==> IsSpace(s[i])) && r == s[|s| - |r|..]
  {
    if s != [] && IsSpace(s[0]) {
      var t := s[1..];
      DropLeadingParts(t);
      assert forall i :: 1 <= i < |s| ==> s[i] == t[i - 1];
    }
  }

  /** `s` without the whitespace at its end. */
  function DropTrailingSpace(s: string): (r: string)
    ensures r == [] || !IsSpace(r[|r| - 1])
    ensures |r| <= |s|
  {
    if s != [] && IsSpace(s[|s| - 1]) then DropTrailingSpace(s[..|s| - 1]) else s
  }

  /** What DropTrailingSpace removes is whitespace, and what it keeps is the front of `s`. */
  lemma {:induction false} DropTrailingParts(s: string)
    ensures var r := DropTrailingSpace(s);
      (forall i :: |r| <= i < |s| ==> IsSpace(s[i])) && r == s[..|r|]
  {
    if s != [] && IsSpace(s[|s| - 1]) {
      DropTrailingParts(s[..|s| - 1]);
    }
  }

  /**
   * A base-10 literal body: digits, with single underscores allowed between
   * digits. It starts and ends with a digit, and of two neighbouring
   * characters at least one is a digit.
   */
  predicate WellFormedDigits(b: string) {
    |b| > 0 && IsDigit(b[0]) && IsDigit(b[|b| - 1]) &&
    (forall i :: 0 <= i < |b| ==> IsDigit(b[i]) || b[i] == '_') &&
    (forall i, j :: 0 <= i < |b| && 0 <= j < |b| && j == i + 1 ==> IsDigit(b[i]) || IsDigit(b[j]))
  }

  function RemoveUnderscores(b: string): (r: string)
    requires forall i :: 0 <= i < |b| ==> IsDigit(b[i]) || b[i] == '_'
    ensures AllDigits(r)
  {
    if b == [] then []
    else (if b[0] == '_' then [] else [b[0]]) + RemoveUnderscores(b[1..])
  }

  /**
   * Python's int(s) for a string s: surrounding whitespace is ignored, an
   * optional '+' or '-' sign is read, and the rest must be a digit string
   * with single underscores between digits. None stands for ValueError.
   */
  function ParseInt(s: string): Option<int> {
    ParseSigned(DropTrailingSpace(DropLeadingSpace(s)))
  }

  /** An accepted text without surrounding whitespace is a sign, digits and underscores. */
  lemma SignedChars(t: string)
    requires ParseSigned(t).Some?
    ensures forall i :: 0 <= i < |t| ==> IsDigit(t[i]) || t[i] == '_' || (i == 0 && (t[0] == '+' || t[0] == '-'))
  {
    var body := if t[0] == '-' || t[0] == '+' then t[1..] else t;
    assert WellFormedDigits(body);
    forall i | 0 <= i < |t| ensures IsDigit(t[i]) || t[i] == '_' || (i == 0 && (t[0] == '+' || t[0] == '-')) {
      if body != t && i > 0 {
        assert t[i] == body[i - 1];
      }
    }
  }

  /**
   * A text int() accepts holds only whitespace, digits, underscores and signs,
   * and at least one digit.
   */
  lemma ParseIntChars(s: string)
    ensures ParseInt(s).Some? ==> forall i :: 0 <= i < |s| ==> IntChar(s[i])
    ensures ParseInt(s).Some? ==> exists i :: 0 <= i < |s| && IsDigit(s[i])
  {
    var t := DropTrailingSpace(DropLeadingSpace(s));
    if ParseSigned(t).Some? {
      assert forall c :: c in t ==> IntChar(c) by {
        SignedChars(t);
      }
      assert IsDigit(t[|t| - 1]);
      StripKeeps(s);
      StripAddsNothing(s);
    }
  }

  /** Stripping whitespace from both ends keeps every other character. */
  lemma StripKeeps(s: string)
    ensures forall i :: 0 <= i < |s| ==> IsSpace(s[i]) || s[i] in DropTrailingSpace(DropLeadingSpace(s))
  {
    var u := DropLeadingSpace(s);
    var t := DropTrailingSpace(u);
    var a := |s| - |u|;
    DropLeadingParts(s);
    DropTrailingParts(u);
    forall i | 0 <= i < |s| && !IsSpace(s[i]) ensures s[i] in t {
      assert s[i] == u[i - a] == t[i - a];
    }
  }

  /** Stripping whitespace from both ends adds no character. */
  lemma StripAddsNothing(s: string)
    ensures forall j :: 0 <= j < |DropTrailingSpace(DropLeadingSpace(s))| ==> DropTrailingSpace(DropLeadingSpace(s))[j] in s
  {
    var u := DropLeadingSpace(s);
    var t := DropTrailingSpace(u);
    var a := |s| - |u|;
    DropLeadingParts(s);
    DropTrailingParts(u);
    forall j | 0 <= j < |t| ensures t[j] in s {
      assert t[j] == u[j] == s[j + a];
    }
  }

  /** A character that may occur in a text int() accepts. */
  predicate IntChar(c: char) {
    IsSpace(c) || IsDigit(c) || c == '_' || c == '+' || c == '-'
  }

  /**
   * int() on a string without surrounding whitespace: an optional sign at the
   * front, then digits with single underscores between them. A '-' sign gives
   * a value that is not positive, no sign or '+' one that is not negative.
   */
  function ParseSigned(t: string): (r: Option<int>)
    ensures r.Some? ==> |t| > 0 && IsDigit(t[|t| - 1])
    ensures r.Some? ==> (t[0] == '-' ==> r.value <= 0) && (t[0] != '-' ==> r.value >= 0)
  {
    var negative := |t| > 0 && t[0] == '-';
    var body := if |t| > 0 && (t[0] == '-' || t[0] == '+') then t[1..] else t;
    if !WellFormedDigits(body) then None
    else
      assert body[|body| - 1] == t[|t| - 1];
      var magnitude: int := DigitsValue(RemoveUnderscores(body));
      Some(if negative then -magnitude else magnitude)
  }

  lemma {:induction false} DropLeadingPad(pad: string, core: string)
    requires AllSpace(pad)
    requires core != [] && !IsSpace(core[0])
    ensures DropLeadingSpace(pad + core) == core
  {
    if pad != [] {
      assert (pad + core)[1..] == pad[1..] + core;
      DropLeadingPad(pad[1..], core);
    }
  }

  lemma {:induction false} DropTrailingPad(core: string, pad: string)
    requires AllSpace(pad)
    requires core != [] && !IsSpace(core[|core| - 1])
    ensures DropTrailingSpace(core + pad) == core
  {
    if pad != [] {
      assert (core + pad)[..|core + pad| - 1] == core + pad[..|pad| - 1];
      DropTrailingPad(core, pad[..|pad| - 1]);
    } else {
      assert core + pad == core;
    }
  }

  lemma {:induction false} RemoveNoUnderscores(b: string)
    requires AllDigits(b)
    ensures RemoveUnderscores(b) == b
  {
    if b != [] {
      RemoveNoUnderscores(b[1..]);
      assert [b[0]] + b[1..] == b;
    }
  }

  /** int() reads back str(n), also when it is surrounded by whitespace. */
  lemma ParseIntShowInt(pad1: string, n: int, pad2: string)
    requires AllSpace(pad1) && AllSpace(pad2)
    ensures ParseInt(pad1 + ShowInt(n) + pad2) == Some(n)
  {
    var core := ShowInt(n);
    NotSpace(core[0]);
    NotSpace(core[|core| - 1]);
    DropTrailingPad(core, pad2);
    assert pad1 + core + pad2 == pad1 + (core + pad2);
    DropLeadingPad(pad1, core + pad2);
    ParseSignedShowInt(n);
  }

  lemma ParseSignedShowInt(n: int)
    ensures ParseSigned(ShowInt(n)) == Some(n)
  {
    var t := ShowInt(n);
    if n < 0 {
      assert t[1..] == ShowNat(-n);
      ParseSignedNegative(t);
      DigitsValueShowNat(-n);
    } else {
      assert t == ShowNat(n);
      ParseSignedDigits(t);
      DigitsValueShowNat(n);
    }
  }

  lemma ParseSignedNegative(t: string)
    requires |t| > 1 && t[0] == '-' && AllDigits(t[1..])
    ensures ParseSigned(t) == Some(-(DigitsValue(t[1..]) as int))
  {
    assert WellFormedDigits(t[1..]);
    RemoveNoUnderscores(t[1..]);
  }

  /** A plain digit string, leading zeros and all, reads as its decimal value. */
  lemma ParseIntDigits(d: string)
    requires |d| > 0 && AllDigits(d)
    ensures ParseInt(d) == Some(DigitsValue(d))
  {
    NotSpace(d[0]);
    NotSpace(d[|d| - 1]);
    Unpadded(d);
    ParseSignedDigits(d);
  }

  /** A text without whitespace at either end is left as it is by the stripping. */
  lemma Unpadded(t: string)
    requires t != [] && !IsSpace(t[0]) && !IsSpace(t[|t| - 1])
    ensures DropTrailingSpace(DropLeadingSpace(t)) == t
  {
    assert DropLeadingSpace(t) == t;
  }

  lemma ParseSignedDigits(d: string)
    requires |d| > 0 && AllDigits(d)
    ensures ParseSigned(d) == Some(DigitsValue(d))
  {
    RemoveNoUnderscores(d);
  }

  /** int() reads back str(n). */
  lemma ParseIntShow(n: int)
    ensures ParseInt(ShowInt(n)) == Some(n)
  {
    var t := ShowInt(n);
    NotSpace(t[0]);
    NotSpace(t[|t| - 1]);
    Unpadded(t);
    ParseSignedShowInt(n);
  }

  /** The rendering of an integer has no colon in it. */
  lemma ShowIntNoColon(n: int)
    ensures NoColon(ShowInt(n))
  {
    var s := ShowInt(n);
    if n < 0 {
      assert forall i :: 1 <= i < |s| ==> IsDigit(s[i]) by {
        assert s[1..] == ShowNat(-n);
      }
    }
  }

  /**
   * The target length in seconds, `h * 3600 + m * 60 + s`, or None when the
   * text does not split into exactly three fields that int() accepts.
   */
  function ParseTarget(text: string): (r: Option<int>)
    ensures r.Some? ==> ColonCount(text) == 2
  {
    ParseFields(Split(text))
  }

  /** An accepted target text is three int() texts joined by two colons. */
  lemma ParseTargetChars(text: string)
    requires ParseTarget(text).Some?
    ensures forall i :: 0 <= i < |text| ==> text[i] == ':' || IntChar(text[i])
  {
    var parts := Split(text);
    ThreeParts(text);
    ParseIntChars(parts[0]);
    ParseIntChars(parts[1]);
    ParseIntChars(parts[2]);
    JoinedChars(parts[0], parts[1], parts[2]);
  }

  /** A text that splits into three parts is those parts joined by two colons. */
  lemma ThreeParts(text: string)
    requires |Split(text)| == 3
    ensures var parts := Split(text); text == parts[0] + ":" + parts[1] + ":" + parts[2]
  {
    var parts := Split(text);
    assert parts == [parts[0], parts[1], parts[2]];
    JoinSplit(text);
    Join3(parts[0], parts[1], parts[2]);
  }

  lemma JoinedChars(a: string, b: string, c: string)
    requires forall i :: 0 <= i < |a| ==> IntChar(a[i])
    requires forall i :: 0 <= i < |b| ==> IntChar(b[i])
    requires forall i :: 0 <= i < |c| ==> IntChar(c[i])
    ensures var text := a + ":" + b + ":" + c; forall i :: 0 <= i < |text| ==> text[i] == ':' || IntChar(text[i])
  {
    var text := a + ":" + b + ":" + c;
    forall i | 0 <= i < |text| ensures text[i] == ':' || IntChar(text[i]) {
      if i < |a| {
        assert text[i] == a[i];
      } else if |a| < i < |a| + 1 + |b| {
        assert text[i] == b[i - |a| - 1];
      } else if |a| + 1 + |b| < i {
        assert text[i] == c[i - |a| - |b| - 2];
      }
    }
  }

  /**
   * The information separators U+001C..U+001F count as whitespace for
   * str.isspace() but not for int(), so a field holding one is rejected.
   */
  lemma InformationSeparatorRejected(pre: string, c: char, post: string)
    requires 0x1C <= c as int <= 0x1F
    ensures ParseInt(pre + [c] + post).None?
  {
    var s := pre + [c] + post;
    NotSpace(c);
    assert s[|pre|] == c;
    ParseIntChars(s);
  }

  /** `h, m, s = map(int, parts)` followed by the total in seconds. */
  function ParseFields(parts: seq<string>): (r: Option<int>)
    ensures r.Some? ==> |parts| == 3 && ParseInt(parts[0]).Some? && ParseInt(parts[1]).Some? && ParseInt(parts[2]).Some?
  {
    if |parts| != 3 then None
    else
      var h, m, s := ParseInt(parts[0]), ParseInt(parts[1]), ParseInt(parts[2]);
      if h.Some? && m.Some? && s.Some? then Some(h.value * 3600 + m.value * 60 + s.value) else None
  }

  lemma Join3(a: string, b: string, c: string)
    ensures Join([a, b, c]) == a + ":" + b + ":" + c
  {
    var parts := [a, b, c];
    assert parts[1..] == [b, c] && parts[1..][1..] == [c];
    assert Join([b, c]) == b + ":" + Join([c]);
  }

  /** Splitting "a:b:c" for colon-free fields gives the three fields back. */
  lemma Split3(a: string, b: string, c: string)
    requires NoColon(a) && NoColon(b) && NoColon(c)
    ensures Split(a + ":" + b + ":" + c) == [a, b, c]
  {
    Join3(a, b, c);
    SplitJoin([a, b, c]);
  }

  /**
   * Three colon-free fields that int() accepts give `h * 3600 + m * 60 + s`,
   * whatever their signs.
   */
  lemma ParseTargetFields(a: string, b: string, c: string, h: int, m: int, s: int)
    requires NoColon(a) && NoColon(b) && NoColon(c)
    requires ParseInt(a) == Some(h) && ParseInt(b) == Some(m) && ParseInt(c) == Some(s)
    ensures ParseTarget(a + ":" + b + ":" + c) == Some(h * 3600 + m * 60 + s)
  {
    Split3(a, b, c);
    assert ParseTarget(a + ":" + b + ":" + c) == ParseFields([a, b, c]);
    FieldsOf([a, b, c], h, m, s);
  }

  lemma FieldsOf(parts: seq<string>, h: int, m: int, s: int)
    requires |parts| == 3
    requires ParseInt(parts[0]) == Some(h) && ParseInt(parts[1]) == Some(m) && ParseInt(parts[2]) == Some(s)
    ensures ParseFields(parts) == Some(h * 3600 + m * 60 + s)
  {
  }

  /** A field that int() rejects makes the whole target rejected. */
  lemma BadFieldRejected(a: string, b: string, c: string)
    requires NoColon(a) && NoColon(b) && NoColon(c)
    requires ParseInt(a).None? || ParseInt(b).None? || ParseInt(c).None?
    ensures ParseTarget(a + ":" + b + ":" + c).None?
  {
    Split3(a, b, c);
  }

  /** Rendering three integers as "h:m:s" and parsing them back gives their total in seconds. */
  lemma ParseTargetShow(h: int, m: int, s: int)
    ensures ParseTarget(ShowInt(h) + ":" + ShowInt(m) + ":" + ShowInt(s)) == Some(h * 3600 + m * 60 + s)
  {
    var a, b, c := ShowInt(h), ShowInt(m), ShowInt(s);
    ShowIntNoColon(h);
    ShowIntNoColon(m);
    ShowIntNoColon(s);
    ParseIntShow(h);
    ParseIntShow(m);
    ParseIntShow(s);
    ParseTargetFields(a, b, c, h, m, s);
  }
}
