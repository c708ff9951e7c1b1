/**
 * The pieces of Swift's `String`, `Character` and Foundation behaviour that
 * the line codec and the event record depend on: what counts as a line
 * break, the first index of a character, splitting at line breaks,
 * joining with "\n", and decimal integer parsing and printing.
 * Strings are sequences of Unicode scalar values (`seq<char>`); grapheme
 * clusters are not modelled.
 */
module Text {
  import opened Wrappers

  /**
   * The characters `Character.isNewline` and `CharacterSet.newlines` accept:
   * LF, VT, FF, CR, NEL, LINE SEPARATOR and PARAGRAPH SEPARATOR.
   */
  predicate IsNewline(c: char) {
    c == '\n' || c == '\U{000B}' || c == '\U{000C}' || c == '\r'
    || c == '\U{0085}' || c == '\U{2028}' || c == '\U{2029}'
  }

  /** `s.contains(where: \.isNewline)` */
  predicate HasNewline(s: string) {
    exists i :: 0 <= i < |s| && IsNewline(s[i])
  }

  /** Every line break in `s` is a line feed. */
  predicate OnlyLineFeeds(s: string) {
    forall i :: 0 <= i < |s| && IsNewline(s[i]) ==> s[i] == '\n'
  }

  /** The number of line-break characters in `s`. */
  function NewlineCount(s: string): nat {
    if |s| == 0 then 0 else (if IsNewline(s[0]) then 1 else 0) + NewlineCount(s[1..])
  }

  /** `s` with every line-break character replaced by a line feed. */
  function LineFeedsOnly(s: string): (r: string)
    ensures |r| == |s|
  {
    if |s| == 0 then "" else [if IsNewline(s[0]) then '\n' else s[0]] + LineFeedsOnly(s[1..])
  }

  /** `s.firstIndex(of: c)` */
  function FirstIndexOf(s: string, c: char): (r: Option<nat>)
    ensures r.None? <==> c !in s
    ensures r.Some? ==> r.value < |s| && s[r.value] == c && c !in s[..r.value]
  {
    if |s| == 0 then None
    else if s[0] == c then Some(0)
    else match FirstIndexOf(s[1..], c)
      case None => None
      case Some(i) =>
        assert s[..i + 1] == [s[0]] + s[1..][..i];
        Some(i + 1)
  }

  /**
   * `s.components(separatedBy: .newlines)`: the pieces between line-break
   * characters. Each line-break character separates two pieces, so
   * "a\r\nb" has the three pieces "a", "" and "b".
   */
  function Components(s: string): (r: seq<string>)
    ensures |r| == NewlineCount(s) + 1
    ensures forall i :: 0 <= i < |r| ==> !HasNewline(r[i])
  {
    if |s| == 0 then [""]
    else
      var rest := Components(s[1..]);
      if IsNewline(s[0]) then [""] + rest
      else
        assert !HasNewline(rest[0]);
        assert forall j :: 0 < j < |[s[0]] + rest[0]| ==> ([s[0]] + rest[0])[j] == rest[0][j - 1];
        [[s[0]] + rest[0]] + rest[1..]
  }

  /** `parts.joined(separator: "\n")` */
  function Join(parts: seq<string>): string {
    if |parts| == 0 then ""
    else if |parts| == 1 then parts[0]
    else parts[0] + "\n" + Join(parts[1..])
  }

  lemma JoinCons(c: char, parts: seq<string>)
    requires |parts| > 0
    ensures Join([[c] + parts[0]] + parts[1..]) == [c] + Join(parts)
  {
    var q := [[c] + parts[0]] + parts[1..];
    if |parts| == 1 {
      assert q == [[c] + parts[0]];
    } else {
      assert q[1..] == parts[1..];
      JoinLonger(q);
      JoinLonger(parts);
    }
  }

  lemma JoinLonger(parts: seq<string>)
    requires |parts| > 1
    ensures Join(parts) == parts[0] + "\n" + Join(parts[1..])
  {
  }

  /** Joining one more part appends a line feed and that part, unless there was nothing before. */
  lemma {:induction false} JoinSnoc(parts: seq<string>, p: string)
    ensures Join(parts + [p]) == if |parts| == 0 then p else Join(parts) + "\n" + p
    decreases |parts|
  {
    if |parts| == 1 {
      JoinLonger(parts + [p]);
      assert (parts + [p])[1..] == [p];
    } else if |parts| > 1 {
      JoinSnoc(parts[1..], p);
      assert (parts + [p])[1..] == parts[1..] + [p];
      JoinLonger(parts + [p]);
      JoinLonger(parts);
    }
  }

  /**
   * Splitting at line breaks and joining with "\n" gives the text back with
   * every line break turned into a line feed.
   */
  lemma {:induction false} JoinComponents(s: string)
    ensures Join(Components(s)) == LineFeedsOnly(s)
  {
    if |s| > 0 {
      JoinComponents(s[1..]);
      var rest := Components(s[1..]);
      if IsNewline(s[0]) {
        assert ([""] + rest)[1..] == rest;
      } else {
        JoinCons(s[0], rest);
      }
    }
  }

  lemma {:induction false} LineFeedsOnlyIdentity(s: string)
    ensures LineFeedsOnly(s) == s <==> OnlyLineFeeds(s)
  {
    if |s| > 0 {
      LineFeedsOnlyIdentity(s[1..]);
      var head := if IsNewline(s[0]) then '\n' else s[0];
      assert LineFeedsOnly(s) == [head] + LineFeedsOnly(s[1..]);
      assert s == [s[0]] + s[1..];
      assert OnlyLineFeeds(s) <==> head == s[0] && OnlyLineFeeds(s[1..]) by {
        forall i | 0 <= i < |s[1..]| ensures s[1..][i] == s[i + 1] { }
      }
    }
  }

  /** Joining with "\n" is undone by splitting at line breaks, when no part holds one. */
  lemma {:induction false} ComponentsJoin(parts: seq<string>)
    requires |parts| > 0
    requires forall i :: 0 <= i < |parts| ==> !HasNewline(parts[i])
    ensures Components(Join(parts)) == parts
  {
    if |parts| == 1 {
      ComponentsOfLine(parts[0]);
    } else {
      ComponentsJoin(parts[1..]);
      ComponentsPrefix(parts[0], Join(parts[1..]));
      assert parts == [parts[0]] + parts[1..];
    }
  }

  lemma {:induction false} ComponentsOfLine(p: string)
    requires !HasNewline(p)
    ensures Components(p) == [p]
  {
    if |p| > 0 {
      assert !HasNewline(p[1..]) by {
        forall i | 0 <= i < |p[1..]| ensures !IsNewline(p[1..][i]) { assert p[1..][i] == p[i + 1]; }
      }
      ComponentsOfLine(p[1..]);
      assert !IsNewline(p[0]);
      assert [p[0]] + p[1..] == p;
    }
  }

  lemma {:induction false} ComponentsPrefix(p: string, rest: string)
    requires !HasNewline(p)
    ensures Components(p + "\n" + rest) == [p] + Components(rest)
  {
    var s := p + "\n" + rest;
    if |p| == 0 {
      assert s == "\n" + rest;
      assert s[1..] == rest;
    } else {
      assert !HasNewline(p[1..]) by {
        forall i | 0 <= i < |p[1..]| ensures !IsNewline(p[1..][i]) { assert p[1..][i] == p[i + 1]; }
      }
      ComponentsPrefix(p[1..], rest);
      assert s[1..] == p[1..] + "\n" + rest;
      assert !IsNewline(s[0]) by { assert s[0] == p[0]; }
      assert [p[0]] + p[1..] == p;
    }
  }

  // ----- integers -----

  const MinInt64: int := -0x8000_0000_0000_0000
  const MaxInt64: int := 0x7FFF_FFFF_FFFF_FFFF

  /** Swift's `Int` on a 64-bit platform. */
  type Int64 = x: int | -0x8000_0000_0000_0000 <= x <= 0x7FFF_FFFF_FFFF_FFFF

  predicate IsDigit(c: char) {
    '0' <= c <= '9'
  }

  predicate AllDigits(s: string) {
    forall i :: 0 <= i < |s| ==> IsDigit(s[i])
  }

  function DigitValue(c: char): nat
    requires IsDigit(c)
  {
    c as int - '0' as int
  }

  function DigitChar(d: nat): (c: char)
    requires d < 10
    ensures IsDigit(c) && DigitValue(c) == d
  {
    ('0' as int + d) as char
  }

  /** The value of a string of decimal digits, most significant first. */
  function DigitsValue(s: string): nat
    requires AllDigits(s)
  {
    if |s| == 0 then 0 else DigitsValue(s[..|s| - 1]) * 10 + DigitValue(s[|s| - 1])
  }

  /**
   * `Int(s)`: an optional '+' or '-', then one or more ASCII digits and
   * nothing else; nil when the value does not fit in 64 bits.
   */
  function ParseInt(s: string): (r: Option<Int64>)
    ensures |s| == 0 ==> r.None?
  {
    if |s| == 0 then None
    else
      var negative := s[0] == '-';
      var digits := if s[0] == '+' || s[0] == '-' then s[1..] else s;
      if |digits| == 0 || !AllDigits(digits) then None
      else
        var n: int := if negative then -(DigitsValue(digits) as int) else DigitsValue(digits);
        if MinInt64 <= n <= MaxInt64 then Some(n) else None
  }

  /**
   * Any character other than a digit makes `Int(s)` fail, except a sign in
   * front of at least one digit: no whitespace trimming, no decimal point.
   */
  lemma ParseIntRejectsNonDigit(s: string, i: nat)
    requires i < |s| && !IsDigit(s[i])
    requires !(i == 0 && (s[0] == '+' || s[0] == '-') && |s| > 1)
    ensures ParseInt(s) == None
  {
    if i > 0 && (s[0] == '+' || s[0] == '-') {
      assert s[1..][i - 1] == s[i];
    }
  }

  /** A string of digits with no sign parses to its decimal value when it fits. */
  lemma ParseIntDigits(s: string)
    requires |s| > 0 && AllDigits(s) && DigitsValue(s) <= MaxInt64
    ensures ParseInt(s) == Some(DigitsValue(s))
  {
  }

  /**
   * An explicit sign in front of one or more digits (leading zeros allowed)
   * gives the signed value when it fits in 64 bits, and nil otherwise.
   */
  lemma ParseIntSigned(s: string)
    requires |s| > 1 && (s[0] == '+' || s[0] == '-') && AllDigits(s[1..])
    ensures var n := if s[0] == '-' then -(DigitsValue(s[1..]) as int) else DigitsValue(s[1..]) as int;
      && (MinInt64 <= n <= MaxInt64 ==> ParseInt(s).Some? && ParseInt(s).value == n)
      && (!(MinInt64 <= n <= MaxInt64) ==> ParseInt(s) == None)
  {
  }

  /** Unsigned digits whose value exceeds the 64-bit maximum do not parse. */
  lemma ParseIntOverflow(s: string)
    requires |s| > 0 && AllDigits(s) && DigitsValue(s) > MaxInt64
    ensures ParseInt(s) == None
  {
  }

  /**
   * Concrete cases: an explicit plus, a sign before a leading zero, and the
   * decimal texts one past each end of the 64-bit range.
   */
  lemma ParseIntExamples()
    ensures ParseInt("+5") == Some(5)
    ensures ParseInt("-05") == Some(-5)
    ensures ParseInt(NatText(MaxInt64 + 1)) == None
    ensures ParseInt("-" + NatText(-MinInt64 + 1)) == None
  {
    ParseIntSigned("+5");
    assert "+5"[1..] == "5";
    ParseIntSigned("-05");
    assert "-05"[1..] == "05";
    assert DigitsValue("05") == 5 by { assert "05"[..1] == "0"; assert "0"[..0] == ""; }
    ParseIntOverflow(NatText(MaxInt64 + 1));
    var low := "-" + NatText(-MinInt64 + 1);
    assert low[1..] == NatText(-MinInt64 + 1);
    ParseIntSigned(low);
  }

  /** The decimal text of a natural number, without leading zeros. */
  function NatText(n: nat): (r: string)
    ensures |r| > 0 && AllDigits(r) && DigitsValue(r) == n
    ensures |r| > 1 ==> r[0] != '0'
  {
    if n < 10 then [DigitChar(n)]
    else
      var r := NatText(n / 10) + [DigitChar(n % 10)];
      assert r[..|r| - 1] == NatText(n / 10);
      r
  }

  /** `Int.description`: decimal digits, with a '-' in front of a negative value. */
  function IntText(n: int): string {
    if n < 0 then "-" + NatText(-n) else NatText(n)
  }

  /** Printing an `Int` and parsing the text gives the value back. */
  lemma ParseIntText(n: Int64)
    ensures ParseInt(IntText(n)) == Some(n)
  {
    var t := NatText(if n < 0 then -(n as int) else n);
    if n < 0 {
      assert IntText(n)[1..] == t;
    } else {
      assert t[0] != '+' && t[0] != '-' by { assert IsDigit(t[0]); }
    }
  }

  lemma IntTextHasNoNewline(n: int)
    ensures !HasNewline(IntText(n))
  {
    var s := IntText(n);
    var t := NatText(if n < 0 then -(n as int) else n);
    forall i | 0 <= i < |s| ensures !IsNewline(s[i]) {
      if n < 0 {
        if i > 0 { assert s[i] == t[i - 1]; }
      } else {
        assert IsDigit(t[i]);
      }
    }
  }
}
