/**
 * One line of an event stream (`MessageLine`): a typed value, the parser
 * that reads it from raw text and the formatter that writes it back.
 */
module MessageLines {
  import opened Wrappers
  import opened Text

  /** The six kinds of line; `Unknown` keeps a key the codec does not recognise. */
  datatype MessageLine =
    | Event(value: string)
    | Data(value: string)
    | Id(value: string)
    | Retry(delay: Int64)
    | Comment(value: string)
    | Unknown(key: string, value: string)

  /** The keys that never classify as `Unknown`. */
  predicate IsRecognisedKey(key: string) {
    key == "" || key == "event" || key == "id" || key == "data"
  }

  /** The key a line is written under. */
  function KeyOf(l: MessageLine): string {
    match l
    case Event(_) => "event"
    case Data(_) => "data"
    case Id(_) => "id"
    case Retry(_) => "retry"
    case Comment(_) => ""
    case Unknown(k, _) => k
  }

  /** The text a line is written with after its key. */
  function ValueOf(l: MessageLine): string {
    match l
    case Event(v) => v
    case Data(v) => v
    case Id(v) => v
    case Retry(n) => IntText(n)
    case Comment(v) => v
    case Unknown(_, v) => v
  }

  /** Removes one leading space, if there is one. */
  function DropLeadingSpace(v: string): string {
    if |v| > 0 && v[0] == ' ' then v[1..] else v
  }

  /**
   * Key and value of a raw line: split at the first colon, dropping one
   * leading space from the value; a line without a colon is all key.
   */
  function SplitField(s: string): (string, string) {
    match FirstIndexOf(s, ':')
    case None => (s, "")
    case Some(c) => (s[..c], DropLeadingSpace(s[c + 1..]))
  }

  /**
   * The `switch key` of `init?(string:)`. Matching is exact; a `retry`
   * value that is not an integer falls through to `Unknown`.
   */
  function Classify(key: string, value: string): (r: MessageLine)
    ensures KeyOf(r) == key
    ensures r.Retry? <==> key == "retry" && ParseInt(value).Some?
    ensures r.Retry? ==> ParseInt(value) == Some(r.delay)
    ensures !r.Retry? ==> ValueOf(r) == value
    ensures r.Unknown? <==> !IsRecognisedKey(key) && !r.Retry?
  {
    match key
    case "" => Comment(value)
    case "event" => Event(value)
    case "id" => Id(value)
    case "data" => Data(value)
    case _ =>
      if key == "retry" && ParseInt(value).Some? then Retry(ParseInt(value).value)
      else Unknown(key, value)
  }

  /** `init?(string:)`: nil exactly when the text holds a line break. */
  function Parse(s: string): (r: Option<MessageLine>)
    ensures r.None? <==> HasNewline(s)
  {
    if HasNewline(s) then None
    else
      var (key, value) := SplitField(s);
      Some(Classify(key, value))
  }

  /** `asString` */
  function Format(l: MessageLine): string {
    match l
    case Event(v) => "event: " + v
    case Data(v) => "data: " + v
    case Id(v) => "id: " + v
    case Retry(n) => "retry: " + IntText(n)
    case Comment(v) => ": " + v
    case Unknown(k, v) => k + ": " + v
  }

  /**
   * Formatting writes the line's key, a colon, exactly one space and its
   * value; an unknown line keeps its key verbatim.
   */
  lemma FormatIsKeyColonSpaceValue(l: MessageLine)
    ensures Format(l) == KeyOf(l) + ": " + ValueOf(l)
  {
  }

  /**
   * With a colon, the key is exactly the text before the first colon and
   * the value is the rest with at most one leading space removed.
   */
  lemma ParseAtFirstColon(s: string, c: nat)
    requires !HasNewline(s)
    requires c < |s| && s[c] == ':' && ':' !in s[..c]
    ensures var v := s[c + 1..];
      Parse(s) == Some(Classify(s[..c], if |v| > 0 && v[0] == ' ' then v[1..] else v))
  {
    assert FirstIndexOf(s, ':').Some?;
  }

  /** Without a colon the whole line is the key and the value is empty. */
  lemma ParseWithoutColon(s: string)
    requires !HasNewline(s) && ':' !in s
    ensures Parse(s) == Some(Classify(s, ""))
  {
  }

  /** A line the formatter writes so that parsing restores it exactly. */
  predicate WireSafe(l: MessageLine) {
    match l
    case Retry(_) => true
    case Unknown(k, v) =>
      && !HasNewline(k) && ':' !in k && !HasNewline(v)
      && !IsRecognisedKey(k) && (k == "retry" ==> ParseInt(v).None?)
    case _ => !HasNewline(l.value)
  }

  lemma NoNewlineInConcat(a: string, b: string)
    requires !HasNewline(a) && !HasNewline(b)
    ensures !HasNewline(a + b)
  {
    forall i | 0 <= i < |a + b| ensures !IsNewline((a + b)[i]) {
      if i < |a| { assert (a + b)[i] == a[i]; } else { assert (a + b)[i] == b[i - |a|]; }
    }
  }

  lemma NewlineInConcat(a: string, b: string)
    requires HasNewline(a) || HasNewline(b)
    ensures HasNewline(a + b)
  {
    if HasNewline(a) {
      var i :| 0 <= i < |a| && IsNewline(a[i]);
      assert (a + b)[i] == a[i];
    } else {
      var i :| 0 <= i < |b| && IsNewline(b[i]);
      assert (a + b)[|a| + i] == b[i];
    }
  }

  /** The text `k + ": " + v` holds a line break exactly when `k` or `v` does. */
  lemma FormattedNewline(k: string, v: string)
    ensures HasNewline(k + ": " + v) <==> HasNewline(k) || HasNewline(v)
  {
    assert !HasNewline(": ") by { assert ": "[0] == ':' && ": "[1] == ' '; }
    if HasNewline(k) || HasNewline(v) {
      if HasNewline(k) { NewlineInConcat(k, ": "); }
      NewlineInConcat(k + ": ", v);
    } else {
      NoNewlineInConcat(k, ": ");
      NoNewlineInConcat(k + ": ", v);
    }
  }

  /** A formatted key without a colon is read back as that key and value. */
  lemma ParseFormatted(k: string, v: string)
    requires !HasNewline(k) && ':' !in k && !HasNewline(v)
    ensures Parse(k + ": " + v) == Some(Classify(k, v))
  {
    var s := k + ": " + v;
    FormattedNewline(k, v);
    assert s[..|k|] == k;
    assert s[|k| + 1..] == " " + v;
    ParseAtFirstColon(s, |k|);
  }

  /** A formatted key with a colon is read back under a shorter key. */
  lemma ParseFormattedColonKey(k: string, v: string)
    requires !HasNewline(k) && ':' in k && !HasNewline(v)
    ensures Parse(k + ": " + v).Some? && KeyOf(Parse(k + ": " + v).value) != k
  {
    var s := k + ": " + v;
    FormattedNewline(k, v);
    var c := FirstIndexOf(k, ':').value;
    assert s[..c] == k[..c];
    assert s[c] == k[c];
    ParseAtFirstColon(s, c);
    assert |k[..c]| < |k|;
  }

  /**
   * Round trip: parsing the formatted text of a line gives the line back
   * exactly when the line is wire-safe: its texts hold no line break, and
   * an unknown key has no colon and would not be recognised again.
   */
  lemma FormatThenParse(l: MessageLine)
    ensures Parse(Format(l)) == Some(l) <==> WireSafe(l)
  {
    if WireSafe(l) { SafeLineRoundTrips(l); } else { UnsafeLineChanges(l); }
  }

  lemma SafeLineRoundTrips(l: MessageLine)
    requires WireSafe(l)
    ensures Parse(Format(l)) == Some(l)
  {
    var k, v := KeyOf(l), ValueOf(l);
    FormatIsKeyColonSpaceValue(l);
    if l.Retry? {
      IntTextHasNoNewline(l.delay);
      ParseIntText(l.delay);
    }
    ParseFormatted(k, v);
    match l
    case Event(_) => assert Classify("event", v) == l;
    case Data(_) => assert Classify("data", v) == l;
    case Id(_) => assert Classify("id", v) == l;
    case Comment(_) => assert Classify("", v) == l;
    case Retry(n) => assert Classify("retry", v) == l;
    case Unknown(_, _) => assert Classify(k, v) == l;
  }

  lemma UnsafeLineChanges(l: MessageLine)
    requires !WireSafe(l)
    ensures Parse(Format(l)) != Some(l)
  {
    var k, v := KeyOf(l), ValueOf(l);
    FormatIsKeyColonSpaceValue(l);
    FormattedNewline(k, v);
    if l.Retry? {
    } else if HasNewline(k) || HasNewline(v) {
    } else if ':' in k {
      ParseFormattedColonKey(k, v);
    } else {
      ParseFormatted(k, v);
    }
  }

  /**
   * A `retry` value becomes `Retry` only when all of it is an integer;
   * otherwise the line is `Unknown("retry", value)` with the value as read.
   */
  lemma ParseRetry(v: string)
    requires !HasNewline(v)
    ensures Parse("retry: " + v) ==
      Some(if ParseInt(v).Some? then Retry(ParseInt(v).value) else Unknown("retry", v))
  {
    assert "retry: " + v == "retry" + ": " + v;
    ParseFormatted("retry", v);
  }

  /** Surrounding spaces and decimal points are not integer text. */
  lemma RetryValuesThatAreNotIntegers()
    ensures ParseInt("12.3") == None && ParseInt(" 123") == None && ParseInt("123 ") == None
  {
    ParseIntRejectsNonDigit("12.3", 2);
    ParseIntRejectsNonDigit(" 123", 0);
    ParseIntRejectsNonDigit("123 ", 3);
  }
}
