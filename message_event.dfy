/**
 * The application-level record (`MessageEvent`): the memberwise
 * initializer, the assembler that folds a group of lines into a record,
 * and the serialiser that expands a record into lines.
 */
module MessageEvents {
  import opened Wrappers
  import opened Text
  import opened MessageLines

  /** One message of the stream. `lastEventID` is the resume point. */
  datatype MessageEvent = MessageEvent(
    data: string,
    eventType: Option<string>,
    lastEventID: Option<string>,
    id: Option<string>,
    retry: Option<Int64>,
    comments: seq<string>)

  /** A present `id` is also the resume point. */
  predicate IdCoupled(e: MessageEvent) {
    e.id.Some? ==> e.lastEventID == e.id
  }

  /** `MessageEvent.init(data:eventType:lastEventID:id:retry:comments:)` */
  function NewMessageEvent(
    data: string := "",
    eventType: Option<string> := None,
    lastEventID: Option<string> := None,
    id: Option<string> := None,
    retry: Option<Int64> := None,
    comments: seq<string> := []): (e: MessageEvent)
    ensures IdCoupled(e)
    ensures id.None? ==> e.lastEventID == lastEventID
    ensures e.data == data && e.eventType == eventType && e.id == id
    ensures e.retry == retry && e.comments == comments
  {
    MessageEvent(data, eventType, if id.Some? then id else lastEventID, id, retry, comments)
  }

  // ----- assembly: `init?(lines:lastEventID:)` -----

  /** The text-carrying kinds of line, as the merge table's rows. */
  datatype TextField = EventField | DataField | IdField | CommentField

  /** The payload of `l` when it is a line of kind `f`. */
  function TextOf(l: MessageLine, f: TextField): Option<string> {
    match l
    case Event(v) => if f == EventField then Some(v) else None
    case Data(v) => if f == DataField then Some(v) else None
    case Id(v) => if f == IdField then Some(v) else None
    case Comment(v) => if f == CommentField then Some(v) else None
    case Retry(_) => None
    case Unknown(_, _) => None
  }

  /** The payloads of the lines of kind `f`, in arrival order. */
  function Texts(lines: seq<MessageLine>, f: TextField): seq<string> {
    if |lines| == 0 then []
    else
      var before := Texts(lines[..|lines| - 1], f);
      match TextOf(lines[|lines| - 1], f)
      case Some(v) => before + [v]
      case None => before
  }

  /** The delays of the `retry` lines, in arrival order. */
  function Retries(lines: seq<MessageLine>): seq<Int64> {
    if |lines| == 0 then []
    else
      var before := Retries(lines[..|lines| - 1]);
      match lines[|lines| - 1]
      case Retry(n) => before + [n]
      case _ => before
  }

  /** The last element, if any. */
  function LastOf<T>(s: seq<T>): Option<T> {
    if |s| == 0 then None else Some(s[|s| - 1])
  }

  /**
   * The record assembled from `lines` with the carried resume point
   * `lastEventID`: `data` joins the data lines, comments accumulate,
   * event, id and retry are last-wins, unknown lines are ignored.
   */
  function Assembled(lines: seq<MessageLine>, lastEventID: Option<string>): (e: MessageEvent)
    ensures IdCoupled(e)
  {
    var id := LastOf(Texts(lines, IdField));
    MessageEvent(
      data := Join(Texts(lines, DataField)),
      eventType := LastOf(Texts(lines, EventField)),
      lastEventID := if id.Some? then id else lastEventID,
      id := id,
      retry := LastOf(Retries(lines)),
      comments := Texts(lines, CommentField))
  }

  /** `init?(lines:lastEventID:)`: one pass over the lines, updating the fields. */
  method Assemble(lines: seq<MessageLine>, lastEventID: Option<string>) returns (e: MessageEvent)
    ensures e == Assembled(lines, lastEventID)
  {
    var data: seq<string> := [];
    var eventType: Option<string> := None;
    var id: Option<string> := None;
    var retry: Option<Int64> := None;
    var comments: seq<string> := [];
    for i := 0 to |lines|
      invariant data == Texts(lines[..i], DataField)
      invariant eventType == LastOf(Texts(lines[..i], EventField))
      invariant id == LastOf(Texts(lines[..i], IdField))
      invariant retry == LastOf(Retries(lines[..i]))
      invariant comments == Texts(lines[..i], CommentField)
    {
      assert lines[..i + 1][..i] == lines[..i];
      match lines[i]
      case Event(v) => eventType := Some(v);
      case Data(v) => data := data + [v];
      case Id(v) => id := Some(v);
      case Comment(v) => comments := comments + [v];
      case Retry(n) => retry := Some(n);
      case Unknown(_, _) =>
    }
    assert lines[..|lines|] == lines;
    e := MessageEvent(Join(data), eventType, if id.Some? then id else lastEventID, id, retry, comments);
  }

  /** Payloads of a concatenation are the payloads of the parts, in order. */
  lemma {:induction false} TextsAppend(a: seq<MessageLine>, b: seq<MessageLine>, f: TextField)
    ensures Texts(a + b, f) == Texts(a, f) + Texts(b, f)
    decreases |b|
  {
    if |b| > 0 {
      var b' := b[..|b| - 1];
      assert (a + b)[..|a + b| - 1] == a + b';
      TextsAppend(a, b', f);
    } else {
      assert a + b == a;
    }
  }

  lemma {:induction false} RetriesAppend(a: seq<MessageLine>, b: seq<MessageLine>)
    ensures Retries(a + b) == Retries(a) + Retries(b)
    decreases |b|
  {
    if |b| > 0 {
      var b' := b[..|b| - 1];
      assert (a + b)[..|a + b| - 1] == a + b';
      RetriesAppend(a, b');
    } else {
      assert a + b == a;
    }
  }

  /** Only the lines of kind `f` contribute payloads. */
  lemma {:induction false} TextsOfOtherKinds(lines: seq<MessageLine>, f: TextField)
    requires forall j :: 0 <= j < |lines| ==> TextOf(lines[j], f).None?
    ensures Texts(lines, f) == []
  {
    if |lines| > 0 { TextsOfOtherKinds(lines[..|lines| - 1], f); }
  }

  lemma {:induction false} RetriesOfOtherKinds(lines: seq<MessageLine>)
    requires forall j :: 0 <= j < |lines| ==> !lines[j].Retry?
    ensures Retries(lines) == []
  {
    if |lines| > 0 { RetriesOfOtherKinds(lines[..|lines| - 1]); }
  }

  /** The last line of kind `f` supplies the last payload. */
  lemma LastTextWins(lines: seq<MessageLine>, f: TextField, k: nat)
    requires k < |lines| && TextOf(lines[k], f).Some?
    requires forall j :: k < j < |lines| ==> TextOf(lines[j], f).None?
    ensures LastOf(Texts(lines, f)) == TextOf(lines[k], f)
  {
    var a, b := lines[..k + 1], lines[k + 1..];
    assert lines == a + b;
    TextsAppend(a, b, f);
    assert forall j :: 0 <= j < |b| ==> b[j] == lines[k + 1 + j];
    TextsOfOtherKinds(b, f);
    assert a[..k] == lines[..k];
  }

  /** An `event` line with no later `event` line sets `eventType`. */
  lemma EventTypeIsLastEventLine(lines: seq<MessageLine>, lastEventID: Option<string>, k: nat)
    requires k < |lines| && lines[k].Event?
    requires forall j :: k < j < |lines| ==> !lines[j].Event?
    ensures Assembled(lines, lastEventID).eventType == Some(lines[k].value)
  {
    LastTextWins(lines, EventField, k);
  }

  /** An `id` line with no later `id` line sets both `id` and `lastEventID`. */
  lemma IdIsLastIdLine(lines: seq<MessageLine>, lastEventID: Option<string>, k: nat)
    requires k < |lines| && lines[k].Id?
    requires forall j :: k < j < |lines| ==> !lines[j].Id?
    ensures Assembled(lines, lastEventID).id == Some(lines[k].value)
    ensures Assembled(lines, lastEventID).lastEventID == Some(lines[k].value)
  {
    LastTextWins(lines, IdField, k);
  }

  /** A `retry` line with no later `retry` line sets `retry`. */
  lemma RetryIsLastRetryLine(lines: seq<MessageLine>, lastEventID: Option<string>, k: nat)
    requires k < |lines| && lines[k].Retry?
    requires forall j :: k < j < |lines| ==> !lines[j].Retry?
    ensures Assembled(lines, lastEventID).retry == Some(lines[k].delay)
  {
    var a, b := lines[..k + 1], lines[k + 1..];
    assert lines == a + b;
    RetriesAppend(a, b);
    assert forall j :: 0 <= j < |b| ==> b[j] == lines[k + 1 + j];
    RetriesOfOtherKinds(b);
  }

  /**
   * A field with no line of its kind keeps its default: nil, empty data,
   * no comments; with no `id` line the carried resume point is kept.
   */
  lemma AbsentFieldKeepsDefault(lines: seq<MessageLine>, lastEventID: Option<string>, f: TextField)
    requires forall j :: 0 <= j < |lines| ==> TextOf(lines[j], f).None?
    ensures var e := Assembled(lines, lastEventID);
      && (f == EventField ==> e.eventType == None)
      && (f == IdField ==> e.id == None && e.lastEventID == lastEventID)
      && (f == DataField ==> e.data == "")
      && (f == CommentField ==> e.comments == [])
  {
    TextsOfOtherKinds(lines, f);
  }

  /** With no `retry` line, `retry` stays nil. */
  lemma AbsentRetryStaysNil(lines: seq<MessageLine>, lastEventID: Option<string>)
    requires forall j :: 0 <= j < |lines| ==> !lines[j].Retry?
    ensures Assembled(lines, lastEventID).retry == None
  {
    RetriesOfOtherKinds(lines);
  }

  /** No lines: empty data, nil fields, no comments, the carried resume point. */
  lemma AssembledFromNoLines(lastEventID: Option<string>)
    ensures Assembled([], lastEventID) == NewMessageEvent(lastEventID := lastEventID)
  {
  }

  /** The data and comment lines, each in arrival order. */
  lemma AccumulatedInArrivalOrder(lines: seq<MessageLine>, l: MessageLine, lastEventID: Option<string>)
    ensures l.Data? ==>
      Assembled(lines + [l], lastEventID).data ==
        if Texts(lines, DataField) == [] then l.value
        else Assembled(lines, lastEventID).data + "\n" + l.value
    ensures l.Comment? ==>
      Assembled(lines + [l], lastEventID).comments == Assembled(lines, lastEventID).comments + [l.value]
  {
    assert (lines + [l])[..|lines|] == lines;
    if l.Data? {
      JoinSnoc(Texts(lines, DataField), l.value);
    }
  }

  /**
   * `data` is the data lines joined with line feeds: when no data line holds
   * a line break, splitting `data` at line breaks gives the data lines back.
   */
  lemma DataSplitsIntoDataLines(lines: seq<MessageLine>, lastEventID: Option<string>)
    requires |Texts(lines, DataField)| > 0
    requires forall i :: 0 <= i < |Texts(lines, DataField)| ==> !HasNewline(Texts(lines, DataField)[i])
    ensures Components(Assembled(lines, lastEventID).data) == Texts(lines, DataField)
  {
    ComponentsJoin(Texts(lines, DataField));
  }

  /** The lines without the unknown ones. */
  function Known(lines: seq<MessageLine>): (r: seq<MessageLine>)
    ensures forall j :: 0 <= j < |r| ==> !r[j].Unknown?
  {
    if |lines| == 0 then []
    else if lines[|lines| - 1].Unknown? then Known(lines[..|lines| - 1])
    else Known(lines[..|lines| - 1]) + [lines[|lines| - 1]]
  }

  /** Unknown lines contribute nothing: dropping them leaves the record unchanged. */
  lemma {:induction false} UnknownLinesIgnored(lines: seq<MessageLine>, lastEventID: Option<string>)
    ensures Assembled(Known(lines), lastEventID) == Assembled(lines, lastEventID)
  {
    SameFieldsWithoutUnknown(lines);
  }

  lemma {:induction false} SameFieldsWithoutUnknown(lines: seq<MessageLine>)
    ensures forall f :: Texts(Known(lines), f) == Texts(lines, f)
    ensures Retries(Known(lines)) == Retries(lines)
  {
    if |lines| > 0 {
      var init, last := lines[..|lines| - 1], lines[|lines| - 1];
      SameFieldsWithoutUnknown(init);
      if !last.Unknown? {
        var k := Known(init) + [last];
        assert k[..|k| - 1] == Known(init);
      }
    }
  }

  // ----- serialisation: `asLines` -----

  /** The line of kind `f` with payload `v`. */
  function LineOf(f: TextField, v: string): (l: MessageLine)
    ensures forall g :: TextOf(l, g) == if g == f then Some(v) else None
  {
    match f
    case EventField => Event(v)
    case DataField => Data(v)
    case IdField => Id(v)
    case CommentField => Comment(v)
  }

  /** One line of kind `f` per payload, in order. */
  function LinesOf(f: TextField, parts: seq<string>): seq<MessageLine> {
    seq(|parts|, i requires 0 <= i < |parts| => LineOf(f, parts[i]))
  }

  /** One line of kind `f` for a set field, none for a nil one. */
  function OptionalLine(f: TextField, x: Option<string>): seq<MessageLine> {
    if x.Some? then [LineOf(f, x.value)] else []
  }

  /** One data line per newline-separated piece of `data`; none when it is empty. */
  function DataLines(data: string): seq<MessageLine> {
    if data == "" then [] else LinesOf(DataField, Components(data))
  }

  /**
   * The canonical line order: data, then id, event and retry when set,
   * then the comments in order; `lastEventID` is never written.
   */
  function ToLines(e: MessageEvent): seq<MessageLine> {
    DataLines(e.data)
    + OptionalLine(IdField, e.id)
    + OptionalLine(EventField, e.eventType)
    + (if e.retry.Some? then [Retry(e.retry.value)] else [])
    + LinesOf(CommentField, e.comments)
  }

  /** `asLines`: appends each group of lines in turn. */
  method AsLines(e: MessageEvent) returns (lines: seq<MessageLine>)
    ensures lines == ToLines(e)
  {
    lines := [];
    if e.data != "" {
      var parts := Components(e.data);
      lines := lines + seq(|parts|, i requires 0 <= i < |parts| => Data(parts[i]));
      assert lines == LinesOf(DataField, parts);
    }
    ghost var before := lines;
    assert before == DataLines(e.data);
    if e.id.Some? {
      lines := lines + [Id(e.id.value)];
    }
    assert lines == before + OptionalLine(IdField, e.id);
    before := lines;
    if e.eventType.Some? {
      lines := lines + [Event(e.eventType.value)];
    }
    assert lines == before + OptionalLine(EventField, e.eventType);
    if e.retry.Some? {
      lines := lines + [Retry(e.retry.value)];
    }
    var comments := seq(|e.comments|, i requires 0 <= i < |e.comments| => Comment(e.comments[i]));
    assert comments == LinesOf(CommentField, e.comments);
    lines := lines + comments;
  }

  /** The serialised lines do not depend on `lastEventID`. */
  lemma ToLinesOmitsLastEventID(e: MessageEvent, other: Option<string>)
    ensures ToLines(e.(lastEventID := other)) == ToLines(e)
  {
  }

  /** Number of data lines: none for empty data, else one more than its line breaks. */
  lemma DataLineCount(data: string)
    ensures |DataLines(data)| == if data == "" then 0 else NewlineCount(data) + 1
  {
  }

  lemma {:induction false} TextsOfLinesOf(f: TextField, parts: seq<string>, g: TextField)
    ensures Texts(LinesOf(f, parts), g) == if g == f then parts else []
    ensures Retries(LinesOf(f, parts)) == []
  {
    var s := LinesOf(f, parts);
    if |parts| > 0 {
      var init := parts[..|parts| - 1];
      assert s[..|s| - 1] == LinesOf(f, init);
      TextsOfLinesOf(f, init, g);
      assert init + [parts[|parts| - 1]] == parts;
    }
  }

  lemma TextsOfOptionalLine(f: TextField, x: Option<string>, g: TextField)
    ensures Texts(OptionalLine(f, x), g) == if g == f && x.Some? then [x.value] else []
    ensures Retries(OptionalLine(f, x)) == []
  {
    if x.Some? { assert OptionalLine(f, x)[..0] == []; }
  }

  lemma TextsAppend5(d: seq<MessageLine>, i: seq<MessageLine>, v: seq<MessageLine>,
                     r: seq<MessageLine>, c: seq<MessageLine>, g: TextField)
    ensures Texts(d + i + v + r + c, g) == Texts(d, g) + Texts(i, g) + Texts(v, g) + Texts(r, g) + Texts(c, g)
    ensures Retries(d + i + v + r + c) == Retries(d) + Retries(i) + Retries(v) + Retries(r) + Retries(c)
  {
    TextsAppend(d, i, g);
    TextsAppend(d + i, v, g);
    TextsAppend(d + i + v, r, g);
    TextsAppend(d + i + v + r, c, g);
    RetriesAppend(d, i);
    RetriesAppend(d + i, v);
    RetriesAppend(d + i + v, r);
    RetriesAppend(d + i + v + r, c);
  }

  lemma TextsOfRetryLine(r: Option<Int64>, g: TextField)
    ensures var lines := if r.Some? then [Retry(r.value)] else [];
      Texts(lines, g) == [] && Retries(lines) == if r.Some? then [r.value] else []
  {
    if r.Some? { assert [Retry(r.value)][..0] == []; }
  }

  /** The serialised lines, split at the field boundaries. */
  lemma TextsOfToLines(e: MessageEvent, g: TextField)
    ensures Texts(ToLines(e), g) ==
      Texts(DataLines(e.data), g) + Texts(OptionalLine(IdField, e.id), g)
      + Texts(OptionalLine(EventField, e.eventType), g) + Texts(LinesOf(CommentField, e.comments), g)
    ensures Retries(ToLines(e)) == if e.retry.Some? then [e.retry.value] else []
  {
    var d, i, v := DataLines(e.data), OptionalLine(IdField, e.id), OptionalLine(EventField, e.eventType);
    var r: seq<MessageLine> := if e.retry.Some? then [Retry(e.retry.value)] else [];
    var c := LinesOf(CommentField, e.comments);
    TextsAppend5(d, i, v, r, c, g);
    TextsOfRetryLine(e.retry, g);
    if e.data != "" { TextsOfLinesOf(DataField, Components(e.data), g); }
    TextsOfLinesOf(CommentField, e.comments, g);
    TextsOfOptionalLine(IdField, e.id, g);
    TextsOfOptionalLine(EventField, e.eventType, g);
  }

  /** Each field of a record is recovered from its serialised lines. */
  lemma FieldsOfToLines(e: MessageEvent, g: TextField)
    ensures Texts(ToLines(e), g) == match g
      case DataField => if e.data == "" then [] else Components(e.data)
      case IdField => if e.id.Some? then [e.id.value] else []
      case EventField => if e.eventType.Some? then [e.eventType.value] else []
      case CommentField => e.comments
  {
    TextsOfToLines(e, g);
    if e.data != "" { TextsOfLinesOf(DataField, Components(e.data), g); }
    TextsOfLinesOf(CommentField, e.comments, g);
    TextsOfOptionalLine(IdField, e.id, g);
    TextsOfOptionalLine(EventField, e.eventType, g);
  }

  /** The records that survive serialisation followed by assembly. */
  predicate RoundTrips(e: MessageEvent) {
    && (e.id.None? || e.lastEventID == e.id)
    && OnlyLineFeeds(e.data)
  }

  /**
   * Round trip: assembling `asLines` with the record's own `lastEventID`
   * gives the record back exactly when a present `id` equals `lastEventID`
   * and `data` breaks lines with line feeds only.
   */
  lemma AssembleToLines(e: MessageEvent)
    ensures Assembled(ToLines(e), e.lastEventID) == e <==> RoundTrips(e)
  {
    var lines := ToLines(e);
    FieldsOfToLines(e, DataField);
    FieldsOfToLines(e, IdField);
    FieldsOfToLines(e, EventField);
    FieldsOfToLines(e, CommentField);
    TextsOfToLines(e, DataField);
    JoinComponents(e.data);
    LineFeedsOnlyIdentity(e.data);
    var a := Assembled(lines, e.lastEventID);
    assert a.data == e.data <==> OnlyLineFeeds(e.data);
  }
}
