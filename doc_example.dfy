/**
 * The producer and consumer code of the documentation example: writing a
 * record as raw lines followed by an empty line (`Client.write`), replaying
 * the messages after a resume point (`onReconnectingClient`), parsing a
 * buffered group (`HTTPClient.parseLines`) and cutting a stream of raw
 * lines into groups at empty lines (the loop of `HTTPClient.messages`).
 * The asynchronous stream and task plumbing around that loop is not
 * modelled: the loop runs over a finite sequence of raw lines.
 */
module DocExample {
  import opened Wrappers
  import opened Text
  import opened MessageLines
  import opened MessageEvents

  // ----- consumer: `parseLines` -----

  /** The fixed data text of the error record. */
  const ErrorData: string := "Maybe include some error data\nthat can help diagnose\nor handle the error"

  /** The record `parseLines` returns when a line of the group does not parse. */
  function ErrorEvent(lastID: Option<string>): (e: MessageEvent)
    ensures e.eventType == Some("error") && e.id == None && e.lastEventID == lastID
    ensures e.data == ErrorData && e.retry == None && e.comments == []
  {
    NewMessageEvent(lastEventID := lastID, eventType := Some("error"), data := ErrorData)
  }

  /** `compactMap { $0 }`: the present values, in order. */
  function Compact<T>(xs: seq<Option<T>>): (r: seq<T>)
    ensures |r| <= |xs|
    ensures |r| == |xs| <==> forall i :: 0 <= i < |xs| ==> xs[i].Some?
    ensures |r| == |xs| ==> forall i :: 0 <= i < |xs| ==> xs[i].Some? && r[i] == xs[i].value
  {
    if |xs| == 0 then []
    else
      var rest := Compact(xs[1..]);
      match xs[0]
      case Some(v) => [v] + rest
      case None => rest
  }

  /** No raw line of the group holds a line break, so every one parses. */
  predicate AllParse(lines: seq<string>) {
    forall i :: 0 <= i < |lines| ==> !HasNewline(lines[i])
  }

  /** The parsed lines of a group in which every raw line parses. */
  function ParsedLines(lines: seq<string>): (r: seq<MessageLine>)
    requires AllParse(lines)
    ensures |r| == |lines| && forall i :: 0 <= i < |lines| ==> Parse(lines[i]) == Some(r[i])
  {
    seq(|lines|, i requires 0 <= i < |lines| => Parse(lines[i]).value)
  }

  /** `parseLines(_:lastID:)`: parse every raw line and assemble, or the error record. */
  function ParseLines(lines: seq<string>, lastID: Option<string>): MessageEvent {
    var maybeLines := seq(|lines|, i requires 0 <= i < |lines| => Parse(lines[i]));
    var parsedLines := Compact(maybeLines);
    if |maybeLines| == |parsedLines| then Assembled(parsedLines, lastID)
    else ErrorEvent(lastID)
  }

  /**
   * `parseLines` gives the assembled record when every raw line parses and
   * the error record otherwise; either way the record's resume point is its
   * own id if it has one, else `lastID`.
   */
  lemma ParseLinesOutcome(lines: seq<string>, lastID: Option<string>)
    ensures AllParse(lines) ==> ParseLines(lines, lastID) == Assembled(ParsedLines(lines), lastID)
    ensures !AllParse(lines) ==> ParseLines(lines, lastID) == ErrorEvent(lastID)
    ensures ParseLines(lines, lastID).lastEventID == NextID(ParseLines(lines, lastID), lastID)
  {
    var maybeLines := seq(|lines|, i requires 0 <= i < |lines| => Parse(lines[i]));
    var parsedLines := Compact(maybeLines);
    if |maybeLines| == |parsedLines| {
      assert AllParse(lines) by {
        forall i | 0 <= i < |lines| ensures !HasNewline(lines[i]) { assert maybeLines[i].Some?; }
      }
      assert parsedLines == ParsedLines(lines);
    } else {
      assert !AllParse(lines) by {
        if AllParse(lines) {
          assert forall i :: 0 <= i < |maybeLines| ==> maybeLines[i].Some?;
        }
      }
    }
  }

  // ----- consumer: the loop of `messages` -----

  /** The number of empty raw lines. */
  function EmptyLineCount(input: seq<string>): nat {
    if |input| == 0 then 0
    else EmptyLineCount(input[..|input| - 1]) + (if input[|input| - 1] == "" then 1 else 0)
  }

  /** The raw lines buffered since the last empty line. */
  function Pending(input: seq<string>): (r: seq<string>)
    ensures "" !in r
  {
    if |input| == 0 then []
    else if input[|input| - 1] == "" then []
    else Pending(input[..|input| - 1]) + [input[|input| - 1]]
  }

  /** The groups of raw lines that an empty line has completed, in order. */
  function Groups(input: seq<string>): (r: seq<seq<string>>)
    ensures |r| == EmptyLineCount(input)
    ensures forall k :: 0 <= k < |r| ==> "" !in r[k]
  {
    if |input| == 0 then []
    else if input[|input| - 1] == "" then Groups(input[..|input| - 1]) + [Pending(input[..|input| - 1])]
    else Groups(input[..|input| - 1])
  }

  /** Each group followed by the empty line that ends it. */
  function Framed(groups: seq<seq<string>>): seq<string> {
    if |groups| == 0 then []
    else Framed(groups[..|groups| - 1]) + groups[|groups| - 1] + [""]
  }

  /** The resume point after `e`: its id when it has one, else the one before. */
  function NextID(e: MessageEvent, lastID: Option<string>): Option<string> {
    if e.id.Some? then e.id else lastID
  }

  /** The records emitted for `groups`, threading the resume point from `lastID`. */
  function Replay(groups: seq<seq<string>>, lastID: Option<string>): (r: seq<MessageEvent>)
    ensures |r| == |groups|
  {
    if |groups| == 0 then []
    else
      var e := ParseLines(groups[0], lastID);
      [e] + Replay(groups[1..], NextID(e, lastID))
  }

  /** The resume point after all of `groups`. */
  function FinalID(groups: seq<seq<string>>, lastID: Option<string>): Option<string> {
    if |groups| == 0 then lastID
    else FinalID(groups[1..], NextID(ParseLines(groups[0], lastID), lastID))
  }

  /** The records `messages` yields for a finite input; it starts with no resume point. */
  function Segmented(input: seq<string>): seq<MessageEvent> {
    Replay(Groups(input), None)
  }

  /** One more group adds one record, parsed with the resume point reached so far. */
  lemma {:induction false} ReplaySnoc(groups: seq<seq<string>>, g: seq<string>, lastID: Option<string>)
    ensures Replay(groups + [g], lastID) == Replay(groups, lastID) + [ParseLines(g, FinalID(groups, lastID))]
    ensures FinalID(groups + [g], lastID) == NextID(ParseLines(g, FinalID(groups, lastID)), FinalID(groups, lastID))
  {
    if |groups| == 0 {
      assert [] + [g] == [g];
      assert [g][1..] == [];
    } else {
      var e := ParseLines(groups[0], lastID);
      assert (groups + [g])[1..] == groups[1..] + [g];
      ReplaySnoc(groups[1..], g, NextID(e, lastID));
    }
  }

  /** The loop of `messages`: buffer raw lines, and at each empty line emit and clear. */
  method Messages(input: seq<string>) returns (events: seq<MessageEvent>)
    ensures events == Segmented(input)
  {
    var lastID: Option<string> := None;
    var lines: seq<string> := [];
    events := [];
    for i := 0 to |input|
      invariant lines == Pending(input[..i])
      invariant events == Replay(Groups(input[..i]), None)
      invariant lastID == FinalID(Groups(input[..i]), None)
    {
      var line := input[i];
      assert input[..i + 1][..i] == input[..i];
      ReplaySnoc(Groups(input[..i]), lines, None);
      if line == "" {
        var message := ParseLines(lines, lastID);
        lines := [];
        if message.id.Some? {
          lastID := message.id;
        }
        events := events + [message];
      } else {
        lines := lines + [line];
      }
    }
    assert input[..|input|] == input;
  }

  /** One record per empty raw line. */
  lemma EventPerEmptyLine(input: seq<string>)
    ensures |Segmented(input)| == EmptyLineCount(input)
  {
  }

  /**
   * The record for group `k` is parsed from that group alone, with the
   * resume point the groups before it left.
   */
  lemma {:induction false} EventFromItsGroup(groups: seq<seq<string>>, lastID: Option<string>, k: nat)
    requires k < |groups|
    ensures Replay(groups, lastID)[k] == ParseLines(groups[k], FinalID(groups[..k], lastID))
  {
    if k > 0 {
      var e := ParseLines(groups[0], lastID);
      assert groups[1..][..k - 1] == groups[..k][1..];
      EventFromItsGroup(groups[1..], NextID(e, lastID), k - 1);
    }
  }

  /**
   * The resume point carried into the next group is the `lastEventID` of
   * the record emitted last: replaced only by a record that has an id.
   */
  lemma {:induction false} ResumePointIsLastEventID(groups: seq<seq<string>>, lastID: Option<string>)
    ensures FinalID(groups, lastID) ==
      if |groups| == 0 then lastID else Replay(groups, lastID)[|groups| - 1].lastEventID
  {
    if |groups| > 0 {
      var e := ParseLines(groups[0], lastID);
      ResumePointIsLastEventID(groups[1..], NextID(e, lastID));
    }
  }

  lemma {:induction false} FramedSnoc(groups: seq<seq<string>>, g: seq<string>)
    ensures Framed(groups + [g]) == Framed(groups) + g + [""]
  {
    assert (groups + [g])[..|groups|] == groups;
  }

  /** Framing the completed groups and adding the pending lines restores the input. */
  lemma {:induction false} GroupsThenPending(input: seq<string>)
    ensures Framed(Groups(input)) + Pending(input) == input
  {
    if |input| > 0 {
      var init, last := input[..|input| - 1], input[|input| - 1];
      GroupsThenPending(init);
      if last == "" {
        FramedSnoc(Groups(init), Pending(init));
      }
      assert init + [last] == input;
    }
  }

  /** Conversely, framed groups and a tail without empty lines are cut back into those groups. */
  lemma {:induction false} GroupsOfFramed(groups: seq<seq<string>>, tail: seq<string>)
    requires forall k :: 0 <= k < |groups| ==> "" !in groups[k]
    requires "" !in tail
    ensures Groups(Framed(groups) + tail) == groups
    ensures Pending(Framed(groups) + tail) == tail
    decreases |groups|, |tail|
  {
    if |tail| > 0 {
      var t' := tail[..|tail| - 1];
      GroupsOfFramed(groups, t');
      assert (Framed(groups) + tail)[..|Framed(groups) + tail| - 1] == Framed(groups) + t';
      assert t' + [tail[|tail| - 1]] == tail;
    } else if |groups| > 0 {
      var gs', g := groups[..|groups| - 1], groups[|groups| - 1];
      GroupsOfFramed(gs', g);
      assert Framed(groups) == Framed(gs') + g + [""];
      assert Framed(groups) + tail == Framed(groups);
      assert Framed(groups)[..|Framed(groups)| - 1] == Framed(gs') + g;
      assert gs' + [g] == groups;
    }
  }

  /** Raw lines after the last empty line are buffered but never emitted. */
  lemma {:induction false} TrailingLinesNotEmitted(input: seq<string>, tail: seq<string>)
    requires "" !in tail
    ensures Segmented(input + tail) == Segmented(input)
    decreases |tail|
  {
    if |tail| > 0 {
      var t' := tail[..|tail| - 1];
      TrailingLinesNotEmitted(input, t');
      assert (input + tail)[..|input + tail| - 1] == input + t';
    } else {
      assert input + tail == input;
    }
  }

  // ----- producer: `Client.write` and `onReconnectingClient` -----

  /** The raw text of each line, in order. */
  function FormatAll(lines: seq<MessageLine>): seq<string> {
    seq(|lines|, i requires 0 <= i < |lines| => Format(lines[i]))
  }

  /** The raw lines `write` sends for `e`: its formatted lines, then one empty line. */
  function Encoded(e: MessageEvent): seq<string> {
    FormatAll(ToLines(e)) + [""]
  }

  /** `Client.write`: each line of `asLines` as text, then the empty line that ends the record. */
  method Write(message: MessageEvent) returns (written: seq<string>)
    ensures written == Encoded(message)
  {
    var lines := AsLines(message);
    written := [];
    for i := 0 to |lines|
      invariant |written| == i
      invariant forall j :: 0 <= j < i ==> written[j] == Format(lines[j])
    {
      written := written + [Format(lines[i])];
    }
    written := written + [""];
  }

  /** A formatted line is never empty, so only the final line of a write ends a group. */
  lemma EncodedEndsOnce(e: MessageEvent)
    ensures |Encoded(e)| == |ToLines(e)| + 1 && Encoded(e)[|ToLines(e)|] == ""
    ensures "" !in FormatAll(ToLines(e))
  {
    var f := FormatAll(ToLines(e));
    forall i | 0 <= i < |f| ensures f[i] != "" {
      FormatIsKeyColonSpaceValue(ToLines(e)[i]);
    }
  }

  /** The messages from the first one whose id is `lastEventID` on; none if no id matches. */
  function DropUntilId(messages: seq<MessageEvent>, lastEventID: string): (r: seq<MessageEvent>)
    ensures |r| <= |messages|
  {
    if |messages| == 0 then []
    else if messages[0].id == Some(lastEventID) then messages
    else DropUntilId(messages[1..], lastEventID)
  }

  /** `messages.drop(while: { $0.id != lastEventID }).dropFirst()` */
  function Requested(messages: seq<MessageEvent>, lastEventID: string): (r: seq<MessageEvent>)
    ensures |r| <= |messages|
  {
    var rest := DropUntilId(messages, lastEventID);
    if |rest| == 0 then [] else rest[1..]
  }

  /** A reconnecting client is sent exactly the messages after the first one with its id. */
  lemma {:induction false} RequestedAfterFirstMatch(messages: seq<MessageEvent>, lastEventID: string, k: nat)
    requires k < |messages| && messages[k].id == Some(lastEventID)
    requires forall j :: 0 <= j < k ==> messages[j].id != Some(lastEventID)
    ensures Requested(messages, lastEventID) == messages[k + 1..]
  {
    if k > 0 {
      RequestedAfterFirstMatch(messages[1..], lastEventID, k - 1);
      assert messages[1..][k..] == messages[k + 1..];
    }
  }

  /** When no message has the id, nothing is sent. */
  lemma {:induction false} RequestedWithoutMatch(messages: seq<MessageEvent>, lastEventID: string)
    requires forall j :: 0 <= j < |messages| ==> messages[j].id != Some(lastEventID)
    ensures Requested(messages, lastEventID) == []
  {
    if |messages| > 0 {
      RequestedWithoutMatch(messages[1..], lastEventID);
    }
  }

  /** The raw-line group `write` sends for each message. */
  function WireGroups(messages: seq<MessageEvent>): seq<seq<string>> {
    seq(|messages|, i requires 0 <= i < |messages| => FormatAll(ToLines(messages[i])))
  }

  /** What writing each message in turn sends. */
  function Transmitted(messages: seq<MessageEvent>): seq<string> {
    if |messages| == 0 then []
    else Transmitted(messages[..|messages| - 1]) + Encoded(messages[|messages| - 1])
  }

  /** What is sent is the messages' line groups, each ended by an empty line. */
  lemma {:induction false} TransmittedIsFramed(messages: seq<MessageEvent>)
    ensures Transmitted(messages) == Framed(WireGroups(messages))
  {
    if |messages| > 0 {
      var init := messages[..|messages| - 1];
      TransmittedIsFramed(init);
      assert WireGroups(messages)[..|messages| - 1] == WireGroups(init);
    }
  }

  /** `onReconnectingClient`: writes every requested message in order. */
  method OnReconnectingClient(messages: seq<MessageEvent>, lastEventID: string) returns (written: seq<string>)
    ensures written == Transmitted(Requested(messages, lastEventID))
  {
    var requested := Requested(messages, lastEventID);
    written := [];
    for i := 0 to |requested|
      invariant written == Transmitted(requested[..i])
    {
      var w := Write(requested[i]);
      assert requested[..i + 1][..i] == requested[..i];
      written := written + w;
    }
    assert requested[..|requested|] == requested;
  }

  // ----- end to end -----

  /** A record whose texts survive being written as lines and parsed again. */
  predicate WireSafeEvent(e: MessageEvent) {
    && OnlyLineFeeds(e.data)
    && (e.eventType.Some? ==> !HasNewline(e.eventType.value))
    && (e.id.Some? ==> !HasNewline(e.id.value))
    && (forall i :: 0 <= i < |e.comments| ==> !HasNewline(e.comments[i]))
  }

  /**
   * Each record's resume point is its own id when it has one, and
   * otherwise the resume point of the record before it (`lastID` first).
   */
  predicate ChainedFrom(messages: seq<MessageEvent>, lastID: Option<string>)
    decreases |messages|
  {
    |messages| == 0 ||
      (messages[0].lastEventID == NextID(messages[0], lastID) && ChainedFrom(messages[1..], messages[0].lastEventID))
  }

  /** Every line of `lines` is wire-safe. */
  predicate AllWireSafe(lines: seq<MessageLine>) {
    forall i :: 0 <= i < |lines| ==> WireSafe(lines[i])
  }

  lemma AllWireSafeAppend(a: seq<MessageLine>, b: seq<MessageLine>)
    requires AllWireSafe(a) && AllWireSafe(b)
    ensures AllWireSafe(a + b)
  {
    forall i | 0 <= i < |a + b| ensures WireSafe((a + b)[i]) {
      if i >= |a| { assert (a + b)[i] == b[i - |a|]; }
    }
  }

  lemma LinesOfWireSafe(f: TextField, parts: seq<string>)
    requires forall i :: 0 <= i < |parts| ==> !HasNewline(parts[i])
    ensures AllWireSafe(LinesOf(f, parts))
  {
    forall i | 0 <= i < |parts| ensures WireSafe(LinesOf(f, parts)[i]) {
      assert LinesOf(f, parts)[i] == LineOf(f, parts[i]);
    }
  }

  /** Every serialised line of a wire-safe record is a wire-safe line. */
  lemma {:induction false} ToLinesWireSafe(e: MessageEvent)
    requires WireSafeEvent(e)
    ensures AllWireSafe(ToLines(e))
  {
    var d, i, v := DataLines(e.data), OptionalLine(IdField, e.id), OptionalLine(EventField, e.eventType);
    var r: seq<MessageLine> := if e.retry.Some? then [Retry(e.retry.value)] else [];
    var c := LinesOf(CommentField, e.comments);
    if e.data != "" { LinesOfWireSafe(DataField, Components(e.data)); }
    LinesOfWireSafe(CommentField, e.comments);
    assert AllWireSafe(i) && AllWireSafe(v) && AllWireSafe(r);
    AllWireSafeAppend(d, i);
    AllWireSafeAppend(d + i, v);
    AllWireSafeAppend(d + i + v, r);
    AllWireSafeAppend(d + i + v + r, c);
  }

  /** The group `write` sends for a wire-safe record parses back into its lines. */
  lemma {:induction false} ParseWireLines(e: MessageEvent, lastID: Option<string>)
    requires WireSafeEvent(e)
    ensures ParseLines(FormatAll(ToLines(e)), lastID) == Assembled(ToLines(e), lastID)
  {
    var lines := ToLines(e);
    var raw := FormatAll(lines);
    ToLinesWireSafe(e);
    forall i | 0 <= i < |lines| ensures Parse(raw[i]) == Some(lines[i]) {
      FormatThenParse(lines[i]);
    }
    assert AllParse(raw);
    assert ParsedLines(raw) == lines;
    ParseLinesOutcome(raw, lastID);
  }

  /** Assembling a record's lines with the resume point before it gives the record back. */
  lemma {:induction false} AssembleToLinesFrom(e: MessageEvent, lastID: Option<string>)
    requires RoundTrips(e) && e.lastEventID == NextID(e, lastID)
    ensures Assembled(ToLines(e), lastID) == e
  {
    AssembleToLines(e);
    FieldsOfToLines(e, IdField);
  }

  /** The group `write` sends for a record is parsed back into that record. */
  lemma {:induction false} WireGroupParsesBack(m: MessageEvent, lastID: Option<string>)
    requires WireSafeEvent(m) && m.lastEventID == NextID(m, lastID)
    ensures ParseLines(FormatAll(ToLines(m)), lastID) == m
  {
    ParseWireLines(m, lastID);
    AssembleToLinesFrom(m, lastID);
  }

  /** Replaying a non-empty list is replaying its first group, then the rest from the new resume point. */
  lemma ReplayFirst(groups: seq<seq<string>>, lastID: Option<string>, e: MessageEvent, rest: seq<MessageEvent>)
    requires |groups| > 0 && ParseLines(groups[0], lastID) == e
    requires Replay(groups[1..], NextID(e, lastID)) == rest
    ensures Replay(groups, lastID) == [e] + rest
  {
  }

  lemma WireGroupsFirst(messages: seq<MessageEvent>)
    requires |messages| > 0
    ensures WireGroups(messages)[0] == FormatAll(ToLines(messages[0]))
    ensures WireGroups(messages)[1..] == WireGroups(messages[1..])
  {
  }

  lemma ChainedRest(messages: seq<MessageEvent>, lastID: Option<string>)
    requires |messages| > 0
    requires forall i :: 0 <= i < |messages| ==> WireSafeEvent(messages[i])
    requires ChainedFrom(messages, lastID)
    ensures WireSafeEvent(messages[0]) && messages[0].lastEventID == NextID(messages[0], lastID)
    ensures forall i :: 0 <= i < |messages[1..]| ==> WireSafeEvent(messages[1..][i])
    ensures ChainedFrom(messages[1..], messages[0].lastEventID)
  {
  }

  /** A group written for a record, followed by groups that replay to `rest`, replays to the record and then `rest`. */
  lemma {:induction false} ReplayWrittenGroup(m: MessageEvent, lastID: Option<string>, groups: seq<seq<string>>, rest: seq<MessageEvent>)
    requires WireSafeEvent(m) && m.lastEventID == NextID(m, lastID)
    requires |groups| > 0 && groups[0] == FormatAll(ToLines(m))
    requires Replay(groups[1..], m.lastEventID) == rest
    ensures Replay(groups, lastID) == [m] + rest
  {
    WireGroupParsesBack(m, lastID);
    ReplayFirst(groups, lastID, m, rest);
  }

  lemma {:induction false} ReplayWireGroups(messages: seq<MessageEvent>, lastID: Option<string>)
    requires forall i :: 0 <= i < |messages| ==> WireSafeEvent(messages[i])
    requires ChainedFrom(messages, lastID)
    ensures Replay(WireGroups(messages), lastID) == messages
    decreases |messages|
  {
    if |messages| > 0 {
      ChainedRest(messages, lastID);
      WireGroupsFirst(messages);
      ReplayWireGroups(messages[1..], messages[0].lastEventID);
      ReplayWrittenGroup(messages[0], lastID, WireGroups(messages), messages[1..]);
      assert messages == [messages[0]] + messages[1..];
    }
  }

  /**
   * End to end: cutting what `write` sends for each message of a list back
   * into records reproduces the list, when every record is wire-safe and
   * the resume points chain from none.
   */
  lemma {:induction false} SegmentTransmitted(messages: seq<MessageEvent>)
    requires forall i :: 0 <= i < |messages| ==> WireSafeEvent(messages[i])
    requires ChainedFrom(messages, None)
    ensures Segmented(Transmitted(messages)) == messages
  {
    var gs := WireGroups(messages);
    forall k | 0 <= k < |gs| ensures "" !in gs[k] {
      EncodedEndsOnce(messages[k]);
    }
    GroupsOfFramed(gs, []);
    TransmittedIsFramed(messages);
    assert Framed(gs) + [] == Framed(gs);
    ReplayWireGroups(messages, None);
  }

  /** Records that each carry an id, as the memberwise initialiser couples it, chain from any resume point. */
  lemma {:induction false} ChainedWhenEveryIdSet(messages: seq<MessageEvent>, lastID: Option<string>)
    requires forall i :: 0 <= i < |messages| ==> messages[i].id.Some? && IdCoupled(messages[i])
    ensures ChainedFrom(messages, lastID)
    decreases |messages|
  {
    if |messages| > 0 {
      assert forall i :: 0 <= i < |messages[1..]| ==> messages[1..][i] == messages[i + 1];
      ChainedWhenEveryIdSet(messages[1..], messages[0].lastEventID);
    }
  }

  /**
   * A reconnecting client that segments what it is sent receives exactly
   * the messages after the first one with its resume point, when every
   * message is wire-safe and carries an id.
   */
  lemma ReconnectReplaysSuffix(messages: seq<MessageEvent>, lastEventID: string)
    requires forall i :: 0 <= i < |messages| ==> WireSafeEvent(messages[i])
    requires forall i :: 0 <= i < |messages| ==> messages[i].id.Some? && IdCoupled(messages[i])
    ensures Segmented(Transmitted(Requested(messages, lastEventID))) == Requested(messages, lastEventID)
  {
    var sent := Requested(messages, lastEventID);
    RequestedIsSuffix(messages, lastEventID);
    var k := |messages| - |sent|;
    assert forall i :: 0 <= i < |sent| ==> sent[i] == messages[k + i];
    ChainedWhenEveryIdSet(sent, None);
    SegmentTransmitted(sent);
  }

  /** The requested messages are a suffix of the list. */
  lemma {:induction false} RequestedIsSuffix(messages: seq<MessageEvent>, lastEventID: string)
    ensures Requested(messages, lastEventID) == messages[|messages| - |Requested(messages, lastEventID)|..]
  {
    var rest := DropUntilId(messages, lastEventID);
    DropUntilIdIsSuffix(messages, lastEventID);
    if |rest| > 0 {
      assert rest[1..] == messages[|messages| - |rest| + 1..];
    }
  }

  lemma {:induction false} DropUntilIdIsSuffix(messages: seq<MessageEvent>, lastEventID: string)
    ensures DropUntilId(messages, lastEventID) == messages[|messages| - |DropUntilId(messages, lastEventID)|..]
  {
    if |messages| > 0 && messages[0].id != Some(lastEventID) {
      DropUntilIdIsSuffix(messages[1..], lastEventID);
      var r := DropUntilId(messages[1..], lastEventID);
      assert messages[1..][|messages| - 1 - |r|..] == messages[|messages| - |r|..];
    }
  }
}
