# Server-sent event models in Dafny

This project models the core of `swift-server-sent-event-models`, a Swift library with the value types of a server-sent event stream.

- **`MessageLine`** is one raw line of the stream: `event`, `data`, `id`, `retry`, a comment or an unknown key.
  - The parser reads it from text; lines containing a line break are rejected.
  - The formatter writes it back as `key: value`.
- **`MessageEvent`** is one application-level message, made of data, an event type, an id, a retry delay and comments.
  - It also carries `lastEventID`, the resume point.
  - The assembler folds a group of lines into a record: data lines are joined, comments accumulate, other kinds are last-wins, unknown lines are ignored.
  - The serialiser expands a record into lines in a fixed order.
- **The documentation example** has producer and consumer code built on these two types.
  - The producer writes a record as lines followed by an empty line, and replays the messages after a resume point to a reconnecting client.
  - The consumer cuts a stream of raw lines into groups at empty lines, parses each group and threads the resume point from one record to the next.

Files:

- `wrappers.dfy`: `Option`.
- `text.dfy` (module `Text`): the parts of Swift's string and integer behaviour the core relies on:
  - the Unicode newline characters;
  - `firstIndex(of:)`;
  - `components(separatedBy: .newlines)`;
  - `joined(separator: "\n")`;
  - `Int(String)` over 64-bit integers;
  - `Int.description`.
- `message_line.dfy` (module `MessageLines`): the line codec.
- `message_event.dfy` (module `MessageEvents`): the record.
  - The assembler is the method `Assemble`, a loop proved against the specification function `Assembled`.
  - The serialiser is the method `AsLines`, proved against `ToLines`.
- `doc_example.dfy` (module `DocExample`): the producer and consumer code of the documentation example.
  - All three are methods over finite sequences: `Write`, `OnReconnectingClient` and `Messages`.
  - Each is proved against a specification function, and end-to-end lemmas link the producer to the consumer.

A record is parsed back exactly from the group written for it when it is wire-safe (its data breaks lines with line feeds only, and its event type, id and comments hold no line break) and its `lastEventID` is its own id if it has one, else the resume point carried in (`DocExample.WireGroupParsesBack`). For a list of such records, what the producer sends is cut back by the consumer into exactly that list, provided each record's resume point follows from the one before (`DocExample.SegmentTransmitted`). A reconnecting client that segments what it is sent receives exactly the messages after the first one whose id is its resume point, when every message is wire-safe and carries an id coupled to its resume point (`DocExample.ReconnectReplaysSuffix`).

Material outside the model:

- Input and output become values. The stream of raw input lines is a `seq<string>` parameter. What `writeLine` outputs is the `seq<string>` a method returns.
- Swift's `Int` is 64 bits wide. It is modelled as the subtype `Int64` of `int`.

### Where the model follows the code over the tests and the standard

- **Retry and comments are kept.** The tests at `Tests/ServerSentEventModelsTests/MessageEventTests.swift:5-54` expect `retry` and `comments` to be absent after assembly. The code at `Sources/ServerSentEventModels/MessageEvent.swift:54-57` sets both, and the model follows the code.
- **Signs are accepted in `retry`.** The server-sent events section of the WHATWG HTML standard ("Interpreting an event stream") accepts a `retry` value only if it is all ASCII digits. The code uses `Int(value)`, which also accepts a leading `+` or `-`, so `retry: -5` parses as `Retry(-5)`. The model follows the code.
- **An empty group still yields a record.** The consumer loop produces a record at every empty line, even when the group has no data. The standard would dispatch nothing in that case. The model follows the code.
- **Line breaks are folded to line feeds.** A record's `data` is split at every Unicode line break and joined again with line feeds. So a record whose data holds a carriage return does not survive serialisation followed by assembly (`MessageEvents.AssembleToLines` states exactly which records do).

## Model

| member | source | states |
|---|---|---|
| Text.IsNewline | Sources/ServerSentEventModels/MessageLine.swift:29 | no contract of its own: `Character.isNewline` as the Unicode scalars LF, VT, FF, CR, NEL, LS and PS; `Parse` and `Components` are stated in terms of it |
| Text.HasNewline | Sources/ServerSentEventModels/MessageLine.swift:29 | no contract of its own: `contains(where: \.isNewline)`; `MessageLines.Parse` fails exactly when it holds, and `FormattedNewline` says when a written line satisfies it |
| Text.FirstIndexOf | Sources/ServerSentEventModels/MessageLine.swift:34 | finds no colon exactly when there is none; otherwise the index holds a colon and no colon comes before it |
| Text.Components | Sources/ServerSentEventModels/MessageEvent.swift:73 | splitting at line breaks gives one more piece than there are line breaks, and no piece holds a line break |
| Text.LineFeedsOnly | Sources/ServerSentEventModels/MessageEvent.swift:63-73 | normalising every line break to a line feed keeps the length |
| Text.Join | Sources/ServerSentEventModels/MessageEvent.swift:63 | no contract of its own: `joined(separator: "\n")`; its behaviour is stated by `JoinSnoc`, `JoinComponents` and `ComponentsJoin` |
| Text.JoinComponents | Sources/ServerSentEventModels/MessageEvent.swift:63-73 | joining the newline-split pieces with line feeds gives the text with every line break turned into a line feed |
| Text.LineFeedsOnlyIdentity | Sources/ServerSentEventModels/MessageEvent.swift:63-73 | that normalisation leaves a text unchanged if and only if its only line breaks are line feeds |
| Text.JoinSnoc | Sources/ServerSentEventModels/MessageEvent.swift:63 | joining one more part appends a line feed and that part, or gives just that part when there was none before |
| Text.ComponentsJoin | Sources/ServerSentEventModels/MessageEvent.swift:63-73 | joining newline-free pieces with line feeds and splitting again gives the pieces back |
| Text.ParseInt | Sources/ServerSentEventModels/MessageLine.swift:55-57 | the empty text is not an integer |
| Text.ParseIntRejectsNonDigit | Sources/ServerSentEventModels/MessageLine.swift:55-56 | any non-digit character makes integer parsing fail, except a sign in front of at least one digit |
| Text.ParseIntDigits | Sources/ServerSentEventModels/MessageLine.swift:55-57 | a non-empty run of digits whose value fits in 64 bits parses to that value |
| Text.ParseIntSigned | Sources/ServerSentEventModels/MessageLine.swift:55-57 | a `+` or `-` in front of one or more digits, leading zeros allowed, gives the signed value when it lies in the 64-bit range and nil outside it |
| Text.ParseIntOverflow | Sources/ServerSentEventModels/MessageLine.swift:55-57 | unsigned digits whose value exceeds the 64-bit maximum do not parse |
| Text.ParseIntExamples | Sources/ServerSentEventModels/MessageLine.swift:55-57 | `+5` parses to 5, `-05` to -5, and the decimal texts one past either end of the 64-bit range do not parse |
| Text.NatText | Sources/ServerSentEventModels/MessageLine.swift:72-73 | the decimal text of a natural number is non-empty digits with that value and no leading zero |
| Text.IntText | Sources/ServerSentEventModels/MessageLine.swift:72-73 | no contract of its own: `Int.description`, a `-` before `NatText` of the magnitude for negatives; `ParseIntText` and `IntTextHasNoNewline` state its behaviour |
| Text.ParseIntText | Sources/ServerSentEventModels/MessageLine.swift:55-73 | every 64-bit integer written in decimal parses back to itself |
| Text.IntTextHasNoNewline | Sources/ServerSentEventModels/MessageLine.swift:72-73 | the decimal text of an integer holds no line break |
| MessageLines.SplitField | Sources/ServerSentEventModels/MessageLine.swift:32-43 | no contract of its own: the split at the first colon; `ParseAtFirstColon` and `ParseWithoutColon` state its result through `Parse` |
| MessageLines.Classify | Sources/ServerSentEventModels/MessageLine.swift:45-60 | the line keeps the key; it is `Retry` exactly for key `retry` with an integer value, holding that value; every other line keeps the value; it is `Unknown` exactly for an unrecognised key that is not a valid retry |
| MessageLines.Parse | Sources/ServerSentEventModels/MessageLine.swift:28-61 | parsing fails if and only if the text holds a line break |
| MessageLines.Format | Sources/ServerSentEventModels/MessageLine.swift:64-79 | no contract of its own: `asString`; `FormatIsKeyColonSpaceValue` states its shape and `FormatThenParse` its round trip with `Parse` |
| MessageLines.FormatIsKeyColonSpaceValue | Sources/ServerSentEventModels/MessageLine.swift:64-79 | every line is written as its key, a colon, a space and its value |
| MessageLines.ParseAtFirstColon | Sources/ServerSentEventModels/MessageLine.swift:34-39 | with a colon, the key is the text before the first colon and the value is the rest minus at most one leading space |
| MessageLines.ParseWithoutColon | Sources/ServerSentEventModels/MessageLine.swift:40-43 | without a colon, the whole text is the key and the value is empty |
| MessageLines.FormattedNewline | Sources/ServerSentEventModels/MessageLine.swift:29-79 | a written line holds a line break exactly when its key or value does |
| MessageLines.ParseFormatted | Sources/ServerSentEventModels/MessageLine.swift:28-79 | a key with no colon or line break and a value with no line break are read back as that key and value |
| MessageLines.ParseFormattedColonKey | Sources/ServerSentEventModels/MessageLine.swift:34-77 | an unknown key that holds a colon is read back as a different key |
| MessageLines.FormatThenParse | Sources/ServerSentEventModels/MessageLine.swift:28-79 | writing a line and parsing it gives the line back if and only if it is wire-safe |
| MessageLines.SafeLineRoundTrips | Sources/ServerSentEventModels/MessageLine.swift:28-79 | a wire-safe line survives writing and parsing |
| MessageLines.UnsafeLineChanges | Sources/ServerSentEventModels/MessageLine.swift:28-79 | a line that is not wire-safe does not survive writing and parsing |
| MessageLines.ParseRetry | Sources/ServerSentEventModels/MessageLine.swift:54-59 | a `retry` line becomes `Retry` only when its whole value is an integer; otherwise it is `Unknown("retry", value)` |
| MessageLines.RetryValuesThatAreNotIntegers | Sources/ServerSentEventModels/MessageLine.swift:55-56 | a decimal point or surrounding spaces make a retry value non-integer |
| MessageEvents.NewMessageEvent | Sources/ServerSentEventModels/MessageEvent.swift:25-39 | every field is stored as given, except that a present id replaces the resume point |
| MessageEvents.Assembled | Sources/ServerSentEventModels/MessageEvent.swift:44-65 | an assembled record's id, when present, is its resume point |
| MessageEvents.Assemble | Sources/ServerSentEventModels/MessageEvent.swift:44-65 | the one-pass loop over the lines computes the assembled record |
| MessageEvents.LastTextWins | Sources/ServerSentEventModels/MessageEvent.swift:46-61 | the last line of a kind gives that kind's last payload |
| MessageEvents.EventTypeIsLastEventLine | Sources/ServerSentEventModels/MessageEvent.swift:48-49 | the event type is the value of the last `event` line |
| MessageEvents.IdIsLastIdLine | Sources/ServerSentEventModels/MessageEvent.swift:52-64 | id and resume point are both the value of the last `id` line |
| MessageEvents.RetryIsLastRetryLine | Sources/ServerSentEventModels/MessageEvent.swift:56-57 | retry is the delay of the last `retry` line |
| MessageEvents.AbsentFieldKeepsDefault | Sources/ServerSentEventModels/MessageEvent.swift:44-65 | with no line of a kind, that field keeps its default (no event type, empty data, no comments); with no `id` line, no id and the carried resume point |
| MessageEvents.AbsentRetryStaysNil | Sources/ServerSentEventModels/MessageEvent.swift:56-57 | with no `retry` line, retry stays nil |
| MessageEvents.AssembledFromNoLines | Sources/ServerSentEventModels/MessageEvent.swift:44-65 | no lines give the default record with the carried resume point |
| MessageEvents.AccumulatedInArrivalOrder | Sources/ServerSentEventModels/MessageEvent.swift:50-55 | a further data line extends the record's data by a line feed and its value (or is the whole data when it is the first data line); a further comment line is appended after the earlier comments |
| MessageEvents.UnknownLinesIgnored | Sources/ServerSentEventModels/MessageEvent.swift:58-59 | removing the unknown lines does not change the record |
| MessageEvents.SameFieldsWithoutUnknown | Sources/ServerSentEventModels/MessageEvent.swift:46-61 | removing the unknown lines keeps every kind's payloads and the retry delays |
| MessageEvents.DataSplitsIntoDataLines | Sources/ServerSentEventModels/MessageEvent.swift:63-73 | when no data line holds a line break, splitting the joined data gives the data lines back in order |
| MessageEvents.ToLines | Sources/ServerSentEventModels/MessageEvent.swift:69-88 | no contract of its own: the canonical line order of `asLines`; `AsLines` computes it, `FieldsOfToLines`/`TextsOfToLines` state its contents and `AssembleToLines` its round trip |
| MessageEvents.AsLines | Sources/ServerSentEventModels/MessageEvent.swift:69-88 | the sequence of appends computes the canonical line list |
| MessageEvents.ToLinesOmitsLastEventID | Sources/ServerSentEventModels/MessageEvent.swift:69-88 | the serialised lines do not depend on the resume point |
| MessageEvents.DataLineCount | Sources/ServerSentEventModels/MessageEvent.swift:72-74 | empty data gives no data line; other data gives one more line than it has line breaks |
| MessageEvents.TextsOfToLines | Sources/ServerSentEventModels/MessageEvent.swift:69-88 | the payloads of each text kind in the serialised lines are those of the data group, then the id line, the event line and the comment group; the retry delays in them are exactly the record's retry, if set |
| MessageEvents.FieldsOfToLines | Sources/ServerSentEventModels/MessageEvent.swift:69-88 | the payloads of each text kind in the serialised lines are the record's own: the newline-split pieces of non-empty data (none for empty data), the id and the event type when set, and the comments in order |
| MessageEvents.AssembleToLines | Sources/ServerSentEventModels/MessageEvent.swift:44-88 | assembling a record's lines with its own resume point gives the record back if and only if any id equals the resume point and data breaks lines with line feeds only |
| DocExample.ErrorEvent | Tests/ServerSentEventModelsTests/DocExampleTests.swift:216-224 | the error record has event type `error`, the fixed data, no id, retry or comments, and the carried resume point |
| DocExample.Compact | Tests/ServerSentEventModelsTests/DocExampleTests.swift:210-213 | dropping the nils keeps the length exactly when no entry is nil, and then keeps every value in place |
| DocExample.ParsedLines | Tests/ServerSentEventModelsTests/DocExampleTests.swift:209-210 | when every raw line parses, the parsed lines correspond one to one |
| DocExample.ParseLines | Tests/ServerSentEventModelsTests/DocExampleTests.swift:208-229 | no contract of its own: `parseLines`; `ParseLinesOutcome` states its result |
| DocExample.ParseLinesOutcome | Tests/ServerSentEventModelsTests/DocExampleTests.swift:208-229 | the assembled record when every raw line parses, else the error record; in both cases the resume point is the record's id if present, else the one carried in |
| DocExample.Pending | Tests/ServerSentEventModelsTests/DocExampleTests.swift:235-248 | the buffer never holds an empty line |
| DocExample.Groups | Tests/ServerSentEventModelsTests/DocExampleTests.swift:236-248 | one completed group per empty line, none holding an empty line |
| DocExample.Replay | Tests/ServerSentEventModelsTests/DocExampleTests.swift:236-245 | one record per group |
| DocExample.ReplaySnoc | Tests/ServerSentEventModelsTests/DocExampleTests.swift:236-245 | one more group adds one record, parsed with the resume point reached so far, and updates the resume point |
| DocExample.Segmented | Tests/ServerSentEventModelsTests/DocExampleTests.swift:231-252 | no contract of its own: the records `messages` yields for a finite input; `Messages` computes it, `EventPerEmptyLine`, `EventFromItsGroup` and `TrailingLinesNotEmitted` state its contents |
| DocExample.Messages | Tests/ServerSentEventModelsTests/DocExampleTests.swift:231-252 | the loop with its buffer and resume point emits exactly the segmented records of the input |
| DocExample.EventPerEmptyLine | Tests/ServerSentEventModelsTests/DocExampleTests.swift:237-245 | one record per empty raw line |
| DocExample.EventFromItsGroup | Tests/ServerSentEventModelsTests/DocExampleTests.swift:236-245 | record k is parsed from group k alone, with the resume point the earlier groups left |
| DocExample.ResumePointIsLastEventID | Tests/ServerSentEventModelsTests/DocExampleTests.swift:241-243 | the resume point carried forward is the resume point of the last record emitted |
| DocExample.GroupsThenPending | Tests/ServerSentEventModelsTests/DocExampleTests.swift:236-248 | the framed groups followed by the buffer are exactly the input |
| DocExample.GroupsOfFramed | Tests/ServerSentEventModelsTests/DocExampleTests.swift:236-248 | groups without empty lines, each ended by an empty line, are cut back into those groups, and the unfinished tail stays buffered |
| DocExample.TrailingLinesNotEmitted | Tests/ServerSentEventModelsTests/DocExampleTests.swift:246-248 | non-empty lines after the last empty line produce no record |
| DocExample.Write | Tests/ServerSentEventModelsTests/DocExampleTests.swift:174-181 | writes the formatted lines of `asLines` in order, then one empty line |
| DocExample.Encoded | Tests/ServerSentEventModelsTests/DocExampleTests.swift:174-181 | no contract of its own: the raw lines `write` sends; `Write` computes it and `EncodedEndsOnce` states where its empty line is |
| DocExample.EncodedEndsOnce | Tests/ServerSentEventModelsTests/DocExampleTests.swift:174-181 | a written group has exactly one empty line, at its end |
| DocExample.DropUntilId | Tests/ServerSentEventModelsTests/DocExampleTests.swift:160 | dropping while the id differs never lengthens the list |
| DocExample.Requested | Tests/ServerSentEventModelsTests/DocExampleTests.swift:160 | the requested messages never outnumber the messages |
| DocExample.RequestedAfterFirstMatch | Tests/ServerSentEventModelsTests/DocExampleTests.swift:160 | the requested messages are exactly those after the first one with the given id |
| DocExample.RequestedWithoutMatch | Tests/ServerSentEventModelsTests/DocExampleTests.swift:160 | when no message has the id, nothing is requested |
| DocExample.RequestedIsSuffix | Tests/ServerSentEventModelsTests/DocExampleTests.swift:160 | the requested messages are a suffix of the list |
| DocExample.DropUntilIdIsSuffix | Tests/ServerSentEventModelsTests/DocExampleTests.swift:160 | dropping while the id differs leaves a suffix of the list |
| DocExample.Transmitted | Tests/ServerSentEventModelsTests/DocExampleTests.swift:146-164 | no contract of its own: what writing messages in turn sends, as `onNewClient` and `onReconnectingClient` do; `TransmittedIsFramed` and `SegmentTransmitted` state its contents |
| DocExample.TransmittedIsFramed | Tests/ServerSentEventModelsTests/DocExampleTests.swift:159-181 | writing messages in turn sends each message's line group, ended by an empty line |
| DocExample.OnReconnectingClient | Tests/ServerSentEventModelsTests/DocExampleTests.swift:159-164 | writes exactly the requested messages, in order |
| DocExample.ToLinesWireSafe | Sources/ServerSentEventModels/MessageEvent.swift:69-88 | every line of a wire-safe record is a wire-safe line |
| DocExample.ParseWireLines | Tests/ServerSentEventModelsTests/DocExampleTests.swift:208-229 | the group written for a wire-safe record parses back into the record's lines |
| DocExample.AssembleToLinesFrom | Sources/ServerSentEventModels/MessageEvent.swift:44-88 | assembling a record's lines with the resume point before it gives the record back, when its resume point follows from that one |
| DocExample.WireGroupParsesBack | Tests/ServerSentEventModelsTests/DocExampleTests.swift:174-229 | the group written for a wire-safe record is parsed back into that record |
| DocExample.ReplayWrittenGroup | Tests/ServerSentEventModelsTests/DocExampleTests.swift:236-245 | a group written for a record, followed by groups that replay to some records, replays to that record and then those records |
| DocExample.ReplayWireGroups | Tests/ServerSentEventModelsTests/DocExampleTests.swift:231-252 | replaying the written groups of a chained list of wire-safe records gives the list back |
| DocExample.SegmentTransmitted | Tests/ServerSentEventModelsTests/DocExampleTests.swift:146-252 | the consumer cuts what the producer writes for a chained list of wire-safe records back into exactly that list |
| DocExample.ChainedWhenEveryIdSet | Sources/ServerSentEventModels/MessageEvent.swift:35 | records that each carry an id, coupled to the resume point as the initialiser does, chain from any resume point |
| DocExample.ReconnectReplaysSuffix | Tests/ServerSentEventModelsTests/DocExampleTests.swift:113-164 | a reconnecting client segments what it is sent into exactly the messages after the first one with its resume point, when all are wire-safe and carry ids |

## Left out

- Asynchronous plumbing is not modelled: `async`/`await`, `Task`, `AsyncStream` and its continuation. The consumer loop runs over a finite sequence of raw lines, and its output is the returned list of records.
- The I/O of `writeLine` and `newlineSeparatedInput` is not modelled. Output is the returned list of raw lines, and input is a parameter.
- The message handler `handleData` (logging, status and chat dispatch), `onNewClient`, `sendNewMessage` and the test classes are outside the modelled core.
  - `onNewClient` sends `Transmitted(messages)`.
  - What the test at `DocExampleTests.swift:82-97` checks is the content of `SegmentTransmitted`.
- `Codable` and `Equatable` conformance is not modelled. Dafny's datatype equality stands in for the synthesised `==`.
- Strings are sequences of Unicode scalars, not Swift grapheme clusters. Character-level searches, such as a colon followed by a combining mark, and Swift's canonical-equivalence string comparison are not modelled.
- `init?(lines:lastEventID:)` never returns nil in the code. It is modelled as the total `Assembled`/`Assemble`, and the `let message = ...` arm of the guard in `parseLines` always succeeds.
- `Text.ParseInt`: its own contract only states that the empty text fails. The other cases are stated by lemmas. `ParseIntRejectsNonDigit` covers non-digits, `ParseIntDigits` unsigned digits in range, `ParseIntSigned` an explicit sign in and out of range, `ParseIntOverflow` unsigned overflow, and `ParseIntText` the printed form of every 64-bit value.
- `MessageEvents.Assembled`: its own contract only states the id/resume-point coupling. The field-by-field behaviour is stated by the lemmas listed in the table.
