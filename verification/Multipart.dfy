/**
 The multipart serialiser: one buffered form and one streaming form of the same bytes.
 Octets are written as characters, so header text and payloads share one type.
 */
module Multipart {
  import opened Common

  type Octets = string

  /** What one poll of a streaming body answers; past the last answer it is at its end. */
  datatype BodyPoll = NotReady | Data(bytes: Octets) | NonData | Failure

  datatype PartBody = Buffered(data: Octets) | Streaming(polls: seq<BodyPoll>)

  datatype Header = Header(name: Octets, value: Octets)

  datatype Part = Part(
    name: Octets,
    filename: Option<Octets>,
    contentType: Option<Octets>,
    headers: seq<Header>,
    body: PartBody)

  const CRLF: Octets := "\r\n"
  const NAME_FIELD: Octets := "Content-Disposition: form-data; name=\""
  const FILENAME_FIELD: Octets := "; filename=\""
  const QUOTE: Octets := "\""

  // ---------------------------------------------------------------------
  // The wire format
  // ---------------------------------------------------------------------

  function Replace(s: Octets, c: char, text: Octets): Octets {
    if s == "" then "" else (if s[0] == c then text else [s[0]]) + Replace(s[1..], c, text)
  }

  function EscapeQuote(s: Octets): Octets {
    Replace(Replace(s, '\\', "\\\\"), '\"', "\\\"")
  }

  function Disposition(p: Part): Octets {
    match p.filename
    case None =>
      NAME_FIELD + EscapeQuote(p.name) + QUOTE
    case Some(filename) =>
      NAME_FIELD + EscapeQuote(p.name) + QUOTE + FILENAME_FIELD + EscapeQuote(filename) + QUOTE
  }

  function HeaderTexts(headers: seq<Header>): seq<Octets> {
    if headers == [] then []
    else [headers[0].name + ": " + headers[0].value] + HeaderTexts(headers[1..])
  }

  function FixedLines(p: Part): seq<Octets> {
    match p.contentType
    case None => [Disposition(p)]
    case Some(ct) => [Disposition(p), "Content-Type: " + ct]
  }

  /** The header lines of a part, without their line ends. */
  function HeaderLines(p: Part): seq<Octets> {
    FixedLines(p) + HeaderTexts(p.headers)
  }

  function Terminated(lines: seq<Octets>): Octets {
    if lines == [] then "" else lines[0] + CRLF + Terminated(lines[1..])
  }

  /** Delimiter line, header lines and the blank line before a payload. */
  function Head(boundary: Octets, p: Part): Octets {
    "--" + boundary + CRLF + Terminated(HeaderLines(p)) + CRLF
  }

  function Trailer(boundary: Octets): Octets {
    "--" + boundary + "--" + CRLF
  }

  /** The buffered form writes nothing for a streaming body. */
  function BufferedData(p: Part): Octets {
    if p.body.Buffered? then p.body.data else ""
  }

  function Encode(boundary: Octets, parts: seq<Part>): Octets {
    if parts == [] then Trailer(boundary)
    else Head(boundary, parts[0]) + BufferedData(parts[0]) + CRLF + Encode(boundary, parts[1..])
  }

  lemma {:induction false} TerminatedAppend(lines: seq<Octets>, line: Octets)
    ensures Terminated(lines + [line]) == Terminated(lines) + line + CRLF
  {
    if lines == [] {
      assert lines + [line] == [line];
    } else {
      assert (lines + [line])[1..] == lines[1..] + [line];
      TerminatedAppend(lines[1..], line);
    }
  }

  lemma {:induction false} HeaderTextsAppend(headers: seq<Header>, h: Header)
    ensures HeaderTexts(headers + [h]) == HeaderTexts(headers) + [h.name + ": " + h.value]
  {
    if headers == [] {
      assert headers + [h] == [h];
    } else {
      assert (headers + [h])[1..] == headers[1..] + [h];
      HeaderTextsAppend(headers[1..], h);
    }
  }

  // ---------------------------------------------------------------------
  // Writing it
  // ---------------------------------------------------------------------

  /** Appending a terminated line to a buffer appends the line to what it holds. */
  lemma LineAppended(prefix: Octets, lines: seq<Octets>, line: Octets)
    ensures prefix + Terminated(lines) + (line + CRLF) == prefix + Terminated(lines + [line])
  {
    TerminatedAppend(lines, line);
  }

  method WriteDisposition(p: Part) returns (line: Octets)
    ensures line == Disposition(p)
  {
    var escapedName := EscapeQuote(p.name);
    match p.filename {
      case Some(filename) =>
        var escapedFilename := EscapeQuote(filename);
        line := NAME_FIELD + escapedName + QUOTE + FILENAME_FIELD + escapedFilename + QUOTE;
      case None =>
        line := NAME_FIELD + escapedName + QUOTE;
    }
  }

  method WriteHead(boundary: Octets, p: Part) returns (buf: Octets)
    ensures buf == Head(boundary, p)
  {
    buf := "--" + boundary + CRLF;
    ghost var delimiter := buf;
    ghost var lines := [];
    var disposition := WriteDisposition(p);
    LineAppended(delimiter, lines, disposition);
    lines := lines + [disposition];
    buf := buf + (disposition + CRLF);
    if p.contentType.Some? {
      var contentType := "Content-Type: " + p.contentType.value;
      LineAppended(delimiter, lines, contentType);
      lines := lines + [contentType];
      buf := buf + (contentType + CRLF);
    }
    assert lines == FixedLines(p);
    TerminatedConcat(lines, HeaderTexts(p.headers));
    buf := PutHeaders(buf, p.headers);
    buf := buf + CRLF;
  }

  lemma {:induction false} TerminatedConcat(a: seq<Octets>, b: seq<Octets>)
    ensures Terminated(a + b) == Terminated(a) + Terminated(b)
  {
    if a == [] {
      assert a + b == b;
    } else {
      assert (a + b)[1..] == a[1..] + b;
      TerminatedConcat(a[1..], b);
    }
  }

  method PutHeaders(before: Octets, headers: seq<Header>) returns (buf: Octets)
    ensures buf == before + Terminated(HeaderTexts(headers))
  {
    buf := before;
    for i := 0 to |headers|
      invariant buf == before + Terminated(HeaderTexts(headers[..i]))
    {
      var line := headers[i].name + ": " + headers[i].value;
      assert headers[..i + 1] == headers[..i] + [headers[i]];
      HeaderTextsAppend(headers[..i], headers[i]);
      LineAppended(before, HeaderTexts(headers[..i]), line);
      buf := buf + (line + CRLF);
    }
    assert headers[..|headers|] == headers;
  }

  lemma EncodeStep(buf: Octets, boundary: Octets, parts: seq<Part>, i: nat)
    requires i < |parts|
    ensures buf + Encode(boundary, parts[i..]) ==
            buf + Head(boundary, parts[i]) + BufferedData(parts[i]) + CRLF + Encode(boundary, parts[i + 1..])
  {
    assert parts[i..][1..] == parts[i + 1..];
    var head, data := Head(boundary, parts[i]), BufferedData(parts[i]);
    Associative(buf, head + data + CRLF, Encode(boundary, parts[i + 1..]));
    Associative(buf, head + data, CRLF);
    Associative(buf, head, data);
  }

  method IntoBytes(boundary: Octets, parts: seq<Part>) returns (buf: Octets)
    ensures buf == Encode(boundary, parts)
  {
    buf := "";
    for i := 0 to |parts|
      invariant buf + Encode(boundary, parts[i..]) == Encode(boundary, parts)
    {
      EncodeStep(buf, boundary, parts, i);
      ghost var before := buf;
      var head := WriteHead(boundary, parts[i]);
      buf := buf + head;
      if parts[i].body.Buffered? {
        buf := buf + parts[i].body.data;
      }
      assert buf == before + head + BufferedData(parts[i]);
      buf := buf + CRLF;
    }
    buf := buf + ("--" + boundary + "--" + CRLF);
  }

  /** `validate_boundary`: 1 to 70 characters of RFC 2046's bcharsnospace. */
  predicate BoundaryChar(c: char) {
    || 'a' <= c <= 'z' || 'A' <= c <= 'Z' || '0' <= c <= '9'
    || c in "\'()+_,-./:=?"
  }

  predicate ValidBoundary(boundary: Octets) {
    1 <= |boundary| <= 70 && forall i | 0 <= i < |boundary| :: BoundaryChar(boundary[i])
  }

  /** The alphabet of section 5.1.1 of RFC 2046, without the space. */
  lemma BoundaryAlphabet(c: char)
    ensures BoundaryChar(c) <==> c in {'0', '1', '2', '3', '4', '5', '6', '7', '8', '9', 'A', 'B', 'C', 'D', 'E', 'F', 'G', 'H', 'I', 'J',
                                  'K', 'L', 'M', 'N', 'O', 'P', 'Q', 'R', 'S', 'T', 'U', 'V', 'W', 'X', 'Y', 'Z', 'a', 'b', 'c', 'd',
                                  'e', 'f', 'g', 'h', 'i', 'j', 'k', 'l', 'm', 'n', 'o', 'p', 'q', 'r', 's', 't', 'u', 'v', 'w', 'x',
                                  'y', 'z', '\'', '(', ')', '+', '_', ',', '-', '.', '/', ':', '=', '?'}
  {
  }

  method ValidateBoundary(boundary: Octets) returns (ok: bool)
    ensures ok <==> ValidBoundary(boundary)
    ensures ok ==> '\r' !in boundary && '\n' !in boundary
  {
    if boundary == "" || |boundary| > 70 {
      return false;
    }
    for i := 0 to |boundary|
      invariant forall j | 0 <= j < i :: BoundaryChar(boundary[j])
    {
      if !BoundaryChar(boundary[i]) {
        return false;
      }
    }
    return true;
  }

  // ---------------------------------------------------------------------
  // The streaming form
  // ---------------------------------------------------------------------

  datatype StreamState = NextPart | Body | Done

  datatype Stream = Stream(parts: seq<Part>, state: StreamState, currentBody: Option<seq<BodyPoll>>)

  datatype Item = Pending | Chunk(bytes: Octets) | Fault | End

  function PollNext(boundary: Octets, s: Stream): (Stream, Item)
    decreases s.state.Body?, if s.currentBody.Some? then |s.currentBody.value| else 0
  {
    match s.state
    case NextPart =>
      if s.parts == [] then (s.(state := Done), Chunk(Trailer(boundary)))
      else
        var p := s.parts[0];
        (match p.body
         case Buffered(data) => (s.(parts := s.parts[1..]), Chunk(Head(boundary, p) + data + CRLF))
         case Streaming(polls) => (Stream(s.parts[1..], Body, Some(polls)), Chunk(Head(boundary, p))))
    case Body =>
      (match s.currentBody
       case None => PollNext(boundary, s.(state := NextPart))
       case Some(polls) =>
         if polls == [] then (s.(state := NextPart, currentBody := None), Chunk(CRLF))
         else
           var rest := s.(currentBody := Some(polls[1..]));
           match polls[0]
           case NotReady => (rest, Pending)
           case Data(bytes) => (rest, Chunk(bytes))
           case NonData => PollNext(boundary, rest)
           case Failure => (rest.(state := Done), Fault))
    case Done => (s, End)
  }

  /** `AsyncStream`: the state machine updated in place by `poll_next`. */
  class AsyncStream {
    const boundary: Octets
    var parts: seq<Part>
    var state: StreamState
    var currentBody: Option<seq<BodyPoll>>

    ghost function Abstract(): Stream
      reads this
    {
      Stream(parts, state, currentBody)
    }

    constructor (boundary: Octets, parts: seq<Part>)
      ensures this.boundary == boundary && Abstract() == Stream(parts, NextPart, None)
    {
      this.boundary := boundary;
      this.parts := parts;
      state := NextPart;
      currentBody := None;
    }

    method Poll() returns (item: Item)
      modifies this
      ensures (Abstract(), item) == PollNext(boundary, old(Abstract()))
    {
      while true
        invariant PollNext(boundary, Abstract()) == PollNext(boundary, old(Abstract()))
        decreases state.Body?, if currentBody.Some? then |currentBody.value| else 0
      {
        match state {
          case NextPart =>
            if parts == [] {
              state := Done;
              return Chunk("--" + boundary + "--" + CRLF);
            }
            var part := parts[0];
            parts := parts[1..];
            var head := WriteHead(boundary, part);
            match part.body {
              case Buffered(data) =>
                return Chunk(head + data + CRLF);
              case Streaming(polls) =>
                currentBody := Some(polls);
                state := Body;
                return Chunk(head);
            }
          case Body =>
            if currentBody.None? {
              state := NextPart;
            } else {
              var polls := currentBody.value;
              if polls == [] {
                currentBody := None;
                state := NextPart;
                return Chunk(CRLF);
              }
              currentBody := Some(polls[1..]);
              match polls[0] {
                case NotReady =>
                  return Pending;
                case Data(bytes) =>
                  return Chunk(bytes);
                case NonData =>
                case Failure =>
                  state := Done;
                  return Fault;
              }
            }
          case Done =>
            return End;
        }
      }
    }
  }

  // ---------------------------------------------------------------------
  // What a poll makes of the answers of a body
  // ---------------------------------------------------------------------

  /** The first answer that is not a non-data frame is at `k`, if there is one before the end. */
  ghost predicate FirstAnswer(polls: seq<BodyPoll>, k: nat) {
    && k <= |polls|
    && (forall j | 0 <= j < k :: polls[j] == NonData)
    && (k < |polls| ==> polls[k] != NonData)
  }

  /** A poll uses up the leading non-data frames and one answer more, and passes that answer on. */
  lemma {:induction false} PollReadsBody(boundary: Octets, s: Stream, polls: seq<BodyPoll>, k: nat)
    requires s.state.Body? && s.currentBody == Some(polls) && FirstAnswer(polls, k)
    ensures var (s', item) := PollNext(boundary, s);
            if k == |polls| then item == Chunk("\r\n") && s' == Stream(s.parts, NextPart, None)
            else
              && s'.parts == s.parts
              && s'.currentBody == Some(polls[k + 1..])
              && (polls[k] == NotReady ==> item == Pending && s'.state == Body)
              && (polls[k].Data? ==> item == Chunk(polls[k].bytes) && s'.state == Body)
              && (polls[k] == Failure ==> item == Fault && s'.state == Done)
    decreases k
  {
    if k > 0 {
      assert polls[0] == NonData;
      assert polls[1..][k - 1..] == polls[k..] && (k < |polls| ==> polls[1..][k..] == polls[k + 1..]);
      PollReadsBody(boundary, s.(currentBody := Some(polls[1..])), polls[1..], k - 1);
    }
  }

  lemma {:induction false} FirstAnswerExists(polls: seq<BodyPoll>) returns (k: nat)
    ensures FirstAnswer(polls, k)
  {
    if polls == [] || polls[0] != NonData {
      k := 0;
    } else {
      k := FirstAnswerExists(polls[1..]);
      k := k + 1;
    }
  }

  /** A poll is pending exactly when the body says so: its first answer, non-data frames aside, is not ready. */
  lemma PendingExactly(boundary: Octets, s: Stream)
    ensures PollNext(boundary, s).1 == Pending <==>
            && s.state.Body? && s.currentBody.Some?
            && exists k: nat :: FirstAnswer(s.currentBody.value, k) && k < |s.currentBody.value| &&
                                s.currentBody.value[k] == NotReady
  {
    if s.state.Body? && s.currentBody.Some? {
      var polls := s.currentBody.value;
      var k := FirstAnswerExists(polls);
      PollReadsBody(boundary, s, polls, k);
      assert forall j: nat | FirstAnswer(polls, j) :: j == k;
    }
  }

  // ---------------------------------------------------------------------
  // Streaming refines buffering
  // ---------------------------------------------------------------------

  function DataOf(polls: seq<BodyPoll>): Octets {
    if polls == [] then ""
    else (if polls[0].Data? then polls[0].bytes else "") + DataOf(polls[1..])
  }

  /** The same form with each stream replaced by its concatenated data. */
  function Collected(parts: seq<Part>): seq<Part> {
    if parts == [] then []
    else
      var p := parts[0];
      [if p.body.Streaming? then p.(body := Buffered(DataOf(p.body.polls))) else p] + Collected(parts[1..])
  }

  /** A body and what follows it, or the body up to the poll that fails. */
  function BodyUpToFailure(polls: seq<BodyPoll>, rest: Octets): Octets {
    if polls == [] then CRLF + rest
    else if polls[0].Failure? then ""
    else (if polls[0].Data? then polls[0].bytes else "") + BodyUpToFailure(polls[1..], rest)
  }

  /** The buffered form of the collected parts, cut off at the first poll that fails. */
  function UpToFailure(boundary: Octets, parts: seq<Part>): Octets {
    if parts == [] then Trailer(boundary)
    else
      var p, rest := parts[0], UpToFailure(boundary, parts[1..]);
      match p.body
      case Buffered(data) => Head(boundary, p) + data + CRLF + rest
      case Streaming(polls) => Head(boundary, p) + BodyUpToFailure(polls, rest)
  }

  ghost predicate NoFailures(parts: seq<Part>) {
    forall i | 0 <= i < |parts| && parts[i].body.Streaming? :: Failure !in parts[i].body.polls
  }

  lemma HeadIgnoresBody(boundary: Octets, p: Part, body: PartBody)
    ensures Head(boundary, p.(body := body)) == Head(boundary, p)
  {
    assert HeaderLines(p.(body := body)) == HeaderLines(p);
  }

  lemma EncodeCollected(boundary: Octets, parts: seq<Part>)
    requires parts != []
    ensures Encode(boundary, Collected(parts)) ==
            Head(boundary, parts[0]) +
            (if parts[0].body.Streaming? then DataOf(parts[0].body.polls) else parts[0].body.data) + CRLF +
            Encode(boundary, Collected(parts[1..]))
  {
    var p := parts[0];
    if p.body.Streaming? {
      HeadIgnoresBody(boundary, p, Buffered(DataOf(p.body.polls)));
    }
    assert Collected(parts)[1..] == Collected(parts[1..]);
  }

  lemma PrefixAfter(a: Octets, b: Octets, c: Octets)
    requires b <= c
    ensures a + b <= a + c
  {
    assert c == b + c[|b|..];
    Associative(a, b, c[|b|..]);
  }

  lemma {:induction false} BodyIsCutOff(polls: seq<BodyPoll>, rest: Octets, whole: Octets)
    requires rest <= whole
    ensures BodyUpToFailure(polls, rest) <= DataOf(polls) + CRLF + whole
    ensures Failure !in polls && rest == whole ==> BodyUpToFailure(polls, rest) == DataOf(polls) + CRLF + whole
  {
    if polls == [] {
      assert DataOf(polls) + CRLF + whole == CRLF + whole;
      PrefixAfter(CRLF, rest, whole);
    } else if !polls[0].Failure? {
      var data := if polls[0].Data? then polls[0].bytes else "";
      BodyIsCutOff(polls[1..], rest, whole);
      PrefixAfter(data, BodyUpToFailure(polls[1..], rest), DataOf(polls[1..]) + CRLF + whole);
      Associative(data, DataOf(polls[1..]) + CRLF, whole);
      Associative(data, DataOf(polls[1..]), CRLF);
    }
  }

  lemma NoFailuresRest(parts: seq<Part>)
    requires parts != []
    ensures NoFailures(parts) <==>
            (parts[0].body.Streaming? ==> Failure !in parts[0].body.polls) && NoFailures(parts[1..])
  {
    if NoFailures(parts[1..]) {
      assert forall i | 1 <= i < |parts| :: parts[i] == parts[1..][i - 1];
    }
  }

  /** Cutting off at a failure leaves a prefix, and without a failure nothing is cut off. */
  lemma {:induction false} UpToFailureIsPrefix(boundary: Octets, parts: seq<Part>)
    ensures UpToFailure(boundary, parts) <= Encode(boundary, Collected(parts))
    ensures NoFailures(parts) ==> UpToFailure(boundary, parts) == Encode(boundary, Collected(parts))
  {
    if parts != [] {
      var p, rest := parts[0], UpToFailure(boundary, parts[1..]);
      var whole := Encode(boundary, Collected(parts[1..]));
      UpToFailureIsPrefix(boundary, parts[1..]);
      NoFailuresRest(parts);
      EncodeCollected(boundary, parts);
      match p.body
      case Buffered(data) =>
        PrefixAfter(Head(boundary, p) + data + CRLF, rest, whole);
      case Streaming(polls) =>
        BodyIsCutOff(polls, rest, whole);
        PrefixAfter(Head(boundary, p), BodyUpToFailure(polls, rest), DataOf(polls) + CRLF + whole);
        Associative(Head(boundary, p), DataOf(polls) + CRLF, whole);
        Associative(Head(boundary, p), DataOf(polls), CRLF);
    }
  }

  /** The bytes a stream still owes, up to a failing poll. */
  function Owed(boundary: Octets, s: Stream): Octets {
    match s.state
    case NextPart => UpToFailure(boundary, s.parts)
    case Body =>
      var rest := UpToFailure(boundary, s.parts);
      if s.currentBody.Some? then BodyUpToFailure(s.currentBody.value, rest) else rest
    case Done => ""
  }

  /** A failing poll lies ahead. */
  ghost predicate Doomed(s: Stream) {
    && !s.state.Done?
    && (!NoFailures(s.parts) || (s.state.Body? && s.currentBody.Some? && Failure in s.currentBody.value))
  }

  /** `item` hands out exactly what it takes off the bytes owed. */
  ghost predicate Pays(item: Item, after: Octets, before: Octets) {
    match item
    case Chunk(bytes) => bytes + after == before
    case Pending => after == before
    case Fault => after == before == ""
    case End => after == before == ""
  }

  /** Each poll pays what it emits, and a fault is due exactly when nothing but a failure lies ahead. */
  lemma {:induction false} PollPaysOwed(boundary: Octets, s: Stream)
    ensures var (s', item) := PollNext(boundary, s);
            && Pays(item, Owed(boundary, s'), Owed(boundary, s))
            && (Doomed(s) <==> item.Fault? || Doomed(s'))
    decreases s.state.Body?, if s.currentBody.Some? then |s.currentBody.value| else 0
  {
    match s.state
    case NextPart =>
      if s.parts != [] {
        NoFailuresRest(s.parts);
      }
    case Body =>
      match s.currentBody {
        case None =>
          PollPaysOwed(boundary, s.(state := NextPart));
        case Some(polls) =>
          if polls != [] && polls[0].NonData? {
            PollPaysOwed(boundary, s.(currentBody := Some(polls[1..])));
          }
      }
    case Done =>
  }

  /** What `n` polls emit, and how many of them reported a failing body. */
  datatype Drained = Drained(stream: Stream, emitted: Octets, faults: nat)

  function Drain(boundary: Octets, s: Stream, n: nat): Drained {
    if n == 0 then Drained(s, "", 0)
    else
      var d := Drain(boundary, s, n - 1);
      var (s', item) := PollNext(boundary, d.stream);
      Advance(d, s', item)
  }

  function Advance(d: Drained, s: Stream, item: Item): Drained {
    Drained(s, d.emitted + (if item.Chunk? then item.bytes else ""), d.faults + (if item.Fault? then 1 else 0))
  }

  function PartFuel(parts: seq<Part>): nat {
    if parts == [] then 1
    else (if parts[0].body.Streaming? then |parts[0].body.polls| + 2 else 1) + PartFuel(parts[1..])
  }

  /** An upper bound on the polls until a stream is done. */
  function Fuel(s: Stream): nat {
    match s.state
    case NextPart => PartFuel(s.parts)
    case Body => (if s.currentBody.Some? then |s.currentBody.value| + 1 else 0) + PartFuel(s.parts)
    case Done => 0
  }

  lemma {:induction false} PollBurnsFuel(boundary: Octets, s: Stream)
    requires !s.state.Done?
    ensures Fuel(PollNext(boundary, s).0) < Fuel(s)
    decreases s.state.Body?, if s.currentBody.Some? then |s.currentBody.value| else 0
  {
    if s.state.Body? {
      if s.currentBody.None? {
        PollBurnsFuel(boundary, s.(state := NextPart));
      } else if s.currentBody.value != [] && s.currentBody.value[0].NonData? {
        PollBurnsFuel(boundary, s.(currentBody := Some(s.currentBody.value[1..])));
      }
    }
  }

  /** After a fault the stream is at its end, and every further poll says so. */
  lemma {:induction false} FaultEndsStream(boundary: Octets, s: Stream)
    requires PollNext(boundary, s).1.Fault?
    ensures PollNext(boundary, s).0.state.Done?
    ensures PollNext(boundary, PollNext(boundary, s).0) == (PollNext(boundary, s).0, End)
    decreases s.state.Body?, if s.currentBody.Some? then |s.currentBody.value| else 0
  {
    if s.state.Body? {
      if s.currentBody.None? {
        FaultEndsStream(boundary, s.(state := NextPart));
      } else if s.currentBody.value != [] && s.currentBody.value[0].NonData? {
        FaultEndsStream(boundary, s.(currentBody := Some(s.currentBody.value[1..])));
      }
    }
  }

  /** Emitted and owed make up `whole`, and the fault of a doomed stream is reported once. */
  ghost predicate Conserved(d: Drained, owed: Octets, ahead: bool, whole: Octets, doomed: bool) {
    && d.emitted + owed == whole
    && d.faults == (if doomed && !ahead then 1 else 0)
    && (d.faults > 0 ==> d.stream.state.Done?)
    && (ahead ==> doomed)
  }

  lemma ConservedByItem(d: Drained, owed: Octets, ahead: bool, s': Stream, item: Item, owed': Octets, ahead': bool,
                        whole: Octets, doomed: bool)
    requires Conserved(d, owed, ahead, whole, doomed) && Pays(item, owed', owed)
    requires ahead <==> item.Fault? || ahead'
    requires item.Fault? ==> s'.state.Done? && !ahead'
    requires d.stream.state.Done? ==> s'.state.Done?
    ensures Conserved(Advance(d, s', item), owed', ahead', whole, doomed)
  {
    if item.Chunk? {
      Associative(d.emitted, item.bytes, owed');
    }
  }

  ghost predicate Draining(boundary: Octets, s: Stream, d: Drained) {
    Conserved(d, Owed(boundary, d.stream), Doomed(d.stream), Owed(boundary, s), Doomed(s))
  }

  lemma PollDrains(boundary: Octets, s: Stream, d: Drained)
    requires Draining(boundary, s, d)
    ensures Draining(boundary, s, Advance(d, PollNext(boundary, d.stream).0, PollNext(boundary, d.stream).1))
  {
    var (s', item) := PollNext(boundary, d.stream);
    PollPaysOwed(boundary, d.stream);
    if item.Fault? {
      FaultEndsStream(boundary, d.stream);
    }
    ConservedByItem(d, Owed(boundary, d.stream), Doomed(d.stream), s', item, Owed(boundary, s'), Doomed(s'),
                    Owed(boundary, s), Doomed(s));
  }

  lemma {:induction false} DrainConserves(boundary: Octets, s: Stream, n: nat)
    ensures Draining(boundary, s, Drain(boundary, s, n))
    ensures Drain(boundary, s, n).stream.state.Done? || n + Fuel(Drain(boundary, s, n).stream) <= Fuel(s)
  {
    if n > 0 {
      var d := Drain(boundary, s, n - 1);
      DrainConserves(boundary, s, n - 1);
      PollDrains(boundary, s, d);
      if !d.stream.state.Done? {
        PollBurnsFuel(boundary, d.stream);
      }
    } else {
      assert "" + Owed(boundary, s) == Owed(boundary, s);
    }
  }

  /**
   For any mix of parts and any chunking, pending polls and non-data frames included: a stream that is
   done has emitted the buffered form of the collected parts up to the first failing poll, and has
   reported that failure once. Without a failure that is the whole form.
   */
  lemma StreamingRefinesBuffering(boundary: Octets, parts: seq<Part>, n: nat)
    ensures var d, whole := Drain(boundary, Stream(parts, NextPart, None), n), Encode(boundary, Collected(parts));
            && d.emitted <= UpToFailure(boundary, parts) <= whole
            && (n >= PartFuel(parts) ==> d.stream.state.Done?)
            && (d.stream.state.Done? ==> d.emitted == UpToFailure(boundary, parts))
            && (d.stream.state.Done? ==> d.faults == if NoFailures(parts) then 0 else 1)
            && (NoFailures(parts) ==> UpToFailure(boundary, parts) == whole)
  {
    DrainConserves(boundary, Stream(parts, NextPart, None), n);
    UpToFailureIsPrefix(boundary, parts);
  }
}
