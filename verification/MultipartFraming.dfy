/**
 Framing is decodable: a reference reader for section 5.1.1 of RFC 2046 recovers every part of the
 serialised form, exactly when no line of a payload starts with the boundary and no header field
 contains a line end.
 */
module MultipartFraming {
  import opened Common
  import opened Multipart

  // ---------------------------------------------------------------------
  // Searching
  // ---------------------------------------------------------------------

  predicate OccursAt(s: Octets, pattern: Octets, i: nat) {
    i + |pattern| <= |s| && s[i..i + |pattern|] == pattern
  }

  ghost predicate Contains(s: Octets, pattern: Octets) {
    exists i: nat :: OccursAt(s, pattern, i)
  }

  /** The first occurrence of a pattern. */
  function Find(s: Octets, pattern: Octets): (r: Option<nat>)
    requires pattern != ""
    ensures r.Some? ==> OccursAt(s, pattern, r.value)
  {
    if |s| < |pattern| then None
    else if s[..|pattern|] == pattern then Some(0)
    else match Find(s[1..], pattern)
      case None => None
      case Some(i) =>
        assert s[1..][i..i + |pattern|] == s[i + 1..i + 1 + |pattern|];
        Some(i + 1)
  }

  lemma {:induction false} FindIsFirst(s: Octets, pattern: Octets, i: nat)
    requires pattern != "" && OccursAt(s, pattern, i)
    ensures Find(s, pattern).Some? && Find(s, pattern).value <= i
  {
    if s[..|pattern|] != pattern {
      assert i > 0;
      assert s[1..][i - 1..i - 1 + |pattern|] == s[i..i + |pattern|];
      FindIsFirst(s[1..], pattern, i - 1);
    }
  }

  /** A match that straddles text and pattern repeats the pattern's first character inside the pattern. */
  lemma NoStraddling(text: Octets, pattern: Octets, rest: Octets, i: nat)
    requires pattern != "" && i < |text| && OccursAt(text + pattern + rest, pattern, i)
    ensures OccursAt(text, pattern, i) || pattern[0] in pattern[1..]
  {
    var s := text + pattern + rest;
    if i + |pattern| > |text| {
      var k := |text| - i;
      assert s[i..i + |pattern|][k] == s[|text|] == pattern[0];
      assert pattern[1..][k - 1] == pattern[0];
    } else {
      assert text[i..i + |pattern|] == s[i..i + |pattern|];
    }
  }

  /** The search stops right after `text` exactly when `text` does not contain the pattern itself. */
  lemma FindAfter(text: Octets, pattern: Octets, rest: Octets)
    requires pattern != "" && pattern[0] !in pattern[1..]
    ensures var found := Find(text + pattern + rest, pattern);
            && found.Some? && found.value <= |text|
            && (found.value == |text| <==> !Contains(text, pattern))
  {
    var s := text + pattern + rest;
    assert s[|text|..|text| + |pattern|] == pattern;
    FindIsFirst(s, pattern, |text|);
    var i := Find(s, pattern).value;
    if i < |text| {
      NoStraddling(text, pattern, rest, i);
      assert Contains(text, pattern);
    }
    if Contains(text, pattern) {
      var j: nat :| OccursAt(text, pattern, j);
      assert s[j..j + |pattern|] == text[j..j + |pattern|];
      FindIsFirst(s, pattern, j);
    }
  }

  // ---------------------------------------------------------------------
  // The reference reader
  // ---------------------------------------------------------------------

  /** Lines up to the blank line, and what follows it. */
  function ReadHeaders(s: Octets): (r: Option<(seq<Octets>, Octets)>)
    ensures r.Some? ==> |r.value.1| < |s|
    decreases |s|
  {
    match Find(s, CRLF)
    case None => None
    case Some(i) =>
      var rest := s[i + 2..];
      if i == 0 then Some(([], rest))
      else match ReadHeaders(rest)
        case None => None
        case Some(more) => Some(([s[..i]] + more.0, more.1))
  }

  datatype Decoded = Decoded(lines: seq<Octets>, payload: Octets)

  function Delimiter(boundary: Octets): Octets {
    CRLF + ("--" + boundary)
  }

  /** The payload before a delimiter that starts at `i`; at 0 it starts with the blank line's own line end. */
  function PayloadBefore(text: Octets, i: nat): Octets
    requires i <= |text|
  {
    if i < 2 then "" else text[2..i]
  }

  /** A delimiter is a line end and a boundary; the one that closes the blank line counts. */
  function Decode(boundary: Octets, s: Octets): Option<seq<Decoded>>
    decreases |s|
  {
    if !("--" + boundary <= s) then None
    else
      var t := s[2 + |boundary|..];
      if t == "--" + CRLF then Some([])
      else if !(CRLF <= t) then None
      else match ReadHeaders(t[2..])
        case None => None
        case Some(head) =>
          var text := CRLF + head.1;
          match Find(text, Delimiter(boundary))
          case None => None
          case Some(i) =>
            match Decode(boundary, text[i + 2..])
            case None => None
            case Some(more) => Some([Decoded(head.0, PayloadBefore(text, i))] + more)
  }

  // ---------------------------------------------------------------------
  // Reading back what was written
  // ---------------------------------------------------------------------

  ghost predicate CleanLine(line: Octets) {
    line != "" && !Contains(line, CRLF)
  }

  lemma SplitAt(a: Octets, b: Octets, c: Octets)
    ensures (a + b + c)[..|a|] == a && (a + b + c)[|a| + |b|..] == c
  {
  }

  lemma {:induction false} ReadHeadersBack(lines: seq<Octets>, rest: Octets)
    requires forall i | 0 <= i < |lines| :: CleanLine(lines[i])
    ensures ReadHeaders(Terminated(lines) + CRLF + rest) == Some((lines, rest))
  {
    if lines == [] {
      FindAfter("", CRLF, rest);
      SplitAt("", CRLF, rest);
    } else {
      Associative(lines[0] + CRLF, Terminated(lines[1..]) + CRLF, rest);
      Associative(lines[0] + CRLF, Terminated(lines[1..]), CRLF);
      ReadHeadersBack(lines[1..], rest);
      ReadLineBack(lines[0], Terminated(lines[1..]) + CRLF + rest, lines[1..], rest);
      assert [lines[0]] + lines[1..] == lines;
    }
  }

  lemma ReadLineBack(line: Octets, more: Octets, lines: seq<Octets>, rest: Octets)
    requires CleanLine(line) && ReadHeaders(more) == Some((lines, rest))
    ensures ReadHeaders(line + CRLF + more) == Some(([line] + lines, rest))
  {
    FindAfter(line, CRLF, more);
    SplitAt(line, CRLF, more);
  }

  // ---------------------------------------------------------------------
  // Line ends in header fields
  // ---------------------------------------------------------------------

  lemma ConsLineEnd(c: char, s: Octets)
    ensures Contains([c] + s, CRLF) <==> Contains(s, CRLF) || (c == '\r' && s != "" && s[0] == '\n')
  {
    var whole := [c] + s;
    if c == '\r' && s != "" && s[0] == '\n' {
      assert whole[0..2] == CRLF;
      assert OccursAt(whole, CRLF, 0);
    }
    if Contains(s, CRLF) {
      var i: nat :| OccursAt(s, CRLF, i);
      assert whole[i + 1..i + 3] == s[i..i + 2];
      assert OccursAt(whole, CRLF, i + 1);
    }
    if Contains(whole, CRLF) {
      var i: nat :| OccursAt(whole, CRLF, i);
      if i > 0 {
        assert s[i - 1..i + 1] == whole[i..i + 2];
        assert OccursAt(s, CRLF, i - 1);
      } else {
        assert c == whole[0..2][0] == '\r' && s[0] == whole[0..2][1] == '\n';
      }
    }
  }

  /** Text free of line-end characters neither brings a line end nor completes one. */
  lemma {:induction false} GluedLineEnd(a: Octets, glue: Octets, b: Octets)
    requires glue != "" && '\r' !in glue && '\n' !in glue
    ensures Contains(a + glue + b, CRLF) <==> Contains(a, CRLF) || Contains(b, CRLF)
    decreases |a| + |glue|
  {
    if a != "" {
      GluedLineEnd(a[1..], glue, b);
      ConsLineEnd(a[0], a[1..]);
      ConsLineEnd(a[0], a[1..] + glue + b);
      assert a == [a[0]] + a[1..];
      assert a + glue + b == [a[0]] + (a[1..] + glue + b);
    } else {
      ConsLineEnd(glue[0], glue[1..] + b);
      assert a + glue + b == [glue[0]] + (glue[1..] + b);
      if |glue| > 1 {
        GluedLineEnd("", glue[1..], b);
        assert "" + glue[1..] + b == glue[1..] + b;
      } else {
        assert glue[1..] + b == b;
      }
    }
  }

  lemma EscapedHead(s: Octets)
    ensures (s == "") == (EscapeQuote(s) == "")
    ensures s != "" ==> (EscapeQuote(s)[0] == '\n' <==> s[0] == '\n')
  {
    if s != "" {
      EscapeHead(s);
    }
  }

  lemma {:induction false} EscapedLineEnd(s: Octets)
    ensures Contains(EscapeQuote(s), CRLF) <==> Contains(s, CRLF)
  {
    if s != "" {
      var rest := s[1..];
      EscapedLineEnd(rest);
      EscapeHead(s);
      EscapedHead(rest);
      EscapedCharLineEnd(s[0], rest, EscapeQuote(rest));
      assert s == [s[0]] + rest;
    }
  }

  lemma EscapedCharLineEnd(c: char, rest: Octets, escaped: Octets)
    requires Contains(escaped, CRLF) <==> Contains(rest, CRLF)
    requires (rest == "") == (escaped == "") && (rest != "" ==> (escaped[0] == '\n' <==> rest[0] == '\n'))
    ensures Contains(EscapeChar(c) + escaped, CRLF) <==> Contains([c] + rest, CRLF)
  {
    ConsLineEnd(c, rest);
    if |EscapeChar(c)| > 1 {
      GluedLineEnd("", EscapeChar(c), escaped);
      assert "" + EscapeChar(c) == EscapeChar(c);
    } else {
      ConsLineEnd(c, escaped);
    }
  }

  lemma QuotedLineEnd(field: Octets, value: Octets, rest: Octets)
    requires field != "" && '\r' !in field && '\n' !in field
    ensures Contains(field + (EscapeQuote(value) + QUOTE + rest), CRLF) <==>
            Contains(value, CRLF) || Contains(rest, CRLF)
  {
    EscapedLineEnd(value);
    GluedLineEnd(EscapeQuote(value), QUOTE, rest);
    GluedLineEnd("", field, EscapeQuote(value) + QUOTE + rest);
    assert "" + field == field;
  }

  /** What a caller can check of a part: none of its header fields contains a line end. */
  ghost predicate CleanPart(p: Part) {
    && !Contains(p.name, CRLF)
    && (p.filename.Some? ==> !Contains(p.filename.value, CRLF))
    && (p.contentType.Some? ==> !Contains(p.contentType.value, CRLF))
    && (forall i | 0 <= i < |p.headers| :: CleanHeader(p.headers[i]))
  }

  ghost predicate CleanHeader(h: Header) {
    !Contains(h.name, CRLF) && !Contains(h.value, CRLF)
  }

  ghost predicate CleanLines(lines: seq<Octets>) {
    forall i | 0 <= i < |lines| :: CleanLine(lines[i])
  }

  lemma QuotedPairLineEnd(field: Octets, value: Octets, field': Octets, value': Octets)
    requires field != "" && '\r' !in field && '\n' !in field
    requires field' != "" && '\r' !in field' && '\n' !in field'
    ensures var line := field + EscapeQuote(value) + QUOTE + field' + EscapeQuote(value') + QUOTE;
            line != "" && (Contains(line, CRLF) <==> Contains(value, CRLF) || Contains(value', CRLF))
    ensures var line := field + EscapeQuote(value) + QUOTE;
            line != "" && (Contains(line, CRLF) <==> Contains(value, CRLF))
  {
    RegroupFields(field, EscapeQuote(value), QUOTE, field', EscapeQuote(value'), QUOTE);
    QuotedLineEnd(field, value, "");
    QuotedLineEnd(field', value', "");
    QuotedLineEnd(field, value, field' + (EscapeQuote(value') + QUOTE + ""));
  }

  lemma CleanDisposition(p: Part)
    ensures CleanLine(Disposition(p)) <==>
            !Contains(p.name, CRLF) && (p.filename.Some? ==> !Contains(p.filename.value, CRLF))
  {
    QuotedPairLineEnd(NAME_FIELD, p.name, FILENAME_FIELD, if p.filename.Some? then p.filename.value else "");
  }

  lemma CleanCons(line: Octets, lines: seq<Octets>)
    ensures CleanLines([line] + lines) <==> CleanLine(line) && CleanLines(lines)
  {
    var all := [line] + lines;
    if CleanLines(all) {
      assert CleanLine(all[0]);
      assert forall i | 0 <= i < |lines| :: lines[i] == all[i + 1];
    }
  }

  lemma {:induction false} CleanHeaderTexts(headers: seq<Header>)
    ensures CleanLines(HeaderTexts(headers)) <==> forall i | 0 <= i < |headers| :: CleanHeader(headers[i])
  {
    if headers != [] {
      var h, rest := headers[0], headers[1..];
      CleanHeaderTexts(rest);
      GluedLineEnd(h.name, ": ", h.value);
      CleanCons(h.name + ": " + h.value, HeaderTexts(rest));
      assert forall i | 1 <= i < |headers| :: headers[i] == rest[i - 1];
      assert forall i | 0 <= i < |rest| :: rest[i] == headers[i + 1];
    }
  }

  /** The lines written for a part can be told apart exactly when its fields contain no line end. */
  lemma CleanHeaderLines(p: Part)
    ensures CleanLines(HeaderLines(p)) <==> CleanPart(p)
  {
    CleanDisposition(p);
    CleanHeaderTexts(p.headers);
    match p.contentType
    case None =>
      CleanCons(Disposition(p), HeaderTexts(p.headers));
    case Some(ct) =>
      var line := "Content-Type: " + ct;
      GluedLineEnd("", "Content-Type: ", ct);
      assert "" + "Content-Type: " + ct == line;
      CleanCons(line, HeaderTexts(p.headers));
      CleanCons(Disposition(p), [line] + HeaderTexts(p.headers));
      assert HeaderLines(p) == [Disposition(p)] + ([line] + HeaderTexts(p.headers));
  }

  lemma LineBeforeFirst(s: Octets)
    requires Find(s, CRLF).Some?
    ensures !Contains(s[..Find(s, CRLF).value], CRLF)
  {
    var line := s[..Find(s, CRLF).value];
    if Contains(line, CRLF) {
      var i: nat :| OccursAt(line, CRLF, i);
      assert s[i..i + 2] == line[i..i + 2];
      FindIsFirst(s, CRLF, i);
    }
  }

  /** Whatever is read, a line has no line end in it. */
  lemma {:induction false} ReadLinesAreClean(s: Octets)
    requires ReadHeaders(s).Some?
    ensures CleanLines(ReadHeaders(s).value.0)
    decreases |s|
  {
    var i := Find(s, CRLF).value;
    if i > 0 {
      LineBeforeFirst(s);
      ReadLinesAreClean(s[i + 2..]);
      CleanCons(s[..i], ReadHeaders(s[i + 2..]).value.0);
    }
  }

  lemma {:induction false} DecodedLinesAreClean(boundary: Octets, s: Octets, i: nat)
    requires Decode(boundary, s).Some? && i < |Decode(boundary, s).value|
    ensures CleanLines(Decode(boundary, s).value[i].lines)
    decreases |s|
  {
    var headers := s[2 + |boundary|..][2..];
    ReadLinesAreClean(headers);
    if i > 0 {
      var text := CRLF + ReadHeaders(headers).value.1;
      DecodedLinesAreClean(boundary, text[Find(text, Delimiter(boundary)).value + 2..], i - 1);
    }
  }

  lemma {:induction false} ExpectedAt(parts: seq<Part>, i: nat)
    requires i < |parts|
    ensures |Expected(parts)| == |parts| && Expected(parts)[i] == Decoded(HeaderLines(parts[i]), BufferedData(parts[i]))
  {
    if |parts| > 1 {
      ExpectedAt(parts[1..], if i > 0 then i - 1 else 0);
    }
  }

  function Expected(parts: seq<Part>): seq<Decoded> {
    if parts == [] then [] else [Decoded(HeaderLines(parts[0]), BufferedData(parts[0]))] + Expected(parts[1..])
  }

  /** What follows the boundary string in the encoding of at least one part. */
  function AfterBoundary(boundary: Octets, parts: seq<Part>): Octets
    requires parts != []
  {
    CRLF + (Terminated(HeaderLines(parts[0])) + CRLF + (BufferedData(parts[0]) + CRLF + Encode(boundary, parts[1..])))
  }

  lemma DropPrefix(a: Octets, b: Octets)
    ensures a <= a + b && (a + b)[|a|..] == b
  {
  }

  lemma EncodeOpens(boundary: Octets, parts: seq<Part>)
    ensures "--" + boundary <= Encode(boundary, parts)
    ensures Encode(boundary, parts)[2 + |boundary|..] ==
            if parts == [] then "--" + CRLF else AfterBoundary(boundary, parts)
  {
    var d := "--" + boundary;
    if parts == [] {
      DropPrefix(d, "--" + CRLF);
      assert Encode(boundary, parts) == d + ("--" + CRLF);
    } else {
      DropPrefix(d, AfterBoundary(boundary, parts));
      var head, data := Terminated(HeaderLines(parts[0])), BufferedData(parts[0]);
      var body := data + CRLF + Encode(boundary, parts[1..]);
      Associative(Head(boundary, parts[0]), data + CRLF, Encode(boundary, parts[1..]));
      Associative(Head(boundary, parts[0]), data, CRLF);
      Associative(d + CRLF, head + CRLF, body);
      Associative(d + CRLF, head, CRLF);
      Associative(d, CRLF, head + CRLF + body);
    }
  }

  lemma DelimiterIsDistinct(boundary: Octets)
    requires '\r' !in boundary
    ensures Delimiter(boundary)[0] == '\r' && '\r' !in Delimiter(boundary)[1..]
  {
    assert Delimiter(boundary)[1..] == "\n--" + boundary;
  }

  /** What the reader makes of a payload followed by the next delimiter. */
  function DecodeBody(boundary: Octets, lines: seq<Octets>, body: Octets): Option<seq<Decoded>> {
    var text := CRLF + body;
    match Find(text, Delimiter(boundary))
    case None => None
    case Some(i) =>
      match Decode(boundary, text[i + 2..])
      case None => None
      case Some(more) => Some([Decoded(lines, PayloadBefore(text, i))] + more)
  }

  lemma DecodeReachesBody(boundary: Octets, parts: seq<Part>)
    requires parts != [] && CleanPart(parts[0])
    ensures Decode(boundary, Encode(boundary, parts)) ==
            DecodeBody(boundary, HeaderLines(parts[0]),
                       BufferedData(parts[0]) + CRLF + Encode(boundary, parts[1..]))
  {
    var p := parts[0];
    var body := BufferedData(p) + CRLF + Encode(boundary, parts[1..]);
    EncodeOpens(boundary, parts);
    CleanHeaderLines(p);
    ReadHeadersBack(HeaderLines(p), body);
    DecodeHead(boundary, Encode(boundary, parts), Terminated(HeaderLines(p)) + CRLF + body, HeaderLines(p), body);
  }

  lemma DecodeHead(boundary: Octets, s: Octets, headers: Octets, lines: seq<Octets>, body: Octets)
    requires "--" + boundary <= s && s[2 + |boundary|..] == CRLF + headers
    requires ReadHeaders(headers) == Some((lines, body))
    ensures Decode(boundary, s) == DecodeBody(boundary, lines, body)
  {
    var t := s[2 + |boundary|..];
    assert t[0] == '\r';
    DropPrefix(CRLF, headers);
  }

  lemma BodyEndsAtDelimiter(boundary: Octets, data: Octets, next: Octets)
    requires "--" + boundary <= next
    ensures CRLF + (data + CRLF + next) == (CRLF + data) + Delimiter(boundary) + next[2 + |boundary|..]
    ensures CRLF + (data + CRLF + next) == (CRLF + data) + CRLF + next
  {
    var d := "--" + boundary;
    assert next == d + next[|d|..];
    Associative((CRLF + data) + CRLF, d, next[|d|..]);
    Associative(CRLF + data, CRLF, d);
    Associative(CRLF, data + CRLF, next);
    Associative(CRLF, data, CRLF);
  }

  lemma PayloadIsData(data: Octets, rest: Octets)
    ensures PayloadBefore((CRLF + data) + rest, |CRLF + data|) == data
  {
  }

  /** A line of the payload starts with the boundary, its first line included. */
  ghost predicate HoldsDelimiter(boundary: Octets, data: Octets) {
    Contains(CRLF + data, Delimiter(boundary))
  }

  /** One part is read back exactly, unless the delimiter cuts its payload short. */
  lemma DecodePayload(boundary: Octets, lines: seq<Octets>, data: Octets, next: Octets)
    requires '\r' !in boundary && "--" + boundary <= next
    ensures var decoded := DecodeBody(boundary, lines, data + CRLF + next);
            if HoldsDelimiter(boundary, data)
            then decoded.Some? ==> |decoded.value| > 0 && |decoded.value[0].payload| < |data|
            else match Decode(boundary, next)
              case None => decoded == None
              case Some(more) => decoded == Some([Decoded(lines, data)] + more)
  {
    var text := CRLF + data;
    BodyEndsAtDelimiter(boundary, data, next);
    DelimiterIsDistinct(boundary);
    FindAfter(text, Delimiter(boundary), next[2 + |boundary|..]);
    if HoldsDelimiter(boundary, data) {
      assert |text| >= |Delimiter(boundary)| >= 4;
    } else {
      SplitAt(text, CRLF, next);
      PayloadIsData(data, CRLF + next);
      Associative(text, CRLF, next);
    }
  }

  ghost predicate NoDelimiterIn(boundary: Octets, parts: seq<Part>) {
    forall i | 0 <= i < |parts| :: !HoldsDelimiter(boundary, BufferedData(parts[i]))
  }

  lemma NoDelimiterInRest(boundary: Octets, parts: seq<Part>)
    requires parts != []
    ensures NoDelimiterIn(boundary, parts) <==>
            !HoldsDelimiter(boundary, BufferedData(parts[0])) && NoDelimiterIn(boundary, parts[1..])
  {
    if NoDelimiterIn(boundary, parts[1..]) {
      assert forall i | 1 <= i < |parts| :: parts[i] == parts[1..][i - 1];
    }
  }

  lemma ConsEquality(d: Decoded, more: seq<Decoded>, d': Decoded, more': seq<Decoded>)
    ensures [d] + more == [d'] + more' <==> d == d' && more == more'
  {
    assert ([d] + more)[0] == d && ([d'] + more')[0] == d';
    assert ([d] + more)[1..] == more && ([d'] + more')[1..] == more';
  }

  lemma {:induction false} CleanFramingDecodes(boundary: Octets, parts: seq<Part>)
    requires '\r' !in boundary
    requires forall i | 0 <= i < |parts| :: CleanPart(parts[i])
    ensures Decode(boundary, Encode(boundary, parts)) == Some(Expected(parts)) <==> NoDelimiterIn(boundary, parts)
  {
    EncodeOpens(boundary, parts);
    if parts != [] {
      var p, next := parts[0], Encode(boundary, parts[1..]);
      CleanFramingDecodes(boundary, parts[1..]);
      EncodeOpens(boundary, parts[1..]);
      DecodeReachesBody(boundary, parts);
      DecodePayload(boundary, HeaderLines(p), BufferedData(p), next);
      NoDelimiterInRest(boundary, parts);
      var more := Decode(boundary, next);
      if more.Some? {
        var d := Decoded(HeaderLines(p), BufferedData(p));
        ConsEquality(d, more.value, d, Expected(parts[1..]));
      }
    }
  }

  /** Every part is recovered exactly iff no field contains a line end and no line of a payload starts with the boundary. */
  lemma FramingDecodes(boundary: Octets, parts: seq<Part>)
    requires '\r' !in boundary
    ensures Decode(boundary, Encode(boundary, parts)) == Some(Expected(parts)) <==>
            && (forall i | 0 <= i < |parts| :: CleanPart(parts[i]))
            && NoDelimiterIn(boundary, parts)
  {
    if Decode(boundary, Encode(boundary, parts)) == Some(Expected(parts)) {
      forall i | 0 <= i < |parts|
        ensures CleanPart(parts[i])
      {
        ExpectedAt(parts, i);
        DecodedLinesAreClean(boundary, Encode(boundary, parts), i);
        CleanHeaderLines(parts[i]);
      }
    }
    if forall i | 0 <= i < |parts| :: CleanPart(parts[i]) {
      CleanFramingDecodes(boundary, parts);
    }
  }

  /** A valid boundary is not enough: this payload is taken for two parts, */
  lemma DelimiterInPayloadIsMisread()
    ensures ValidBoundary("b")
    ensures var parts := [Part("n", None, None, [], Buffered("x\r\n--b\r\ny"))];
            Decode("b", Encode("b", parts)) != Some(Expected(parts))
  {
    var parts := [Part("n", None, None, [], Buffered("x\r\n--b\r\ny"))];
    assert OccursAt(CRLF + BufferedData(parts[0]), Delimiter("b"), 3);
    FramingDecodes("b", parts);
  }

  /** and so is this one, whose first line is a boundary; */
  lemma BoundaryOpensPayloadIsMisread()
    ensures var parts := [Part("n", None, None, [], Buffered("--b\r\ny"))];
            Decode("b", Encode("b", parts)) != Some(Expected(parts))
  {
    var parts := [Part("n", None, None, [], Buffered("--b\r\ny"))];
    assert OccursAt(CRLF + BufferedData(parts[0]), Delimiter("b"), 0);
    FramingDecodes("b", parts);
  }

  /** and this name breaks its header line in two. */
  lemma LineEndInNameIsMisread()
    ensures var parts := [Part("m\r\nn", None, None, [], Buffered(""))];
            Decode("b", Encode("b", parts)) != Some(Expected(parts))
  {
    var parts := [Part("m\r\nn", None, None, [], Buffered(""))];
    assert OccursAt(parts[0].name, CRLF, 1);
    FramingDecodes("b", parts);
  }

  /** The boundary check and the caller's duty together: no boundary in a payload, everything is recovered. */
  lemma ValidatedFramingDecodes(boundary: Octets, parts: seq<Part>)
    requires ValidBoundary(boundary)
    requires forall i | 0 <= i < |parts| :: CleanPart(parts[i]) && !Contains(BufferedData(parts[i]), boundary)
    ensures Decode(boundary, Encode(boundary, parts)) == Some(Expected(parts))
  {
    forall i | 0 <= i < |parts|
      ensures !HoldsDelimiter(boundary, BufferedData(parts[i]))
    {
      DelimiterContainsBoundary(boundary, BufferedData(parts[i]));
    }
    FramingDecodes(boundary, parts);
  }

  lemma DelimiterContainsBoundary(boundary: Octets, data: Octets)
    ensures HoldsDelimiter(boundary, data) ==> Contains(data, boundary)
  {
    if HoldsDelimiter(boundary, data) {
      var text := CRLF + data;
      var i: nat :| OccursAt(text, Delimiter(boundary), i);
      assert text[i + 4..i + 4 + |boundary|] == text[i..i + 4 + |boundary|][4..];
      assert Delimiter(boundary)[4..] == boundary;
      assert data[i + 2..i + 2 + |boundary|] == text[i + 4..i + 4 + |boundary|];
      assert OccursAt(data, boundary, i + 2);
    }
  }

  // ---------------------------------------------------------------------
  // Field names survive quoting
  // ---------------------------------------------------------------------

  /** Reads a quoted string up to its closing quote, undoing backslash escapes. */
  function Unquote(s: Octets): Option<(Octets, Octets)> {
    if s == "" then None
    else if s[0] == '\"' then Some(("", s[1..]))
    else
      var escaped := s[0] == '\\';
      if escaped && |s| < 2 then None
      else match Unquote(if escaped then s[2..] else s[1..])
        case None => None
        case Some(more) => Some(([if escaped then s[1] else s[0]] + more.0, more.1))
  }

  function EscapeChar(c: char): Octets {
    if c == '\\' then "\\\\" else if c == '\"' then "\\\"" else [c]
  }

  lemma {:induction false} ReplaceConcat(a: Octets, b: Octets, c: char, text: Octets)
    ensures Replace(a + b, c, text) == Replace(a, c, text) + Replace(b, c, text)
  {
    if a == "" {
      assert a + b == b;
    } else {
      assert (a + b)[1..] == a[1..] + b;
      ReplaceConcat(a[1..], b, c, text);
    }
  }

  lemma EscapeHead(s: Octets)
    requires s != ""
    ensures EscapeQuote(s) == EscapeChar(s[0]) + EscapeQuote(s[1..])
  {
    var first := if s[0] == '\\' then "\\\\" else [s[0]];
    ReplaceConcat(first, Replace(s[1..], '\\', "\\\\"), '\"', "\\\"");
    assert Replace(first, '\"', "\\\"") == EscapeChar(s[0]);
  }

  lemma {:induction false} UnquoteEscaped(s: Octets, rest: Octets)
    ensures Unquote(EscapeQuote(s) + QUOTE + rest) == Some((s, rest))
  {
    if s == "" {
      assert (EscapeQuote(s) + QUOTE + rest)[1..] == rest;
    } else {
      EscapeHead(s);
      UnquoteEscaped(s[1..], rest);
      UnquoteChar(s[0], EscapeQuote(s[1..]) + QUOTE + rest, s[1..], rest);
      Associative(EscapeChar(s[0]), EscapeQuote(s[1..]) + QUOTE, rest);
      Associative(EscapeChar(s[0]), EscapeQuote(s[1..]), QUOTE);
      assert [s[0]] + s[1..] == s;
    }
  }

  lemma UnquoteChar(c: char, more: Octets, s: Octets, rest: Octets)
    requires Unquote(more) == Some((s, rest))
    ensures Unquote(EscapeChar(c) + more) == Some(([c] + s, rest))
  {
    DropPrefix(EscapeChar(c), more);
  }

  /** Recovers name and file name from a Content-Disposition line. */
  function ReadDisposition(line: Octets): Option<(Octets, Option<Octets>)> {
    var opening := "Content-Disposition: form-data; name=\"";
    var more := "; filename=\"";
    if !(opening <= line) then None
    else match Unquote(line[|opening|..])
      case None => None
      case Some(named) =>
        if named.1 == "" then Some((named.0, None))
        else if !(more <= named.1) then None
        else match Unquote(named.1[|more|..])
          case Some(filed) => if filed.1 == "" then Some((named.0, Some(filed.0))) else None
          case None => None
  }

  lemma ReadField(field: Octets, value: Octets, rest: Octets)
    ensures var s := field + (EscapeQuote(value) + QUOTE + rest);
            field <= s && Unquote(s[|field|..]) == Some((value, rest))
  {
    UnquoteEscaped(value, rest);
    DropPrefix(field, EscapeQuote(value) + QUOTE + rest);
  }

  lemma RegroupFields(a: Octets, b: Octets, c: Octets, d: Octets, e: Octets, f: Octets)
    ensures a + b + c + d + e + f == a + (b + c + (d + (e + f + "")))
    ensures a + b + c == a + (b + c + "")
  {
  }

  lemma DispositionReadsBack(p: Part)
    ensures ReadDisposition(Disposition(p)) == Some((p.name, p.filename))
  {
    var name := EscapeQuote(p.name);
    match p.filename
    case None =>
      RegroupFields(NAME_FIELD, name, QUOTE, "", "", "");
      ReadField(NAME_FIELD, p.name, "");
    case Some(filename) =>
      RegroupFields(NAME_FIELD, name, QUOTE, FILENAME_FIELD, EscapeQuote(filename), QUOTE);
      ReadField(FILENAME_FIELD, filename, "");
      ReadField(NAME_FIELD, p.name, FILENAME_FIELD + (EscapeQuote(filename) + QUOTE + ""));
  }

  /** Recovers name and value of a header line at the first separator. */
  function ReadHeader(line: Octets): Option<Header> {
    match Find(line, ": ")
    case None => None
    case Some(i) => Some(Header(line[..i], line[i + 2..]))
  }

  /** A custom header is recovered from its line iff its name does not contain the separator. */
  lemma HeaderReadsBack(h: Header)
    ensures ReadHeader(h.name + ": " + h.value) == Some(h) <==> !Contains(h.name, ": ")
  {
    FindAfter(h.name, ": ", h.value);
    SplitAt(h.name, ": ", h.value);
  }

  lemma {:induction false} HeaderTextsAt(headers: seq<Header>, i: nat)
    requires i < |headers|
    ensures |HeaderTexts(headers)| == |headers|
    ensures HeaderTexts(headers)[i] == headers[i].name + ": " + headers[i].value
  {
    if |headers| > 1 {
      HeaderTextsAt(headers[1..], if i > 0 then i - 1 else 0);
    }
  }

  lemma NoFirstNoMatch(s: Octets, pattern: Octets)
    requires pattern != "" && pattern[0] !in s
    ensures !Contains(s, pattern)
  {
    assert forall i: nat | OccursAt(s, pattern, i) :: s[i] == s[i..i + |pattern|][0];
  }

  lemma ContentTypeReadsBack(value: Octets)
    ensures ReadHeader("Content-Type: " + value) == Some(Header("Content-Type", value))
  {
    var h := Header("Content-Type", value);
    NoFirstNoMatch(h.name, ": ");
    HeaderReadsBack(h);
    assert h.name + ": " == "Content-Type: ";
  }

  /** Where the lines of a part are: disposition first, then the content type if any, then the headers in order. */
  lemma HeaderLinesInOrder(p: Part)
    ensures var lines, fixed := HeaderLines(p), if p.contentType.Some? then 2 else 1;
            && |lines| == fixed + |p.headers|
            && ReadDisposition(lines[0]) == Some((p.name, p.filename))
            && (p.contentType.Some? ==> ReadHeader(lines[1]) == Some(Header("Content-Type", p.contentType.value)))
            && (forall i | 0 <= i < |p.headers| :: lines[fixed + i] == p.headers[i].name + ": " + p.headers[i].value)
  {
    DispositionReadsBack(p);
    forall i | 0 <= i < |p.headers|
      ensures |HeaderTexts(p.headers)| == |p.headers|
      ensures HeaderTexts(p.headers)[i] == p.headers[i].name + ": " + p.headers[i].value
    {
      HeaderTextsAt(p.headers, i);
    }
    if p.contentType.Some? {
      ContentTypeReadsBack(p.contentType.value);
    }
  }
}
