/**
 Content-Length normalisation (section 8.6 of RFC 9110) and the validator that holds a body to the
 length its message declared.
 */
module MessageFraming {
  import opened Common

  const CONTENT_LENGTH := "content-length"

  datatype Field = Field(name: string, value: string)

  datatype Parsed = Invalid | Length(value: Option<nat>)

  // ---------------------------------------------------------------------
  // Decimal numbers
  // ---------------------------------------------------------------------

  predicate Digit(c: char) {
    '0' <= c <= '9'
  }

  predicate AllDigits(s: string) {
    forall i | 0 <= i < |s| :: Digit(s[i])
  }

  function DecimalValue(s: string): nat
    requires AllDigits(s)
  {
    if s == "" then 0
    else 10 * DecimalValue(s[..|s| - 1]) + (s[|s| - 1] as int - '0' as int)
  }

  /** `u64::to_string`. */
  function Decimal(n: nat): (s: string)
    ensures s != "" && AllDigits(s)
  {
    if n < 10 then [('0' as int + n) as char]
    else Decimal(n / 10) + [('0' as int + n % 10) as char]
  }

  lemma {:induction false} DecimalRoundTrip(n: nat)
    ensures DecimalValue(Decimal(n)) == n
  {
    if n >= 10 {
      DecimalRoundTrip(n / 10);
      var s := Decimal(n);
      assert s[..|s| - 1] == Decimal(n / 10);
    } else {
      assert Decimal(n)[..0] == "";
    }
  }

  // ---------------------------------------------------------------------
  // List syntax
  // ---------------------------------------------------------------------

  /** `split(',')`: always at least one item. */
  function Split(s: string): (items: seq<string>)
    ensures items != []
  {
    if s == "" then [""]
    else if s[0] == ',' then [""] + Split(s[1..])
    else
      var rest := Split(s[1..]);
      [[s[0]] + rest[0]] + rest[1..]
  }

  function Join(items: seq<string>): string
    requires items != []
  {
    if |items| == 1 then items[0] else items[0] + "," + Join(items[1..])
  }

  /** Splitting loses nothing and leaves no comma in an item. */
  lemma {:induction false} SplitInvertsJoin(s: string)
    ensures Join(Split(s)) == s
    ensures forall i | 0 <= i < |Split(s)| :: ',' !in Split(s)[i]
  {
    if s != "" {
      SplitInvertsJoin(s[1..]);
      var rest := Split(s[1..]);
      if s[0] == ',' {
        assert Split(s)[1..] == rest;
      } else {
        assert Split(s)[1..] == rest[1..];
        assert |rest| > 1 ==> [s[0]] + (rest[0] + "," + Join(rest[1..])) == [s[0]] + rest[0] + "," + Join(rest[1..]);
      }
    }
  }

  predicate Blank(c: char) {
    c == ' ' || c == '\t'
  }

  function TrimStart(s: string): string {
    if s != "" && Blank(s[0]) then TrimStart(s[1..]) else s
  }

  function TrimEnd(s: string): string {
    if s != "" && Blank(s[|s| - 1]) then TrimEnd(s[..|s| - 1]) else s
  }

  function Trim(s: string): string {
    TrimEnd(TrimStart(s))
  }

  ghost predicate AllBlank(s: string) {
    forall i | 0 <= i < |s| :: s[i] == ' ' || s[i] == '\t'
  }

  ghost predicate NoBlankEnds(s: string) {
    s != "" ==> s[0] != ' ' && s[0] != '\t' && s[|s| - 1] != ' ' && s[|s| - 1] != '\t'
  }

  lemma {:induction false} TrimStartExactly(s: string) returns (before: string)
    ensures s == before + TrimStart(s) && AllBlank(before)
    ensures TrimStart(s) != "" ==> !Blank(TrimStart(s)[0])
  {
    before := "";
    if s != "" && Blank(s[0]) {
      before := TrimStartExactly(s[1..]);
      before := [s[0]] + before;
    }
  }

  lemma {:induction false} TrimEndExactly(s: string) returns (after: string)
    ensures s == TrimEnd(s) + after && AllBlank(after)
    ensures TrimEnd(s) != "" ==> !Blank(TrimEnd(s)[|TrimEnd(s)| - 1])
  {
    after := "";
    if s != "" && Blank(s[|s| - 1]) {
      after := TrimEndExactly(s[..|s| - 1]);
      after := after + [s[|s| - 1]];
    }
  }

  /** Trimming takes spaces and tabs off both ends, all of them and nothing else. */
  lemma TrimExactly(s: string) returns (before: string, after: string)
    ensures s == before + Trim(s) + after
    ensures AllBlank(before) && AllBlank(after) && NoBlankEnds(Trim(s))
  {
    before := TrimStartExactly(s);
    after := TrimEndExactly(TrimStart(s));
    assert Trim(s) != "" ==> Trim(s)[0] == TrimStart(s)[0];
    Associative(before, Trim(s), after);
  }

  /** The value of one list item, if it is a digit string that fits in 64 bits. */
  function ItemValue(item: string): Option<nat> {
    var t := Trim(item);
    if t == "" || !AllDigits(t) then None
    else if DecimalValue(t) < U64_LIMIT then Some(DecimalValue(t))
    else None
  }

  lemma {:induction false} TrimStartPadded(before: string, s: string)
    requires AllBlank(before) && (s != "" ==> !Blank(s[0]))
    ensures TrimStart(before + s) == s
  {
    if before == "" {
      assert before + s == s;
    } else {
      assert (before + s)[1..] == before[1..] + s;
      TrimStartPadded(before[1..], s);
    }
  }

  lemma {:induction false} TrimEndPadded(s: string, after: string)
    requires AllBlank(after) && (s != "" ==> !Blank(s[|s| - 1]))
    ensures TrimEnd(s + after) == s
  {
    if after == "" {
      assert s + after == s;
    } else {
      assert (s + after)[..|s + after| - 1] == s + after[..|after| - 1];
      TrimEndPadded(s, after[..|after| - 1]);
    }
  }

  lemma TrimPadded(before: string, s: string, after: string)
    requires AllBlank(before) && AllBlank(after) && s != "" && NoBlankEnds(s)
    ensures Trim(before + s + after) == s
  {
    Associative(before, s, after);
    TrimStartPadded(before, s + after);
    TrimEndPadded(s, after);
  }

  /** A digit string with nothing but spaces and tabs around it. */
  ghost predicate PaddedNumber(item: string, before: string, digits: string, after: string) {
    && item == before + digits + after
    && AllBlank(before) && AllBlank(after)
    && digits != "" && (forall i | 0 <= i < |digits| :: '0' <= digits[i] <= '9')
  }

  /** An item has a value exactly when it is a padded digit string below 2^64, and then it is that number. */
  lemma ItemValueExactly(item: string, n: nat)
    ensures ItemValue(item) == Some(n) <==>
            n < U64_LIMIT &&
            exists before, digits, after :: PaddedNumber(item, before, digits, after) && DecimalValue(digits) == n
  {
    if ItemValue(item) == Some(n) {
      var before, after := TrimExactly(item);
      assert PaddedNumber(item, before, Trim(item), after);
    }
    forall before, digits, after | PaddedNumber(item, before, digits, after) && DecimalValue(digits) == n
      ensures n < U64_LIMIT ==> ItemValue(item) == Some(n)
    {
      TrimPadded(before, digits, after);
    }
  }

  /** `HeaderValue::to_str` accepts visible ASCII and tabs. */
  predicate Readable(value: string) {
    forall i | 0 <= i < |value| :: ' ' <= value[i] <= '~' || value[i] == '\t'
  }

  function ValuesOf(headers: seq<Field>, name: string): seq<string> {
    if headers == [] then []
    else if headers[0].name == name then [headers[0].value] + ValuesOf(headers[1..], name)
    else ValuesOf(headers[1..], name)
  }

  function Without(headers: seq<Field>, name: string): seq<Field> {
    if headers == [] then []
    else if headers[0].name == name then Without(headers[1..], name)
    else [headers[0]] + Without(headers[1..], name)
  }

  // ---------------------------------------------------------------------
  // What a set of Content-Length fields declares
  // ---------------------------------------------------------------------

  /** Every item of every field is a number, and all of them are `n`. */
  ghost predicate Declares(values: seq<string>, n: nat) {
    forall i | 0 <= i < |values| ::
      Readable(values[i]) && forall j | 0 <= j < |Split(values[i])| :: ItemValue(Split(values[i])[j]) == Some(n)
  }

  /** The parse result that the fields call for. */
  ghost predicate Meets(r: Parsed, values: seq<string>) {
    match r
    case Length(None) => values == []
    case Length(Some(n)) => values != [] && n < U64_LIMIT && Declares(values, n)
    case Invalid => values != [] && forall n: nat :: !Declares(values, n)
  }

  /** Acceptance is unambiguous: the fields determine the result. */
  lemma ResultIsDetermined(r: Parsed, r': Parsed, values: seq<string>)
    requires Meets(r, values) && Meets(r', values)
    ensures r == r'
  {
    if values != [] {
      var item := Split(values[0])[0];
      assert forall n: nat :: Declares(values, n) ==> ItemValue(item) == Some(n);
    }
  }

  lemma OneBadItemSpoils(values: seq<string>, i: nat, j: nat, n: nat)
    requires i < |values| && j < |Split(values[i])|
    requires ItemValue(Split(values[i])[j]) != Some(n)
    ensures !Declares(values, n)
  {
  }

  method ParseContentLength(headers: seq<Field>) returns (r: Parsed)
    ensures Meets(r, ValuesOf(headers, CONTENT_LENGTH))
  {
    var values := ValuesOf(headers, CONTENT_LENGTH);
    var parsed: Option<nat> := None;
    for i := 0 to |values|
      invariant parsed.None? <==> i == 0
      invariant parsed.Some? ==> parsed.value < U64_LIMIT && Declares(values[..i], parsed.value)
    {
      if !Readable(values[i]) {
        assert forall n: nat :: !Declares(values, n);
        return Invalid;
      }
      var items := Split(values[i]);
      for j := 0 to |items|
        invariant parsed.None? <==> i == 0 && j == 0
        invariant parsed.Some? ==> parsed.value < U64_LIMIT && Declares(values[..i], parsed.value)
        invariant parsed.Some? ==> forall k | 0 <= k < j :: ItemValue(items[k]) == parsed
      {
        var item := Trim(items[j]);
        if item == "" || !AllDigits(item) || DecimalValue(item) >= U64_LIMIT {
          forall n: nat
            ensures !Declares(values, n)
          {
            OneBadItemSpoils(values, i, j, n);
          }
          return Invalid;
        }
        var length := DecimalValue(item);
        if parsed.Some? && parsed.value != length {
          forall n: nat
            ensures !Declares(values, n)
          {
            if j > 0 {
              OneBadItemSpoils(values, i, if n == length then 0 else j, n);
            } else {
              assert ItemValue(Split(values[0])[0]) == parsed by {
                assert values[..i][0] == values[0];
              }
              if n == length {
                OneBadItemSpoils(values, 0, 0, n);
              } else {
                OneBadItemSpoils(values, i, j, n);
              }
            }
          }
          return Invalid;
        }
        parsed := Some(length);
      }
      assert values[..i + 1] == values[..i] + [values[i]];
    }
    assert values[..|values|] == values;
    r := Length(parsed);
  }

  // ---------------------------------------------------------------------
  // Normalisation
  // ---------------------------------------------------------------------

  function Normalized(headers: seq<Field>, r: Parsed): seq<Field> {
    if r.Length? && r.value.Some?
    then Without(headers, CONTENT_LENGTH) + [Field(CONTENT_LENGTH, Decimal(r.value.value))]
    else headers
  }

  /** `normalize_content_length`: the header map before and after. */
  method NormalizeContentLength(headers: seq<Field>) returns (r: Parsed, normalized: seq<Field>)
    ensures Meets(r, ValuesOf(headers, CONTENT_LENGTH))
    ensures normalized == Normalized(headers, r)
    ensures r.Invalid? || r.value.None? ==> normalized == headers
  {
    normalized := headers;
    r := ParseContentLength(headers);
    if r.Invalid? || r.value.None? {
      return;
    }
    normalized := Without(normalized, CONTENT_LENGTH);
    normalized := normalized + [Field(CONTENT_LENGTH, Decimal(r.value.value))];
  }

  lemma {:induction false} WithoutHasNone(headers: seq<Field>, name: string)
    ensures ValuesOf(Without(headers, name), name) == []
    ensures Without(Without(headers, name), name) == Without(headers, name)
  {
    if headers != [] {
      WithoutHasNone(headers[1..], name);
      assert ([headers[0]] + Without(headers[1..], name))[1..] == Without(headers[1..], name);
    }
  }

  lemma {:induction false} AppendField(headers: seq<Field>, f: Field)
    ensures ValuesOf(headers + [f], f.name) == ValuesOf(headers, f.name) + [f.value]
    ensures Without(headers + [f], f.name) == Without(headers, f.name)
  {
    if headers == [] {
      assert headers + [f] == [f];
    } else {
      assert (headers + [f])[1..] == headers[1..] + [f];
      AppendField(headers[1..], f);
    }
  }

  lemma {:induction false} SplitPlain(s: string)
    requires ',' !in s
    ensures Split(s) == [s]
  {
    if s != "" {
      SplitPlain(s[1..]);
      assert [s[0]] + s[1..] == s;
    }
  }

  lemma DecimalDeclares(n: nat)
    requires n < U64_LIMIT
    ensures Declares([Decimal(n)], n)
  {
    var s := Decimal(n);
    SplitPlain(s);
    DecimalRoundTrip(n);
    assert Trim(s) == s;
  }

  /** Normalising leaves one field that reparses to the same length, changes nothing else, and is idempotent. */
  lemma NormalizationIsStable(headers: seq<Field>, n: nat)
    requires n < U64_LIMIT
    ensures var normalized := Normalized(headers, Length(Some(n)));
            && ValuesOf(normalized, CONTENT_LENGTH) == [Decimal(n)]
            && Meets(Length(Some(n)), ValuesOf(normalized, CONTENT_LENGTH))
            && Without(normalized, CONTENT_LENGTH) == Without(headers, CONTENT_LENGTH)
            && Normalized(normalized, Length(Some(n))) == normalized
  {
    var rest := Without(headers, CONTENT_LENGTH);
    WithoutHasNone(headers, CONTENT_LENGTH);
    AppendField(rest, Field(CONTENT_LENGTH, Decimal(n)));
    DecimalDeclares(n);
  }

  // ---------------------------------------------------------------------
  // Holding a body to its declared length
  // ---------------------------------------------------------------------

  /** What `record` does to the running total: an addition that would overflow is refused. */
  function Recorded(seen: nat, count: nat): nat {
    if seen + count < U64_LIMIT then seen + count else seen
  }

  predicate RecordAccepts(expected: Option<nat>, seen: nat, count: nat) {
    seen + count < U64_LIMIT && (expected.Some? ==> seen + count <= expected.value)
  }

  class BodyLengthValidator {
    const expected: Option<nat>
    var seen: nat
    var finished: bool

    constructor (expected: Option<nat>)
      ensures this.expected == expected && seen == 0 && !finished
    {
      this.expected := expected;
      seen := 0;
      finished := false;
    }

    method Record(count: nat) returns (ok: bool)
      modifies this`seen
      ensures seen == Recorded(old(seen), count)
      ensures ok == RecordAccepts(expected, old(seen), count)
    {
      if seen + count >= U64_LIMIT {
        return false;
      }
      seen := seen + count;
      if expected.Some? && seen > expected.value {
        return false;
      }
      return true;
    }

    method Finish() returns (ok: bool)
      modifies this`finished
      ensures finished
      ensures ok == (old(finished) || expected.None? || seen == expected.value)
    {
      if finished {
        return true;
      }
      finished := true;
      if expected.Some? && seen != expected.value {
        return false;
      }
      return true;
    }

    /** Feeds a whole body frame by frame and stops at the first error, as the body wrappers do. */
    method CheckBody(counts: seq<nat>) returns (ok: bool)
      requires seen == 0 && !finished && (expected.Some? ==> expected.value < U64_LIMIT)
      modifies this
      ensures ok <==> Total(counts) < U64_LIMIT && (expected.Some? ==> Total(counts) == expected.value)
    {
      for i := 0 to |counts|
        invariant seen == Total(counts[..i]) < U64_LIMIT
        invariant !finished
      {
        TotalSplits(counts, i);
        var accepted := Record(counts[i]);
        if !accepted {
          return false;
        }
      }
      assert counts[..|counts|] == counts;
      ok := Finish();
    }
  }

  function Total(counts: seq<nat>): nat {
    if counts == [] then 0 else Total(counts[..|counts| - 1]) + counts[|counts| - 1]
  }

  lemma {:induction false} TotalGrows(counts: seq<nat>, i: nat)
    requires i <= |counts|
    ensures Total(counts[..i]) <= Total(counts)
  {
    if i == |counts| {
      assert counts[..i] == counts;
    } else {
      var front := counts[..|counts| - 1];
      TotalGrows(front, i);
      assert front[..i] == counts[..i];
    }
  }

  lemma TotalSplits(counts: seq<nat>, i: nat)
    requires i < |counts|
    ensures Total(counts[..i + 1]) == Total(counts[..i]) + counts[i]
    ensures Total(counts[..i + 1]) <= Total(counts)
  {
    assert counts[..i + 1][..i] == counts[..i];
    TotalGrows(counts, i + 1);
  }

  /** The running total after a body whose record errors were all ignored. */
  function SeenAfter(counts: seq<nat>): nat {
    if counts == [] then 0 else Recorded(SeenAfter(counts[..|counts| - 1]), counts[|counts| - 1])
  }

  /** Even a caller that ignores record errors is told the truth at the end, short of 64-bit overflow. */
  lemma {:induction false} SeenIsTotal(counts: seq<nat>)
    ensures Total(counts) < U64_LIMIT <==> SeenAfter(counts) == Total(counts)
    ensures SeenAfter(counts) < U64_LIMIT && SeenAfter(counts) <= Total(counts)
  {
    if counts != [] {
      SeenIsTotal(counts[..|counts| - 1]);
    }
  }

  /** Past overflow the ignored error hides a body that is longer than declared. */
  lemma IgnoredOverflowIsForgotten()
    ensures SeenAfter([U64_LIMIT - 1, 1]) == U64_LIMIT - 1 != Total([U64_LIMIT - 1, 1])
  {
    var counts, front := [U64_LIMIT - 1, 1], [U64_LIMIT - 1];
    assert counts[..1] == front && front[..0] == [];
    assert SeenAfter(front) == U64_LIMIT - 1 && Total(front) == U64_LIMIT - 1;
  }
}
