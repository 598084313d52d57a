/**
 The byte-range part of the `/v/<id>` route: the `Range` request header read
 with the pattern `bytes=(\d+)-(\d*)` (anchored at the start only), the end
 clamped to the file, and the `206` reply's `Content-Range` and
 `Content-Length` headers.
 */
module Ranges {
  import opened Options
  import opened Text
  import opened Decimal

  /** The two groups of a matching header: the first byte and, when the
      second group is not empty, the last byte. */
  datatype ByteRange = ByteRange(first: nat, last: Option<nat>)

  const Unit: string := "bytes="

  /** `re.match(r"bytes=(\d+)-(\d*)", header)`, for ASCII digits. Whatever
      follows the second digit run is ignored. */
  function MatchRange(header: string): (r: Option<ByteRange>)
    ensures r.Some? ==> HasPrefix(header, Unit) && |header| > 7 && IsDigit(header[6])
  {
    if !HasPrefix(header, Unit) then None
    else
      match NumberThen(header[6..], '-')
      case None => None
      case Some((first, tail)) => Some(ByteRange(first, LeadingNumber(tail)))
  }

  /** The second group: the value of the leading digits, `None` when there are none. */
  function LeadingNumber(s: string): Option<nat> {
    var m := DigitRun(s);
    if m == 0 then None else Some(Value(s[..m]))
  }

  /** The text of the optional last byte. */
  function LastText(last: Option<nat>): string {
    if last.Some? then Show(last.value) else ""
  }

  lemma LeadingNumberOf(last: Option<nat>, trailer: string)
    requires trailer == [] || !IsDigit(trailer[0])
    ensures LeadingNumber(LastText(last) + trailer) == last
  {
    var b := LastText(last);
    DigitRunOf(b, trailer);
    assert (b + trailer)[..|b|] == b;
  }

  /** The header a client writes for `r`, followed by any text that does not
      start with a digit. */
  function RangeHeader(r: ByteRange, trailer: string): string {
    Unit + (Show(r.first) + "-" + (LastText(r.last) + trailer))
  }

  /** `p` then `rest`: the prefix test passes and leaves `rest`. */
  lemma AfterPrefix(p: string, rest: string)
    ensures HasPrefix(p + rest, p) && (p + rest)[|p|..] == rest
  {
    assert (p + rest)[..|p|] == p;
  }

  /** Reading a written header gives back the range, whatever trails it. */
  lemma MatchRangeHeader(r: ByteRange, trailer: string)
    requires trailer == [] || !IsDigit(trailer[0])
    ensures MatchRange(RangeHeader(r, trailer)) == Some(r)
  {
    var tail := LastText(r.last) + trailer;
    var rest := Show(r.first) + ['-'] + tail;
    assert RangeHeader(r, trailer) == Unit + rest;
    AfterPrefix(Unit, rest);
    NumberThenOf(Show(r.first), '-', tail);
    LeadingNumberOf(r.last, trailer);
  }

  /** `header` is `bytes=`, a non-empty digit run `d1`, a dash, a digit run
      `d2` that may be empty, and text `t` that does not start with a digit;
      `r` holds the values of the two runs, with no last byte when `d2` is
      empty. */
  predicate RangeParts(header: string, d1: string, d2: string, t: string, r: ByteRange) {
    && |d1| >= 1 && AllDigits(d1) && AllDigits(d2) && (t == [] || !IsDigit(t[0]))
    && header == Unit + d1 + "-" + d2 + t
    && r == ByteRange(Value(d1), if d2 == [] then None else Some(Value(d2)))
  }

  /** The groups of the pattern, both ways: a header matches with groups `r`
      exactly when it splits into the pattern's parts with those values
      (leading zeros allowed). */
  lemma MatchRangeExactly(header: string, r: ByteRange)
    ensures MatchRange(header) == Some(r) <==> exists d1, d2, t :: RangeParts(header, d1, d2, t, r)
  {
    if MatchRange(header) == Some(r) {
      var d1, d2, t := MatchedParts(header);
      assert RangeParts(header, d1, d2, t, r);
    }
    if d1, d2, t :| RangeParts(header, d1, d2, t, r) {
      PartsMatch(header, d1, d2, t, r);
    }
  }

  /** The parts a matching header splits into. */
  lemma MatchedParts(header: string) returns (d1: string, d2: string, t: string)
    requires MatchRange(header).Some?
    ensures RangeParts(header, d1, d2, t, MatchRange(header).value)
  {
    var s, n := MatchRangeUnfold(header);
    d2, t := LeadingNumberParts(s[n + 1..]);
    d1 := s[..n];
    assert s[n..] == "-" + (d2 + t);
    assert s == d1 + s[n..];
    Regroup(Unit, d1, "-", d2, t);
  }

  lemma Regroup(a: string, b: string, c: string, d: string, e: string)
    ensures a + (b + (c + (d + e))) == a + b + c + d + e
  {
  }

  /** A match: `bytes=`, then the digit run and dash `NumberThen` found. */
  lemma MatchRangeUnfold(header: string) returns (s: string, n: nat)
    requires MatchRange(header).Some?
    ensures header == Unit + s && n == DigitRun(s) && 0 < n < |s| && s[n] == '-'
    ensures MatchRange(header).value == ByteRange(Value(s[..n]), LeadingNumber(s[n + 1..]))
  {
    s := header[6..];
    n := DigitRun(s);
    assert header == header[..6] + s;
  }

  /** The second group's digits and what follows them. */
  lemma LeadingNumberParts(tail: string) returns (d2: string, t: string)
    ensures tail == d2 + t && AllDigits(d2) && (t == [] || !IsDigit(t[0]))
    ensures LeadingNumber(tail) == (if d2 == [] then None else Some(Value(d2)))
  {
    var m := DigitRun(tail);
    d2, t := tail[..m], tail[m..];
    assert t == [] || t[0] == tail[m];
  }

  /** A header made of the pattern's parts matches with their values. */
  lemma PartsMatch(header: string, d1: string, d2: string, t: string, r: ByteRange)
    requires RangeParts(header, d1, d2, t, r)
    ensures MatchRange(header) == Some(r)
  {
    var tail := d2 + t;
    var rest := d1 + ['-'] + tail;
    assert header == Unit + rest;
    AfterPrefix(Unit, rest);
    NumberThenOf(d1, '-', tail);
    DigitRunOf(d2, t);
    assert tail[..|d2|] == d2;
  }

  /** The suffix form `bytes=-N` does not match: the first group needs a
      digit, so the request is left to `send_file`. */
  lemma SuffixRangeNotMatched(n: nat)
    ensures MatchRange(Unit + "-" + Show(n)) == None
  {
    var h := Unit + "-" + Show(n);
    assert h[6] == '-';
  }

  /** What the route does with a request's `Range` header. */
  datatype RangeOutcome =
    | HandOver                                   // send_file(conditional=True) answers the request
    | NotSatisfiable                             // abort(416)
    | Partial(start: nat, end: nat, length: nat) // 206 with bytes start..end

  /** A decision that stays inside a file of `size` bytes. */
  predicate FitsFile(o: RangeOutcome, size: nat) {
    o.Partial? ==> o.start <= o.end < size && o.length == o.end - o.start + 1
  }

  /** The range decision for a file of `size` bytes. A header that is absent
      or empty, or that does not match, leaves the request to
      `send_file(conditional=True)`; otherwise the end is `min(last, size - 1)`,
      or `size - 1` when the last byte is not given. */
  function DecideRange(header: Option<string>, size: nat): (o: RangeOutcome)
    ensures FitsFile(o, size)
    ensures o.HandOver? <==> header.None? || header.value == "" || MatchRange(header.value).None?
  {
    if header.None? || header.value == "" then HandOver
    else
      match MatchRange(header.value)
      case None => HandOver
      case Some(r) =>
        var end: int := if r.last.Some? then r.last.value else size - 1;
        var end := if end < size - 1 then end else size - 1;
        if r.first > end then NotSatisfiable
        else Partial(r.first, end, end - r.first + 1)
  }

  /** A matched range is refused exactly when it starts at or past the end of
      the file or its last byte comes before its first; otherwise the reply
      covers from the first byte to the requested last one, cut at the end of
      the file. */
  lemma DecideMatched(h: string, size: nat, r: ByteRange)
    requires h != "" && MatchRange(h) == Some(r)
    ensures DecideRange(Some(h), size).NotSatisfiable? <==>
      r.first >= size || (r.last.Some? && r.last.value < r.first)
    ensures DecideRange(Some(h), size).Partial? ==>
      && DecideRange(Some(h), size).start == r.first
      && DecideRange(Some(h), size).end == (if r.last.Some? && r.last.value < size then r.last.value else size - 1)
  {
  }

  /** An empty file has no satisfiable range. */
  lemma EmptyFileNeverPartial(header: Option<string>)
    ensures !DecideRange(header, 0).Partial?
  {
  }

  /** A written header, decided against a file of `size` bytes. */
  lemma DecideWrittenHeader(r: ByteRange, trailer: string, size: nat)
    requires trailer == [] || !IsDigit(trailer[0])
    ensures var e := if r.last.Some? && r.last.value < size then r.last.value else size - 1;
      DecideRange(Some(RangeHeader(r, trailer)), size) ==
        if r.first >= size || (r.last.Some? && r.last.value < r.first) then NotSatisfiable
        else Partial(r.first, e, e - r.first + 1)
  {
    var h := RangeHeader(r, trailer);
    MatchRangeHeader(r, trailer);
    assert h != "";
    DecideMatched(h, size, r);
  }

  /** Four readings of a 1000-byte file. */
  lemma ThousandByteExamples()
    ensures DecideRange(Some(RangeHeader(ByteRange(200, Some(299)), "")), 1000) == Partial(200, 299, 100)
    ensures DecideRange(Some(RangeHeader(ByteRange(900, None), "")), 1000) == Partial(900, 999, 100)
    ensures DecideRange(Some(RangeHeader(ByteRange(950, Some(1200)), "")), 1000) == Partial(950, 999, 50)
    ensures DecideRange(Some(RangeHeader(ByteRange(500, Some(100)), "")), 1000) == NotSatisfiable
  {
    DecideWrittenHeader(ByteRange(200, Some(299)), "", 1000);
    DecideWrittenHeader(ByteRange(900, None), "", 1000);
    DecideWrittenHeader(ByteRange(950, Some(1200)), "", 1000);
    DecideWrittenHeader(ByteRange(500, Some(100)), "", 1000);
  }

  /** `Content-Range: bytes {start}-{end}/{size}`. */
  function ContentRange(start: nat, end: nat, size: nat): string {
    "bytes " + Show(start) + "-" + Show(end) + "/" + Show(size)
  }

  /** `Content-Length: {length}`. */
  function ContentLength(length: nat): string {
    Show(length)
  }

  /** Reads a `Content-Range` value back into its three numbers. */
  function ReadContentRange(s: string): (r: Option<(nat, nat, nat)>) {
    if !HasPrefix(s, "bytes ") then None
    else
      match NumberThen(s[6..], '-')
      case None => None
      case Some((start, t)) =>
        match NumberThen(t, '/')
        case None => None
        case Some((end, u)) =>
          match Number(u)
          case None => None
          case Some(size) => Some((start, end, size))
  }

  /** The `Content-Range` header names the range and the file size it was cut from. */
  lemma ContentRangeReadsBack(start: nat, end: nat, size: nat)
    ensures ReadContentRange(ContentRange(start, end, size)) == Some((start, end, size))
  {
    var x, y, z := Show(start), Show(end), Show(size);
    var b := y + ['/'] + z;
    var a := x + ['-'] + b;
    assert ContentRange(start, end, size) == "bytes " + a;
    AfterPrefix("bytes ", a);
    NumberThenOf(x, '-', b);
    NumberThenOf(y, '/', z);
    NumberOf(z);
  }
}
