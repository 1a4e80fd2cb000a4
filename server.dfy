/** The /api/search handler: request validation, then the enumeration of
    every substring of the body (by start, then by length) tested against the
    loaded filter, with the matches listed in the order they are found. */
module Server {
  import opened Results
  import opened LittleEndian
  import Decimal

  const StatusBadRequest: nat := 400
  const StatusRequestTimeout: nat := 408
  const StatusRequestEntityTooLarge: nat := 413
  const StatusInternalServerError: nat := 500

  /** What the handler writes back: a status with an empty body, or status
      200 with the JSON object {"guiltySubstrings": [...]}. */
  datatype Response = Empty(status: nat) | Json(guiltySubstrings: seq<string>)

  /** The parts of an HTTP request the handler looks at. */
  datatype Request = Request(
    substringLength: string, // r.URL.Query().Get("substringLength"): "" when absent
    contentLength: int,      // r.ContentLength: -1 when unknown
    offered: seq<byte>,      // what the first r.Body.Read has to give
    readFailed: bool)        // whether that Read also returns an error

  /** The substringLength query parameter: absent means 0, anything else must
      be an unsigned decimal that fits in 16 bits. */
  function ParseSubstringLength(param: string): (r: Option<nat>)
    ensures r.Some? ==> r.value <= 65535
    ensures param == "" ==> r == Some(0)
    ensures param != "" ==> (r.Some? <==> Decimal.AllDigits(param) && Decimal.Value(param) <= 65535)
    ensures param != "" && r.Some? ==> r.value == Decimal.Value(param)
  {
    Decimal.Pow2Bounds();
    if param == "" then Some(0) else Decimal.ParseUint(param, 16)
  }

  /** A candidate: the rune slice body[start : start+len]. */
  datatype Span = Span(start: nat, len: nat)

  /** The candidates the loops of the handler visit for a body of n runes and
      minimum length minLen: i + minLen <= n, minLen <= j and i + j <= n. */
  predicate Visited(n: nat, minLen: nat, sp: Span) {
    sp.start + minLen <= n && minLen <= sp.len && sp.start + sp.len <= n
  }

  /** The inner loop from length j on, for start i. */
  function RowSpans(n: nat, i: nat, j: nat): (r: seq<Span>)
    ensures forall sp :: sp in r ==> sp.start == i && j <= sp.len && i + sp.len <= n
    decreases n - (i + j)
  {
    if i + j > n then [] else [Span(i, j)] + RowSpans(n, i, j + 1)
  }

  /** The outer loop from start i on. */
  function SpansFrom(n: nat, minLen: nat, i: nat): (r: seq<Span>)
    ensures forall sp :: sp in r ==> i <= sp.start && Visited(n, minLen, sp)
    decreases n - i
  {
    if i + minLen > n then [] else RowSpans(n, i, minLen) + SpansFrom(n, minLen, i + 1)
  }

  /** Every candidate, in visiting order. */
  function Spans(n: nat, minLen: nat): (r: seq<Span>)
    ensures forall sp :: sp in r ==> Visited(n, minLen, sp)
  {
    SpansFrom(n, minLen, 0)
  }

  /** The minimum length the loops use: 0 stands for the whole text. */
  function EffectiveMinLen(substringLength: nat, n: nat): nat {
    if substringLength == 0 then n else substringLength
  }

  predicate InBody(body: string, spans: seq<Span>) {
    forall sp :: sp in spans ==> sp.start + sp.len <= |body|
  }

  function Slice(body: string, sp: Span): string
    requires sp.start + sp.len <= |body|
  {
    body[sp.start..sp.start + sp.len]
  }

  /** The slices of the candidates that pass the filter's Test, in candidate
      order, repeats kept. */
  function Guilty(body: string, spans: seq<Span>, test: string -> bool): seq<string>
    requires InBody(body, spans)
  {
    if spans == [] then []
    else
      assert spans[0] in spans && forall sp :: sp in spans[1..] ==> sp in spans;
      (if test(Slice(body, spans[0])) then [Slice(body, spans[0])] else []) + Guilty(body, spans[1..], test)
  }

  /** The result of the scan: Json of the matches, or 408 when the deadline
      check fails before the first candidate. */
  function Scan(body: string, minLen: nat, hasDeadline: bool, test: string -> bool): Response {
    var spans := Spans(|body|, minLen);
    if !hasDeadline && spans != [] then Empty(StatusRequestTimeout)
    else Json(Guilty(body, spans, test))
  }

  /** handleSearch as a function of the request, the configured maximum body
      length, the deadline check's answer, utf8.Valid, the byte-to-rune
      conversion and the filter's Test. */
  function SearchResponse(req: Request, maxBodyLength: int, hasDeadline: bool,
                          valid: seq<byte> -> bool, runes: seq<byte> -> string,
                          test: string -> bool): Response
  {
    match ParseSubstringLength(req.substringLength)
    case None => Empty(StatusBadRequest)
    case Some(substringLength) =>
      if req.contentLength <= 0 then Empty(StatusBadRequest)
      else if req.contentLength > maxBodyLength then Empty(StatusRequestEntityTooLarge)
      else
        var n := if |req.offered| < req.contentLength then |req.offered| else req.contentLength;
        if n != req.contentLength && req.readFailed then Empty(StatusInternalServerError)
        else if n != req.contentLength then Empty(StatusBadRequest)
        else
          var bodyData := req.offered[..req.contentLength];
          if !valid(bodyData) then Empty(StatusBadRequest)
          else
            var body := runes(bodyData);
            Scan(body, EffectiveMinLen(substringLength, |body|), hasDeadline, test)
  }

  /** handleSearch: validates the request in order (length parameter, content
      length, the read, UTF-8), then runs the nested candidate loops. */
  method HandleSearch(req: Request, maxBodyLength: int, hasDeadline: bool,
                      valid: seq<byte> -> bool, runes: seq<byte> -> string,
                      test: string -> bool)
    returns (resp: Response)
    ensures resp == SearchResponse(req, maxBodyLength, hasDeadline, valid, runes, test)
  {
    var substringLength: nat;
    if req.substringLength == "" {
      substringLength := 0;
    } else {
      var l := Decimal.ParseUint(req.substringLength, 16);
      if l.None? {
        return Empty(StatusBadRequest);
      }
      substringLength := l.value;
    }

    if req.contentLength <= 0 {
      return Empty(StatusBadRequest);
    }
    if req.contentLength > maxBodyLength {
      return Empty(StatusRequestEntityTooLarge);
    }

    var n := if |req.offered| < req.contentLength then |req.offered| else req.contentLength;
    if n != req.contentLength && req.readFailed {
      return Empty(StatusInternalServerError);
    } else if n != req.contentLength {
      return Empty(StatusBadRequest);
    }
    var bodyData := req.offered[..req.contentLength];

    if !valid(bodyData) {
      return Empty(StatusBadRequest);
    }
    var body := runes(bodyData);

    resp := ScanBody(body, substringLength, hasDeadline, test);
  }

  /** The matches of the candidates from start i on. */
  function GuiltyFrom(body: string, minLen: nat, i: nat, test: string -> bool): seq<string> {
    Guilty(body, SpansFrom(|body|, minLen, i), test)
  }

  /** The matches of row i, lengths from minLen on. */
  function RowGuilty(body: string, minLen: nat, i: nat, test: string -> bool): seq<string> {
    Guilty(body, RowSpans(|body|, i, minLen), test)
  }

  /** One step of the outer loop: row i's matches, then those of the later
      rows. */
  lemma ScanStep(body: string, minLen: nat, i: nat, test: string -> bool)
    requires i + minLen <= |body|
    ensures GuiltyFrom(body, minLen, i, test) == RowGuilty(body, minLen, i, test) + GuiltyFrom(body, minLen, i + 1, test)
  {
    GuiltyAppend(body, RowSpans(|body|, i, minLen), SpansFrom(|body|, minLen, i + 1), test);
  }

  /** The outer loop's invariant survives a row: what was found, then row
      i's matches, then the later rows' matches is still every match. */
  lemma ScanInvariantStep(body: string, minLen: nat, i: nat, test: string -> bool,
                          found: seq<string>, all: seq<string>)
    requires i + minLen <= |body|
    requires found + GuiltyFrom(body, minLen, i, test) == all
    ensures (found + RowGuilty(body, minLen, i, test)) + GuiltyFrom(body, minLen, i + 1, test) == all
  {
    ScanStep(body, minLen, i, test);
    assert found + (RowGuilty(body, minLen, i, test) + GuiltyFrom(body, minLen, i + 1, test)) ==
      (found + RowGuilty(body, minLen, i, test)) + GuiltyFrom(body, minLen, i + 1, test);
  }

  /** When the deadline check passes, or there is no candidate to check it
      before, the scan lists every match. */
  lemma ScanCompleted(body: string, minLen: nat, hasDeadline: bool, test: string -> bool)
    requires hasDeadline || |body| < minLen
    ensures Scan(body, minLen, hasDeadline, test) == Json(GuiltyFrom(body, minLen, 0, test))
  {
    if |body| < minLen {
      assert Spans(|body|, minLen) == [];
    }
  }

  /** The candidate loops of handleSearch: start i ascending, and for each i
      length j ascending from the minimum (ScanRow); every slice that passes
      Test is appended. The deadline check runs before each candidate. */
  method ScanBody(body: string, substringLength: nat, hasDeadline: bool, test: string -> bool)
    returns (resp: Response)
    ensures resp == Scan(body, EffectiveMinLen(substringLength, |body|), hasDeadline, test)
  {
    var guiltySubstrings: seq<string> := [];
    var minLen := substringLength;
    if minLen == 0 {
      minLen := |body|;
    }
    ghost var all := GuiltyFrom(body, minLen, 0, test);

    var i := 0;
    while |body| >= i + minLen
      invariant !hasDeadline ==> i == 0
      invariant guiltySubstrings + GuiltyFrom(body, minLen, i, test) == all
      decreases |body| - i
    {
      ghost var before := guiltySubstrings;
      var timedOut;
      guiltySubstrings, timedOut := ScanRow(body, minLen, i, hasDeadline, test, guiltySubstrings);
      if timedOut {
        TimeoutWithoutDeadline(body, minLen, test);
        return Empty(StatusRequestTimeout);
      }
      ScanInvariantStep(body, minLen, i, test, before, all);
      i := i + 1;
    }
    ScanCompleted(body, minLen, hasDeadline, test);
    return Json(guiltySubstrings);
  }

  /** The inner loop of handleSearch for start i: lengths from minLen while
      the slice fits, appending each slice that passes Test; timedOut when
      the deadline check fails (before the first candidate). */
  method ScanRow(body: string, minLen: nat, i: nat, hasDeadline: bool, test: string -> bool,
                 guiltySubstrings: seq<string>)
    returns (guilty: seq<string>, timedOut: bool)
    requires i + minLen <= |body|
    ensures timedOut <==> !hasDeadline
    ensures !timedOut ==> guilty == guiltySubstrings + RowGuilty(body, minLen, i, test)
  {
    guilty := guiltySubstrings;
    var j := minLen;
    while |body| >= i + j
      invariant minLen <= j
      invariant !hasDeadline ==> j == minLen
      invariant guilty + RowGuilty(body, j, i, test) == guiltySubstrings + RowGuilty(body, minLen, i, test)
      decreases |body| - (i + j)
    {
      if !hasDeadline {
        return guilty, true;
      }
      var substring := body[i..i + j];
      RowStep(body, i, j, test);
      ghost var before := guilty;
      ghost var later := RowGuilty(body, j + 1, i, test);
      if test(substring) {
        guilty := guilty + [substring];
        assert guilty + later == before + ([substring] + later);
      } else {
        assert [] + later == later;
      }
      j := j + 1;
    }
    return guilty, false;
  }

  /** One candidate of the inner loop: the slice at (i, j) is tested, then
      the longer ones. */
  lemma RowStep(body: string, i: nat, j: nat, test: string -> bool)
    requires i + j <= |body|
    ensures RowGuilty(body, j, i, test) ==
      (if test(body[i..i + j]) then [body[i..i + j]] else []) + RowGuilty(body, j + 1, i, test)
  {
    assert RowSpans(|body|, i, j) == [Span(i, j)] + RowSpans(|body|, i, j + 1);
    GuiltyCons(body, Span(i, j), RowSpans(|body|, i, j + 1), test);
  }

  /** Matches of consecutive candidate lists come out consecutively: the
      earlier candidates' matches first. */
  lemma {:induction false} GuiltyAppend(body: string, a: seq<Span>, b: seq<Span>, test: string -> bool)
    requires InBody(body, a) && InBody(body, b)
    ensures InBody(body, a + b)
    ensures Guilty(body, a + b, test) == Guilty(body, a, test) + Guilty(body, b, test)
  {
    if a != [] {
      assert a + b == [a[0]] + (a[1..] + b);
      assert a == [a[0]] + a[1..];
      GuiltyCons(body, a[0], a[1..], test);
      GuiltyAppend(body, a[1..], b, test);
      GuiltyCons(body, a[0], a[1..] + b, test);
    } else {
      assert a + b == b;
    }
  }

  lemma GuiltyCons(body: string, sp: Span, rest: seq<Span>, test: string -> bool)
    requires InBody(body, [sp] + rest)
    ensures InBody(body, rest)
    ensures Guilty(body, [sp] + rest, test) ==
      (if test(Slice(body, sp)) then [Slice(body, sp)] else []) + Guilty(body, rest, test)
  {
    assert ([sp] + rest)[1..] == rest;
    forall x | x in rest ensures x.start + x.len <= |body| {
      assert x in [sp] + rest;
    }
  }

  /** The candidates of one row are exactly the lengths from j up to what
      fits after start i. */
  lemma {:induction false} RowSpansMembers(n: nat, i: nat, j: nat, sp: Span)
    ensures sp in RowSpans(n, i, j) <==> sp.start == i && j <= sp.len && i + sp.len <= n
    decreases n - (i + j)
  {
    if i + j <= n && sp != Span(i, j) {
      RowSpansMembers(n, i, j + 1, sp);
    }
  }

  /** The candidates from start i on are exactly the visited spans starting
      at i or later: the enumeration is sound and complete. */
  lemma {:induction false} SpansFromMembers(n: nat, minLen: nat, i: nat, sp: Span)
    ensures sp in SpansFrom(n, minLen, i) <==> i <= sp.start && Visited(n, minLen, sp)
    decreases n - i
  {
    if i + minLen <= n {
      SpansFromMembers(n, minLen, i + 1, sp);
      SpansFromMembersStep(n, minLen, i, sp);
    } else {
      SpansFromMembersEnd(n, minLen, i, sp);
    }
  }

  /** Past the last start nothing is a candidate, and nothing is visited. */
  lemma SpansFromMembersEnd(n: nat, minLen: nat, i: nat, sp: Span)
    requires i + minLen > n
    ensures sp in SpansFrom(n, minLen, i) <==> i <= sp.start && Visited(n, minLen, sp)
  {
    SpansFromEnd(n, minLen, i);
  }

  /** The step of SpansFromMembers: what holds from start i + 1 on holds
      from start i on, row i added. */
  lemma SpansFromMembersStep(n: nat, minLen: nat, i: nat, sp: Span)
    requires i + minLen <= n
    requires sp in SpansFrom(n, minLen, i + 1) <==> i + 1 <= sp.start && Visited(n, minLen, sp)
    ensures sp in SpansFrom(n, minLen, i) <==> i <= sp.start && Visited(n, minLen, sp)
  {
    SpansFromStep(n, minLen, i, sp);
    RowSpansMembers(n, i, minLen, sp);
    VisitedStep(n, minLen, i, sp, sp in SpansFrom(n, minLen, i), sp in RowSpans(n, i, minLen),
                sp in SpansFrom(n, minLen, i + 1));
  }

  /** The arithmetic of one outer step: a span visited from start i on is
      either in row i or visited from start i + 1 on. */
  lemma VisitedStep(n: nat, minLen: nat, i: nat, sp: Span, inAll: bool, inRow: bool, inLater: bool)
    requires i + minLen <= n
    requires inAll <==> inRow || inLater
    requires inRow <==> sp.start == i && minLen <= sp.len && i + sp.len <= n
    requires inLater <==> i + 1 <= sp.start && Visited(n, minLen, sp)
    ensures inAll <==> i <= sp.start && Visited(n, minLen, sp)
  {
  }

  /** One step of the outer enumeration: row i, then the later rows. */
  lemma SpansFromUnfold(n: nat, minLen: nat, i: nat)
    requires i + minLen <= n
    ensures SpansFrom(n, minLen, i) == RowSpans(n, i, minLen) + SpansFrom(n, minLen, i + 1)
  {
  }

  lemma SpansFromStep(n: nat, minLen: nat, i: nat, sp: Span)
    requires i + minLen <= n
    ensures sp in SpansFrom(n, minLen, i) <==> sp in RowSpans(n, i, minLen) || sp in SpansFrom(n, minLen, i + 1)
  {
    SpansFromUnfold(n, minLen, i);
  }

  /** The outer enumeration ends once the minimum no longer fits. */
  lemma SpansFromEnd(n: nat, minLen: nat, i: nat)
    requires i + minLen > n
    ensures SpansFrom(n, minLen, i) == []
  {
  }

  /** The visiting order: by start, then by length. */
  predicate Before(a: Span, b: Span) {
    a.start < b.start || (a.start == b.start && a.len < b.len)
  }

  predicate Ascending(spans: seq<Span>) {
    forall x, y :: 0 <= x < y < |spans| ==> Before(spans[x], spans[y])
  }

  lemma AscendingAppend(a: seq<Span>, b: seq<Span>)
    requires Ascending(a) && Ascending(b)
    requires forall x, y :: x in a && y in b ==> Before(x, y)
    ensures Ascending(a + b)
  {
    forall x, y | 0 <= x < y < |a + b| ensures Before((a + b)[x], (a + b)[y]) {
      if y >= |a| && x < |a| {
        assert (a + b)[x] in a && (a + b)[y] in b;
      }
    }
  }

  lemma {:induction false} RowSpansAscending(n: nat, i: nat, j: nat)
    ensures Ascending(RowSpans(n, i, j))
    decreases n - (i + j)
  {
    if i + j <= n {
      RowSpansAscending(n, i, j + 1);
      AscendingAppend([Span(i, j)], RowSpans(n, i, j + 1));
    }
  }

  /** Every candidate of row i comes before every candidate of the later
      rows. */
  lemma RowBeforeLater(n: nat, minLen: nat, i: nat)
    ensures forall x, y :: x in RowSpans(n, i, minLen) && y in SpansFrom(n, minLen, i + 1) ==> Before(x, y)
  {
    forall x, y | x in RowSpans(n, i, minLen) && y in SpansFrom(n, minLen, i + 1) ensures Before(x, y) {
      assert x.start == i < y.start;
    }
  }

  lemma {:induction false} SpansFromAscending(n: nat, minLen: nat, i: nat)
    ensures Ascending(SpansFrom(n, minLen, i))
    decreases n - i
  {
    if i + minLen <= n {
      RowSpansAscending(n, i, minLen);
      SpansFromAscending(n, minLen, i + 1);
      RowThenLaterAscending(n, minLen, i);
    } else {
      SpansFromEnd(n, minLen, i);
    }
  }

  /** Row i followed by the later rows is in order when each part is. */
  lemma RowThenLaterAscending(n: nat, minLen: nat, i: nat)
    requires i + minLen <= n
    requires Ascending(RowSpans(n, i, minLen)) && Ascending(SpansFrom(n, minLen, i + 1))
    ensures Ascending(SpansFrom(n, minLen, i))
  {
    RowBeforeLater(n, minLen, i);
    AscendingAppend(RowSpans(n, i, minLen), SpansFrom(n, minLen, i + 1));
    SpansFromUnfold(n, minLen, i);
  }

  /** The candidates that pass Test, in candidate order. */
  function Passing(body: string, spans: seq<Span>, test: string -> bool): (r: seq<Span>)
    requires InBody(body, spans)
    ensures forall sp :: sp in r ==> sp in spans
  {
    if spans == [] then []
    else
      assert spans[0] in spans && forall sp :: sp in spans[1..] ==> sp in spans;
      (if test(Slice(body, spans[0])) then [spans[0]] else []) + Passing(body, spans[1..], test)
  }

  /** A candidate is passing exactly when it is a candidate and passes Test. */
  lemma {:induction false} PassingMembers(body: string, spans: seq<Span>, test: string -> bool, sp: Span)
    requires InBody(body, spans)
    ensures sp in Passing(body, spans, test) <==> sp in spans && test(Slice(body, sp))
  {
    if spans != [] {
      assert spans == [spans[0]] + spans[1..];
      PassingMembers(body, spans[1..], test, sp);
    }
  }

  /** Dropping candidates keeps them in order. */
  lemma {:induction false} PassingAscending(body: string, spans: seq<Span>, test: string -> bool)
    requires InBody(body, spans) && Ascending(spans)
    ensures Ascending(Passing(body, spans, test))
  {
    if spans != [] {
      var rest := spans[1..];
      assert Ascending(rest) by {
        forall x, y | 0 <= x < y < |rest| ensures Before(rest[x], rest[y]) {
          assert rest[x] == spans[x + 1] && rest[y] == spans[y + 1];
        }
      }
      PassingAscending(body, rest, test);
      forall y | y in Passing(body, rest, test) ensures Before(spans[0], y) {
        var k :| 0 <= k < |rest| && rest[k] == y;
        assert spans[k + 1] == y;
      }
      AscendingAppend(if test(Slice(body, spans[0])) then [spans[0]] else [], Passing(body, rest, test));
    }
  }

  /** The reported strings are the slices of the passing candidates, one per
      candidate and in the same order. */
  lemma {:induction false} GuiltyIsPassingSlices(body: string, spans: seq<Span>, test: string -> bool)
    requires InBody(body, spans)
    ensures var p := Passing(body, spans, test);
      |Guilty(body, spans, test)| == |p| &&
      forall k :: 0 <= k < |p| ==> p[k] in spans && Guilty(body, spans, test)[k] == Slice(body, p[k])
  {
    if spans != [] {
      GuiltyIsPassingSlices(body, spans[1..], test);
      var p := Passing(body, spans, test);
      var g := Guilty(body, spans, test);
      var p' := Passing(body, spans[1..], test);
      var g' := Guilty(body, spans[1..], test);
      if test(Slice(body, spans[0])) {
        assert p == [spans[0]] + p' && g == [Slice(body, spans[0])] + g';
        forall k | 0 <= k < |p| ensures p[k] in spans && g[k] == Slice(body, p[k]) {
          if k > 0 {
            assert p[k] == p'[k - 1] && g[k] == g'[k - 1];
          }
        }
      } else {
        assert p == p' && g == g';
      }
    }
  }

  /** Soundness, completeness and order of the scan: what it reports is, in
      order and one entry per candidate, the slices of exactly those visited
      candidates (start i with i + minLen <= N, length j with minLen <= j and
      i + j <= N) that pass Test, the candidates ascending by start and then
      by length. Equal strings at different places are all reported. */
  lemma ScanReportsPassingCandidates(body: string, minLen: nat, test: string -> bool)
    ensures InBody(body, Spans(|body|, minLen))
    ensures var p := Passing(body, Spans(|body|, minLen), test);
      && Ascending(p)
      && (forall sp :: sp in p <==> Visited(|body|, minLen, sp) && test(Slice(body, sp)))
      && Scan(body, minLen, true, test) == Json(Guilty(body, Spans(|body|, minLen), test))
      && |Guilty(body, Spans(|body|, minLen), test)| == |p|
      && forall k :: 0 <= k < |p| ==> Guilty(body, Spans(|body|, minLen), test)[k] == Slice(body, p[k])
  {
    var spans := Spans(|body|, minLen);
    SpansFromAscending(|body|, minLen, 0);
    PassingAscending(body, spans, test);
    GuiltyIsPassingSlices(body, spans, test);
    forall sp ensures sp in Passing(body, spans, test) <==> Visited(|body|, minLen, sp) && test(Slice(body, sp)) {
      PassingMembers(body, spans, test, sp);
      SpansFromMembers(|body|, minLen, 0, sp);
    }
  }

  /** A minimum length of 0 (the parameter absent) means the whole text: one
      candidate only. */
  lemma WholeTextOnly(n: nat)
    ensures Spans(n, EffectiveMinLen(0, n)) == [Span(0, n)]
  {
    assert RowSpans(n, 0, n + 1) == [];
    assert RowSpans(n, 0, n) == [Span(0, n)];
    assert SpansFrom(n, n, 1) == [];
    assert SpansFrom(n, n, 0) == RowSpans(n, 0, n) + SpansFrom(n, n, 1);
  }

  /** A minimum length beyond the text: no candidate, and the response lists
      an empty array, deadline or not. */
  lemma NothingLongEnough(body: string, minLen: nat, hasDeadline: bool, test: string -> bool)
    requires minLen > |body|
    ensures Scan(body, minLen, hasDeadline, test) == Json([])
  {
  }

  /** The deadline is set when the handler starts, so the check never fails
      and no request ends with 408. */
  lemma NoTimeoutWithDeadline(req: Request, maxBodyLength: int, valid: seq<byte> -> bool,
                              runes: seq<byte> -> string, test: string -> bool)
    ensures SearchResponse(req, maxBodyLength, true, valid, runes, test) != Empty(StatusRequestTimeout)
  {
  }

  /** Were the deadline check to fail, the first candidate would end the
      request with 408 and no partial list. */
  lemma TimeoutWithoutDeadline(body: string, minLen: nat, test: string -> bool)
    requires minLen <= |body|
    ensures Scan(body, minLen, false, test) == Empty(StatusRequestTimeout)
  {
    assert RowSpans(|body|, 0, minLen) == [Span(0, minLen)] + RowSpans(|body|, 0, minLen + 1);
    assert Spans(|body|, minLen) == RowSpans(|body|, 0, minLen) + SpansFrom(|body|, minLen, 1);
  }

  /** A substringLength that is not an unsigned 16-bit decimal is refused
      with 400 before the body is looked at. */
  lemma BadLengthParameter(req: Request, maxBodyLength: int, hasDeadline: bool,
                           valid: seq<byte> -> bool, runes: seq<byte> -> string, test: string -> bool)
    requires req.substringLength != ""
    requires !Decimal.AllDigits(req.substringLength) || Decimal.Value(req.substringLength) > 65535
    ensures SearchResponse(req, maxBodyLength, hasDeadline, valid, runes, test) == Empty(StatusBadRequest)
  {
  }

  /** With a good parameter, a content length of at most 0 gives 400 and one
      above the maximum gives 413, whatever the body holds. */
  lemma ContentLengthChecks(req: Request, maxBodyLength: int, hasDeadline: bool,
                            valid: seq<byte> -> bool, runes: seq<byte> -> string, test: string -> bool,
                            offered: seq<byte>, readFailed: bool)
    requires ParseSubstringLength(req.substringLength).Some?
    requires req.contentLength <= 0 || req.contentLength > maxBodyLength
    ensures var other := req.(offered := offered, readFailed := readFailed);
      SearchResponse(req, maxBodyLength, hasDeadline, valid, runes, test) ==
      SearchResponse(other, maxBodyLength, hasDeadline, valid, runes, test) ==
      Empty(if req.contentLength <= 0 then StatusBadRequest else StatusRequestEntityTooLarge)
  {
  }

  /** A read that delivers fewer bytes than the content length gives 500 if
      the read reported an error and 400 otherwise; a full read with an
      error goes on. */
  lemma ShortRead(req: Request, maxBodyLength: int, hasDeadline: bool,
                  valid: seq<byte> -> bool, runes: seq<byte> -> string, test: string -> bool)
    requires ParseSubstringLength(req.substringLength).Some?
    requires 0 < req.contentLength <= maxBodyLength
    requires |req.offered| < req.contentLength
    ensures SearchResponse(req, maxBodyLength, hasDeadline, valid, runes, test) ==
      Empty(if req.readFailed then StatusInternalServerError else StatusBadRequest)
  {
  }

  /** Once the full body is read: invalid UTF-8 gives 400, valid text is
      scanned with the parameter's minimum length (0 meaning the whole
      text). */
  lemma FullRead(req: Request, maxBodyLength: int, hasDeadline: bool,
                 valid: seq<byte> -> bool, runes: seq<byte> -> string, test: string -> bool)
    requires ParseSubstringLength(req.substringLength).Some?
    requires 0 < req.contentLength <= maxBodyLength
    requires |req.offered| >= req.contentLength
    ensures var bodyData := req.offered[..req.contentLength];
      var body := runes(bodyData);
      var l := ParseSubstringLength(req.substringLength).value;
      SearchResponse(req, maxBodyLength, hasDeadline, valid, runes, test) ==
      if !valid(bodyData) then Empty(StatusBadRequest)
      else Scan(body, EffectiveMinLen(l, |body|), hasDeadline, test)
  {
  }

  /** A filter that holds exactly "ab" and "bcd". */
  predicate AbOrBcd(s: string) {
    s == "ab" || s == "bcd"
  }

  /** The example of a filter holding "ab" and "bcd", text "abcd", minimum
      length 1: "ab" is reported before "bcd", and nothing else. */
  lemma AbcdExample()
    ensures Scan("abcd", 1, true, AbOrBcd) == Json(["ab", "bcd"])
  {
    ScanCompleted("abcd", 1, true, AbOrBcd);
    AbcdMatches();
  }

  /** The matches of all four rows of "abcd". */
  lemma AbcdMatches()
    ensures GuiltyFrom("abcd", 1, 0, AbOrBcd) == ["ab", "bcd"]
  {
    ScanStep("abcd", 1, 0, AbOrBcd);
    AbcdRow0();
    AbcdLaterRows();
    assert ["ab"] + ["bcd"] == ["ab", "bcd"];
  }

  /** The matches of rows 1 to 3 of "abcd". */
  lemma AbcdLaterRows()
    ensures GuiltyFrom("abcd", 1, 1, AbOrBcd) == ["bcd"]
  {
    var body := "abcd";
    ScanStep(body, 1, 1, AbOrBcd);
    ScanStep(body, 1, 2, AbOrBcd);
    ScanStep(body, 1, 3, AbOrBcd);
    assert GuiltyFrom(body, 1, 4, AbOrBcd) == [];
    AbcdRow1();
    AbcdRow2And3();
  }

  /** Row 0 of "abcd": "a", "ab", "abc", "abcd"; only "ab" passes. */
  lemma AbcdRow0()
    ensures RowGuilty("abcd", 1, 0, AbOrBcd) == ["ab"]
  {
    var body := "abcd";
    assert body[0..1] == "a" && body[0..2] == "ab" && body[0..3] == "abc" && body[0..4] == "abcd";
    RowStep(body, 0, 1, AbOrBcd);
    RowStep(body, 0, 2, AbOrBcd);
    RowStep(body, 0, 3, AbOrBcd);
    RowStep(body, 0, 4, AbOrBcd);
    assert RowGuilty(body, 5, 0, AbOrBcd) == [];
  }

  /** Row 1 of "abcd": "b", "bc", "bcd"; only "bcd" passes. */
  lemma AbcdRow1()
    ensures RowGuilty("abcd", 1, 1, AbOrBcd) == ["bcd"]
  {
    var body := "abcd";
    assert body[1..2] == "b" && body[1..3] == "bc" && body[1..4] == "bcd";
    RowStep(body, 1, 1, AbOrBcd);
    RowStep(body, 1, 2, AbOrBcd);
    RowStep(body, 1, 3, AbOrBcd);
    assert RowGuilty(body, 4, 1, AbOrBcd) == [];
  }

  /** Rows 2 and 3 of "abcd": "c", "cd" and "d"; none passes. */
  lemma AbcdRow2And3()
    ensures RowGuilty("abcd", 1, 2, AbOrBcd) == []
    ensures RowGuilty("abcd", 1, 3, AbOrBcd) == []
  {
    var body := "abcd";
    assert body[2..3] == "c" && body[2..4] == "cd" && body[3..4] == "d";
    RowStep(body, 2, 1, AbOrBcd);
    RowStep(body, 2, 2, AbOrBcd);
    RowStep(body, 3, 1, AbOrBcd);
    assert RowGuilty(body, 3, 2, AbOrBcd) == [];
    assert RowGuilty(body, 2, 3, AbOrBcd) == [];
  }

  predicate IsA(s: string) {
    s == "a"
  }

  /** Matches are not deduplicated: "a" occurs twice in "aa" and is listed
      twice. */
  lemma RepeatsKept()
    ensures Scan("aa", 1, true, IsA) == Json(["a", "a"])
  {
    ScanCompleted("aa", 1, true, IsA);
    RepeatsMatches();
  }

  /** The matches of both rows of "aa". */
  lemma RepeatsMatches()
    ensures GuiltyFrom("aa", 1, 0, IsA) == ["a", "a"]
  {
    ScanStep("aa", 1, 0, IsA);
    ScanStep("aa", 1, 1, IsA);
    assert GuiltyFrom("aa", 1, 2, IsA) == [];
    RepeatsRows();
  }

  /** Row 0 of "aa": "a" passes, "aa" fails; row 1: "a" passes. */
  lemma RepeatsRows()
    ensures RowGuilty("aa", 1, 0, IsA) == ["a"]
    ensures RowGuilty("aa", 1, 1, IsA) == ["a"]
  {
    var body := "aa";
    assert body[0..1] == "a" && body[0..2] == "aa" && body[1..2] == "a";
    RowStep(body, 0, 1, IsA);
    RowStep(body, 0, 2, IsA);
    RowStep(body, 1, 1, IsA);
    assert RowGuilty(body, 3, 0, IsA) == [];
    assert RowGuilty(body, 2, 1, IsA) == [];
  }
}
