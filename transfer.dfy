/** The resumable transfer of one weight file (`download_with_resume` in
    scripts/load_models.py). The network and the disk are abstracted: the
    destination is the value of one file (absent, or its bytes), and the HTTP
    response is a value giving its status, its declared length and the chunks
    the body delivers before it ends or raises. */
module Transfer {
  import opened Common

  type Byte = bv8

  /** How the destination is opened: `'wb'` (truncate or create) or `'ab'`. */
  datatype OpenMode = Write | Append

  /** What `requests.get(..., stream=True)` hands back, as far as the transfer
      looks at it. `body` is what `iter_content` delivers; when `fails` holds,
      an exception is raised right after those chunks (a dropped connection or
      a failed write), so an exception at chunk i has the i chunks before it
      as `body`. Only exceptions derived from `Exception` are meant, which
      the transfer catches; an interrupt aborts the whole run and is not
      modelled. `contentLength` is the `content-length` header, if any. */
  datatype Response = Response(
    status: int,
    contentLength: Option<int>,
    body: seq<seq<Byte>>,
    fails: bool)

  /** Everything one call decides: the request headers, the open mode, the
      returned flag and the destination afterwards (None: no file). */
  datatype Outcome = Outcome(
    headers: map<string, string>,
    mode: OpenMode,
    ok: bool,
    file: Option<seq<Byte>>)

  /** "Range not satisfiable": the requested offset is at or past the end. */
  const RangeNotSatisfiable: int := 416

  /** Declared lengths below this are taken for an error page, not weights. */
  const MinLength: int := 2000

  /** `iter_content(chunk_size=1024)`. */
  const ChunkSize: nat := 1024

  // ---------------------------------------------------------------------
  // The Range header and its parse on the server side

  function DigitChar(d: nat): char
    requires d < 10
  {
    "0123456789"[d]
  }

  function DigitValue(c: char): Option<nat> {
    if '0' <= c <= '9' then Some(c as int - '0' as int) else None
  }

  /** Python's `str` of a non-negative int: decimal, no leading zeros. */
  function Decimal(n: nat): string
    decreases n
  {
    if n < 10 then [DigitChar(n)] else Decimal(n / 10) + [DigitChar(n % 10)]
  }

  /** Reading a string of decimal digits back as a number. */
  function ParseDecimal(s: string): Option<nat>
    decreases |s|
  {
    if s == [] then None
    else if |s| == 1 then DigitValue(s[0])
    else
      match (ParseDecimal(s[..|s| - 1]), DigitValue(s[|s| - 1]))
      case (Some(high), Some(low)) => Some(10 * high + low)
      case _ => None
  }

  /** `f'bytes={exist_size}-'`: every byte from the given offset on. */
  function RangeHeader(offset: nat): string {
    "bytes=" + Decimal(offset) + "-"
  }

  /** How a server reads a `bytes=<first>-` range (section 2.1 of RFC 7233). */
  function ParseRange(h: string): Option<nat> {
    if |h| >= 7 && h[..6] == "bytes=" && h[|h| - 1] == '-'
    then ParseDecimal(h[6..|h| - 1])
    else None
  }

  lemma {:induction false} DecimalRoundTrip(n: nat)
    ensures |Decimal(n)| > 0
    ensures ParseDecimal(Decimal(n)) == Some(n)
    decreases n
  {
    if n >= 10 {
      DecimalRoundTrip(n / 10);
      var s := Decimal(n);
      assert s[..|s| - 1] == Decimal(n / 10);
    }
  }

  /** The server recovers exactly the offset the client asked for. */
  lemma RangeHeaderRoundTrip(offset: nat)
    ensures ParseRange(RangeHeader(offset)) == Some(offset)
  {
    DecimalRoundTrip(offset);
    var h := RangeHeader(offset);
    assert h[..6] == "bytes=";
    assert h[6..|h| - 1] == Decimal(offset);
  }

  // ---------------------------------------------------------------------
  // The specification of one call

  /** Python truthiness of the optional token: neither None nor empty. */
  predicate Truthy(token: Option<string>) {
    token.Some? && token.value != ""
  }

  /** `int(resp.headers.get('content-length', 0))`. */
  function DeclaredLength(resp: Response): int {
    match resp.contentLength
    case None => 0
    case Some(n) => n
  }

  /** The chunks of a body, one after the other. */
  function Concat(chunks: seq<seq<Byte>>): seq<Byte>
    decreases |chunks|
  {
    if chunks == [] then [] else chunks[0] + Concat(chunks[1..])
  }

  lemma {:induction false} ConcatAppend(a: seq<seq<Byte>>, b: seq<seq<Byte>>)
    ensures Concat(a + b) == Concat(a) + Concat(b)
    decreases |a|
  {
    if a == [] {
      assert a + b == b;
    } else {
      assert (a + b)[1..] == a[1..] + b;
      ConcatAppend(a[1..], b);
    }
  }

  function RequestHeaders(token: Option<string>, existing: Option<seq<Byte>>): map<string, string> {
    var auth := if Truthy(token) then map["Authorization" := "Bearer " + token.value] else map[];
    if existing.Some? then auth["Range" := RangeHeader(|existing.value|)] else auth
  }

  /** The whole effect of `download_with_resume` on one destination. */
  function Resume(existing: Option<seq<Byte>>, token: Option<string>, resp: Response, writable: bool): Outcome {
    var headers := RequestHeaders(token, existing);
    var mode := if existing.Some? then Append else Write;
    if resp.status == RangeNotSatisfiable then Outcome(headers, mode, true, existing)
    else if DeclaredLength(resp) < MinLength || !writable then Outcome(headers, mode, false, existing)
    else
      var prior := if existing.Some? then existing.value else [];
      Outcome(headers, mode, !resp.fails, Some(prior + Concat(resp.body)))
  }

  // ---------------------------------------------------------------------
  // The transfer itself

  /** `download_with_resume`. `existing` is the destination before the call
      (None: `os.path.exists` is false); `writable` says whether `open`
      succeeds. Returns the request headers, the open mode, the returned flag
      and the destination afterwards. */
  method DownloadWithResume(existing: Option<seq<Byte>>, token: Option<string>, resp: Response, writable: bool)
    returns (headers: map<string, string>, mode: OpenMode, ok: bool, file: Option<seq<Byte>>)
    ensures Outcome(headers, mode, ok, file) == Resume(existing, token, resp, writable)
    // request headers and open mode
    ensures headers.Keys <= {"Authorization", "Range"}
    ensures "Authorization" in headers <==> Truthy(token)
    ensures Truthy(token) ==> headers["Authorization"] == "Bearer " + token.value
    ensures "Range" in headers <==> existing.Some?
    ensures existing.Some? ==> headers["Range"] == RangeHeader(|existing.value|) && mode == Append
    ensures existing.None? ==> mode == Write
    // outcome
    ensures resp.status == RangeNotSatisfiable ==> ok && file == existing
    ensures resp.status != RangeNotSatisfiable && DeclaredLength(resp) < MinLength ==> !ok && file == existing
    ensures resp.status != RangeNotSatisfiable && !writable ==> !ok && file == existing
    ensures resp.status != RangeNotSatisfiable && DeclaredLength(resp) >= MinLength && writable ==>
              ok == !resp.fails &&
              file == Some((if existing.Some? then existing.value else []) + Concat(resp.body))
  {
    headers := if Truthy(token) then map["Authorization" := "Bearer " + token.value] else map[];
    mode := Write;
    var existSize := 0;
    if existing.Some? {
      existSize := |existing.value|;
      headers := headers["Range" := RangeHeader(existSize)];
      mode := Append;
    }

    var total := DeclaredLength(resp);
    if resp.status == RangeNotSatisfiable {
      return headers, mode, true, existing;
    }
    // any other status, 200 or not, only changes the message printed
    if total < MinLength || !writable {
      return headers, mode, false, existing;
    }

    var data: seq<Byte> := if mode == Append then existing.value else [];
    ghost var prior := data;
    var i := 0;
    while i < |resp.body|
      invariant 0 <= i <= |resp.body|
      invariant data == prior + Concat(resp.body[..i])
    {
      assert resp.body[..i + 1] == resp.body[..i] + [resp.body[i]];
      ConcatAppend(resp.body[..i], [resp.body[i]]);
      assert Concat([resp.body[i]]) == resp.body[i] + Concat([]);
      data := data + resp.body[i];
      i := i + 1;
    }
    assert resp.body[..i] == resp.body;
    // an exception after the delivered chunks: the bytes written stay
    ok := !resp.fails;
    file := Some(data);
  }

  // ---------------------------------------------------------------------
  // Several calls against a server that honours ranges

  /** The body split as `iter_content` splits it. */
  function Chunks(s: seq<Byte>, n: nat): seq<seq<Byte>>
    requires n > 0
    decreases |s|
  {
    if s == [] then [] else if |s| <= n then [s] else [s[..n]] + Chunks(s[n..], n)
  }

  lemma {:induction false} ChunksConcat(s: seq<Byte>, n: nat)
    requires n > 0
    ensures Concat(Chunks(s, n)) == s
    decreases |s|
  {
    if s != [] && |s| > n {
      ChunksConcat(s[n..], n);
      assert Chunks(s, n)[1..] == Chunks(s[n..], n);
      assert s == s[..n] + s[n..];
    } else if s != [] {
      assert Concat(Chunks(s, n)) == s + Concat([]);
    }
  }

  /** A server holding `full` that answers the request headers as section 4
      of RFC 7233 describes: 416 when the range starts at or past the end,
      206 with the remaining bytes otherwise, 200 with everything when no
      range is asked for. */
  function Serve(full: seq<Byte>, headers: map<string, string>): Response {
    if "Range" in headers && ParseRange(headers["Range"]).Some? then
      var first := ParseRange(headers["Range"]).value;
      if first >= |full| then Response(RangeNotSatisfiable, None, [], false)
      else Response(206, Some(|full| - first), Chunks(full[first..], ChunkSize), false)
    else Response(200, Some(|full|), Chunks(full, ChunkSize), false)
  }

  /** A partial file (possibly empty, possibly absent) of an artifact is
      brought to the complete artifact in one call, provided the missing part
      is not shorter than the sanity threshold. */
  lemma ResumeCompletesFile(full: seq<Byte>, k: nat, present: bool, token: Option<string>)
    requires k <= |full|
    requires !present ==> k == 0
    requires |full| - k == 0 || |full| - k >= MinLength
    requires !present ==> |full| >= MinLength
    ensures var existing := if present then Some(full[..k]) else None;
            var out := Resume(existing, token, Serve(full, RequestHeaders(token, existing)), true);
            out.ok && out.file == Some(full)
  {
    var existing := if present then Some(full[..k]) else None;
    var headers := RequestHeaders(token, existing);
    if present {
      RangeHeaderRoundTrip(k);
      assert ParseRange(headers["Range"]) == Some(k);
      if k < |full| {
        ChunksConcat(full[k..], ChunkSize);
        assert full[..k] + full[k..] == full;
      } else {
        assert full[..k] == full;
      }
    } else {
      assert "Range" !in headers;
      ChunksConcat(full, ChunkSize);
      assert [] + full == full;
    }
  }

  /** A destination at least as long as the artifact counts as complete,
      whatever its bytes: the server reports 416 and nothing is touched. So a
      second call on a finished file is a no-op success. */
  lemma LongEnoughFileCountsAsComplete(full: seq<Byte>, have: seq<Byte>, token: Option<string>, writable: bool)
    requires |have| >= |full|
    ensures var out := Resume(Some(have), token, Serve(full, RequestHeaders(token, Some(have))), writable);
            out.ok && out.file == Some(have)
  {
    RangeHeaderRoundTrip(|have|);
  }

  /** A partial file missing fewer than 2000 bytes is never completed: the
      206 answer declares only the missing length, which fails the sanity
      check, so every retry returns False and leaves the file as it is. */
  lemma NearlyCompleteFileIsStuck(full: seq<Byte>, k: nat, token: Option<string>, writable: bool)
    requires k <= |full| && 0 < |full| - k < MinLength
    ensures var existing := Some(full[..k]);
            var out := Resume(existing, token, Serve(full, RequestHeaders(token, existing)), writable);
            !out.ok && out.file == existing
  {
    RangeHeaderRoundTrip(k);
  }

  /** A transfer interrupted after some chunks returns False but keeps those
      bytes; the next call asks for the rest and ends with the whole file. */
  lemma InterruptedThenResumed(full: seq<Byte>, first: Response, token: Option<string>)
    requires first.status != RangeNotSatisfiable && DeclaredLength(first) >= MinLength
    requires first.fails && |Concat(first.body)| <= |full| && Concat(first.body) == full[..|Concat(first.body)|]
    requires |full| - |Concat(first.body)| == 0 || |full| - |Concat(first.body)| >= MinLength
    ensures var one := Resume(None, token, first, true);
            var two := Resume(one.file, token, Serve(full, RequestHeaders(token, one.file)), true);
            !one.ok && one.file == Some(Concat(first.body)) && two.ok && two.file == Some(full)
  {
    var k := |Concat(first.body)|;
    assert [] + Concat(first.body) == Concat(first.body);
    ResumeCompletesFile(full, k, true, token);
  }
}
