/** The range-honouring handler of examples/common/ota_server.py, and the client loop of
    examples/common/test_ota_server.py that downloads an image from it the way esp_https_ota does. */
module RangeServer {
  import opened Esp
  import opened Decimal
  import opened Ranges

  type Bytes = seq<bv8>

  const OK: nat := 200
  const PARTIAL_CONTENT: nat := 206
  const NOT_FOUND: nat := 404
  const REQUESTED_RANGE_NOT_SATISFIABLE: nat := 416

  /** One handler: the file its path names, if there is one, and the response being written. */
  class OtaRequestHandler {
    const honourRange: bool
    const file: Option<Bytes>
    var status: nat
    var headers: map<string, string>

    constructor (honourRange: bool, file: Option<Bytes>)
      ensures this.honourRange == honourRange && this.file == file
    {
      this.honourRange, this.file := honourRange, file;
      status, headers := 0, map[];
    }

    predicate Header(name: string, value: string)
      reads this
    {
      name in headers && headers[name] == value
    }

    method SendResponse(code: nat)
      modifies this
      ensures status == code && headers == map[]
    {
      status, headers := code, map[];
    }

    method SendHeader(name: string, value: string)
      modifies this`headers
      ensures headers == old(headers)[name := value]
    {
      headers := headers[name := value];
    }

    method EndHeaders()
      modifies this`headers
      ensures headers == if honourRange then old(headers)["Accept-Ranges" := "bytes"] else old(headers)
    {
      if honourRange {
        SendHeader("Accept-Ranges", "bytes");
      }
    }

    /** The stock handler: the whole file, or 404. */
    method SendWhole() returns (body: Option<Bytes>)
      modifies this
      ensures body == file
      ensures file.Some? ==> status == OK && Header("Content-Length", Print(|file.value|))
      ensures file.None? ==> status == NOT_FOUND
      ensures honourRange ==> Header("Accept-Ranges", "bytes")
      ensures "Content-Range" !in headers
    {
      if file.None? {
        SendResponse(NOT_FOUND);
        EndHeaders();
        return None;
      }
      SendResponse(OK);
      SendHeader("Content-Length", Print(|file.value|));
      EndHeaders();
      return file;
    }

    /** send_head(), given the request's Range header. A satisfiable range gets exactly the
        positions it asks for, with both headers agreeing with the body; one that selects nothing
        gets 416 and no body; anything else gets the whole file. */
    method SendHead(range: Option<string>) returns (body: Option<Bytes>)
      modifies this
      ensures !honourRange || range.None? || file.None? ==>
                body == file && status == (if file.Some? then 200 else 404)
      ensures honourRange && range.Some? && file.Some? ==>
                match ParseRange(range.value, |file.value|)
                case Ignored => body == file && status == 200
                case NotSatisfiable =>
                  && body.None? && status == 416
                  && Header("Content-Range", "bytes */" + Print(|file.value|)) && Header("Content-Length", "0")
                case Slice(first, last) =>
                  && first <= last < |file.value| && body == Some(file.value[first..last + 1])
                  && status == 206
                  && Header("Content-Range",
                            "bytes " + Print(first) + "-" + Print(last) + "/" + Print(|file.value|))
                  && Header("Content-Length", Print(last - first + 1))
      ensures status == 200 ==> file.Some? && Header("Content-Length", Print(|file.value|))
      ensures honourRange ==> Header("Accept-Ranges", "bytes")
    {
      if !honourRange || range.None? || file.None? {
        body := SendWhole();
        return;
      }
      var size := |file.value|;
      SliceInside(range.value, size);
      match ParseRange(range.value, size) {
        case NotSatisfiable =>
          SendResponse(REQUESTED_RANGE_NOT_SATISFIABLE);
          SendHeader("Content-Range", "bytes */" + Print(size));
          SendHeader("Content-Length", "0");
          EndHeaders();
          body := None;
        case Ignored =>
          body := SendWhole();
        case Slice(first, last) =>
          var slice := file.value[first..last + 1];
          SendResponse(PARTIAL_CONTENT);
          SendHeader("Content-Range", "bytes " + Print(first) + "-" + Print(last) + "/" + Print(size));
          SendHeader("Content-Length", Print(|slice|));
          EndHeaders();
          body := Some(slice);
      }
    }
  }

  lemma SliceInside(header: string, size: nat)
    ensures var r := ParseRange(header, size); r.Slice? ==> r.first <= r.last < size
  {
    match FullMatch(Strip(header))
    case NoMatch =>
    case Match(first, last) =>
      MatchIsSpelling(Strip(header), first, last);
      if WellFormed(first, last) {
        AnsweredExactly(header, size, first, last);
      }
  }

  // --- The client ---

  /** The Range header the client sends with start bytes in hand. */
  function ClientRange(start: nat, length: nat, maxRequest: int): Option<string> {
    if start == 0 then
      if length > maxRequest then Some(Closed(0, maxRequest - 1)) else None
    else if length - start > maxRequest then Some(Closed(start, start + maxRequest - 1))
    else Some(Open(start))
  }

  /** What the server makes of it. */
  lemma ClientRangeParses(start: nat, length: nat, maxRequest: int)
    requires start == 0 || (start < length && maxRequest >= 1)
    ensures var range := ClientRange(start, length, maxRequest);
            range.Some? ==>
              ParseRange(range.value, length)
              == if maxRequest < 1 then Ignored
                 else Slice(start, if length - start > maxRequest then start + maxRequest - 1 else length - 1)
  {
    if length - start > maxRequest {
      if maxRequest >= 1 {
        PrintedRangesParse(start, start + maxRequest - 1, length);
      } else {
        NegativeIsIgnored(0, maxRequest - 1, length);
      }
    } else {
      PrintedRangesParse(start, start, length);
    }
  }

  /** The download really takes several requests. */
  predicate InSlices(server: OtaRequestHandler, length: nat, maxRequest: int) {
    server.honourRange && length > maxRequest >= 1
  }

  /** One GET of the walk. */
  method Get(server: OtaRequestHandler, range: Option<string>, ghost start: nat, ghost maxRequest: int)
    returns (status: nat, body: Bytes)
    requires server.file.Some?
    requires range == ClientRange(start, |server.file.value|, maxRequest)
    requires start == 0 || (start < |server.file.value| && InSlices(server, |server.file.value|, maxRequest))
    modifies server
    ensures var image := server.file.value;
            if InSlices(server, |image|, maxRequest) then
              && status == PARTIAL_CONTENT && start < |image|
              && body == image[start..if |image| - start > maxRequest then start + maxRequest else |image|]
            else status == OK && body == image
  {
    ClientRangeParses(start, |server.file.value|, maxRequest);
    var answer := server.SendHead(range);
    status := server.status;
    body := if answer.Some? then answer.value else [];
  }

  /** The HEAD request that asks for the length. */
  method Head(server: OtaRequestHandler) returns (length: nat)
    requires server.file.Some?
    modifies server
    ensures length == |server.file.value|
  {
    var ignored := server.SendHead(None);
    ValueOfPrint(|server.file.value|);
    length := Value(server.headers["Content-Length"]);
  }

  lemma OneMore(k: nat, m: int)
    ensures (k + 1) * m == k * m + m
  {
  }

  /** walk_like_esp_https_ota(): a HEAD for the length, then GET after GET until the length is
      reached. For every image, every request size and either kind of server it ends with exactly
      the image, after the least number of requests of that size, each answered 206, or after a
      single 200 when the image fits one request or the server knows no ranges. */
  method Walk(server: OtaRequestHandler, maxRequest: int) returns (received: Bytes, statuses: seq<nat>)
    requires server.file.Some?
    modifies server
    ensures received == server.file.value
    ensures var n := |server.file.value|;
            if InSlices(server, n, maxRequest) then
              && (forall i :: 0 <= i < |statuses| ==> statuses[i] == 206)
              && (|statuses| - 1) * maxRequest < n <= |statuses| * maxRequest
            else statuses == [200]
  {
    var image := server.file.value;
    var length := Head(server);
    received, statuses := [], [];
    var byteRange := if length > maxRequest then Some(Closed(0, maxRequest - 1)) else None;
    while true
      invariant |received| <= |image| && received == image[..|received|]
      invariant byteRange == ClientRange(|received|, |image|, maxRequest)
      invariant if InSlices(server, |image|, maxRequest)
                then |received| < |image| && |received| == |statuses| * maxRequest
                else received == [] && statuses == []
      invariant forall i :: 0 <= i < |statuses| ==> statuses[i] == PARTIAL_CONTENT
      decreases |image| - |received|
    {
      var status, body := Get(server, byteRange, |received|, maxRequest);
      ghost var k := |statuses|;
      OneMore(k, maxRequest);
      statuses := statuses + [status];
      received := received + body;
      if |received| >= length {
        return;
      }
      var start := |received|;
      byteRange := if length - start > maxRequest then Some(Closed(start, start + maxRequest - 1))
                   else Some(Open(start));
    }
  }
}
