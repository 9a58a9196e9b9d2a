/** The per-connection request framer of server.js (`Http`): buffer the
    socket's bytes, parse one header at a time, then hand exactly
    Content-Length bytes to the request body before parsing the next
    header. */
module Framer {
  import opened Scanner

  /** Intake is paused once more than 100 MiB are buffered. */
  const PAUSE_LIMIT: nat := 100 * 1024 * 1024

  // `content-length`
  const CONTENT_LENGTH: seq<byte> := [0x63, 0x6f, 0x6e, 0x74, 0x65, 0x6e, 0x74, 0x2d, 0x6c, 0x65, 0x6e, 0x67, 0x74, 0x68]

  const ZERO: byte := 0x30

  predicate IsDigit(b: byte) { ZERO <= b <= ZERO + 9 }

  predicate AllDigits(s: seq<byte>) { forall k :: 0 <= k < |s| ==> IsDigit(s[k]) }

  /** The value of a string of decimal digits, most significant first. */
  function DecimalValue(s: seq<byte>): (r: nat)
    requires AllDigits(s)
    ensures r == 0 <==> forall k :: 0 <= k < |s| ==> s[k] == ZERO
    decreases |s|
  {
    if s == [] then 0 else DecimalValue(s[..|s| - 1]) * 10 + (s[|s| - 1] - ZERO)
  }

  /** Leading zeros do not change the value, as `Number("007")` is 7. */
  lemma {:induction false} DecimalLeadingZero(s: seq<byte>)
    requires AllDigits(s)
    ensures AllDigits([ZERO] + s) && DecimalValue([ZERO] + s) == DecimalValue(s)
    decreases |s|
  {
    if s != [] {
      var p := s[..|s| - 1];
      assert ([ZERO] + s)[..|s|] == [ZERO] + p;
      DecimalLeadingZero(p);
    }
  }

  /** The decimal rendering of n, as a template literal prints a number. */
  function Decimal(n: nat): (r: seq<byte>)
    ensures r != [] && AllDigits(r)
    ensures |r| > 1 ==> r[0] != ZERO
    decreases n
  {
    if n < 10 then [ZERO + n] else Decimal(n / 10) + [ZERO + n % 10]
  }

  /** Reading back a rendered number gives the number. */
  lemma {:induction false} DecimalRoundTrip(n: nat)
    ensures DecimalValue(Decimal(n)) == n
    decreases n
  {
    var r := Decimal(n);
    if n >= 10 {
      DecimalRoundTrip(n / 10);
      assert r[..|r| - 1] == Decimal(n / 10);
    }
  }

  /** Digits without a leading zero are the rendering of their value. */
  lemma {:induction false} DecimalCanonical(s: seq<byte>)
    requires s != [] && AllDigits(s) && (|s| > 1 ==> s[0] != ZERO)
    ensures Decimal(DecimalValue(s)) == s
    decreases |s|
  {
    var p := s[..|s| - 1];
    var v, d := DecimalValue(p), s[|s| - 1] - ZERO;
    var n := v * 10 + d;
    if |s| > 1 {
      assert p[0] == s[0];
      assert v > 0;
      assert n / 10 == v && n % 10 == d;
      DecimalCanonical(p);
      assert s == p + [s[|s| - 1]];
    } else {
      assert v == 0;
    }
  }

  /** `header["content-length"] || 0`: the decimal value of the header,
      and 0 when it is absent or empty. */
  function ContentLength(h: Header): (r: nat)
    ensures CONTENT_LENGTH !in h || h[CONTENT_LENGTH] == [] ==> r == 0
  {
    if CONTENT_LENGTH in h && AllDigits(h[CONTENT_LENGTH]) then DecimalValue(h[CONTENT_LENGTH]) else 0
  }

  /** A header carrying a rendered length frames a body of that length. */
  lemma ContentLengthOfDecimal(h: Header, n: nat)
    requires CONTENT_LENGTH in h && h[CONTENT_LENGTH] == Decimal(n)
    ensures ContentLength(h) == n
  {
    DecimalRoundTrip(n);
  }

  function Min(a: nat, b: nat): nat { if a < b then a else b }

  class Connection {
    /** Bytes received and not yet handed to a header or a body. */
    var bytes: seq<byte>
    /** Body bytes handed to the current request so far. */
    var len: nat
    /** The current request's Content-Length. */
    var length: nat
    /** Waiting for a header (no request body in progress). */
    var isHandleHeader: bool
    /** The socket was paused. */
    var paused: bool
    /** Every header parsed on this connection, in order. */
    var headers: seq<Header>
    /** Every finished request body (pushed, then ended), in order. */
    var bodies: seq<seq<byte>>
    /** The bytes pushed to the current request so far. */
    var body: seq<byte>

    ghost predicate Valid()
      reads this`body, this`len, this`length, this`isHandleHeader, this`headers, this`bodies
    {
      && |body| == len <= length
      && (isHandleHeader ==> len == 0 && length == 0 && body == [])
      && |headers| == |bodies| + (if isHandleHeader then 0 else 1)
      && (forall k :: 0 <= k < |bodies| ==> |bodies[k]| == ContentLength(headers[k]))
      && (!isHandleHeader ==> length == ContentLength(headers[|headers| - 1]))
    }

    /** The state after `handle()` ran on `rest` while waiting for a header,
        with `hs` the headers parsed before: either still waiting with the
        bytes kept, or a new request whose header was cut off the front. */
    ghost predicate HandledFrom(hs: seq<Header>, rest: seq<byte>)
      reads this`isHandleHeader, this`headers, this`bytes, this`len, this`length, this`body
    {
      match HeaderSpec(rest).0
      case None => isHandleHeader && headers == hs && bytes == rest
      case Some(h) =>
        && !isHandleHeader && headers == hs + [h] && bytes == rest[HeaderSpec(rest).1..]
        && len == 0 && length == ContentLength(h) && body == []
    }

    constructor ()
      ensures Valid() && isHandleHeader && !paused
      ensures bytes == [] && headers == [] && bodies == [] && body == []
    {
      bytes, len, length, isHandleHeader, paused := [], 0, 0, true, false;
      headers, bodies, body := [], [], [];
    }

    /** `handle()`: parse a header only while waiting for one. */
    method Handle()
      requires Valid()
      modifies this`isHandleHeader, this`length, this`bytes, this`headers
      ensures Valid() && bodies == old(bodies) && paused == old(paused)
      ensures old(isHandleHeader) ==> HandledFrom(old(headers), old(bytes))
      ensures !old(isHandleHeader) ==>
        unchanged(this`bytes, this`headers, this`isHandleHeader, this`len, this`length, this`body)
    {
      if !isHandleHeader {
        return;
      }
      var header, headerLen := ParseHeader(bytes);
      if header.None? {
        return;
      }
      Accept(header.value, headerLen);
    }

    /** A header of `headerLen` bytes was parsed: start its request. */
    method Accept(header: Header, headerLen: nat)
      requires Valid() && isHandleHeader && headerLen <= |bytes|
      modifies this`isHandleHeader, this`length, this`bytes, this`headers
      ensures Valid() && bodies == old(bodies) && paused == old(paused)
      ensures !isHandleHeader && headers == old(headers) + [header] && bytes == old(bytes)[headerLen..]
      ensures len == 0 && length == ContentLength(header) && body == []
    {
      isHandleHeader := false;
      length := ContentLength(header);
      if |bytes| > headerLen {
        bytes := bytes[headerLen..];
      } else {
        bytes := [];
      }
      headers := headers + [header];
    }

    /** One `data` event of the socket: buffer the chunk, try the header,
        and pause the socket when too much is buffered. */
    method OnData(chunk: seq<byte>)
      requires Valid()
      modifies this`isHandleHeader, this`length, this`bytes, this`headers, this`paused
      ensures Valid() && bodies == old(bodies)
      ensures old(isHandleHeader) ==> HandledFrom(old(headers), old(bytes) + chunk)
      ensures !old(isHandleHeader) ==>
        && bytes == old(bytes) + chunk && headers == old(headers) && !isHandleHeader
        && unchanged(this`len, this`length, this`body)
      ensures paused == (old(paused) || |bytes| > PAUSE_LIMIT)
    {
      bytes := bytes + chunk;
      Handle();
      if |bytes| > PAUSE_LIMIT {
        paused := true;
      }
    }

    /** `push(null)` and the reset of `read()`: the body is complete, so
        record it and go back to header parsing, at once if bytes remain. */
    method EndBody()
      requires Valid() && !isHandleHeader && len >= length
      modifies this`isHandleHeader, this`length, this`bytes, this`headers, this`bodies, this`len, this`body
      ensures Valid() && paused == old(paused)
      ensures bodies == old(bodies) + [old(body)]
      ensures HandledFrom(old(headers), old(bytes))
    {
      bodies := bodies + [body];
      len, length, isHandleHeader, body := 0, 0, true, [];
      if |bytes| > 0 {
        Handle();
      } else {
        EmptyHasNoHeader();
      }
    }

    /** The request's `read()`: push body slices of at most the bytes still
        owed, while the consumer accepts them; end the body once all
        Content-Length bytes are pushed and go back to header parsing.
        `accepting` is what `push` returns for a slice. */
    method Pull(accepting: bool)
      requires Valid() && !isHandleHeader
      modifies this
      ensures Valid()
      ensures var all := old(body + bytes);
        var ends := old(len) == old(length) || (accepting && old(len) + |old(bytes)| >= old(length));
        && paused == (if old(len) == old(length) then old(paused) else false)
        && (!ends ==>
              && !isHandleHeader && headers == old(headers) && bodies == old(bodies)
              && length == old(length) && body + bytes == all
              && len == old(len) + Min(old(length) - old(len), |old(bytes)|))
        && (ends ==>
              && bodies == old(bodies) + [all[..old(length)]]
              && HandledFrom(old(headers), all[old(length)..]))
    {
      ghost var all := body + bytes;
      ghost var first := true;
      while true
        invariant Valid() && !isHandleHeader && headers == old(headers) && bodies == old(bodies)
        invariant length == old(length) && body + bytes == all
        invariant first ==> len == old(len) && bytes == old(bytes) && paused == old(paused)
        invariant !first ==> len > old(len) && len == old(len) + Min(old(length) - old(len), |old(bytes)|)
        invariant !first ==> accepting && !paused
        decreases length - len
      {
        if len >= length {
          assert body == all[..length] && bytes == all[length..];
          EndBody();
          return;
        }
        paused := false;
        if |bytes| == 0 {
          break;
        }
        var left := length - len;
        var slice;
        if left >= |bytes| {
          slice := bytes;
          bytes := [];
        } else {
          slice := bytes[..left];
          bytes := bytes[left..];
        }
        len := len + |slice|;
        body := body + slice;
        first := false;
        if !accepting {
          break;
        }
      }
    }
  }

  /** An empty buffer holds no header. */
  lemma EmptyHasNoHeader()
    ensures HeaderSpec([]).0 == None
  {
    assert Procotol([], 0).items == [];
  }
}
