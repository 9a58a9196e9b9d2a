/** The multipart/form-data body parser of the upload server: the delimiter
    framing of section 5.1.1 of RFC 2046 as used by RFC 7578, run as a
    state machine over a growing byte buffer. Each `OnData` call appends one
    chunk and runs the machine until it needs more bytes or has a result.
    File parts go to sinks, each an abstract file: its path, the bytes
    written to it and whether it was closed. */
module FormData {
  import opened Scanner

  // ---------------------------------------------------------------------
  // Attribute extraction. The source uses three regular expressions with
  // the `i` flag and a greedy leading `.*`, so each finds the LAST place in
  // the text where its pattern fits, comparing ASCII letters without case.
  // ---------------------------------------------------------------------

  const QUOTE: byte := 0x22
  const UNDERSCORE: byte := 0x5f

  function AsciiLower(b: byte): byte
  {
    if 0x41 <= b <= 0x5a then b + 0x20 else b
  }

  /** `w` occurs at offset p of `s`, ASCII case ignored. */
  predicate WordAt(s: seq<byte>, p: nat, w: seq<byte>)
  {
    p + |w| <= |s| && forall k :: 0 <= k < |w| ==> AsciiLower(s[p + k]) == AsciiLower(w[k])
  }

  /** `\w` of a JavaScript regular expression. */
  predicate IsWordByte(b: byte)
  {
    0x30 <= b <= 0x39 || 0x41 <= b <= 0x5a || 0x61 <= b <= 0x7a || b == UNDERSCORE
  }

  /** The length of the longest run of accepted bytes starting at p. */
  function Span(s: seq<byte>, p: nat, accept: byte -> bool): (n: nat)
    ensures p + n <= |s| || n == 0
    ensures forall k :: p <= k < p + n ==> accept(s[k])
    ensures p + n < |s| ==> !accept(s[p + n])
    decreases |s| - p
  {
    if p >= |s| || !accept(s[p]) then 0 else 1 + Span(s, p + 1, accept)
  }

  /** The largest q < n with P(q), if any. */
  function LastIndex(n: nat, P: nat -> bool): (r: Option<nat>)
    ensures r.Some? ==> r.value < n && P(r.value) && forall q: nat :: r.value < q < n ==> !P(q)
    ensures r.None? ==> forall q: nat :: q < n ==> !P(q)
  {
    if n == 0 then None else if P(n - 1) then Some(n - 1) else LastIndex(n - 1, P)
  }

  // `boundary=`
  const BOUNDARY_EQ: seq<byte> := [0x62, 0x6f, 0x75, 0x6e, 0x64, 0x61, 0x72, 0x79, 0x3d]
  // `name="`
  const NAME_EQ: seq<byte> := [0x6e, 0x61, 0x6d, 0x65, 0x3d, 0x22]
  // `filename="`
  const FILENAME_EQ: seq<byte> := [0x66, 0x69, 0x6c, 0x65, 0x6e, 0x61, 0x6d, 0x65, 0x3d, 0x22]
  // `file`
  const FILE: seq<byte> := [0x66, 0x69, 0x6c, 0x65]
  // `undefined`
  const UNDEFINED: seq<byte> := [0x75, 0x6e, 0x64, 0x65, 0x66, 0x69, 0x6e, 0x65, 0x64]
  // `Content-Disposition`
  const CONTENT_DISPOSITION: seq<byte> := [0x43, 0x6f, 0x6e, 0x74, 0x65, 0x6e, 0x74, 0x2d, 0x44, 0x69, 0x73, 0x70, 0x6f, 0x73, 0x69, 0x74, 0x69, 0x6f, 0x6e]

  function Dashes(s: seq<byte>, p: nat): nat { Span(s, p, b => b == HYPHEN) }
  function Words(s: seq<byte>, p: nat): nat { Span(s, p, IsWordByte) }
  function Quoted(s: seq<byte>, p: nat): nat { Span(s, p, b => b != QUOTE) }

  /** `boundary=(-+\w+)` fits at offset p. */
  predicate BoundaryParamAt(ct: seq<byte>, p: nat)
  {
    WordAt(ct, p, BOUNDARY_EQ) && Dashes(ct, p + 9) > 0 && Words(ct, p + 9 + Dashes(ct, p + 9)) > 0
  }

  /** The token captured by `(-+\w+)` after `boundary=` at offset p:
      dashes, then word bytes. */
  function TokenAt(ct: seq<byte>, p: nat): (t: seq<byte>)
    requires BoundaryParamAt(ct, p)
    ensures |t| >= 2 && t[0] == HYPHEN && IsWordByte(t[|t| - 1])
    ensures forall b :: b in t ==> b == HYPHEN || IsWordByte(b)
  {
    var d := Dashes(ct, p + 9);
    var w := Words(ct, p + 9 + d);
    var t := ct[p + 9 .. p + 9 + d + w];
    assert forall k :: 0 <= k < |t| ==> t[k] == HYPHEN || IsWordByte(t[k]) by {
      forall k | 0 <= k < |t| ensures t[k] == HYPHEN || IsWordByte(t[k]) {
        assert t[k] == ct[p + 9 + k];
        if k >= d {
          assert ct[p + 9 + k] == ct[p + 9 + d + (k - d)];
        }
      }
    }
    assert t[|t| - 1] == ct[p + 9 + d + (w - 1)];
    t
  }

  /** The regex `/.*boundary=(-+\w+).* /i` of form-data-parser.js applied to
      the Content-Type value (absent: `undefined`, which never matches). */
  function BoundaryToken(contentType: Option<seq<byte>>): (r: Option<seq<byte>>)
    ensures r.Some? <==> contentType.Some? && exists p: nat :: BoundaryParamAt(contentType.value, p)
    ensures r.Some? ==>
      && |r.value| >= 2 && r.value[0] == HYPHEN && IsWordByte(r.value[|r.value| - 1])
      && forall b :: b in r.value ==> b == HYPHEN || IsWordByte(b)
  {
    if contentType.None? then None
    else
      var ct := contentType.value;
      var P := (p: nat) => BoundaryParamAt(ct, p);
      match LastIndex(|ct| + 1, P)
      case None =>
        assert forall p: nat :: !BoundaryParamAt(ct, p) by {
          forall p: nat ensures !BoundaryParamAt(ct, p) {
            if p < |ct| + 1 { assert !P(p); }
          }
        }
        None
      case Some(p) => Some(TokenAt(ct, p))
  }

  /** The delimiter the parser scans for: CR LF "--" and the boundary token
      (form-data-parser.js:56). None is the POST_DATA_INVALIDE error. */
  function Delimiter(contentType: Option<seq<byte>>): (r: Option<seq<byte>>)
    ensures r.Some? <==> BoundaryToken(contentType).Some?
    ensures r.Some? ==> WellFormedDelimiter(r.value) && r.value[4..] == BoundaryToken(contentType).value
  {
    match BoundaryToken(contentType)
    case None => None
    case Some(t) => Some([CR, LF, HYPHEN, HYPHEN] + t)
  }

  /** CR LF "--" followed by a token of at least two bytes, none of them CR. */
  predicate WellFormedDelimiter(d: seq<byte>)
  {
    |d| >= 6 && d[..4] == [CR, LF, HYPHEN, HYPHEN] && CR !in d[1..]
  }

  /** `name="v"` with a non-empty v fits at offset p and the four bytes
      before it do not spell `file` (the lookbehind `(?<!file)`). */
  predicate NameAttrAt(cd: seq<byte>, p: nat)
  {
    && WordAt(cd, p, NAME_EQ)
    && !(p >= 4 && WordAt(cd, p - 4, FILE))
    && Quoted(cd, p + 6) > 0 && p + 6 + Quoted(cd, p + 6) < |cd|
  }

  /** `filename="v"` with a non-empty v fits at offset p. */
  predicate FileNameAttrAt(cd: seq<byte>, p: nat)
  {
    WordAt(cd, p, FILENAME_EQ) && Quoted(cd, p + 10) > 0 && p + 10 + Quoted(cd, p + 10) < |cd|
  }

  /** The regex `/.*(?<!file)name=\"([^\"]+)\"/i` applied to the
      Content-Disposition text. */
  function FieldName(cd: seq<byte>): (r: Option<seq<byte>>)
    ensures r.Some? <==> exists p: nat :: NameAttrAt(cd, p)
    ensures r.Some? ==> r.value != [] && QUOTE !in r.value
  {
    var P := (p: nat) => NameAttrAt(cd, p);
    match LastIndex(|cd| + 1, P)
    case None =>
      assert forall p: nat :: !NameAttrAt(cd, p) by {
        forall p: nat ensures !NameAttrAt(cd, p) {
          if p < |cd| + 1 { assert !P(p); }
        }
      }
      None
    case Some(p) => Some(cd[p + 6 .. p + 6 + Quoted(cd, p + 6)])
  }

  /** The regex `/.*filename=\"([^\"]+)\"/i` applied to the
      Content-Disposition text. */
  function FileName(cd: seq<byte>): (r: Option<seq<byte>>)
    ensures r.Some? <==> exists p: nat :: FileNameAttrAt(cd, p)
    ensures r.Some? ==> r.value != [] && QUOTE !in r.value
  {
    var P := (p: nat) => FileNameAttrAt(cd, p);
    match LastIndex(|cd| + 1, P)
    case None =>
      assert forall p: nat :: !FileNameAttrAt(cd, p) by {
        forall p: nat ensures !FileNameAttrAt(cd, p) {
          if p < |cd| + 1 { assert !P(p); }
        }
      }
      None
    case Some(p) => Some(cd[p + 10 .. p + 10 + Quoted(cd, p + 10)])
  }

  /** The `name=` inside a `filename=` attribute is never taken for the
      field name. */
  lemma FilenameIsNotName(cd: seq<byte>, q: nat)
    requires WordAt(cd, q, FILENAME_EQ)
    ensures !NameAttrAt(cd, q + 4)
  {
    assert WordAt(cd, q, FILE) by {
      forall k | 0 <= k < 4 ensures AsciiLower(cd[q + k]) == AsciiLower(FILE[k]) {
        assert FILE[k] == FILENAME_EQ[k];
      }
    }
  }

  /** The value of the last header pair named exactly `key` (the source
      builds an object from the pairs without changing the names' case). */
  function HeaderValue(kv: seq<seq<byte>>, key: seq<byte>): (r: Option<seq<byte>>)
    ensures r.Some? <==> exists j: nat :: PairAt(kv, j, key)
    ensures r.Some? ==> exists j: nat ::
      PairAt(kv, j, key) && r.value == kv[j + 1] && forall j': nat :: j < j' ==> !PairAt(kv, j', key)
  {
    var P := (j: nat) => PairAt(kv, j, key);
    match LastIndex(|kv|, P)
    case None =>
      assert forall j: nat :: !PairAt(kv, j, key) by {
        forall j: nat ensures !PairAt(kv, j, key) {
          if j < |kv| { assert !P(j); }
        }
      }
      None
    case Some(j) =>
      assert forall j': nat :: j < j' ==> !PairAt(kv, j', key) by {
        forall j': nat | j < j' ensures !PairAt(kv, j', key) {
          if j' < |kv| { assert !P(j'); }
        }
      }
      Some(kv[j + 1])
  }

  /** A pair whose name is `key` starts at offset j (keys sit at even offsets). */
  predicate PairAt(kv: seq<seq<byte>>, j: nat, key: seq<byte>)
  {
    j % 2 == 0 && j + 1 < |kv| && kv[j] == key
  }

  // ---------------------------------------------------------------------
  // The parser state machine (`formDataParser` and its `onData` closure).
  // ---------------------------------------------------------------------

  datatype State = Boundary | TypeKv | Data | MaybeEnd | End

  /** The error strings of form-data-parser.js. The instanceof check and the
      "state overflow" default branch have no counterpart: the first is
      left out and the second cannot happen with an enumerated state. */
  datatype ErrorKind =
    | PostDataInvalid      // no usable `boundary=` in Content-Type
    | FormDataFormatError  // the body does not start with the boundary
    | PartDataError        // neither CR LF nor "--" after a delimiter

  /** A field is the bytes of a text part, or the file name of a file part. */
  datatype FieldValue = Text(data: seq<byte>) | FileRef(fileName: seq<byte>)

  /** `Result(err, fields)`: an error comes with no fields. */
  datatype Result = Result(err: Option<ErrorKind>, fields: map<seq<byte>, FieldValue>)

  /** An abstract write stream: where it was opened, what was written to it,
      and whether it was closed. */
  datatype Sink = Sink(path: seq<byte>, data: seq<byte>, closed: bool)

  /** The text `undefined`, which the regexes see when a part has no
      Content-Disposition, carries neither attribute. */
  lemma UndefinedHasNoAttributes()
    ensures FieldName(UNDEFINED) == None && FileName(UNDEFINED) == None
  {
    forall p: nat ensures !NameAttrAt(UNDEFINED, p) {
      if p + 6 <= |UNDEFINED| {
        assert AsciiLower(UNDEFINED[p + 4]) != AsciiLower(NAME_EQ[4]);
      }
    }
  }

  /** What a part's header says about it: the key it is stored under and,
      for a file part, the file name. */
  datatype Part = Part(key: seq<byte>, file: Option<seq<byte>>)

  /** The key is the `name` attribute, or "undefined" without one; the
      file name is the `filename` attribute. Both are read from the
      Content-Disposition value, or from `undefined` without one. */
  function PartOf(kv: seq<seq<byte>>): (r: Part)
    ensures r.key != []
    ensures r.file.Some? ==> r.file.value != []
  {
    match HeaderValue(kv, CONTENT_DISPOSITION)
    case None =>
      UndefinedHasNoAttributes();
      Part(UNDEFINED, None)
    case Some(cd) =>
      var name := FieldName(cd);
      Part(if name.Some? then name.value else UNDEFINED, FileName(cd))
  }

  /** Sinks after `part` was written to the last one (closing it if asked). */
  function WriteLast(sinks: seq<Sink>, part: seq<byte>, close: bool): (r: seq<Sink>)
    requires sinks != []
    ensures |r| == |sinks| && r[..|r| - 1] == sinks[..|sinks| - 1]
    ensures r[|r| - 1].path == sinks[|sinks| - 1].path
    ensures r[|r| - 1].data == sinks[|sinks| - 1].data + part
  {
    sinks[|sinks| - 1 := Sink(sinks[|sinks| - 1].path, sinks[|sinks| - 1].data + part, close)]
  }

  /** Every sink of `before` is still there with the same path and at least
      the same bytes, and a closed one has not changed at all. */
  predicate SinksGrow(before: seq<Sink>, after: seq<Sink>)
  {
    && |before| <= |after|
    && forall k :: 0 <= k < |before| ==>
         && after[k].path == before[k].path
         && before[k].data <= after[k].data
         && (before[k].closed ==> after[k] == before[k])
  }

  lemma SinksGrowTransitive(a: seq<Sink>, b: seq<Sink>, c: seq<Sink>)
    requires SinksGrow(a, b) && SinksGrow(b, c)
    ensures SinksGrow(a, c)
  {
    forall k | 0 <= k < |a| ensures a[k].data <= c[k].data {
      assert b[k].data == c[k].data[..|b[k].data|];
    }
  }

  /** `t` is what is left of `s` after some bytes were cut off its front. */
  predicate Suffix(t: seq<byte>, s: seq<byte>)
  {
    |t| <= |s| && s[|s| - |t|..] == t
  }

  /** Cutting the front off twice leaves a suffix of the original. */
  lemma SuffixTransitive(a: seq<byte>, b: seq<byte>, c: seq<byte>)
    requires Suffix(a, b) && Suffix(b, c)
    ensures Suffix(a, c)
  {
    assert c[|c| - |a|..] == c[|c| - |b|..][|b| - |a|..];
  }

  /** The delimiter `d` occurs in `b` at offset s. */
  predicate Occurs(d: seq<byte>, b: seq<byte>, s: nat)
  {
    s + |d| <= |b| && b[s .. s + |d|] == d
  }

  /** `part` is what `held` starts with, and the delimiter follows it. */
  predicate EndsBefore(d: seq<byte>, held: seq<byte>, part: seq<byte>)
  {
    |part| <= |held| && held[..|part|] == part && Occurs(d, held, |part|)
  }

  /** A part whose bytes so far are `data`, followed by `b` holding the
      delimiter at m, ends with the bytes of `b` before m. */
  lemma EndsAtDelimiter(d: seq<byte>, data: seq<byte>, b: seq<byte>, m: nat)
    requires Occurs(d, b, m)
    ensures EndsBefore(d, data + b, data + b[..m])
  {
    var h := data + b;
    assert h[|data| + m .. |data| + m + |d|] == b[m .. m + |d|];
    assert h[..|data| + m] == data + b[..m];
  }

  /** A match attempt that began at n - k and failed at n passes over no
      delimiter, whatever bytes arrive later: the first start fails at the
      mismatch, the later ones at their first byte, which is not the CR
      every delimiter starts with. */
  lemma {:induction false} MismatchSkipsNoDelimiter(d: seq<byte>, b: seq<byte>, n: nat, k: nat)
    requires WellFormedDelimiter(d) && k < |d| && k <= n < |b|
    requires b[n - k .. n] == d[..k] && b[n] != d[k]
    ensures forall more: seq<byte>, s: nat :: n - k <= s < n ==> !Occurs(d, b + more, s)
    ensures k == 0 ==> forall more: seq<byte> :: !Occurs(d, b + more, n)
  {
    assert d[0] == CR by { assert d[..4][0] == d[0]; }
    if k == 0 {
      forall more: seq<byte> ensures !Occurs(d, b + more, n) {
        if n + |d| <= |b + more| {
          assert (b + more)[n .. n + |d|][0] == b[n];
        }
      }
    }
    forall more: seq<byte>, s: nat | n - k <= s < n ensures !Occurs(d, b + more, s) {
      var c := b + more;
      if s + |d| <= |c| {
        if s == n - k {
          assert c[s .. s + |d|][k] == c[n] == b[n];
        } else {
          var m := s - (n - k);
          assert c[s] == b[s] == b[n - k .. n][m] == d[m];
          assert d[1..][m - 1] == d[m];
          assert c[s .. s + |d|][0] != d[0];
        }
      }
    }
  }

  /** The DATA match step as written (form-data-parser.js:166-172), from
      the cursor n with k delimiter bytes matched: the new cursor and match
      count. Both a match and a mismatch move one byte on. */
  function MatchAsWritten(d: seq<byte>, b: seq<byte>, n: nat, k: nat): (r: (nat, int))
    requires k < |d| && n < |b|
    ensures r.0 == n + 1
    ensures r.1 == -1 || r.1 == k + 1
  {
    if d[k] != b[n] then (n + 1, -1) else (n + 1, k + 1)
  }

  /** As written, a mismatch passes over a delimiter that starts at the
      mismatching byte: with the token `-a`, data ending in CR before the
      delimiter gives CR CR LF "---a"; the attempt begun at the first CR
      fails on the second, the scan resumes after it, and the delimiter at
      offset 1 is never matched. Parser.MatchStep resumes at the second CR. */
  lemma MismatchCanPassDelimiter()
    ensures var d: seq<byte> := [CR, LF, HYPHEN, HYPHEN, HYPHEN, 0x61];
      var b: seq<byte> := [CR, CR, LF, HYPHEN, HYPHEN, HYPHEN, 0x61];
      && WellFormedDelimiter(d)
      && b[0..1] == d[..1]
      && MatchAsWritten(d, b, 1, 1) == (2, -1)
      && Occurs(d, b, 1)
  {
    var d: seq<byte> := [CR, LF, HYPHEN, HYPHEN, HYPHEN, 0x61];
    var b: seq<byte> := [CR, CR, LF, HYPHEN, HYPHEN, HYPHEN, 0x61];
    assert d[..4] == [CR, LF, HYPHEN, HYPHEN];
    assert d[1..] == [LF, HYPHEN, HYPHEN, HYPHEN, 0x61];
    assert b[1..7] == d;
  }

  /** One more matching byte extends a partial match by one. */
  lemma MatchExtends(d: seq<byte>, b: seq<byte>, n: nat, k: nat)
    requires k < |d| && k <= n < |b|
    requires b[n - k .. n] == d[..k] && b[n] == d[k]
    ensures b[n - k .. n + 1] == d[..k + 1]
  {
    assert b[n - k .. n + 1] == b[n - k .. n] + [b[n]];
    assert d[..k + 1] == d[..k] + [d[k]];
  }

  /** Skipping from n to n + |d| - 1 passes over no delimiter, whatever
      bytes arrive later, when the byte at n + |d| - 1, which each of them
      would cover, is not a delimiter byte. */
  lemma SkipPassesNoDelimiter(d: seq<byte>, b: seq<byte>, n: nat)
    requires |d| > 0 && n + |d| - 1 < |b| && b[n + |d| - 1] !in d
    ensures forall more: seq<byte>, s: nat :: n <= s < n + |d| - 1 ==> !Occurs(d, b + more, s)
  {
    forall more: seq<byte>, s: nat | n <= s < n + |d| - 1 ensures !Occurs(d, b + more, s) {
      var c := b + more;
      if s + |d| <= |c| {
        assert c[s .. s + |d|][n + |d| - 1 - s] == c[n + |d| - 1] == b[n + |d| - 1];
      }
    }
  }

  /** Writing to the open last sink grows it, leaves the others alone and
      sets its closed flag to `close`. */
  lemma WriteLastGrows(sinks: seq<Sink>, part: seq<byte>, close: bool)
    requires sinks != [] && !sinks[|sinks| - 1].closed
    ensures SinksGrow(sinks, WriteLast(sinks, part, close))
    ensures (forall k :: 0 <= k < |sinks| - 1 ==> sinks[k].closed) ==>
      forall k :: 0 <= k < |sinks| - 1 ==> WriteLast(sinks, part, close)[k].closed
    ensures WriteLast(sinks, part, close)[|sinks| - 1].closed == close
  {
    var r := WriteLast(sinks, part, close);
    forall k | 0 <= k < |sinks| - 1 ensures r[k] == sinks[k] {
      assert r[..|r| - 1][k] == sinks[..|sinks| - 1][k];
    }
  }

  /** What the BOUNDARY state makes of the buffer: the body after the
      opening boundary, a wait with the cursor to resume from, or the
      FORM_DATA_FORMAT_ERROR rejection. */
  datatype Opening = Opened(rest: seq<byte>) | Await(cursor: nat) | Malformed

  /** BOUNDARY as written (form-data-parser.js:90-101): match the delimiter
      without its CR LF from the cursor i, and on a wait resume next time
      from the byte where matching stopped. */
  function OpenAsWritten(b: seq<byte>, d: seq<byte>, i: nat): (r: Opening)
    requires |d| >= 2
    ensures r.Opened? <==> Occurs(d[2..], b, i)
    ensures r.Opened? ==> r.rest == b[i + |d| - 2..]
    ensures r.Await? ==> |b| < |d| && r.cursor == i + MatchLength(b, d[2..], i)
    ensures r.Malformed? ==> |d| <= |b|
  {
    var t := d[2..];
    var n := MatchLength(b, t, i);
    if n == |t| && i + n <= |b| then
      assert b[i .. i + n] == t;
      Opened(b[i + n..])
    else
      assert !Occurs(t, b, i) by {
        if i + |t| <= |b| { assert b[i .. i + |t|][n] != t[n]; }
      }
      if |b| < |d| then Await(i + n) else Malformed
  }

  /** BOUNDARY as evidently intended: the buffer is never trimmed before
      the opening boundary matched, so a wait restarts the match at 0. */
  function Open(b: seq<byte>, d: seq<byte>): (r: Opening)
    requires |d| >= 2
    ensures r.Opened? <==> Occurs(d[2..], b, 0)
    ensures r.Opened? ==> r.rest == b[|d| - 2..]
    ensures r.Await? <==> !Occurs(d[2..], b, 0) && |b| < |d|
    ensures r.Await? ==> r.cursor == 0
    ensures r.Malformed? <==> !Occurs(d[2..], b, 0) && |d| <= |b|
  {
    match OpenAsWritten(b, d, 0)
    case Await(_) => Await(0)
    case o => o
  }

  /** Counterexample: with the boundary token `-a` the body `---a` CR LF
      is opened when it arrives in one chunk, but rejected when its first
      two bytes arrive alone, because the second attempt resumes the
      match at offset 2 with the first delimiter byte. */
  lemma SplitOpeningRejected()
    ensures var d: seq<byte> := [CR, LF, HYPHEN, HYPHEN, HYPHEN, 0x61];
      var first: seq<byte> := [HYPHEN, HYPHEN];
      var whole: seq<byte> := first + [HYPHEN, 0x61, CR, LF];
      && WellFormedDelimiter(d)
      && OpenAsWritten(whole, d, 0) == Opened([CR, LF])
      && OpenAsWritten(first, d, 0) == Await(2)
      && OpenAsWritten(whole, d, OpenAsWritten(first, d, 0).cursor) == Malformed
      && Open(first, d) == Await(0)
      && Open(whole, d) == Opened([CR, LF])
  {
    var d: seq<byte> := [CR, LF, HYPHEN, HYPHEN, HYPHEN, 0x61];
    var first: seq<byte> := [HYPHEN, HYPHEN];
    var whole: seq<byte> := first + [HYPHEN, 0x61, CR, LF];
    assert d[..4] == [CR, LF, HYPHEN, HYPHEN];
    assert d[2..] == [HYPHEN, HYPHEN, HYPHEN, 0x61];
    assert whole[0..4] == d[2..];
    assert MatchLength(first, d[2..], 0) == 2 by {
      assert MatchLength(first, [0x61], 2) == 0;
      assert d[2..][1..] == [HYPHEN, HYPHEN, 0x61];
      assert d[2..][1..][1..] == [HYPHEN, 0x61];
    }
    assert MatchLength(whole, d[2..], 2) == 1 by {
      assert d[2..][1..] == [HYPHEN, HYPHEN, 0x61];
      assert whole[3] == 0x61;
    }
  }

  /** A part whose header block is empty, CR LF CR LF right after the
      boundary line, gives no pairs whatever bytes arrive later: TYPE_KV
      waits for good, even once the closing boundary is in the buffer. */
  lemma EmptyPartHeaderStalls(rest: seq<byte>, more: seq<byte>)
    requires TerminatorAt(rest, 0)
    ensures KvsFrom(rest + more, 0, []).complete && KvsFrom(rest + more, 0, []).items == []
  {
    assert TerminatorAt(rest + more, 0);
  }

  /** With the corrected wait, a body that begins with the boundary is
      opened however its first bytes were split into chunks. */
  lemma OpenedAfterWait(first: seq<byte>, more: seq<byte>, d: seq<byte>)
    requires |d| >= 2 && Open(first, d).Await? && Occurs(d[2..], first + more, 0)
    ensures OpenAsWritten(first + more, d, Open(first, d).cursor) == Opened((first + more)[|d| - 2..])
  {
  }

  // ---------------------------------------------------------------------
  // The state machine on values: the closure's variables as one record,
  // and each branch of the `switch` as a function of it. The methods of
  // `Parser` are proved to leave exactly these values behind.
  // ---------------------------------------------------------------------

  datatype Machine = Machine(
    bytes: seq<byte>, i: nat, boundaryIndex: int, state: State,
    fields: map<seq<byte>, FieldValue>, currentField: seq<byte>, currentFilename: seq<byte>,
    fileOpen: bool, sinks: seq<Sink>, result: Option<Result>)

  /** Where the current match attempt began; the cursor outside one. */
  function AttemptStart(i0: nat, bi0: int): int
  {
    if bi0 >= 0 then i0 - bi0 else i0
  }

  /** The bytes a text field holds so far; none for anything else. */
  function TextOf(fields: map<seq<byte>, FieldValue>, key: seq<byte>): seq<byte>
  {
    if key in fields && fields[key].Text? then fields[key].data else []
  }

  /** `part` goes to the open file, which is closed when `close`, or is
      appended to the current text field. */
  function DeliverSpec(m: Machine, part: seq<byte>, close: bool): Machine
  {
    if m.fileOpen then m.(sinks := if m.sinks == [] then [] else WriteLast(m.sinks, part, close))
    else m.(fields := m.fields[m.currentField := Text(TextOf(m.fields, m.currentField) + part)])
  }

  /** BOUNDARY (corrected as in `Open`): on a rejection the cursor is where
      `readBoundary` stopped. */
  function BoundarySpec(d: seq<byte>, m: Machine): (Machine, bool)
  {
    if |d| < 2 then (m, true)
    else
      match Open(m.bytes, d)
      case Opened(rest) => (m.(bytes := rest, i := 0, state := TypeKv), false)
      case Await(c) => (m.(i := c), true)
      case Malformed =>
        (m.(i := MatchLength(m.bytes, d[2..], 0), result := Some(Result(Some(FormDataFormatError), map[]))), true)
  }

  /** A part begins with the header block `part`, and `rest` is what
      follows the block. */
  function BeginSpec(m: Machine, part: Part, rest: seq<byte>): Machine
  {
    var f := part.file;
    m.(bytes := rest, i := 0,
       fields := m.fields[part.key := if f.Some? then FileRef(f.value) else Text([])],
       currentField := part.key,
       currentFilename := if f.Some? then f.value else m.currentFilename,
       sinks := if f.Some? then m.sinks + [Sink(f.value, [], false)] else m.sinks,
       fileOpen := if f.Some? then true else m.fileOpen,
       state := Data)
  }

  /** TYPE_KV: wait while the header block gives no pairs. */
  function TypeKvSpec(m: Machine): (Machine, bool)
  {
    var blk := KvsFrom(m.bytes, 0, []);
    if blk.items == [] then (m.(i := 0), true)
    else (BeginSpec(m, PartOf(blk.items), m.bytes[blk.pos..]), false)
  }

  /** DATA with the whole delimiter matched at the cursor. */
  function EndSpec(d: seq<byte>, m: Machine): Machine
  {
    var L, n := |d|, m.i;
    if n < L || |m.bytes| < n then m
    else
      DeliverSpec(m, m.bytes[..n - L], true).(
        boundaryIndex := -1, bytes := m.bytes[n..], i := 0,
        currentFilename := if m.fileOpen then m.currentFilename else [],
        fileOpen := false, currentField := [], state := MaybeEnd)
  }

  /** DATA inside a match attempt (corrected: a mismatch resumes at the
      mismatching byte). */
  function MatchSpec(d: seq<byte>, m: Machine): Machine
  {
    var k := m.boundaryIndex;
    if !(0 <= k < |d| && m.i < |m.bytes|) then m
    else if d[k] != m.bytes[m.i] then m.(i := if k == 0 then m.i + 1 else m.i, boundaryIndex := -1)
    else m.(i := m.i + 1, boundaryIndex := k + 1)
  }

  /** DATA outside a match attempt. */
  function ScanSpec(d: seq<byte>, m: Machine): (Machine, bool)
  {
    var L := |d|;
    if L == 0 || |m.bytes| < m.i then (m, true)
    else if |m.bytes| <= m.i + L - 1 then
      (DeliverSpec(m, m.bytes[..m.i], false).(bytes := m.bytes[m.i..], i := 0), true)
    else if m.bytes[m.i + L - 1] in d then (m.(boundaryIndex := 0), false)
    else (m.(i := m.i + L - 1), false)
  }

  function DataSpec(d: seq<byte>, m: Machine): (Machine, bool)
  {
    if m.boundaryIndex == |d| then (EndSpec(d, m), false)
    else if m.boundaryIndex >= 0 then (MatchSpec(d, m), false)
    else ScanSpec(d, m)
  }

  function MaybeEndSpec(m: Machine): (Machine, bool)
  {
    var b := m.bytes;
    if |b| < 2 then (m, true)
    else if b[0] == CR && b[1] == LF then (m.(state := TypeKv, bytes := b[2..], i := 0), false)
    else if b[0] == HYPHEN && b[1] == HYPHEN then (m.(state := End, bytes := b[2..], i := 0), false)
    else (m.(result := Some(Result(Some(PartDataError), map[]))), true)
  }

  /** One turn of the `while (true)` loop of `onData`: the new values, and
      whether the turn returned to wait for more bytes (or resolved). */
  function StepSpec(d: seq<byte>, m: Machine): (Machine, bool)
  {
    match m.state
    case Boundary => BoundarySpec(d, m)
    case TypeKv => TypeKvSpec(m)
    case Data => DataSpec(d, m)
    case MaybeEnd => MaybeEndSpec(m)
    case End => (m.(result := Some(Result(None, m.fields))), true)
  }

  /** Where one turn can leave the state, the buffer and the result, from
      values whose result is still open. */
  lemma StepSpecStates(d: seq<byte>, m: Machine)
    requires |d| >= 2 && m.result.None?
    ensures var (m1, wait) := StepSpec(d, m);
      && (m.state == TypeKv ==> m1.state == Data || (m1.state == TypeKv && m1.bytes == m.bytes))
      && (m.state == MaybeEnd ==>
            m1.state != Data && m1.state != Boundary && (m1.state == MaybeEnd ==> m1.bytes == m.bytes))
      && (m.state == End ==> m1.state == End)
      && (m.state != Data && m1.state != Data ==> m1.fields == m.fields)
      && (m.state == Boundary ==> (m1.state == Boundary <==> !Occurs(d[2..], m.bytes, 0)))
      && (m1.state == Boundary ==>
            m.state == Boundary && m1.bytes == m.bytes && wait && (m1.result.Some? <==> |d| <= |m1.bytes|))
      && (m1.result.Some? ==>
            && m1.result.value.err != Some(PostDataInvalid)
            && (m1.result.value.err == Some(FormDataFormatError) <==> m1.state == Boundary)
            && (m1.result.value.err == Some(PartDataError) <==> m1.state == MaybeEnd))
      && (m1.result.Some? && m1.state == MaybeEnd ==>
            |m1.bytes| >= 2 && m1.bytes[..2] != [CR, LF] && m1.bytes[..2] != [HYPHEN, HYPHEN])
  {
    match m.state
    case Boundary =>
      assert StepSpec(d, m) == BoundarySpec(d, m);
    case TypeKv =>
      assert StepSpec(d, m) == TypeKvSpec(m);
    case Data =>
      assert StepSpec(d, m) == DataSpec(d, m);
    case MaybeEnd =>
      var b := m.bytes;
      if |b| >= 2 {
        assert b[..2] == [b[0], b[1]];
      }
    case End =>
  }

  /** The order `onData` loops by: bytes held, then how far the match
      attempt has started, then how much of it has matched. */
  function HeldRank(m: Machine): nat { |m.bytes| }
  function StartRank(m: Machine): nat
  {
    var s := AttemptStart(m.i, m.boundaryIndex);
    if 0 <= s <= |m.bytes| then |m.bytes| - s else 0
  }
  function MatchRank(d: seq<byte>, m: Machine): nat
  {
    if m.boundaryIndex <= |d| then |d| - m.boundaryIndex else 0
  }

  predicate Below(d: seq<byte>, m1: Machine, m0: Machine)
  {
    || HeldRank(m1) < HeldRank(m0)
    || (HeldRank(m1) == HeldRank(m0)
        && (StartRank(m1) < StartRank(m0)
            || (StartRank(m1) == StartRank(m0) && MatchRank(d, m1) < MatchRank(d, m0))))
  }

  /** The whole `while (true)` loop of `onData` from the values `m`: turn
      until a turn waits. A turn that made no progress would also stop it;
      `Parser.Turn` proves that never happens. */
  function RunSpec(d: seq<byte>, m: Machine): Machine
    decreases HeldRank(m), StartRank(m), MatchRank(d, m)
  {
    var (m1, wait) := StepSpec(d, m);
    if wait || !Below(d, m1, m) then m1 else RunSpec(d, m1)
  }

  class Parser {
    /** CR LF "--" boundary: what separates the parts. */
    const delimiter: seq<byte>
    /** Bytes received and not yet consumed. */
    var bytes: seq<byte>
    /** Scan cursor into `bytes`. */
    var i: nat
    /** -1, or how many delimiter bytes have matched so far in DATA. */
    var boundaryIndex: int
    var state: State
    var fields: map<seq<byte>, FieldValue>
    var currentField: seq<byte>
    var currentFilename: seq<byte>
    /** `currentFileStream` is set: the last sink is the open one. */
    var fileOpen: bool
    var sinks: seq<Sink>
    /** What the returned promise resolved to, once `done` was called. */
    var result: Option<Result>
    /** How many part header blocks have been read. */
    ghost var parts: nat

    /** The closure's variables as one value. */
    ghost function Snapshot(): Machine
      reads this`bytes, this`i, this`boundaryIndex, this`state, this`fields, this`currentField,
        this`currentFilename, this`fileOpen, this`sinks, this`result
    {
      Machine(bytes, i, boundaryIndex, state, fields, currentField, currentFilename, fileOpen, sinks, result)
    }

    /** In DATA the matched delimiter bytes end at the cursor. */
    ghost predicate MatchSoFar()
      reads this`bytes, this`i, this`boundaryIndex
    {
      && -1 <= boundaryIndex <= |delimiter|
      && (boundaryIndex == -1 ==> i <= |bytes|)
      && (boundaryIndex >= 0 ==>
            && boundaryIndex <= i && i - boundaryIndex + |delimiter| <= |bytes|
            && bytes[i - boundaryIndex .. i] == delimiter[..boundaryIndex])
    }

    /** Where the cursor and the match attempt can be in each state. */
    ghost predicate CursorOk()
      reads this`result, this`state, this`bytes, this`i, this`boundaryIndex
    {
      && i <= |bytes|
      && (state == Boundary && result.None? ==> i == 0)
      && (state == TypeKv || state == MaybeEnd ==> i == 0)
      && (state != Data ==> boundaryIndex == -1)
      && (state == Data ==> MatchSoFar())
    }

    /** The open file stream, the current field and the sinks agree with
        the state: only the last sink can be open, and only in DATA. */
    ghost predicate PartsOk()
      reads this`state, this`fields, this`currentField, this`currentFilename, this`fileOpen, this`sinks
    {
      && (fileOpen ==> state == Data && sinks != [] && !sinks[|sinks| - 1].closed && currentFilename != [])
      && (state == Data && !fileOpen ==> currentField in fields && fields[currentField].Text?)
      && (forall k :: 0 <= k < |sinks| - 1 ==> sinks[k].closed)
      && (!fileOpen && sinks != [] ==> sinks[|sinks| - 1].closed)
    }

    ghost predicate Valid()
      reads this
    {
      && (result.None? ==> WellFormedDelimiter(delimiter))
      && CursorOk()
      && PartsOk()
    }

    /** What the parser waits for when `onData` returns without a result. */
    ghost predicate Starved()
      reads this`state, this`bytes, this`i, this`boundaryIndex
    {
      match state
      case Boundary => |bytes| < |delimiter|
      case TypeKv => KvsFrom(bytes, 0, []).items == []
      case Data => boundaryIndex == -1 && i == 0 && |bytes| < |delimiter|
      case MaybeEnd => |bytes| < 2
      case End => false
    }

    /** `formDataParser(request)` up to attaching the data listener: without
        a boundary the result is POST_DATA_INVALIDE at once. */
    constructor (contentType: Option<seq<byte>>)
      ensures Valid()
      ensures Delimiter(contentType).None? ==> result == Some(Result(Some(PostDataInvalid), map[]))
      ensures Delimiter(contentType).Some? ==>
        && result == None && delimiter == Delimiter(contentType).value
        && state == Boundary && bytes == [] && i == 0
      ensures fields == map[] && sinks == [] && !fileOpen && boundaryIndex == -1 && parts == 0
    {
      var d := Delimiter(contentType);
      delimiter := if d.Some? then d.value else [];
      bytes, i, boundaryIndex, state := [], 0, -1, Boundary;
      fields, currentField, currentFilename := map[], [], [];
      fileOpen, sinks, parts := false, [], 0;
      result := if d.Some? then None else Some(Result(Some(PostDataInvalid), map[]));
    }

    /** BOUNDARY: the body must start with the delimiter without its
        CR LF. A wait restarts the match at offset 0 (the source keeps the
        offset where matching stopped; see OpenAsWritten). */
    method BoundaryStep() returns (wait: bool)
      requires Valid() && result.None? && state == Boundary
      modifies this`bytes, this`i, this`state, this`result
      ensures Valid()
      ensures unchanged(this`fields, this`sinks, this`fileOpen, this`currentField, this`currentFilename, this`boundaryIndex, this`parts)
      ensures var o := Open(old(bytes), delimiter);
        && wait == !o.Opened?
        && (o.Opened? ==> state == TypeKv && bytes == o.rest && i == 0 && result == None)
        && (o.Await? ==> state == Boundary && bytes == old(bytes) && i == o.cursor && result == None)
        && (o.Malformed? ==> state == Boundary && bytes == old(bytes) && result == Some(Result(Some(FormDataFormatError), map[])))
      ensures Suffix(bytes, old(bytes))
      ensures (Snapshot(), wait) == StepSpec(delimiter, old(Snapshot()))
    {
      var bdy;
      bdy, i := ReadBoundary(bytes, delimiter[2..], i);
      if bdy.None? {
        if |bytes| < |delimiter| {
          i := 0;
          return true;
        }
        assert forall k :: 0 <= k < i ==> bytes[k] == bytes[0..i][k];
        MatchLengthStops(bytes, delimiter[2..], 0, i);
        result := Some(Result(Some(FormDataFormatError), map[]));
        return true;
      }
      assert Suffix(bytes[i..], bytes);
      bytes := bytes[i..];
      i := 0;
      state := TypeKv;
      wait := false;
    }

    /** TYPE_KV: a part's header block. */
    method TypeKvStep() returns (wait: bool)
      requires Valid() && result.None? && state == TypeKv
      modifies this
      ensures Valid() && result == None && SinksGrow(old(sinks), sinks)
      ensures var blk := KvsFrom(old(bytes), 0, []);
        && wait == (blk.items == [])
        && (wait ==> state == TypeKv && bytes == old(bytes) && i == 0
                     && unchanged(this`fields, this`sinks, this`fileOpen, this`currentField, this`currentFilename, this`parts))
        && (!wait ==> PartBegun(old(fields), old(sinks), PartOf(blk.items)) && bytes == old(bytes)[blk.pos..]
                      && parts == old(parts) + 1)
      ensures Suffix(bytes, old(bytes))
      ensures (Snapshot(), wait) == StepSpec(delimiter, old(Snapshot()))
    {
      var kv, j := ParseKvs(bytes, i);
      if |kv| == 0 {
        i := 0;
        return true;
      }
      assert Suffix(bytes[j..], bytes);
      BeginPart(PartOf(kv), bytes[j..]);
      wait := false;
    }

    /** The state right after the header block `kv` of a part: DATA at the
        start of the part's bytes, the field registered, and a new open
        sink for a file part. */
    ghost predicate PartBegun(fields0: map<seq<byte>, FieldValue>, sinks0: seq<Sink>, part: Part)
      reads this
    {
      && state == Data && i == 0 && boundaryIndex == -1
      && currentField == part.key
      && fields == fields0[part.key := if part.file.Some? then FileRef(part.file.value) else Text([])]
      && fileOpen == part.file.Some?
      && sinks == sinks0 + (if part.file.Some? then [Sink(part.file.value, [], false)] else [])
    }

    method BeginPart(part: Part, rest: seq<byte>)
      requires Valid() && result.None? && state == TypeKv
      requires part.key != [] && (part.file.Some? ==> part.file.value != [])
      modifies this
      ensures Valid() && result == None && SinksGrow(old(sinks), sinks)
      ensures PartBegun(old(fields), old(sinks), part) && bytes == rest && parts == old(parts) + 1
      ensures Snapshot() == BeginSpec(old(Snapshot()), part, rest)
    {
      bytes, i, state := rest, 0, Data;
      currentField := part.key;
      parts := parts + 1;
      if part.file.Some? {
        fields := fields[part.key := FileRef(part.file.value)];
        currentFilename := part.file.value;
        sinks := sinks + [Sink(part.file.value, [], false)];
        fileOpen := true;
      } else {
        fields := fields[part.key := Text([])];
      }
    }

    /** The bytes of the current part delivered so far: to its open file,
        or to its text field. */
    ghost function PartData(): seq<byte>
      reads this`state, this`fields, this`currentField, this`currentFilename, this`fileOpen, this`sinks
      requires PartsOk() && state == Data
    {
      if fileOpen then sinks[|sinks| - 1].data else fields[currentField].data
    }

    /** The step made progress in the order `onData` loops by: fewer bytes
        held, or the match attempt starts later, or the attempt at the
        same start has matched more delimiter bytes. */
    ghost predicate Advanced(n0: nat, i0: nat, bi0: int)
      reads this`bytes, this`i, this`boundaryIndex
    {
      var s0, s := AttemptStart(i0, bi0), AttemptStart(i, boundaryIndex);
      || |bytes| < n0
      || (|bytes| == n0 && (s0 < s || (s0 == s && bi0 < boundaryIndex)))
    }

    /** The file part written to sink `at` is closed, and its bytes are
        what `held` starts with, up to a delimiter. */
    ghost predicate FileClosed(held: seq<byte>, at: int)
      reads this`sinks
    {
      0 <= at < |sinks| && sinks[at].closed && EndsBefore(delimiter, held, sinks[at].data)
    }

    /** The text field `field` holds what `held` starts with, up to a
        delimiter. */
    ghost predicate TextClosed(held: seq<byte>, field: seq<byte>)
      reads this`fields
    {
      field in fields && fields[field].Text? && EndsBefore(delimiter, held, fields[field].data)
    }

    /** The part that was open, a file written to sink `at` or the text
        field `field`, ended with what `held` starts with up to a delimiter. */
    ghost predicate PartClosed(held: seq<byte>, file: bool, field: seq<byte>, at: int)
      reads this`sinks, this`fields
    {
      && (file ==> FileClosed(held, at))
      && (!file ==> TextClosed(held, field))
    }

    /** DATA with the whole delimiter matched: the part ends before it. */
    method EndPart()
      requires Valid() && result.None? && state == Data && boundaryIndex == |delimiter|
      modifies this`bytes, this`i, this`boundaryIndex, this`sinks, this`fields, this`currentFilename,
        this`fileOpen, this`currentField, this`state
      ensures Valid() && result == None && SinksGrow(old(sinks), sinks) && parts == old(parts)
      ensures var L, b, n := |delimiter|, old(bytes), old(i);
        && L <= n && Occurs(delimiter, b, n - L)
        && state == MaybeEnd && bytes == b[n..] && i == 0 && boundaryIndex == -1
        && currentField == [] && !fileOpen
        && (old(fileOpen) ==>
              && sinks == WriteLast(old(sinks), b[..n - L], true) && fields == old(fields)
              && sinks[|sinks| - 1].data == old(PartData()) + b[..n - L])
        && (!old(fileOpen) ==>
              && sinks == old(sinks) && currentFilename == []
              && fields == old(fields)[old(currentField) := Text(old(PartData()) + b[..n - L])])
      ensures Snapshot() == EndSpec(delimiter, old(Snapshot()))
    {
      var L := |delimiter|;
      assert delimiter[..L] == delimiter;
      Deliver(bytes[..i - L], true);
      Leave();
    }

    /** The delimiter that ended the part is cut off with what came before
        it, and no part is open any more. */
    method Leave()
      requires i <= |bytes|
      modifies this`bytes, this`i, this`boundaryIndex, this`currentFilename, this`fileOpen,
        this`currentField, this`state
      ensures Snapshot() == old(Snapshot()).(boundaryIndex := -1, bytes := old(bytes[i..]), i := 0,
        currentFilename := if old(fileOpen) then old(currentFilename) else [],
        fileOpen := false, currentField := [], state := MaybeEnd)
    {
      boundaryIndex := -1;
      bytes := bytes[i..];
      i := 0;
      if !fileOpen {
        currentFilename := [];
      }
      fileOpen := false;
      currentField := [];
      state := MaybeEnd;
    }

    /** Hand `part` to the current part: append it to the open file, and
        close the file when `close`, or append it to the text field. */
    method Deliver(part: seq<byte>, close: bool)
      requires Valid() && result.None? && state == Data
      modifies this`sinks, this`fields
      ensures SinksGrow(old(sinks), sinks)
      ensures forall k :: 0 <= k < |sinks| - 1 ==> sinks[k].closed
      ensures fileOpen ==>
        && sinks == WriteLast(old(sinks), part, close) && fields == old(fields)
        && sinks[|sinks| - 1].data == old(PartData()) + part && sinks[|sinks| - 1].closed == close
      ensures !fileOpen ==>
        && sinks == old(sinks) && fields == old(fields)[currentField := Text(old(PartData()) + part)]
      ensures Snapshot() == DeliverSpec(old(Snapshot()), part, close)
    {
      if fileOpen {
        WriteLastGrows(sinks, part, close);
        sinks := WriteLast(sinks, part, close);
      } else {
        fields := fields[currentField := Text(fields[currentField].data + part)];
      }
    }

    /** DATA inside a match attempt: compare one more delimiter byte. On a
        mismatch the attempt is dropped and the scan resumes AT the
        mismatching byte, which may itself start a delimiter; only a
        mismatch on the first byte moves past it. No delimiter starts
        between the attempt's start and the new cursor. */
    method MatchStep()
      requires Valid() && result.None? && state == Data && 0 <= boundaryIndex < |delimiter|
      modifies this`i, this`boundaryIndex
      ensures Valid() && Advanced(|bytes|, old(i), old(boundaryIndex))
      ensures var b, n, k := bytes, old(i), old(boundaryIndex);
        && n < |b|
        && (b[n] == delimiter[k] ==> i == n + 1 && boundaryIndex == k + 1)
        && (b[n] != delimiter[k] ==>
              && boundaryIndex == -1 && i == (if k == 0 then n + 1 else n)
              && forall more: seq<byte>, s: nat :: n - k <= s < i ==> !Occurs(delimiter, b + more, s))
      ensures Snapshot() == MatchSpec(delimiter, old(Snapshot()))
    {
      ghost var n, k := i, boundaryIndex;
      Compare();
      if bytes[n] != delimiter[k] {
        MismatchSkipsNoDelimiter(delimiter, bytes, n, k);
      } else {
        MatchExtends(delimiter, bytes, n, k);
      }
    }

    /** Compare the byte at the cursor with the next delimiter byte. */
    method Compare()
      requires Valid() && result.None? && state == Data && 0 <= boundaryIndex < |delimiter|
      modifies this`i, this`boundaryIndex
      ensures var b, n, k := bytes, old(i), old(boundaryIndex);
        && n < |b|
        && (b[n] == delimiter[k] ==> i == n + 1 && boundaryIndex == k + 1)
        && (b[n] != delimiter[k] ==> boundaryIndex == -1 && i == (if k == 0 then n + 1 else n))
      ensures Snapshot() == MatchSpec(delimiter, old(Snapshot()))
    {
      var k := boundaryIndex;
      if delimiter[k] != bytes[i] {
        if k == 0 {
          i := i + 1;
        }
        boundaryIndex := -1;
      } else {
        i := i + 1;
        boundaryIndex := k + 1;
      }
    }

    /** DATA outside a match attempt: look at the last byte a delimiter
        starting at the cursor would cover. Too few bytes: hand what lies
        before the cursor to the part and wait for more. */
    method ScanStep() returns (wait: bool)
      requires Valid() && result.None? && state == Data && boundaryIndex == -1
      modifies this
      ensures Valid() && result == None && state == Data && SinksGrow(old(sinks), sinks)
      ensures PartData() + bytes == old(PartData() + bytes)
      ensures unchanged(this`fileOpen, this`currentField, this`currentFilename, this`parts)
      ensures |sinks| == |old(sinks)| && Suffix(bytes, old(bytes)) && old(fields).Keys <= fields.Keys
      ensures wait ==> Starved()
      ensures var b, n, L := old(bytes), old(i), |delimiter|;
        && wait == (|b| <= n + L - 1)
        && (wait ==>
              && bytes == b[n..] && i == 0 && boundaryIndex == -1
              && (fileOpen ==> sinks == WriteLast(old(sinks), b[..n], false) && fields == old(fields))
              && (!fileOpen ==> sinks == old(sinks) && fields == old(fields)[currentField := Text(old(PartData()) + b[..n])]))
        && (!wait ==>
              && bytes == b && fields == old(fields) && sinks == old(sinks) && Advanced(|b|, n, -1)
              && (b[n + L - 1] in delimiter ==> i == n && boundaryIndex == 0)
              && (b[n + L - 1] !in delimiter ==>
                    && i == n + L - 1 && boundaryIndex == -1
                    && forall more: seq<byte>, s: nat :: n <= s < n + L - 1 ==> !Occurs(delimiter, b + more, s)))
      ensures (Snapshot(), wait) == ScanSpec(delimiter, old(Snapshot()))
    {
      if |bytes| <= i + |delimiter| - 1 {
        assert Suffix(bytes[i..], bytes);
        Flush();
        return true;
      }
      Probe();
      assert bytes[0..] == bytes;
      wait := false;
    }

    /** The last byte a delimiter starting at the cursor would cover is
        there: if it is a delimiter byte a match attempt starts at the
        cursor, otherwise no delimiter starts before that byte. */
    method Probe()
      requires Valid() && result.None? && state == Data && boundaryIndex == -1
      requires i + |delimiter| - 1 < |bytes|
      modifies this`i, this`boundaryIndex
      ensures Valid() && Advanced(|bytes|, old(i), -1)
      ensures var b, n, L := bytes, old(i), |delimiter|;
        && (b[n + L - 1] in delimiter ==> i == n && boundaryIndex == 0)
        && (b[n + L - 1] !in delimiter ==>
              && i == n + L - 1 && boundaryIndex == -1
              && forall more: seq<byte>, s: nat :: n <= s < n + L - 1 ==> !Occurs(delimiter, b + more, s))
      ensures (Snapshot(), false) == ScanSpec(delimiter, old(Snapshot()))
    {
      var L := |delimiter|;
      if bytes[i + L - 1] in delimiter {
        boundaryIndex := 0;
        return;
      }
      SkipPassesNoDelimiter(delimiter, bytes, i);
      i := i + L - 1;
    }

    /** Too few bytes for a delimiter at the cursor: the bytes before it
        go to the current part and the rest is kept for the next chunk. */
    method Flush()
      requires Valid() && result.None? && state == Data && boundaryIndex == -1
      modifies this`bytes, this`i, this`sinks, this`fields
      ensures Valid() && SinksGrow(old(sinks), sinks)
      ensures PartData() + bytes == old(PartData() + bytes)
      ensures bytes == old(bytes[i..]) && i == 0
      ensures fileOpen ==> sinks == WriteLast(old(sinks), old(bytes[..i]), false) && fields == old(fields)
      ensures !fileOpen ==> sinks == old(sinks) && fields == old(fields)[currentField := Text(old(PartData()) + old(bytes[..i]))]
      ensures Snapshot() == DeliverSpec(old(Snapshot()), old(bytes[..i]), false).(bytes := old(bytes[i..]), i := 0)
    {
      ghost var before := PartData();
      assert before + bytes == (before + bytes[..i]) + bytes[i..];
      Deliver(bytes[..i], false);
      bytes := bytes[i..];
      i := 0;
    }

    /** MAYBE_END: CR LF starts another part, "--" ends the body, anything
        else is an error. */
    method MaybeEndStep() returns (wait: bool)
      requires Valid() && result.None? && state == MaybeEnd
      modifies this
      ensures Valid() && unchanged(this`fields, this`sinks, this`fileOpen, this`currentField, this`currentFilename, this`parts)
      ensures var b := old(bytes);
        && (|b| < 2 ==> wait && state == MaybeEnd && bytes == b && result == None)
        && (|b| >= 2 && b[..2] == [CR, LF] ==> !wait && state == TypeKv && bytes == b[2..] && result == None)
        && (|b| >= 2 && b[..2] == [HYPHEN, HYPHEN] ==> !wait && state == End && bytes == b[2..] && result == None)
        && (|b| >= 2 && b[..2] != [CR, LF] && b[..2] != [HYPHEN, HYPHEN] ==>
              wait && state == MaybeEnd && bytes == b && result == Some(Result(Some(PartDataError), map[])))
      ensures !wait ==> Advanced(old(|bytes|), old(i), old(boundaryIndex))
      ensures Suffix(bytes, old(bytes))
      ensures (Snapshot(), wait) == StepSpec(delimiter, old(Snapshot()))
    {
      if |bytes| < 2 {
        return true;
      }
      if bytes[0] == CR && bytes[1] == LF {
        state := TypeKv;
      } else if bytes[0] == HYPHEN && bytes[1] == HYPHEN {
        state := End;
      } else {
        result := Some(Result(Some(PartDataError), map[]));
        return true;
      }
      bytes := bytes[2..];
      i := 0;
      wait := false;
    }

    /** DATA: end the part at a whole delimiter, compare one more byte of a
        match attempt, or scan ahead. Bytes leave the front of the buffer
        only for the current part, or with the part's end. */
    method DataStep() returns (wait: bool)
      requires Valid() && result.None? && state == Data
      modifies this
      ensures Valid() && result == None && SinksGrow(old(sinks), sinks) && parts == old(parts)
      ensures !wait ==> Advanced(old(|bytes|), old(i), old(boundaryIndex))
      ensures wait ==> Starved()
      ensures Suffix(bytes, old(bytes)) && old(fields).Keys <= fields.Keys
      ensures state == Data || state == MaybeEnd
      ensures state == Data ==> PartData() + bytes == old(PartData() + bytes)
      ensures state == Data ==> fileOpen == old(fileOpen) && currentField == old(currentField) && |sinks| == |old(sinks)|
      ensures state == MaybeEnd ==>
        |sinks| == |old(sinks)| && PartClosed(old(PartData() + bytes), old(fileOpen), old(currentField), |sinks| - 1)
      ensures (Snapshot(), wait) == DataSpec(delimiter, old(Snapshot()))
    {
      if boundaryIndex == |delimiter| {
        EndsAtDelimiter(delimiter, PartData(), bytes, i - |delimiter|);
        EndPart();
        wait := false;
      } else {
        wait := Advance();
      }
    }

    /** DATA before a whole delimiter matched: compare one more byte of a
        match attempt, or scan ahead. The part stays open, and its bytes
        and the buffer are kept together. */
    method Advance() returns (wait: bool)
      requires Valid() && result.None? && state == Data && boundaryIndex < |delimiter|
      modifies this
      ensures Valid() && result == None && state == Data && SinksGrow(old(sinks), sinks)
      ensures unchanged(this`fileOpen, this`currentField, this`parts) && |sinks| == |old(sinks)|
      ensures !wait ==> Advanced(old(|bytes|), old(i), old(boundaryIndex))
      ensures wait ==> Starved()
      ensures Suffix(bytes, old(bytes)) && old(fields).Keys <= fields.Keys
      ensures PartData() + bytes == old(PartData() + bytes)
      ensures (Snapshot(), wait) == DataSpec(delimiter, old(Snapshot()))
    {
      if boundaryIndex >= 0 {
        MatchStep();
        assert bytes[0..] == bytes;
        wait := false;
      } else {
        wait := ScanStep();
      }
    }

    /** One turn of the `onData` loop. Bytes only leave the front of the
        buffer; within a DATA part they leave it for the part. */
    method Step() returns (wait: bool)
      requires Valid() && result.None?
      modifies this
      ensures Valid() && SinksGrow(old(sinks), sinks)
      ensures !wait ==> result == None && Advanced(old(|bytes|), old(i), old(boundaryIndex))
      ensures wait && result == None ==> Starved()
      ensures result.Some? ==> Finished()
      ensures Suffix(bytes, old(bytes)) && old(fields).Keys <= fields.Keys
      ensures old(parts) <= parts && (old(state) != Data && state == Data ==> parts == old(parts) + 1)
      ensures old(state) == Data && state == Data ==>
        && parts == old(parts) && PartData() + bytes == old(PartData() + bytes)
        && fileOpen == old(fileOpen) && currentField == old(currentField) && |sinks| == |old(sinks)|
      ensures old(state) == Data && state != Data ==>
        |sinks| == |old(sinks)| && PartClosed(old(PartData() + bytes), old(fileOpen), old(currentField), |sinks| - 1)
      ensures old(state) != Data && state != Data ==> fields == old(fields)
      ensures old(state) == TypeKv ==> state == Data || (state == TypeKv && bytes == old(bytes))
      ensures old(state) == MaybeEnd ==>
        state != Data && state != Boundary && (state == MaybeEnd ==> bytes == old(bytes))
      ensures old(state) == End ==> state == End
      ensures old(state) == Boundary ==> (state == Boundary <==> !Occurs(delimiter[2..], old(bytes), 0))
      ensures state == Boundary ==>
        old(state) == Boundary && bytes == old(bytes) && wait && (result.Some? <==> |delimiter| <= |bytes|)
      ensures result.Some? ==>
        && result.value.err != Some(PostDataInvalid)
        && (result.value.err == Some(FormDataFormatError) <==> state == Boundary)
        && (result.value.err == Some(PartDataError) <==> state == MaybeEnd)
      ensures result.Some? && state == MaybeEnd ==>
        |bytes| >= 2 && bytes[..2] != [CR, LF] && bytes[..2] != [HYPHEN, HYPHEN]
      ensures (Snapshot(), wait) == StepSpec(delimiter, old(Snapshot()))
    {
      if state == Data {
        wait := DataStep();
      } else {
        ghost var m := Snapshot();
        wait := OtherStep();
        StepSpecStates(delimiter, m);
      }
    }

    /** A turn of the `onData` loop outside DATA. */
    method OtherStep() returns (wait: bool)
      requires Valid() && result.None? && state != Data
      modifies this
      ensures Valid() && SinksGrow(old(sinks), sinks)
      ensures !wait ==> result == None && Advanced(old(|bytes|), old(i), old(boundaryIndex))
      ensures wait && result == None ==> Starved()
      ensures result.Some? ==> Finished()
      ensures Suffix(bytes, old(bytes)) && old(fields).Keys <= fields.Keys
      ensures old(parts) <= parts && (state == Data ==> parts == old(parts) + 1)
      ensures (Snapshot(), wait) == StepSpec(delimiter, old(Snapshot()))
    {
      if state == Boundary {
        wait := BoundaryStep();
      } else {
        wait := EdgeStep();
      }
    }

    /** A turn in TYPE_KV, MAYBE_END or END, the states at the edges of a
        part. */
    method EdgeStep() returns (wait: bool)
      requires Valid() && result.None? && (state == TypeKv || state == MaybeEnd || state == End)
      modifies this
      ensures Valid() && SinksGrow(old(sinks), sinks)
      ensures !wait ==> result == None && Advanced(old(|bytes|), old(i), old(boundaryIndex))
      ensures wait && result == None ==> Starved()
      ensures result.Some? ==> Finished()
      ensures Suffix(bytes, old(bytes)) && old(fields).Keys <= fields.Keys
      ensures old(parts) <= parts && (state == Data ==> parts == old(parts) + 1)
      ensures (Snapshot(), wait) == StepSpec(delimiter, old(Snapshot()))
    {
      match state
      case TypeKv =>
        wait := TypeKvStep();
      case MaybeEnd =>
        wait := MaybeEndStep();
      case End =>
        wait := EndStep();
    }

    /** END: resolve with the fields collected. */
    method EndStep() returns (wait: bool)
      requires Valid() && result.None? && state == End
      modifies this`result
      ensures Valid() && wait && result == Some(Result(None, fields)) && Finished()
      ensures (Snapshot(), wait) == StepSpec(delimiter, old(Snapshot()))
    {
      result := Some(Result(None, fields));
      wait := true;
    }

    /** A resolved result is an error without fields, or success with the
        fields collected in the END state. */
    ghost predicate Finished()
      reads this
      requires result.Some?
    {
      if result.value.err.Some? then result.value.fields == map[]
      else state == End && result.value.fields == fields
    }

    /** What an `onData` call keeps while it runs: `input` is the buffer it
        started from with the chunk appended, and state0, parts0, keys0 and
        sinks0 what the parser had before, file0 and field0 its open file
        and current field. Bytes only leave the front of `input`; while the
        DATA part it began in goes on, the part's bytes and the buffer make
        up `held`, and once that part ended its bytes are what `held` starts
        with up to a delimiter (for a text field, until another part
        begins); TYPE_KV and MAYBE_END keep the buffer until they move on;
        before the opening boundary matched nothing leaves the buffer. */
    ghost predicate Tracks(input: seq<byte>, held: seq<byte>, state0: State, parts0: nat,
                           keys0: set<seq<byte>>, sinks0: seq<Sink>, file0: bool, field0: seq<byte>)
      reads this
    {
      && SinksGrow(sinks0, sinks) && Suffix(bytes, input) && keys0 <= fields.Keys && parts0 <= parts
      && (state0 == Data && state == Data && parts == parts0 && PartsOk() ==> PartData() + bytes == held)
      && (state0 == Data && state == Data && parts == parts0 ==>
            fileOpen == file0 && currentField == field0 && |sinks| == |sinks0|)
      && (state0 == Data && !(state == Data && parts == parts0) ==>
            && (file0 ==> 0 < |sinks0| && FileClosed(held, |sinks0| - 1))
            && (!file0 && parts == parts0 ==> TextClosed(held, field0)))
      && (state0 == TypeKv && parts == parts0 ==> state == TypeKv && bytes == input)
      && (state0 == MaybeEnd && parts == parts0 ==>
            state != Data && state != Boundary && (state == MaybeEnd ==> bytes == input))
      && (state == Boundary ==> state0 == Boundary && bytes == input)
      && (state0 == Boundary && |delimiter| >= 2 && !Occurs(delimiter[2..], input, 0) ==> state == Boundary)
    }

    /** One turn of the `onData` loop, keeping what the call tracks. */
    method Turn(ghost input: seq<byte>, ghost held: seq<byte>, ghost state0: State, ghost parts0: nat,
                ghost keys0: set<seq<byte>>, ghost sinks0: seq<Sink>, ghost file0: bool, ghost field0: seq<byte>)
      returns (wait: bool)
      requires Valid() && result.None? && Tracks(input, held, state0, parts0, keys0, sinks0, file0, field0)
      modifies this
      ensures Valid() && Tracks(input, held, state0, parts0, keys0, sinks0, file0, field0)
      ensures wait ==>
        && SinksGrow(sinks0, sinks) && Suffix(bytes, input) && keys0 <= fields.Keys && parts0 <= parts
        && (state0 == Data && state == Data && parts == parts0 ==> PartData() + bytes == held)
        && (state == Boundary ==> state0 == Boundary && bytes == input)
      ensures !wait ==> result == None && Advanced(old(|bytes|), old(i), old(boundaryIndex))
      ensures wait && result == None ==> Starved()
      ensures result.Some? ==> Finished()
      ensures wait && state0 == Boundary ==> (state == Boundary <==> !Occurs(delimiter[2..], input, 0))
      ensures wait && state == Boundary ==> (result.Some? <==> |delimiter| <= |bytes|)
      ensures result.Some? ==>
        && result.value.err != Some(PostDataInvalid)
        && (result.value.err == Some(FormDataFormatError) <==> state == Boundary)
        && (result.value.err == Some(PartDataError) <==> state == MaybeEnd)
      ensures result.Some? && state == MaybeEnd ==>
        |bytes| >= 2 && bytes[..2] != [CR, LF] && bytes[..2] != [HYPHEN, HYPHEN]
      ensures (Snapshot(), wait) == StepSpec(delimiter, old(Snapshot()))
      ensures !wait ==> Below(delimiter, Snapshot(), old(Snapshot()))
    {
      ghost var sinks1, bytes1 := sinks, bytes;
      wait := Step();
      SinksGrowTransitive(sinks0, sinks1, sinks);
      SuffixTransitive(bytes, bytes1, input);
    }

    /** In DATA, the bytes the current part has had, then the buffer and
        `chunk`: what the part is made of up to the next delimiter. */
    ghost function PartBytes(chunk: seq<byte>): seq<byte>
      reads this`state, this`fields, this`currentField, this`currentFilename, this`fileOpen, this`sinks, this`bytes
      requires PartsOk()
    {
      if state == Data then PartData() + bytes + chunk else []
    }

    /** `onData(chunk)`: append the chunk and run the state machine until it
        waits for more bytes or resolves the result. The buffer left is what
        remains of the old buffer and the chunk once bytes were cut off its
        front; while the same DATA part goes on, every byte of the chunk
        reaches the part or is still held, in order, and once it ended the
        part holds what was held up to a delimiter. TYPE_KV and MAYBE_END
        keep the whole chunk until they move on. Before the opening
        boundary matched nothing is cut off, and the body is rejected exactly
        when it is long enough and does not start with the boundary. */
    method OnData(chunk: seq<byte>)
      requires Valid() && result.None?
      modifies this
      ensures Valid() && SinksGrow(old(sinks), sinks)
      ensures result.None? ==> Starved()
      ensures result.Some? ==> Finished()
      ensures Suffix(bytes, old(bytes) + chunk) && old(fields).Keys <= fields.Keys && old(parts) <= parts
      ensures old(state) == Data && state == Data && parts == old(parts) ==>
        PartData() + bytes == old(PartBytes(chunk))
      ensures old(state) == Data && !(state == Data && parts == old(parts)) ==>
        && (old(fileOpen) ==> FileClosed(old(PartBytes(chunk)), |old(sinks)| - 1))
        && (!old(fileOpen) && parts == old(parts) ==> TextClosed(old(PartBytes(chunk)), old(currentField)))
      ensures old(state) == TypeKv && parts == old(parts) ==> state == TypeKv && bytes == old(bytes) + chunk
      ensures old(state) == MaybeEnd && state == MaybeEnd && parts == old(parts) ==> bytes == old(bytes) + chunk
      ensures old(state) == Boundary ==> (state == Boundary <==> !Occurs(delimiter[2..], old(bytes) + chunk, 0))
      ensures state == Boundary ==>
        old(state) == Boundary && bytes == old(bytes) + chunk && (result.Some? <==> |delimiter| <= |bytes|)
      ensures result.Some? ==>
        && result.value.err != Some(PostDataInvalid)
        && (result.value.err == Some(FormDataFormatError) <==> state == Boundary)
        && (result.value.err == Some(PartDataError) <==> state == MaybeEnd)
      ensures result.Some? && state == MaybeEnd ==>
        |bytes| >= 2 && bytes[..2] != [CR, LF] && bytes[..2] != [HYPHEN, HYPHEN]
      ensures Snapshot() == RunSpec(delimiter, old(Snapshot()).(bytes := old(bytes) + chunk))
    {
      ghost var input := bytes + chunk;
      ghost var held := PartBytes(chunk);
      assert state == Data ==> PartData() + (bytes + chunk) == held;
      bytes := bytes + chunk;
      assert Snapshot() == old(Snapshot()).(bytes := input);
      Run(input, held, old(state), old(parts), old(fields).Keys, old(sinks), old(fileOpen), old(currentField));
    }

    /** The `while (true)` loop of `onData`: turn until the parser waits. */
    method Run(ghost input: seq<byte>, ghost held: seq<byte>, ghost state0: State, ghost parts0: nat,
               ghost keys0: set<seq<byte>>, ghost sinks0: seq<Sink>, ghost file0: bool, ghost field0: seq<byte>)
      requires Valid() && result.None?
      requires bytes == input && state == state0 && parts == parts0 && fields.Keys == keys0 && sinks == sinks0
      requires fileOpen == file0 && currentField == field0 && (state == Data ==> PartData() + bytes == held)
      modifies this
      ensures Valid()
      ensures SinksGrow(sinks0, sinks) && Suffix(bytes, input) && keys0 <= fields.Keys && parts0 <= parts
      ensures state0 == Data && state == Data && parts == parts0 ==> PartData() + bytes == held
      ensures state == Boundary ==> state0 == Boundary && bytes == input
      ensures state0 == Data && !(state == Data && parts == parts0) ==>
        && (file0 ==> 0 < |sinks0| && FileClosed(held, |sinks0| - 1))
        && (!file0 && parts == parts0 ==> TextClosed(held, field0))
      ensures state0 == TypeKv && parts == parts0 ==> state == TypeKv && bytes == input
      ensures state0 == MaybeEnd && state == MaybeEnd && parts == parts0 ==> bytes == input
      ensures result.None? ==> Starved()
      ensures result.Some? ==> Finished()
      ensures state0 == Boundary ==> (state == Boundary <==> !Occurs(delimiter[2..], input, 0))
      ensures state == Boundary ==> (result.Some? <==> |delimiter| <= |bytes|)
      ensures result.Some? ==>
        && result.value.err != Some(PostDataInvalid)
        && (result.value.err == Some(FormDataFormatError) <==> state == Boundary)
        && (result.value.err == Some(PartDataError) <==> state == MaybeEnd)
      ensures result.Some? && state == MaybeEnd ==>
        |bytes| >= 2 && bytes[..2] != [CR, LF] && bytes[..2] != [HYPHEN, HYPHEN]
      ensures Snapshot() == RunSpec(delimiter, old(Snapshot()))
    {
      assert Tracks(input, held, state0, parts0, keys0, sinks0, file0, field0);
      ghost var m0 := Snapshot();
      while true
        invariant Valid() && result.None? && Tracks(input, held, state0, parts0, keys0, sinks0, file0, field0)
        invariant RunSpec(delimiter, Snapshot()) == RunSpec(delimiter, m0)
        decreases |bytes|, |bytes| - AttemptStart(i, boundaryIndex), |delimiter| - boundaryIndex
      {
        ghost var m := Snapshot();
        var wait := Turn(input, held, state0, parts0, keys0, sinks0, file0, field0);
        if wait {
          assert RunSpec(delimiter, m) == Snapshot();
          return;
        }
        assert RunSpec(delimiter, m) == RunSpec(delimiter, Snapshot());
      }
    }  }
}
