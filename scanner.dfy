/** Byte scanner of the upload server: cursor functions over a byte buffer
    that read tokens up to a stop byte, collect a header block up to
    CR LF CR LF, read the request line and match a fixed byte sequence.
    Every offset is a `nat`; an offset at or past the end of the buffer is
    how the source says "not found / need more data". */
module Scanner {

  /** A byte as the source sees it: the number a Buffer index yields. */
  type byte = b: int | 0 <= b < 256

  const SPACE: byte := 0x20
  const LF: byte := 0x0a
  const CR: byte := 0x0d
  const COLON: byte := 0x3a
  const HYPHEN: byte := 0x2d

  datatype Option<T> = None | Some(value: T)

  function Max(a: nat, b: nat): nat { if a < b then b else a }

  /** The bytes `read` skips while its token is still empty. */
  predicate IsBlank(b: byte)
  {
    b == SPACE || b == LF || b == CR
  }

  /** The first offset at or after `i` that does not hold a blank byte
      (the end of the buffer if there is none). */
  function SkipBlanks(bytes: seq<byte>, i: nat): (k: nat)
    ensures i <= k
    ensures k <= |bytes| || k == i
    ensures k < |bytes| ==> !IsBlank(bytes[k])
    decreases |bytes| - i
  {
    if i >= |bytes| || !IsBlank(bytes[i]) then i else SkipBlanks(bytes, i + 1)
  }

  /** Every byte `SkipBlanks` passes over is blank. */
  lemma {:induction false} SkipBlanksPassesBlanks(bytes: seq<byte>, i: nat, m: nat)
    requires i <= m < SkipBlanks(bytes, i)
    ensures m < |bytes| && IsBlank(bytes[m])
    decreases |bytes| - i
  {
    if m > i {
      SkipBlanksPassesBlanks(bytes, i + 1, m);
    }
  }

  /** An offset that follows only blanks and holds a non-blank byte (or is
      the end) is where `SkipBlanks` stops. */
  lemma {:induction false} SkipBlanksStopsAt(bytes: seq<byte>, i: nat, k: nat)
    requires i <= k <= |bytes|
    requires forall m :: i <= m < k ==> IsBlank(bytes[m])
    requires k < |bytes| ==> !IsBlank(bytes[k])
    ensures SkipBlanks(bytes, i) == k
    decreases k - i
  {
    if i < k {
      SkipBlanksStopsAt(bytes, i + 1, k);
    }
  }

  /** The first offset at or after `k` holding `stop`
      (the end of the buffer if there is none). */
  function FindByte(bytes: seq<byte>, stop: byte, k: nat): (j: nat)
    ensures k <= j
    ensures j <= |bytes| || j == k
    ensures j < |bytes| ==> bytes[j] == stop
    decreases |bytes| - k
  {
    if k >= |bytes| || bytes[k] == stop then k else FindByte(bytes, stop, k + 1)
  }

  /** `FindByte` passes over no occurrence of `stop`. */
  lemma {:induction false} FindBytePassesOthers(bytes: seq<byte>, stop: byte, k: nat)
    requires FindByte(bytes, stop, k) <= |bytes|
    ensures stop !in bytes[k..FindByte(bytes, stop, k)]
    decreases |bytes| - k
  {
    var j := FindByte(bytes, stop, k);
    if k < j {
      FindBytePassesOthers(bytes, stop, k + 1);
      assert bytes[k..j] == [bytes[k]] + bytes[k + 1..j];
    }
  }

  /** An offset that follows no `stop` and holds `stop` (or is the end) is
      where `FindByte` stops. */
  lemma {:induction false} FindByteStopsAt(bytes: seq<byte>, stop: byte, k: nat, j: nat)
    requires k <= j <= |bytes|
    requires forall m :: k <= m < j ==> bytes[m] != stop
    requires j < |bytes| ==> bytes[j] == stop
    ensures FindByte(bytes, stop, k) == j
    decreases j - k
  {
    if k < j {
      FindByteStopsAt(bytes, stop, k + 1, j);
    }
  }

  /** A token and the offset at which reading stopped. */
  datatype Scan = Scan(token: seq<byte>, pos: nat)

  /** What `read(bytes, stop, i)` returns: blanks are skipped while the token
      is empty, then every byte up to `stop` belongs to the token; when the
      buffer ends first the token is empty and the offset is the end. */
  function ReadSpec(bytes: seq<byte>, stop: byte, i: nat): (r: Scan)
    ensures i <= r.pos
    ensures r.pos >= |bytes| ==> r.token == [] && r.pos == Max(i, |bytes|)
  {
    var k := SkipBlanks(bytes, i);
    var j := FindByte(bytes, stop, k);
    if j < |bytes| then Scan(bytes[k..j], j) else Scan([], j)
  }

  /** When `read` finds `stop`, its token is the run of bytes right before
      it, holds no `stop` and does not start with a blank; a blank stop byte
      therefore never yields an empty token. */
  lemma ReadFound(bytes: seq<byte>, stop: byte, i: nat)
    ensures var r := ReadSpec(bytes, stop, i);
      r.pos < |bytes| ==>
        && i <= r.pos - |r.token|
        && bytes[r.pos] == stop
        && r.token == bytes[r.pos - |r.token| .. r.pos]
        && stop !in r.token
        && (r.token != [] ==> !IsBlank(r.token[0]))
        && (IsBlank(stop) ==> r.token != [])
  {
    var k := SkipBlanks(bytes, i);
    if FindByte(bytes, stop, k) < |bytes| {
      FindBytePassesOthers(bytes, stop, k);
    }
  }

  /** Everything `read` passes over before its token is blank. */
  lemma ReadSkipsBlanks(bytes: seq<byte>, stop: byte, i: nat, m: nat)
    requires ReadSpec(bytes, stop, i).pos < |bytes|
    requires i <= m < ReadSpec(bytes, stop, i).pos - |ReadSpec(bytes, stop, i).token|
    ensures IsBlank(bytes[m])
  {
    SkipBlanksPassesBlanks(bytes, i, m);
  }

  /** `read` (tool.js): the loop that grows the token byte by byte. */
  method Read(bytes: seq<byte>, stop: byte, start: nat) returns (res: seq<byte>, i: nat)
    ensures Scan(res, i) == ReadSpec(bytes, stop, start)
  {
    res, i := [], start;
    while i < |bytes|
      invariant start <= i
      invariant i <= |bytes| || i == start
      invariant res == [] ==> forall m :: start <= m < i ==> IsBlank(bytes[m])
      invariant res != [] ==>
        && SkipBlanks(bytes, start) < i
        && res == bytes[SkipBlanks(bytes, start)..i]
        && forall m :: SkipBlanks(bytes, start) <= m < i ==> bytes[m] != stop
      decreases |bytes| - i
    {
      if IsBlank(bytes[i]) && res == [] {
        i := i + 1;
        continue;
      }
      if res == [] {
        SkipBlanksStopsAt(bytes, start, i);
      }
      var k := SkipBlanks(bytes, start);
      if bytes[i] == stop {
        FindByteStopsAt(bytes, stop, k, i);
        return;
      }
      assert bytes[k..i + 1] == bytes[k..i] + [bytes[i]];
      res := res + [bytes[i]];
      i := i + 1;
    }
    if res == [] && start <= |bytes| {
      SkipBlanksStopsAt(bytes, start, i);
    } else if res != [] {
      FindByteStopsAt(bytes, stop, SkipBlanks(bytes, start), i);
    }
    res := [];
  }

  /** A list of tokens and the offset reached, as the source's `[tokens, i]`. */
  datatype Tokens = Tokens(items: seq<seq<byte>>, pos: nat)

  /** `Keyv` (tool.js): a key up to ':' and, one byte past where that read
      stopped, a value up to CR. It always moves the cursor forward. */
  function Keyv(bytes: seq<byte>, i: nat): (r: Tokens)
    ensures |r.items| == 2
    ensures i < r.pos
    ensures r.pos < |bytes| ==> bytes[r.pos] == CR && CR !in r.items[1]
    ensures r.items[0] != [] ==> COLON !in r.items[0]
  {
    var key := ReadSpec(bytes, COLON, i);
    var val := ReadSpec(bytes, CR, key.pos + 1);
    ReadFound(bytes, COLON, i);
    ReadFound(bytes, CR, key.pos + 1);
    Tokens([key.token, val.token], val.pos)
  }

  /** `Procotol` (tool.js): method, path and version of the request line. */
  function Procotol(bytes: seq<byte>, i: nat): (r: Tokens)
    ensures r.items != [] ==>
      && |r.items| == 3
      && (forall t :: t in r.items ==> t != [])
      && SPACE !in r.items[0] && SPACE !in r.items[1] && CR !in r.items[2]
      && r.pos < |bytes| && bytes[r.pos] == CR
    ensures r.items == [] <==> r.pos >= |bytes|
  {
    var m := ReadSpec(bytes, SPACE, i);
    var u := ReadSpec(bytes, SPACE, m.pos);
    var v := ReadSpec(bytes, CR, u.pos);
    ReadFound(bytes, SPACE, i);
    ReadFound(bytes, SPACE, m.pos);
    ReadFound(bytes, CR, u.pos);
    if m.token != [] && u.token != [] && v.token != [] then Tokens([m.token, u.token, v.token], v.pos)
    else Tokens([], v.pos)
  }

  /** CR LF CR LF starts at offset i. */
  predicate TerminatorAt(bytes: seq<byte>, i: nat)
  {
    i + 3 < |bytes| && bytes[i] == CR && bytes[i + 1] == LF && bytes[i + 2] == CR && bytes[i + 3] == LF
  }

  /** A header block: its key/value tokens, the offset reached, and whether
      the terminator was seen. The source returns only the first two. */
  datatype Block = Block(items: seq<seq<byte>>, pos: nat, complete: bool)

  /** `parseKVS` (tool.js) from offset i, with `acc` the tokens pushed so far. */
  function KvsFrom(bytes: seq<byte>, i: nat, acc: seq<seq<byte>>): (r: Block)
    ensures r.complete ==>
      && i + 4 <= r.pos <= |bytes|
      && TerminatorAt(bytes, r.pos - 4)
      && |acc| <= |r.items| && r.items[..|acc|] == acc
    ensures !r.complete ==> r.items == [] && |bytes| <= r.pos && i <= r.pos
    decreases |bytes| - i
  {
    if i >= |bytes| then Block([], i, false)
    else if TerminatorAt(bytes, i) then Block(acc, i + 4, true)
    else
      var kv := Keyv(bytes, i);
      var r := KvsFrom(bytes, kv.pos, acc + kv.items);
      assert r.complete ==> r.items[..|acc|] == (r.items[..|acc + kv.items|])[..|acc|];
      r
  }

  /** Every `Keyv` step pushes a key and a value, so a header block always
      holds an even number of tokens. */
  lemma {:induction false} KvsEven(bytes: seq<byte>, i: nat, acc: seq<seq<byte>>)
    requires |acc| % 2 == 0
    ensures |KvsFrom(bytes, i, acc).items| % 2 == 0
    decreases |bytes| - i
  {
    if i < |bytes| && !TerminatorAt(bytes, i) {
      var kv := Keyv(bytes, i);
      assert |acc + kv.items| == |acc| + 2;
      KvsEven(bytes, kv.pos, acc + kv.items);
    }
  }

  /** `parseKVS` (tool.js): the loop that calls `Keyv` until CR LF CR LF. */
  method ParseKvs(bytes: seq<byte>, start: nat) returns (kvs: seq<seq<byte>>, i: nat)
    ensures kvs == KvsFrom(bytes, start, []).items
    ensures i == KvsFrom(bytes, start, []).pos
  {
    kvs, i := [], start;
    while true
      invariant KvsFrom(bytes, i, kvs) == KvsFrom(bytes, start, [])
      decreases |bytes| - i
    {
      if i >= |bytes| {
        break;
      }
      if TerminatorAt(bytes, i) {
        i := i + 4;
        return;
      }
      var kv := Keyv(bytes, i);
      i := kv.pos;
      kvs := kvs + kv.items;
    }
    kvs := [];
  }

  /** The header object: names of fields (lowercased) to their values, plus
      the keys "method", "path" and "version" set from the request line. */
  type Header = map<seq<byte>, seq<byte>>

  // `method`
  const METHOD: seq<byte> := [0x6d, 0x65, 0x74, 0x68, 0x6f, 0x64]
  // `path`
  const PATH: seq<byte> := [0x70, 0x61, 0x74, 0x68]
  // `version`
  const VERSION: seq<byte> := [0x76, 0x65, 0x72, 0x73, 0x69, 0x6f, 0x6e]

  /** `toLowerCase` on the one-code-unit string `String.fromCodePoint(b)`:
      ASCII A-Z and the Latin-1 capitals U+00C0..U+00DE except U+00D7. */
  function LowerByte(b: byte): (r: byte)
    ensures !IsCapital(r) && SameLetter(b, r)
  {
    if IsCapital(b) then b + 0x20 else b
  }

  /** The capitals `toLowerCase` maps within one byte. */
  predicate IsCapital(b: byte)
  {
    0x41 <= b <= 0x5a || (0xc0 <= b <= 0xde && b != 0xd7)
  }

  /** x and y are the same byte, or a capital and its small letter. */
  predicate SameLetter(x: byte, y: byte)
  {
    x == y || (IsCapital(x) && y == x + 0x20) || (IsCapital(y) && x == y + 0x20)
  }

  /** Two bytes lowercase alike exactly when they are the same letter. */
  lemma LowerByteCaseless(x: byte, y: byte)
    ensures LowerByte(x) == LowerByte(y) <==> SameLetter(x, y)
  {
  }

  /** The name as `toLowerCase` leaves it: the same letters, no capital. */
  function Lower(s: seq<byte>): (r: seq<byte>)
    ensures |r| == |s|
    ensures forall k :: 0 <= k < |r| ==> !IsCapital(r[k])
    ensures forall k :: 0 <= k < |s| ==> SameLetter(s[k], r[k])
  {
    seq(|s|, k requires 0 <= k < |s| => LowerByte(s[k]))
  }

  /** Two names become the same key exactly when they agree up to case. */
  lemma LowerCaseless(s: seq<byte>, t: seq<byte>)
    ensures Lower(s) == Lower(t) <==> |s| == |t| && forall k :: 0 <= k < |s| ==> SameLetter(s[k], t[k])
  {
    if |s| == |t| && forall k :: 0 <= k < |s| ==> SameLetter(s[k], t[k]) {
      forall k | 0 <= k < |s| ensures Lower(s)[k] == Lower(t)[k] {
        LowerByteCaseless(s[k], t[k]);
      }
    }
    if Lower(s) == Lower(t) {
      forall k | 0 <= k < |s| ensures SameLetter(s[k], t[k]) {
        assert Lower(s)[k] == Lower(t)[k];
        LowerByteCaseless(s[k], t[k]);
      }
    }
  }

  /** Lowercasing a lowercased name changes nothing. */
  lemma LowerIdempotent(s: seq<byte>)
    ensures Lower(Lower(s)) == Lower(s)
  {
    forall k | 0 <= k < |s| ensures Lower(Lower(s))[k] == Lower(s)[k] {
      assert !IsCapital(Lower(s)[k]);
    }
  }

  /** The object `h` after the loop of `parseHeader` has stored the pairs of
      `s` (keys at even offsets) in order: a later pair overwrites an
      earlier one with the same lowercased name. */
  function AddFields(h: Header, s: seq<seq<byte>>): (r: Header)
    requires |s| % 2 == 0
    ensures s != [] ==> Lower(s[|s| - 2]) in r && r[Lower(s[|s| - 2])] == s[|s| - 1]
    decreases |s|
  {
    if s == [] then h else AddFields(h, s[..|s| - 2])[Lower(s[|s| - 2]) := s[|s| - 1]]
  }

  /** The value of a field is the value of the LAST pair whose name
      lowercases to it. */
  lemma {:induction false} AddFieldsLastWins(h: Header, s: seq<seq<byte>>, j: nat)
    requires |s| % 2 == 0 && j < |s| && j % 2 == 0
    requires forall k :: j < k < |s| && k % 2 == 0 ==> Lower(s[k]) != Lower(s[j])
    ensures Lower(s[j]) in AddFields(h, s) && AddFields(h, s)[Lower(s[j])] == s[j + 1]
    decreases |s|
  {
    if j != |s| - 2 {
      var t := s[..|s| - 2];
      forall k | j < k < |t| && k % 2 == 0 ensures Lower(t[k]) != Lower(t[j]) {
        assert t[k] == s[k];
      }
      AddFieldsLastWins(h, t, j);
      assert t[j] == s[j] && t[j + 1] == s[j + 1];
    }
  }

  /** A key that no pair names keeps what `h` had, and no other key appears. */
  lemma {:induction false} AddFieldsOthers(h: Header, s: seq<seq<byte>>, key: seq<byte>)
    requires |s| % 2 == 0
    requires forall k :: 0 <= k < |s| && k % 2 == 0 ==> Lower(s[k]) != key
    ensures key in AddFields(h, s) <==> key in h
    ensures key in h ==> AddFields(h, s)[key] == h[key]
    decreases |s|
  {
    if s != [] {
      var t := s[..|s| - 2];
      forall k | 0 <= k < |t| && k % 2 == 0 ensures Lower(t[k]) != key {
        assert t[k] == s[k];
      }
      AddFieldsOthers(h, t, key);
    }
  }

  /** What `parseHeader(bytes)` returns: the header object, or None when the
      request line or the header block is missing or incomplete, with the
      offset just past the header block. */
  function HeaderSpec(bytes: seq<byte>): (r: (Option<Header>, nat))
    ensures r.0.Some? ==>
      && 4 <= r.1 <= |bytes|
      && METHOD in r.0.value && PATH in r.0.value && VERSION in r.0.value
  {
    HeaderAfter(bytes, Procotol(bytes, 0))
  }

  /** The part of `parseHeader` after the request line `pro` was read: the
      header block, then the object built from both. */
  function HeaderAfter(bytes: seq<byte>, pro: Tokens): (r: (Option<Header>, nat))
    requires pro.items != [] ==> |pro.items| == 3
    ensures r.0.Some? ==>
      && 4 <= r.1 <= |bytes| && TerminatorAt(bytes, r.1 - 4)
      && METHOD in r.0.value && PATH in r.0.value && VERSION in r.0.value
  {
    var kvs := KvsFrom(bytes, pro.pos, []);
    if pro.items == [] || kvs.items == [] then (None, kvs.pos)
    else
      KvsEven(bytes, pro.pos, []);
      (Some(HeaderObject(pro.items, kvs.items)), kvs.pos)
  }

  /** The object `parseHeader` builds: the request line under method, path
      and version, then the pairs stored in order. */
  function HeaderObject(line: seq<seq<byte>>, pairs: seq<seq<byte>>): (h: Header)
    requires |line| == 3 && |pairs| % 2 == 0
    ensures METHOD in h && PATH in h && VERSION in h
  {
    var base := map[METHOD := line[0], PATH := line[1], VERSION := line[2]];
    AddFieldsKeys(base, pairs);
    AddFields(base, pairs)
  }

  /** Storing pairs never removes a key. */
  lemma {:induction false} AddFieldsKeys(h: Header, s: seq<seq<byte>>)
    requires |s| % 2 == 0
    ensures h.Keys <= AddFields(h, s).Keys
    decreases |s|
  {
    if s != [] {
      AddFieldsKeys(h, s[..|s| - 2]);
    }
  }

  /** The pairs of the header block `parseHeader` stores. */
  function HeaderPairs(bytes: seq<byte>): seq<seq<byte>>
  {
    KvsFrom(bytes, Procotol(bytes, 0).pos, []).items
  }

  /** Each header name is stored lowercased and mapped to the value of the
      last pair with that lowercased name. */
  lemma HeaderFieldValue(bytes: seq<byte>, h: Header, j: nat)
    requires HeaderSpec(bytes).0 == Some(h)
    requires j + 1 < |HeaderPairs(bytes)| && j % 2 == 0
    requires forall k :: j < k < |HeaderPairs(bytes)| && k % 2 == 0 ==>
      Lower(HeaderPairs(bytes)[k]) != Lower(HeaderPairs(bytes)[j])
    ensures Lower(HeaderPairs(bytes)[j]) in h && h[Lower(HeaderPairs(bytes)[j])] == HeaderPairs(bytes)[j + 1]
  {
    var pro := Procotol(bytes, 0);
    var s := HeaderPairs(bytes);
    KvsEven(bytes, pro.pos, []);
    var base := map[METHOD := pro.items[0], PATH := pro.items[1], VERSION := pro.items[2]];
    AddFieldsLastWins(base, s, j);
    assert h == HeaderObject(pro.items, s) == AddFields(base, s);
  }

  /** Unless a header field is itself named method, path or version, those
      keys hold the three parts of the request line. */
  lemma HeaderRequestLine(bytes: seq<byte>)
    requires HeaderSpec(bytes).0.Some?
    requires forall k :: 0 <= k < |HeaderPairs(bytes)| && k % 2 == 0 ==>
      Lower(HeaderPairs(bytes)[k]) !in {METHOD, PATH, VERSION}
    ensures var h, pro := HeaderSpec(bytes).0.value, Procotol(bytes, 0);
      h[METHOD] == pro.items[0] && h[PATH] == pro.items[1] && h[VERSION] == pro.items[2]
  {
    var pro := Procotol(bytes, 0);
    var s := HeaderPairs(bytes);
    KvsEven(bytes, pro.pos, []);
    var base := map[METHOD := pro.items[0], PATH := pro.items[1], VERSION := pro.items[2]];
    assert HeaderSpec(bytes).0.value == HeaderObject(pro.items, s) == AddFields(base, s);
    AddFieldsOthers(base, s, METHOD);
    AddFieldsOthers(base, s, PATH);
    AddFieldsOthers(base, s, VERSION);
  }

  /** `parseHeader` (tool.js): decode the request line and the header block,
      then store the pairs in the header object. */
  method ParseHeader(bytes: seq<byte>) returns (h: Option<Header>, i: nat)
    ensures (h, i) == HeaderSpec(bytes)
  {
    var pro := Procotol(bytes, 0);
    var kvs;
    kvs, i := ParseKvs(bytes, pro.pos);
    if pro.items == [] || kvs == [] {
      return None, i;
    }
    // The source throws when the pairs are unbalanced; KvsEven shows they never are.
    KvsEven(bytes, pro.pos, []);
    var m := StoreFields(map[METHOD := pro.items[0], PATH := pro.items[1], VERSION := pro.items[2]], kvs);
    assert m == HeaderObject(pro.items, kvs);
    h := Some(m);
  }

  /** The `for` loop of `parseHeader` (tool.js): `h[s[j].toLowerCase()] = s[j + 1]`
      for j = 0, 2, 4, ... */
  method StoreFields(base: Header, s: seq<seq<byte>>) returns (h: Header)
    requires |s| % 2 == 0
    ensures h == AddFields(base, s)
  {
    h := base;
    var j := 0;
    while j < |s|
      invariant j <= |s| && j % 2 == 0
      invariant h == AddFields(base, s[..j])
    {
      assert s[..j + 2][..j] == s[..j];
      h := h[Lower(s[j]) := s[j + 1]];
      j := j + 2;
    }
    assert s[..j] == s;
  }

  /** How many leading bytes of `t` match `b` from offset i: the count the
      loop of `readBoundary` (tool.js) reaches before it stops. */
  function MatchLength(b: seq<byte>, t: seq<byte>, i: nat): (n: nat)
    ensures n <= |t| && (n > 0 ==> i + n <= |b|)
    ensures forall k :: 0 <= k < n ==> b[i + k] == t[k]
    ensures n < |t| ==> i + n >= |b| || b[i + n] != t[n]
    decreases |t|
  {
    if t == [] || i >= |b| || b[i] != t[0] then 0 else 1 + MatchLength(b, t[1..], i + 1)
  }

  /** The match count is where the bytes first differ from `t`, or the end
      of `t` or of the buffer: any such n is MatchLength. The offset
      ReadBoundary stops at meets these conditions, so it is the start plus
      MatchLength. */
  lemma MatchLengthStops(b: seq<byte>, t: seq<byte>, i: nat, n: nat)
    requires n <= |t| && (n > 0 ==> i + n <= |b|)
    requires forall k :: 0 <= k < n ==> b[i + k] == t[k]
    requires n < |t| ==> i + n >= |b| || b[i + n] != t[n]
    ensures MatchLength(b, t, i) == n
  {
  }

  /** `readBoundary` (tool.js): match `boundary` at offset `start`. On a
      match the offset moves past it; otherwise it stops at the first byte
      that differs (or at the end of the buffer) and nothing past it is read. */
  method ReadBoundary(bytes: seq<byte>, boundary: seq<byte>, start: nat)
    returns (matched: Option<seq<byte>>, i: nat)
    ensures matched.Some? <==>
      boundary == [] || (start + |boundary| <= |bytes| && bytes[start..start + |boundary|] == boundary)
    ensures matched.Some? ==> matched.value == boundary && i == start + |boundary|
    ensures matched.None? ==>
      && start <= i < start + |boundary|
      && (i < |bytes| ==> bytes[i] != boundary[i - start])
      && (start <= |bytes| ==> i <= |bytes| && bytes[start..i] == boundary[..i - start])
  {
    var index := 0;
    var got: seq<byte> := [];
    i := start;
    while true
      invariant index <= |boundary| && i == start + index
      invariant index > 0 ==> i <= |bytes| && got == bytes[start..i]
      invariant got == boundary[..index]
      decreases |boundary| - index
    {
      if index < |boundary| && (i >= |bytes| || bytes[i] != boundary[index]) {
        assert start + |boundary| <= |bytes| ==> bytes[start..start + |boundary|][index] == bytes[i];
        return None, i;
      }
      if index == |boundary| {
        return Some(got), i;
      }
      got := got + [bytes[i]];
      index := index + 1;
      i := i + 1;
    }
  }

  // Bytes that arrive after a complete token or header block do not change
  // what was read: the header parse does not depend on how the transport
  // splits its delivery.

  lemma {:induction false} SkipBlanksExtend(b: seq<byte>, more: seq<byte>, i: nat)
    requires SkipBlanks(b, i) < |b|
    ensures SkipBlanks(b + more, i) == SkipBlanks(b, i)
    decreases |b| - i
  {
    if IsBlank(b[i]) {
      SkipBlanksExtend(b, more, i + 1);
    }
  }

  lemma {:induction false} FindByteExtend(b: seq<byte>, more: seq<byte>, stop: byte, k: nat)
    requires FindByte(b, stop, k) < |b|
    ensures FindByte(b + more, stop, k) == FindByte(b, stop, k)
    decreases |b| - k
  {
    if b[k] != stop {
      FindByteExtend(b, more, stop, k + 1);
    }
  }

  lemma ReadExtend(b: seq<byte>, more: seq<byte>, stop: byte, i: nat)
    requires ReadSpec(b, stop, i).pos < |b|
    ensures ReadSpec(b + more, stop, i) == ReadSpec(b, stop, i)
  {
    var k := SkipBlanks(b, i);
    SkipBlanksExtend(b, more, i);
    FindByteExtend(b, more, stop, k);
    assert (b + more)[k..FindByte(b, stop, k)] == b[k..FindByte(b, stop, k)];
  }

  lemma KeyvExtend(b: seq<byte>, more: seq<byte>, i: nat)
    requires Keyv(b, i).pos < |b|
    ensures Keyv(b + more, i) == Keyv(b, i)
  {
    var key := ReadSpec(b, COLON, i);
    assert key.pos < |b| by {
      assert key.pos < ReadSpec(b, CR, key.pos + 1).pos;
    }
    ReadExtend(b, more, COLON, i);
    ReadExtend(b, more, CR, key.pos + 1);
  }

  lemma {:induction false} KvsExtend(b: seq<byte>, more: seq<byte>, i: nat, acc: seq<seq<byte>>)
    requires KvsFrom(b, i, acc).complete
    ensures KvsFrom(b + more, i, acc) == KvsFrom(b, i, acc)
    decreases |b| - i
  {
    if TerminatorAt(b, i) {
      assert TerminatorAt(b + more, i);
    } else {
      var kv := Keyv(b, i);
      assert kv.pos < |b|;
      KeyvExtend(b, more, i);
      KvsExtend(b, more, kv.pos, acc + kv.items);
      assert !TerminatorAt(b + more, i);
    }
  }

  lemma ProcotolExtend(b: seq<byte>, more: seq<byte>, i: nat)
    requires Procotol(b, i).items != []
    ensures Procotol(b + more, i) == Procotol(b, i)
  {
    var m := ReadSpec(b, SPACE, i);
    var u := ReadSpec(b, SPACE, m.pos);
    ReadExtend(b, more, SPACE, i);
    ReadExtend(b, more, SPACE, m.pos);
    ReadExtend(b, more, CR, u.pos);
  }

  /** Once the buffer holds a complete request head, more bytes do not
      change the parsed header or the offset of the body. */
  lemma HeaderIgnoresLaterBytes(b: seq<byte>, more: seq<byte>)
    requires HeaderSpec(b).0.Some?
    ensures HeaderSpec(b + more) == HeaderSpec(b)
  {
    var pro := Procotol(b, 0);
    ProcotolExtend(b, more, 0);
    KvsExtend(b, more, pro.pos, []);
  }

  /** A request line followed directly by CR LF CR LF (a request with no
      header field) is never accepted: `parseKVS` returns an empty list at
      the terminator and `parseHeader` treats that like missing data. */
  lemma NoFieldRequestRejected(b: seq<byte>)
    requires Procotol(b, 0).items != []
    requires TerminatorAt(b, Procotol(b, 0).pos)
    ensures HeaderSpec(b).0 == None
    ensures HeaderSpec(b).1 == Procotol(b, 0).pos + 4
  {
  }

  /** Whenever `parseHeader` returns no header, the offset it reports is at
      or past the end of the buffer, except for a request with no header field. */
  lemma {:induction false} HeaderNoneMeansIncomplete(b: seq<byte>)
    requires HeaderSpec(b).0 == None
    ensures HeaderSpec(b).1 >= |b| || TerminatorAt(b, HeaderSpec(b).1 - 4)
  {
  }
}
