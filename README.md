# Multipart upload server core, modelled in Dafny

This project models the request-handling core of the `form-data-upload`
example server of code4freeman/links. The server frames HTTP/1.1 requests on
a raw TCP socket, and it parses `multipart/form-data` bodies with its own
streaming parser. There are three modules, one per source file.

- `Scanner` (`scanner.dfy`) models `tool.js`, the byte scanner:
  - `read` skips leading SPACE/LF/CR bytes, then collects bytes up to a stop byte;
  - `Procotol` reads the request line (the name is the source's own spelling);
  - `Keyv` and `parseKVS` read the header block;
  - `parseHeader` builds the header object, with lowercased names where the
    last duplicate wins;
  - `readBoundary` matches the opening boundary.

  Each loop of `read`, `parseKVS` and `parseHeader` is a `method` proved
  equal to a recursive specification function, and the lemmas are stated
  about those functions. `readBoundary` is proved against a closed-form
  contract: matched exactly when the boundary sits at the offset, otherwise
  stopped at the first differing byte. The lemma `MatchLengthStops` shows
  that this stop is the recursive match count `MatchLength`.
  The model proves:
  - what a token can contain;
  - that the header block always holds key/value pairs, so the
    unbalanced-pairs `throw` in `parseHeader` cannot happen;
  - that bytes arriving after a complete request head change neither the
    parsed header nor the offset of the body;
  - two as-written behaviours. A request whose request line is followed
    directly by the empty line (no header field) is never accepted. Apart
    from that case, a `null` result means the buffer ran out.
- `FormData` (`formdata.dfy`) models `form-data-parser.js`, a state machine
  (`Boundary`, `TypeKv`, `Data`, `MaybeEnd`, `End`) over a growing buffer:
  - The parser is a class, `Parser`, whose methods update its fields as the
    closure's variables are updated. Two branches run a corrected version
    (see "## Findings"): a BOUNDARY wait restarts the match at offset 0,
    and a failed match attempt resumes at the mismatching byte.
  - Each `OnData` call appends a chunk and runs the machine until it waits
    for bytes or resolves a result.
  - The same machine is also written on values, as a reference for the
    class:
    - `Machine` holds the closure's variables;
    - one function per branch of the `switch` (`BoundarySpec`, `TypeKvSpec`,
      `DataSpec`, `MaybeEndSpec`) gives the values a branch leaves;
    - `StepSpec` is one turn of the loop, and `RunSpec` turns until a turn
      waits.

    Every step method is proved to leave exactly the values its function
    gives. `OnData` is proved to leave exactly `RunSpec` of the old values
    with the chunk appended: the buffer, the cursor, the fields, the sinks,
    the current part and the result.
  - The three regular expressions become functions. Each takes the last
    place where its pattern fits (the greedy leading `.*`) and ignores ASCII
    case (the `i` flag). Their contracts state exactly when each one
    matches.
  - A file part goes to an abstract sink: its path, the bytes written to it
    and whether it was closed.
  - Across every step, the model proves:
    - sinks only grow, and a closed sink never changes;
    - only the last sink can be open;
    - in DATA, the bytes already delivered plus the bytes held are conserved;
    - no delimiter is passed over by a skip or by a failed match attempt,
      whatever bytes later chunks bring;
    - each step makes progress, so `OnData` terminates;
    - bytes leave the buffer only at its front, so after a chunk the buffer
      is a suffix of the old buffer and the chunk;
    - while one DATA part goes on, the chunk's bytes reach the part or are
      still held, in order;
    - a part that ends during a chunk gets the bytes it had, then the
      buffer and the chunk, up to a delimiter. This holds for a file part
      always, and for a text field while no later part begins in that chunk;
    - a TYPE_KV or MAYBE_END wait keeps the buffer, so a chunk that leaves
      the parser where it was is held whole;
    - before the opening boundary matched nothing leaves the buffer, and the
      body is rejected exactly when it is long enough and does not start
      with the boundary;
    - a resolved result is an error without fields, or success with the
      collected fields, and each error comes from the state that raises it.
  - One as-written behaviour is kept: a part whose header block is empty
    gives `parseKVS` no pairs, so TYPE_KV waits for more bytes for good,
    even once the closing boundary arrived (`EmptyPartHeaderStalls`).
- `Framer` (`framer.dfy`) models the per-connection framer `Http` of
  `server.js` as the class `Connection`:
  - it buffers socket bytes and parses one header at a time;
  - then its `read()` pushes exactly Content-Length body bytes;
  - then it returns to header parsing.

  The fields `headers`, `bodies` and `body` record what was handed to
  each request. They let the contracts state that every body has the length
  its header declares, and that body bytes plus buffered bytes are
  conserved.

Bytes are `byte` (0..255). The header parser turns each byte into one
UTF-16 code unit, so lowercasing acts on Latin-1 capitals, as
`toLowerCase` does on such a string.

## Model

| member | source | states |
|---|---|---|
| Scanner.SkipBlanks | form-data-upload/examples/tool.js:60-64 | the blank run ends at a non-blank byte or at the end of the buffer, never before the start |
| Scanner.SkipBlanksPassesBlanks | form-data-upload/examples/tool.js:60-64 | every byte the blank run passes over is SPACE, LF or CR |
| Scanner.SkipBlanksStopsAt | form-data-upload/examples/tool.js:60-64 | a run of blanks ending at a non-blank byte (or the end) is exactly where skipping stops |
| Scanner.FindByte | form-data-upload/examples/tool.js:65 | the search ends on the stop byte or at the end of the buffer |
| Scanner.FindBytePassesOthers | form-data-upload/examples/tool.js:65-66 | no stop byte lies between the token start and the stop found |
| Scanner.FindByteStopsAt | form-data-upload/examples/tool.js:65 | the first stop byte after the start is where the search ends |
| Scanner.ReadSpec | form-data-upload/examples/tool.js:58-69 | the offset never moves back; when no stop byte is found the token is empty and the offset is the end of the buffer |
| Scanner.ReadFound | form-data-upload/examples/tool.js:58-69 | when the stop byte is found, the token is exactly the bytes before it: non-blank first byte, no stop byte inside, non-empty for a blank stop byte |
| Scanner.ReadSkipsBlanks | form-data-upload/examples/tool.js:61-64 | the bytes between the start and the token are blanks |
| Scanner.Read | form-data-upload/examples/tool.js:58-69 | the loop of `read` returns the token and offset of ReadSpec |
| Scanner.Keyv | form-data-upload/examples/tool.js:82-88 | one key and one value; the cursor moves forward; the value stops at a CR and holds none; a key holds no colon |
| Scanner.Procotol | form-data-upload/examples/tool.js:71-80 | a request line is three non-empty tokens (method and path without SPACE, version without CR) ending at a CR; it is empty exactly when the buffer ran out |
| Scanner.KvsFrom | form-data-upload/examples/tool.js:38-56 | a complete block ends 4 bytes past a CR LF CR LF inside the buffer and keeps the tokens already pushed; an incomplete one returns no tokens and an offset at or past the end |
| Scanner.KvsEven | form-data-upload/examples/tool.js:52-53 | a header block always holds an even number of tokens |
| Scanner.ParseKvs | form-data-upload/examples/tool.js:38-56 | the loop of `parseKVS` returns the tokens and offset of KvsFrom |
| Scanner.LowerByte | form-data-upload/examples/tool.js:32 | `toLowerCase` of one code unit: no capital is left, and the result is the same letter |
| Scanner.LowerByteCaseless | form-data-upload/examples/tool.js:32 | two bytes lowercase alike exactly when they are the same letter up to case |
| Scanner.Lower | form-data-upload/examples/tool.js:32 | the lowercased name has the same length and letters, and no capital |
| Scanner.LowerCaseless | form-data-upload/examples/tool.js:32 | two names become the same key exactly when they agree up to case |
| Scanner.LowerIdempotent | form-data-upload/examples/tool.js:32 | lowercasing a lowercased name changes nothing |
| Scanner.AddFields | form-data-upload/examples/tool.js:30-33 | the object after the `for` loop holds the last pair under its lowercased name |
| Scanner.AddFieldsLastWins | form-data-upload/examples/tool.js:30-33 | a name maps to the value of the last pair whose name lowercases to it |
| Scanner.AddFieldsOthers | form-data-upload/examples/tool.js:30-33 | a key no pair name lowercases to keeps its value |
| Scanner.AddFieldsKeys | form-data-upload/examples/tool.js:30-33 | storing pairs never removes a key |
| Scanner.HeaderSpec | form-data-upload/examples/tool.js:9-36 | a parsed header has method, path and version, and its offset lies within the buffer, at least 4 |
| Scanner.HeaderAfter | form-data-upload/examples/tool.js:12-35 | the offset of a parsed header is just past the CR LF CR LF that ends the header block |
| Scanner.HeaderObject | form-data-upload/examples/tool.js:23-33 | the header object always has the method, path and version keys |
| Scanner.HeaderFieldValue | form-data-upload/examples/tool.js:30-33 | each header name is stored lowercased with the value of its last occurrence |
| Scanner.HeaderRequestLine | form-data-upload/examples/tool.js:23-27 | unless a field is itself named method, path or version, those keys hold the three request-line tokens |
| Scanner.ParseHeader | form-data-upload/examples/tool.js:9-36 | `parseHeader` returns what HeaderSpec describes; its `throw` is never reached |
| Scanner.StoreFields | form-data-upload/examples/tool.js:30-33 | the `for` loop stores the pairs as AddFields does |
| Scanner.MatchLength | form-data-upload/examples/tool.js:90-99 | how many leading boundary bytes match, stopping at the first difference or the end |
| Scanner.MatchLengthStops | form-data-upload/examples/tool.js:90-99 | any count where the bytes first differ from the boundary (or either ends) is the match count, so the offset ReadBoundary stops at is the start plus MatchLength |
| Scanner.ReadBoundary | form-data-upload/examples/tool.js:90-99 | matched iff the boundary sits at the start offset, then the offset moves past it; otherwise the offset is the first differing byte (or the end) and the bytes before it matched |
| Scanner.SkipBlanksExtend | form-data-upload/examples/tool.js:60-64 | more bytes do not move a blank run that ended inside the buffer |
| Scanner.FindByteExtend | form-data-upload/examples/tool.js:65 | more bytes do not move a stop byte already found |
| Scanner.ReadExtend | form-data-upload/examples/tool.js:58-69 | more bytes do not change a token already ended by its stop byte |
| Scanner.KeyvExtend | form-data-upload/examples/tool.js:82-88 | more bytes do not change a complete key/value pair |
| Scanner.KvsExtend | form-data-upload/examples/tool.js:38-56 | more bytes do not change a complete header block |
| Scanner.ProcotolExtend | form-data-upload/examples/tool.js:71-80 | more bytes do not change a complete request line |
| Scanner.HeaderIgnoresLaterBytes | form-data-upload/examples/tool.js:9-36 | once a request head is complete, more bytes change neither the header nor the body offset |
| Scanner.NoFieldRequestRejected | form-data-upload/examples/tool.js:14 | a request line followed directly by CR LF CR LF is not accepted, with the offset past the terminator |
| Scanner.HeaderNoneMeansIncomplete | form-data-upload/examples/tool.js:14 | no header means the buffer ran out, except for the no-field case |
| FormData.Span | form-data-upload/examples/form-data-parser.js:47 | the longest run of accepted bytes: all accepted, then a rejected byte or the end |
| FormData.LastIndex | form-data-upload/examples/form-data-parser.js:47 | the last position where a pattern fits, or none (the greedy leading `.*`) |
| FormData.TokenAt | form-data-upload/examples/form-data-parser.js:47 | the captured `-+\w+`: a dash first, a word byte last, only dashes and word bytes |
| FormData.BoundaryToken | form-data-upload/examples/form-data-parser.js:46-54 | a token exactly when the Content-Type carries `boundary=` then dashes then word bytes; never for a missing Content-Type |
| FormData.Delimiter | form-data-upload/examples/form-data-parser.js:46-57 | the delimiter is CR LF "--" plus the token, with no CR after its first byte; none is the POST_DATA_INVALIDE case |
| FormData.FieldName | form-data-upload/examples/form-data-parser.js:123 | a name exactly when some `name="v"` not preceded by `file` fits; it is non-empty and free of quotes |
| FormData.FileName | form-data-upload/examples/form-data-parser.js:124 | a file name exactly when some `filename="v"` fits; it is non-empty and free of quotes |
| FormData.FilenameIsNotName | form-data-upload/examples/form-data-parser.js:123 | the `name=` inside `filename=` is never taken for the field name |
| FormData.HeaderValue | form-data-upload/examples/form-data-parser.js:115-122 | the value of the last pair whose name is exactly the key, none without one |
| FormData.UndefinedHasNoAttributes | form-data-upload/examples/form-data-parser.js:122-124 | without a Content-Disposition neither regex matches the text `undefined` |
| FormData.PartOf | form-data-upload/examples/form-data-parser.js:122-127 | a part's key is never empty; a file name, when present, is non-empty |
| FormData.WriteLast | form-data-upload/examples/form-data-parser.js:150 | writing appends to the last sink and keeps its path and the other sinks |
| FormData.SinksGrowTransitive | form-data-upload/examples/form-data-parser.js:81-85 | sink growth composes across steps |
| FormData.MismatchSkipsNoDelimiter | form-data-upload/examples/form-data-parser.js:166-170 | a failed match attempt passes over no delimiter that starts before the mismatching byte, whatever bytes follow later |
| FormData.MatchAsWritten | form-data-upload/examples/form-data-parser.js:166-172 | as written, both a match and a mismatch move the cursor one byte on |
| FormData.MismatchCanPassDelimiter | form-data-upload/examples/form-data-parser.js:166-170 | as written, a mismatch can pass over a delimiter that starts at the mismatching CR |
| FormData.MatchExtends | form-data-upload/examples/form-data-parser.js:171-172 | a matching byte extends the partial match by one |
| FormData.SkipPassesNoDelimiter | form-data-upload/examples/form-data-parser.js:174-204 | jumping to the last byte a delimiter would cover passes over no delimiter, whatever bytes follow later, when that byte is not a delimiter byte |
| FormData.WriteLastGrows | form-data-upload/examples/form-data-parser.js:148-156 | writing to the open sink only grows it, keeps the others closed and sets its closed flag as asked |
| FormData.OpenAsWritten | form-data-upload/examples/form-data-parser.js:88-103 | as written: opened iff the boundary sits at the cursor; a wait moves the cursor to where matching stopped (cursor plus match count) |
| FormData.Open | form-data-upload/examples/form-data-parser.js:88-103 | opened iff the body starts with the boundary; otherwise wait while it is shorter than the delimiter (restarting at 0), else reject |
| FormData.SplitOpeningRejected | form-data-upload/examples/form-data-parser.js:90-92 | as written, a valid body is rejected when its first chunk ends inside the opening boundary; Open accepts it |
| FormData.OpenedAfterWait | form-data-upload/examples/form-data-parser.js:90-92 | with the corrected wait, a body starting with the boundary is opened however it was split |
| FormData.Parser.constructor | form-data-upload/examples/form-data-parser.js:46-77 | no boundary gives POST_DATA_INVALIDE at once; otherwise BOUNDARY state with an empty buffer |
| FormData.Parser.BoundaryStep | form-data-upload/examples/form-data-parser.js:88-103 | BOUNDARY follows Open: the body after the boundary in TYPE_KV, a wait, or FORM_DATA_FORMAT_ERROR with the buffer kept; the values and the wait are what `StepSpec` gives (BoundarySpec) |
| FormData.Parser.TypeKvStep | form-data-upload/examples/form-data-parser.js:104-137 | wait on an incomplete part header; otherwise the part begins after its header block and one more part is counted; the values and the wait are what `StepSpec` gives (TypeKvSpec) |
| FormData.Parser.BeginPart | form-data-upload/examples/form-data-parser.js:112-135 | the field is registered (file name or empty text), a file part opens a new sink, and one more part is counted; the values are what BeginSpec gives |
| FormData.Parser.EndPart | form-data-upload/examples/form-data-parser.js:140-164 | the bytes before the delimiter complete the part (written and closed, or appended to the text field); the rest follows in MAYBE_END; the values are what EndSpec gives |
| FormData.Parser.Leave | form-data-upload/examples/form-data-parser.js:142-163 | after the part's end the buffer starts after the delimiter, no part is open, and the state is MAYBE_END; a text part also clears the file name |
| FormData.Parser.Deliver | form-data-upload/examples/form-data-parser.js:148-161 | part bytes go to the open file or to the text field, and nothing else changes; the values are what DeliverSpec gives |
| FormData.Parser.Compare | form-data-upload/examples/form-data-parser.js:166-172 | the byte at the cursor against the next delimiter byte: a match moves both on, a mismatch drops the attempt; the values are MatchSpec's |
| FormData.Parser.MatchStep | form-data-upload/examples/form-data-parser.js:166-172 | a match extends the attempt; a mismatch resumes at the mismatching byte and no delimiter starts before the new cursor, whatever bytes follow later; the values are what MatchSpec gives |
| FormData.Parser.ScanStep | form-data-upload/examples/form-data-parser.js:173-205 | too few bytes flushes and waits; a delimiter byte starts a match attempt; otherwise the skip passes over no delimiter, whatever bytes follow later; the values and the wait are what ScanSpec gives |
| FormData.Parser.Probe | form-data-upload/examples/form-data-parser.js:174-204 | with enough bytes, a delimiter byte at the far end starts a match attempt at the cursor; otherwise the cursor jumps there and no delimiter starts before it; the values are ScanSpec's |
| FormData.Parser.Flush | form-data-upload/examples/form-data-parser.js:176-198 | the bytes before the cursor go to the part, the rest is kept, delivered plus held bytes conserved; the values are what DeliverSpec gives for the bytes before the cursor, with the rest held |
| FormData.Parser.MaybeEndStep | form-data-upload/examples/form-data-parser.js:208-223 | CR LF starts another part, "--" ends the body, anything else is the part data error, fewer than 2 bytes waits; the values and the wait are what `StepSpec` gives (MaybeEndSpec) |
| FormData.Parser.DataStep | form-data-upload/examples/form-data-parser.js:138-207 | DATA ends the part or advances; bytes leave the buffer's front; while DATA goes on the part's bytes plus the buffer are conserved and the same part stays open; a part that ends gets its bytes plus the buffer up to the delimiter; the values and the wait are what DataSpec gives |
| FormData.Parser.Advance | form-data-upload/examples/form-data-parser.js:166-205 | before a whole delimiter matched, DATA stays with the same part open, the part's bytes plus the buffer are conserved, and the step advances or waits starved; the values and the wait are what DataSpec gives |
| FormData.EndsAtDelimiter | form-data-upload/examples/form-data-parser.js:140-150 | a part holding some bytes, followed by a buffer with the delimiter at m, ends with those bytes and the buffer's first m bytes, and the delimiter follows them |
| FormData.EmptyPartHeaderStalls | form-data-upload/examples/form-data-parser.js:106-110 | an empty part header block gives no pairs whatever bytes arrive later, so TYPE_KV waits for good |
| FormData.StepSpecStates | form-data-upload/examples/form-data-parser.js:87-234 | on values: TYPE_KV either begins a part or keeps the buffer; MAYBE_END never goes back to DATA or BOUNDARY; END stays; outside DATA the fields are kept; BOUNDARY is left iff the body starts with the boundary, and is kept only with the buffer and a wait; each error comes from its state |
| FormData.Parser.Step | form-data-upload/examples/form-data-parser.js:87-234 | one loop turn leaves exactly the values `StepSpec` gives, and whether it waits; it makes progress or waits starved; the buffer becomes a suffix of itself, field names are kept; DATA to DATA keeps the part open and conserves its bytes plus the buffer; leaving DATA, the part gets its bytes plus the buffer up to a delimiter; TYPE_KV and MAYBE_END keep the buffer unless they move on; BOUNDARY keeps the buffer and is left iff the boundary matched; each error comes from its state |
| FormData.Parser.OtherStep | form-data-upload/examples/form-data-parser.js:87-137 | a turn outside DATA leaves exactly the values `StepSpec` gives; only a new part enters DATA |
| FormData.Parser.EdgeStep | form-data-upload/examples/form-data-parser.js:104-137 | a turn in TYPE_KV, MAYBE_END or END leaves exactly the values `StepSpec` gives; only a new part enters DATA |
| FormData.Parser.EndStep | form-data-upload/examples/form-data-parser.js:224-227 | END resolves with the fields collected and waits, as `StepSpec` gives |
| FormData.Parser.Turn | form-data-upload/examples/form-data-parser.js:85-236 | one loop turn leaves exactly the values `StepSpec` gives, and a turn that does not wait is below the last in the order `RunSpec` recurses by; it keeps what `onData` tracks: the buffer is a suffix of the input; the same DATA part's bytes plus the buffer are what was held; once that part ended it holds what was held up to a delimiter; TYPE_KV, MAYBE_END and BOUNDARY keep the whole input until they move on |
| FormData.Parser.Run | form-data-upload/examples/form-data-parser.js:85-236 | the `while (true)` loop turns until the parser waits and leaves exactly the values `RunSpec` gives; on exit the buffer is a suffix of the input; the same DATA part's bytes plus the buffer are what was held, or the part ended with what was held up to a delimiter; TYPE_KV and MAYBE_END still in the same place hold the whole input; BOUNDARY is kept iff the input does not start with the boundary; the parser is starved or resolved with each error from its state |
| FormData.Parser.OnData | form-data-upload/examples/form-data-parser.js:81-237 | after a chunk the buffer, cursor, fields, sinks, current part and result are exactly `RunSpec` of the old values with the chunk appended; the parser is starved or resolved; the buffer is a suffix of the old buffer plus the chunk; in the same DATA part the part's bytes plus the buffer grew by exactly the chunk; a DATA part that ended in the chunk holds its old bytes, the old buffer and the chunk up to a delimiter (a text field while no later part began); TYPE_KV and MAYBE_END that did not move on hold the old buffer plus the chunk; from BOUNDARY it stays iff the input does not start with the boundary, and it rejects iff that input is also long enough; each error comes from its state; sinks only grow |
| Framer.DecimalValue | form-data-upload/examples/server.js:47 | the number a digit string coerces to; it is zero exactly when every digit is zero |
| Framer.DecimalLeadingZero | form-data-upload/examples/server.js:47 | a leading zero does not change the value |
| Framer.Decimal | form-data-upload/examples/server.js:47 | the inverse of DecimalValue, used by DecimalRoundTrip and ContentLengthOfDecimal (a client renders the length): non-empty decimal digits without a leading zero |
| Framer.DecimalRoundTrip | form-data-upload/examples/server.js:47 | reading a rendered length back gives the length |
| Framer.DecimalCanonical | form-data-upload/examples/server.js:47 | digits without a leading zero are the rendering of their value |
| Framer.ContentLength | form-data-upload/examples/server.js:47 | a missing or empty content-length frames an empty body |
| Framer.ContentLengthOfDecimal | form-data-upload/examples/server.js:47 | a header carrying a rendered length frames a body of that length |
| Framer.EmptyHasNoHeader | form-data-upload/examples/server.js:66 | an empty buffer holds no header, so skipping `handle()` on it changes nothing |
| Framer.Connection.constructor | form-data-upload/examples/server.js:19-25 | a new connection waits for a header with nothing buffered |
| Framer.Connection.Handle | form-data-upload/examples/server.js:39-53 | while waiting for a header: a parsed header starts a request and is cut off the buffer, otherwise nothing changes |
| Framer.Connection.Accept | form-data-upload/examples/server.js:45-53 | the request's length is the header's Content-Length and the buffer keeps only the bytes after the header |
| Framer.Connection.OnData | form-data-upload/examples/server.js:27-37 | the chunk is buffered, a header is tried, and the socket is paused once more than 100 MiB are held |
| Framer.Connection.EndBody | form-data-upload/examples/server.js:60-67 | the finished body is recorded and header parsing resumes on the buffered bytes |
| Framer.Connection.Pull | form-data-upload/examples/server.js:57-94 | slices of at most the bytes still owed are pushed while accepted; the body gets exactly Content-Length bytes before the next header is parsed |

## Left out

- Sockets, the TCP server, the routing, the response `Writable` and the
  `uncaughtException` handler of `server.js` (lines 1-17 and 97-160) are I/O
  plumbing. They are not part of this model.
- The `request?.push()` call on every chunk (server.js:31) is left out. It only
  asks the stream to call `read()` again. `Pull` models `read()` itself.
- Node stream back-pressure and the `await`s are left out: `highWaterMark`,
  `pause`/`resume` of the request, and waiting for `drain`. The `drain`
  listener is removed under the misspelled name `darin`, which is also left
  out. Each step is modelled as if the awaited write completed before the
  next step. `push` returning false is a parameter of `Pull`.
- Framer.ContentLength: gives the decimal value of an all-digit value and 0
  otherwise. JavaScript's `Number` coercion (surrounding whitespace, signs,
  `0x` prefixes, exponents, NaN) is not modelled.
- The UTF-8 decoding of part header names and values (form-data-parser.js:116)
  is left out. Names and values are compared as bytes, which is the same for
  ASCII. Text field values stay bytes and are not turned into strings.
- The REQUEST_OBJ_INVALIDE check (`instanceof Stream`, form-data-parser.js:42-44)
  is left out, because the model's parser always takes a request.
- The "state overflow" default branch is left out, because an enumerated
  state cannot fall outside it.
- The regex stand-ins treat line terminators as ordinary bytes. JavaScript's
  `.` does not match them, so a Content-Type or Content-Disposition containing
  CR or LF can match differently.
- Object-key quirks of JavaScript (a header named `__proto__` in
  `parseHeader`) are left out.
- `resolvePath` and `createWriteStream` are left out: a sink records the
  file name instead of a resolved path, and its bytes and closed flag stand
  for the file's contents.
- FormData.Parser.OnData: the state after a chunk is exactly what `RunSpec`
  gives. Stated directly, a part that ends in the chunk is shown to end at a
  delimiter in what was held, but not at the first one. Each `MatchStep` and
  `ScanStep` proves it passes over no delimiter, but those facts are not
  composed across the steps of a call and its earlier calls.
- FormData.Parser.OnData: for a text field, `TextClosed` (the value the part
  ended with, stated directly) is promised only while no later part begins in
  the same chunk. A later part can reuse the field name and replace the value
  (form-data-parser.js:126); `RunSpec` still fixes the final value.
- Two as-written behaviours are kept as the source has them:
  - `currentFilename` is not reset after a file part (form-data-parser.js:148-156);
  - the resume guard `!bytes.length < 104857600` (server.js:70) is always
    true, so `Pull` always resumes the socket.

## Findings

| source | as written | input that shows it | evidently intended | confidence | as-written member | corrected member |
|---|---|---|---|---|---|---|
| form-data-upload/examples/form-data-parser.js:90-92 | on a wait, BOUNDARY keeps the cursor at the byte where matching stopped, and the next attempt matches the boundary from that byte | boundary token `-a`; the body `---a` CR LF arrives as `--` then `-a` CR LF and is rejected with FORM_DATA_FORMAT_ERROR | the buffer is not trimmed before the boundary matched, so a wait should restart the match at offset 0 | high, not executed | FormData.OpenAsWritten, FormData.SplitOpeningRejected | FormData.Open, FormData.Parser.BoundaryStep, FormData.OpenedAfterWait |
| form-data-upload/examples/form-data-parser.js:166-170 | a mismatch inside a delimiter match moves the cursor past the mismatching byte | boundary token `-a`; part data ending in CR before the delimiter gives CR CR LF `---a`; the attempt at the first CR fails at the second CR and the delimiter starting there is never matched (a file ending in CR LF does the same) | resume at the mismatching byte, since only the first delimiter byte is a CR | high, not executed | FormData.MatchAsWritten, FormData.MismatchCanPassDelimiter | FormData.Parser.MatchStep |
