# rcom core in Dafny

rcom is the messaging library of the ROMI robots, written in C. Its nodes
register with a central registry (`rcregistry`). They talk over WebSocket
message links and stream data in UDP packets and MJPEG multipart streams.
They carry their payloads as JSON. This project models the sequential core
of the library and proves properties of the model:

- **Registry** (`librcom/src/registry.c`): the entry type names, the
  validators for ids, topics and names, entry parsing, and the entry list
  with insert, delete, select, count and address update.
- **Registry server** (`src/rcregistry.c`): request routing and the replies
  of register, unregister, list and update-address.
- **Buffers**:
  - the ring buffer (`librcom/src/circular.c`);
  - the UDP packet container with its big-endian timestamp and sequence
    number (`librcom/src/data.c`);
  - the growable character buffer (`src/membuf.c`).
- **Codecs** (`src/util.c`): string escaping, base64 (section 4 of
  RFC 4648), url encoding and decoding.
- **Addresses** (`src/addr.c`): "ip:port" text, setters, parsing and
  comparison.
- **WebSocket**:
  - frame headers, payload masking, close codes and the length guard of
    the reader (sections 5.2 and 5.3 of RFC 6455,
    `librcom/src/messagelink.c`);
  - the server's header lookup and handshake validation
    (`src/messagelink.c`).
- **MJPEG multipart parser** (`librcom/src/multipart_parser.c`): header
  and body states, header-line parsing and body accounting.
- **Exports and services** (`librcom/src/export.c`,
  `librcom/src/service.c`): export matching, mimetypes, cloning, and a
  service's export list with lookup.
- **HTTP helpers** (`librcom/src/http.c`): status phrases, mimetype
  tables, header trimming and appending.
- **Launcher** (`src/run.c`): the field validators, node-name derivation,
  argument lists and the initial state of a run.
- **JSON engine** (`src/json.c`):
  - the path expressions of `json_parse_exp` and `json_print_exp`;
  - the number automaton, compared with section 6 of RFC 8259;
  - `json_strhash` and the chained hashtable with its resize;
  - arrays;
  - the character-level lexer with strings, `\u` escapes (UTF-8 of
    RFC 3629), keywords and numbers.

Each source file is one module. Values are datatypes and pure code is
functions. A structure whose fields the C code updates is a class whose
methods have `modifies` clauses: `Addresses.Addr`, `Circular.CircularBuffer`,
`Packets.Data`, `Membufs.Membuf`, `Multipart.MultipartParser`, `Registry.Registry`,
`RcRegistry.Server`, `Exports.Export`, `Services.Service`, `Http.HttpHeader`,
`Runs.Run`, `JsonHash.HashTable`, `JsonArrays.JsonArray` and
`JsonLexer.Lexer`. Each method is specified by a function of the old state,
and lemmas state the properties of those functions. `common.dfy` holds the
shared helpers: bytes, `Option`, the digits and `strtol`-style number reading
that several files use. C text is `string`, and NULL is `None` of
an `Option`.

## Model

| member | source | states |
|---|---|---|
| Addresses.Addr.Zero | src/addr.c:11-14 | a fresh address is 0.0.0.0:0 |
| Addresses.Addr.SetIp | src/addr.c:55-68 | accepted (0) iff the text is NULL or 7 to 15 characters long; NULL stores "0.0.0.0"; a refusal (-1) changes nothing; the port is kept |
| Addresses.Addr.SetPort | src/addr.c:70-78 | accepted iff 0 <= port <= 65535; a refusal returns -1 and changes nothing |
| Addresses.Addr.Set | src/addr.c:46-53 | succeeds iff both the IP and the port are accepted; a refused IP changes nothing; a refused port leaves the new IP in place |
| Addresses.NewAddr | src/addr.c:16-26 | NULL iff the IP or the port is refused, otherwise a fresh address holding both |
| Addresses.AddrString | src/addr.c:92-102 | "(null)" for NULL, otherwise the IP, ':' and the port in decimal |
| Addresses.AddrEq | src/addr.c:104-113 | true iff the two addresses have the same IP text and port |
| Addresses.ParseAddrAsWritten | src/addr.c:115-156 | the parser as written, with the port narrowed to `int` before the range check; whatever it accepts is well formed |
| Addresses.ParseAddr | src/addr.c:115-156 | the parser with the range check on the value `strtol` read; whatever it accepts is well formed |
| Addresses.ParseAddrAccepts | src/addr.c:115-156 | "ip:rest" with no ':' in the IP is accepted iff the IP has 7 to 15 characters and `strtol` reads all of `rest` as a number in 0..65535, and the result is that IP and that port |
| Addresses.ParseAddrAsWrittenAccepts | src/addr.c:115-156 | "ip:rest" with no ':' in the IP is accepted by the code as written iff the IP has 7 to 15 characters, `strtol` reads all of `rest` and the value narrowed to `int` is in 0..65535; the port is that narrowed value |
| Addresses.ParseAddrAgrees | src/addr.c:141-145 | whenever the corrected parser accepts, the parser as written gives the same address |
| Addresses.PortWrapsAround | src/addr.c:141-145 | the parser as written accepts "1.2.3.4:4294967376" as port 80; the corrected one refuses it |
| Addresses.WrapsAround | src/addr.c:141-145 | every out-of-range port text whose 32-bit narrowing is 80 is accepted as port 80 by the parser as written and refused by the corrected one |
| Addresses.ParseOfParts | src/addr.c:120-145 | both parsers split "ip:rest" at the first ':' |
| Addresses.ParseAddrString | src/addr.c:92-156 | parsing the text `addr_string` prints, with either parser, gives back the address, for every well-formed address whose IP has no ':' |
| Addresses.Parse | src/addr.c:115-156 | returns NULL iff the parser as written refuses the text, otherwise a fresh address equal to its result |
| Circular.WriteRing | librcom/src/circular.c:99-129 | a write keeps the read position and the length; the positions stay within the array |
| Circular.ReadRing | librcom/src/circular.c:131-154 | a read keeps the bytes and the write position; the positions stay within the array |
| Circular.AvailablePlusSpace | librcom/src/circular.c:70-97 | stored and free bytes always add up to the length of the buffer |
| Circular.FreshRing | librcom/src/circular.c:28-42 | a new buffer stores nothing and has its whole length free |
| Circular.OversizedWriteIsDropped | librcom/src/circular.c:105-107 | a write longer than the buffer leaves the state, and so what is stored, unchanged |
| Circular.ReadIsClamped | librcom/src/circular.c:135-137 | a read returns as many bytes as asked for, but never more than the length of the buffer |
| Circular.WriteAppends | librcom/src/circular.c:99-129 | a write smaller than the free space appends exactly its bytes to what is stored |
| Circular.ReadPops | librcom/src/circular.c:131-154 | a read of at most what is stored returns the oldest bytes, and what stays is the rest |
| Circular.CircularBuffer.constructor | librcom/src/circular.c:28-42 | a new buffer of the given size with both positions at 0 |
| Circular.CircularBuffer.CountersOfState | librcom/src/circular.c:65-97 | the size and the two counters of the object are those of its state |
| Circular.CircularBuffer.Write | librcom/src/circular.c:99-129 | the array is updated in place so that the new state is `WriteRing` of the old one |
| Circular.CircularBuffer.Read | librcom/src/circular.c:131-154 | returns the bytes `ReadRing` copies out and moves to the state it leaves |
| Packets.TimestampRoundTrip | librcom/src/data.c:169-191 | reading back the big-endian timestamp bytes written for `t` gives `t`, and writing the value read from 8 bytes gives those bytes |
| Packets.SeqnumRoundTrip | librcom/src/data.c:193-208 | the same two round trips for the 4-byte big-endian sequence number |
| Packets.ClearedTimestampIsZero | librcom/src/data.c:154-177 | eight zero bytes read as 0, and a value is packed into eight zero bytes only when it is 0 |
| Packets.ClampLen | librcom/src/data.c:73-80 | the result lies in [0, 1420]; an argument in range is kept, a negative one gives 0, a larger one 1420 |
| Packets.Data.constructor | librcom/src/data.c:31-37 | a new container has length 0 and a zero first payload byte |
| Packets.Data.SetData | librcom/src/data.c:57-71 | with a source, the length becomes the request cut to 1420 and that many bytes are copied, the rest of the payload untouched; a NULL source changes nothing |
| Packets.Data.SetLen | librcom/src/data.c:73-80 | the length becomes `ClampLen` of the argument; the payload bytes are not touched |
| Packets.Data.AppendZero | librcom/src/data.c:82-90 | below 1420 a zero is stored after the payload and the length grows by one; a full payload keeps its length and gets a zero in its last byte |
| Packets.Data.ClearTimestamp | librcom/src/data.c:154-157 | the eight timestamp bytes become zero, so the timestamp reads 0 |
| Packets.Data.SetTimestamp | librcom/src/data.c:179-191 | the timestamp bytes are the big-endian packing of the clock value, which the timestamp then reads back |
| Packets.Data.SetSeqnum | librcom/src/data.c:201-208 | the sequence-number bytes are the big-endian packing of `n`, which the sequence number then reads back |
| Packets.DataLen | librcom/src/data.c:44-49 | 0 for NULL, otherwise the length, which is always within [0, 1420] |
| Exports.NameMatchesExactly | librcom/src/export.c:160-164 | a path matches an export iff it is the name itself or '/' followed by the name |
| Exports.JsonAfterSetMimetypes | librcom/src/export.c:102-125 | after setting the mimetypes, each direction is JSON iff the new mimetype is exactly "application/json"; a missing one never is |
| Exports.Export.constructor | librcom/src/export.c:40-70 | a new export holds the name and both mimetypes, with no handler and no user data |
| Exports.Export.Clone | librcom/src/export.c:86-92 | a fresh export with the same name, mimetypes, user data and handler |
| Exports.Export.SetOnrequest | librcom/src/export.c:94-100 | replaces the handler and its user data and nothing else |
| Exports.Export.SetMimetypes | librcom/src/export.c:102-125 | returns 0 and replaces both mimetypes, a NULL clearing its field, and nothing else |
| Frames.BigEndianRoundTrip | librcom/src/messagelink.c:1080-1097 | a value that fits in `n` bytes is read back unchanged from its `n` network-order bytes |
| Frames.BigEndianOf65536 | librcom/src/messagelink.c:1080-1084 | 65536 written in two bytes is [0, 0] and reads back as 0 |
| Frames.MaskTwice | librcom/src/messagelink.c:1109-1132 | XOR masking with the 4-byte key undoes itself, so the reader recovers the payload |
| Frames.ZeroMask | librcom/src/messagelink.c:752-761 | the all-zero key an unmasked frame is read with leaves the payload unchanged |
| Frames.Masked | librcom/src/messagelink.c:1115-1127 | masking keeps the length of the payload |
| Frames.HeaderShape | librcom/src/messagelink.c:1064-1107 | the header as written has 2, 4 (lengths 126 to 65536) or 10 bytes plus 4 for a key; its first byte is 0x80 with the opcode; the mask bit is set iff masked; a masked header ends with the key |
| Frames.CorrectedHeaderShape | librcom/src/messagelink.c:1064-1107 | the header of section 5.2 of RFC 6455 has 2, 4 (lengths 126 to 65535) or 10 bytes plus 4 for a key, the same first byte and the same mask bit |
| Frames.HeaderAsWrittenAgrees | librcom/src/messagelink.c:1064-1107 | the header as written equals the one of section 5.2 of RFC 6455 at every length except 65536 |
| Frames.HeaderAsWrittenLosesLength | librcom/src/messagelink.c:1080-1084 | a 65536-byte payload gets a header as written that reads back as an empty payload |
| Frames.DecodeHeader | librcom/src/messagelink.c:661-761 | a decoded header never claims more bytes than were read, and always carries a 4-byte key (zero when unmasked) |
| Frames.DecodeHeaderOfHeader | librcom/src/messagelink.c:1064-1107 | a header written for an opcode, key and length reads back, ahead of any stream, as FIN set, that opcode, mask bit, length, key and header size |
| Frames.ReadMessage | librcom/src/messagelink.c:715-806 | fails only with -1 or -2; -2 exactly when the announced length exceeds 16 MiB; a received payload has the announced length and lies within the stream |
| Frames.FrameRoundTrip | librcom/src/messagelink.c:715-806 | a frame made as written for a payload of at most 16 MiB, other than exactly 65536 bytes, and read by the other end gives back its opcode and payload |
| Frames.FrameOf65536ReadsEmpty | librcom/src/messagelink.c:1064-1107 | an unmasked frame made as written for exactly 65536 bytes is read back as a frame with an empty payload |
| Frames.LongFrameRefused | librcom/src/messagelink.c:763-766 | a header made as written announcing more than 16 MiB makes the read fail with -2 whatever follows |
| Frames.MakeHeader | librcom/src/messagelink.c:1064-1107 | writes the header as written (16-bit form up to and including 65536) into the 14-byte array, returns its size and leaves the remaining bytes alone |
| Frames.AppendPayload | librcom/src/messagelink.c:1109-1132 | appends the payload, XORed with the key byte i mod 4 when masked and copied unchanged otherwise |
| Frames.MakeFrame | librcom/src/messagelink.c:1134-1150 | appends the header as written followed by the payload, masked when the frame is masked |
| Frames.CloseCode | librcom/src/messagelink.c:616-626 | the close code is always a 16-bit value |
| Frames.CloseRoundTrip | librcom/src/messagelink.c:616-626 | the code one end sends, cut to 16 bits, is the one the other end reports; an empty close payload reports 1005 |
| Handshake.GetHeader | src/messagelink.c:302-312 | the index of the first header whose name is exactly the one asked for; NULL iff no header has that name |
| Handshake.GetHeaderAppend | src/messagelink.c:302-312 | headers added behind a list that already has the name do not change the lookup |
| Handshake.ValidateAsWritten | src/messagelink.c:1269-1287 | the check as written only ever answers 0 or -1 |
| Handshake.ValidateAsWrittenRefuses | src/messagelink.c:1269-1287 | the check as written refuses exactly when the key or the version is missing, or, after a version 13, the Upgrade header, or, after "websocket", the Connection header |
| Handshake.Validate | src/messagelink.c:1269-1287 | the corrected check answers 0 or -1 |
| Handshake.ValidateAccepts | src/messagelink.c:1269-1287 | the corrected check accepts exactly a request with a key, version 13, "Upgrade: websocket" and a Connection value containing "Upgrade" |
| Handshake.ValidateStricter | src/messagelink.c:1269-1287 | whatever the corrected check accepts the check as written accepts, and whatever the latter refuses the former refuses |
| Handshake.BadVersionAccepted | src/messagelink.c:1274-1276 | a request with a key and version 8 and neither Upgrade nor Connection is accepted as written and refused by the corrected check |
| Http.StatusStringUnknown | librcom/src/http.c:122-175 | every code the switch does not list, 402 among them, gives "--" |
| Http.StatusStringKnown | librcom/src/http.c:122-175 | every listed code has a reason phrase other than "--" |
| Http.SuffixFrom | librcom/src/http.c:379-412 | the first table entry from `i` on whose extension is a proper suffix of the name, or none when no later entry's is |
| Http.MimetypeOf | librcom/src/http.c:395-412 | the mimetype of the first entry whose extension is a proper suffix of the name, or "application/octet-stream" when none is |
| Http.FilenameToMimetype | librcom/src/http.c:395-412 | the table loop returns `MimetypeOf` of the name |
| Http.MimetypeFrom | librcom/src/http.c:414-426 | the first table entry from `i` on whose mimetype agrees with the argument over the shorter of the two lengths, or none |
| Http.MimetypeToFileextension | librcom/src/http.c:414-426 | the table loop returns the extension of the first prefix-matching entry, or NULL |
| Http.PrefixesMatchHtml | librcom/src/http.c:417-423 | because only the shorter length is compared, "", "text" and "text/html; charset=utf-8" all map to ".html" |
| Http.ExtensionsAreShort | librcom/src/http.c:379-393 | no extension of the table has more than 12 characters |
| Http.SuffixFromAgrees | librcom/src/http.c:395-412 | names that agree on every proper-suffix test get the same table entry |
| Http.MimetypeIgnoresDirectory | librcom/src/http.c:395-412 | a prefix in front of a name of at least 13 characters does not change its mimetype |
| Http.Trimmed | librcom/src/http.c:92-97 | a prefix of the text that does not end in '\n', '\r' or ' ', and everything cut off is one of those |
| Http.TrimmedIdempotent | librcom/src/http.c:92-97 | trimming twice is trimming once |
| Http.Trim | librcom/src/http.c:92-97 | the loop that clears trailing characters leaves `Trimmed` of the text |
| Http.HttpHeader.constructor | librcom/src/http.c:41-69 | a new header holds the given name and value |
| Http.HttpHeader.NameAppend | librcom/src/http.c:80-103 | returns 0; the name becomes the old name (empty if NULL) followed by the first `length` characters of the data; the value is kept |
| Http.HttpHeader.ValueAppend | librcom/src/http.c:80-111 | returns 0; the value becomes the old value followed by the data, then trimmed; the name is kept |
| Membufs.NextCapacity | src/membuf.c:16-28 | growth goes from 0 to 128 and then doubles, so capacities stay in 0, 128, 256, ... and always rise |
| Membufs.Membuf.constructor | src/membuf.c:30-39 | a new buffer is empty with nothing allocated |
| Membufs.Membuf.Available | src/membuf.c:111-114 | the free room is the allocation minus the characters in use, never negative |
| Membufs.Membuf.Grow | src/membuf.c:16-28 | the allocation moves to `NextCapacity`, keeping every old character and the contents |
| Membufs.Membuf.Put | src/membuf.c:51-61 | the character is appended to the contents; when the buffer is full it grows once, to 128 from empty and otherwise to twice its size, and its size stays the same otherwise |
| Membufs.Membuf.Append | src/membuf.c:73-84 | grows until the data fits, then the contents are the old ones followed by the data; the allocation never shrinks |
| Membufs.Membuf.AppendZero | src/membuf.c:86-89 | exactly a put of the character 0 |
| Membufs.Membuf.Clear | src/membuf.c:91-94 | the contents become empty and the allocation is kept |
| Membufs.Membuf.SetLen | src/membuf.c:106-109 | the number of characters in use becomes `len` over the same allocation |
| Membufs.Membuf.Assure | src/membuf.c:121-129 | grows until at least `size` characters are free, keeping the contents |
| Multipart.LengthValue | librcom/src/multipart_parser.c:137-139 | the declared length is what `strtol` reads after the prefix, narrowed to a 32-bit `int` |
| Multipart.BadValuesRefused | librcom/src/multipart_parser.c:127-144 | a "Content-Length: 0" line is refused, and so is a Content-Type line whose mimetype has 127 characters or more |
| Multipart.ZeroLengthRefused | librcom/src/multipart_parser.c:137-144 | a length line reading 0 is refused |
| Multipart.LongTypeRefused | librcom/src/multipart_parser.c:127-135 | a mimetype too long for the 128-byte field is refused |
| Multipart.ApplyLineLength | librcom/src/multipart_parser.c:124-157 | with the corrected length check, a line that is accepted leaves a non-negative length, and no line is refused as a bad separator |
| Multipart.ApplyLinesLength | librcom/src/multipart_parser.c:117-161 | the same for all the lines of a header |
| Multipart.NextEol | librcom/src/multipart_parser.c:117-121 | the position found is the end of a "\r\n" at or after the start |
| Multipart.LinesEndAtEol | librcom/src/multipart_parser.c:117-160 | every line the scan reads is followed by "\r\n" in the header |
| Multipart.Window | librcom/src/multipart_parser.c:179-192 | the window always holds four characters |
| Multipart.WindowIsEoh | librcom/src/multipart_parser.c:180-194 | the window reads "\r\n\r\n" exactly when the collected text ends with it |
| Multipart.Initial | librcom/src/multipart_parser.c:55-83 | a new parser reads a header, has empty buffers and keeps the invariant |
| Multipart.CompleteHeader | librcom/src/multipart_parser.c:194-203 | after the last header character the parser is either complete, with the header and window cleared, or in the error state, and keeps the invariant |
| Multipart.Push | librcom/src/multipart_parser.c:185-192 | one more character is appended to the header and the window; the window reads "\r\n\r\n" iff the header now ends with it |
| Multipart.ReadingNotAtEnd | librcom/src/multipart_parser.c:185-205 | a parser still reading a header never has "\r\n\r\n" in its window |
| Multipart.Collected | librcom/src/multipart_parser.c:185-205 | the collecting loop keeps reading a header and consumes at least one character when there is one; it stops early only at the end of the header |
| Multipart.CollectedText | librcom/src/multipart_parser.c:185-205 | what is collected is exactly the stream's text, and when the window closes the header ends at its first blank line |
| Multipart.HeaderAppended | librcom/src/multipart_parser.c:170-208 | keeps the invariant; it consumes at least one character when there is one and all of them while the header is unfinished; it ends reading, complete or in error |
| Multipart.HeaderEndsAtFirstBlankLine | librcom/src/multipart_parser.c:170-208 | when a header is finished, its text ends with "\r\n\r\n" and holds it nowhere before; parsing exactly that text decides between complete and error |
| Multipart.ConsumedBounds | librcom/src/multipart_parser.c:215-228 | with an accepted length a body read takes what is provided or what is still needed, whichever is less, and never goes backwards |
| Multipart.PartAppended | librcom/src/multipart_parser.c:210-229 | the body grows by the stream's own characters up to the declared length; the part is complete iff the body reached that length; otherwise the whole buffer was taken |
| Multipart.NegativeLengthAccepted | librcom/src/multipart_parser.c:139-144 | "Content-Length: -1" passes the check as written and the body read then takes -1 characters; the corrected check refuses it |
| Multipart.NegativeLengthValue | librcom/src/multipart_parser.c:137-139 | the text "-1" after the prefix is read as the length -1 |
| Multipart.Step | librcom/src/multipart_parser.c:239-271 | one turn of the loop keeps the invariant and either consumes input or moves to a state of lower rank, so the loop ends |
| Multipart.Processed | librcom/src/multipart_parser.c:231-274 | the whole run keeps the invariant |
| Multipart.ProcessedStep | librcom/src/multipart_parser.c:239-272 | a run is its first turn followed by the run from where that turn stopped |
| Multipart.JoinedTwice | librcom/src/multipart_parser.c:239-272 | the callbacks of two stretches of a run are those of the first followed by those of the second |
| Multipart.StepCycle | librcom/src/multipart_parser.c:231-274 | each turn stays in a reading state or moves one state round read-header, header-complete, read-body, body-complete; only a header can lead to the error state |
| Multipart.ErrorIsTerminal | librcom/src/multipart_parser.c:269-270 | in the error state nothing is read any more, the parser is unchanged and -1 is returned |
| Multipart.CallbacksSeeDeclaredLength | librcom/src/multipart_parser.c:245-268 | the part callback gets a body of exactly the declared length, and the header callback an accepted, non-negative length |
| Multipart.MultipartParser.constructor | librcom/src/multipart_parser.c:55-83 | a new parser is in the `Initial` state |
| Multipart.MultipartParser.ApplyHeaderLine | librcom/src/multipart_parser.c:124-157 | the fields become those `ApplyLine` gives; a refused value puts the parser in the error state |
| Multipart.MultipartParser.ParseHeader | librcom/src/multipart_parser.c:94-163 | the new state is `Parsed` of the old one, and the result is 0 iff the header starts with "--nextimage" and every line is accepted |
| Multipart.MultipartParser.ScanLines | librcom/src/multipart_parser.c:117-161 | the scan comes out accepted iff reading all the lines does, with the fields that gives |
| Multipart.MultipartParser.FinishHeader | librcom/src/multipart_parser.c:194-203 | the new state is `CompleteHeader` of the old one |
| Multipart.MultipartParser.PushChar | librcom/src/multipart_parser.c:186-192 | the new state is `Push` of the old one |
| Multipart.MultipartParser.AppendHeader | librcom/src/multipart_parser.c:170-208 | the new state and the returned offset are those `HeaderAppended` gives |
| Multipart.MultipartParser.AppendPart | librcom/src/multipart_parser.c:210-229 | the new state and the returned offset are those `PartAppended` gives |
| Multipart.MultipartParser.Turn | librcom/src/multipart_parser.c:240-271 | the new state, the error code and the callbacks made are those of `Step` |
| Multipart.MultipartParser.Process | librcom/src/multipart_parser.c:231-274 | the new state, the returned error code and the callbacks made are those of `Processed` from offset 0 |
| RcRegistry.RouteOf | src/rcregistry.c:231-269 | a NULL message fails to parse; a message without a request string is invalid; "register", "unregister", "list" and "update-address" go to their handlers, each iff the request is that string; anything else is unknown and keeps its name |
| RcRegistry.RoutingFailures | src/rcregistry.c:239-268 | the replies "Failed to parse the request" and "Invalid request" under "?", "Unknown request" under the request's own name, and none for a routed request |
| RcRegistry.RegisterFailMessagesDistinct | src/rcregistry.c:107-116 | each of the codes -1 to -5 has its own message, none of them "Unknown error" |
| RcRegistry.RegisterFailMessageOfRequest | src/rcregistry.c:106-116 | a refused entry is told about the first check it fails: "Invalid ID", then "Invalid name", then "Invalid topic"; never "Unknown error" |
| RcRegistry.IdTextInjective | src/rcregistry.c:118 | distinct counter values give distinct id texts |
| RcRegistry.Server.constructor | src/rcregistry.c:35-60 | a new server has an empty registry and id counter 1 |
| RcRegistry.Server.RegisterEntry | src/rcregistry.c:93-148 | no entry is "Invalid entry value"; a refused entry gets the message of its parse error; otherwise the counter goes up by exactly one, the entry is appended under the old counter and broadcast; only success changes anything |
| RcRegistry.Server.UnregisterEntry | src/rcregistry.c:150-177 | a message without an id is dropped; with no matching entry the reply is an internal error and nothing changes; otherwise exactly the first matching entry is removed and the removal broadcast |
| RcRegistry.Server.SendList | src/rcregistry.c:179-192 | the reply lists a copy of every entry of the registry (NULL where the copy fails), in reverse registry order |
| RcRegistry.Server.UpdateEntryAddress | src/rcregistry.c:194-229 | a message without an id or an address is dropped; otherwise only the first matching entry gets the new address, an unreadable address is an internal error, and success is broadcast |
| RcRegistry.Server.OnMessage | src/rcregistry.c:231-269 | the counter moves only for a register request and then by one; unroutable messages get their failure reply and change nothing; a list request replies with every entry; register, unregister and update-address requests get exactly the replies, broadcasts and new entries of their handlers |
| Registry.TypeNamesRoundTrip | librcom/src/registry.c:30-61 | on the seven known types, the name of a type maps back to that type |
| Registry.StrToTypeKnown | librcom/src/registry.c:30-47 | a NULL string or one that is not one of the seven names maps to TYPE_NONE; a known name maps to a code whose name is that string |
| Registry.ValidId | librcom/src/registry.c:250-280 | accepts exactly 36 characters of lower-case hex in groups of 8-4-4-4-12 joined by '-' |
| Registry.ValidTopic | librcom/src/registry.c:283-297 | accepts exactly 2 to 256 characters, a lower-case letter first, then lower-case letters, '.', '-' or '_' |
| Registry.ValidName | librcom/src/registry.c:300-314 | accepts exactly 4 to 256 characters, a lower-case letter first, then lower-case letters, digits, '-' or '_' |
| Registry.ParseError | librcom/src/registry.c:115-176 | the parse error of an entry is one of 0, -1 to -5, from the first failing check: id, name, topic, type, address |
| Registry.ParseEntry | librcom/src/registry.c:115-176 | the checks run in the order id (-5), name (-1), topic (-2), type (-3), address (-4); each code comes exactly when its check is the first to fail, so the code is `Registry.ParseError`; 0 gives the entry with the parsed type and the address `addr_parse` reads, port narrowed to `int` |
| Registry.Matching | librcom/src/registry.c:382-432 | the entries that match the filter, all taken from the registry |
| Registry.MatchingStep | librcom/src/registry.c:412-432 | one more scanned entry adds one to the count iff it matches |
| Registry.SelectedStep | librcom/src/registry.c:382-405 | one more scanned entry puts its copy in front of the selection iff it matches |
| Registry.SelectedIsReversedMatching | librcom/src/registry.c:382-405 | the selection has as many elements as the count, and holds the copies of the matching entries, last match first |
| Registry.EverythingMatches | librcom/src/registry.c:407-410 | a filter with no field set and TYPE_ANY matches every entry |
| Registry.MatchingAppend | librcom/src/registry.c:382-432 | matching two lists one after the other is matching each |
| Registry.FirstWithId | librcom/src/registry.c:525-567 | the first entry with the id, or none when no entry has it; a NULL id matches none |
| Registry.RemovingFirstWithId | librcom/src/registry.c:525-544 | deleting the first entry with an id lowers the number of entries with that id by exactly one |
| Registry.FirstWithIdAt | librcom/src/registry.c:525-567 | the first match a scan from the front finds is `FirstWithId` |
| Registry.Registry.constructor | librcom/src/registry.c:328-338 | a new registry is empty |
| Registry.Registry.Insert | librcom/src/registry.c:480-498 | succeeds iff name, topic and address are given and the type is not negative, and then appends the entry at the end, a NULL id replaced by a fresh UUID; a refusal is -1 and changes nothing |
| Registry.Registry.Get | librcom/src/registry.c:364-380 | a copy of the first entry with the id, or NULL |
| Registry.Registry.Select | librcom/src/registry.c:382-405 | the copies `Selected` describes, as many as there are matches |
| Registry.Registry.Count | librcom/src/registry.c:412-432 | the number of matching entries, so always the length of the selection |
| Registry.Registry.Delete | librcom/src/registry.c:525-544 | removes only the first entry with the id and returns 0, or returns -1 and changes nothing when none has it |
| Registry.Registry.UpdateAddr | librcom/src/registry.c:546-567 | only the first entry with the id gets the address `addr_parse` reads as written (NULL and -1 when it does not parse); no match changes nothing and is 0 |
| Runs.ValidInfo | src/run.c:481-497 | accepts iff the text is NULL and the minimum is 0, or its length is within [min, max] and every character is in the allowed set |
| Runs.InLower | src/run.c:499-538 | a character is in the lower-case table iff it is a lower-case letter |
| Runs.InUpper | src/run.c:499-538 | a character is in the upper-case table iff it is an upper-case letter |
| Runs.InDigits | src/run.c:499-538 | a character is in the digit table iff it is a decimal digit |
| Runs.CharClasses | src/run.c:499-538 | each allowed-character string holds exactly its class: letters, '-' and '_' for names; also digits, '/' and '.' for paths; '=' as well for arguments; digits and '.' for addresses; letters, digits, '-' and '_' for user names |
| Runs.InfoOkIsFieldOk | src/run.c:481-497 | the table test of `valid_info` is the same as a test of each character against the class |
| Runs.ValidName | src/run.c:499-505 | accepts exactly 1 to 128 letters, '-' or '_', never NULL |
| Runs.ValidPath | src/run.c:507-514 | accepts exactly 2 to 256 letters, digits, '-', '_', '/' or '.', never NULL |
| Runs.ValidArg | src/run.c:516-523 | accepts exactly 1 to 256 path characters or '=' |
| Runs.ValidAddr | src/run.c:525-529 | accepts NULL and exactly 0 to 15 digits and dots |
| Runs.ValidUsername | src/run.c:531-538 | accepts NULL and exactly 0 to 32 letters, digits, '-' or '_' |
| Runs.NodeName | src/run.c:67-72 | the node name is the end of the path and holds no '/' |
| Runs.NodeNameOfPath | src/run.c:67-72 | a path without '/' is its own node name, and a directory in front of it is dropped |
| Runs.Run.constructor | src/run.c:99-139 | a new run holds copies of the fields, no arguments, pid -1 and status created |
| Runs.Run.AddArg | src/run.c:160-164 | appends the argument and changes nothing else |
| Runs.Strings | src/run.c:82-94 | the argument strings, one per item, in order |
| Runs.RunParse | src/run.c:33-97 | NULL iff the path, host or user name is refused, "args" is neither falsy nor an array, the path is not executable, or an argument is not a string; otherwise a new run named after the last part of the path, with the arguments in order |
| Runs.StringsSnoc | src/run.c:82-94 | one more string item adds that string at the end of the arguments |
| Runs.StringsUnique | src/run.c:82-94 | the argument list is determined by the items |
| Services.Values | librcom/src/service.c:390-489 | one value per export of the list, in list order |
| Services.ValuesAre | librcom/src/service.c:390-489 | the value at each position is that of the export there |
| Services.FirstMatch | librcom/src/service.c:402-410 | the position of the first export matching the path, or none iff no export matches |
| Services.FirstNamed | librcom/src/service.c:473-484 | the position of the first export named exactly so, or none iff no export is |
| Services.ExportedExisting | librcom/src/service.c:402-415 | exporting a name that matches at `k` updates the mimetypes, data and handler of that export only |
| Services.ExportedNew | librcom/src/service.c:417-426 | exporting a name that matches nothing puts a new export in front of the others |
| Services.LookupFound | librcom/src/service.c:462-472 | a lookup returns the first matching export |
| Services.LookupWildcard | librcom/src/service.c:473-484 | only when nothing matches, a lookup returns the first export named "*" |
| Services.LookupNothing | librcom/src/service.c:458-489 | with no match and no "*" export, a lookup returns NULL |
| Services.ExportedSize | librcom/src/service.c:390-427 | an existing name adds no export, a new one adds exactly one |
| Services.LookupAfterExport | librcom/src/service.c:390-489 | after exporting a name, looking it up finds an export with the mimetypes, data and handler just given |
| Services.FirstMatchAt | librcom/src/service.c:402-410 | a scan from the front that first matches at `k` finds `k` |
| Services.LookupPrefersMatch | librcom/src/service.c:458-489 | when some export matches, the lookup returns a matching one, never the wildcard in its place |
| Services.FirstNamedAt | librcom/src/service.c:473-484 | a scan from the front that first finds the name at `k` finds `k` |
| Services.Service.constructor | librcom/src/service.c:390-427 | a service starts without exports |
| Services.Service.ExportName | librcom/src/service.c:390-427 | returns 0; the values become `Exported` of the old ones; an existing name keeps the list of objects, a new one prepends a fresh export |
| Services.Service.Reexport | librcom/src/service.c:402-415 | the branch that found the name at `k`: the values become `Exported` of the old ones |
| Services.Service.AddExport | librcom/src/service.c:417-426 | the branch that found nothing: a fresh export is prepended and the values become `Exported` of the old ones |
| Services.Service.Prepend | librcom/src/service.c:423-425 | the export goes in front of the list |
| Services.Service.Find | librcom/src/service.c:402-410 | the first loop finds `FirstMatch` of the values |
| Services.Service.Update | librcom/src/service.c:405-407 | only export `i` gets the mimetypes, data and handler |
| Services.Service.GetExport | librcom/src/service.c:458-489 | NULL when `Lookup` finds nothing, otherwise a fresh copy of what it finds |
| Services.Service.FindWildcard | librcom/src/service.c:473-484 | the second loop finds the first export named "*" |
| Codecs.EscapeString | src/util.c:9-26 | the result is the escaped text followed by a NUL: tab, newline, carriage return, double quote and backslash become two-character backslash escapes, everything else is copied |
| Codecs.EscapedHasNoSpecials | src/util.c:9-26 | the escaped text contains no raw tab, newline or carriage return and is never shorter than the input |
| Codecs.UnescapeEscaped | src/util.c:9-26 | unescaping the escaped text gives the original text back |
| Codecs.EncodeBase64 | src/util.c:37-99 | the output is the base64 encoding of the input bytes, of length 4 * ((n + 2) / 3), with '=' padding for a final group of one or two bytes |
| Codecs.Base64Length | src/util.c:51-52 | the encoding of n bytes has 4 * ((n + 2) / 3) characters |
| Codecs.SextetValueOfAlphabet | src/util.c:39-48 | every entry of the 64-character table is recovered from its character, so the table has no duplicates |
| Codecs.Quad3RoundTrip | src/util.c:68-77 | a full three-byte group decodes back to its three bytes, ahead of the rest of the text |
| Codecs.Quad2RoundTrip | src/util.c:78-86 | a final group of two bytes padded with one '=' decodes back to those two bytes |
| Codecs.Quad1RoundTrip | src/util.c:87-94 | a final group of one byte padded with '==' decodes back to that byte |
| Codecs.Base64RoundTrip | src/util.c:37-99 | decoding the encoder's output gives back exactly the input bytes |
| Codecs.Hex2c | src/util.c:159-168 | the result is -1 exactly when the character is not a hex digit of either case, and a value 0..15 otherwise |
| Codecs.Hex2cDigits | src/util.c:159-168 | every hex digit, upper and lower case, reads back as its value |
| Codecs.Urlencode | src/util.c:133-157 | the buffer is cleared and ends as the percent-encoding of the text followed by a NUL; the result is 0 exactly when every character is printable ASCII and -1 otherwise, the encoding stopping at the first other character |
| Codecs.Urldecode | src/util.c:170-203 | the result is 0 exactly when every '%' is followed by two hex digits; then the buffer holds the decoded text and a NUL; otherwise the result is -1 and the buffer holds what was decoded before the bad escape, without a NUL |
| Codecs.UrlDecodeRejectsBadEscape | src/util.c:177-185 | a '%' that is not followed by two hex digits makes decoding fail at that point |
| Codecs.UrlRoundTrip | src/util.c:133-203 | decoding the encoding of printable ASCII text succeeds and gives the text back |
| JsonHash.StrHash | src/json.c:393-405 | the result is the key's characters read as a base-31 number, as signed chars, reduced modulo 2^32 |
| JsonHash.HashAppend | src/json.c:393-405 | one more character multiplies the 32-bit hash by 31 and adds the character; the shift-and-subtract form of the C loop gives the same value |
| JsonHash.HashShort | src/json.c:393-405 | the empty key hashes to 0 and a one-character key to that character |
| JsonHash.ChainPosUnique | src/json.c:752-771 | the walk along a chain stops at the first node holding the key, or at the end of the chain when none holds it |
| JsonHash.ChainFindAt | src/json.c:752-771 | in a chain without duplicate keys, every node is the one found for its own key |
| JsonHash.ChainFindAppend | src/json.c:788-793 | a node linked at the end of a chain that lacks its key makes that key map to the new value and changes no other key |
| JsonHash.ChainFindReplace | src/json.c:782-786 | replacing the value of the node the walk stops at changes the value of that key only |
| JsonHash.ChainFindRemove | src/json.c:815-829 | unlinking the node that holds a key from a chain without duplicates removes that key and keeps every other key |
| JsonHash.EmptyTable | src/json.c:720-734 | a table whose chains are all empty finds nothing, is well formed and counts no nodes |
| JsonHash.PushedWellFormed | src/json.c:863-870 | pushing a node whose key is absent in front of its chain keeps the table well formed and adds one to the count |
| JsonHash.RehashStep | src/json.c:850-875 | moving one more node of the old table into the new one keeps the rehashing invariant: the moved keys are found in the new table with their old values |
| JsonHash.RehashDone | src/json.c:850-875 | once every chain is moved, the new table is well formed, holds the same number of nodes and maps every key as the old table did |
| JsonHash.HashTable.constructor | src/json.c:720-734 | a new table has no chains, no nodes and no keys |
| JsonHash.HashTable.Size | src/json.c:844-847 | the count is the number of nodes in all chains |
| JsonHash.HashTable.LookupNode | src/json.c:752-771 | a table without chains first gets the minimum number of empty chains; the result is the chain of the key's hash and the position where the walk stops; no key changes |
| JsonHash.HashTable.Set | src/json.c:773-806 | a missing or empty key is refused with -1 and the table is unchanged; otherwise the key maps to the new value, every other key is unchanged, and the count grows by one exactly when the key was new |
| JsonHash.HashTable.Get | src/json.c:808-813 | the result is the value the table holds for the key, or none, and the table's mapping is unchanged |
| JsonHash.HashTable.Unset | src/json.c:815-829 | the key is removed and every other key kept; the result is 0 and the count drops by one when the key was present, and -1 with the count unchanged when it was not |
| JsonHash.HashTable.Resize | src/json.c:850-875 | the number of chains becomes 3n + 1, at most the maximum size; the count and the value of every key are unchanged |
| JsonArrays.GrownFrom | src/json.c:579-583 | growing by doubling from 8 reaches the smallest capacity of the form 8 * 2^k that exceeds the index |
| JsonArrays.SetElements | src/json.c:572-614 | after setting position i the array has length max(length, i + 1), holds the value at i, and every other position keeps its element or is a new NULL slot |
| JsonArrays.JsonArray.constructor | src/json.c:511-529 | a new array has four zeroed slots and no elements |
| JsonArrays.JsonArray.Length | src/json.c:541-547 | the length is the number of elements in use |
| JsonArrays.JsonArray.Get | src/json.c:549-559 | an index in range gives its element, any other index gives the null value |
| JsonArrays.JsonArray.Regrow | src/json.c:579-600 | the storage is replaced by a larger one with the elements copied over unchanged |
| JsonArrays.JsonArray.Set | src/json.c:572-614 | the elements become the old ones padded with NULL slots up to the index, with the value at the index; the storage grows to the smallest 8 * 2^k above the index when the index is past the old storage |
| JsonArrays.JsonArray.Push | src/json.c:616-623 | the value is appended after the last element |
| JsonExp.ParseExp | src/json.c:180-298 | the method computes exactly the path the character-by-character automaton accepts, or NULL |
| JsonExp.CopyName | src/json.c:112-120 | the copy of the name buffer is its characters before the terminating NUL |
| JsonExp.NamePartRun | src/json.c:196-218 | reading a run of name characters from the start of a part collects exactly those characters as the name |
| JsonExp.DigitsRun | src/json.c:252-265 | the digits between brackets accumulate to their decimal value |
| JsonExp.IndexPartRun | src/json.c:231-235 | a name followed by '[', a decimal index and ']' becomes one part with that index |
| JsonExp.PartEnd | src/json.c:236-244 | a part followed by the end of the text ends the path with that part last |
| JsonExp.PartDot | src/json.c:219-230 | a part followed by a separator is added to the path and reading goes on with the next part |
| JsonExp.PathRun | src/json.c:180-298 | reading a whole path as the printer writes it gives back its parts |
| JsonExp.ParsePrint | src/json.c:180-311 | parsing what the printer writes of a valid path (names of 1 to 127 name characters, indices or none) gives back the same parts |
| JsonExp.RunValid | src/json.c:180-298 | every part the automaton produces has a name of 1 to 127 name characters and an index or none |
| JsonExp.ParsedIsPath | src/json.c:180-298 | whatever is returned is a non-empty path of valid parts |
| JsonExp.LongNameRefused | src/json.c:196-218 | a name of 128 or more characters fills the buffer and the result is NULL |
| JsonNumber.AcceptsJsonNumbers | src/json.c:2144-2174 | the number automaton, started in its initial state, ends in an accepting state on a text exactly when the text is a number of section 6 of RFC 8259: no digit after a leading 0, at least one digit after '.' and after the exponent marker and its optional sign |
| JsonNumber.ErrorStays | src/json.c:2150 | nothing leads out of the error state |
| JsonNumber.DigitLoop | src/json.c:2154-2159 | the integer, fraction and exponent digit states stay put over a run of digits |
| JsonNumber.IntHead | src/json.c:2151-2159 | from the start or after the sign, the automaton accepts exactly the texts that are an integer part followed by an optional fraction and exponent |
| JsonLexer.Grow | src/json.c:1598-1614 | the allocation never shrinks, and after growth the next character fits |
| JsonLexer.Utf8Encodes | src/json.c:1995-2038 | the bytes written for a code unit are its UTF-8 encoding of section 3 of RFC 3629: one byte up to 0x7f, two bytes with a lead byte 0xc2..0xdf up to 0x7ff, three bytes with a lead byte 0xe0..0xef above, continuation bytes 10xxxxxx, and decoding them gives the code unit back |
| JsonLexer.OneStepConsistent | src/json.c:2366-2402 | every character fed keeps the buffer within its allocation and the escape counters in range |
| JsonLexer.Lexer.constructor | src/json.c:1564-1568 | a new lexer is the zeroed structure after a reset: between tokens, no buffer, no escape in progress, no error |
| JsonLexer.Lexer.Reset | src/json.c:1621-1639 | the lexer goes back between tokens with no token, no unwound character, an empty buffer, no escape in progress and no error; the allocation is kept |
| JsonLexer.Lexer.ResetBuffer | src/json.c:1641-1644 | the buffer is emptied and nothing else changes |
| JsonLexer.Lexer.Append | src/json.c:1596-1619 | the character is added to the buffer, the allocation doubling from 128 when it is full, and the result is k_continue |
| JsonLexer.Lexer.Unicode | src/json.c:1995-2038 | the lexer state and the result are those of the unicode step: the hex digits of an escape accumulate into the code unit, and the fourth writes its UTF-8 bytes |
| JsonLexer.Lexer.FeedString | src/json.c:2040-2084 | the lexer state and the result are those of the string step: escapes \n \r \t \b \f and \u are decoded, any other escaped character is copied, the quote that opened the string terminates the buffer and produces the string token |
| JsonLexer.Lexer.FeedNumber | src/json.c:2176-2202 | the lexer state and the result are those of the number step: a character the automaton takes is appended; a refused character after an accepting state terminates the buffer, is unwound and produces the number token; otherwise the result is the token error |
| JsonLexer.Lexer.FeedTrue | src/json.c:2204-2227 | the lexer state and the result are those of the keyword step for "true": the letter is appended, a prefix that disagrees with the word is a token error, and the whole word produces its token and empties the buffer |
| JsonLexer.Lexer.FeedFalse | src/json.c:2229-2253 | as for true, with the word "false" |
| JsonLexer.Lexer.FeedNull | src/json.c:2255-2279 | as for true, with the word "null" |
| JsonLexer.Lexer.FeedJson | src/json.c:2281-2364 | the lexer state and the result are those of the step between tokens: white space is skipped, punctuation produces its token, a quote opens a string, a keyword letter or a number start is fed to its reader, NUL ends the text and any other character is a token error |
| JsonLexer.Lexer.FeedOne | src/json.c:2366-2402 | the token is cleared and the character goes to the reader of what the lexer is in the middle of; the new state and result are those of the reference step |
| JsonTokens.LexWhite | src/json.c:2285-2286 | between tokens, white space is skipped and reading goes on with the next character |
| JsonTokens.LexPunct | src/json.c:2288-2306 | between tokens, a punctuation character produces its token at once |
| JsonTokens.LexStop | src/json.c:2352-2360 | between tokens, NUL ends the text with k_end_of_string and a character that starts no token is a token error |
| JsonTokens.StringFrom | src/json.c:2040-2084 | inside a string body, the lexer produces the string token, with the decoded bytes and a NUL in the buffer, at the position after the closing quote that the reference unescaping finds; when that reading runs off the end of the text, no token and no error is produced |
| JsonTokens.LexString | src/json.c:2308-2312 | a quote between tokens opens a string, and the string token is produced exactly when the reference unescaping finds the same quote again, with the decoded text in the buffer |
| JsonTokens.EscapedUnicode | src/json.c:1995-2038 | a \u escape with four hex digits adds the UTF-8 bytes of their code unit and reading goes on after the six characters |
| JsonTokens.PartialEscape | src/json.c:2044-2048 | a text that ends inside a \u escape produces neither a token nor an error |
| JsonTokens.AgreementAll | src/json.c:2204-2279 | the letters read agree with the rest of the keyword exactly when the text holds the rest of the word there |
| JsonTokens.LexKeyword | src/json.c:2204-2279 | a keyword's first letter between tokens produces its token, at the position after the word and with the buffer emptied, exactly when the text holds the whole word there; a letter that disagrees first is a token error; a text that ends inside the word produces nothing |
| JsonTokens.LexNumber | src/json.c:2176-2202 | a number start between tokens: at the first character the automaton refuses, the number token is produced exactly when the text read is a number of section 6 of RFC 8259, with that text and a NUL in the buffer and the refused character unwound; otherwise the result is the token error; a text that ends first produces nothing |

## Left out

- Sockets, TCP and UDP I/O, select and poll are left out. Frames, packets and multipart streams are modelled as byte sequences handed to the model.
- Threads and mutexes are left out; every lock and unlock in the core is a no-op here.
- Allocation failure is left out. Every `malloc`, `realloc` and `strdup` in the core is taken to succeed, so the out-of-memory error paths do not appear.
- Log messages (`log_err`, `log_warn`, ...) are left out; only the values the functions return are modelled.
- SHA1 and `_make_accept` are left out, because SHA1 is not part of this model. The accept key of the handshake is therefore not computed.
- Random masking keys and WebSocket keys are left out. The mask is a parameter of `Frames.MakeFrame`.
- Clocks are left out: the clock value written by `data_set_timestamp` is a parameter. So are floating-point numbers (`atof`, `strtod`, double timestamps) and `json_number_create`.
- The multipart timestamp header is parsed with `strtod` in the source. The model reduces it to the parameter `hooks.timestampIsZero`: is the parsed value zero?
- The multipart `onheaders` and `onpart` callbacks are parameters giving their return values; the model records each call as an event.
- The `k_error` branch of `multipart_parser_process` never advances and loops forever. It is modelled as a terminal state returning -1.
- The static `_eoh` and `_eol` registers of the multipart parser, which keep their contents across calls, are a parser field and a local of the header reader.
- The launcher's `check_path` looks at the file system. It is the parameter `executable` of `Runs.RunParse`.
- The JSON arguments of a node in `run_parse` are abstracted as `Runs.ArgsField`: absent, an array of optional strings, or not an array.
- Process control in `src/run.c` (start, stop, signals) is left out, as is the rest of the launcher.
- `src/rcregistry.c` calls an older registry API with integer ids. The model runs it against `Registry.Registry`, with the id counter written as decimal text.
- In `src/rcregistry.c`, the `json_object_getnum` NaN test with its `(int)` cast becomes an optional integer id. The JSON texts of the broadcasts are the datatype `RcRegistry.Broadcast`.
- The address comparison inside `registry_select` is equality of optional addresses.
- Addresses: the IP is kept as text and only its length is checked. The syntax `inet_aton` accepts is not modelled, and neither is the `ip[64]` buffer of `addr_parse`.
- JSON values (objects, strings, numbers, booleans) are represented by handles (`nat`), and reference counts are left out.
- JSON objects are left out beyond their hashtable (`json_object_*` forwards to it), and so are serialisation and `json_load`.
- `json_parser_token` is left out, together with the parser's state and value stacks. `json_parser_feed` and `json_parser_eval`, which re-feed the unwound character, are left out as well.
- The expression tokenizer and evaluator of `src/json.c` (`tokenizer_*`, `evaluator_do`, `json_get`) are left out.
- JSON lexer characters are octets. A surrogate pair, like the source does it, is written as two three-byte sequences rather than as one four-byte UTF-8 sequence.
- JsonExp.ParseExp: the index of `name[digits]` is an unbounded integer, so the overflow of the C `int` on very long digit runs is not modelled.
- JsonArrays.JsonArray.Set: requires a non-negative index. A negative index makes the C code write before its array, which is undefined behaviour.
- Packets.Data.SetData: requires a non-negative length and a source holding the bytes to copy. The C code passes a negative length to `memcpy` unchecked.
- Membufs.Membuf.SetLen: requires a length within the allocation, which the C code does not check.
- Circular.CircularBuffer.Write: takes the data as a sequence, so its length is never negative; a negative C `len` is not modelled.
- Circular.CircularBuffer.Read: the requested length is a `nat`, for the same reason.
- Codecs.Urldecode: decodes the whole string, so the `len` argument is taken to be its length.
- Codecs.Urlencode: text arguments are C strings, and the model does not enforce that they contain no NUL. A NUL inside the sequence is refused like any other unprintable character.
- Codecs.EscapeString: for the same reason, a NUL inside the sequence is copied rather than ending the text.
- Frames.FrameRoundTrip: excludes a payload of exactly 65536 bytes, whose header as written announces length 0 (see Findings); Frames.FrameOf65536ReadsEmpty states what is read instead.
- Multipart.MultipartParser.Process: uses the corrected length check, which refuses a negative Content-Length. The C code accepts one and then calls `memcpy` with a negative size in the body read (src/membuf.c:74-81), which is undefined behaviour and cannot be modelled (see Findings).
- Multipart.MultipartParser.Turn: uses the corrected length check, which refuses a negative Content-Length. The C code accepts one and then calls `memcpy` with a negative size in the body read (src/membuf.c:74-81), which is undefined behaviour and cannot be modelled (see Findings).
- Multipart.MultipartParser.AppendHeader: uses the corrected length check, which refuses a negative Content-Length. The C code accepts one and then calls `memcpy` with a negative size in the body read (src/membuf.c:74-81), which is undefined behaviour and cannot be modelled (see Findings).
- Multipart.MultipartParser.FinishHeader: uses the corrected length check, which refuses a negative Content-Length. The C code accepts one and then calls `memcpy` with a negative size in the body read (src/membuf.c:74-81), which is undefined behaviour and cannot be modelled (see Findings).
- Multipart.MultipartParser.ParseHeader: uses the corrected length check, which refuses a negative Content-Length. The C code accepts one and then calls `memcpy` with a negative size in the body read (src/membuf.c:74-81), which is undefined behaviour and cannot be modelled (see Findings).
- Multipart.MultipartParser.ScanLines: uses the corrected length check, which refuses a negative Content-Length. The C code accepts one and then calls `memcpy` with a negative size in the body read (src/membuf.c:74-81), which is undefined behaviour and cannot be modelled (see Findings).
- Multipart.MultipartParser.ApplyHeaderLine: uses the corrected length check, which refuses a negative Content-Length. The C code accepts one and then calls `memcpy` with a negative size in the body read (src/membuf.c:74-81), which is undefined behaviour and cannot be modelled (see Findings).
- Multipart.CompleteHeader: uses the corrected length check, which refuses a negative Content-Length. The C code accepts one and then calls `memcpy` with a negative size in the body read (src/membuf.c:74-81), which is undefined behaviour and cannot be modelled (see Findings).
- Multipart.HeaderAppended: uses the corrected length check, which refuses a negative Content-Length. The C code accepts one and then calls `memcpy` with a negative size in the body read (src/membuf.c:74-81), which is undefined behaviour and cannot be modelled (see Findings).
- Multipart.Step: uses the corrected length check, which refuses a negative Content-Length. The C code accepts one and then calls `memcpy` with a negative size in the body read (src/membuf.c:74-81), which is undefined behaviour and cannot be modelled (see Findings).
- Multipart.Processed: uses the corrected length check, which refuses a negative Content-Length. The C code accepts one and then calls `memcpy` with a negative size in the body read (src/membuf.c:74-81), which is undefined behaviour and cannot be modelled (see Findings).
- Multipart.CallbacksSeeDeclaredLength: uses the corrected length check, which refuses a negative Content-Length. The C code accepts one and then calls `memcpy` with a negative size in the body read (src/membuf.c:74-81), which is undefined behaviour and cannot be modelled (see Findings).
- Codecs.EncodeBase64: encodes every byte of the sequence, so a NUL byte inside it is encoded, while `encode_base64` stops at the first NUL (`strlen`, src/util.c:50).
- Http.Trim: the trimmed text is a new value; the in-place write of the NUL terminator is not modelled.
- The older duplicates of these files (`src/registry.c`, `src/circular.c`, `src/data.c`, `src/export.c`, `src/http.c`, `src/multipart_parser.c`, `src/service.c`) are not part of this model.

## Findings

| source | as written | input that shows it | evidently intended | confidence | as-written member | corrected member |
|---|---|---|---|---|---|---|
| src/addr.c:141-145 | the parsed `long` port is narrowed to `int` before the 0..65535 range check | "1.2.3.4:4294967376" parses as port 80 | ports outside 0..65535 are refused | not executed | Addresses.PortWrapsAround | Addresses.ParseAddrAccepts |
| librcom/src/messagelink.c:1080-1084 | a length up to and including 65536 takes the 16-bit form | a 65536-byte unmasked payload gets a header whose length reads back as 0 | the 16-bit form only up to 65535 (section 5.2 of RFC 6455) | not executed | Frames.HeaderAsWrittenLosesLength | Frames.DecodeHeaderOfHeader |
| src/messagelink.c:1274-1286 | a wrong version, Upgrade or Connection value returns 0, the success code, at once and skips the remaining checks | a key and version "8", with no Upgrade and no Connection header, is accepted | version 13, Upgrade "websocket" and a Connection containing "Upgrade" are required | not executed | Handshake.BadVersionAccepted | Handshake.ValidateAccepts |
| librcom/src/multipart_parser.c:139-144 | only a Content-Length of 0 is refused | "Content-Length: -1" is accepted; the body read then calls `memcpy` with length -1, which is undefined behaviour, and moves the offset back by one | a length must be positive | not executed | Multipart.NegativeLengthAccepted | Multipart.ApplyLinesLength |
