# A verified model of four pieces of the race-timing suite

This project models four sequential pieces of the race-timing application in
Dafny and proves properties of them:

- **The WebSocket server** (`websocket_server.py`). It covers:
  - the opening handshake: the two regular expressions it searches the request with, the `101` response and the `Sec-WebSocket-Accept` token;
  - the frame encoder of `send_text`;
  - the frame decoder of `read_next_message`, with XOR unmasking;
  - dispatch of text, ping and pong frames;
  - the per-connection flags `keep_alive`, `handshake_done` and `valid_client`, which drive `handle`;
  - the registry of connected handlers, with its callbacks.

  Modules `WsFrame`, `WsHandshake` and `WsServer` model it. They rest on:
  - `Utf8`: `str.encode` and `bytes.decode('utf-8')`;
  - `Base64`: `b64encode`, section 4 of RFC 4648;
  - `Bits`: `&`, `|` and `^` on numbers.
- **The series scoring model** (`SeriesMgr/SeriesModel.py`). It covers:
  - race names derived from file paths;
  - points structures: parsing the points text, writing it out, looking up points and the two preset tables;
  - the series itself: its races, its points structures and its category order. Every edit raises the `changed` flag only when it alters something.

  Modules `Series` and `SeriesConfig` model it.
- **RFID tag-read grouping** (`CrossMgrImpinj/TagGroup.py`). Reads of a tag are gathered per antenna. When a tag goes quiet, one best time is reported for it. A tag read without a pause for too long is a stray: it is reported once and from then on keeps only its newest reads.

  `TagGroupModel` states the behaviour on values. `TagGroups` holds the classes `AntennaReads`, `TagGroupEntry` and `TagGroup`, whose methods are proved against those values.
- **The Impinj import line parser** (`ImpinjImport.py`). `parseTagTime` turns a `tag,timestamp` line into a tag read, skips the header row, and appends an error record carrying the line number when a line cannot be read. `timeFromStr` reads a time of day. Module `ImpinjImport` models both.

`PyText` holds the Python `str` operations the four pieces use: `strip`, `split`, `replace`, `lower`, `int()`, `str()` and string order. `Sorting` holds `sorted()` as an insertion sort, proved sorted and a permutation.

## Model

| member | source | states |
|---|---|---|
| WsFrame.BigEndian | websocket_server.py:325 | the k-byte packing `struct.pack` writes (2 bytes for `>H`, 8 for `>Q`) has exactly k bytes |
| WsFrame.FromBigEndianBound | websocket_server.py:276-279 | the length `struct.unpack` reads from k bytes is below 256^k |
| WsFrame.UnpackPack | websocket_server.py:276-279 | unpacking the bytes `struct.pack` wrote gives back any length that fits in them |
| WsFrame.PackUnpack | websocket_server.py:276-279 | packing an unpacked length gives back the same bytes |
| WsFrame.Mask | websocket_server.py:281-285 | unmasking keeps the payload's length |
| WsFrame.MaskAt | websocket_server.py:284 | byte i of the unmasked payload is byte i XOR `masks[i % 4]` |
| WsFrame.MaskMask | websocket_server.py:281-285 | masking and then unmasking with the same 4-byte key gives the payload back |
| WsFrame.FirstByteIsOr | websocket_server.py:318 | `FIN \| opcode` is 0x80 plus the opcode for every 4-bit opcode |
| WsFrame.ServerFrame | websocket_server.py:316-337 | a frame is built exactly when the payload is shorter than 2^64 bytes; otherwise `send_text` raises and sends nothing |
| WsFrame.ServerFrameLayout | websocket_server.py:312-337 | the frame sent has FIN set and the opcode in its first byte, no mask bit, and a length field that reads back as the payload length; the payload follows unchanged |
| WsFrame.Read | websocket_server.py:229-234 | `rfile.read(n)` returns at most n bytes, and fewer only when the input ends |
| WsFrame.ReadLength | websocket_server.py:276-279 | reading the extended length never moves back and never passes the end of the input |
| WsFrame.ReadLengthField | websocket_server.py:276-279 | for every n below 2^64, the length field `send_text` writes reads back as n: 126 selects 2 big-endian bytes, 127 selects 8, anything else is the length itself |
| WsFrame.ReadFrame | websocket_server.py:236-286 | one call of `read_next_message` stays within the input; a frame that does not end the connection consumes at least its two header bytes |
| WsFrame.HeaderFields | websocket_server.py:242-245 | `b & OPCODE`, `b & MASKED` and `b & PAYLOAD_LEN` are the low 4 bits, bit 7 and the low 7 bits of b |
| WsFrame.ReadClientFrame | websocket_server.py:236-286 | a masked text, ping or pong frame of any length below 2^64, with any key and anywhere in the input, decodes to its opcode and payload and consumes exactly the frame |
| WsFrame.ReadClientFrameAt | websocket_server.py:236-286 | the same for a frame that sits at any position of the input |
| WsFrame.ClientHeaderFields | websocket_server.py:238-279 | the header of a masked client frame reads as a non-zero first byte, its opcode, the mask bit and its payload length |
| WsFrame.ReadDataFrame | websocket_server.py:265-286 | a text, ping or pong header with the mask bit, followed by a key and n bytes, decodes to the unmasked bytes and ends after them |
| WsFrame.ReadBodyData | websocket_server.py:276-285 | after the length, the 4-byte key and n payload bytes are read and unmasked |
| WsFrame.ReadBody | websocket_server.py:276-285 | reading the length, key and payload never moves back and never passes the end of the bytes received |
| WsFrame.CloseBeforeMask | websocket_server.py:251-254 | a close frame ends the connection after its two header bytes, masked or not |
| WsFrame.UnsupportedReadsHeaderOnly | websocket_server.py:259-264 | a masked continuation or binary frame is dropped after its header; its payload stays in the input and the connection stays open |
| WsFrame.Latin1 | websocket_server.py:285 | `chr` of each byte gives one character per byte |
| Bits.AndLowMask | websocket_server.py:243 | `b & (2^k - 1)` keeps the k low bits of b |
| Bits.AndBit | websocket_server.py:242 | `b & 2^k` isolates bit k of b |
| Bits.XorXor | websocket_server.py:284 | XOR-ing twice with the same mask gives the byte back |
| Bits.XorBelow | websocket_server.py:284 | XOR of two bytes is a byte, so `chr` receives a value below 256 |
| Bits.OrDisjointHigh | websocket_server.py:318 | OR-ing a bit above all bits of the opcode adds it |
| Base64.Char | websocket_server.py:368 | every 6-bit value has an alphabet character that reads back as that value |
| Base64.Encode | websocket_server.py:368 | `b64encode` writes 4 characters per started group of 3 bytes |
| Base64.DecodeEncode | websocket_server.py:368 | decoding what `b64encode` wrote gives the bytes back |
| Base64.EncodeChars | websocket_server.py:368 | the encoding uses only the alphabet and `=` |
| Base64.StripEncode | websocket_server.py:368 | `.strip()` leaves the encoding unchanged |
| Base64.EndsWithPad | websocket_server.py:368 | the encoding of a byte count that is not a multiple of 3 ends with `=` |
| Utf8.EncodeChar | websocket_server.py:375-383 | a code point encodes to 1 to 4 bytes, and to 1 byte exactly when it is below 0x80 |
| Utf8.Encode | websocket_server.py:375-383 | `str.encode()` writes at least one byte per character |
| Utf8.DecodeChar | websocket_server.py:386-392 | decoding one character consumes 1 to 4 bytes of the input |
| Utf8.DecodeEncodeChar | websocket_server.py:375-392 | the bytes of a character decode back to it, whatever follows them |
| Utf8.DecodeEncode | websocket_server.py:375-392 | decoding what `str.encode()` wrote gives the text back |
| Utf8.EncodeDecodeChar | websocket_server.py:375-392 | a decoded character encodes back to the bytes it came from |
| Utf8.EncodeDecode | websocket_server.py:375-392 | encoding what decoded successfully gives the bytes back |
| Utf8.EncodeAscii | websocket_server.py:375-383 | text below 0x80 encodes one byte per character, each byte being the code point |
| Utf8.EncodeAppend | websocket_server.py:367 | `key.encode() + GUID.encode()` is `(key + GUID).encode()` |
| WsHandshake.FindUpgradeFrom | websocket_server.py:341 | a position the search returns is one where the engine's attempt succeeds |
| WsHandshake.FindUpgrade | websocket_server.py:341 | `re.search` returns the leftmost position where the attempt succeeds, and None only when it succeeds nowhere |
| WsHandshake.UpgradeAtIff | websocket_server.py:341 | the attempt at i succeeds exactly when `\nupgrade[\s]*:[\s]*websocket` has a match starting at i |
| WsHandshake.FindUpgradeSound | websocket_server.py:341 | what `re.search` finds is a match of the upgrade expression |
| WsHandshake.FindUpgradeComplete | websocket_server.py:341 | when a match starts at i, `re.search` finds one at i or earlier |
| WsHandshake.KeyAt | websocket_server.py:345 | the engine's attempt at i yields a group that ends before a CR LF |
| WsHandshake.FindKey | websocket_server.py:345 | the key `re.search` captures ends before a CR LF inside the request |
| WsHandshake.KeyAtSound | websocket_server.py:345 | an attempt that succeeds is a match of the key expression |
| WsHandshake.KeyAtGreedy | websocket_server.py:345 | the attempt takes the longest whitespace run before the group, and the group the engine's backtracking gives |
| WsHandshake.FindKeySound | websocket_server.py:345 | what `re.search` finds is a match of the key expression |
| WsHandshake.FindKeyFirst | websocket_server.py:345 | no match starts before the one found, and at the same start the found group begins no earlier |
| WsHandshake.KeyHeaderFound | websocket_server.py:345-347 | a `Sec-WebSocket-Key: value` line ended by CR LF after the first line is found, and group(1) is exactly the value |
| WsHandshake.KeyLastHeaderMissed | websocket_server.py:340-351 | a key header on the last line of the request is not found, because `strip()` removes the CR LF the expression needs after it |
| WsHandshake.FindKeyLineFeeds | websocket_server.py:345 | a match starts at a line feed and is followed by a later line feed |
| WsHandshake.KeyNotOnLastLine | websocket_server.py:340-345 | in the stripped request the line the key is found on is never the last one |
| WsHandshake.ResponseKey | websocket_server.py:365-369 | the accept token is the Base 64 text of SHA-1 of the UTF-8 bytes of the key followed by the GUID |
| WsHandshake.ResponseLayout | websocket_server.py:357-363 | the response starts with `HTTP/1.1 101 Switching Protocols`, carries the token after `Sec-WebSocket-Accept: ` and ends with an empty line |
| WsHandshake.ResponseBytes | websocket_server.py:353 | the bytes sent decode back to the response text |
| WsHandshake.Handshake | websocket_server.py:339-345 | the handshake raises exactly when the request bytes are not UTF-8 |
| WsHandshake.Respond | websocket_server.py:340-352 | on a decoded request the handshake ends in one of the three outcomes: no upgrade, no key, or accepted |
| WsHandshake.RespondAccepted | websocket_server.py:341-352 | the handshake is accepted exactly when the lower-cased request has the upgrade header and the request has a key header |
| WsHandshake.RespondKey | websocket_server.py:345-352 | an accepted key is group(1) of a match, and the accept token is computed from it |
| PyText.StripShape | websocket_server.py:340 | `strip()` removes a run of whitespace at each end and nothing else |
| PyText.Strip | websocket_server.py:340 | what `strip()` returns is no longer than the text and neither starts nor ends with whitespace |
| PyText.StripNoSpaceAtEnds | websocket_server.py:340 | `strip()` leaves text without whitespace at its ends unchanged |
| PyText.SplitFrom | SeriesMgr/SeriesModel.py:77 | `split()` yields non-empty tokens without whitespace |
| PyText.Split | SeriesMgr/SeriesModel.py:76 | `split()` with no argument yields tokens that are non-empty and hold no whitespace |
| PyText.SplitJoin | SeriesMgr/SeriesModel.py:77 | splitting tokens joined by whitespace gives the tokens back |
| PyText.SplitOn | ImpinjImport.py:30 | `split(',')` yields at least one piece, none holding a comma, and a single piece exactly when the text has no comma |
| PyText.SplitOnFirst | ImpinjImport.py:30 | the first piece is the text before the first comma |
| PyText.ReplaceAll | SeriesMgr/SeriesModel.py:12 | `replace(a, b)` turns every a into b and leaves every other character alone |
| PyText.ReplaceFirstAt | SeriesMgr/SeriesModel.py:13 | `replace(a, b, n)` turns only the first n occurrences of a into b |
| PyText.Lower | websocket_server.py:341 | `lower()` turns the ASCII capitals and the Kelvin sign into lower-case ASCII letters and leaves every other character, so no capital and no Kelvin sign is left, the length is kept and so is which characters are whitespace |
| PyText.IntToStr | SeriesMgr/SeriesModel.py:44 | `str(n)` is non-empty and holds no whitespace and no comma |
| PyText.IntToStrRoundTrip | SeriesMgr/SeriesModel.py:79 | `int(str(n)) == n` for every integer |
| PyText.ParseIntLiteral | SeriesMgr/SeriesModel.py:78 | a literal that reads is not empty and does not start with whitespace |
| PyText.PyInt | SeriesMgr/SeriesModel.py:78 | `int()` reads a value exactly when the stripped text is an optional sign followed by ASCII digits, and unsigned digits read as a number that is not negative |
| PyText.StrLtIrreflexive | SeriesMgr/SeriesModel.py:213 | no string sorts before itself |
| PyText.StrLtTransitive | SeriesMgr/SeriesModel.py:213 | string order is transitive |
| PyText.StrLtTotal | SeriesMgr/SeriesModel.py:213 | of two different strings one sorts before the other |
| PyText.StrLtAsymmetric | SeriesMgr/SeriesModel.py:213 | no two strings each sort before the other |
| PyText.StrLt | SeriesMgr/SeriesModel.py:213 | a proper prefix sorts before the text, and no text sorts before one of its own prefixes |
| Sorting.Sort | SeriesMgr/SeriesModel.py:82 | `sorted()` returns its input sorted and as a permutation |
| Sorting.SortedUnique | CrossMgrImpinj/TagGroup.py:142-143 | two sorted permutations of one list are equal when equal keys mean equal items |
| Sorting.SortSorted | SeriesMgr/SeriesModel.py:82 | sorting a list that is already sorted, with no two items of equal key, changes nothing |
| WsServer.OutgoingRefused | websocket_server.py:300-310 | `send_text` returns False exactly for a message that is neither str nor bytes, and for bytes that are not UTF-8 or are empty |
| WsServer.BytesSentUnchanged | websocket_server.py:301-313 | valid non-empty UTF-8 bytes are sent as they are |
| WsServer.OutgoingFrame | websocket_server.py:312-337 | an accepted message is sent exactly when its payload is below 2^64 bytes, in a frame with FIN, the opcode, no mask bit, the length and the payload |
| WsServer.React | websocket_server.py:247-286 | a frame that clears `keep_alive` raises nothing |
| WsServer.ReactData | websocket_server.py:265-292 | text, ping and pong frames never clear `keep_alive` |
| WsServer.Converse | websocket_server.py:221-226 | the frame loop ends exactly when `keep_alive` is cleared or an exception is raised, never both |
| WsServer.ConverseStep | websocket_server.py:221-226 | a frame that neither closes nor raises is followed by the rest of the loop |
| WsServer.PingAnswered | websocket_server.py:173-174 | a ping is answered by exactly one pong frame, carrying the UTF-8 of the str its payload became, and fires no callback |
| WsServer.PongEchoesAscii | websocket_server.py:291-292 | the pong carries the ping's payload unchanged when every byte is below 0x80 |
| WsServer.PongReencodes | websocket_server.py:283-292 | a ping payload of the one byte 0xC3 is answered with the two payload bytes 0xC3 0x83 |
| WsServer.Unregister | websocket_server.py:191 | `clients.pop(handler, None)` leaves the handler unregistered |
| WsServer.ClientOf | websocket_server.py:206-207 | `handler_to_client` succeeds exactly for a registered handler and gives its id |
| WsServer.RegisterFresh | websocket_server.py:179-181 | `_new_client_` keeps the registry invariant, gives an id larger than every id in use, and leaves `hasClients` true |
| WsServer.UnregisterValid | websocket_server.py:184-191 | `_client_left_` keeps the registry invariant |
| WsServer.UnregisterTwice | websocket_server.py:184-191 | a second `_client_left_` for the same handler changes nothing |
| WsServer.ClientOfRegister | websocket_server.py:179-182 | right after `_new_client_`, `handler_to_client` gives the new id |
| WsServer.UnregisterAbsent | websocket_server.py:184-191 | `_client_left_` for an unregistered handler changes nothing |
| WsServer.RegisterUnregister | websocket_server.py:179-191 | registering and then unregistering a new handler restores the registry, apart from the counter |
| WsServer.HasClientsOrder | websocket_server.py:162-163 | `hasClients` holds exactly when some handler is registered |
| WsServer.Unmask | websocket_server.py:281-285 | the loop builds one character per byte, character i being byte i XOR `masks[i % 4]` |
| WsServer.WebsocketServer.constructor | websocket_server.py:155-160 | a new server has no clients, a zero id counter and no callbacks fired |
| WsServer.WebsocketServer.HasClients | websocket_server.py:162-163 | true exactly when the client dict is non-empty |
| WsServer.WebsocketServer.HandlerToClient | websocket_server.py:206-207 | the client record for a registered handler; None exactly where the lookup raises KeyError |
| WsServer.WebsocketServer.NewClient | websocket_server.py:179-182 | the counter goes up, the handler is registered under it, and `new_client` fires with that record |
| WsServer.WebsocketServer.ClientLeft | websocket_server.py:184-191 | the handler is unregistered, and `client_left` fires only when it was registered |
| WsServer.WebsocketServer.MessageReceived | websocket_server.py:165-171 | `message_received` fires for a registered handler; otherwise the undefined `_client_left` raises AttributeError and nothing is deregistered |
| WsServer.WebsocketServer.PingReceived | websocket_server.py:173-174 | a pong carrying the str is sent back; it raises only when too big |
| WsServer.WebsocketServer.Unicast | websocket_server.py:193-194 | the message goes through `send_message` to the client's handler, whether registered or not |
| WsServer.WebsocketServer.Multicast | websocket_server.py:196-204 | every handler registered at the start is sent the same frame; the call raises only for a message too big with clients present |
| WsServer.WebSocketHandler.constructor | websocket_server.py:211-213 | a connection runs setup, handle and finish: the frames sent and the callbacks fired are its session's, and the registry comes back without the handler |
| WsServer.WebSocketHandler.Serve | websocket_server.py:215-226 | setup, handle, then finish even after an exception: the frames sent, the callbacks fired and the final registry are those of the connection's session, and the handler ends unregistered |
| WsServer.WebSocketHandler.Setup | websocket_server.py:215-219 | `keep_alive` is set, `handshake_done` and `valid_client` are cleared |
| WsServer.WebSocketHandler.Finish | websocket_server.py:371-372 | the handler is deregistered, with `client_left` fired only if it was registered |
| WsServer.WebSocketHandler.SendMessage | websocket_server.py:288-289 | sends a text frame, refuses or raises as `send_text` does |
| WsServer.WebSocketHandler.SendPong | websocket_server.py:291-292 | sends a pong frame, refuses or raises as `send_text` does |
| WsServer.WebSocketHandler.SendText | websocket_server.py:294-337 | appends exactly the frame `Outgoing` builds, or nothing when the message is refused or too big |
| WsServer.WebSocketHandler.ReadBytes | websocket_server.py:229-234 | returns the next bytes of the input, at most n, and moves past them |
| WsServer.WebSocketHandler.ReadPayloadLength | websocket_server.py:276-279 | returns the 16- or 64-bit length for 126 or 127 and the 7-bit length otherwise, or None where `struct.unpack` raises |
| WsServer.WebSocketHandler.Dispatch | websocket_server.py:265-286 | a text frame goes to `_message_received_`, a ping to `_ping_received_`, a pong to `_pong_received_` |
| WsServer.WebSocketHandler.ReadNextMessage | websocket_server.py:236-286 | moves past exactly one frame and does what `React` states for it: `keep_alive` cleared when the frame ends the connection, its frames sent, its callbacks fired, its exception returned |
| WsServer.WebSocketHandler.ReadHeader | websocket_server.py:237-240 | the two header bytes, both 0 when fewer than two came |
| WsServer.WebSocketHandler.ReadBodyAndDispatch | websocket_server.py:276-286 | reads the length, the key and the payload, then dispatches the unmasked payload |
| WsServer.WebSocketHandler.Handshake | websocket_server.py:339-355 | a request without the upgrade or key header clears `keep_alive` and changes nothing else; one that is not UTF-8 raises and changes nothing; an accepted one sends exactly the encoded 101 response, sets both flags and registers the handler under the next id with `new_client` fired |
| WsServer.WebSocketHandler.Accept | websocket_server.py:352-355 | sends the response, sets `handshake_done` to whether bytes went out, sets `valid_client` and registers the handler |
| WsServer.WebSocketHandler.Handle | websocket_server.py:221-226 | the handshake and then one frame after another: what is sent and fired is the session's, and `keep_alive` ends cleared exactly when no exception ended the loop |
| WsServer.Session | websocket_server.py:221-226 | a connection ends by clearing `keep_alive` or by an exception, never both |
| Series.BaseName | SeriesMgr/SeriesModel.py:8 | `os.path.basename` is the part after the last `/` |
| Series.StripExt | SeriesMgr/SeriesModel.py:9 | `splitext` removes the text from the last dot on exactly when the name has an extension |
| Series.RaceNameFromPath | SeriesMgr/SeriesModel.py:7-14 | the name drops directory and extension and all trailing `-`; the first two remaining dashes or spaces become `-` and the rest become spaces |
| Series.NameFromStem | SeriesMgr/SeriesModel.py:10-13 | the loop strips every trailing `-`, and the replacements spell the name character by character |
| Series.NameChars | SeriesMgr/SeriesModel.py:12-13 | the two `replace` calls write the first two gaps as `-` and the rest as spaces |
| Series.TableOf | SeriesMgr/SeriesModel.py:82 | the table has keys exactly 1..n, and place i gets the i-th value |
| Series.Tokens | SeriesMgr/SeriesModel.py:75-77 | the tokens `setStr` reads hold no whitespace and no comma |
| Series.TokenValuesStep | SeriesMgr/SeriesModel.py:77-81 | reading one more token appends its `int()` value when `int()` accepts it, and nothing when it raises |
| Series.TokenValues | SeriesMgr/SeriesModel.py:77-81 | at most one value per token, and none when `int()` accepts no token |
| Series.ParseTableShape | SeriesMgr/SeriesModel.py:74-82 | `setStr` builds a table with keys exactly 1..n, points non-increasing by place, holding exactly the integers of the text |
| Series.TokensOfText | SeriesMgr/SeriesModel.py:74-77 | the tokens of numbers joined by `', '` are their `str()` |
| Series.PointsTextRoundTrip | SeriesMgr/SeriesModel.py:43-44 | `setStr(getStr())` reproduces every table `setStr` or a preset produces |
| Series.UCIWorldTourRanking | SeriesMgr/SeriesModel.py:37-38 | the UCI World Tour preset is a table with non-increasing points |
| Series.OCAOCupRanking | SeriesMgr/SeriesModel.py:40-41 | the OCA O-Cup preset is a table with non-increasing points |
| Series.PointStructure.constructor | SeriesMgr/SeriesModel.py:21-28 | the table is read from the points text, or is the OCA O-Cup preset without one |
| Series.PointStructure.Get | SeriesMgr/SeriesModel.py:30-32 | rank 999999 gives the DNF points, a place in the table its points, any other rank the participation points |
| Series.PointStructure.Len | SeriesMgr/SeriesModel.py:34-35 | the length is the number of scoring places, which are 1..len |
| Series.PointStructure.GetStr | SeriesMgr/SeriesModel.py:43-44 | `setStr` reads the table back from the text `getStr` writes |
| Series.PointStructure.SetStr | SeriesMgr/SeriesModel.py:74-82 | the loop collects the integers of the text, and the table is those, largest first, for places 1, 2, ... |
| Series.PointStructure.SetUCIWorldTour | SeriesMgr/SeriesModel.py:37-38 | the table becomes the UCI World Tour preset |
| Series.PointStructure.SetOCAOCup | SeriesMgr/SeriesModel.py:40-41 | the table becomes the OCA O-Cup preset |
| Series.BetterPlacesEarnMore | SeriesMgr/SeriesModel.py:30-32 | a better place never earns fewer points than a worse one |
| Series.SortSet | SeriesMgr/SeriesModel.py:222 | `sorted()` of a set under a strict total order holds each member once, in increasing order |
| Series.SortSetUnique | SeriesMgr/SeriesModel.py:222 | the only strictly increasing list of a set's members is `sorted()` of it |
| Series.IndexMap | SeriesMgr/SeriesModel.py:191 | `{c: i for i, c in enumerate(list)}` has exactly the listed names as keys, each mapped to its last index, with no two names sharing one |
| Series.IndexMapDistinct | SeriesMgr/SeriesModel.py:191 | in a list without repeats each name maps to its own index |
| Series.CategoriesInOrder | SeriesMgr/SeriesModel.py:220-222 | the categories sorted by position: each once, in rising position |
| Series.CategoriesRoundTrip | SeriesMgr/SeriesModel.py:190-222 | `getCategoryNamesSorted` after `setCategorySequence` of a list of distinct names returns that list |
| Series.KeepOnly | SeriesMgr/SeriesModel.py:212 | the filter keeps exactly the listed names still raced |
| Series.KeepOnlySorted | SeriesMgr/SeriesModel.py:211-212 | retained categories keep their old relative order |
| Series.SortedStrings | SeriesMgr/SeriesModel.py:213 | new categories are appended each once, in increasing name order |
| Series.CategoryListShape | SeriesMgr/SeriesModel.py:206-213 | the harmonized list holds exactly the raced categories: old ones first in old order, then new ones by name |
| Series.CategoryListCount | SeriesMgr/SeriesModel.py:206-215 | the harmonized list holds each raced category once |
| Series.NumberRaced | SeriesMgr/SeriesModel.py:206-215 | the new order numbers the raced categories 0..n-1 in harmonized order |
| Series.HarmonizedOrder | SeriesMgr/SeriesModel.py:196-218 | the new order holds exactly the raced categories, numbered 0..n-1 without repeats, old ones in old order before new ones by name |
| Series.HarmonizedUnique | SeriesMgr/SeriesModel.py:196-218 | only one order keeps that promise, so the promise determines the result |
| SeriesConfig.IntOrZero | SeriesMgr/SeriesModel.py:153-154 | `int(x or '0')`: empty text reads as 0; other text reads exactly when, stripped, it is an optional sign followed by ASCII digits |
| SeriesConfig.PlanStepNames | SeriesMgr/SeriesModel.py:147-158 | a blank or repeated name is skipped; any other adds one structure and maps its old name to it |
| SeriesConfig.PlanNames | SeriesMgr/SeriesModel.py:147-158 | the structures built have distinct non-blank names, exactly the non-blank names of the rows, and every renaming leads to one of them |
| SeriesConfig.PlanFails | SeriesMgr/SeriesModel.py:147-154 | the loop raises exactly when some row that first uses a name has participation or DNF points that `int()` refuses |
| SeriesConfig.TargetIndex | SeriesMgr/SeriesModel.py:164 | a race moves to a structure that exists, or to the first |
| SeriesConfig.TargetRenamed | SeriesMgr/SeriesModel.py:156-164 | a race whose structure was renamed moves to the structure of the new name |
| SeriesConfig.SelectShape | SeriesMgr/SeriesModel.py:177-186 | the loop keeps exactly the rows with a file name and a known structure, never adding one |
| SeriesConfig.KeptShape | SeriesMgr/SeriesModel.py:175-188 | every row `setRaces` keeps is stripped, with a non-blank file name and a known structure, and every row that strips to such a pair is kept |
| SeriesConfig.KeptIdempotent | SeriesMgr/SeriesModel.py:168-188 | feeding `setRaces` the rows it kept keeps them all |
| SeriesConfig.Race.constructor | SeriesMgr/SeriesModel.py:88-90 | a race holds its file name and its points structure |
| SeriesConfig.WithoutShape | SeriesMgr/SeriesModel.py:243-247 | `removeRace` keeps exactly the races of other files, in order; the list shrinks exactly when some race had that file |
| SeriesConfig.ByName | SeriesMgr/SeriesModel.py:176 | the dict maps each structure name to a structure of that name |
| SeriesConfig.RowOf | SeriesMgr/SeriesModel.py:137-138 | the row shown for a structure has its name twice, points text that reads back as its table, and numbers that read back |
| SeriesConfig.BuildStructures | SeriesMgr/SeriesModel.py:144-161 | the loop succeeds exactly when the rows plan, and then builds one fresh structure per accepted row with the renaming map |
| SeriesConfig.NewRaces | SeriesMgr/SeriesModel.py:175-188 | the loop builds one fresh race per kept row, each scoring with the structure of that name |
| SeriesConfig.SeriesModel.PointsRows | SeriesMgr/SeriesModel.py:137-138 | the rows `setPoints` compares with: one per structure, in order |
| SeriesConfig.SeriesModel.RaceRows | SeriesMgr/SeriesModel.py:169 | the rows `setRaces` compares with: one per race, in order |
| SeriesConfig.SeriesModel.constructor | SeriesMgr/SeriesModel.py:124-130 | no races, the one structure `Regular` with the OCA O-Cup table, and nothing changed |
| SeriesConfig.SeriesModel.SetPoints | SeriesMgr/SeriesModel.py:136-166 | the rows shown now change nothing; otherwise `changed` is raised and either `int()` raises and the structures stay, or the structures are rebuilt and each race moves to its renamed structure or the first |
| SeriesConfig.SeriesModel.Rebuild | SeriesMgr/SeriesModel.py:144-166 | rebuilds the structures, falling back to `Regular` when no row is accepted, and moves the races |
| SeriesConfig.SeriesModel.Install | SeriesMgr/SeriesModel.py:160-166 | installs the new structures and moves every race as the plan says, keeping the model valid; the races and the category order stay |
| SeriesConfig.SeriesModel.MoveRaces | SeriesMgr/SeriesModel.py:163-164 | each race moves to the structure renamed from its own, or the first |
| SeriesConfig.SeriesModel.SetRaces | SeriesMgr/SeriesModel.py:168-188 | the rows shown now change nothing; otherwise `changed` is raised and the races are the kept rows, in the order given |
| SeriesConfig.SeriesModel.ReplaceRaces | SeriesMgr/SeriesModel.py:175-188 | the races become the kept rows, each scoring with the structure of its name |
| SeriesConfig.SeriesModel.AddRace | SeriesMgr/SeriesModel.py:238-241 | appends a race of that file scoring with the first structure, and raises `changed` |
| SeriesConfig.SeriesModel.RemoveRace | SeriesMgr/SeriesModel.py:243-247 | removes every race of that file, raising `changed` only if one was removed |
| SeriesConfig.SeriesModel.RemoveAllRaces | SeriesMgr/SeriesModel.py:249-252 | leaves no race, raising `changed` only if there was one |
| SeriesConfig.SeriesModel.GetCategoryNamesSorted | SeriesMgr/SeriesModel.py:220-222 | the categories, each once, in order of position |
| SeriesConfig.SeriesModel.SetCategorySequence | SeriesMgr/SeriesModel.py:190-194 | the order becomes the list's numbering, raising `changed` only if it differs |
| SeriesConfig.SeriesModel.HarmonizeCategorySequence | SeriesMgr/SeriesModel.py:196-218 | the order becomes exactly the raced categories, harmonized against the current order (or the previous one when the current is empty); empty results clear it; `changed` is raised only if it differs |
| ImpinjImport.DaysInMonth | ImpinjImport.py:58 | the calendar `datetime.date` checks: 28 to 31 days, 29 exactly for February of a leap year |
| ImpinjImport.Translate | ImpinjImport.py:13-16 | `translate(sepTrans)` turns every `/`, `-` and `:` into a space and leaves the rest |
| ImpinjImport.Fields | ImpinjImport.py:41-42 | the fields are non-empty and hold no whitespace and no separator |
| ImpinjImport.RemoveSpaces | ImpinjImport.py:39 | `replace(' ', '')` leaves no space and changes a tag without spaces not at all |
| ImpinjImport.Int | ImpinjImport.py:45 | a field reads as an int exactly when it is an optional sign followed by ASCII digits |
| ImpinjImport.FieldInt | ImpinjImport.py:45 | on a field, `int()` with its stripping of whitespace reads the bare integer literal |
| ImpinjImport.Ints | ImpinjImport.py:45 | the list comprehension reads every field, or raises where one is not an integer |
| ImpinjImport.SixFields | ImpinjImport.py:44-49 | the first layout reads exactly when there are six fields whose first five integers are year, month, day, hour and minute, the last gives the seconds, and `datetime` accepts them |
| ImpinjImport.FallbackDate | ImpinjImport.py:53-60 | the last three fields are the date only when they read as integers with 1900≤yyyy≤3000, 1≤mm≤12, 1≤dd≤31 and form a real date; otherwise today |
| ImpinjImport.TimeOf | ImpinjImport.py:65-67 | `datetime.time` of an hour, a minute and a seconds field: the time they spell when they read and are a time; an OverflowError exactly when they read but the seconds are infinite or a number does not fit a C int; otherwise a ValueError |
| ImpinjImport.TimeOfValid | ImpinjImport.py:65-67 | three fields that read as a valid time give that time |
| ImpinjImport.FallbackTime | ImpinjImport.py:63-70 | the time reads from fields 3, 4 and 5; where they are missing or not a time the ValueError is caught; an OverflowError, which the handler does not catch, exactly when they read but the seconds are infinite or a number does not fit a C int |
| ImpinjImport.ParseTimestamp | ImpinjImport.py:38-72 | the first layout if it reads; otherwise the fallback date and time; an invalid-time record with the line number and the timestamp as given when the time does not read; no result and no record when the fallback raises OverflowError |
| ImpinjImport.Parse | ImpinjImport.py:28-72 | a line without a comma gives one unrecognised-input record with the line number; a tag field starting with `Tag` is skipped without a record; any other line parses its timestamp |
| ImpinjImport.TranslateLayout | ImpinjImport.py:41 | translating `yyyy-mm-dd hh:mm:ss` leaves single spaces between its six parts |
| ImpinjImport.LayoutFields | ImpinjImport.py:41-42 | the fields of that layout are its six parts |
| ImpinjImport.LayoutSixFields | ImpinjImport.py:44-49 | six parts that spell a date and time read as that date and time |
| ImpinjImport.StampSixFields | ImpinjImport.py:44-49 | a timestamp written out from a date and time reads back as it |
| ImpinjImport.StampRead | ImpinjImport.py:28-49 | a line `tag,timestamp` reads as the tag without spaces and the timestamp's datetime, with no error |
| ImpinjImport.HugeHourRaises | ImpinjImport.py:44-70 | a line whose timestamp has an hour too wide for a C int makes `parseTagTime` raise OverflowError, with no error record appended |
| ImpinjImport.TimestampRaises | ImpinjImport.py:28-70 | a line whose timestamp fails the first layout and overflows in the fallback raises, with no record |
| ImpinjImport.StampOverflows | ImpinjImport.py:44-67 | a stamp with an hour too wide for a C int fails the first layout and overflows in the fallback |
| ImpinjImport.LayoutOverflows | ImpinjImport.py:41-67 | the same for the six-part layout of any fields |
| ImpinjImport.OverflowFields | ImpinjImport.py:44-67 | six fields whose hour does not fit a C int fail the first layout, whose bare except catches the overflow, and overflow in the fallback |
| ImpinjImport.StripNoSeparator | ImpinjImport.py:41 | `strip()` after `translate` leaves no separator |
| ImpinjImport.ParseTagTime | ImpinjImport.py:28-72 | returns the line's outcome and appends its error record, if any, to the caller's list; an OverflowError that escapes leaves the list unchanged |
| ImpinjImport.TimeFromStr | ImpinjImport.py:17-26 | the time comes from the last three fields, on today's date; None where they are missing or not a time; an OverflowError that escapes exactly when they read but the seconds are infinite or a number does not fit a C int |
| ImpinjImport.StampTime | ImpinjImport.py:17-26 | on a full timestamp `timeFromStr` reads its time of day, on today's date |
| ImpinjImport.LayoutTime | ImpinjImport.py:17-26 | on the six-part layout `timeFromStr` reads the last three parts as the time |
| TagGroupModel.MaxDb | CrossMgrImpinj/TagGroup.py:37 | the greatest dB among the reads |
| TagGroupModel.Antenna.Added | CrossMgrImpinj/TagGroup.py:29-37 | after `add` the newest read is the one added and `firstRead` is unchanged |
| TagGroupModel.Antenna.Estimate | CrossMgrImpinj/TagGroup.py:47-59 | a stray gives (first read, 1); otherwise the regression time with all reads as sample when it lies between the first and last read held, and (first read, 1) when the regression raises or its time lies outside them |
| TagGroupModel.Antenna.IsStray | CrossMgrImpinj/TagGroup.py:39-41 | a stray exactly when the newest read lies more than `tStray` seconds after the first read |
| TagGroupModel.Antenna.LastRead | CrossMgrImpinj/TagGroup.py:43-45 | `lastRead` is the time of the newest read |
| TagGroupModel.Antenna.Trimmed | CrossMgrImpinj/TagGroup.py:84 | `del reads[:-1]` keeps only the newest read, and `firstRead` and `dbMax` |
| TagGroupModel.Opened | CrossMgrImpinj/TagGroup.py:24-27 | a new antenna holds one read, is no stray, and its `dbMax` is that read's dB |
| TagGroupModel.AddAppends | CrossMgrImpinj/TagGroup.py:35-37 | a non-stray `add` appends the read, and `dbMax` stays the greatest dB seen |
| TagGroupModel.AddToStray | CrossMgrImpinj/TagGroup.py:30-34 | a stray `add` leaves one read, the new one, with `firstRead` and `dbMax` unchanged |
| TagGroupModel.SlotOf | CrossMgrImpinj/TagGroup.py:72-73 | antennas 1..4 use slots 0..3, antennas -3..0 wrap round through negative indexing, and any other antenna raises IndexError |
| TagGroupModel.Strongest | CrossMgrImpinj/TagGroup.py:92 | `max()` picks the first antenna in use with the most reads, ties going to the larger `dbMax` |
| TagGroupModel.Entry.Added | CrossMgrImpinj/TagGroup.py:70-79 | after `add`, firstReadMin ≤ the read time ≤ lastReadMax, and both bounds only widen |
| TagGroupModel.Entry.Estimate | CrossMgrImpinj/TagGroup.py:87-93 | a stray gives (firstReadMin, 1); when every read lies in [firstReadMin, lastReadMax] so does the estimate |
| TagGroupModel.Entry.Strayed | CrossMgrImpinj/TagGroup.py:81-85 | `setStray` marks the tag a stray and keeps both read-time bounds |
| TagGroupModel.AddedShape | CrossMgrImpinj/TagGroup.py:70-79 | `add` changes only the slot read at, and moves each bound only to the new time |
| TagGroupModel.AddedBounded | CrossMgrImpinj/TagGroup.py:78-79 | after `add` every read held lies in [firstReadMin, lastReadMax] |
| TagGroupModel.StrayedKeepsNewest | CrossMgrImpinj/TagGroup.py:81-85 | after `setStray` each antenna in use holds exactly its newest read |
| TagGroupModel.StrayedBounded | CrossMgrImpinj/TagGroup.py:81-85 | `setStray` keeps every read in [firstReadMin, lastReadMax] |
| TagGroupModel.Started | CrossMgrImpinj/TagGroup.py:64-68 | a new entry holds the one read at its antenna, with both bounds at its time, and is no stray |
| TagGroupModel.ReadOf | CrossMgrImpinj/TagGroup.py:127-137 | a read is reported exactly for a non-stray tag that went quiet or was just found a stray; a new stray is reported at its first read time with sample size 1 |
| TagGroupModel.StrayOf | CrossMgrImpinj/TagGroup.py:132-137 | a stray is listed exactly when the tag has been read across `tStray` without going quiet |
| TagGroupModel.Settled | CrossMgrImpinj/TagGroup.py:132-136 | a kept tag is a stray afterwards exactly when it was one or has just been found one |
| TagGroupModel.Kept | CrossMgrImpinj/TagGroup.py:139-140 | exactly the tags that did not go quiet stay |
| TagGroupModel.ReadLeOrders | CrossMgrImpinj/TagGroup.py:142 | ordering reads by (time, tag) is a total preorder |
| TagGroupModel.StrayLeOrders | CrossMgrImpinj/TagGroup.py:143 | ordering strays by (time, tag) is a total order |
| TagGroupModel.DueReadOfTag | CrossMgrImpinj/TagGroup.py:126-137 | every reported read is the report of its own tag |
| TagGroupModel.QuietReportedOnce | CrossMgrImpinj/TagGroup.py:127-131 | a quiet tag is deleted, and if no stray it is reported exactly once, at its best estimate |
| TagGroupModel.StrayReported | CrossMgrImpinj/TagGroup.py:132-137 | a tag read across `tStray` without going quiet stays as a stray and is listed once among the strays; it is reported as a read once, at its first read time, only on the call that finds it a stray |
| TagGroupModel.StrayStaysReported | CrossMgrImpinj/TagGroup.py:132-137 | a stray stays a stray through further reads and calls, is never reported as a read again, and is listed among the strays on every call until it goes quiet |
| TagGroupModel.ReadsDetermined | CrossMgrImpinj/TagGroup.py:142 | the sorted reads are the same whatever order the dict is visited in |
| TagGroupModel.StraysDetermined | CrossMgrImpinj/TagGroup.py:143 | the sorted strays are the same whatever order the dict is visited in |
| TagGroupModel.StartedConsistent | CrossMgrImpinj/TagGroup.py:64-68 | after the constructor the bounds are the one read time seen |
| TagGroupModel.AddedConsistent | CrossMgrImpinj/TagGroup.py:70-79 | after any `add`, firstReadMin and lastReadMax are read times seen and every read time seen lies between them |
| TagGroupModel.StrayedConsistent | CrossMgrImpinj/TagGroup.py:81-85 | `setStray` keeps that |
| TagGroups.AntennaReads.constructor | CrossMgrImpinj/TagGroup.py:24-27 | the fields hold the first read |
| TagGroups.AntennaReads.Add | CrossMgrImpinj/TagGroup.py:29-37 | the fields become what `Antenna.Added` states |
| TagGroups.AntennaReads.DropOlder | CrossMgrImpinj/TagGroup.py:84 | the fields keep only the newest read |
| TagGroups.TagGroupEntry.constructor | CrossMgrImpinj/TagGroup.py:64-68 | the fields hold the entry `Started` states, consistent with the one read seen |
| TagGroups.TagGroupEntry.Add | CrossMgrImpinj/TagGroup.py:70-79 | the read is added at its antenna and both bounds stay consistent with all reads seen; an antenna outside the list raises IndexError and changes nothing |
| TagGroups.TagGroupEntry.SetStray | CrossMgrImpinj/TagGroup.py:81-85 | the loop trims each antenna in use to its newest read and marks the entry a stray |
| TagGroups.TagGroup.constructor | CrossMgrImpinj/TagGroup.py:104-105 | no tag is known |
| TagGroups.TagGroup.Add | CrossMgrImpinj/TagGroup.py:107-113 | returns True and creates an entry exactly when the tag was absent; otherwise adds to its entry and returns False; an invalid antenna raises IndexError and changes nothing |
| TagGroups.TagGroup.GetReadsStrays | CrossMgrImpinj/TagGroup.py:115-144 | quiet tags are deleted and new strays trimmed; the reads and strays lists are sorted by (time, tag) and hold exactly the reports due for the tags there were |
| TagGroups.TagGroup.Visit | CrossMgrImpinj/TagGroup.py:127-137 | one pass of the loop: the tag's report, its stray listing, its new entry and whether it goes |
| TagGroups.TagGroup.Scan | CrossMgrImpinj/TagGroup.py:126-137 | the loop over the dict collects every due report and stray, and exactly the quiet tags to delete |

## Where the code is followed

The server's own description and the code disagree in a few places. The model follows the code:

- **Continuation and binary frames.** The description says they are rejected and close the connection. The code logs them and returns with `keep_alive` still set, without reading their payload (`WsFrame.UnsupportedReadsHeaderOnly`).
- **Unknown opcodes.** The description says they fail with a protocol error. The code raises a `TypeError` at its own log line, because the line adds a `str` and an `int`. The model records that as the exception that ends `handle`.
- **Unicast to a handler that has left.** The description has unicast fail with a client-gone error. The code calls `send_message` on the handler whether it is registered or not (`WsServer.WebsocketServer.Unicast`).
- **A text frame from an unregistered handler.** The code calls `self._client_left`, which the class never defines, so the result is an `AttributeError` and not a deregistration (`WsServer.WebsocketServer.MessageReceived`).

## Left out

- Sockets, threads and the `TCPServer`/`ThreadingMixIn` plumbing are not modelled:
  - a connection is the bytes `recv(1024)` returns plus the bytes the client sends after them;
  - `send` appends to a list;
  - each callback (`new_client`, `client_left`, `message_received`) is recorded as an event;
  - `run_forever` and the `API` setters are not modelled.
- The multicast retry loop is not modelled. It catches `RuntimeError` and sleeps, which only matters under concurrent mutation. `WsServer.WebsocketServer.Multicast` sends to a snapshot of the handlers, one after another.
- SHA-1 is a parameter of the model (`sha1`), since `hashlib` is a foreign function. Base 64 and UTF-8 are modelled in full.
- Logging (`Logger`, `six.print_`, `Utils.writeLog`) is not modelled. Only the `TypeError` raised while building one warning is kept, as described above.
- The Python 2 branch of `read_bytes` is not modelled; the model uses Python 3 `bytes`. Under Python 3 `chr(byte)` makes a Latin-1 character, and `send_text` encodes it as UTF-8. A pong therefore repeats the ping's payload only when every byte is below 0x80 (`WsServer.PongEchoesAscii`); otherwise the bytes change (`WsServer.PongReencodes`).
- `WsServer.PingAnswered`: requires a payload below 2^63 bytes, so that the re-encoded pong, at most twice as long, stays below the 2^64 limit.
- `send_text` with an explicit opcode is modelled only for 4-bit opcodes, which is all the source passes.
- `TagGroupModel.Antenna.Estimate`: `QuadRegExtreme` is a floating-point regression whose source is not part of this model. It is the parameter `quad`, returning a time or None where it raises. The contract therefore gives a range and the fallback, not the value.
- Times in the tag grouping are real numbers of seconds from the reference instant:
  - the `datetime`/`tRef` conversions `datetimeToTr` and `trToDatetime` are not modelled, and neither is `tNow` defaulting to `datetime.now()`;
  - `getReadsStrays` receives `trNow`;
  - float rounding is not modelled;
  - `TagGroups.TagGroup.Add` requires a finite read time, as every difference of two datetimes is.
- The `__main__` simulations and the `__repr__` methods are not modelled.
- `TagGroups.TagGroup` holds its entries as `Entry` values that its methods reassign into the dictionary, not as `TagGroupEntry` objects updated in place. `TagGroups.TagGroupEntry` holds each antenna's reads as `Antenna` values, not as `AntennaReads` objects. All three classes are proved against the same `TagGroupModel` functions, so what an update computes is captured; aliasing between the objects is not.
- `TagGroups.TagGroupEntry.constructor`: requires an antenna the four-slot list accepts. With any other antenna Python raises `IndexError`, and `TagGroups.TagGroup.Add` models that as its `IndexError` outcome.
- The order `getReadsStrays` visits the dict in is not modelled. Both lists are sorted before they are returned, and `TagGroupModel.ReadsDetermined` and `TagGroupModel.StraysDetermined` show the order cannot matter.
- The seconds field of a timestamp is read by `float()` and `math.modf`, which truncate in floating point. The model passes the reading of that field in as the parameter `seconds`. It gives whole seconds and microseconds, `Infinite` for an infinity, or None where `float()` raises ValueError or the field is a NaN. `int()` of an infinity raises OverflowError and `int()` of a NaN raises ValueError.
- A C int is taken to be 32 bits wide, as on every platform CPython runs on. `datetime.time` raises OverflowError for an argument outside that range, and the model follows that.
- `PyText.PyInt`: reads ASCII decimal digits only, as Python 2's `int()` does on a byte string. Python 3's `int()`, and Python 2's on a `unicode`, also read other Unicode decimal digits such as `١٢`. Python 3's `int()` also accepts single underscores between digits, such as `1_0`. The model treats such text as a ValueError. So a points text, a participation or DNF points field, or a timestamp field written that way is refused where Python 3 would read it. `SeriesModel.py` is Python 2 code (it calls `iteritems`).
- `PyText.ParseIntLiteral`: ASCII digits only, for the reason given under `PyText.PyInt`.
- `SeriesConfig.IntOrZero`: ASCII digits only, for the reason given under `PyText.PyInt`.
- `ImpinjImport.Int`: ASCII digits only, for the reason given under `PyText.PyInt`.
- `ImpinjImport.FieldInt`: the bare literal it reads is ASCII digits only, for the reason given under `PyText.PyInt`.
- `PyText.Lower`: only the ASCII capitals and the Kelvin sign U+212A are lowered. Python lowers every cased character, and `İ` (U+0130) lowers to two code points. The model leaves those characters as they are. That cannot change whether the upgrade expression of the handshake matches. The expression's letters are all ASCII. No other character lowers to whitespace or to one of those letters: the only other one that lowers to an ASCII letter is `İ`, to `i`, and the expression has no `i`.
- `JChip.dateToday` is the parameter `today`. The `ImpinjImportDialog` wx UI is not modelled.
- An error record is modelled as its line number plus, for an invalid time, the timestamp text. The translated message text from `_()` is not modelled.
- `Series.PointStructure.Get`: takes an `int` rank; `int(rank)` on other types is not modelled.
- `SeriesConfig.SeriesModel.HarmonizeCategorySequence`: receives the `categoryName` of each race result, not the result objects. It requires, like every `SeriesModel` method, that both category orders number their categories one-to-one. That holds for every order `setCategorySequence` and `harmonizeCategorySequence` build.
- Several `SeriesModel` members are not modelled:
  - `setRootFolder` walks the file system;
  - `extractAllRaceResults` calls into the results reader, which is not part of this model;
  - `getHtml` formats HTML;
  - `postReadFix` patches pickled objects.

  The class attributes for scoring options, which no modelled method reads, are left out too.
- `Series.BaseName` and `Series.StripExt` follow POSIX `os.path`, with `/` as the only separator.
