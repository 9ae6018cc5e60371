# peabody client core, in Dafny

This project models the browser side of peabody. Peabody is a Wayland
compositor whose clients reach it over WebSockets instead of a Unix socket.
Two JavaScript files hold the logic:

- `src/client/wl.js` is the Wayland wire engine:
  - the `Display`, with its serial counter and its global table;
  - the socket reader, which cuts queued WebSocket messages into requests;
  - the `Client`, with its object map, the request decoder, the event encoder, the `wl_display`/`wl_registry` bootstrap and `_close`;
  - the `Resource`, with its version, implementation table and destroy listeners.
- `src/client/shm.js` is the shadow shared-memory pool:
  - `ShadowPool` keeps a local copy of a segment the peer owns. It requests regions under fresh tokens, takes `update` announcements and binary chunks, and completes a fetch on `update_done`.
  - A pixel `Buffer` turns damage to a rectangle into one fetch, then copies the rectangle's rows out of the pool.

State that the source changes in place is modelled as Dafny classes:

- `WlDisplay.Display`;
- `Wl.Client` and `Wl.Resource`;
- `Reader.SocketReader`, which holds the closure state of `setupSocketReader`;
- `Shm.ShadowPool` and `Shm.Buffer`.

Fixed buffers are modelled as arrays: the shared 0xFFFF-byte scratch buffer `tmpBuffer` (wl.js:284), the pool's `_buffer` and the image data of a repaint.

Each method is proved against a pure specification function:

- `Wire.DecodeRequest` for `$handleRequest`;
- `Wire.EncodeEvent` for `$sendEvent`;
- `Slicer.CutAt` for `processMessage`;
- `Shm.Repainted`/`Shm.Rows` for the row loop.

Lemmas about those functions state what the engine promises:

- the frame round trip: what `$sendEvent` produces, the decoder reads back;
- strict size checking;
- the serial wrap-around;
- globals named by their position and announced in order;
- listeners run newest first;
- token correlation in the pool;
- the row arithmetic of a repaint.

Modules and files:

- `util.dfy` (Util): Option, Reverse, NoDups, Flatten.
- `bytes.dfy` (Bytes): bytes, little-endian DataView reads, ToInt32/ToUint32/ToUint16 and the typed-array store `Put`.
- `decimal.dfy` (Decimal): `String(n)`, `join(",")`, and the `%d` conversion the peer uses to read a region request.
- `wire.dfy` (Wire): the codec as pure functions and the round-trip lemmas.
- `scratch.dfy` (Scratch): the encoder as it runs on the scratch array.
- `display.dfy` (WlDisplay): the serial and the global table.
- `slicer.dfy` (Slicer): request slicing.
- `reader.dfy` (Reader): the socket reader.
- `wl.dfy` (Wl): Client and Resource.
- `shm.dfy` (Shm): the shadow pool and the pixel buffer.

Where the code cannot run as written, the model follows the evident intent, and the file comments say so:

- the decoder reads the request's `types`, not the empty `args`;
- `readObject`/`readNewID` use the receiving client, and `readObject` returns the object;
- `readObject` and `writeObject` check the interface through `obj.constructor.$iface`, as wl.js:153, 250 and 409 do. The code reads `obj.$iface` (wl.js:216, 325), which `Resource.create` sets only on the constructor (wl.js:420), so as written every non-null object argument would throw a TypeError;
- `readArray` reads through the frame's view and pads by the sliced length;
- `writeArg` switches on the type tag;
- `writeArray` writes its length through the view and pads by the array's byte length;
- the `this` of the pool's `onmessage` and of the promise executor is the pool;
- the repaint copies each row's bytes. As written, shm.js:74 hands `set` the ArrayBuffer that `slice` returns, so nothing is copied (see Findings).

Properties of the code that the model keeps as written:

- String padding. The wire format section of the Wayland protocol documentation pads strings and arrays to the next multiple of 4. The code adds `4 - length % 4`, which is a whole extra word when `length % 4 == 0`. `Wire.CodePadVersusWayland` states the difference.
- Padding bytes. The encoder skips padding bytes without writing them, so they keep whatever an earlier event left in the scratch buffer. Re-encoding a decoded frame therefore need not reproduce its bytes. The round trip proved is decode(encode(args)), together with the header and the length.
- String length. `length` and `charCodeAt` count UTF-16 code units. A character above U+FFFF is two code units, and only the low byte of each is written (`Wire.AstralStringWritten`). Such strings do not read back, since the decoder turns each byte into one character.
- Destination stride. The image data holds rows of `w * 4` bytes, while the pool's rows lie `stride` bytes apart. As written, the row copy confuses the two (see Findings).
- Resizing. The pool's socket carries no resize control message. A resize arrives as the `wl_shm_pool.resize` request (shm.js:98-100), which calls `setSize`.
- Empty header. A header that declares size 0 needs no precondition. Its slice is empty, so `$handleRequest` throws a RangeError on the header read, and the reader detaches.

## Model

| member | source | states |
|---|---|---|
| WlDisplay.Display.constructor | src/client/wl.js:6-10 | a new display has serial 0 and no globals |
| WlDisplay.Display.NextSerial | src/client/wl.js:11-16 | the counter wraps from 0xFFFFFFFF to 0 and then increments; the new value is returned and the global table is untouched |
| WlDisplay.SerialBounds | src/client/wl.js:11-16 | a serial is never 0 and stays within 32 bits; it is the previous one plus 1, and after 0xFFFFFFFF comes 1 |
| WlDisplay.SerialsAfterClosed | src/client/wl.js:11-16 | after k ≥ 1 calls from counter s, the serial is (s + k − 1) mod 0xFFFFFFFF + 1 |
| WlDisplay.SerialsDistinct | src/client/wl.js:11-16 | serials handed out fewer than 0xFFFFFFFF calls apart differ, and the sequence repeats with period 0xFFFFFFFF |
| WlDisplay.Display.RegisterGlobal | src/client/wl.js:17-25 | the global is appended at the end; nothing is reordered or removed and the serial is unchanged |
| WlDisplay.FindGlobalName | src/client/wl.js:129-137 | `findGlobal` finds an entry exactly for names 1..n, and `findGlobal(globalName(i))` is the i-th global |
| WlDisplay.FindGlobalAppend | src/client/wl.js:17-25 | appending a global keeps every existing name bound to the same global and names the new one n + 1 |
| WlDisplay.Announcements | src/client/wl.js:151-155 | the registry announces one (name, interface name, version) triple per global, in table order |
| WlDisplay.AnnouncedNamesBind | src/client/wl.js:129-155 | every announced name, handed back to `bind`, finds the global it was announced for |
| Bytes.ToUint32 | src/client/wl.js:304 | the value `setUint32` stores is a 32-bit unsigned number congruent to the argument modulo 2^32, and in-range values are unchanged |
| Bytes.ToInt32 | src/client/wl.js:300 | the value `setInt32` stores is a 32-bit two's-complement number congruent to the argument modulo 2^32 |
| Bytes.ToUint16 | src/client/wl.js:296 | the value `setUint16` stores is a 16-bit number congruent to the argument modulo 2^16 |
| Bytes.U32RoundTrip | src/client/wl.js:188-192 | `getUint32` reads back the value whose four little-endian bytes were written |
| Bytes.U32Bytes | src/client/wl.js:188-192 | rewriting the value read from four bytes reproduces those bytes |
| Bytes.U16RoundTrip | src/client/wl.js:178-180 | `getUint16` reads back the value whose two little-endian bytes were written |
| Bytes.I32RoundTrip | src/client/wl.js:183-187 | an int32 written with `setInt32` is read back by `getInt32` over the full signed range |
| Bytes.PutContents | src/client/wl.js:343-344 | after a typed-array `set`, the stored span holds the new bytes and the bytes before and after it are unchanged |
| Decimal.ScanIntToString | src/client/shm.js:36 | the decimal spelling of any integer is read back as that integer by a `%d` conversion, which stops at the next non-digit |
| Decimal.ScanJoinedInts | src/client/shm.js:36 | integers joined with commas are read back, all of them and in order, by the peer's `%d,%d,…` conversion |
| Wire.ParseTypeString | src/client/wl.js:256-272 | the argument type is recovered from its type string, including the `?` nullable prefix and the interface name |
| Wire.Register | src/client/wl.js:167-169 | `Map.set` maps the id to the new entry; a new id goes to the end of the insertion order and an existing id keeps its place |
| Wire.RegisterKeepsValid | src/client/wl.js:167-169 | registration keeps the insertion order duplicate-free and in step with the map's keys |
| Wire.CodePadVersusWayland | src/client/wl.js:207 | the code's padding equals the Wayland padding exactly when the length is not a multiple of 4, where it is 4 bytes longer, and both keep the cursor 4-aligned |
| Wire.PadAligned | src/client/wl.js:320 | the code's padding is 1 to 4 bytes and always reaches a multiple of 4 |
| Wire.CodeUnitsRoundTrip | src/client/wl.js:312-317 | the UTF-16 code units that `length` counts and `charCodeAt` returns determine the string: joining surrogate pairs gives it back |
| Wire.CodeUnitsLatin1 | src/client/wl.js:312-317 | below U+0100 each character is one code unit equal to its code, so `length` is the number of characters |
| Wire.AstralCharBytes | src/client/wl.js:316-317 | U+1F600 is the two code units 0xD83D 0xDE00, whose low bytes 0x3D 0x00 are what `setUint8` stores |
| Wire.AstralStringWritten | src/client/wl.js:311-321 | `writeString` of U+1F600 writes the length 3 (two code units and the NUL), then 0x3D, 0x00 and the NUL, and advances 8 bytes |
| Wire.Latin1CharBytes | src/client/wl.js:203 | for characters below 256, `fromCharCode` of the bytes `charCodeAt` wrote gives back the string |
| Wire.ReadString | src/client/wl.js:198-209 | a string whose length field and bytes fit is `fromCharCode` of its `length − 1` bytes; it throws "bad null byte" exactly when the byte after them is not 0, otherwise the cursor moves past the NUL and the code's padding of `length`; a length field or bytes past the frame's end throw a RangeError |
| Wl.ReadStringAt | src/client/wl.js:198-209 | the byte-by-byte string reader returns exactly what `Wire.ReadString` describes |
| Wire.ReadObject | src/client/wl.js:210-218 | an accepted object argument is a mapped id whose interface has the expected name, or null where the type is nullable; the cursor moves 4 bytes |
| Wire.ReadNewId | src/client/wl.js:219-231 | an untyped new-id returns the raw id; a typed one registers a resource of the named interface under the id; an unknown interface throws "Illegal type" |
| Wire.ReadArray | src/client/wl.js:232-242 | an array is the bytes after its length field, cut off at the frame's end, followed by padding; it fails exactly when the length field lies past the frame |
| Wire.ReadArg | src/client/wl.js:256-273 | only a typed new-id changes the object map; an `h` argument takes the head of the descriptor FIFO, or is undefined when the FIFO is empty, and moves no cursor; every other known argument advances the cursor by at least 4 |
| Wire.ReadFdsInOrder | src/client/wl.js:243-245 | k `h` arguments read the first k descriptors of the FIFO, in order, and leave the rest queued |
| Wire.DecodeRequest | src/client/wl.js:173-181 | a decoded request carries the header's id and opcode; its target is mapped and its end cursor equals the declared size; a short frame or an unmapped target throws before any argument is read |
| Wire.DecodeRequestAsWritten | src/client/wl.js:275-278 | as written, a request decodes only when it has no arguments and declares size 8 |
| Wire.OversizedHeaderMismatch | src/client/wl.js:277-280 | a `sync` whose header claims 16 bytes while its signature reads only 12 fails "Size mismatch" at cursor 12, so it is not dispatched |
| Wire.AsWrittenRejectsArguments | src/client/wl.js:275 | a 12-byte `sync` with its callback id fails the size check as written, while the intended decoder returns the callback resource |
| Wire.WriteU32 | src/client/wl.js:303-306 | `setUint32` stores four bytes exactly when they fit, or throws with nothing written |
| Wire.WriteEach | src/client/wl.js:316-318 | a run of `setUint8` calls succeeds exactly when all the bytes fit |
| Wire.WriteEachPartial | src/client/wl.js:316-318 | a run that overruns the buffer has stored the bytes that fit before throwing |
| Wire.WriteAll | src/client/wl.js:343-345 | a typed-array `set` stores all the bytes or throws with nothing written |
| Wire.WriteString | src/client/wl.js:311-321 | a written string advances the cursor by 4 + length + the code's padding, where the length counts UTF-16 code units and the NUL |
| Wire.WriteArray | src/client/wl.js:339-349 | a written array advances the cursor by 4 + its byte length + padding |
| Wire.WriteObject | src/client/wl.js:322-334 | an object of the wrong interface throws "Bad object", a disallowed null throws "Required object", and a written object advances 4 bytes |
| Wire.WriteNumber | src/client/wl.js:299-310 | a number is stored as one 32-bit word and a non-number is rejected |
| Wire.WriteArg | src/client/wl.js:350-373 | one argument write never moves the cursor back, and an `h` argument always throws ("welp") |
| Wire.WriteArgs | src/client/wl.js:375 | writing the argument list never moves the cursor back and keeps the buffer's length |
| Wire.WriteArgsLocal | src/client/wl.js:298-375 | writing the arguments never changes the bytes before the starting cursor, so the header survives |
| Wire.WriteArgsPastEnd | src/client/wl.js:298-375 | once the cursor is past the buffer's end, later argument writes change nothing |
| Wire.StampHeader | src/client/wl.js:295-296 | the header holds the object id at offset 0 and the opcode at 4, truncated to 32 and 16 bits, and nothing after byte 8 changes |
| Wire.EncodeEvent | src/client/wl.js:286-381 | a sent frame is a prefix of the scratch buffer, at least 8 bytes long |
| Wire.EncodeEventHeader | src/client/wl.js:377-380 | every frame sent carries the object id and the opcode in its header |
| Wire.WireSizeAligned | src/client/wl.js:207 | every encodable argument advances the cursor by a multiple of 4, and its stored bytes fit inside that span |
| Wire.WriteField | src/client/wl.js:299-349 | writing an encodable argument stores exactly its field at the cursor and advances by its wire size |
| Wire.ReadField | src/client/wl.js:183-245 | an encodable argument's field is read back as the same value; a typed new-id comes back as the resource it registers; the cursor advances by the wire size |
| Wire.WriteFields | src/client/wl.js:375 | writing an encodable argument list succeeds, lays out every field in order, and changes nothing outside its span |
| Wire.ReadFields | src/client/wl.js:256-275 | a laid-out argument list is read back argument by argument, ending right after the last field |
| Wire.SizeStamp | src/client/wl.js:377-380 | stamping the final cursor at offset 6 makes the frame carry its own length and keeps the arguments |
| Wire.FrameHeader | src/client/wl.js:377-380 | for encodable arguments, the frame's header holds the id, the opcode and the frame's own length |
| Wire.FrameRoundTrip | src/client/wl.js:286-381 | encodable arguments that fit the scratch buffer make a frame whose header holds the id, the opcode and its own length, and whose arguments decode back to the ones sent, ending exactly at that length |
| Wire.EventDecodes | src/client/wl.js:247-280 | an encoded frame addressed to an object whose request has the same signature is decoded by `$handleRequest` into that request and those arguments |
| Wire.EventOpcode | src/client/wl.js:422-430 | an event's opcode is within the interface's event list or −1 |
| Wire.EventOpcodeLast | src/client/wl.js:422-430 | the stub called by name sends the last event of that name (later stubs overwrite earlier ones); none exists exactly when no event has the name |
| Scratch.Store | src/client/wl.js:343-344 | the scratch array afterwards holds the bytes at the offset and is unchanged elsewhere |
| Scratch.SetU32 | src/client/wl.js:303-306 | `setUint32` on the scratch array does what `Wire.WriteU32` describes |
| Scratch.StoreChars | src/client/wl.js:316-318 | the loop of `writeString`, one `setUint8` per UTF-16 code unit and then the NUL, leaves the array and the cursor as `Wire.WriteEach` describes, including a partial write before a RangeError |
| Scratch.StoreNext | src/client/wl.js:317 | one `setUint8` extends the stored prefix by the next byte |
| Scratch.WriteStringInto | src/client/wl.js:311-321 | `writeString` on the array does what `Wire.WriteString` describes |
| Scratch.WriteArrayInto | src/client/wl.js:339-349 | `writeArray` on the array does what `Wire.WriteArray` describes |
| Scratch.WriteObjectInto | src/client/wl.js:322-334 | `writeObject` on the array does what `Wire.WriteObject` describes |
| Scratch.WriteNumberInto | src/client/wl.js:299-310 | `writeInt`/`writeUint`/`writeFixed`/`writeNewID` on the array do what `Wire.WriteNumber` describes |
| Scratch.WriteArgInto | src/client/wl.js:354-373 | `writeArg` on the array does what `Wire.WriteArg` describes |
| Scratch.Encode | src/client/wl.js:290-380 | the whole `$sendEvent` body leaves the array as `Wire.EncodeEvent` describes and sends its frame, or throws its exception |
| Slicer.CutSize | src/client/wl.js:42-48 | a slice is as long as the size field at `pos + 6`, and it carries that length in its own header |
| Slicer.CutSplits | src/client/wl.js:47-53 | the rest of the message is the slice followed by what remains; the cursor moves past the slice, or the message is shifted off when the slice ends it |
| Slicer.CutConsumes | src/client/wl.js:39-53 | a cut hands over exactly the bytes at the front of what is pending and leaves the cursor inside the new head message |
| Slicer.CutFailures | src/client/wl.js:42-45 | a cut throws a RangeError exactly when the size field lies past the message's end, and "This shouldn't happen" exactly when the declared size exceeds what is left |
| Slicer.PendingPush | src/client/wl.js:84 | a pushed message is pending after everything already pending |
| Reader.FdsRoundTrip | src/client/wl.js:79-81 | descriptors packed as little-endian int32s are read back by `Int32Array`, all of them and in order |
| Reader.Int32sAt | src/client/wl.js:79 | element k of the `Int32Array` is the int32 at byte 4k |
| Reader.SocketReader.constructor | src/client/wl.js:28-30 | a new reader has an empty queue and FIFO, the cursor at 0, no mode, and the handler installed |
| Reader.SocketReader.CutKeepsValid | src/client/wl.js:47-53 | a cut moves its slice from the pending bytes to the handled ones, so what was received is still what was handled followed by what is pending |
| Reader.SocketReader.ProcessMessage | src/client/wl.js:32-57 | an empty queue returns false; a failed cut throws; on both paths the reader's state, and the client's log, object map, insertion order, scratch buffer, display and resources, are unchanged; otherwise the queue, cursor and handled slices follow `CutAt`, and the loop continues only when the request was handled |
| Reader.SocketReader.TakeSlice | src/client/wl.js:47-53 | after a successful cut the queue, cursor and handled slices follow `CutAt`, the reader's invariant still holds, and the pending bytes shrink by the slice's length |
| Reader.SocketReader.Dispatch | src/client/wl.js:55 | a slice is handled without an exception only when it holds at least a header |
| Reader.SocketReader.ProcessMessages | src/client/wl.js:59-62 | slices are only ever appended to the handled list, and when nothing throws, everything received has been handed over in order |
| Reader.SocketReader.PushFds | src/client/wl.js:77-81 | the message's int32s are appended to the FIFO in order |
| Reader.SocketReader.OnMessage | src/client/wl.js:67-94 | the markers set the mode; an `fd` message feeds the FIFO or throws a RangeError while staying attached; a `wl` message is queued and processed, and an exception detaches the handler; nothing happens before a marker or once detached; off the `wl` path the client's log, object map, order, scratch buffer, display and resources are unchanged |
| Reader.SocketReader.OnBinary | src/client/wl.js:74-90 | a binary message before any marker does nothing; in `fd` mode its int32s join the FIFO, or a RangeError is thrown when its length is not a multiple of 4, and the handler stays attached; in both cases the reader's queue and the client's log, object map, order, scratch buffer, display and resources are unchanged; in `wl` mode it is queued and processed, and an exception detaches the handler |
| Reader.SocketReader.Receive | src/client/wl.js:82-86 | the message is appended to what was received, and when nothing throws, all of it has been handled |
| Wl.Transmit | src/client/wl.js:286-288 | `$sendEvent` sends at most one frame, and only when it returns |
| Wl.EmitEvent | src/client/wl.js:426-429 | an event stub sends at most one frame, and only when it returns |
| Wl.TransmitDelivers | src/client/wl.js:286-381 | an open client sends an encodable event as exactly one frame, carrying target, opcode and length, whose body decodes to the arguments |
| Wl.EmitSendsOne | src/client/wl.js:426-429 | a stub that returns sends nothing on a closed client, and exactly its own event from its resource on an open one |
| Wl.ClosedSendsNothing | src/client/wl.js:286-288 | after close a stub sends nothing and leaves the scratch buffer alone; it throws only when the interface lacks the event |
| Wl.AnnounceInOrder | src/client/wl.js:151-155 | `get_registry` sends `global` events from the registry for the announcements in table order, one each; a closed client sends none, and an open one that does not throw sends all |
| Wl.RunsNewestFirst | src/client/wl.js:397-407 | listeners kept newest first run in the reverse of the order they were added |
| Wl.Resource.constructor | src/client/wl.js:384-390 | a new resource has no version, implementation or listeners and is registered with its client under its id |
| Wl.Resource.SetVersion | src/client/wl.js:391-393 | the version is replaced |
| Wl.Resource.SetImplementation | src/client/wl.js:394-396 | the implementation table is replaced |
| Wl.Resource.AddDestroyListener | src/client/wl.js:397-401 | the listener is put at the front, so the list stays the reverse of the order of addition |
| Wl.Resource.Emit | src/client/wl.js:422-430 | an event stub sends what `Wl.EmitEvent` describes and appends it to the log |
| Wl.Resource.Destroy | src/client/wl.js:402-407 | `delete_id` with the resource's id is sent on the display resource, then every listener runs newest first; the id stays mapped |
| Wl.Resource.HandleRequest | src/client/wl.js:408-412 | a request is dispatched by its name; a missing implementation throws a TypeError with nothing done: log, object map, order, scratch buffer, display and resources as before; an external one is only logged |
| Wl.Client.constructor | src/client/wl.js:97-109 | a new client is open, with only the display resource mapped, at id 1 |
| Wl.Client.BindDisplay | src/client/wl.js:158-164 | the display resource is created at id 1 with version 1 and the `sync` and `get_registry` implementations |
| Wl.Client.RegisterObject | src/client/wl.js:167-169 | the resource is mapped under its id, silently overwriting an earlier one, and the insertion order follows `Map.set` |
| Wl.Client.TablesView | src/client/wl.js:167-169 | the object map's insertion order lists every mapped id exactly once |
| Wl.Client.GetObject | src/client/wl.js:170-172 | a lookup finds exactly the mapped ids, and what it finds carries that id and belongs to this client |
| Wl.Client.SendEvent | src/client/wl.js:286-381 | a closed client sends nothing; otherwise the frame is encoded into the scratch buffer and sent as `Wl.Transmit` describes |
| Wl.Client.ReadArgAt | src/client/wl.js:256-273 | one argument read against the live object map returns what `Wire.ReadArg` describes, and registers exactly the resource it reports |
| Wl.Client.DecodeInto | src/client/wl.js:173-279 | the decoding loop returns exactly `Wire.DecodeRequest`, and the object map ends as the decoder's view at the return or the throw |
| Wl.Client.HandleRequest | src/client/wl.js:173-281 | a request that fails to decode throws with nothing sent, the display, the scratch buffer and every resource mapped before untouched, and the object map as the decoder left it; descriptors are taken from the FIFO as the decoder consumed them; a request is dispatched only after a full header |
| Wl.Client.Sync | src/client/wl.js:123-126 | the callback takes the display resource's version and gets `done` with the next serial; a missing callback throws before the serial moves and with the scratch buffer untouched; the globals and the callback's implementation and listeners stay |
| Wl.Client.GetRegistry | src/client/wl.js:128-156 | the registry gets version 1 and the `bind` implementation, then one `global` event per global in table order; its listeners stay; a missing registry throws with nothing sent |
| Wl.Client.SendGlobals | src/client/wl.js:151-155 | the `forEach` loop sends exactly what `Wl.Announce` describes |
| Wl.Client.AnnounceNext | src/client/wl.js:152-154 | one `global` event either ends the announcements with an exception or leaves the rest to follow |
| Wl.Client.Bind | src/client/wl.js:139-144 | `bind(name, …, version, id)` builds a resource of `$globals[name − 1]`'s interface at the peer's id, with the given version and no implementation or listeners, then calls the global's bind callback; the id is registered with `Map.set` semantics, appended to the insertion order (which `_close` follows) unless already mapped; an unknown name or a non-integer id throws with the map and order unchanged |
| Wl.Client.RunListeners | src/client/wl.js:404-406 | every listener is called once, in list order |
| Wl.Client.DestroyClosed | src/client/wl.js:114-116 | on a closed client, destroying the next resource sends nothing and only runs its listeners |
| Wl.Client.Close | src/client/wl.js:110-117 | the socket is closed and the client marked closed, then every mapped resource is destroyed in insertion order, which runs only their listeners; when the display's interface has no `delete_id` event and the object map is non-empty, the first destroy throws a TypeError, and otherwise nothing throws |
| Wl.Client.DestroyAll | src/client/wl.js:114-116 | on a closed client the resources are destroyed in insertion order, each running its listeners; when the display has no `delete_id` event, the first destroy throws a TypeError as soon as the object map is non-empty, and a throw happens only then |
| Shm.RegionRequestScans | src/client/shm.js:34-36 | the request text is `"region "` followed by the five numbers, which the peer's conversion reads back exactly |
| Shm.ShadowPool.constructor | src/client/shm.js:4-12 | a new pool uses the socket `/fd/<fd>`; no offset has been announced (−1), no token issued, nothing awaited |
| Shm.ShadowPool.SetSize | src/client/shm.js:13-16 | the size is recorded, then the buffer is replaced by a fresh zero-filled one of exactly n bytes; a negative n throws a RangeError after the size was recorded |
| Shm.CreatePool | src/client/shm.js:86-88 | `create_pool` makes a fresh pool for the descriptor sized to the request, with a negative size throwing |
| Shm.StoreAtLands | src/client/shm.js:22-24 | a chunk store succeeds exactly when the chunk fits at a non-negative offset; it then copies the chunk byte for byte and leaves every other byte unchanged |
| Shm.ShadowPool.WriteChunk | src/client/shm.js:23-24 | a chunk goes to the announced offset as `Shm.StoreAt` describes; before any announcement (offset −1) it is rejected |
| Shm.ShadowPool.OnMessage | src/client/shm.js:20-32 | `update` sets the offset; a chunk is stored there; an empty chunk fails in `JSON.parse`; `update_done` completes its fetch; each message touches only its own part of the state |
| Shm.ShadowPool.FetchUpdate | src/client/shm.js:34-41 | the next token (starting at 1, never issued before) is awaited, and its region request is sent |
| Shm.ShadowPool.Complete | src/client/shm.js:42-46 | `update_done` removes only its token from the awaited set and resolves it with the current buffer; an unknown token throws a TypeError |
| Shm.Buffer.constructor | src/client/shm.js:48-56 | a buffer keeps its pool, offset, size, stride and format, with 4 bytes per pixel |
| Shm.OriginLayout | src/client/shm.js:64 | pixels of a row lie 4 bytes apart and rows lie `stride` apart, so row r of the rectangle starts r · stride after its first pixel |
| Shm.Buffer.Damaged | src/client/shm.js:63-68 | damage issues exactly one fetch, for `offset + y·stride + x·4` with `w·4` and `h·4` bytes at the buffer's stride |
| Shm.SliceBound | src/client/shm.js:74 | `slice` clamps each bound into the buffer and leaves in-range bounds unchanged |
| Shm.SliceOfLength | src/client/shm.js:74 | a slice is never longer than its bounds' distance, and inside the buffer it is exactly the bytes between them |
| Shm.Row | src/client/shm.js:72-74 | a row sliced from the pool is at most the row's byte width |
| Shm.RepaintedLastRow | src/client/shm.js:74 | copying the last row changes exactly its own bytes |
| Shm.RepaintPlacesRows | src/client/shm.js:71-75 | after the loop, each row sits at its own offset, byte for byte; later rows do not overwrite it |
| Shm.RepaintReadsPool | src/client/shm.js:71-74 | byte i of image row r is the pool byte at `origin + r·stride + i`; the stride is honoured and never assumed equal to `w·4` |
| Shm.CopyRows | src/client/shm.js:71-75 | the row loop leaves the image data exactly as `Shm.Repainted` over the fetched rows |
| Shm.CopyRow | src/client/shm.js:72-74 | one turn slices row y at `origin + y·stride` and stores it just after the earlier rows |
| Shm.Buffer.Repaint | src/client/shm.js:68-78 | the completion callback's rows are copied from the resolved buffer as `Shm.CopyRows` describes |
| Shm.RowTargetAsWrittenOverruns | src/client/shm.js:73-74 | with the target and length of line 73-74, once the slice's bytes are copied, the second row of a 10×10 damage at stride 400 would run past a 400-byte image; the intended rows are 40 bytes each, the last one ending at the image's end |
| Shm.RowCopyIgnoredAsWritten | src/client/shm.js:74 | as written, each row store is handed an ArrayBuffer, copies nothing and never throws, because `y * w` stays within the image |
| Shm.RowTargetsTile | src/client/shm.js:73 | under the intended layout each row lies inside the image and ends where the next begins |
| Shm.ChunkIgnoredAsWritten | src/client/shm.js:24 | as written, a 3-byte chunk leaves the pool unchanged, while the intended store copies it |

## Left out

- The socket I/O: `socket.send`, `socket.close` and the WebSocket itself. Frames sent, sockets closed and calls into code outside the model are appended to `Wl.Client.log`.
- The pool's `socket.send` text goes to the `sent` field instead.
- `JSON.parse` and the control messages' text. They arrive as `Shm.PoolMessage` values already parsed, except for an empty binary chunk, which reaches `JSON.parse` and throws. This parse is idealized. The peer's text (src/server/peabody-server.c:211, 221) has unquoted keys, so `JSON.parse` at shm.js:26 as written would throw a SyntaxError on it. The peer is not part of this model.
- Promises. A fetch is a token in `pending`. Its resolution with the buffer is a snapshot in `completed`, and the `then` continuation is the separate call `Shm.Buffer.Repaint`.
- Canvas and DOM work (shm.js:58-61, 69, 77): `createElement`, `getImageData` and `setImageData`. The image data is an array whose length is given as `h` rows of `w·4` bytes. `getImage` only returns the canvas.
- `create_buffer` (shm.js:90-92) builds a `wl_shm_buffer` resource and never a pixel `Buffer`. The `wl_shm`/`wl_shm_pool` resources and the format events (shm.js:102-116) are resource wiring not modelled.
- `resize` (shm.js:98-100) is a direct call of `Shm.ShadowPool.SetSize`.
- `initSHM`'s registration of `wl_shm` (shm.js:119) is `WlDisplay.Display.RegisterGlobal`.
- JavaScript doubles. Numbers are integers or reals. A fixed-point argument decodes to `wire / 256` as a Dafny real, and encoding truncates and wraps to 32 bits.
- An argument of the wrong kind for its slot is rejected with `BadArgument`, and is not coerced or misread as JavaScript would. For example, JavaScript writes a `0` in a nullable object slot as 0, because `if (obj)` is false.
- `Wire.Arg.Arr` is a byte sequence. It stands for a `Uint8Array` when an event is encoded, and for the ArrayBuffer that `buffer.slice` returns when a request is decoded (wl.js:236). As written, re-sending a decoded array writes its length, but `byteView.set` of an ArrayBuffer (wl.js:344) copies no bytes. `Wire.FrameRoundTrip`'s "same arguments" means the same bytes, not the same JavaScript value.
- A request opcode the interface lacks is `NoRequest`, which stands for the TypeError of `request[1]` on undefined (wl.js:251-252).
- Interface descriptors are data (`Wire.Iface`), and the `wl` namespace is a catalog map. Implementations outside the bootstrap are the opaque `External` handler.
- Text messages other than `"wl"` and `"fd"` are not delivered to the reader model.
- Wl.Client.HandleRequest: its ensures does not repeat the decoded request's contents for the success case. `Wl.Client.DecodeInto` states them, and the dispatch is `Wl.Resource.HandleRequest`.
- Wl.Resource.HandleRequest: the dispatch to `sync`, `get_registry` and `bind` is stated by those methods' own contracts, not repeated here.
- Reader.SocketReader.Dispatch: its ensures states only that a handled slice holds a header. How the slice is decoded and dispatched is stated by `Wl.Client.HandleRequest` and `Wl.Client.DecodeInto`. The FIFO it keeps is the `fdsLeft` those report.
- Shm.CopyRows: the image length is required to be `h·w·4` bytes, the size `getImageData(x, y, w, h)` returns. The canvas is not modelled.
- Shm.Buffer.Repaint: it models the completion callback with the intended destination. Negative damage sizes are not modelled: its requires asks for `w >= 0` and `h >= 0`, while shm.js:63-78 has no guard, so `h < 0` skips the loop and `w < 0` gives row 1 a negative target. The as-written destination is kept apart in `Shm.RowTargetAsWritten`.
- The peer (src/server/peabody-server.c) is not part of this model. Its `%d` conversion is modelled only to show that the region request is read back.

## Findings

| source | as written | input that shows it | evidently intended | confidence | as-written member | corrected member |
|---|---|---|---|---|---|---|
| src/client/wl.js:275 | `args.map(readArg)` maps over the empty `args`, so no argument is ever read and any request with arguments fails "Size mismatch" | a 12-byte `wl_display.sync` (object 1, opcode 0) carrying callback id 2 | map `readArg` over the request's `types` | not executed | Wire.AsWrittenRejectsArguments | Wire.EventDecodes |
| src/client/shm.js:73-74 | row `y` is aimed at `y * w` with `stride` bytes; this matters only once line 74 copies the slice's bytes (next row) | damage of 10×10 pixels at stride 400, with the copy made: row 1 would be 400 bytes at offset 10 of a 400-byte image | store `w * 4` bytes at `y * w * 4` | not executed | Shm.RowTargetAsWrittenOverruns | Shm.RowTargetsTile |
| src/client/shm.js:74 | `imageData.data.set(buffer.slice(…), imageOffs)` is given an ArrayBuffer, which has no `length`, so no row is copied | any damage: the fetch resolves with the pool's ArrayBuffer, and the image data keeps its contents | copy the slice's bytes (`new Uint8Array(buffer.slice(…))`) | not executed | Shm.RowCopyIgnoredAsWritten | Shm.CopyRows |
| src/client/shm.js:24 | `view.set(data, offset)` is given the chunk's ArrayBuffer, which has no `length`, so nothing is copied | a 3-byte chunk [1, 2, 3] announced at offset 0 of a 4-byte pool | copy the chunk's bytes (`new Uint8Array(data)`) | not executed | Shm.ChunkIgnoredAsWritten | Shm.StoreAtLands |
