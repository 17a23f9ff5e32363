# Albion data client: verified model

This project models the parts of the Albion data client that decide what the client learns and
sends, and proves properties of them in Dafny 4.11. `dafny verify dfyconfig.toml` checks it.

* **Protocol18 values** (`Values`, `Varint`, `Protocol18`, `Deserializer`, `WireTree`, `RoundTrip`,
  `Survival`, `Malformed`, `DecoderBounds`). `Protocol18` says what the decoder computes, as functions from the unread bytes
  to a value and the bytes left over, with typed arrays defined element by element. `Deserializer`
  is the code itself: readers that advance a shared buffer, with a specialised loop per array type,
  each proved to compute its function. `WireTree` describes what senders print (a tree of type
  codes, payloads and spelled counts) and the Go value a tree stands for; both are
  written without the decoder and with the numbers of the wire, except that the value side shares the
  slice types of typed arrays, Go's map assignment and the renaming of keys with it; these are pinned
  by themselves in `Malformed` and `Values`. `RoundTrip`
  proves what every printed tree is read as, and `Survival` exactly when that is the value it stands
  for: always when bytes follow, and at the end of a buffer unless a dictionary loses its entries.
  `Malformed` says what is read of input that is too short or announces more than there is. `DecoderBounds` holds on all inputs, malformed ones too.
* **Photon packets** (`Commands`, `PhotonParser`, `Reassembly`, `PacketRoundTrip`, `Framing`). `Commands` is a
  splitter that looks at lengths only, a fold of commands over the table of partly received
  messages, and the callbacks they cause. `PhotonParser` is the parser object with its segment
  buffers, proved against that fold. `Reassembly` proves what holds of whole runs;
  `PacketRoundTrip` starts from printed packets and ends at callbacks; `Framing` proves the converse, that
  only packets printed like that are accepted, and which messages cause no callback.
* **IP packets** (`Checksum`, `IpPackets`): the Android client's header parsers, builders and
  checksum, and the collector's separate UDP filter.
* **WebSocket hub** (`WsHub.dfy`, modules `HubSpec` and `WsHub`): a step system over bounded
  channels, with Go's channel panics, and the hub object.
* **Market history** (`MarketHistory`): the 8192-slot request cache and the response's triples.
* **Proof of work** (`ProofOfWork`): the expansion of a digest to bits and the search.

## Conventions

Bytes and machine integers are mathematical integers with their widths, truncations and signs
written out; `|`, `<<`, bit tests and conversions to unsigned types are recursive functions in
`Bytes`. Reads past the end of a buffer behave as Go's do: a missing byte is 0, a fixed-width read
with too few bytes consumes them and gives 0, a read into a longer slice leaves the tail 0. Floats
are their bit patterns; a Go map with interface keys is the list of its entries, so that NaN keys
(equal to nothing) and the two zeros (equal to each other) are treated as Go treats them. Go's `int`
has 64 bits. Effects on the outside are values: a parser's callbacks are recorded in the field
`calls`, a hub method that would panic returns false, random candidates and the digest are
parameters of `SolvePow`.

## Where the natural claim is false

* A dictionary whose fixed key and value types have no payload loses its entries at the end of a
  buffer, because the loop also stops with the input. `Survival.TreeRoundTripExactly` gives the exact
  condition for every tree, `PacketRoundTrip.MessageDelivers` for every message. Only a key hides the
  loss, since a value with a dictionary in it is stored under a name made from its type.
  `Survival.LostDictionary` and `Survival.LostInside` are instances.
* A repeated fragment counts as progress, so a retransmission can complete a message with zeros in
  it, and one that comes after completion, even without data, stays pending. `Reassembly.RepeatedPiecesExactly` and
  `Reassembly.RepeatedFragmentsExactly` say exactly when a message still arrives once, intact and
  with nothing left over; `Reassembly.RepeatedFragmentCorrupts` gives an instance of each failure.
* The hub panics in exactly those runs in which a client registers again after its channel was closed
  and is then touched by a broadcast or unregistered (`HubSpec.RunPanicsExactly`);
  `HubSpec.RegisteringTwicePanics` is an instance. `serveWs` (libs/collector/pipeline/ws_client.go:146-147)
  registers only clients that it has just made, so this program never gets there.
* The request cache answers every response by the last message in its slot, and so like a map keyed
  by message id exactly as long as that leaves what the last message of the same id leaves
  (`MarketHistory.AnswerAt`, `MarketHistory.CacheRefinesMap`). `MarketHistory.CollidingRequests` shows
  a response that takes another request's information, and that a request which is never answered
  does no harm to a later one.
* A market history response with a negative index panics, and so does one whose silver or time array
  is shorter than its amounts, after it has freed its slot (`MarketHistory.AlbionState.ProcessResponse`).
* Ports and lengths are stored modulo 65536: `IpPackets.UdpRoundTrip` gives the exact payload sizes
  that survive.
* The two decoders of responses differ when the debug value is a string array
  (`PacketRoundTrip.ResponseDecodersAgree` is exact, `PacketRoundTrip.DecodersDisagree` an instance).

## Model

| member | source | states |
|---|---|---|
| Survival.TreeRoundTripExactly | libs/collector/photon/deserializer.go:84-379 | for every well-formed wire tree (all type codes, typed, nested and object arrays, packed booleans, dictionaries, parameter tables, custom data, nested messages, every integer and count in any spelling that the reader takes) and whatever bytes follow, decoding the printed payload gives exactly the value the tree stands for and leaves exactly those bytes, if and only if bytes do follow or no dictionary in it, keys aside, loses its entries to the end of the buffer |
| Survival.TreeRoundTrip | libs/collector/photon/deserializer.go:84-379 | followed by at least one byte, every well-formed tree is read back; at the end of a buffer, every one that survives it |
| RoundTrip.TreeIsRead | libs/collector/photon/deserializer.go:84-379 | what is read of every well-formed tree, the lossy ones too: the same value with the lost dictionaries empty, leaving exactly the bytes that follow |
| Survival.ReadExactly | libs/collector/photon/deserializer.go:285-312 | what is read is what the tree stands for if and only if it survives: no later element, entry or parameter hides a loss |
| Survival.TableRoundTripExactly | libs/collector/photon/deserializer.go:60-81 | a printed parameter table is read back as the assignment of its fields in order, leaving the bytes after it, if and only if there are any or its last value survives |
| Survival.DictionaryRoundTripExactly | libs/collector/photon/deserializer.go:285-312 | a dictionary is read back if and only if bytes follow it, or it has no entries, or they take bytes and the values among them survive |
| Survival.LostDictionary | libs/collector/photon/deserializer.go:290-311 | the smallest dictionary that is lost: nil to nil with fixed types at the end of a buffer |
| Survival.LostInside | libs/collector/photon/deserializer.go:285-312 | the same dictionary is lost as the last element of an array, and not missed as a key |
| RoundTrip.DistinctItemsAreKept | libs/collector/photon/deserializer.go:303-309 | with comparable, pairwise different keys no entry is overwritten or renamed: the map holds exactly the items |
| RoundTrip.UnpackPack | libs/collector/photon/deserializer.go:174-182 | unpacking packed booleans gives back every flag at its bit |
| Values.PutNew | libs/collector/photon/deserializer.go:305-306 | assigning under a key equal to none present adds one entry and changes no other |
| Values.PutOld | libs/collector/photon/deserializer.go:305-306 | assignment under a key equal to one present overwrites that entry and no other |
| Values.KeysAreGo | libs/collector/photon/deserializer.go:305-306 | which keys Go takes for equal: a value and itself unless it is NaN, and of different values only the two zeros |
| Values.KeysAreStored | libs/collector/photon/deserializer.go:305-309 | scalars and strings are keys as they are, all else gets a name with its number and type |
| Values.SliceNames | libs/collector/photon/deserializer.go:308 | the type names of seven slices |
| Values.OtherNames | libs/collector/photon/deserializer.go:308 | the type names of the other slices and of the maps |
| Values.DecimalSpells | libs/collector/photon/deserializer.go:308 | the number in such a name is printed in decimal, without leading zeros |
| Bytes.ByteOrders | libs/collector/photon/deserializer.go:389-405 | the little- and big-endian numbers of 2 and 4 bytes, byte by byte |
| Malformed.ConstantCodes | libs/collector/photon/deserializer.go:88-162 | the values of codes 0, 8 and 27 to 34, which consume nothing |
| Malformed.UnassignedCodes | libs/collector/photon/deserializer.go:161-166 | the error text of every unassigned code below 64 |
| Malformed.Slices | libs/collector/photon/deserializer.go:171-250 | elements of seven types come out in the slice of just their contents, all others in a slice of interfaces |
| Malformed.FlagAt | libs/collector/photon/deserializer.go:174-182 | a packed boolean is the bit of its place in its byte, lowest first |
| Malformed.ShortBytes | libs/collector/photon/deserializer.go:91-125 | the one-byte codes at the end of the input give zeros |
| Malformed.ShortWords | libs/collector/photon/deserializer.go:96-129 | a 16-bit code with too few bytes consumes them for a zero |
| Malformed.ShortFloats | libs/collector/photon/deserializer.go:98-101 | so do floats and doubles |
| Malformed.NothingCompressed | libs/collector/photon/deserializer.go:102-107 | strings and compressed integers at the end of the input are empty and zero |
| Malformed.OverlongLengths | libs/collector/photon/deserializer.go:331-344 | a length beyond the input gives the empty string and a nil custom value with no more consumed, and the rest of the input in the slim form |
| Malformed.ArraysAtEnd | libs/collector/photon/deserializer.go:171-280 | nil for a bare array without type code, nils for missing objects, false and 0 for missing flags and bytes |
| Malformed.ElementsPastEnd | libs/collector/photon/deserializer.go:187-250 | past the end, every further element of a typed array is the zero of its type |
| Malformed.TaggedElementsStop | libs/collector/photon/deserializer.go:269-280 | an object array that announces more elements than there are keeps those there are and ends with nils |
| Malformed.TableStopsWithInput | libs/collector/photon/deserializer.go:66-81 | a table that announces more parameters than there are keeps those there are; a lone key is consumed and dropped |
| Malformed.DictionaryStopsWithInput | libs/collector/photon/deserializer.go:290-312 | so does a dictionary whose entries take bytes |
| Malformed.ShortMessages | libs/collector/photon/deserializer.go:347-379 | nested responses below and at 3 bytes, requests and events without bytes |
| Varint.UvarintMeaning | libs/collector/photon/deserializer.go:423-459 | on every input: the number that the 7-bit groups up to the terminator spell, truncated to the width, if a terminator comes within 5 (32 bits) or 10 (64 bits) bytes; otherwise 0 after consuming the limit or all there is |
| Varint.SpellsExactly | libs/collector/photon/deserializer.go:423-459 | bytes spell a number if and only if the reader takes exactly them for it whatever follows |
| Varint.SpellingRoundTrip | libs/collector/photon/deserializer.go:423-459 | every spelling (padded, with a truncated last group, or unterminated at the limit) is read back as its number, consuming exactly the spelling, at most 5 or 10 bytes |
| Varint.UvarintRoundTrip | libs/collector/photon/deserializer.go:423-459 | every number of the width has a spelling, its shortest one, and is read back from it |
| Varint.ZigzagBijection | libs/collector/photon/deserializer.go:461-469 | zigzag encoding and the reader's shift-and-xor are inverse bijections between the signed and unsigned numbers of a width |
| Varint.UnzigzagMeaning | libs/collector/photon/deserializer.go:461-469 | the shift-and-xor gives v/2 for even patterns and -1 - v/2 for odd ones |
| Varint.VarintRoundTrip | libs/collector/photon/deserializer.go:461-469 | every signed number of 32 or 64 bits is read back from every spelling of its zigzag image |
| Varint.VarintInRange | libs/collector/photon/deserializer.go:461-469 | on every input the signed readers yield a number of their width |
| Varint.GroupAdds | libs/collector/photon/deserializer.go:431 | or-ing in a group whose overflow is cut off adds it modulo the width |
| DecoderBounds.DecodeBounds | libs/collector/photon/deserializer.go:84-379 | on every byte string and type code, what is left is a suffix of the input and the value is nested no deeper than the input is long |
| DecoderBounds.ElementsBounds | libs/collector/photon/deserializer.go:243-249 | the same for any number of elements, also when the count exceeds the input |
| DecoderBounds.TableBounds | libs/collector/photon/deserializer.go:66-81 | the same for parameter tables |
| DecoderBounds.DictionaryBounds | libs/collector/photon/deserializer.go:285-312 | the same for dictionaries |
| Deserializer.ByteBuffer.ReadByte | libs/collector/photon/deserializer.go:70-77 | one byte is consumed, or 0 and a flag at the end |
| Deserializer.ByteBuffer.ReadInto | libs/collector/photon/deserializer.go:177-186 | a slice is filled as far as the bytes go and zero after that |
| Deserializer.ByteBuffer.ReadFixed | libs/collector/photon/deserializer.go:389-405 | a little-endian number, or all remaining bytes consumed for a 0 |
| Deserializer.ReadInt16 | libs/collector/photon/deserializer.go:383-387 | a signed little-endian 16-bit number, with the same short read |
| Deserializer.ReadCompressedUint | libs/collector/photon/deserializer.go:423-459 | the loops over 7-bit groups compute the unsigned compressed number of their width |
| Deserializer.ReadCompressedInt | libs/collector/photon/deserializer.go:461-469 | the signed compressed number |
| Deserializer.ReadString | libs/collector/photon/deserializer.go:408-416 | a counted string; an over-long count gives the empty string and consumes no more |
| Deserializer.DeserializeCustomPayload | libs/collector/photon/deserializer.go:331-344 | a counted payload; an over-long size takes the rest in the slim form and gives nil otherwise |
| Deserializer.DeserializeCustom | libs/collector/photon/deserializer.go:320-329 | the id comes from the type code in the slim form and from the input otherwise |
| Deserializer.Deserialize | libs/collector/photon/deserializer.go:84-167 | every type code is decoded as `Protocol18.Decode` says, and the recursion terminates although counts may exceed the input |
| Deserializer.DeserializeScalar | libs/collector/photon/deserializer.go:88-165 | the branches without nested values, constants and unknown codes included |
| Deserializer.DeserializeFlags | libs/collector/photon/deserializer.go:174-182 | the loop over packed bytes yields the flag of every bit |
| Deserializer.DeserializeOctets | libs/collector/photon/deserializer.go:183-186 | the bulk read of bytes yields the same elements and rest as decoding byte after byte, also past the end |
| Deserializer.DeserializeShorts | libs/collector/photon/deserializer.go:187-192 | the specialised loop yields the same elements and rest as decoding value after value |
| Deserializer.DeserializePatterns | libs/collector/photon/deserializer.go:193-204 | the same for floats and doubles |
| Deserializer.DeserializeStrings | libs/collector/photon/deserializer.go:205-210 | the same for strings |
| Deserializer.DeserializeCompressed | libs/collector/photon/deserializer.go:231-242 | the same for compressed ints and longs |
| Deserializer.DeserializeTables | libs/collector/photon/deserializer.go:219-230 | the same for dictionaries and hashtables |
| Deserializer.DeserializeCustoms | libs/collector/photon/deserializer.go:211-218 | the elements of a custom array share the one id read before them |
| Deserializer.DeserializeElements | libs/collector/photon/deserializer.go:243-249 | the generic loop decodes the wanted number of values of one type |
| Deserializer.DeserializeTypedArray | libs/collector/photon/deserializer.go:171-250 | every typed array equals the packing of its elements decoded one by one (booleans and customs: their own layout) |
| Deserializer.DeserializeNestedArray | libs/collector/photon/deserializer.go:254-265 | count, type code, elements; nil if the type code is missing |
| Deserializer.DeserializeObjectArray | libs/collector/photon/deserializer.go:269-280 | elements with their own type codes; where the input ends the rest stays nil |
| Deserializer.DeserializeEntry | libs/collector/photon/deserializer.go:291-304 | type codes that the entry carries, then key, then value |
| Deserializer.DeserializeDictionary | libs/collector/photon/deserializer.go:285-312 | the entries assigned in order, uncomparable keys renamed, until the count or the input ends |
| Deserializer.ReadParameterTable | libs/collector/photon/deserializer.go:66-81 | the parameters assigned in order until the count or the input ends |
| Deserializer.DeserializeOperationRequestInner | libs/collector/photon/deserializer.go:347-351 | operation code and parameter table |
| Deserializer.DeserializeOperationResponseInner | libs/collector/photon/deserializer.go:353-373 | operation code, return code, debug text and table; nil below 3 bytes |
| Deserializer.DeserializeEventDataInner | libs/collector/photon/deserializer.go:375-379 | event code and parameter table |
| PhotonParser.PhotonParser.ReceivePacket | libs/collector/photon/parser.go:80-107 | the result, the pending table and the callbacks are those of the pure splitter and the fold over the commands that it finds, stopping at the first malformed or too-short one |
| PhotonParser.PhotonParser.HandleCommands | libs/collector/photon/parser.go:99-106 | the loop over the commands of a packet refines split-then-fold |
| PhotonParser.PhotonParser.HandleCommand | libs/collector/photon/parser.go:109-151 | whichever branch runs, the offset advances by exactly the declared length, and the effect is that of the command alone |
| PhotonParser.PhotonParser.DispatchCommand | libs/collector/photon/parser.go:126-151 | every branch ends at the end of the command and has the effect of its type |
| PhotonParser.PhotonParser.HandleSendReliable | libs/collector/photon/parser.go:153-188 | calls what the message stands for and returns the end of the message in every branch |
| PhotonParser.PhotonParser.HandleSendFragment | libs/collector/photon/parser.go:249-271 | parses the fragment header, ignores a short one, and advances by exactly the length |
| PhotonParser.PhotonParser.StoreFragment | libs/collector/photon/parser.go:273-292 | the table and callbacks after a fragment, on segment objects that are changed in place and never shared |
| PhotonParser.PhotonParser.DeliverSegment | libs/collector/photon/parser.go:289-292 | a complete segment leaves the table and is delivered as a message |
| PhotonParser.PhotonParser.DispatchRequest | libs/collector/photon/parser.go:190-199 | the request callback with operation code and table, if it is set and there is data |
| PhotonParser.PhotonParser.DispatchResponse | libs/collector/photon/parser.go:201-236 | the response callback; a string array in debug position becomes parameter 0 |
| PhotonParser.PhotonParser.DispatchEvent | libs/collector/photon/parser.go:238-247 | the event callback |
| PhotonParser.SegmentedPackage.Write | libs/collector/photon/parser.go:282-287 | data that fits is copied into place; its length counts whether it fits or not |
| PhotonParser.PhotonParser.constructor | libs/collector/photon/parser.go:65-76 | nothing pending, nothing called |
| Framing.FirstCommandExactly | libs/collector/photon/parser.go:109-124 | a command is found if and only if the bytes start with it as a sender prints it |
| Framing.SplitExactly | libs/collector/photon/parser.go:99-106 | what is handled of a packet body are its printed commands up to the announced number or to the first that cannot be handled |
| Framing.AcceptedExactly | libs/collector/photon/parser.go:80-107 | a packet is accepted if and only if it starts as a sender prints it: an unencrypted header and the commands it announces |
| Framing.UnsplitPackets | libs/collector/photon/parser.go:80-97 | packets below 12 bytes do nothing, packets marked as encrypted call only that callback; both are rejected |
| Framing.CommandEffects | libs/collector/photon/parser.go:126-151 | which commands deliver, which are fragments, and which are skipped |
| Framing.DeliverExactly | libs/collector/photon/parser.go:153-247 | exactly which messages cause a callback: its kind, its code and its table, and none for short messages, unknown types and unset callbacks |
| Reassembly.FragmentationIsTransparent | libs/collector/photon/parser.go:249-295 | fragments that cut a message, in any order and among any other commands, give the same callbacks and final table as the whole message sent reliably at the last fragment's position; nothing earlier, nothing left pending |
| Reassembly.FragmentedPacketsAreTransparent | libs/collector/photon/parser.go:80-107 | the same when the fragments are spread over any packets |
| Reassembly.NonInterference | libs/collector/photon/parser.go:273-292 | over any run, the pending entry of a start sequence and the messages it completes are those of its own fragments processed alone |
| Reassembly.RunCalls | libs/collector/photon/parser.go:153-188 | the callbacks of a run are those of the messages delivered, in order |
| Reassembly.BytesAreConserved | libs/collector/photon/parser.go:282-292 | for every start sequence, the bytes its fragments carried are counted once, in the pending entry or in a completed message |
| Reassembly.AllBytesAreConserved | libs/collector/photon/parser.go:273-292 | over any run, the bytes counted in all pending entries and the bytes fragments carry are those counted in the entries afterwards and in the completed messages |
| Reassembly.RunKeepsTable | libs/collector/photon/parser.go:273-292 | every step keeps: a pending buffer has its full length and fewer bytes counted than that |
| Reassembly.PacketsKeepTable | libs/collector/photon/parser.go:80-107 | that holds in every state reachable from an empty parser |
| Reassembly.PacketsAreRun | libs/collector/photon/parser.go:80-107 | a run of packets is the run of their commands: packet boundaries do not matter |
| Reassembly.CutLength | libs/collector/photon/parser.go:282-289 | disjoint pieces that cover a message carry exactly its length, so the byte count is reached with the last one |
| Reassembly.RepeatedPiecesExactly | libs/collector/photon/parser.go:273-292 | any pieces of a message, repeated or overlapping, deliver exactly it, once, and leave nothing pending, if and only if the count of bytes first reaches its length with the last of them and every byte that none covers is zero |
| Reassembly.RepeatedFragmentsExactly | libs/collector/photon/parser.go:249-295 | the same of any run with other commands in between; and then callbacks and table are those of the run with the message sent whole |
| Reassembly.RepeatedFragmentCorrupts | libs/collector/photon/parser.go:273-292 | half of a message received twice is delivered with zeros as the other half; a half repeated after completion stays pending |
| Reassembly.OddFragments | libs/collector/photon/parser.go:273-292 | data beyond the end of the message is counted and not copied; the total of the first fragment counts |
| PacketRoundTrip.PacketRoundTrip | libs/collector/photon/parser.go:80-151 | an unencrypted packet of at most 255 printed commands is accepted and does exactly what its commands do |
| PacketRoundTrip.PacketsRoundTrip | libs/collector/photon/parser.go:80-107 | any number of printed packets do exactly what all their commands do in order |
| PacketRoundTrip.SplitOfPrinted | libs/collector/photon/parser.go:109-124 | the splitter finds exactly the printed commands, whatever follows them |
| PacketRoundTrip.MessageDelivers | libs/collector/photon/parser.go:153-247 | a printed message calls exactly the callback it stands for, if that is set, if and only if no dictionary is lost at its end |
| PacketRoundTrip.MessageIsDelivered | libs/collector/photon/parser.go:153-247 | what every printed message calls |
| PacketRoundTrip.DebugArrives | libs/collector/photon/parser.go:201-236 | the debug message of a response reaches the callback, and is empty if it is neither a string nor a string array |
| PacketRoundTrip.DebugIsDecoded | libs/collector/photon/deserializer.go:353-373 | the same for a nested response |
| PacketRoundTrip.MessagesArrive | libs/collector/pipeline/decode_reliable_photon_test.go:12-27 | a printed packet of messages, sent reliably or not, calls exactly their callbacks (as `MessageIsDelivered` gives them) in order and leaves the pending table alone |
| PacketRoundTrip.FragmentRoundTrip | libs/collector/photon/parser.go:254-266 | a printed fragment header is parsed back |
| PacketRoundTrip.FragmentedMessageArrives | libs/collector/photon/parser.go:80-295 | printed packets that carry the pieces of a printed message, each with its own fragment number, in any order, mixed with any other commands and spread over packets in any way, do what the other commands do and call the message's callback (as `MessageIsDelivered` gives it) at the last piece; nothing stays pending for it |
| PacketRoundTrip.ResponseDecodersAgree | libs/collector/photon/parser.go:201-236 | on every body of at least 3 bytes, dispatcher and nested decoder agree on code, return code, debug text and table, if and only if the debug value is not a string array or the table is just that array |
| PacketRoundTrip.DecodersDisagree | libs/collector/photon/parser.go:201-236 | a response with the string array ["A"] in debug position: the dispatcher makes it parameter 0, the nested decoder drops it |
| Checksum.StoredChecksumVerifies | apps/mobile/android/app/src/main/kotlin/com/albiondata/client/IpPacketHelper.kt:106-108 | storing a buffer's checksum in a zeroed field at an even offset makes its checksum 0 |
| Checksum.TwoFoldsSuffice | apps/mobile/android/app/src/main/kotlin/com/albiondata/client/IpPacketHelper.kt:174-176 | for every sum that fits a signed 32-bit integer, two folds give the complement of the ones'-complement sum |
| Checksum.SumOfUpTo64K | apps/mobile/android/app/src/main/kotlin/com/albiondata/client/IpPacketHelper.kt:164-177 | up to 65536 bytes the accumulator does not overflow and the result is the internet checksum |
| Checksum.OnesSumIsNormal | apps/mobile/android/app/src/main/kotlin/com/albiondata/client/IpPacketHelper.kt:164-177 | the ones'-complement sum of RFC 1071 is the plain sum modulo 0xFFFF in its nonzero representative |
| Checksum.Compute | apps/mobile/android/app/src/main/kotlin/com/albiondata/client/IpPacketHelper.kt:164-177 | the loop and folds compute the folded 32-bit sum for every length, and the internet checksum up to 65536 bytes |
| Checksum.ExampleOfRfc1071 | apps/mobile/android/app/src/main/kotlin/com/albiondata/client/IpPacketHelper.kt:164-177 | the worked example of section 3 of RFC 1071 |
| Checksum.OddLastByte | apps/mobile/android/app/src/main/kotlin/com/albiondata/client/IpPacketHelper.kt:171-173 | an odd last byte counts as the high byte of a word |
| IpPackets.ParsersAgree | libs/collector/mobile/mobile.go:189-234 | on every byte string the collector's filter accepts exactly what the client's parsers accept as UDP with a full header and the game's port, with the same payload and source |
| IpPackets.UdpRoundTrip | apps/mobile/android/app/src/main/kotlin/com/albiondata/client/IpPacketHelper.kt:42-118 | built packets parse back: addresses, ports modulo 65536, the payload if and only if it has at most 65527 bytes, the total length if and only if the payload has at most 65507 |
| IpPackets.RstRoundTrip | apps/mobile/android/app/src/main/kotlin/com/albiondata/client/IpPacketHelper.kt:67-162 | a built reset parses back with its ports, flags RST and ACK, sequence number 0 and no payload |
| IpPackets.UdpFields | apps/mobile/android/app/src/main/kotlin/com/albiondata/client/IpPacketHelper.kt:83-118 | every byte of a built UDP packet but the header checksum |
| IpPackets.RstFields | apps/mobile/android/app/src/main/kotlin/com/albiondata/client/IpPacketHelper.kt:120-162 | every byte of a built reset but the checksums, in particular the acknowledgment number modulo 2^32 |
| IpPackets.PseudoFields | apps/mobile/android/app/src/main/kotlin/com/albiondata/client/IpPacketHelper.kt:179-190 | every byte of the pseudo-header |
| IpPackets.Ipv4RoundTrip | apps/mobile/android/app/src/main/kotlin/com/albiondata/client/IpPacketHelper.kt:42-53 | the fields of every IPv4 header, with or without options, are parsed back |
| IpPackets.Ipv4Refusals | apps/mobile/android/app/src/main/kotlin/com/albiondata/client/IpPacketHelper.kt:43-47 | exactly the headers that are refused |
| IpPackets.DatagramRoundTrip | apps/mobile/android/app/src/main/kotlin/com/albiondata/client/IpPacketHelper.kt:55-65 | ports and payload of every UDP datagram are parsed back behind an IP header of any length, if its length is at least 8 and within the packet; otherwise it is refused |
| IpPackets.TcpRoundTrip | apps/mobile/android/app/src/main/kotlin/com/albiondata/client/IpPacketHelper.kt:67-81 | ports, sequence number, flags, header length and payload of every TCP segment, with any options, are parsed back |
| IpPackets.TcpRefusals | apps/mobile/android/app/src/main/kotlin/com/albiondata/client/IpPacketHelper.kt:67-81 | only a missing TCP header is refused, and a header length beyond the packet leaves no payload |
| IpPackets.FilterTakesBuilt | libs/collector/mobile/mobile.go:189-234 | the collector takes a packet that the client built if and only if one port is 5056, and then its payload and source |
| IpPackets.BuiltHeaderVerifies | apps/mobile/android/app/src/main/kotlin/com/albiondata/client/IpPacketHelper.kt:94-108 | every built IPv4 header verifies |
| IpPackets.BuiltRstVerifies | apps/mobile/android/app/src/main/kotlin/com/albiondata/client/IpPacketHelper.kt:131-190 | every built reset verifies, its header alone and its segment with the pseudo-header |
| IpPackets.BuildIpv4UdpPacket | apps/mobile/android/app/src/main/kotlin/com/albiondata/client/IpPacketHelper.kt:83-118 | the buffer that is filled step by step ends as the UDP packet |
| IpPackets.BuildTcpRst | apps/mobile/android/app/src/main/kotlin/com/albiondata/client/IpPacketHelper.kt:120-162 | the buffer that is filled step by step ends as the reset packet |
| IpPackets.TcpChecksum | apps/mobile/android/app/src/main/kotlin/com/albiondata/client/IpPacketHelper.kt:179-190 | the checksum over pseudo-header and segment |
| HubSpec.RunIsSafe | libs/collector/pipeline/ws_hub.go:32-53 | over any run in which each client registers at most once, nothing is sent to a closed channel and none is closed twice |
| HubSpec.RunPanicsExactly | libs/collector/pipeline/ws_hub.go:32-53 | a run from an open hub panics if and only if some client registers again after its channel was closed and later there is a broadcast or that client unregisters |
| HubSpec.StepStaysOpen | libs/collector/pipeline/ws_hub.go:32-53 | an open hub never panics, and stays open if and only if no client registers whose channel was closed |
| HubSpec.RegisteringTwicePanics | libs/collector/pipeline/ws_hub.go:35-45 | registering again after unregistering makes the next broadcast panic |
| HubSpec.ClientReceivesBlock | libs/collector/pipeline/ws_hub.go:32-53 | the messages enqueued to a client are exactly the broadcasts from its registration to the event that unregisters it or finds its queue full, in order |
| HubSpec.QueueHolds256 | libs/collector/pipeline/ws_hub.go:42-51 | a client whose writer takes nothing is sent exactly the first 256 broadcasts; the next ends its registration and closes its channel |
| HubSpec.ReceivesBlock | libs/collector/pipeline/ws_client.go:98-153 | the same from any state in which the client is registered, with messages taken by its writer in between |
| WsHub.WSHub.Register | libs/collector/pipeline/ws_hub.go:35-36 | the registering step |
| WsHub.WSHub.Unregister | libs/collector/pipeline/ws_hub.go:37-41 | the unregistering step, and whether it panics |
| WsHub.WSHub.Broadcast | libs/collector/pipeline/ws_hub.go:42-51 | in whatever order the clients are visited, the broadcast step, and whether it panics |
| WsHub.WSClient.TakeMessage | libs/collector/pipeline/ws_client.go:106 | the writer takes the oldest message |
| MarketHistory.AnswerAt | libs/collector/pipeline/operation_auction_get_item_average_stats.go:20-74 | in every run from any state, a response gets the information of the last message in its slot if that is a request with an item id of at least 1, and nothing if it is a response; a map keyed by message id answers by the last message of the same id |
| MarketHistory.CacheRefinesMap | libs/collector/pipeline/operation_auction_get_item_average_stats.go:20-74 | a run from the start is answered as by the map if and only if before every response the last message in its slot leaves what the last message of its id leaves |
| MarketHistory.TakenOnce | libs/collector/pipeline/operation_auction_get_item_average_stats.go:71-74 | between two answered responses in one slot there is a request in that slot |
| MarketHistory.CachedResponseIsOwn | libs/collector/pipeline/operation_auction_get_item_average_stats.go:20-74 | from any state of the cache and whatever comes between, a response takes its own request's information if and only if no message in between has its slot or the last that has is a request with the same information; a second response gets nothing |
| MarketHistory.CollidingRequests | libs/collector/pipeline/operation_auction_get_item_average_stats.go:40 | requests 5 and 8197: the response to 5 gets the information of 8197, the response to 8197 its own |
| MarketHistory.SlotsMeet | libs/collector/pipeline/operation_auction_get_item_average_stats.go:21 | message ids share a slot if and only if they differ by a multiple of 8192 |
| MarketHistory.OnlyPositiveItems | libs/collector/pipeline/operation_auction_get_item_average_stats.go:64-67 | a request is answered if and only if its item id is at least 1 |
| MarketHistory.CorrectedIdIsByte | libs/collector/pipeline/operation_auction_get_item_average_stats.go:27-32 | the correction maps exactly -128 to -1 to 128 to 255, keeping the low byte |
| MarketHistory.GoRemainderIs | libs/collector/pipeline/operation_auction_get_item_average_stats.go:52 | the remainder has the sign of the message id |
| MarketHistory.NormalisedAt | libs/collector/pipeline/operation_auction_get_item_average_stats.go:85-103 | the k-th entry sent stands for the k-th amount of at least -124: that amount, raised by 256 if negative, with the silver and the time at its place |
| MarketHistory.NormalisedInPlace | libs/collector/pipeline/operation_auction_get_item_average_stats.go:86-97 | amounts change in place only from -124 to -1 |
| MarketHistory.AmountsAreNonNegative | libs/collector/pipeline/operation_auction_get_item_average_stats.go:85-103 | every amount that is sent is non-negative |
| MarketHistory.SortIsStable | libs/collector/pipeline/operation_auction_get_item_average_stats.go:110-113 | the result is a permutation, descending by time, with the order kept within each time |
| MarketHistory.StableSortIsUnique | libs/collector/pipeline/operation_auction_get_item_average_stats.go:110-113 | only one list is that, so the library's algorithm does not matter |
| MarketHistory.AlbionState.ProcessRequest | libs/collector/pipeline/operation_auction_get_item_average_stats.go:20-42 | the slot of the message id holds the corrected item, timescale and quality |
| MarketHistory.AlbionState.TakeRequest | libs/collector/pipeline/operation_auction_get_item_average_stats.go:51-74 | a negative remainder panics; otherwise the slot of the remainder is read and freed, slot 0 for negative multiples of 8192 too |
| MarketHistory.AlbionState.CollectHistories | libs/collector/pipeline/operation_auction_get_item_average_stats.go:82-113 | panics if and only if an array is shorter than the amounts, with the amounts before that point normalised; otherwise the usable triples come out sorted |
| MarketHistory.AlbionState.ProcessResponse | libs/collector/pipeline/operation_auction_get_item_average_stats.go:51-126 | exactly when it panics, finds no request, has nothing to send or sends, and what; the state of the slot and of the amounts in every case |
| ProofOfWork.FillBits | libs/collector/pipeline/uploader_http_pow.go:147-164 | the early-exit loops never overrun the buffer and fill it with the prefix of the digest's expansion, for every wanted length up to 512 |
| ProofOfWork.ExpansionAt | libs/collector/pipeline/uploader_http_pow.go:122-129 | character k of the expansion is bit 7 - k % 8 of byte k / 8 |
| ProofOfWork.ExpansionDigits | libs/collector/pipeline/uploader_http_pow.go:122-129 | the same in numbers: 1 where the byte has the power of two, highest first |
| ProofOfWork.HexAt | libs/collector/pipeline/uploader_http_pow.go:145 | hex digits in lower case, the high half of every byte first |
| ProofOfWork.ChallengeParts | libs/collector/pipeline/uploader_http_pow.go:138-143 | the text that is hashed: "aod^", candidate, "^", key |
| ProofOfWork.SolvesExactly | libs/collector/pipeline/uploader_http_pow.go:143-167 | a candidate solves the challenge if and only if the wanted string is, bit by bit, the beginning of the hex digits of that digest |
| ProofOfWork.FormatIsBits | libs/collector/pipeline/uploader_http_pow.go:126 | the %08b of a byte is its eight bits, highest first |
| ProofOfWork.ToBinaryBytes | libs/collector/pipeline/uploader_http_pow.go:123-129 | the appending loop builds the expansion |
| ProofOfWork.SolvePow | libs/collector/pipeline/uploader_http_pow.go:134-169 | the candidate returned is the first of the stream whose digest's expansion starts with the wanted string; a wanted string over 512 panics as soon as there is a candidate |

## Left out

- HubSpec.ClientReceivesBlock: the joining of queued messages into one frame by the writer, pings and connection errors are not modelled.
- WsHub.WSHub: the endless select loop is modelled by its turns, each a method or a step.
- MarketHistory.AlbionState.TakeRequest: the waiting for a request that is still on its way (up to 30 sleeps) is over when the method starts; requests processed meanwhile are steps of the run.
- MarketHistory.AlbionState.CollectHistories: sort.SliceStable is a library call, modelled by the one list that its contract allows.
- IpPackets.BuildIpv4UdpPacket: addresses have 4 bytes; other lengths make java.nio throw or leave zeros.
- IpPackets.ExtractUdpPayload: gives the four bytes of the source address, not their dotted text.
- ProofOfWork.SolvePow: the endless loop over random candidates is a loop over a given stream; SHA-256 is an uninterpreted digest of 32 bytes.
- Memory: allocating slices and buffers of any announced length succeeds.
- Text: strings are byte strings; conversion of the decoded values to structures, JSON and uploads is not modelled.
- Concurrency between `Process` goroutines, retries, HTTP, NATS, capture, sockets, authentication and user interfaces are not modelled.
- Operation and event code normalisation and the generated name tables would only add finite case checks.
- The mobile collector's start and stop and the UDP proxy rest on threads and selectors that are not part of this model.
