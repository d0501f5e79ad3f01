# Curve tracer firmware: framing and dispatch layers

This project is a Dafny model of the two communication layers of the curve
tracer firmware, together with proofs about them.

- **Frame layer** (`src/frame.c`). This layer wraps a payload for a byte
  channel:
  - a start byte `0xF7`;
  - the payload, escaped so that `0xF7`, `0x7F` and `0xF6` never appear
    bare;
  - a two-octet checksum trailer with both sums reduced modulo 256;
  - an end byte `0x7F`.

  On the receiving side, `FRM_pull` reads octets into a fixed reassembly
  buffer. It finds a start/end pair, unescapes the octets between them,
  checks the trailer, and shifts what is left towards the front of the
  buffer.
- **Dispatch layer** (`src/dispatch.c`). This layer turns a topic
  descriptor and typed arrays into a message, which it sends through the
  frame layer. A message holds:
  - the topic name and a 0;
  - a dimension count;
  - a 16-bit shared length;
  - nibble-packed type specifiers;
  - the little-endian array data.

  The layer also keeps a table of subscriptions. When a frame arrives, it
  decodes the message, stores it, and returns the callbacks whose topic
  matches. `DIS_getElements` then reads one array back out of the stored
  message.

The model follows the source's shape:

- The two files' static state becomes two classes:
  - `Frame.Framer` holds the reassembly array, its append offset, the two
    checksum accumulators, and the octets written to the channel so far.
  - `Dispatch.Dispatcher` holds the received-message store, as arrays, and
    the subscription table, as an array of slots.
- Each C loop becomes a `while` loop in a method. The method is proved
  against a function of the specification modules.
- Octets are the integers 0..255. Callbacks are natural-number ids, with 0
  standing for the null pointer. The variadic arguments of `DIS_publish`
  are a sequence of `Arg` values: either a C string or an array of values.

The modules are:

- `Config`: the buffer sizes of one admissible configuration of the
  firmware's configuration header, which is not part of this model.
- `FrameSpec`, `Frame`: the frame layer.
- `DispatchSpec`, `Dispatch`: the dispatch layer.
- `Descriptor`: facts about the descriptor mini-language.
- `Subscriptions`: facts about the subscription table.
- `Delivery`: end-to-end statements. Each one publishes a message, frames
  it, pulls it, decodes it, and reads the values back with
  `DIS_getElements`.

Behaviours of the code worth knowing:

- After a frame is taken out, `FRM_pull` resets the append offset to 0,
  even when a partial next frame was shifted to the front of the buffer
  (`src/frame.c:128`).
- `DIS_publish` stores the parsed length in an 8-bit variable:
  - a field such as `:300` is sent as 44;
  - a negative field is sent modulo 256;
  - only a result of 0 is raised to 1.
- A `t` specifier advances the parse three characters (`src/dispatch.c:186-192`).
  That skips the comma after `st`, so the specifiers after a string item
  are lost. The number of dimensions sent is still the comma count.
- `DIS_unsubscribe` clears only the callback and the first character of the
  topic. `DIS_subscribe` copies the topic without a terminator. The old
  characters can therefore make a reused slot hold a longer topic than the
  one subscribed (`Subscriptions.StaleTopic`).
- `parseTopicString` does not raise a length field of 0 to 1.
- `DIS_process` decodes from a local 96-octet buffer (`src/dispatch.c:659`).
  `FRM_pull` writes only the frame's octets into it, so a header or
  `length8bit` that reaches past them reads whatever the buffer held
  before. The model makes those earlier octets an argument, `stale`, of
  `Process`, so such messages are decoded and dispatched as well.

## Model

| member | source | states |
|---|---|---|
| FrameSpec.Escape | src/frame.c:45-55 | a reserved octet becomes two octets and any other octet stays as one; neither frame sentinel ever appears in the output |
| FrameSpec.EscapeAll | src/frame.c:45-55 | escaping a run of octets at most doubles its length and never produces a frame sentinel |
| FrameSpec.Unescape | src/frame.c:101-110 | the unescape loop never lengthens its input |
| FrameSpec.EscapeAllSnoc | src/frame.c:29-30 | pushing one more octet appends exactly that octet's escape |
| FrameSpec.EscapeAllAppend | src/frame.c:29-30 | escaping distributes over concatenation |
| FrameSpec.UnescapeEscape | src/frame.c:101-110 | unescaping the escape of one octet gives back that octet and leaves the rest to be unescaped |
| FrameSpec.UnescapeEscapeAll | src/frame.c:101-110 | the receiver's unescape inverts the sender's escape for every octet sequence |
| FrameSpec.Fletcher16 | src/frame.c:153-166 | the checksum is a 16-bit value |
| FrameSpec.SumsAreFletcherSums | src/frame.c:32-33 | the two running accumulators are the plain sum and the sum of prefix sums, both modulo 256 |
| FrameSpec.Sum1IsSum | src/frame.c:32 | the first accumulator equals the sum of the octets modulo 256 |
| FrameSpec.Sum2IsPrefixSums | src/frame.c:33 | the second accumulator equals the sum of all prefix sums modulo 256 |
| FrameSpec.SumUpdate | src/frame.c:32 | changing one octet changes the plain sum by exactly the difference |
| FrameSpec.TrailerChecks | src/frame.c:140-147 | a payload followed by the trailer that `FRM_finish` sends always passes the receiver's checksum test |
| FrameSpec.ChecksumCatchesByteError | src/frame.c:140-147 | changing any single payload octet while the trailer stays intact makes the checksum test fail |
| FrameSpec.FrameBytesShape | src/frame.c:22-43 | a sent frame is the start byte, the escaped payload and trailer, and the end byte, and neither sentinel occurs strictly inside it |
| FrameSpec.TrailerEscaped | src/frame.c:39-40 | the trailer goes out as the escaped low accumulator, then the escaped high one |
| FrameSpec.Framed | src/frame.c:22-43 | escaped octets between the two sentinels contain no sentinel |
| FrameSpec.FirstIndexFrom | src/frame.c:68-87 | the search loops of `FRM_pull` stop at the first wanted octet, or at the buffer length when there is none |
| FrameSpec.FirstIndexFromSkip | src/frame.c:68-87 | a search can start past a stretch that does not hold the wanted octet without changing its result |
| FrameSpec.EndIndex | src/frame.c:79-87 | the end byte is searched for strictly after the start byte |
| FrameSpec.Reassemble | src/frame.c:68-150 | with no complete frame, the octets before the start byte are cleared and nothing is reported; a non-zero length means a frame was found, its trailer checked, and the length excludes the trailer |
| FrameSpec.ZeroRangeAt | src/frame.c:114-127 | clearing a range zeroes exactly the positions inside it and keeps every other octet |
| FrameSpec.Shift | src/frame.c:130-138 | each position receives the octet a fixed distance further on, and the positions the copy vacates at the end are cleared |
| FrameSpec.ReceivedAt | src/frame.c:63-66 | the read puts the input at the append offset and keeps every other octet of the buffer |
| FrameSpec.Pull | src/frame.c:57-151 | the buffer keeps its size; a non-zero length means the trailer passed the checksum test and is not counted; without a complete frame nothing is handed out, the length is 0 and the append offset moves past the octets read |
| FrameSpec.ReassembleBuffer | src/frame.c:114-138 | after a frame is taken the append offset is 0; the octets from the next start byte are moved to the front; with no next start byte everything up to the start byte and from the end byte on is cleared |
| FrameSpec.GarbageIrrelevant | src/frame.c:68-77 | octets before the first start byte have no effect on what the poll reports or leaves in the buffer |
| FrameSpec.SameStart | src/frame.c:68-77 | two buffers that agree from a point on, with no start byte before it, locate the same start and clear to the same state |
| FrameSpec.SameFrame | src/frame.c:89-138 | such buffers yield the same frame body and the same buffer afterwards |
| FrameSpec.ZeroRangeSame | src/frame.c:114-127 | clearing a range makes two buffers that agree outside it equal |
| FrameSpec.FrameLocated | src/frame.c:68-98 | after the start scan clears the garbage, the body and end byte are where the searches found them |
| FrameSpec.SameSuffixSameSearch | src/frame.c:117-127 | a search that starts in the common suffix of two buffers gives the same result for both |
| FrameSpec.FirstIndexFromIs | src/frame.c:68-87 | the search result is determined by the properties of the position where it stops |
| FrameSpec.PullCleanFrame | src/frame.c:57-151 | a start byte, any escaped octets and an end byte pulled into a clean buffer yield exactly those octets; the length is theirs minus the trailer when the checksum passes and 0 otherwise |
| FrameSpec.CleanFrameLocated | src/frame.c:68-98 | in a clean buffer holding one frame, the start byte is at 0, the end byte just after the escaped body, and the body is exactly the escaped octets |
| FrameSpec.FrameRoundTrip | src/frame.c:57-151 | a frame written by `FRM_init`, `FRM_push` and `FRM_finish` and pulled into a clean buffer is reported with the payload's length and hands back the payload |
| FrameSpec.CorruptedFrameRejected | src/frame.c:140-147 | a frame whose payload had one octet changed on the way, while its trailer arrived intact, is reported with length 0 |
| Frame.ComputeFletcher16 | src/frame.c:153-166 | the accumulator loop returns the high sum of prefix sums times 256 plus the low plain sum, both modulo 256 |
| Frame.Framer.constructor | src/frame.c:9-12 | program start: a zeroed reassembly buffer, append offset 0, nothing written |
| Frame.Framer.Init | src/frame.c:22-27 | writes the start byte, resets both accumulators, and opens a frame at the current output |
| Frame.Framer.PushToChannel | src/frame.c:45-55 | writes the octet bare, or the escape byte followed by the octet xor 0x20 when it is reserved |
| Frame.Framer.Push | src/frame.c:29-34 | writes the octet's escape and keeps both accumulators equal to the sums of everything pushed since `Init` |
| Frame.Framer.Finish | src/frame.c:36-43 | appends the escaped low and high accumulators and the end byte, so the output since `Init` is exactly the frame of the pushed payload |
| Frame.Framer.Pull | src/frame.c:57-151 | the new buffer, append offset, written octets and returned length are those of the poll specification on the old state and the octets read |
| Frame.Framer.Scan | src/frame.c:68-148 | everything after the read matches `Reassemble` on the buffer |
| Frame.Framer.Locate | src/frame.c:68-87 | clears the octets before the start byte and returns the start and end positions, or 0 for an end byte that is missing |
| Frame.Framer.Read | src/frame.c:63-66 | stores the available octets at the append offset and advances the offset past them |
| Frame.Framer.TakeFrame | src/frame.c:89-148 | returns the unescaped body and its checked length, resets the append offset, and leaves the buffer cleared up to the next start byte and shifted to it |
| Frame.Framer.ClearUntilStart | src/frame.c:114-127 | clears from a position up to the next start byte and returns that byte's position |
| Frame.Framer.FindEnd | src/frame.c:79-87 | returns the first end byte at or after a position, or the buffer length when there is none |
| Frame.Framer.UnescapeSpan | src/frame.c:97-112 | the unescape loop over a span ending at an end byte yields `Unescape` of that span |
| Frame.Framer.ShiftDown | src/frame.c:130-138 | each octet moves a fixed distance towards the front, and vacated positions are cleared |
| Frame.UnescapeFront | src/frame.c:101-110 | one step of the unescape loop, including an escape byte just before the end byte |
| Frame.SumsSnoc | src/frame.c:32-33 | one more octet updates both accumulators as the two masked additions do |
| DispatchSpec.DecodeWidth | src/dispatch.c:686-696 | `DIS_process` counts each element as its numeric width, as one octet for a string, and as nothing for an unknown specifier |
| DispatchSpec.OffsetWidth | src/dispatch.c:866-876 | `getCurrentRxPointerIndex` uses the numeric width, 1 for `eNONE`, and 4 for any other specifier |
| DispatchSpec.LittleEndian | src/dispatch.c:282-296 | the masked and shifted pushes give exactly as many octets as the width |
| DispatchSpec.FromLittleEndian | src/dispatch.c:785-791 | a value reassembled from octets fits their width |
| DispatchSpec.LittleEndianRoundTrip | src/dispatch.c:778-794 | reassembling the octets of `v` gives `v` modulo 256 to the width |
| DispatchSpec.ElementRoundTrip | src/dispatch.c:748-855 | every value that a C array of the specifier's type can hold is recovered by `DIS_getElements`, with sign for the signed types |
| DispatchSpec.LittleEndianOctets | src/dispatch.c:282-296 | the octets are the value's masks `& 0xff`, `>> 8`, `>> 16` and `>> 24` |
| DispatchSpec.FromLittleEndianOctets | src/dispatch.c:814-834 | the `|=` and shift reassembly of one, two or four octets is their little-endian value |
| DispatchSpec.Octets16 | src/dispatch.c:614-615 | the two pushed octets of a 16-bit length are in range and rebuild it |
| DispatchSpec.Octets | src/dispatch.c:79-84 | the characters of a C string reach `FRM_push` as the same number of non-zero octets |
| DispatchSpec.CharsOctets | src/dispatch.c:666-669 | the receiver's topic characters are the sender's |
| DispatchSpec.ScanTo | src/dispatch.c:80-83 | a scanning loop stops at the first stop character or at the end |
| DispatchSpec.SkipSpaces | src/dispatch.c:120-122 | the space loop stops on the first character that is not a space, possibly the terminator |
| DispatchSpec.Decimal | src/dispatch.c:126-135 | a decimal spelling is a non-empty run of digits |
| DispatchSpec.DecimalValueOfDecimal | src/dispatch.c:135 | the digits of `n` have the value `n` |
| DispatchSpec.AtolOfDecimal | src/dispatch.c:135 | `atol` reads back a decimal spelling when a non-digit or nothing follows it |
| DispatchSpec.ParseTag | src/dispatch.c:149-192 | one specifier item always moves the parse forward, by one to three characters |
| DispatchSpec.ParseToken | src/dispatch.c:149-192 | a type token `u8`, `s8`, `u16`, `s16`, `u32`, `s32` or `st` at the parse position is read as the specifier the token names; the parse moves past the token, and one character further for `st` |
| DispatchSpec.ParseTags | src/dispatch.c:146-199 | the loop never records more specifiers than the table holds |
| DispatchSpec.Pad | src/dispatch.c:59-64 | the specifier table holds the parsed specifiers, then `eNONE` |
| DispatchSpec.LengthFieldStart | src/dispatch.c:116-122 | the length field begins after the colon and its spaces |
| DispatchSpec.LengthFieldEnd | src/dispatch.c:126-132 | the length field ends at the next comma or at the end |
| DispatchSpec.PublishLength | src/dispatch.c:113-141 | the sent length is at least 1, is the field's `atol` value modulo 256 when that is non-zero, and is 1 without a field |
| DispatchSpec.PublishTags | src/dispatch.c:59-199 | the specifier table always has the fixed size |
| DispatchSpec.CommaCountBounds | src/dispatch.c:66-74 | a descriptor has at most one dimension per character, and none exactly when it holds no comma |
| DispatchSpec.AtolSign | src/dispatch.c:135 | `atol` gives a negative value only when a minus sign follows the leading white space |
| DispatchSpec.ToSigned | src/dispatch.c:845-851 | an unsigned value of `w` octets read as two's complement lies in the signed range of `w` octets and differs from the unsigned value by 0 or 256 to the `w` |
| DispatchSpec.PackTags | src/dispatch.c:201-219 | `n` specifiers pack into `(n + 1) / 2` octets |
| DispatchSpec.UnpackTags | src/dispatch.c:679-684 | the receiver reads exactly as many specifiers as the dimension count |
| DispatchSpec.PackUnpack | src/dispatch.c:679-684 | unpacking what the publisher packed gives back the specifiers and reads nothing past the packed octets |
| DispatchSpec.Encode | src/dispatch.c:225-321 | an array of `n` values takes `n` times the width in octets |
| DispatchSpec.EncodeSnoc | src/dispatch.c:284-296 | one more value appends its octets |
| DispatchSpec.TopicLength | src/dispatch.c:595-609 | the helpers' length is a 16-bit value, and 1 when there is no colon |
| DispatchSpec.DecodeTags | src/dispatch.c:673-684 | the number of decoded specifiers is the low nibble of the dimension octet |
| DispatchSpec.LocalBuffer | src/dispatch.c:659-660 | the decoder's 96-octet buffer holds the octets the pull wrote, then the octets it held before |
| DispatchSpec.Decode | src/dispatch.c:666-711 | a message read from the 96-octet local buffer has as many specifiers as dimensions (at most the table size), a payload of `length8bit` octets that fits the store, and a topic that fits its buffer |
| DispatchSpec.EmptySlot | src/dispatch.c:36 | a zero-initialised slot is terminated inside its buffer |
| DispatchSpec.NulIndex | src/dispatch.c:716 | `strcmp` sees the slot's characters up to the first terminator |
| DispatchSpec.FirstFree | src/dispatch.c:624-629 | the search finds the first slot with a null callback, or reports the table full |
| DispatchSpec.Unsubscribed | src/dispatch.c:644-654 | unsubscribing keeps the table's size |
| Dispatch.CountCommas | src/dispatch.c:66-74 | the loop counts the commas of the whole descriptor |
| Dispatch.ReadLengthField | src/dispatch.c:116-135 | returns the field's `atol` value truncated to 8 bits and the position after the field |
| Dispatch.ReadPublishLength | src/dispatch.c:113-141 | returns the length `PublishLength` specifies and the position where the specifiers start |
| Dispatch.ReadTopicLength | src/dispatch.c:595-609 | returns the 16-bit length `TopicLength` specifies |
| Dispatch.SkipBlanks | src/dispatch.c:120-122 | stops where `SkipSpaces` does |
| Dispatch.ParseFormatSpecifier | src/dispatch.c:149-192 | returns the specifier and the position after the item that `ParseTag` gives, so a type token yields the specifier `ParseToken` names |
| Dispatch.ParseStep | src/dispatch.c:147-197 | one more item keeps "table so far plus items still to read" equal to the whole parse |
| Dispatch.PadIs | src/dispatch.c:59-64 | a table holding the read specifiers and then `eNONE` is the padded list |
| Dispatch.ParseFormatSpecifiers | src/dispatch.c:59-199 | the loop fills the table with `PublishTags` of the descriptor: the specifiers read, in order, padded with `eNONE`; for descriptors made of type tokens those are the tokens' specifiers (`Descriptor.DescriptorTags`) |
| Dispatch.PackFormatSpecifiers | src/dispatch.c:201-219 | the pushed octets are the first `dimensions` specifiers packed two per octet, the even-placed one in the low nibble |
| Dispatch.PackSpecifier | src/dispatch.c:205-214 | one iteration adds the next specifier to the packed octets |
| Dispatch.PackStep | src/dispatch.c:205-214 | an even-placed specifier starts a new octet and an odd-placed one becomes its high nibble |
| Dispatch.ReadTopic | src/dispatch.c:666-671 | the receiver's topic is the characters before the first 0 |
| Dispatch.PublishStringLayout | src/dispatch.c:79-105 | the string branch pushes `PublishPayload` |
| Dispatch.PublishArraysLayout | src/dispatch.c:79-321 | the array branch pushes `PublishPayload` |
| Dispatch.PublishStrLayout | src/dispatch.c:327-360 | `DIS_publish_str` pushes `PublishStrPayload` |
| Dispatch.TopicHeaderLayout | src/dispatch.c:578-618 | `parseTopicString` pushes `TopicHeader` |
| Dispatch.EncodeStep | src/dispatch.c:284-296 | one element pushed extends the encoding of the values so far |
| Dispatch.ScanPast | src/dispatch.c:80-83 | a name loop that has not met a stop has not reached `ScanTo` |
| Dispatch.ScanStops | src/dispatch.c:80-83 | a name loop that meets a stop or the end is at `ScanTo` |
| Dispatch.ReadStep | src/dispatch.c:778-794 | one element read off the front of the stored data, whichever width |
| Dispatch.ReadStepped | src/dispatch.c:778-794 | the loop invariant "read so far plus still to read" holds after one more element |
| Dispatch.UnpackAt | src/dispatch.c:679-684 | specifier `i` sits in the low nibble of octet `i / 2` when `i` is even and in the high nibble otherwise |
| Dispatch.DecodedParts | src/dispatch.c:666-711 | the decoded specifiers, the `length8bit` sum and the payload are read from the header positions `DIS_process` uses |
| Dispatch.DataStep | src/dispatch.c:225-321 | a numeric specifier consumes the next argument and sends `length` of its values; any other specifier sends nothing and consumes nothing |
| Dispatch.Length8bitSnoc | src/dispatch.c:686-696 | each specifier adds `length` times its decode width to `length8bit` |
| Dispatch.FirstFreeIs | src/dispatch.c:624-629 | the free-slot search is determined by the slots it passes over |
| Dispatch.Dispatcher.constructor | src/dispatch.c:35-36 | program start: a zeroed receive buffer, nothing written, and every slot empty |
| Dispatch.Dispatcher.Init | src/dispatch.c:43-51 | every slot gets a null callback and a terminator in its first character; the rest of each topic buffer stays |
| Dispatch.Dispatcher.Subscribe | src/dispatch.c:620-642 | the table becomes `Subscribed`: the first free slot takes the callback and the topic characters without a terminator, and a full table is unchanged |
| Dispatch.Dispatcher.FindFree | src/dispatch.c:624-629 | returns the first slot with a null callback, and whether there is one |
| Dispatch.Dispatcher.CopyTopic | src/dispatch.c:632-641 | the slot's buffer starts with the topic's characters and keeps its old octets after them; no other slot changes |
| Dispatch.Dispatcher.Unsubscribe | src/dispatch.c:644-654 | every slot holding the callback is emptied and the others are unchanged |
| Dispatch.Dispatcher.PushOctet | src/dispatch.c:81 | one more octet is added to the open frame's payload |
| Dispatch.Dispatcher.PushLength | src/dispatch.c:143-144 | the length goes out low octet first, then high octet |
| Dispatch.Dispatcher.FinishFrame | src/dispatch.c:324 | the output since the frame opened is exactly the frame of the payload pushed |
| Dispatch.Dispatcher.PushUntil | src/dispatch.c:79-84 | pushes the name up to the first stop character and returns where it stopped |
| Dispatch.Dispatcher.PushChars | src/dispatch.c:103-105 | pushes the first `length` characters of the string |
| Dispatch.Dispatcher.PushOctets | src/dispatch.c:373-375 | pushes the first `length` octets of an array of octets |
| Dispatch.Dispatcher.PushElement | src/dispatch.c:282-296 | pushes the element's little-endian octets at its type's width |
| Dispatch.Dispatcher.PushElements | src/dispatch.c:282-296 | pushes the encoding of the array's first `length` values |
| Dispatch.Dispatcher.PushData | src/dispatch.c:225-321 | pushes the data of all dimensions as `DataBytes` specifies, consuming one argument per numeric specifier |
| Dispatch.Dispatcher.PushStringArgument | src/dispatch.c:87-105 | pushes dimension 1, the string length truncated to 8 bits, `eSTRING` and that many characters |
| Dispatch.Dispatcher.PushArrayArguments | src/dispatch.c:106-321 | pushes the comma count, the length, the packed specifiers and the array data |
| Dispatch.Dispatcher.Publish | src/dispatch.c:53-325 | `DIS_publish` writes exactly one frame carrying `PublishPayload` of its descriptor and arguments |
| Dispatch.Dispatcher.PublishStr | src/dispatch.c:327-360 | for a topic shorter than 65536 characters, `DIS_publish_str` writes exactly one frame carrying the topic, a 16-bit length, `eSTRING` and the characters |
| Dispatch.Dispatcher.ParseTopicString | src/dispatch.c:578-618 | opens a frame, pushes the topic header, and returns the 16-bit length of the topic string |
| Dispatch.Dispatcher.PublishArray | src/dispatch.c:362-576 | each one-array typed helper writes exactly one frame carrying its header, its specifier and the encoding of the first `length` values |
| Dispatch.Dispatcher.PublishArray2 | src/dispatch.c:398-534 | each two-array typed helper writes one frame carrying its header, the specifier in both nibbles, the first array's encoding and then the second's |
| Dispatch.Dispatcher.DecodeSpecifiers | src/dispatch.c:679-703 | the table's first `dimensions` entries become the unpacked specifiers, `length8bit` becomes their sum, and the data index moves past the packed octets |
| Dispatch.Dispatcher.DecodeSpecifier | src/dispatch.c:680-696 | one iteration stores specifier `i`, adds its width, and advances the octet index after an odd position |
| Dispatch.Dispatcher.UnpackSpecifier | src/dispatch.c:680-684 | specifier `i` is taken from the low nibble when `i` is even and from the high nibble otherwise |
| Dispatch.Dispatcher.AddWidth | src/dispatch.c:686-696 | `length8bit` grows by `length` times the specifier's decode width |
| Dispatch.Dispatcher.CopyData | src/dispatch.c:705-711 | the first `length8bit` octets of the store are the message data; the rest of the store keeps its old octets |
| Dispatch.Dispatcher.Notify | src/dispatch.c:713-722 | the callbacks fired are exactly `Matching`: in slot order, those that are not null and whose slot holds the received topic |
| Dispatch.Dispatcher.ReadHeader | src/dispatch.c:666-675 | the topic, the low nibble of the dimension octet, and the little-endian 16-bit length |
| Dispatch.Dispatcher.StoreMessage | src/dispatch.c:665-711 | the store holds the decoded message's dimensions, length, `length8bit`, specifiers and data, with old entries kept beyond them |
| Dispatch.Dispatcher.Process | src/dispatch.c:656-724 | the frame layer moves as in the poll specification; with no message the store is unchanged and nothing fires; with one, the store holds `Decode` of the local buffer (the written octets, then its earlier contents) and the matching callbacks fire |
| Dispatch.Dispatcher.CurrentRxPointerIndex | src/dispatch.c:861-882 | the offset of element `e` is the earlier specifiers' offset widths times the length, truncated to 16 bits |
| Dispatch.Dispatcher.ReadElement | src/dispatch.c:778-794 | one element is the value of its octets at its type's width and signedness |
| Dispatch.Dispatcher.ReadElements | src/dispatch.c:748-855 | the destination gets the elements read from the offset until `length8bit` octets are consumed |
| Dispatch.Dispatcher.GetElements | src/dispatch.c:726-859 | returns the stored length, whichever element is asked for, and writes the values `Extract` specifies |
| Descriptor.NameEndIs | src/dispatch.c:79-84 | the name of a descriptor ends at its first `,` or `:` |
| Descriptor.LengthFieldIs | src/dispatch.c:116-132 | the length field of `name:digits` is exactly those digits, and it ends just after them |
| Descriptor.DescriptorLength | src/dispatch.c:113-141 | `name:N` sends `N` modulo 256, raised to 1 when that is 0 |
| Descriptor.CommaCountAppend | src/dispatch.c:66-74 | commas are counted piece by piece |
| Descriptor.NoCommas | src/dispatch.c:66-74 | a descriptor part without commas adds no dimension |
| Descriptor.StringSkipsNextComma | src/dispatch.c:186-192 | `"a,st,u8"` announces two dimensions but records only `eSTRING` and `eNONE` |
| Descriptor.TokenTagsAt | src/dispatch.c:149-192 | entry `k` of a token list's specifiers is the specifier of token `k` |
| Descriptor.ItemsCommas | src/dispatch.c:66-74 | a run of `, tok` items holds one comma per item |
| Descriptor.ParseItem | src/dispatch.c:147-197 | one `, tok` item with any number of spaces after the comma records the token's specifier, and the loop goes on just after the item |
| Descriptor.ParseItems | src/dispatch.c:146-199 | a run of array-token items records the tokens' specifiers in order, whatever spaces follow the commas, and the loop goes on just after the run |
| Descriptor.DescriptorTags | src/dispatch.c:53-199 | for `name:N` followed by up to eight array-token items: the dimension count is the number of items, the table holds the tokens' specifiers in order and then `eNONE`, and the length is `N` modulo 256, raised to 1 when that is 0 |
| Descriptor.UnsizedDescriptorTags | src/dispatch.c:53-199 | the same for `name` followed by the items without a length field, with a length of 1 |
| Descriptor.StringItem | src/dispatch.c:186-197 | wherever an `st` item stands it records `eSTRING` and the loop goes on one character past the item, so a comma right after `st` is passed over and the loop stops unless a second comma follows |
| Descriptor.StringItemEnds | src/dispatch.c:146-199 | an `st` item followed by text whose second character is not a comma is the last specifier recorded |
| Descriptor.StringEndsTags | src/dispatch.c:53-199 | `name, t1, …, tk, st` followed by such text: one dimension per comma, including those after `st`, but the table holds only the tokens' specifiers, then `eSTRING`, then `eNONE` |
| Subscriptions.Without | src/dispatch.c:644-654 | taking a callback out of a list leaves exactly the other callbacks |
| Subscriptions.MatchingMembers | src/dispatch.c:713-722 | a callback fires for a topic exactly when it is not null and some slot holds both |
| Subscriptions.MatchingBounded | src/dispatch.c:713-722 | at most one call per slot, and the null callback is never called |
| Subscriptions.NoCallbacksNoMatches | src/dispatch.c:713-722 | a table without callbacks fires nothing |
| Subscriptions.InitSilences | src/dispatch.c:43-51 | after `DIS_init` no topic fires anything |
| Subscriptions.UnsubscribedPrefix | src/dispatch.c:644-654 | unsubscribing acts slot by slot |
| Subscriptions.UnsubscribeRemoves | src/dispatch.c:644-654 | after `DIS_unsubscribe(cb)` every topic fires what it fired before, minus `cb`, in the same order |
| Subscriptions.WithoutSnoc | src/dispatch.c:644-654 | removing a callback from a list that grew by one |
| Subscriptions.OverwrittenTopic | src/dispatch.c:636-640 | the slot holds the subscribed topic exactly when its old buffer had a terminator right after the copied characters |
| Subscriptions.SubscribeTakesFreeSlot | src/dispatch.c:620-642 | the callback takes the first free slot, no other slot changes, and the slot matches the topic exactly when it was terminated there |
| Subscriptions.SubscribeFires | src/dispatch.c:620-642 | a subscription into a suitably terminated free slot fires for its topic |
| Subscriptions.SubscribeKeeps | src/dispatch.c:620-642 | subscribing never stops an existing callback from firing |
| Subscriptions.MatchingTail | src/dispatch.c:713-722 | empty slots at the end of the table fire nothing |
| Subscriptions.StartTable | src/dispatch.c:36 | at program start every slot is terminated and has a null callback |
| Subscriptions.StaleTopic | src/dispatch.c:644-654 | subscribe to "abc", unsubscribe, subscribe to "ab": the slot now holds "abc", so "ab" fires nothing and "abc" fires the callback |
| Delivery.EncodeCons | src/dispatch.c:284-296 | the encoding of an array starts with its first value's octets |
| Delivery.EncodeAppend | src/dispatch.c:284-296 | encoding distributes over concatenation |
| Delivery.ReadUnfold | src/dispatch.c:778-794 | the element loop consumes one element's octets and hands out its value first |
| Delivery.EncodedFits | src/dispatch.c:778-794 | the element loop can consume an encoded array followed by more octets exactly when those octets can be consumed |
| Delivery.EncodeFront | src/dispatch.c:284-296 | an encoded array splits into the first value's octets and the encoding of the rest |
| Delivery.FitsUnfold | src/dispatch.c:778-794 | one element's octets consumed |
| Delivery.ReadEncoded | src/dispatch.c:748-855 | reading an encoded array of in-range values gives those values, followed by what the remaining octets give |
| Delivery.ReadCons | src/dispatch.c:778-794 | an element's octets followed by more give the element, then what the rest gives |
| Delivery.Length8bitCons | src/dispatch.c:686-696 | the `length8bit` sum over a list with a first specifier |
| Delivery.DataBytesLength | src/dispatch.c:686-696 | without string specifiers, the receiver's `length8bit` is exactly the number of data octets the publisher sent |
| Delivery.PointerIndexIsLength8bit | src/dispatch.c:861-882 | for numeric specifiers, the offset of element `e` is the `length8bit` of the specifiers before it |
| Delivery.DataBytesCons | src/dispatch.c:225-321 | the first numeric specifier's array comes first in the data |
| Delivery.DataBytesSplit | src/dispatch.c:225-321 | the data of numeric specifiers splits at any specifier into what comes before and what comes after |
| Delivery.DataBytesSplitStep | src/dispatch.c:225-321 | the inductive step of that split |
| Delivery.PointerIndexPrefix | src/dispatch.c:861-882 | specifiers after element `e` do not affect its offset |
| Delivery.OffsetOfArray | src/dispatch.c:861-882 | the offset of element `e` is the length of the arrays the publisher sent before it |
| Delivery.DataBytesAt | src/dispatch.c:225-321 | from specifier `e` on, the data is its array, then the later ones |
| Delivery.ArrayOffset | src/dispatch.c:225-321 | the data is the arrays before `e`, then `e`'s, then those after |
| Delivery.ReadEncodedPrefix | src/dispatch.c:748-855 | an element loop starting on an encoded array hands out that array first |
| Delivery.ExtractNumeric | src/dispatch.c:726-859 | for a numeric specifier, `DIS_getElements` runs the element loop from the 16-bit offset |
| Delivery.ExtractAt | src/dispatch.c:726-859 | when the offset points at the encoding of an array, `DIS_getElements` hands out that array first |
| Delivery.ExtractArray | src/dispatch.c:726-859 | for every numeric specifier, what `DIS_getElements` hands out begins with the values the publisher sent for it |
| Delivery.ExtractFirst | src/dispatch.c:729-761 | element 0 is read from the start of the data |
| Delivery.ExtractSingleArray | src/dispatch.c:748-761 | a one-array message comes back whole, and reading it stays inside the data |
| Delivery.LocateHeader | src/dispatch.c:666-675 | where the topic, dimension count, length, specifiers and data sit in a published message |
| Delivery.DecodeHeader | src/dispatch.c:673-703 | a header whose packed specifiers follow the length decodes to those specifiers |
| Delivery.DecodeBody | src/dispatch.c:699-711 | the message carries the `length8bit` octets after the packed specifiers |
| Delivery.DecodeLayout | src/dispatch.c:656-711 | any message laid out as the publishers lay it out decodes to its topic, dimensions, length, specifiers and data, and the trailer after it is not read |
| Delivery.PublishArraysDecode | src/dispatch.c:53-325 | the array form of `DIS_publish` decodes to the name, the comma count, the sent length, the specifiers and exactly the data sent |
| Delivery.StringTagLength | src/dispatch.c:686-689 | a string dimension packs to `eSTRING` and takes one octet per element |
| Delivery.PublishStringDecodes | src/dispatch.c:86-105 | the string form of `DIS_publish` decodes to a one-dimensional string message carrying the first `strlen % 256` characters |
| Delivery.PublishStrDecodes | src/dispatch.c:327-360 | `DIS_publish_str` decodes to the whole topic, colons and commas included, and the characters with their 16-bit length |
| Delivery.ArrayDecodes | src/dispatch.c:362-576 | a one-array typed helper decodes to the name, one dimension, the topic length, its specifier and the encoded values |
| Delivery.Array2Decodes | src/dispatch.c:398-534 | a two-array typed helper decodes to two dimensions of the same specifier and the two arrays one after the other |
| Delivery.Transported | src/frame.c:57-151 | a frame pulled by a clean receiver in one poll hands back the payload followed by its trailer |
| Delivery.Delivered | src/dispatch.c:656-711 | a framed payload that decodes to `m` whatever follows it is returned by `DIS_process`'s pull and decoded to `m`, whatever the local buffer held before |
| Delivery.ArrayDelivered | src/dispatch.c:362-576 | publish with a one-array helper, pull, decode, `DIS_getElements(0)`: the values sent come back, whatever older messages left in the store |
| Delivery.Array2Delivered | src/dispatch.c:398-534 | the same for a two-array helper: element 0 yields both arrays, and element 1 yields the second array first |
| Delivery.Array2Extract | src/dispatch.c:726-859 | what `DIS_getElements` hands out for the two arrays of a two-array message |
| Delivery.Array2Received | src/dispatch.c:398-534 | a two-array helper's frame is pulled and decoded to its two arrays |
| Delivery.Array2Second | src/dispatch.c:861-882 | the second array of a two-array message is read from its offset |
| Delivery.PublishArraysDelivered | src/dispatch.c:53-325 | publish an array descriptor, pull, decode, `DIS_getElements(e)`: for every numeric dimension the values sent for `e` come back first, with the topic, dimension count and length as sent |
| Delivery.PublishArraysReceived | src/dispatch.c:656-711 | the array form of `DIS_publish` is pulled and decoded to exactly what was sent |

## Left out

- Channel hook registration (`FRM_assignChannelReadable`, `FRM_assignChannelWriteable`, `FRM_assignChannelRead`, `FRM_assignChannelWrite`) is not part of this model. The write hook is the `out` field of `Frame.Framer`, and the read hook is the `input` argument of each poll. The poll is modelled as reading every available octet at once.
- Callbacks are ids. `Process` returns the ids it would call, in order. Running them, and a callback that re-enters the dispatcher, are not modelled.
- `va_list` and the pointer casts of `DIS_publish` are modelled by a sequence of `Arg` values. The destination of `DIS_getElements` is the returned sequence of values, so writes beyond the caller's buffer are not modelled.
- Undefined behaviour, and loops that would never end, are excluded by preconditions and not modelled:
  - a read that overruns the reassembly buffer;
  - a frame body that unescapes to fewer than two octets;
  - topic copies beyond the topic buffer;
  - a length field of eight or more characters;
  - a descriptor or topic of 65536 characters or more. `DIS_publish` truncates its `strlen` to 16 bits (`src/dispatch.c:68`); in `DIS_publish_str` and `parseTopicString` the 16-bit index of the name loop wraps and the loop may never end (`src/dispatch.c:333-337`, `src/dispatch.c:586-590`). `PublishDefined`, `TopicDefined` and `PublishStr` require fewer characters;
  - a frame body that unescapes to more than 96 octets, which overruns `DIS_process`'s local buffer (`src/dispatch.c:659`); `ProcessDefined` requires at most 96;
  - a received header whose topic has no terminator inside the 16-octet topic buffer, or that announces more than eight dimensions, or a `length8bit` that reads past the local buffer (`src/dispatch.c:666-711`); `ProcessDefined` requires `Decodable` of the local buffer;
  - more dimensions than the specifier table holds;
  - reads outside the receive buffers in `DIS_getElements`.
- `atol` is modelled only on what it can see in a length field: optional white space, an optional sign, and digits.
- Octets are the integers 0..255 rather than `bv8`. Packing two nibbles with `|` is modelled as `+`, because the nibbles never overlap.
- The typed helpers `DIS_publish_u8` … `DIS_publish_2s16` are merged into `PublishArray` and `PublishArray2`, parameterised by the specifier. `PublishArray2` covers only u8, s8, u16 and s16, the two-array helpers the source defines.
- Dispatch.Dispatcher.Subscribe: requires at most 15 characters. A topic of 16 characters fits the slot's buffer but leaves it without a terminator, so the next `strcmp` in `DIS_process` reads past it (`src/dispatch.c:716`); a longer topic overruns the copy itself.
- DispatchSpec.ToSigned: the signed reassembly of `DIS_getElements` is read as two's complement. Shifting an octet of 0x80 or more into the sign bit of an `int32_t` is undefined in C (`src/dispatch.c:851`), and storing a value above 32767 in an `int16_t` is implementation-defined (`src/dispatch.c:807`); the model assumes the usual two's complement result for both.
- DispatchSpec.ParseTags: its own contract bounds only the number of specifiers. Which specifiers a descriptor yields is proved separately, for descriptors built from type tokens, by `Descriptor.ParseItems`, `DescriptorTags`, `UnsizedDescriptorTags` and `StringEndsTags`; for other text the body is the only statement.
- DispatchSpec.PublishTags: the same; its contract gives only the table size, and the lemmas above give the table of token descriptors.
- Dispatch.ParseFormatSpecifiers: proved equal to `PublishTags`, so it inherits that statement.
- FrameSpec.PullDefined: a definedness condition with no contract of its own. It asks for the 128-octet buffer, a read that fits behind the append offset (`src/frame.c:63-66`), and a frame body that unescapes to at least the two checksum octets (`src/frame.c:140-147`).
- DispatchSpec.PublishDefined: a definedness condition with no contract of its own. It asks for C strings shorter than 65536 characters, at most eight commas (`src/dispatch.c:66-74`, `src/dispatch.c:148`), a length field that fits `strNum0` with its terminator (`src/dispatch.c:128-133`), and, for each numeric specifier, an array argument holding at least the declared length (`src/dispatch.c:200-325`).
- DispatchSpec.TopicDefined: the same for `parseTopicString`: a C string shorter than 65536 characters whose length field fits `numStr` with its terminator (`src/dispatch.c:578-608`).
- DispatchSpec.ProcessDefined: the same for `DIS_process`: a defined pull, a 96-octet earlier content of the local buffer, a pulled message that fits that buffer (`src/dispatch.c:659-660`), and a message that `Decode` can read without overrunning it (`src/dispatch.c:666-711`).
- DispatchSpec.ExtractDefined: the same for `DIS_getElements`: an element inside the specifier table (`src/dispatch.c:731`) and reads that stay inside the receive store (`src/dispatch.c:739-855`).
- The configuration header is not part of this model. `Config` gives one admissible set of sizes, and the proofs use only these values.
- Delivery.PublishArraysDelivered: states only that the first `length` values returned are the ones sent for element `e`. `DIS_getElements` reads on until `length8bit` octets are consumed, so later arrays follow them.
- Delivery.PublishArraysDelivered: requires all specifiers to be numeric. A string specifier in the array form sends no data but still adds to `length8bit`.
- Delivery.Array2Delivered: excludes u32 and s32 because the source has no two-array helper for them.
