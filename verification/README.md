# Verified core of the game server

A Dafny model of the parts of the server whose mistakes are hard to see: the codecs, the byte streams and
queues, the state machines that run for days, and the indexes. Sockets, databases, scripts and configuration are
outside; what they answer enters as a parameter (how many bytes `send` took, whether a save succeeded, what the
clock says). `dafny verify dfyconfig.toml` checks the whole project.

Every operation exists twice where the source changes state step by step: once as a function on values, about
which the properties are proved, and once as a method on arrays and fields with the source's branches and loops,
proved to compute that function.

| file | source | main results |
|---|---|---|
| `CodeQueue.dfy` | `framework/codequeue.c` | every interleaving of one producer and one consumer delivers an intact in-order prefix, reads never touch slots being written, equal indices mean empty |
| `Buffer.dfy`, `Connection.dfy` | `framework/buffer.c`, `framework/network.c`, `gateway/backend.c` | packages do not depend on how the stream was cut; no byte lost, doubled or reordered in either direction |
| `JsonText.dfy`, `JsonRfc.dfy`, `Json.dfy`, `JsonGrammar.dfy`, `JsonParser.dfy`, `JsonPrinter.dfy` | `framework/cJSON.c` | every text of RFC 8259 is read as what it denotes, exactly when at most 1000 containers nest; whatever is accepted is generated by a grammar; printed text is generated by the standard's grammar and denotes the value printed, so that parsing gives it back; the two-pass string reader never outgrows its buffer on any input; printing fails exactly when the text and its slack do not fit |
| `Amf.dfy`, `AmfWire.dfy` | `framework/amf.c` | exact condition under which a value survives encoding and decoding, and under which a message with string references is read as what it means; the announced length is the written length; exactly which trees the length checks stop |
| `Base64.dfy` | `framework/cencode.c`, `framework/cdecode.c`, `server/lib/lua_base64.c` | both coders agree up to line breaks and are undone by their decoders, in any chunking; the alphabet and the lines of 72 are those of the standard and the source |
| `Words.dfy`, `Md5.dfy` | `framework/md5.c` | the digest of RFC 1321 for every cut of a message, computed in 64-bit words |
| `WriteBehind.dfy` | the runtime emitted by `code_generate/code_generate.cpp` | clean fields always equal their columns; a flush leaves no record on the list that has been dirty for 30 seconds or unchanged for five; which records a flush saves, keeps, strays or loses |
| `RankList.dfy` | `world/rankreward.c` | the list shows the top 100 of all players although it forgets those it drops |
| `TimerWheel.dfy`, `Dlist.dfy`, `Addicted.dfy` | `world/timer.c`, `framework/dlist.h`, `world/addicted.c` | the wheel fires every timer once, in order, and exactly those late that are armed for the tick being fired; the check chain ends in a kick, looks at the earliest occasion and never skips a reminder |
| `Notify.dfy` | `world/notify.c` | recorded counts are sent plus waiting counts; a clean reports exactly what has waited three seconds |
| `XmlIndex.dfy` | `thirdpart/mxml-2.7/mxml-index.c` | quicksort sorts and permutes; repeated searches return what a linear filter selects, by attribute value alone exactly when the values do not decrease |
| `Buckets.dfy`, `HashTable.dfy`, `IntMap.dfy` | `framework/hash.c`, `framework/map.c` | both tables are finite maps through inserts, deletions and growth |
| `HandleTable.dfy` | `framework/lrm.c` | handles are never given out twice and die for good, as long as ids do not wrap |

`Wrappers.dfy`, `Bytes.dfy` and `Modular.dfy` hold optional values, sequences put together, byte words and facts about remainders.

Places where the code does less than its comments or names suggest, each with a proof of when it is right:

- Signed AMF integers below -2^24 never come back (`Amf.SignedRoundTrip`), and decoding the 1025th string of a message
  writes past the string table (`Amf.StringBack`, `Amf.RoundTrip`); a message that refers to strings sent before is read up to
  1024 different strings (`AmfWire.SharedRoundTrip`).
- The AMF encoder checks each part against the length of the whole buffer: a tree is stopped only by a part that is
  longer than that on its own (`Amf.ChecksExactly`).
- A timer that a callback arms for the tick being fired is accepted and fires a whole turn, 3600 seconds, late
  (`TimerWheel.ArmedForThisTick`, `TimerWheel.EveryTimerFiresOnce`).
- A failed save in a flush leaves a record dirty and off the update list, and a failed save of a released record
  loses its changes (`WriteBehind.FlushStrays`, `WriteBehind.FailedReleaseLoses`).
- A player on a full leaderboard who falls to the last value or below keeps the old value
  (`RankList.IgnoredFall`).
- A search of an XML index by attribute value alone can miss nodes (`XmlIndex.ValueAloneCanMiss`); it finds every
  value exactly in an index of at most two nodes or with values that do not decrease (`XmlIndex.ValueAloneExactly`).
- The MD5 length counter is exact only while its low word and the chunk stay below 2^33
  (`Md5.CountIsExactIff`), and ids of the handle table stay with their slot only until they reach 2^32 - 1
  (`HandleTable.IdsGrowUntilWrap`); freeing an id that was never given out closes the idle list into a ring
  (`HandleTable.FreeingIdleBreaks`).
- The JSON parser takes at most 63 bytes of a number, so that a longer one is never read as a whole (`JsonGrammar.LongNumber`),
  and takes every byte up to 32 for a blank (`JsonGrammar.Generates`).
- `cJSON.h` advises five spare bytes for `cJSON_PrintPreallocated`; one byte behind the NUL is enough, and
  for a number none (`JsonPrinter.PrintBuffer.PrintPreallocated`).

## Model

| member | source | states |
|---|---|---|
| `CodeQueue.LengthIsDistance` | framework/codequeue.c:70-70 | the length computed from the two indices is the distance between them around the ring |
| `CodeQueue.FrameSlotIsIdx` | framework/codequeue.c:85-96 | the two-part copy of header and body puts byte k of a frame into the k-th slot around the ring |
| `CodeQueue.PushLoadEndKeeps` | framework/codequeue.c:140-153 | the space check of a push, made on a stale begin, keeps the invariant and lets a push through exactly when the frame fits what the producer knows |
| `CodeQueue.PushCopyKeeps` | framework/codequeue.c:85-96 | copying any byte of a frame, in any order, disturbs nothing the consumer may read |
| `CodeQueue.Publish` | framework/codequeue.c:155-161 | storing end after the copies makes the whole frame readable |
| `CodeQueue.PopLoadEndKeeps` | framework/codequeue.c:98-115 | loading end shows the consumer whole frames only, so the branches that throw data away are never taken |
| `CodeQueue.PopHeaderDoneKeeps` | framework/codequeue.c:117-132 | the header that was read is the length of the next message; the body is read exactly when the caller gave room for it |
| `CodeQueue.PopStoreBeginKeeps` | framework/codequeue.c:126-138 | storing begin completes a pop of exactly the next message |
| `CodeQueue.StepKeeps` | framework/codequeue.c:47-162 | every load, byte copy and store of either side keeps the invariant |
| `CodeQueue.IndicesEqualIffEmpty` | framework/codequeue.c:98-107 | begin equals end exactly when everything pushed was popped |
| `CodeQueue.ReadMissesWrite` | framework/codequeue.c:72-96 | a slot the producer may write lies inside the ring and is none the consumer may read |
| `CodeQueue.EveryRunIsSafe` | framework/codequeue.c:47-162 | over every interleaving: popped is an intact prefix of pushed, nothing is thrown away, all accesses in bounds and disjoint, equal indices exactly when empty |
| `Buffer.ByteBuffer.constructor` | framework/buffer.c:22-43 | an empty buffer of the requested size, 64 for zero, rounded up to four |
| `Buffer.ByteBuffer.Align` | framework/buffer.c:78-86 | moving the unread bytes to the front keeps them |
| `Buffer.ByteBuffer.Resize` | framework/buffer.c:88-114 | refused, with nothing changed, exactly when the unread bytes do not fit; otherwise the contents stay |
| `Buffer.ByteBuffer.Peek` | framework/buffer.c:116-124 | the first len unread bytes, or nothing when there are fewer |
| `Buffer.ByteBuffer.Read` | framework/buffer.c:126-143 | the first len unread bytes leave the buffer, or nothing changes |
| `Buffer.ByteBuffer.Reserve` | framework/buffer.c:145-178 | doubling and compacting make room behind the unread bytes, which stay; none of the source's assertions can fail |
| `Buffer.ByteBuffer.Write` | framework/buffer.c:180-188 | the contents grow by exactly the bytes written |
| `Connection.ProcessMessages` | framework/network.c:253-271 | the loop delivers what draining the data one package after the other delivers, and keeps the rest |
| `Connection.DrainConserves` | framework/network.c:253-271 | delivered packages followed by the rest are the data |
| `Connection.DrainSplit` | framework/network.c:253-271 | draining a first part and then its rest with a second part is draining both at once |
| `Connection.ChunkingDoesNotMatter` | framework/network.c:273-356 | however the stream was cut into receives, the packages delivered are those of the whole stream |
| `Connection.WellFormedDrain` | gateway/backend.c:211-221 | a concatenation of packages, each of at least 28 bytes and starting with its length as four bytes, highest first, drains into those packages with nothing left |
| `Connection.FramesReassemble` | gateway/backend.c:211-221 | for every cut of a stream of such packages the handler sees exactly those packages |
| `Connection.Receiver.TakeChunk` | framework/network.c:273-356 | one receive, whether handled in place, appended to the buffer or kept: received bytes stay delivered packages followed by the buffer, for every handler; for one that answers by the package alone, the packages stay those of the whole stream |
| `Connection.Receiver.Handle` | framework/network.c:273-356 | data, end of stream, interruption and error answers of recv, and when the loop goes on |
| `Connection.Receiver.ReadReady` | framework/network.c:273-356 | over any answers of recv and for every handler, everything received is delivered or in the read buffer, in order |
| `Connection.TrimDropsPrefix` | framework/network.c:671-682 | adjusting the vector after a partial write drops exactly the bytes the kernel took |
| `Connection.Sender.TrimVector` | framework/network.c:671-682 | the loop over the vector computes that adjustment |
| `Connection.Sender.Send` | framework/network.c:616-657 | accepted payloads are the kernel's bytes followed by the write buffer, for full, partial and failed writes; the kernel is asked only when nothing is queued; an empty payload answers what setting the event answers |
| `Connection.Sender.SetEvent` | framework/network.c:71-94 | the write event changes when epoll_ctl agrees, and is not asked for twice |
| `Connection.Sender.Writev` | framework/network.c:660-701 | the same for a vector of pieces |
| `Connection.Sender.WriteReady` | framework/network.c:358-377 | a write event moves a prefix of the buffer to the kernel and loses nothing |
| `JsonText.CountEscapes` | framework/cJSON.c:806-831 | the counting pass finds the length of the escaped text |
| `JsonText.CopyEscaped` | framework/cJSON.c:833-895 | the copying loop fills the announced length exactly with the escaped text, at any place of the output |
| `JsonText.Utf8RoundTrip` | framework/cJSON.c:585-640 | what is emitted for a code point is its encoding of section 3 of RFC 3629 |
| `JsonText.LiteralIsUtf8` | framework/cJSON.c:530-648 | an accepted escape, alone or as a surrogate pair, yields the UTF-8 of the code point it denotes, also when bad digits read as zero |
| `JsonText.ScanString` | framework/cJSON.c:664-690 | the first pass finds the closing quote and counts the backslashes it skipped |
| `JsonText.StillFits` | framework/cJSON.c:664-755 | each piece the second pass writes stays within what the first pass allowed, even when the passes are out of step |
| `JsonText.CopyString` | framework/cJSON.c:700-755 | the second pass writes the unescaped text inside the buffer, or fails where unescaping fails |
| `JsonText.ReadString` | framework/cJSON.c:651-777 | for every input the text and its terminator fit the allocated size; success, text and end position are those of the specification |
| `JsonText.StringRoundTrip` | framework/cJSON.c:651-899 | reading a quoted text at any place gives the text back and stops behind the quote |
| `JsonRfc.EveryStringIsRead` | framework/cJSON.c:651-777 | every string that section 7 of RFC 8259 generates, with the eight short escapes, \u escapes of either case and paired surrogates by the standard's own tables, is accepted and yields the bytes it denotes |
| `JsonGrammar.NumberRead` | framework/cJSON.c:219-293 | a number of at most 63 bytes that the scanner reads whole is read, and nothing behind it |
| `JsonGrammar.LongNumber` | framework/cJSON.c:219-293 | a number of more than 63 bytes is not read as a whole |
| `JsonGrammar.StringInFront` | framework/cJSON.c:651-777 | a text is a string by itself exactly if it is the string at the front of a longer text |
| `JsonGrammar.ItemsRead` | framework/cJSON.c:1283-1374 | values between blanks and commas up to a closing bracket are read as an array's elements, exactly when the nesting limit allows |
| `JsonGrammar.PairsRead` | framework/cJSON.c:1439-1545 | names, colons and values between blanks and commas up to a closing brace are read as an object's members, in order, exactly when the nesting limit allows |
| `JsonGrammar.DocRead` | framework/cJSON.c:1149-1202 | a text put together from tokens with blanks between them is read as the value it denotes and no further, exactly when its containers fit under the nesting limit |
| `JsonGrammar.StrictIsLax` | framework/cJSON.c:916-934 | every text of RFC 8259, sections 2 to 7, consists of tokens the parser takes |
| `JsonGrammar.EveryTextIsRead` | framework/cJSON.c:937-1022 | every JSON text of RFC 8259 with numbers of at most 63 bytes, blanks around it included, is read as the value it denotes if and only if at most 1000 containers nest |
| `JsonGrammar.Generates` | framework/cJSON.c:1149-1202 | whatever is accepted is put together from the parser's tokens, denotes the value returned and nests within the limit |
| `JsonGrammar.GeneratesItems` | framework/cJSON.c:1309-1355 | the same for the elements of an array |
| `JsonGrammar.GeneratesPairs` | framework/cJSON.c:1464-1527 | the same for the members of an object |
| `JsonGrammar.PrintIsGenerated` | framework/cJSON.c:1205-1659 | printed text, formatted or not, is a text of RFC 8259 that denotes the value printed, if numbers are shown as the standard has them |
| `JsonGrammar.SameTokens` | framework/cJSON.c:1377-1659 | formatting adds blanks between tokens and nothing else; unformatted text has no blanks |
| `JsonGrammar.ValueBack` | framework/cJSON.c:1149-1659 | the printed form of a value parses back to it at any depth, whatever follows that does not continue a number, exactly when the nesting limit allows |
| `JsonGrammar.RoundTrip` | framework/cJSON.c:1019-1097 | parsing printed text, formatted or not, gives the value and ends at its NUL if and only if at most 1000 containers nest |
| `JsonParser.ParseBuffer.SkipWhitespace` | framework/cJSON.c:916-934 | the cursor moves past blanks and stays on the last byte |
| `JsonParser.ParseBuffer.ParseNumberAt` | framework/cJSON.c:219-293 | up to 63 number characters are scanned and as many consumed as the scanner used |
| `JsonParser.ParseBuffer.ParseItemsAt` | framework/cJSON.c:1309-1355 | the loop over elements answers what the grammar answers, success or failure |
| `JsonParser.ParseBuffer.ParseMembersAt` | framework/cJSON.c:1464-1527 | the loop over names and values answers what the grammar answers |
| `JsonParser.ParseBuffer.ParseArrayAt` | framework/cJSON.c:1283-1374 | an array, with the depth counted up and down again |
| `JsonParser.ParseBuffer.ParseObjectAt` | framework/cJSON.c:1439-1545 | an object, with the depth counted up and down again |
| `JsonParser.ParseBuffer.ParseValueAt` | framework/cJSON.c:1149-1202 | the dispatch on the next bytes answers what the grammar answers |
| `JsonParser.ParseDocument` | framework/cJSON.c:937-1022 | a document is accepted exactly when the grammar accepts it, and parsing ends where the grammar ends |
| `JsonPrinter.PrintBuffer.Ensure` | framework/cJSON.c:326-411 | room is granted exactly when the offset, the request and one byte stay within the fixed buffer or INT_MAX; the text so far survives growth |
| `JsonPrinter.PrintBuffer.UpdateOffset` | framework/cJSON.c:414-424 | the offset moves to the end of the text just printed |
| `JsonPrinter.PrintBuffer.PrintNumber` | framework/cJSON.c:427-490 | the number's text behind what was written |
| `JsonPrinter.PrintBuffer.PrintText` | framework/cJSON.c:780-899 | the quoted text written into the buffer by the copying loop, or by memcpy when nothing needs escaping; refused exactly when it and two bytes do not fit |
| `JsonPrinter.PrintBuffer.PrintArray` | framework/cJSON.c:1377-1436 | an array's text and NUL behind what was written, refused exactly when they and one byte do not fit |
| `JsonPrinter.PrintBuffer.PrintObject` | framework/cJSON.c:1548-1659 | the same for an object, with its indentation |
| `JsonPrinter.PrintBuffer.PrintValue` | framework/cJSON.c:1205-1280 | printing succeeds exactly when the text and its slack fit, and then the text stands in the buffer; no write leaves the buffer |
| `JsonPrinter.PrintNulFree` | framework/cJSON.c:1205-1659 | printed text holds no NUL, which moving the offset by strlen relies on |
| `JsonPrinter.PrintBuffer.PrintPreallocated` | framework/cJSON.c:1129-1146 | a given buffer is enough exactly when it holds the text, its NUL and, but for numbers, one more byte |
| `JsonPrinter.PrintBuffer.PrintGrowing` | framework/cJSON.c:1026-1086 | the whole text, for every value whose text and slack stay within INT_MAX |
| `JsonPrinter.PrintAndParse` | framework/cJSON.c:1019-1097 | printing into a growing buffer and parsing the result gives the value back, and uses the whole text, exactly when at most 1000 containers nest |
| `Amf.SignedRoundTrip` | framework/amf.c:18-40 | a signed 29-bit integer comes back if and only if it is at least -2^24 |
| `Amf.SignedReads` | framework/amf.c:18-40 | every number with bit 28 set is read as the negative one with the same low 24 bits |
| `Amf.U29RoundTrip` | framework/amf.c:42-70 | the one to four bytes of an unsigned 29-bit integer decode to it, whatever follows |
| `Amf.ReadU29` | framework/amf.c:323-356 | the decoding loop computes the decoder of the specification, errors included |
| `Amf.DoubleIsEqual` | framework/amf.c:112-173 | integers above 2^29 - 1 travel as a double of equal value |
| `Amf.LengthIsExact` | framework/amf.c:1400-1527 | the length announced for a value is the length of its encoding |
| `Amf.StringBack` | framework/amf.c:424-486 | a string comes back and enters the table; with 1024 strings in the table the source writes past it, which is undefined |
| `Amf.ByteArrayBack` | framework/amf.c:488-529 | a byte array comes back and leaves the table alone |
| `Amf.ArrayBack` | framework/amf.c:889-920 | an array comes back element by element, the table passed through |
| `Amf.DecodeBack` | framework/amf.c:922-956 | encoding followed by any suffix decodes to the value's image and exactly that suffix, and is undefined exactly when the string table overflows |
| `Amf.ImageIsNormal` | framework/amf.c:18-40 | the image is the value with null pointers as null and large integers as doubles, if and only if every signed integer is at least -2^24 |
| `Amf.RoundTrip` | framework/amf.c:889-956 | a value comes back with its suffix if and only if it has at most 1024 strings and no signed integer below -2^24 |
| `Amf.EncodeInto` | framework/amf.c:1288-1329 | for any length told, the exact answer, every byte outside the announced length untouched, and the encoding written whenever no part is too long |
| `Amf.EncodeArrayInto` | framework/amf.c:1315-1325 | the same for an array, whose children are told the undiminished length |
| `Amf.ChecksExactly` | framework/amf.c:1288-1329 | the length checks let a tree through if and only if its longest part fits the length told, and a tree that fits as a whole always passes |
| `Amf.EncodeU29Into` | framework/amf.c:42-70 | one to four bytes, or 0 and nothing written when they do not fit |
| `Amf.EncodePart` | framework/amf.c:86-231 | type, number and bytes, each checked against what is left; 0 exactly when the whole part does not fit |
| `Amf.EncodeMessage` | world/message.c:47-61 | a buffer of exactly the announced length is filled exactly |
| `Amf.Reader.Read` | framework/amf.c:952-956 | a read starts with an empty table and answers what the decoder of the specification answers |
| `Amf.Reader.ReadArray` | framework/amf.c:889-920 | header and children read with the decoding loop, in order, failing when one fails |
| `Amf.Reader.ReadValue` | framework/amf.c:922-950 | every type is read by its own reader and answers what the decoder of the specification answers |
| `AmfWire.U29Bytes` | framework/amf.c:42-70 | a 29-bit number is written seven bits a byte, highest first, the fourth byte with eight; reading one fails exactly when it is cut short |
| `AmfWire.Markers` | framework/amf.c:922-950 | which type byte stands for which value, and integers behind theirs |
| `AmfWire.DoubleBytes` | framework/amf.c:150-173 | a double travels with its last byte in memory first, in both directions |
| `AmfWire.Refused` | framework/amf.c:573-607 | arrays that are references or have a name, and unknown types, are refused |
| `AmfWire.TooShort` | framework/amf.c:424-529 | a string or byte array longer than the data is empty with nothing consumed |
| `AmfWire.ReferenceBack` | framework/amf.c:454-465 | for every table, a reference gives the string at its place and leaves the table alone; one past the table is the empty string with nothing consumed |
| `AmfWire.ItemsBack` | framework/amf.c:889-920 | an array of strings, references and other values is read in order, each reference looked up in the table as it is by then |
| `AmfWire.WireBack` | framework/amf.c:922-956 | a message in which any strings are references to earlier ones is read as the tree it means with exactly its bytes, and is undefined exactly when the strings written out overflow the table |
| `AmfWire.ShareMeans` | framework/amf.c:454-465 | writing every repeated string as a reference to its first occurrence keeps the tree that is meant |
| `AmfWire.SharedRoundTrip` | framework/amf.c:889-956 | such a message gives the tree back if and only if it has at most 1024 different strings and no signed integer below -2^24 |
| `Base64.ValueOfLetter` | framework/cdecode.c:10-17 | decoding a letter gives the six bits it stands for |
| `Base64.AlphabetIs` | framework/cencode.c:19-24 | the 64 letters are those of table 1 of RFC 4648, in order |
| `Base64.OnlyLetters` | framework/cdecode.c:10-17 | exactly these letters are decoded, and padding is an equals sign |
| `Base64.GroupIsNumber` | framework/cencode.c:26-85 | three bytes and their four groups of six bits are the same 24 bits |
| `Base64.LineLength` | framework/cencode.c:10-85 | a line holds 72 characters without a break, which is 54 bytes, and then a line feed |
| `Base64.EncIsLines` | framework/cencode.c:26-108 | the state machine's output and its end are the base64 text broken after every 72 characters |
| `Base64.EncodingIsLines` | framework/cencode.c:26-108 | that holds however the bytes are cut into blocks |
| `Base64.LinesIsText` | framework/cencode.c:26-108 | without its line breaks, that text is what the block coder writes |
| `Base64.DecLines` | framework/cdecode.c:25-87 | the resumable decoder undoes the text with line breaks |
| `Base64.DecText` | framework/cdecode.c:25-87 | it undoes the block coder's text too |
| `Base64.StreamRoundTrip` | framework/cdecode.c:25-87 | bytes cut in any way for encoding and text cut in any way for decoding: the bytes come back |
| `Base64.Encoder.Block` | framework/cencode.c:26-85 | a block's output and the state left for the next call are those of the byte-by-byte machine |
| `Base64.Encoder.BlockEnd` | framework/cencode.c:87-108 | the last letters, padding and line break for the state reached |
| `Base64.Decoder.Block` | framework/cdecode.c:25-87 | a block's output and state, characters outside the alphabet passed over |
| `Base64.Base64Encode` | server/lib/lua_base64.c:247-277 | the base64 text and a zero, of the length Base64encode_len announces |
| `Base64.Base64Decode` | server/lib/lua_base64.c:194-237 | the bytes of the letters in front of the first other character, and their number |
| `Base64.BlockRoundTrip` | server/lib/lua_base64.c:194-277 | Base64decode undoes Base64encode |
| `Base64.PlainLength` | server/lib/lua_base64.c:202-236 | the count computed from the number of letters is the number of bytes written |
| `Words.AddAgrees` | framework/md5.c:76-79 | a 64-bit sum has the 32-bit sum in its low half |
| `Words.RotateAgrees` | framework/md5.c:74-74 | the macro S rotates the low half |
| `Words.FAgrees` | framework/md5.c:86-86 | the macro's first F is F of RFC 1321 on the low halves |
| `Words.GAgrees` | framework/md5.c:107-107 | its second F is G |
| `Words.IAgrees` | framework/md5.c:149-149 | its fourth F is I |
| `Md5.RowsAreRfc` | framework/md5.c:88-166 | the 64 steps use the words, rotations and additive constants of section 3.4 of RFC 1321 |
| `Md5.StepAgrees` | framework/md5.c:74-79 | one step in 64-bit words leaves the RFC's step in the low halves |
| `Md5.ProcessAgrees` | framework/md5.c:53-174 | so does a whole block |
| `Md5.Context.Process` | framework/md5.c:53-174 | the 64 steps and the final sums |
| `Md5.CountIsExactIff` | framework/md5.c:185-189 | the two-word counter is right if and only if its low word and the chunk together stay below 2^33 |
| `Md5.LengthField` | framework/md5.c:229-234 | the eight bytes appended are the length in bits modulo 2^64 |
| `Md5.Context.Update` | framework/md5.c:176-213 | for every chunk, state and buffer stand for everything seen so far; the counter stays exact if and only if its low word and the chunk are together below 2^33 |
| `Md5.Context.Finish` | framework/md5.c:223-246 | the digest is that of RFC 1321 for everything seen, if the counter is exact |
| `Md5.DigestAgrees` | framework/md5.c:53-246 | folding the padded message in 64-bit words gives the 32-bit digest |
| `Md5.DigestOf` | framework/md5.c:42-246 | however a message is cut into chunks below 2^32 bytes, the RFC 1321 digest of the whole |
| `WriteBehind.ChainPush` | code_generate/code_generate.cpp:605-613 | linking a record in front keeps the intrusive list a list |
| `WriteBehind.ChainPop` | code_generate/code_generate.cpp:585-588 | unlinking the head leaves the list of the others |
| `WriteBehind.RowAgrees` | code_generate/code_generate.cpp:469-567 | writing the dirty columns makes the row equal to the record |
| `WriteBehind.Table.New` | code_generate/code_generate.cpp:224-341 | a record exists only after its row does |
| `WriteBehind.Table.Update` | code_generate/code_generate.cpp:436-466 | an equal value changes nothing; another one sets the field and its mark, leaves every other field, mark and record alone, lists the record, and says since when it is dirty only if it was clean, when it changed last in any case |
| `WriteBehind.Table.Save` | code_generate/code_generate.cpp:469-567 | a good save brings every field into its column, clears the marks and changes no other column or row; a failed one changes nothing; clean fields equal their columns either way |
| `WriteBehind.Table.Release` | code_generate/code_generate.cpp:423-434 | a released record is listed, so that the next flush frees it |
| `WriteBehind.Table.Delete` | code_generate/code_generate.cpp:343-421 | row and record go together or not at all |
| `WriteBehind.Table.Flush` | code_generate/code_generate.cpp:574-603 | the loop visits each listed record once; a live dirty record stays listed exactly if its first change since it was clean is less than 30 seconds ago and its last one less than five; with good saves every dirty record stays listed exactly once |
| `WriteBehind.VisitAllOne` | code_generate/code_generate.cpp:585-600 | what a flush does to a record does not depend on the others |
| `WriteBehind.RemainingIs` | code_generate/code_generate.cpp:585-601 | which records are on the list after a flush |
| `WriteBehind.FlushSaves` | code_generate/code_generate.cpp:585-600 | a due or released record whose save succeeds is in the database afterwards |
| `WriteBehind.StaysExactly` | code_generate/code_generate.cpp:594-600 | the 30 and 5 second limits, counted from the changes themselves |
| `WriteBehind.FlushStamps` | code_generate/code_generate.cpp:585-600 | a record that is dirty after a flush keeps its two times |
| `WriteBehind.FlushLeaves` | code_generate/code_generate.cpp:585-600 | a deleted record is freed without a write; one that is not due, or not listed, is left alone with its row |
| `WriteBehind.FlushStrays` | code_generate/code_generate.cpp:585-600 | a dirty record is off the list after a flush if and only if it was before or its save failed when due |
| `WriteBehind.FailedReleaseLoses` | code_generate/code_generate.cpp:585-600 | a released record whose save fails is freed and its row is as before |
| `RankList.ForwardSorts` | world/rankreward.c:223-234 | bringing one entry forward sorts the list and permutes it |
| `RankList.InsertKeeps` | world/rankreward.c:178-235 | one insertion keeps the list a board of all players' latest values |
| `RankList.IgnoredFall` | world/rankreward.c:194-196 | the inputs on which the list stops being one |
| `RankList.BoardIsTop` | world/rankreward.c:178-235 | a board shows at place k a value of at least t if and only if more than k players have one |
| `RankList.MonotoneIsLegal` | world/rankreward.c:198-206 | with non-decreasing values per player the assertion never fails |
| `RankList.EveryRunShowsTheTop` | world/rankreward.c:178-235 | over every such run the list is descending, has distinct players, at most 100 entries, and the largest values of all players |
| `RankList.Ranking.BringForward` | world/rankreward.c:223-234 | the loop over the array computes the move |
| `RankList.Ranking.Put` | world/rankreward.c:178-235 | the array after an insertion |
| `RankList.Ranking.Get` | world/rankreward.c:132-142 | the entry at a filled place, player 0 everywhere else |
| `TimerWheel.DoSound` | world/timer.c:78-125 | arming and cancelling keep pending, fired and cancelled timers a partition of those armed |
| `TimerWheel.TickSound` | world/timer.c:41-57 | so does firing a tick, whatever its callbacks arm or cancel |
| `TimerWheel.EveryTimerFiresOnce` | world/timer.c:41-125 | over every run that removes only timers still in the wheel, a timer armed and not cancelled has fired exactly once if the wheel has come round to it, otherwise not at all, in order of tick and arming; and at its own time if and only if it was not armed for the tick being fired, otherwise 3600 seconds later |
| `TimerWheel.ArmedForThisTick` | world/timer.c:43-56 | a timer armed for the tick being fired is accepted and comes round a whole turn later |
| `TimerWheel.SomeAreLate` | world/timer.c:43-56 | a run in which that happens |
| `TimerWheel.SlotsHoldOneTime` | world/timer.c:78-97 | each slot holds timers that the wheel comes round to at one time only |
| `TimerWheel.OneDueTime` | world/timer.c:80-97 | in the window of one turn two times share a slot only if they are equal |
| `TimerWheel.SlotsAtTick` | world/timer.c:43-46 | the slot of a tick holds exactly what comes round, in the order it was armed |
| `TimerWheel.Wheel.Add` | world/timer.c:78-97 | accepted in the window of 3600 seconds, at the tail of its slot |
| `TimerWheel.Wheel.Remove` | world/timer.c:118-125 | the timer leaves its slot, or the ring being fired if it is not the next there, and no other does |
| `TimerWheel.Wheel.Update` | world/timer.c:41-57 | the nested loops over slots and timers do what the plain list of timers does |
| `Dlist.InsertTail` | framework/dlist.h:47-55 | the ring stands for the list with the node at its end |
| `Dlist.InsertHead` | framework/dlist.h:35-44 | the ring stands for the list with the node in front |
| `Dlist.InsertBefore` | framework/dlist.h:16-23 | the four assignments put the new node in front of any node of the ring |
| `Dlist.InsertAfter` | framework/dlist.h:25-32 | the four assignments put it behind any node |
| `Dlist.Remove` | framework/dlist.h:57-74 | the ring stands for the list without the node, which is unlinked; a node in no list changes nothing |
| `Dlist.Drain` | world/timer.c:48-55 | taking the head until none is left visits the nodes once each, in order |
| `Dlist.Next` | framework/dlist.h:76-77 | the following node, the first after NULL, NULL after the last |
| `Dlist.Prev` | framework/dlist.h:79-80 | the node before, the last before NULL, NULL before the first |
| `Addicted.StepInRange` | world/addicted.c:127-177 | the next check is 1 to 3599 seconds away and passes neither the next reminder nor kickTime + 5 |
| `Addicted.CheckExactly` | world/addicted.c:130-176 | which notice each check sends, and that the next check is at the earliest of the next reminder, the end of the first minute if nothing was sent, five seconds past the limit, and 3599 seconds |
| `Addicted.RearmIsAccepted` | world/addicted.c:168-177 | the wheel accepts that time and comes round to it then, not a turn later |
| `Addicted.ChainEndsInKick` | world/addicted.c:127-177 | the chain of checks ends, and the kick comes with played time in kickTime + 3 to kickTime + 5 |
| `Addicted.RemindersAreSent` | world/addicted.c:127-177 | every multiple of notifyTime below kickTime + 3 gets its notice |
| `Notify.ReportsTotal` | world/notify.c:326-345 | the reports for a player carry exactly the player's counts |
| `Notify.CleanConserves` | world/notify.c:312-357 | what a clean sends and keeps adds up to what was waiting |
| `Notify.KeptIs` | world/notify.c:318-323 | a clean keeps a player if and only if it is not forced and the last count is less than three seconds old |
| `Notify.ConservedByCount` | world/notify.c:371-372 | adding in 32 bits keeps recorded equal to sent plus waiting modulo 2^32 |
| `Notify.Batch.Get` | world/notify.c:298-309 | the player's slot, a zeroed fresh one, or none exactly when the table is full |
| `Notify.Batch.Clean` | world/notify.c:312-357 | the table keeps, in order, exactly the players whose time is later than three seconds ago, nobody if forced, and the map points at them; the others are reported; freed slots are zero |
| `Notify.Batch.KeepOne` | world/notify.c:347-355 | moving a slot up moves the map with it |
| `Notify.Batch.Record` | world/notify.c:359-373 | other events are ignored; any count in range is recorded, after a forced clean if need be, and conservation holds |
| `XmlIndex.LeTotal` | thirdpart/mxml-2.7/mxml-index.c:504-535 | the comparison of nodes is total and antisymmetric in sign |
| `XmlIndex.LeTrans` | thirdpart/mxml-2.7/mxml-index.c:504-535 | and transitive |
| `XmlIndex.StrCmpIs` | thirdpart/mxml-2.7/mxml-index.c:504-535 | texts are compared in the order of a dictionary |
| `XmlIndex.FindCmp` | thirdpart/mxml-2.7/mxml-index.c:542-575 | a search key compares equal to a node if and only if the name and the value that were asked for are the node's |
| `XmlIndex.SortedMeans` | thirdpart/mxml-2.7/mxml-index.c:504-535 | sorted means names in the order of a dictionary and nodes of one name by their values |
| `XmlIndex.Index.Partition` | thirdpart/mxml-2.7/mxml-index.c:606-648 | everything before the pivot's new place is at most the pivot, everything behind at least, and the nodes are permuted |
| `XmlIndex.Index.Sort` | thirdpart/mxml-2.7/mxml-index.c:586-657 | the range ends up sorted and permuted, the rest of the array untouched |
| `XmlIndex.Index.SortAll` | thirdpart/mxml-2.7/mxml-index.c:418-419 | a new index is sorted and holds the same nodes |
| `XmlIndex.SearchFindsFirst` | thirdpart/mxml-2.7/mxml-index.c:157-246 | where the key falls along the nodes, halving finds the first match or that there is none |
| `XmlIndex.SortedFalls` | thirdpart/mxml-2.7/mxml-index.c:504-575 | in a sorted index it falls for searches by name and by name and value |
| `XmlIndex.ValueAloneCanMiss` | thirdpart/mxml-2.7/mxml-index.c:104-273 | a sorted index and a search by value alone that misses a match |
| `XmlIndex.ValueAloneExactly` | thirdpart/mxml-2.7/mxml-index.c:104-273 | searches by value alone return every match of every value if and only if the index has at most two nodes or its values do not decrease |
| `XmlIndex.DescentMisses` | thirdpart/mxml-2.7/mxml-index.c:157-246 | where two neighbours fall, the search for one of their two values misses that node |
| `XmlIndex.FallingFindsAll` | thirdpart/mxml-2.7/mxml-index.c:104-273 | where the key falls, all searches together return, in order, exactly the nodes whose name and value equal those asked for |
| `XmlIndex.Index.Find` | thirdpart/mxml-2.7/mxml-index.c:104-273 | every node returned has the name and the value asked for, lies behind those returned before, and is the first of the nodes still to come |
| `XmlIndex.Index.FindAll` | thirdpart/mxml-2.7/mxml-index.c:104-273 | after a reset, repeated searches return exactly the nodes with the name and value asked for, then NULL: by name, by name and value, and by value alone where that can be right |
| `XmlIndex.Index.Reset` | thirdpart/mxml-2.7/mxml-index.c:469-494 | everything is to come again |
| `Buckets.InsertNew` | framework/hash.c:231-243 | linking a new key anywhere into its chain adds exactly that binding |
| `Buckets.RemoveAt` | framework/hash.c:261-267 | unlinking an element removes exactly its binding |
| `Buckets.MovedElement` | framework/hash.c:114-121 | during a rehash an element's key is not yet in the new table, and moving it moves one binding |
| `Buckets.WalkIsMap` | framework/hash.c:280-300 | walking all chains meets every binding of the map exactly once |
| `HashTable.Trichotomy` | framework/hash.c:25-30 | keys compare as equal only when they are equal |
| `HashTable.EarlyStop` | framework/hash.c:47-73 | in a sorted chain a key is not behind the first greater one |
| `HashTable.Table.Find` | framework/hash.c:47-73 | the key's element, or the place where it belongs and the proof that the chain lacks it |
| `HashTable.Table.Get` | framework/hash.c:272-278 | the value the map binds to the key |
| `HashTable.Table.Insert` | framework/hash.c:217-250 | the map with the binding added or replaced; the old data comes back; chains stay sorted through growth |
| `HashTable.Table.Remove` | framework/hash.c:252-270 | the map without the key; its data comes back |
| `HashTable.Table.Resize` | framework/hash.c:96-123 | the same map in more chains, and the assertion of a fresh key holds |
| `HashTable.Table.Next` | framework/hash.c:280-300 | an iterator's successor has exactly the elements behind it left |
| `HashTable.Table.Walk` | framework/hash.c:280-300 | iterating visits every binding once |
| `IntMap.Map.Find` | framework/map.c:156-178 | a key is found exactly when the map binds it |
| `IntMap.Map.Get` | framework/map.c:180-184 | the value the map binds to the key |
| `IntMap.Map.Set` | framework/map.c:186-217 | the map with the key bound, replaced or, for NULL, removed; the former value comes back; the count is the number of keys and at most the number of chains |
| `IntMap.Map.Resize` | framework/map.c:125-154 | the same map in a doubled table, every element counted again |
| `IntMap.Map.Foreach` | framework/map.c:219-228 | every binding is visited once |
| `HandleTable.IdsGrowUntilWrap` | framework/lrm.c:106-116 | a slot's next id is greater than the last, and of the same slot, if and only if it stays below 2^32 - 1 |
| `HandleTable.WrapMixesSlots` | framework/lrm.c:106-116 | what happens past that |
| `HandleTable.FreeingIdleBreaks` | framework/lrm.c:106-119 | freeing an id that its slot has not given out leaves no idle list at all |
| `HandleTable.LiveHandlesDiffer` | framework/lrm.c:78-86 | two live handles never stand for one slot |
| `HandleTable.Partition` | framework/lrm.c:88-119 | a slot is idle exactly when its id is not a live handle |
| `HandleTable.Table.constructor` | framework/lrm.c:30-60 | all slots idle, in order |
| `HandleTable.Table.New` | framework/lrm.c:88-98 | INVALID_ID exactly when nothing is idle, otherwise a handle never given out before |
| `HandleTable.Table.Get` | framework/lrm.c:100-104 | an id resolves exactly when it is its slot's present one; a handle that was given out exactly while it is live |
| `HandleTable.Table.Free` | framework/lrm.c:106-119 | the handle dies for good and its slot is the next to be given out; freeing it again changes nothing |
| `HandleTable.Table.Next` | framework/lrm.c:121-137 | the next slot in use and none skipped |

## Left out

- Sockets, epoll, accepting and connecting, signals, logging and the process watcher; recv, send and writev are byte counts and outcomes.
- MySQL, SQLite, Redis, PCRE, Lua and protobuf bindings; a database save is an atomic row update that succeeds or fails.
- Allocation failure, allocator statistics and heaps; allocation succeeds.
- Floating point: the text of a JSON number and its reading are a pair of functions of which only being inverse, using a prefix on its own, and showing numbers of the standard is used, each where it is named, an AMF double is an opaque block of eight bytes.
- framework/codequeue.c:164-210, pushing several pieces: the header goes to offset 0 there, so it shares no contract with the queue. Messages are below 2^32 bytes, and memory is sequentially consistent.
- The active and closing lists of connections and the handlers a connection may be given; one connection's two directions are modelled, each on its own, with a handler that is a function of the data it is offered and with buffers allocated up front.
- cJSON items that are raw text, references or NULL strings, error positions, and the tree editing functions.
- amf_skip and amf_dump, which are not part of the codec.
- JSON chains of children, hash chains and timer slots are sequences instead of linked nodes; `Dlist.dfy` and the lists threaded through records and handle slots keep the links.
- The hash functions of framework/hash.c and framework/map.c are parameters; emptying a map in one go, which leaves its count behind, is not modelled.
- Removing a timer that has fired, or the next one of the tick being fired, which works on freed memory; runs that do so are excluded by name (`broken`).
- Loading and saving XML files, matrices, memory-mapped files and the configuration.
- world/player.c, world/dispatch.c and world/aifightdata.c are not part of this model.
- Amf.EncodeInto: is stated for memory with room for the announced length, as its callers provide; the length it is told is free.
- Buffer.ByteBuffer.Resize: excludes a new size of zero and the state in which the source's own assertion fails (everything read, positions beyond the new size), which no caller produces.
- Connection.ChunkingDoesNotMatter: is stated for handlers whose answer depends on the package in front alone; for others the packages do depend on the cuts, and only `Connection.Receiver.ReadReady` applies.
- HandleTable.Table.Free: is stated for handles that were given out and for ids that do not wrap; `HandleTable.IdsGrowUntilWrap` and `HandleTable.FreeingIdleBreaks` say what happens otherwise.
- HashTable.Table.Insert: is stated for fewer than 2^31 - 1 entries, because the 32-bit number of chains doubles.
- IntMap.Map.Resize: does not model overflow of the size in memory, which 2^63 chains would take.
- Md5.Context.Finish: says nothing about the digest once the counter is off. The high word of the counter is unbounded.
- JsonGrammar.EveryTextIsRead: is stated for numbers of at most 63 bytes; longer ones are never read whole. A NUL that a text writes as \u0000 is a byte of the string here, where the source's C string ends.
- JsonGrammar.Generates: is stated for a scanner that reads the same number when nothing follows it, as strtod does.
- RankList.Ranking.Put: is stated for inputs that pass the source's assertion.
- TimerWheel.EveryTimerFiresOnce: is stated for runs that remove only timers still in the wheel.
- Notify.Batch.Clean: counts a report as sent when it is handed over; the source drops it when there is no backend or its connection is not up.
- WriteBehind.Table.Release: excludes a record that was deleted before, whose row is gone.
- WriteBehind.Table.Update: the clock is assumed not to run backwards.
