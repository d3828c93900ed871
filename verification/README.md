# A verified model of libndm

libndm is a utility library in C. This project models its components that hold deep properties
and proves those properties, for every input, every run and every reachable state that the stated
preconditions admit.

| component | modules |
|---|---|
| the binary XML wire protocol and its connection | `XmlTree`, `WireFormat`, `WireReader`, `WireRoundTrip`, `WireLayout`, `WireMemory`, `Connection`, `WireMachine` |
| copying and comparing XML documents | `XmlCopy` |
| the response cache and a request that uses it | `ResponseCache`, `CoreRequest`, `ResponseMemory` |
| the JSON parser and printer | `JsonValue`, `JsonParser`, `JsonGrammar`, `JsonComplete`, `JsonSound`, `JsonUnpaired`, `JsonSyntax`, `JsonText`, `JsonPrinter`, `JsonInSitu`, `JsonLayout` |
| the TLV table and its checksum | `Crc32`, `Crc32Values`, `TlvFormat`, `TlvTable`, `TlvParse`, `TlvLayout` |
| the charset compiler | `CharsetCode`, `CharsetMeaning`, `CharsetPolicy`, `CharsetBlocks`, `CharsetInverse`, `CharsetCompiler`, `CharsetLayout` |
| character set conversion | `ConvCodecs`, `Conv`, `ConvLayout` |
| MD5 | `Md5Block`, `Md5`, `Md5Values` |
| the pool allocator | `Pool` |

`Bytes` holds what all of them use. `dafny verify dfyconfig.toml` checks everything.

## How it is built

Code that works in place is modelled in place: the receive buffer, the writer, the JSON parse
and print contexts, the TLV table, the CRC and MD5 states, the charset generator, the cache, the
core and the pool are classes whose methods update fields and arrays, with the loops of the
source. Each is proved against functions on values, and the theorems are about those functions:

* The wire writer produces `Encode` of the tree below a cell, its sizing pass the length of that,
  and a buffer that is too small gives 0. The reader is a loop with a cursor; `WireReader.Run` is
  the same loop as a machine over an arena of cells. `DecodeOfEncoded` says that the machine
  turns `Encode(t) + rest` into the normal form of `t` and leaves exactly `rest`; `Receive` says
  so of the loop, whatever the chunks in which the bytes arrive, exactly if there is memory for
  what `WireMemory.ReadRequests` says of the tree.
* The JSON parser in place computes what `JsonParser.ParseDocument` computes on the text that the
  buffer had, and every string that it has decoded can still be read at the end. A text is
  accepted with a value if and only if the grammar of RFC 4627 derives it with that value, its
  numbers are in range, and every escape of a high surrogate is followed by that of a low one.
  What the printer prints parses back to what was printed, but for the type of some integers.
* A TLV table is always the image of a sequence of entries with distinct tags and a current
  checksum. Setting and deleting act on it as on a finite map, a failed allocation leaves every
  byte as it was, and, as long as no size wraps, the parser accepts exactly the images of such
  tables.
* The generated conversion functions are a small language with an evaluator. An encoder that is
  compiled computes its charset; which lines a decoder answers, and which it takes for a hole, is
  said in terms of neighbouring lines. The compiler keeps to its policy: a range starts a cluster
  exactly where it may not join the one before it.
* The cache agrees with a history of its uses: a hit is the response stored last for the same
  bytes, in time, and evicted entries are those used longest ago. Without a hit the core is sent
  exactly the encoding of the request, and the response is the normal form of what it answers.
* Conversion can be cut and resumed at will, MD5 and CRC-32 can be fed in any pieces, and all
  pieces of a pool are disjoint.

Functions that the code calls and its contracts name are fixed by lemmas that do not name them:
number formats as weighted sums, tables character by character, and a message, a JSON text that is
read, one that is printed, the image of a table, a compiled charset, a checksum and a digest with
all bytes written out. These are the modules named after a layout or after values.

## What the code does not do

A lemma or a contract states each of these where it is named.

* `ndm_tlv_size__` rounds up in 32 bits. A length from 0xFFFFFFF1 to 0xFFFFFFF8 has the size 0 and
  a larger one the size 8; all others have their real size (`TlvTable.Size32IsExact`). The walk
  over the entries of an image stands still at exactly the first of these
  (`TlvTable.WalkStandsStill`), which `TlvTable.EndlessWalk` shows on a body of 8 bytes. It takes
  an entry for one that is there exactly as long as no size has wrapped
  (`TlvParse.WalkFindsEntries`); `TlvParse.FalseEntry` is an entry of 8 bytes that is not.
* `ndm_tlv_table_set` computes sizes in 32 signed bits. This is exact for every call that a limit
  allows if and only if the limit is at most 0x7FFFFFF0 (`TlvTable.ExactUpToLimit`). With any larger
  limit a value of the largest length seems to empty a certain table
  (`TlvTable.GrowthFailsAboveLimit`).
* The grammar of RFC 4627 derives the escape of a high surrogate that no low one follows. Of the
  texts that it derives, with their numbers in range, exactly those without such an escape are
  accepted (`JsonSyntax.AcceptedIffPaired`); `["\ud800"]` is refused (`JsonSyntax.LoneHighSurrogate`).
* A JSON integer of the signed type that is not negative is printed and then read with the unsigned
  one. A value comes back with the types that it had if and only if it has no such integer
  (`JsonText.ParseOfPrinted`); `[0]` may not (`JsonText.ZeroComesBackUnsigned`).
* The charset compiler takes 0xD800 for a hole in tables of 16-bit words, and the loader accepts
  0xD800 as a target. A decoder answers exactly the lines that are `CharsetBlocks.Lost` with an
  error (`CharsetBlocks.DecoderAnswers`): those that are converted to 0xD800, with a code missing
  between two lines of their block and no target above 0xFFFF up to the end of it. A block is a
  stretch of lines, each at most 128 codes behind the one before, outside the runs of 128 lines or
  more that stay as they are. For lines with distinct source codes there is no other way for a
  compiled function to be wrong
  (`CharsetBlocks.DecoderIsRightIfNoneLost`, `CharsetMeaning.EncodersAreRight`).
  `CharsetBlocks.SurrogateIsLost` and `CharsetMeaning.SurrogateIsGivenUp` show such a charset.
* The loader accepts charsets in which two bytes have one target. Their two functions cannot be
  inverse to each other; those of all others are (`CharsetInverse.InverseIffDistinct`).
* The charset compiler aborts when a byte-wide table has a hole and no byte is free. A decoder
  never gets there. An encoder with distinct targets does if and only if it has 256 lines from
  codes that reach over 257 and no 128 lines from successive codes are converted to themselves
  (`CharsetCompiler.Generator.Generate`, `CharsetPolicy.EncoderSticks`).
  `CharsetPolicy.FullLines` and `CharsetPolicy.FullIsStuck` show such an encoder.
* The cache adds the size of a response and subtracts the size of its copy. The accounting
  survives an insertion if and only if the two are the same (`ResponseCache.Cache.Insert`). They
  are if the copy fits into the buffer of a response (`ResponseMemory.SmallResponsesAreExact`), and
  they are not for every response (`ResponseMemory.CopyTakesMore`): a copy has strings of its own
  for what is empty or shared in the document that was read.
* The UTF-8 decoder passes the halves of surrogate pairs, ED A0 80 to ED BF BF, and nothing else
  that is no scalar value (`ConvCodecs.Utf8Surrogates`), and the charset loader accepts targets
  that are such halves. `ndm_conv` fails its assertion if and only if it comes to one of them, in
  UTF-8 input or as the target of a byte (`Conv.WhenAborted`, `Conv.CharsetAborts`);
  `Conv.SurrogateAborts` and `Conv.CharsetSurrogateAborts` are inputs on which it does.
* In the comment on decoders a negative result gives the offset of the illegal byte. The UTF-8
  decoder gives that of the first byte that cannot stand there, except if the character starts
  with a byte from 80 to C1 (`ConvCodecs.IllegalOffset`); then it gives 1 and not 0
  (`ConvCodecs.WrongOffset`).
* The rounding of a pool allocation wraps to nothing for the last seven sizes
  (`Pool.AlignedIsEnough`), and the size of a new block wraps for the eight before them
  (`Pool.NeedIsEnough`).

## Model

| member | source | states |
|---|---|---|
| WireFormat.CtrlByte | src/core.c:1285-1304 | two bits of control and six bits of node type can be told apart |
| WireFormat.Lift | src/core.c:727-732 | a value that is not empty is never replaced by the text of a child |
| WireFormat.Normal | src/core.c:719-732 | the reader changes no kind and no number of children |
| WireReader.TakeStr | src/core.c:594-628 | a string read from the wire is a C string and takes at least its length field |
| WireReader.Append | src/core.c:630-773 | the cell that is read becomes the last child and keeps the links of the document intact |
| WireReader.StepOn | src/core.c:630-773 | a step consumes input and keeps a cursor that stands in a well-linked document |
| WireRoundTrip.GraftShape | src/core.c:630-773 | the cells that a tree adds are one interval behind the others, change only their parent, and mean the normal form of the tree |
| WireRoundTrip.GraftAllShape | src/core.c:630-773 | the same for a sequence of siblings: order and number are kept |
| WireRoundTrip.ReadAttrs | src/core.c:630-773 | attribute after attribute is appended in order to the node under the cursor |
| WireRoundTrip.ReadNode | src/core.c:630-773 | reading an encoded node below the root grafts its tree and leaves the cursor on it, with the rest of the input unread |
| WireRoundTrip.ReadChildren | src/core.c:630-773 | reading encoded siblings grafts them in order and leaves the cursor on the last |
| WireRoundTrip.DecodeOfEncoded | src/core.c:630-773 | round trip and framing: any message that obeys the name rules, followed by any bytes, is read as its normal form and the reader stops exactly before those bytes |
| WireRoundTrip.MessagesInOrder | src/core.c:630-773 | messages sent back to back are read one by one, in order, none lost and none joined |
| WireRoundTrip.EncodingIsPrefixFree | src/core.c:630-773 | no message is a proper prefix of another, and equal bytes mean equal documents |
| WireMemory.RequestsOfMessage | src/core.c:594-763 | what is asked of memory while a message is read: two strings that are not empty and a cell for each node and attribute, in order |
| WireLayout.ControlBytes | src/core.c:1285-1304 | the control bytes are the node type, 0x40, 0x80 plus the node type and 0xC0, and node types are numbered in the order of their enumeration |
| WireLayout.FirstByte | include/ndm/xml.h:10-20 | the first byte of every message is the number of its node type |
| WireLayout.LastByte | src/core.c:1347-1383 | the last byte of every message closes it |
| WireLayout.StringLayout | src/core.c:1306-1328 | a string is its length in four bytes, the most significant first, and then its own bytes |
| WireLayout.LongestString | src/core.c:594-628 | a string may be as long as leaves its terminator in 32 bits |
| WireLayout.BaseLayout | src/core.c:1330-1345 | a command is its control byte, the name and the value, in this order |
| WireLayout.NamesOfKinds | src/core.c:594-734 | elements and processing instructions have names, documents may, and other nodes have none |
| WireLayout.SampleOnTheWire | src/core.c:1347-1383 | the bytes of an element with an attribute, a text and an empty sibling of the text |
| WireLayout.SampleArrives | src/core.c:630-773 | the document that they are read as, with the text lifted into the element |
| WireMachine.ReadPass | src/core.c:630-773 | one pass of the loop does what one step of the machine does, and asks memory for what its bytes say |
| WireMachine.ReadChildren | src/core.c:630-773 | the reader loop ends, and does to the document and to the stream what the machine does to its arena and its input |
| WireMachine.ReadNode | src/core.c:655-734 | NODE and SIBL: the new node is linked below the cursor or below its parent, the text of a DATA node lifted |
| WireMachine.ReadAttr | src/core.c:735-763 | ATTR: name and value are appended to the node under the cursor, or refused |
| WireMachine.ReadString | src/core.c:594-628 | what is read is exactly the next string of the stream, or there is too little input or memory |
| WireMachine.Receive | src/core.c:1462-1480 | whatever was sent and however it was cut into chunks, its normal form arrives and the bytes behind it stay in the stream, exactly if there is memory for what the tree asks for |
| WireMachine.Writer.StoreCtrl | src/core.c:1285-1304 | a control byte is stored if there is room, and nothing is written past the end |
| WireMachine.Writer.StoreStr | src/core.c:1306-1328 | length and bytes are stored if there is room for both |
| WireMachine.Writer.StoreBase | src/core.c:1330-1345 | control byte, name and value, or a writer that is full for good |
| WireMachine.Writer.StoreNode | src/core.c:1347-1383 | the recursive writer emits the encoding of the tree below the cell, and counts its length in the sizing pass |
| WireMachine.Store | src/core.c:1385-1406 | a buffer that is large enough receives exactly the encoding and keeps its other bytes; a smaller one gives 0 |
| WireMachine.Size | src/core.c:1417-1417 | the sizing pass returns the length of the encoding |
| WireMachine.Prepare | src/core.c:1417-1443 | a request made ready is exactly its encoding |
| WireMachine.Send | src/core.c:1426-1459 | a request is sent if and only if the connection accepts all its bytes, and then the peer has been sent exactly one message more, else the bytes that were accepted |
| Connection.DeliveryOfCuts | src/core.c:478-561 | however a stream is cut into chunks, the same bytes are delivered |
| Connection.Receiver.Refill | src/core.c:489-542 | one poll and one recv move bytes from the script into the empty buffer, or report the failure |
| Connection.Receiver.Take | src/core.c:544-550 | buffered bytes go to the caller in order, as many as fit |
| Connection.Receiver.RecvAll | src/core.c:478-561 | an exact read succeeds if and only if the stream has enough bytes, and then takes exactly the next ones |
| Connection.Sender.SendAll | src/core.c:406-476 | any sequence of partial sends delivers the bytes in order, each once; on a failure, those that were accepted |
| XmlCopy.AppendWf | src/xml.c:2110-2131 | linking a node without parent below an earlier one keeps all links consistent |
| XmlCopy.KidAdded | src/xml.c:1671-1679 | one more child is copied and linked behind the copies of its elder siblings, which stay what they were |
| XmlCopy.Target.CopyAttrs | src/xml.c:1661-1669 | all attributes are copied in order if and only if there is memory for all of them |
| XmlCopy.Target.CopyNode | src/xml.c:1648-1683 | the copy means the same tree, and nothing that was in the destination changes; it succeeds if and only if there is memory for a name, a value and a cell for each node and each attribute, and asks for exactly these |
| XmlCopy.Target.Copy | src/xml.c:1685-1703 | a document is copied if and only if there is memory for all of it; then it is the same tree as its source, else the destination is empty |
| XmlCopy.AttrsAreEqual | src/xml.c:1722-1738 | the loop over two attribute lists decides whether they are equal |
| XmlCopy.NodesAreEqual | src/xml.c:1705-1757 | two nodes are found equal if and only if the trees below them are |
| ResponseCache.LastUse | src/core.c:1095-1097 | the last position in the history of a use of the request, or none |
| ResponseCache.LastStored | src/core.c:1118-1165 | the last response stored for the request, or none if none was stored |
| ResponseCache.Unexpired | src/core.c:1011-1051 | exactly the entries whose time is not over |
| ResponseCache.UnexpiredConcat | src/core.c:1033-1048 | a scan goes entry by entry: it keeps their order and how often each is there |
| ResponseCache.FindFresh | src/core.c:1069-1084 | the first unexpired entry for the request, or none |
| ResponseCache.FreshIfBounded | src/core.c:1011-1051 | as long as the bound has not been passed, a full scan would find nothing to remove |
| ResponseCache.GoodAtHead | src/core.c:1096-1097 | an entry that comes to the head with its use keeps keys distinct, the order of use, the agreement with the history and the bound on expirations |
| ResponseCache.Cache.constructor | src/core.c:991-1001 | an empty cache agrees with an empty history |
| ResponseCache.LatestTime | src/core.c:998-998 | the bound when there are no entries is the latest time there is |
| ResponseCache.Cache.TotalIsSum | src/core.c:971-989 | the size of a list is what its requests take up, what its responses have taken from the heap, and the overhead for each entry |
| ResponseCache.Cache.Remove | src/core.c:981-989 | an entry is unlinked and its size subtracted |
| ResponseCache.Cache.RemoveLast | src/core.c:1003-1009 | the entry used longest ago is removed; never called on an empty list |
| ResponseCache.Cache.Clear | src/core.c:1011-1051 | a forced clear leaves nothing; any other leaves exactly what a full scan would leave, whether it scans or not |
| ResponseCache.Cache.Scan | src/core.c:1033-1048 | the scan leaves the unexpired entries in order and finds a bound for them |
| ResponseCache.Cache.Get | src/core.c:1053-1116 | a hit if and only if there is an unexpired entry; it is the response stored last for the request and moves to the head; after a miss no entry has the request |
| ResponseCache.Cache.Fitting | src/core.c:1136-1138 | the longest front of the list that leaves room for the new entry |
| ResponseCache.Cache.Insert | src/core.c:1118-1165 | the budget is kept, exactly the entries that do not fit are evicted, they are those used longest ago, and the accounting stays exact if and only if the copy has the size of the response |
| CoreRequest.FirstChild | src/xml.c:1987-2000 | the first child of that name, or none if no child has it |
| CoreRequest.ReadAnswer | src/core.c:1462-1480 | when the core has sent a message, its normal form if there is a response in it and memory for it, and not a byte more is read |
| CoreRequest.ContinuedIff | src/core.c:1937-1941 | more is to come if and only if the first child of the document that is named response has a child that is named continued |
| CoreRequest.CachedIsWhole | src/core.c:1483-1488 | as only whole responses are ever stored, what the cache gives back is never a response of which more is to come |
| CoreRequest.Core.StoredIsWhole | src/core.c:1483-1488 | a response is stored only if no more is to come |
| CoreRequest.LongRequests | src/core.c:1426-1433 | a request needs memory if it is longer than 2048 bytes |
| CoreRequest.Core.Keep | src/core.c:1483-1488 | a response is stored unless more is to come, it does not fit, or memory is lacking |
| CoreRequest.Core.Exchange | src/core.c:1458-1495 | the core is sent exactly the request, or the part of it that the connection takes; the response is what it answers, with the next number |
| CoreRequest.Core.DoRequest | src/core.c:1408-1513 | with a hit, the response stored last for the same request and still valid, and nothing is sent; else the core is sent the encoding of the request and the response is the normal form of its answer; the cache agrees with its history after every request, and nothing is stored of a response of which more is to come |
| ResponseMemory.MessageNeedsLess | src/core.c:1951-1981 | a response never asks for less memory when it is copied than when it was read |
| ResponseMemory.SmallResponsesAreExact | src/core.c:1984-1989 | a response whose copy fits into its own buffer has the size of its copy |
| ResponseMemory.CopyTakesMore | src/core.c:1951-1989 | a response that is read without memory from the heap and copied with 4096 bytes of it |
| CoreRequest.SameBytesSameRequest | src/core.c:1077-1078 | requests that the cache takes for the same are the same document to the core |
| JsonParser.SkipWs | src/json.c:1284-1294 | stops at the first byte that is no white space, never past the terminator |
| JsonParser.Hex4 | src/json.c:1301-1342 | four digits below 0x10000, or an error |
| JsonParser.PassAt | src/json.c:1411-1537 | a pass over a string decodes at most as many bytes as it reads |
| JsonParser.StringFrom | src/json.c:1353-1542 | the loop over a string moves forward and stays in the text |
| JsonSyntax.DocumentComplete | src/json.c:1562-2099 | a text that the grammar derives, with its numbers in range, is accepted with its meaning, or refused for a high surrogate without a low one |
| JsonSyntax.AcceptedIffPaired | src/json.c:1440-1464 | of the texts that the grammar derives, with their numbers in range, exactly those are accepted in which every escape of a high surrogate is followed by that of a low one |
| JsonSyntax.LoneHighSurrogate | src/json.c:1440-1448 | a text that the grammar derives and the parser refuses |
| JsonSyntax.DocumentSound | src/json.c:1562-2099 | every accepted text is derived by the grammar, with paired surrogates, and its value is the meaning of the derivation |
| JsonSyntax.ParsedIffDerived | src/json.c:1562-2099 | a text is accepted with a value if and only if the grammar derives it with that value, its numbers are in range and its surrogates are paired |
| JsonSyntax.MeaningIsUnique | src/json.c:1562-2099 | no text means two things |
| JsonSound.NumberSound | src/json.c:1697-1865 | an accepted number obeys section 2.4 of RFC 4627 |
| JsonSound.PassSound | src/json.c:1411-1537 | what a pass over a string accepts is one character of section 2.5 of RFC 4627, or two escapes that are a surrogate pair |
| JsonComplete.ReadsNumber | src/json.c:1697-1865 | every number of section 2.4 of RFC 4627 is read to its end and with its value |
| JsonComplete.ReadsChar | src/json.c:1411-1537 | every character of section 2.5 of RFC 4627, but for an unpaired high surrogate, is read as one piece with its meaning |
| JsonUnpaired.RefusesString | src/json.c:1440-1464 | a string with an unpaired high surrogate is refused with one of the two errors for it |
| JsonUnpaired.RefusesValue | src/json.c:1440-1464 | so is every value with such a string in it, however deep |
| JsonLayout.Punctuation | src/json.c:1562-2056 | every byte with a meaning, as the character that it is |
| JsonLayout.ByteClasses | src/json.c:1284-1294 | white space is one of four characters and a digit one of ten |
| JsonLayout.HexDigits | src/json.c:1307-1325 | the value of a hexadecimal digit is its place among the 16, in either case; printed letters are capitals |
| JsonLayout.NoOtherHexDigits | src/json.c:1307-1325 | no other byte is a hexadecimal digit |
| JsonLayout.ShortEscapes | src/json.c:1357-1395 | which letter stands for which byte when it is read and when it is printed |
| JsonLayout.ControlBytes | src/json.c:2384-2399 | other control bytes are printed as four digits of their value |
| ConvLayout.JsonUtf8 | src/json.c:1475-1505 | the encoder in the JSON parser gives what the UTF-8 encoder of src/conv.c gives, for every code point |
| JsonLayout.SurrogatesAreUtf16 | src/json.c:1466-1470 | two surrogates are the code point that the same words are in UTF-16 |
| JsonLayout.Limits | src/json.c:1796-1829 | the limits of the integer types |
| JsonLayout.Decimals | src/json.c:1796-1829 | digits are read and printed with the first one counting most |
| JsonLayout.SampleIsRead | src/json.c:2058-2099 | a text with members, literals, numbers, escapes and a surrogate pair, and its value byte by byte |
| JsonLayout.LiteralErrors | src/json.c:1562-1644 | texts that are refused with the three errors for literals |
| JsonLayout.NumberErrors | src/json.c:1697-1794 | and with those for the parts of a number |
| JsonLayout.RangeError | src/json.c:1836-1853 | and with the one for a number out of range |
| JsonLayout.StringErrors | src/json.c:1500-1531 | and with those for characters of a string |
| JsonLayout.HexError | src/json.c:1327-1335 | and with the one for a digit |
| JsonLayout.MissingSurrogate | src/json.c:1440-1448 | and with the one for a missing low surrogate |
| JsonLayout.WrongSurrogate | src/json.c:1458-1464 | and with the one for something else in its place |
| JsonLayout.ArrayErrors | src/json.c:1893-1931 | and with the one for arrays, in both places where it occurs |
| JsonLayout.NameErrors | src/json.c:1968-1997 | and with those for the name of a member |
| JsonLayout.SeparatorError | src/json.c:2036-2048 | and with the one for what follows a member |
| JsonLayout.MissingValue | src/json.c:2010-2019 | and with the one for a member without a value |
| JsonLayout.DocumentErrors | src/json.c:2058-2099 | and with those for whole documents |
| JsonInSitu.HoldsLater | src/json.c:1408-1537 | what was decoded stays as long as later writes keep out of its interval |
| JsonInSitu.StringReadBack | src/json.c:1511-1519 | the C string functions read exactly the decoded text |
| JsonInSitu.ParseContext.SkipWhitespaces | src/json.c:1284-1294 | moves to where the function on values does, and writes nothing |
| JsonInSitu.ParseContext.ParseHex4 | src/json.c:1301-1342 | four digits or a failure, without reading past the terminator |
| JsonInSitu.ParseContext.Put | src/json.c:1475-1505 | decoded bytes are stored below the read position |
| JsonInSitu.ParseContext.ParseString | src/json.c:1353-1542 | the decoded string and its terminator stand in the buffer between where the string started and where it ended |
| JsonInSitu.ParseContext.ParseNumber | src/json.c:1697-1865 | the number of the text, and not a byte of the buffer changed |
| JsonInSitu.ParseContext.ParseValue | src/json.c:1562-1865 | the value of the text, with every string readable, and bytes changed only between its start and its end |
| JsonInSitu.ParseContext.ParseArray | src/json.c:1874-1939 | the elements of the text in order, earlier ones still readable after later ones are decoded |
| JsonInSitu.ParseContext.ParseObject | src/json.c:1949-2056 | the members of the text in order, names and values readable, duplicates kept |
| JsonInSitu.ParseDocument | src/json.c:2058-2099 | the result is that of the function on the text which the buffer had, and at the end every string and name can be read from the buffer; bytes from the terminator on stay; memory suffices if it grants as many blocks as the text has bytes |
| JsonText.DigitsOf | src/json.c:2508-2526 | digits without leading zeros |
| JsonText.PrintedIsNulFree | src/json.c:2336-2417 | printed text contains no terminator |
| JsonText.IntRoundTrip | src/json.c:2508-2526 | a printed integer is a number of the grammar and means the integer, of the signed type if it is negative |
| JsonText.ParseOfPrinted | src/json.c:2486-2539 | round trip: for every array or object without doubles and every combination of flags, parsing the printed text gives the value back, with the same integer types if and only if every integer of the signed type is negative |
| JsonLayout.PrintedArray | src/json.c:2427-2451 | an array of three elements, in one line or each on a line of its own |
| JsonLayout.PrintedObject | src/json.c:2453-2484 | an object of two members with that array in it, for every combination of flags |
| JsonLayout.PrintedEmpty | src/json.c:2427-2484 | what is empty has its brackets on two lines, or in one |
| JsonText.ZeroComesBackUnsigned | src/json.c:1796-1829 | a value that comes back with another type |
| JsonText.RereadIsSame | src/json.c:1796-1829 | what is read back is the same value if and only if it has no such integer |
| JsonPrinter.PrintContext.Flush | src/json.c:2160-2180 | what is buffered moves behind what has spilled, or printing has failed for good |
| JsonPrinter.PrintContext.PrintData | src/json.c:2185-2234 | the data are added to what is printed, whatever the size of the buffer, and a byte stays free |
| JsonPrinter.PrintContext.PrintFill | src/json.c:2236-2285 | as many copies of the byte are added |
| JsonPrinter.PrintContext.PrintChar | src/json.c:2287-2301 | one byte is added |
| JsonPrinter.PrintContext.Finish | src/json.c:2303-2320 | all that was printed, or nothing if any allocation was refused |
| JsonPrinter.PrintContext.PrintString | src/json.c:2336-2417 | the quoted and escaped string is added |
| JsonPrinter.PrintContext.PrintArray | src/json.c:2427-2451 | the text of the array is added |
| JsonPrinter.PrintContext.PrintObject | src/json.c:2453-2484 | the text of the object is added |
| JsonPrinter.PrintContext.Print | src/json.c:2486-2539 | the text of the value is added, whatever printf makes of the doubles in it |
| JsonPrinter.PrintDocument | src/json.c:2486-2539 | for every buffer size, the whole text or nothing, and a printed text parses back to the document but for the type of some integers |
| Crc32.TableIsDivision | src/crc32.c:3-69 | each word of the table is the reflected division of its index by the polynomial of section 8 of RFC 1952 |
| Crc32.Bit8Below | src/crc32.c:78-84 | where the low byte is clear, eight steps of the division only move the rest down |
| Crc32.StepIsDivision | src/crc32.c:78-84 | a look-up replaces eight steps of the division |
| Crc32.DivideConcat | src/crc32.c:71-86 | updating piece by piece is updating with the whole |
| Crc32.Crc32State.Update | src/crc32.c:71-86 | the digest is the bit-at-a-time division of the data, for every message |
| Crc32Values.CheckValue | tests/test_crc32.c:6-29 | the checksum of 123456789 is CBF43926 |
| Crc32Values.Residue | include/ndm/crc32.h:12-36 | whatever the message, the division of it and of its checksum, low-order byte first, leaves DEBB20E3 |
| TlvFormat.Align | src/tlv_table.c:36-43 | the next multiple of the alignment |
| TlvFormat.UpdatedActsAsMap | src/tlv_table.c:335-431 | setting a tag changes the value of that tag alone, and keeps tags distinct |
| TlvFormat.DeletedActsAsMap | src/tlv_table.c:433-481 | deleting a tag takes away that tag alone, and keeps tags distinct |
| TlvFormat.OthersKeepTheirOrder | src/tlv_table.c:335-481 | all entries but the one that is set or deleted keep their bytes and their order |
| TlvFormat.BodyIsAligned | src/tlv_table.c:23-25 | the entries of a table take up a multiple of the alignment |
| TlvFormat.EntriesOfBody | src/tlv_table.c:260-281 | what is laid out is read back |
| TlvFormat.BodyOfEntries | src/tlv_table.c:260-281 | what is read is what was laid out |
| TlvTable.Size32IsExact | src/tlv_table.c:36-43 | the 32-bit size is the real size if and only if the length is at most 0xFFFFFFF0; for which lengths it is 0 or 8 |
| TlvTable.GrowthIsExact | src/tlv_table.c:345-363 | within the limit the wrapped arithmetic refuses exactly the images that are too large |
| TlvTable.ExactUpToLimit | src/tlv_table.c:345-363 | it is exact on everything that a limit allows if and only if the limit is at most 0x7FFFFFF0 |
| TlvTable.GrowthFailsAboveLimit | src/tlv_table.c:345-363 | with any larger limit there is a table and a value for which it is not |
| TlvTable.WalkStandsStill | src/tlv_table.c:52-57 | the walk stands still at exactly the lengths from 0xFFFFFFF1 to 0xFFFFFFF8 |
| TlvTable.EndlessWalk | src/tlv_table.c:263-281 | a body of 8 bytes on which it does |
| TlvTable.FitsWithinLimit | src/tlv_table.c:335-431 | with a limit up to 0x7FFFFFF0 every call of the setter meets its precondition |
| TlvTable.MovedBack | src/tlv_table.c:382-387 | moving the tail back and storing the saved entry restores every byte |
| TlvTable.MovedUp | src/tlv_table.c:411-415 | opening a gap before the tail keeps everything that was there |
| TlvTable.EntryAt | src/tlv_table.c:52-57 | where an entry and its fields stand |
| TlvTable.WalkOn | src/tlv_table.c:119-125 | the walk comes from each entry to the next |
| TlvTable.Table.UpdateHeader | src/tlv_table.c:130-143 | the size field and a checksum over the image with a cleared field |
| TlvTable.Table.Find | src/tlv_table.c:110-128 | the start of the first entry with the tag, or the end of the image |
| TlvTable.Table.Get | src/tlv_table.c:483-500 | the value that the map gives to the tag, or nothing |
| TlvTable.Table.Shrink | src/tlv_table.c:365-394 | the image without the bytes that the entry loses, or after a refused allocation the same bytes as before |
| TlvTable.Table.Grow | src/tlv_table.c:396-419 | the image with a gap for the bytes that the entry gains, or unchanged |
| TlvTable.Table.WriteEntry | src/tlv_table.c:421-426 | length, value and zero padding are written, other bytes kept |
| TlvTable.Table.Replace | src/tlv_table.c:365-428 | one entry of the image is replaced or added and the header is current |
| TlvTable.Table.Set | src/tlv_table.c:335-431 | the table is updated as a finite map, or refused for a value or an image that is too large or for lack of memory, and then not a byte has changed |
| TlvTable.Table.Del | src/tlv_table.c:433-481 | the tag is deleted, or not found, or memory is lacking, and then not a byte has changed |
| TlvLayout.Sizes | src/tlv_table.c:9-43 | the sizes of the header and of the alignment, and the rounding of some lengths |
| TlvLayout.ImageLayout | src/tlv_table.c:9-34 | eight bytes of magic, the checksum of everything else, the size of the entries, each number with its most significant byte first, and the entries |
| TlvLayout.EntryLayout | src/tlv_table.c:9-34 | the tag and the length, each with its most significant byte first, the value, and zeros up to the next multiple of 8 |
| TlvLayout.OneEntry | src/tlv_table.c:9-34 | an entry byte by byte |
| TlvLayout.EmptyTable | src/tlv_table.c:191-204 | the image of an empty table byte by byte, with its checksum |
| TlvParse.TilingFindsEntries | src/tlv_table.c:263-281 | the first walk succeeds if and only if entries tile the body exactly |
| TlvParse.WalkIsTiling | src/tlv_table.c:263-281 | as long as no size wraps, the walk ends and finds what is there |
| TlvParse.WalkFindsEntries | src/tlv_table.c:263-281 | a walk that succeeds has seen entries that are there if and only if no size has wrapped |
| TlvParse.FalseEntry | src/tlv_table.c:263-281 | an entry of 8 bytes that the walk accepts and whose value is not there |
| TlvParse.NeverTooShort | src/tlv_table.c:266-270 | the error for an entry that is too short is never returned |
| TlvParse.ImageIsAccepted | src/tlv_table.c:206-303 | every image of a table, whatever follows it, is accepted with the same magic and limit and gives the same entries |
| TlvParse.TableIsAccepted | src/tlv_table.c:206-303 | in every state of a table, its image is accepted with the same magic and limit and yields the same map |
| TlvParse.AcceptedIsImage | src/tlv_table.c:206-303 | only images of tables are accepted |
| TlvParse.CheckTiling | src/tlv_table.c:260-281 | the walk with 32-bit sizes, whenever it ends |
| TlvParse.HasDuplicate | src/tlv_table.c:283-299 | a duplicate is found if and only if tags are not distinct |
| TlvParse.ChecksumOf | src/tlv_table.c:249-253 | two updates, over a copy of the header and over the entries, give the checksum of the whole |
| TlvParse.Create | src/tlv_table.c:145-189 | a table around a copy of the image, or an error for the limit or for memory |
| TlvParse.New | src/tlv_table.c:191-204 | an empty table, or an error |
| TlvParse.ParseImage | src/tlv_table.c:206-303 | the errors in their order, and otherwise a valid table with the entries of the image |
| CharsetMeaning.GuardIsExact | utils/convgen.c:646-711 | the guard of an arm is passed by exactly the codes from first to last |
| CharsetMeaning.IllegalIsFree | utils/convgen.c:425-445 | no line but one that is converted to 0xD800 is converted to the illegal code of its cluster |
| CharsetMeaning.NoHoles | utils/convgen.c:279-304 | a cluster without holes has a line for every code |
| CharsetMeaning.ArmIsRight | utils/convgen.c:713-779 | an arm answers every code that passes its guard with its line, or with an error if it has none |
| CharsetMeaning.ChainIsRight | utils/convgen.c:636-797 | codes that no earlier cluster has are answered by the rest of the chain |
| CharsetMeaning.EvalIsExpected | utils/convgen.c:500-803 | a code is converted as the charset says if and only if its line is not given up; otherwise the answer is an error |
| CharsetMeaning.CompilesTheMap | utils/convgen.c:500-803 | the whole charset is computed if and only if no line is given up |
| CharsetBlocks.RunOfLine | utils/convgen.c:223-229 | a line is in a run of 128 lines that stay as they are if and only if its range is large and equal |
| CharsetBlocks.TogetherInside | utils/convgen.c:353-403 | two lines are in one cluster of a decoder if and only if all lines between them are bound to the one before |
| CharsetBlocks.GivenUpIsLost | utils/convgen.c:425-445 | the lines that a decoder gives up can be told from the lines of the charset |
| CharsetBlocks.DecoderAnswers | utils/convgen.c:500-803 | a decoder answers every byte with the target of its line, unless there is none or it is lost |
| CharsetBlocks.DecoderIsRightIfNoneLost | utils/convgen.c:500-803 | a decoder computes its charset if and only if no line is lost |
| CharsetBlocks.SurrogateIsLost | utils/convgen.c:425-445 | a charset with a lost line |
| CharsetMeaning.NoneGivenUp | utils/convgen.c:500-803 | a charset in which no line is converted to 0xD800 is computed for every code |
| CharsetMeaning.EncodersAreRight | utils/convgen.c:500-803 | every compiled encoder computes its charset |
| CharsetMeaning.ThereAndBack | utils/convgen.c:931-962 | the decoder and the encoder of a charset are inverse to each other |
| CharsetInverse.BackIsLegal | utils/convgen.c:943-952 | exchanging and sorting the lines of a charset with distinct targets gives the lines of its encoder |
| CharsetInverse.InverseIffDistinct | utils/convgen.c:931-962 | the two functions are inverse to each other if and only if no two bytes have one target |
| CharsetMeaning.SurrogateIsGivenUp | utils/convgen.c:741-778 | a charset that is not computed |
| CharsetPolicy.HolesSpread | utils/convgen.c:279-304 | a hole makes the codes of a cluster reach further than its lines |
| CharsetPolicy.WhenStuck | utils/convgen.c:570-572 | the assertion on the illegal code fails for encoders only, and only with 256 lines on 257 codes |
| CharsetPolicy.StuckMeansNoneSpare | utils/convgen.c:570-572 | a stuck cluster of distinct targets means that no byte is spare among the lines |
| CharsetPolicy.NoneSpareIsStuck | utils/convgen.c:570-572 | if no byte is spare, all lines are in one cluster and it is stuck |
| CharsetPolicy.EncoderSticks | utils/convgen.c:570-572 | for distinct targets the assertion fails if and only if there are 256 lines from codes that reach over 257 and no run of 128 lines from successive codes to themselves |
| CharsetPolicy.FullLines | utils/convgen.c:353-448 | a legal encoder of that kind |
| CharsetPolicy.FullIsStuck | utils/convgen.c:570-572 | its cluster, which is stuck |
| CharsetCompiler.OnlyCluster | utils/convgen.c:649-655 | the assertion that such a cluster is the only one holds |
| CharsetCompiler.Generator.MakeRanges | utils/convgen.c:166-221 | all lines are cut into ranges that cannot be longer |
| CharsetCompiler.Generator.AppendRange | utils/convgen.c:166-221 | the longest range of consecutive codes of one kind, as narrow as its targets allow |
| CharsetCompiler.Generator.CanBeMerged | utils/convgen.c:306-351 | a range may join if the last one is no large equal one, the gap is small, and the table stays small or is wide |
| CharsetCompiler.Generator.JoinOne | utils/convgen.c:358-403 | the next range goes to the last cluster or to a new one, and no code is lost |
| CharsetCompiler.Generator.JoinRanges | utils/convgen.c:358-403 | the clusters take up all lines in order, and a range starts a cluster if and only if it is large and equal or may not join the one before it |
| CharsetCompiler.Generator.WidenRanges | utils/convgen.c:409-420 | the width of the widest range for all |
| CharsetCompiler.Generator.Widen | utils/convgen.c:405-423 | every cluster has one width |
| CharsetCompiler.Generator.FindHoles | utils/convgen.c:279-304 | whether a code between two ranges has no line |
| CharsetCompiler.Generator.FindIllegal8 | utils/convgen.c:231-277 | the lowest byte that is no target, or none if all are |
| CharsetCompiler.Generator.ChooseIllegal | utils/convgen.c:425-445 | an illegal code where there are holes, and nowhere else |
| CharsetCompiler.Generator.Merge | utils/convgen.c:353-448 | clusters with their widths and illegal codes that take up all lines |
| CharsetCompiler.Generator.EmitTable | utils/convgen.c:546-585 | a table with every target at its place and the illegal code at every other, if there is one |
| CharsetCompiler.Generator.GenerateTables | utils/convgen.c:500-592 | a table under its own name for each cluster that needs one |
| CharsetCompiler.Generator.GenerateBody | utils/convgen.c:594-803 | an arm for each cluster, and a last return unless one arm takes everything |
| CharsetCompiler.Generator.Generate | utils/convgen.c:805-898 | a program that belongs to the charset, for every decoder and for every encoder that is not stuck, which with distinct targets can be told from the lines; the encoder computes its charset, and the decoder all lines that are not lost |
| CharsetLayout.Codes | utils/convgen.c:425-445 | the codes that mean something else, and how many codes there are of each width |
| CharsetLayout.WhatIsStored | utils/convgen.c:713-779 | a decoder stores 32 bits of a code and an encoder 8 |
| CharsetLayout.WhatIsDone | utils/convgen.c:713-779 | a single line becomes a constant, 128 lines or more that stay as they are become no table, and everything else becomes one |
| CharsetLayout.WhereClustersEnd | utils/convgen.c:306-351 | up to 127 codes may be missing between two ranges of a cluster, and it spans up to 257 codes unless it is wide |
| CharsetLayout.SampleProgram | utils/convgen.c:805-898 | the whole program for a charset of two lines with a hole between them |
| ConvCodecs.DecodedSize | src/conv.c:205-218 | a decoded character is at least one byte of the input |
| ConvCodecs.DecodeMore | src/conv.c:205-218 | more input changes an answer only where there was too little |
| ConvCodecs.Utf8Sequence | src/conv.c:235-382 | the byte sequences that are accepted are those of section 4 of RFC 3629, with surrogates |
| ConvCodecs.Utf8Layout | src/conv.c:384-424 | the encoder lays out the digits of a code point as section 3 of RFC 3629 says |
| ConvCodecs.Utf8ThereAndBack | src/conv.c:235-424 | every code point is read back from its UTF-8 encoding, whatever follows |
| ConvCodecs.Utf8BackAndThere | src/conv.c:235-424 | there is one encoding only: the bytes that were read |
| ConvCodecs.Utf16ThereAndBack | src/conv.c:428-505 | every scalar value is read back from its UTF-16 encoding, in either byte order |
| ConvCodecs.DecodeOfEncode | src/conv.c:235-589 | a scalar value is read back from its encoding in any UTF |
| ConvCodecs.EncodeOfDecode | src/conv.c:235-589 | a scalar value is encoded as the bytes that it was read from |
| ConvLayout.Utf8Bytes | src/conv.c:384-424 | how many bytes UTF-8 takes, their ranges, and the code point as the sum of their bits, as in section 3 of RFC 3629 |
| ConvLayout.Utf16Units | src/conv.c:475-508 | one unit of 16 bits or a pair of surrogates, in either byte order, as in section 2.1 of RFC 2781 |
| ConvLayout.Utf32Bytes | src/conv.c:551-569 | the four bytes of a code point in either order |
| ConvLayout.OneCharacter | src/conv.c:384-589 | the bytes of U+1F600 in every UTF |
| ConvCodecs.IllegalOffset | src/conv.c:235-382 | the offset of an illegal sequence is that of the first byte that cannot stand there if and only if the sequence does not start with a byte from 80 to C1 |
| ConvLayout.OtherOffsets | src/conv.c:428-569 | the other decoders give the offset of the unit of 16 bits that is no low surrogate, or 0 |
| ConvCodecs.WrongOffset | src/conv.c:260-268 | a byte for which it is not |
| ConvCodecs.DecodesNoScalar | src/conv.c:205-218 | which decoders give a code that is no scalar value, and where |
| ConvCodecs.DecodesSurrogate | src/conv.c:205-218 | a UTF decoder gives a code that is no scalar value if and only if it is the one for UTF-8, at the bytes of a surrogate half |
| ConvCodecs.Utf8Surrogates | src/conv.c:294-328 | the UTF-8 decoder passes surrogates, and nothing else that is no scalar value |
| Conv.Convert | src/conv.c:1027-1144 | what is consumed, produced, replaced and returned, with every other byte of the output left alone |
| Conv.OutputIsMeaning | src/conv.c:1027-1144 | what is consumed decodes to characters whose encodings are exactly the output; the next character is not consumed and is what stops the call |
| Conv.Resuming | src/conv.c:1027-1144 | what a later call makes of the rest and of more input, behind what this call has done, is the result for the whole |
| Conv.CuttingDoesNotMatter | src/conv.c:1027-1144 | however the input is cut and however much room each call has, the output is that of the whole input |
| Conv.WhenAborted | src/conv.c:1027-1144 | for every encoding, the assertion on scalar values fails if and only if the call comes to the bytes of a surrogate half in UTF-8, or to a byte that a charset gives such a code |
| Conv.CharsetAborts | src/conv.c:1027-1144 | with a compiled charset, if and only if the call comes to a byte whose line has a surrogate half as its target and is not lost |
| Conv.SurrogateAborts | src/conv.c:1027-1144 | UTF-8 input on which it fails |
| Conv.CharsetSurrogateAborts | utils/convgen.c:1080-1100 | a charset, computed by its decoder, and a byte on which it fails |
| ConvLayout.TwoCharacters | src/conv.c:1027-1144 | a call that converts two characters to UTF-16 and has no room for a third |
| ConvLayout.OneReplaced | src/conv.c:1027-1144 | a call that replaces a character by a question mark and counts it |
| Conv.UtfIsFaithful | src/conv.c:235-589 | each UTF is faithful: it encodes what it decodes as it was |
| Conv.CharsetIsFaithful | utils/convgen.c:931-962 | so is a charset whose two compiled functions are right |
| Conv.TextThereAndBack | src/conv.c:1027-1144 | text converted to a UTF and back is the same, byte for byte |
| Md5Block.RoundFunctions | src/md5.c:26-29 | the functions of the code are those of section 3.4 of RFC 1321 |
| Md5Block.StepIsOperation | src/md5.c:31-32 | a line of the code is an operation of section 3.4 of RFC 1321 |
| Md5Block.FourSteps | src/md5.c:45-48 | four lines are four operations, one for each register |
| Md5Block.Transform | src/md5.c:34-117 | the unrolled rounds compute the block operation |
| Md5.FoldConcat | src/md5.c:167-173 | whole blocks can be taken one after the other |
| Md5.CountsMore | src/md5.c:139-145 | two 32-bit words with a carry count bits modulo 2 to the 64 |
| Md5.SplitCount | src/md5.c:147-147 | the counter tells how many bytes are pending |
| Md5.FillsBlock | src/md5.c:149-165 | pending bytes and the first new ones are one block of the message |
| Md5.LongPadding | src/md5.c:188-192 | padding that takes two blocks |
| Md5.ShortPadding | src/md5.c:193-195 | padding that takes one block |
| Md5.LastBlock | src/md5.c:197-202 | the last block completes the padded message |
| Md5Values.FirstBlock | src/md5.c:34-117 | 64 steps on a block of sixteen different words, one by one |
| Md5Values.SecondBlock | src/md5.c:34-117 | and 64 more on the block with the padding and the length |
| Md5Values.LengthBytes | src/md5.c:197-199 | the length at the end of the padding, its lowest byte first |
| Md5Values.TestVector | src/md5.c:119-206 | the digest of 62 letters and digits that section A.5 of RFC 1321 gives |
| Md5.Md5State.Update | src/md5.c:130-176 | counter, registers and pending bytes agree with the message so far, whatever the pieces |
| Md5.Md5State.Pad | src/md5.c:182-195 | the padding of section 3.1 of RFC 1321 |
| Md5.Md5State.Finish | src/md5.c:178-206 | the digest of sections 3.1 to 3.5 of RFC 1321 of the whole message, and a cleared state |
| Pool.AlignedIsEnough | src/pool.c:8-8 | a rounded size is large enough but for the last seven sizes, which are rounded to nothing |
| Pool.NeedIsEnough | src/pool.c:53-57 | a new block is large enough if and only if the size is none of the last fifteen |
| Pool.SomePieces | src/pool.c:38-72 | the rounding of some sizes, and what one piece takes from a block with room, from a new block, and from a block of its own |
| Pool.FitsWithoutHeap | src/pool.c:42-72 | pieces are taken without a block from the heap if and only if they fit into what is available |
| Pool.OthersStay | src/pool.c:95-132 | a text that is stored in one piece does not touch the others |
| Pool.Pool.constructor | src/pool.c:16-30 | a pool starts with its static block |
| Pool.Pool.Malloc | src/pool.c:32-78 | all pieces are disjoint, aligned and inside a live block, although the end of a block is taken from its nominal size; what is available and taken from the heap is counted exactly; a refused allocation makes the pool invalid |
| Pool.Pool.NewBlock | src/pool.c:50-74 | a block that has room for its link and the piece |
| Pool.Pool.Strdup | src/pool.c:95-107 | the string and its terminator can be read at its place until the pool is cleared |
| Pool.Pool.Strndup | src/pool.c:109-132 | so can the part of a string up to its terminator or a size |
| Pool.Pool.Clear | src/pool.c:134-152 | every block from the heap is freed once, the newest first, and the pool is as new |

## Left out

* Sockets, poll and their error numbers: a connection is a script of events, each a chunk, a
  timeout or a failure. Deadlines are the end of the script.
* Clocks: times are integers that do not go back. Memory: whether an allocation succeeds is a
  script, a budget or an argument.
* The reader on streams that no writer produces: a cursor that climbs above the topmost node ends
  in `Lost`, and nothing is said about what the code does then.
* Sibling and attribute lists: a document is an arena of cells, with children and attributes as
  sequences; the circular list of the cache is a sequence, too. Pointer surgery inside these
  lists is not modelled.
* The XML text parser and printer of `src/xml.c`, and its removal and navigation functions other
  than those that copying and the protocol need.
* JSON doubles: whether `strtod` accepts a number is an argument of the parser, and what printf
  makes of a double is one of the printer; a double is the text that it was read from.
* The JSON grammar takes bytes from 0x80 as they are: neither the parser nor the model checks that
  they are UTF-8. The escape of a lone low surrogate is accepted, as the grammar has it, and an
  escaped NUL ends the string for the C string functions.
* The JSON containers and their accessors; values are trees.
* Null and unaligned image pointers of TLV tables, and the functions that give offsets.
* `from_code_width` of the charset compiler, which only says how many digits are printed, the text
  of the generated C code, and allocation failures there.
* The loader of charset files and `qsort`; that source codes ascend is demanded of the lines that
  are compiled, so that nothing is said of the encoder of a charset in which two bytes have one
  target. That targets are distinct is demanded only where the condition for an abort is exact.
* The names of charsets and the handles of `ndm_conv_open`; the byte order of the host, which
  picks one of two codecs.
* `src/ip_checksum.c`, the remaining containers, and the modules of the library that only call
  the system.
* The order in which C evaluates the summands of `src/core.c:1342-1344`, which write to the buffer,
  and the two copies of strings at `src/xml.c:1655-1656` and `src/xml.c:2185-2186`: the model takes
  them from left to right.
* The sizes of structures on other machines than those with words of 8 bytes.
* The last message of a core, its time-outs, and requests without a node.
- Pool.Pool.Malloc: demands a size for which a new block is large enough, see `Pool.NeedIsEnough`.
- CoreRequest.Core.DoRequest: demands that a copy of a response takes as much memory as the response, without which the budget of the cache means nothing.
- CoreRequest.Core.Exchange: demands the same, and says nothing about the response when the core has not sent a message but other bytes.
- TlvTable.Table.Set: demands that no 32-bit number of the call overflows, which every limit up to 0x7FFFFFF0 implies (`TlvTable.FitsWithinLimit`).
- TlvTable.Table.Del: demands a buffer of no more than 0x7FFFFFFF bytes, since it negates a 32-bit size.
- TlvParse.ParseImage: does not model images whose size field wraps the size of the header or whose walk meets a length above 0xFFFFFFF0 when the header and the checksum are accepted: the code then reads behind the image, walks for ever, or keeps an entry that is not there.
