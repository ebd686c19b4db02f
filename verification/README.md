# Verified model of evilresp

evilresp is a proxy between Redis clients and servers that corrupts replies on
purpose, reproducibly. This project models its core in Dafny and proves what the
proxy promises about it.

- **Frames on the wire** (`Bytes`, `Unicode`, `Frames`, `WireFormat`, `Parser`,
  `ParserMachine`, `RoundTrip`, `Reader`, `ReaderMachine`, `Delimit`): the RESP printer, the
  recursive-descent parser with its cursor and depth, and the iterative stream
  reader with its stack of unread-child counts. They agree on where a frame ends
  and what it says.
- **Addresses and length faults** (`Paths`, `Headers`, `Draws`, `Reservoir`,
  `Framing`): the numbering of frames that three traversals share, the override
  of one length header, and its uniform and weighted selection.
- **Canonicalization** (`Sorting`, `Units`, `Canonical`, `NormalForm`, `Meaning`,
  `Canonicalizer`): a complete normal form for replies up to the order of unordered
  containers, what that order means command by command, and the loops that compute it.
- **Generation and value mutation** (`Generator`, `Scalars`, `Edits`, `Mutation`,
  `MutatedReplies`): bounded random frames, replacement of scalars, and the two
  editing traversals with their log.
- **Delivery** (`Transport`, `Delivery`): plans made of extra replies, cuts, chunk
  ends and faults, and their execution against a client writer that may misbehave
  at every call.
- **Protocols** (`Epochs`, `Transactions`, `Upstream`): the reset barrier, the
  MULTI/EXEC tracker against a server session, and the alignment of upstream
  requests and replies.
- **Clusters** (`Clusters`, `Redirections`, `Polynomials`, `Slots`): listener
  allocation, redirection tables, and CRC-16 key slots.

Every random choice is an arbitrary value within its range, so each statement
holds for all seeds; where a choice decides a selection, the draws are parameters. Bytes are integers below 256, line texts carry a UTF-8
predicate (RFC 3629, section 4), and the wire format is that of the Redis
serialization protocol specification, RESP2 and RESP3.

Code that works step by step is modelled step by step: the parser, the stream
reader, the header-counting printer, the canonicalizer, the editor, the sender, the
tracker and the upstream session are classes or loops, each proved against a specification
function about which the main results are then proved. The protocols are
transition systems whose runs interleave freely.

Five properties hold only under a condition, and the condition is proved exact:

- The reader rejects a bare LF after the first byte of a frame, and an empty
  inline line, where the parser accepts both; they agree exactly on clean lines
  (`Delimit.ReaderTakesParsedFrames`, `Delimit.BareLfIsRefused`,
  `Delimit.EmptyLineIsRefused`).
- A parsed encoding is the original frame exactly within 64 MiB and 128 levels,
  when every line text is free of CRLF and every inline command is made of words,
  the first of which begins like no other frame, or of one space
  (`RoundTrip.ParseUndoesEncode`, `RoundTrip.InlineMayBecomeAnother`).
- An overflow leaves an extreme double or big number only while violations are
  off: the malformed numbers are drawn first (`Scalars.OverflowIsExtremeExactly`,
  `Scalars.OverflowMayBeMalformed`).
- The tracked command names are the server queue exactly when every queued
  command was observed; in cluster mode CLUSTER SHARDS and CLUSTER NODES are
  forwarded without being observed (`Transactions.TrackerSimulatesTheServer`,
  `Transactions.UnobservedQueryIsMissed`).
- Listener allocation is online, so whether two entries conflict depends on their
  order (`Clusters.OrderMatters`); which lists of entries are accepted, and why one
  is refused, is characterized exactly (`Clusters.AllocationIsExact`,
  `Clusters.RefusalIsExact`).

## Model

| member | source | states |
|---|---|---|
| Bytes.DecimalRoundTrip | src/resp.rs:521-526 | Parsing the decimal text of a 64-bit integer gives the integer back. |
| Bytes.DecimalInjective | src/resp.rs:104-203 | Different integers print differently, so a rewritten length header is told apart from the original. |
| Bytes.TakeLine | src/resp.rs:537-550 | The text before the first CRLF, none exactly when there is no CRLF. |
| Bytes.TakeLineOfLine | src/resp.rs:206-210 | A line written with its CRLF is taken back whole, and what follows it is what is left. |
| Unicode.ValidUtf8IsExact | src/resp.rs:528-535 | Line texts are valid exactly when they are the UTF-8 encodings of sequences of Unicode scalar values. |
| ParserMachine.Machine.TakeLineBytes | src/resp.rs:537-550 | The cursor moves past the first CRLF and the line before it is returned; without one the call fails. |
| ParserMachine.Machine.TakeUtf8Line | src/resp.rs:528-535 | As above, with an error for text that is not UTF-8. |
| ParserMachine.Machine.TakeI64Line | src/resp.rs:521-526 | As above, with an error for text that is no 64-bit integer. |
| ParserMachine.Machine.TakeBlobBody | src/resp.rs:507-519 | A body of the announced length with its CRLF, or the error for a negative length, a truncated body or a wrong terminator. |
| ParserMachine.Machine.ParseFrame | src/resp.rs:366-376 | The recursive descent over `position` and `depth` returns what the parse specification says, advances by exactly the bytes of the frame, and restores the depth on every path. |
| ParserMachine.Machine.ParseFrameInner | src/resp.rs:378-424 | The dispatch on the first byte, inline commands included, refines the same specification. |
| ParserMachine.Machine.ParseBlobFrame | src/resp.rs:426-442 | Bulk strings, bulk errors and verbatim strings, with the null only where it is allowed. |
| ParserMachine.Machine.ParseAggregateFrame | src/resp.rs:444-484 | Arrays, sets, pushes, maps and attributes, with the child count checked against the remaining bytes. |
| ParserMachine.Machine.ReadFrames | src/resp.rs:486-493 | The loop over children collects exactly the frames of the specification, in order. |
| ParserMachine.ParseBytes | src/resp.rs:227-244 | The whole parser, with its size limit and the rejection of trailing bytes, computes the specification. |
| WireFormat.LineFrames | src/resp.rs:104-203 | Simple strings and errors, doubles, big numbers and integers: their first byte, their text, CRLF. |
| WireFormat.FixedFrames | src/resp.rs:104-203 | The null and the booleans, byte by byte. |
| WireFormat.NullFrames | src/resp.rs:104-203 | The null bulk string and the null array, byte by byte. |
| WireFormat.BlobFrames | src/resp.rs:104-203 | Bulk strings, bulk errors and verbatim strings: first byte, length, CRLF, body, CRLF. |
| WireFormat.ItemFrames | src/resp.rs:104-203 | Arrays, sets and pushes: first byte, number of items, CRLF, the items one after the other. |
| WireFormat.PairFrames | src/resp.rs:104-203 | Maps and attributes: first byte, number of pairs, CRLF, the pairs, each key before its value. |
| WireFormat.InlineFrames | src/resp.rs:193-201 | Inline commands: the parts with one space between two of them, CRLF. |
| WireFormat.InlineSplits | src/resp.rs:564-569 | An inline command is split at five bytes (tab, LF, form feed, CR, space) and at no other. |
| WireFormat.OtherLinesAreInline | src/resp.rs:378-424 | A line that begins with none of the fifteen first bytes is inline. |
| WireFormat.NumbersRead | src/resp.rs:521-526 | Signs and leading zeros are read in numbers; spaces, letters, double signs and empty digits are not. |
| RoundTrip.ParseEncoding | src/resp.rs:104-244 | Parsing an encoding followed by any bytes recovers the frame and stops where it ends, at every nesting within the limit, for printable nodes and for inline commands whose parts are kept. |
| RoundTrip.ParseUndoesEncode | src/resp.rs:227-244 | For every frame, parsing the encoding gives the frame back if and only if each node is printable or an inline command whose parts are kept (words, the first of which begins like no other frame, or one space), the encoding has at most 64 MiB and the frame at most 128 levels. |
| RoundTrip.InlineIsExact | src/resp.rs:413-424 | An inline command that its own encoding gives back has parts that are kept. |
| RoundTrip.InlineMayBecomeAnother | src/resp.rs:564-569 | The one part `+a` comes back as a simple string. |
| RoundTrip.InlineMaySplit | src/resp.rs:564-569 | The one part `a b` comes back as two. |
| RoundTrip.ParsedFrame | src/resp.rs:366-424 | What the parser returns is within the nesting limit, and printable wherever it is not an inline command. |
| RoundTrip.ParsedFramesArePrintable | src/resp.rs:227-244 | Every accepted input yields a frame of at most 128 levels whose nodes are printable or inline. |
| RoundTrip.EncodingIsPrefixFree | src/resp.rs:33-37 | Two encodings followed by anything are equal only for equal frames and equal rests: encoding is injective and no encoding is a proper prefix of another. |
| Reader.LimitedStep | src/resp.rs:246-318 | One turn of the stack loop keeps the meaning of the counts of unread children. |
| ReaderMachine.ReadLineRaw | src/resp.rs:320-344 | Takes up to the first LF within the byte limit; succeeds exactly on a CRLF line. |
| ReaderMachine.ReadBody | src/resp.rs:272-295 | Takes a body and its CRLF within the byte limit, and fails on any other terminator. |
| ReaderMachine.ReadHead | src/resp.rs:258-314 | The bytes before any child, and how many children follow, refused as soon as three bytes a child could not fit. |
| ReaderMachine.ReadRawFrame | src/resp.rs:246-318 | The iterative reader with its stack of counts takes from the stream exactly the recursive span of one frame, or fails. |
| Delimit.SpanIsLocal | src/resp.rs:246-318 | Where a frame ends depends on the bytes of the frame only. |
| Delimit.SpanIsParse | src/resp.rs:246-413 | Where the reader delimits, the parser stops at the same byte or objects to a scalar. |
| Delimit.ParseIsSpan | src/resp.rs:246-413 | Where the parser succeeds on clean lines, the reader delimits the same bytes, and on any other line it fails. |
| Delimit.ReaderOutputParses | src/resp.rs:246-353 | Whatever the reader returns is a prefix of the stream that the parser consumes whole; the only errors left are about scalar content. |
| Delimit.ReaderTakesParsedFrames | src/resp.rs:246-557 | The reader returns exactly a parseable input, whatever follows, if and only if no line holds a bare LF after its first byte and no inline line is empty. |
| Delimit.BareLfIsRefused | src/resp.rs:320-344 | A simple string with a bare LF, which the parser accepts and the reader refuses. |
| Delimit.EmptyLineIsRefused | src/resp.rs:320-344 | The empty inline line, which the parser accepts and the reader refuses. |
| Delimit.ReaderTakesEncodings | src/resp.rs:33-37 | Printer, parser and reader agree on a frame that the parser gives back, within the limits, if and only if no line text holds a LF. |
| Paths.VisitsAreAddresses | src/framing.rs:345-371 | The visit reports every frame once, in pre-order, at the path that leads to it, and every path of the tree. |
| Paths.PathTextInjective | src/framing.rs:345-371 | Printed paths such as `root.1.key.0` determine the frame they address. |
| Paths.RootText | src/framing.rs:345-371 | The root prints as `root`. |
| Paths.ItemText | src/framing.rs:352-356 | Item i of an array, set or push adds a dot and i. |
| Paths.EntryText | src/framing.rs:357-369 | The key of entry i of a map or an attribute adds a dot, i and `.key`, and its value a dot, i and `.value`. |
| Headers.FrameWriter.EncodeInto | src/resp.rs:104-203 | The printer with its running header index appends the encoding with one header overridden, and advances the index by the number of frames. |
| Headers.EncodeFrame | src/resp.rs:33-37 | The plain encoding is the same printer with no header overridden. |
| Headers.EncodeWithLength | src/resp.rs:41-54 | The override at an index writes the encoding of the specification. |
| Headers.EncodeWithOutside | src/resp.rs:41-54 | An index outside the tree changes nothing. |
| Headers.OverrideIsSurgical | src/resp.rs:41-70 | The override of the k-th visited frame replaces exactly its decimal length, between bytes that do not depend on the replacement; a frame without a length is left alone. |
| Headers.HeaderOfTheFrame | src/resp.rs:41-70 | The overridden header is that of the visited frame: the bytes before it end where the encoding of that frame begins, with its first byte. |
| Weights.SelectionIsExact | src/framing.rs:299-334 | The offsets that select each entry form an interval of its weight; the intervals partition the offsets below the total, and no offset beyond it selects anything. |
| Weights.SumFitsInU128 | src/evil.rs:238-244 | Weights of at most 2^64 summed over at most 2^63 frames stay below 2^128. |
| Weights.WeightBound | src/evil.rs:238-244 | A weight is at most 2^64 at any depth. |
| Weights.WeightDoubles | src/evil.rs:238-244 | The weight is one under ANY; under INNER it is one at the root, doubles at each level, and stays from the 64th on. |
| Weights.ScaledAway | src/evil.rs:249-263 | Scaling keeps zero, the deepest level and ANY as they are, and takes away a full probability elsewhere. |
| Reservoir.VectorsAreTheDraws | src/framing.rs:275-294 | The counted draw vectors are exactly those whose k-th draw is below k + 1. |
| Reservoir.ReservoirIsUniform | src/framing.rs:275-294 | Of the (n+1)! draw vectors for n + 1 candidates exactly n! end on each candidate. |
| Framing.ChooseDifferent | src/framing.rs:410-422 | A value of the list that differs from the original. |
| Framing.CorruptLength | src/framing.rs:373-408 | Each kind of corruption yields another number of its kind, and an overflow one that no 64-bit parser reads. |
| Framing.CandidatesAreExact | src/framing.rs:266-295 | The candidate list holds exactly the visited frames with a length header that the target admits, in order. |
| Framing.SelectUniform | src/framing.rs:266-295 | For every sequence of draws the loop leaves the candidate that survives them. |
| Framing.SelectionIsUniform | src/framing.rs:275-294 | Of the equally many vectors of draws, the same number chooses each candidate header. |
| Framing.PathTargetIsUnique | src/framing.rs:266-295 | A path target has at most one candidate, the frame that the path leads to if that frame has a length. |
| Framing.SelectWeighted | src/framing.rs:299-334 | The header whose interval holds the draw over the total weight; none exactly when that is zero. |
| Framing.HeaderWeightFitsInU128 | src/framing.rs:307-313 | The 128-bit total over all headers does not overflow below 2^63 frames. |
| Framing.HeaderAtOffset | src/framing.rs:313-334 | The second traversal finds that header by subtracting weights. |
| Framing.SelectHeader | src/framing.rs:266-334 | By weight for any header under INNER and by reservoir otherwise, as the draws say; the selected header is a candidate of the target, and none is reported only if there is no candidate. |
| Framing.TreeDepth | src/framing.rs:337-343 | The visit finds the nesting of the tree, its root not counted. |
| Framing.MutateLength | src/framing.rs:193-260 | A length fault rewrites one admitted header surgically, the one that the draws select; the automatic fault hits the root with the length plus one or the 64-bit maximum, and the bytes differ from the plain encoding unless the length is that maximum. It cannot happen at zero probability, and at full probability it fails to happen only when no header is admitted. |
| Framing.FaultHitsTheTarget | src/framing.rs:266-295 | A fault at a path target hits the frame that the path leads to, and that frame is a candidate whenever it has a length. |
| Framing.KeyTarget | src/framing.rs:357-369 | A fault at the target `<path>.<i>.key` hits the key of entry i. |
| Framing.ValueTarget | src/framing.rs:357-369 | A fault at the target `<path>.<i>.value` hits its value. |
| Sorting.SortIsSorted | src/evil.rs:974-979 | Sorting gives a sorted permutation. |
| Sorting.SortIsStable | src/evil.rs:981-991 | Entries with equal keys keep their order. |
| Sorting.BytesLeqIsLexicographic | src/evil.rs:1005-1007 | Encodings are ordered as byte strings: a prefix first, else by the first difference. |
| Sorting.SortedIsUnique | src/evil.rs:974-979 | Two sorted lists with the same keys have equal key sequences. |
| Units.SortUnitsBytes | src/evil.rs:946-972 | Sorted items or pairs spell the same bytes for every order of the same units. |
| Canonical.EquivReflexive | src/evil.rs:889-1007 | Equality up to the order of unordered containers is reflexive. |
| Canonical.EquivSymmetric | src/evil.rs:889-1007 | It is symmetric. |
| Canonical.EquivTransitive | src/evil.rs:889-1007 | It is transitive. |
| Canonical.EquivGivesBytes | src/evil.rs:889-1007 | Equivalent frames canonicalize to identical bytes, ill-formed ones included. |
| NormalForm.CanonIsNormalForm | src/evil.rs:889-1007 | Canonical bytes are equal for equivalent frames, a frame is equivalent to its canonical form, and canonicalizing twice changes nothing. |
| NormalForm.CanonIsComplete | src/evil.rs:889-1007 | On frames that their encodings give back, printable ones and kept inline commands, the canonical bytes are equal if and only if the frames are equivalent. |
| NormalForm.CanonIsPlain | src/evil.rs:889-1007 | The canonical form of a printable frame is printable, and that of a frame that its encoding gives back is given back too. |
| NormalForm.CanonReplyIsNormalForm | src/evil.rs:796-835 | The same three facts for a reply under each mode and command, with the top-level items or pairs of the listed commands unordered. |
| NormalForm.CanonReplyIsComplete | src/evil.rs:796-915 | On replies to a command that their encodings give back, the canonical bytes decide whether the replies mean the same. |
| NormalForm.CanonItemsAt | src/evil.rs:806-821 | Each item of a transaction reply is canonicalized under the command at its own position. |
| NormalForm.CanonTransactionIsComplete | src/evil.rs:806-821 | Two transaction replies, of items that their encodings give back, have equal canonical bytes if and only if they have as many items, which mean the same under their own commands. |
| NormalForm.CanonTransactionIsNormalForm | src/evil.rs:806-821 | Even for ill-formed replies: the same meaning gives the same bytes, a reply means the same as its canonical form, and canonicalizing again changes nothing. |
| Meaning.MapsMean | src/evil.rs:974-1003 | Maps and attributes are equivalent exactly when their pairs match, key with key and value with value, in some order. |
| Meaning.SetsMean | src/evil.rs:917-935 | Sets are equivalent exactly when their members match in some order. |
| Meaning.ArraysMean | src/evil.rs:889-935 | Arrays and pushes are equivalent exactly when they match item by item, or in some order when every container is unordered. |
| Meaning.OthersMean | src/evil.rs:889-935 | A scalar is equivalent to itself alone, and no container to one of another kind. |
| Meaning.CanonicalSetAscends | src/evil.rs:927-932 | The members of a canonical set ascend by their encodings. |
| Meaning.CanonicalMapAscends | src/evil.rs:993-1003 | The pairs of a canonical map ascend by the encodings of their keys, and by those of their values where these are equal. |
| Meaning.HashReplies | src/evil.rs:901-909 | Replies to HGETALL, in any letter case, have equal canonical bytes if and only if their pairs match in some order. |
| Meaning.ItemReplies | src/evil.rs:901-912 | Replies to HKEYS, HVALS, SDIFF, SINTER, SMEMBERS and SUNION, in any letter case, if and only if their items match in some order. |
| Meaning.OtherReplies | src/evil.rs:901-915 | Replies to any other command, and replies that are not both arrays, if and only if they are equivalent. |
| Meaning.PairRowMeans | src/evil.rs:946-972 | A row of pairs matches when the pairs do in some order and an odd last item does in its place. |
| Meaning.ItemRowMeans | src/evil.rs:937-944 | A row of items matches when the items do in some order. |
| Canonicalizer.CanonicalizeItems | src/evil.rs:974-979 | The loop overwrites every item of the container by its canonical form. |
| Canonicalizer.Canonicalize | src/evil.rs:889-935 | The canonicalizer as it runs, for both scopes, computes the normal form of the specification. |
| Canonicalizer.SortPairs | src/evil.rs:946-972 | Cutting a row into pairs, sorting them by key and value bytes and writing them back with the odd last item gives the sorted row of the specification. |
| Canonicalizer.CanonicalizeReply | src/evil.rs:796-835 | The whole canonicalization of a reply, by mode and command, computes the normal form of the specification. |
| Canonicalizer.CanonicalizeTransactionReply | src/evil.rs:806-821 | The loop over items and commands gives each item the canonical form under its own command and leaves the rest. |
| Generator.RandomInteger | src/generator.rs:299-305 | A 64-bit integer for every draw. |
| Generator.RandomLine | src/generator.rs:307-324 | Printable ASCII, so never a CR or LF. |
| Generator.RandomBlob | src/generator.rs:326-338 | At most 4097 bytes. |
| Generator.RandomDouble | src/generator.rs:340-354 | The text that the draws give, a malformed one first when violations are on, then one of the list under overflow or at the boundary; otherwise printable text. |
| Generator.RandomBigNumber | src/generator.rs:356-366 | The text that the draws give, a malformed one first when violations are on, then one of the list under overflow or at the boundary; otherwise a 128-bit magnitude with an optional minus. |
| Generator.BigNumbersSpelled | src/generator.rs:44-54 | The corpus of big numbers, number by number. |
| Generator.RandomBulkError | src/generator.rs:368-373 | At most 4097 bytes with the prefix counted. |
| Generator.RandomVerbatim | src/generator.rs:375-383 | At most 4097 bytes, with the format prefix unless violations are on. |
| Generator.Violation | src/generator.rs:385-405 | Even a violation is printable and within the bounds of its depth. |
| Generator.FrameAtDepth | src/generator.rs:193-235 | For all draws: nesting, node counts, item counts and blob sizes within bounds, set members and map keys distinct, and only the kinds of the chosen protocol unless violations are on. |
| Generator.RandomFrame | src/generator.rs:189-191 | A whole generated frame has at most 3 levels and 41 nodes. |
| Generator.GeneratedIsSmall | src/generator.rs:9-11 | In numbers: at most 3 levels, 41 frames, 4 items or pairs, 4097 bytes in a blob; distinct members and keys; the kinds of RESP2 or of RESP3 unless violations are on. |
| Generator.BuildSet | src/generator.rs:274-287 | The members of a set are pairwise distinct, and the replacement of duplicates terminates because fewer colliding integers remain each time. |
| Generator.BuildEntries | src/generator.rs:259-273 | The keys of a map are pairwise distinct, and its values are generated one level deeper. |
| Scalars.MakeDifferent | src/generator.rs:528-537 | The result differs from the current bytes, keeps the format prefix and grows by at most one byte. |
| Scalars.DifferentNumber | src/generator.rs:508-516 | A printable text that differs from the current one: the new one, or 0 or 1 when the two are equal. |
| Scalars.OverflowText | src/generator.rs:518-526 | One of the two extremes, and not the current text. |
| Scalars.DifferentInteger | src/generator.rs:414-427 | Another 64-bit integer; under overflow one of the two extremes. |
| Scalars.MutateScalar | src/generator.rs:407-490 | A different scalar of the same constructor, printable unless it is inline. Under overflow its value is an extreme; a double or a big number is the listed text that the draws give, or 0 or 1 when that is the current one, and malformed only when violations are on. |
| Scalars.OverflowIsExtremeExactly | src/generator.rs:340-366 | Under overflow every draw leaves an extreme double and an extreme big number over every current text, if and only if violations are off. |
| Scalars.OverflowMayBeMalformed | src/generator.rs:340-366 | With violations on, concrete draws leave the malformed `1e` and `12x` under overflow. |
| Scalars.MalformedIsNoExtreme | src/generator.rs:340-366 | The malformed double `1e` is no extreme. |
| Edits.ChangesAreReal | src/mutation.rs:227-291 | Each log entry names a path of both trees, with what was there before and what is there now. |
| Edits.OutsideIsUnchanged | src/mutation.rs:227-291 | A path below no logged one is in both trees or in neither, with the same node and as many children. |
| Edits.LogFramesTheEdit | src/mutation.rs:227-291 | The log of an edit: pre-order, no entry below another, each entry true, and everything else unchanged. |
| Edits.EditKeepsEvery | src/mutation.rs:227-291 | A property of single nodes that each change keeps holds of the whole edited tree. |
| Edits.EditBoundsDepth | src/mutation.rs:227-291 | Changes that add at most so many levels to their subtrees add at most as many to the tree. |
| Edits.PutIsAnEdit | src/mutation.rs:161-225 | Replacing one subtree is the edit whose log is that one change. |
| Mutation.MutateOne | src/mutation.rs:297-338 | An eligible frame becomes a different one: an extreme, a different scalar of the same kind, or a generated frame, as mode and strategy say. |
| Mutation.Eligible | src/mutation.rs:83-99 | The frames that mutation may change, kind by kind: all under REPLACE, else scalars with a value, and flags and inline commands under MUTATE only. |
| Mutation.EligibleWeight | src/mutation.rs:118-128 | The summing traversal computes the total of the weights of the eligible frames over the visit order. |
| Mutation.EligibleWeightFitsInU128 | src/mutation.rs:118-128 | The total fits in 128 bits for every reply of at most 2^63 frames. |
| Mutation.EligibleMaxDepth | src/mutation.rs:131-141 | The deepest level that holds an eligible frame, none exactly when nothing is eligible. |
| Mutation.SelectWeight | src/mutation.rs:145-159 | The draw over the total weight, below it; none exactly when the total is zero. |
| Mutation.Editor.MutateSelected | src/mutation.rs:161-225 | Succeeds if and only if the offset is below the total weight, and then changes exactly the frame whose interval holds the offset and logs that one path; otherwise tree and log stay and the total is subtracted. |
| Mutation.Editor.MutateFrame | src/mutation.rs:227-291 | The result is an edit of the tree in which each replaced frame was eligible and really changed, and the log is extended by the log of that edit. At zero probability nothing changes; every eligible frame whose scaled probability is full is changed or lies below a changed one. |
| Mutation.Editor.MutateChildren | src/mutation.rs:253-290 | The same for the loop over the children of one frame. |
| MutatedReplies.SureAreReached | src/mutation.rs:58-69 | At full probability MANY reaches every eligible frame under ANY, and the deepest ones under INNER. |
| MutatedReplies.KindsReached | src/mutation.rs:83-99 | At full probability MANY logs a path at or above every scalar with a value, every flag and inline command under MUTATE, and every frame under REPLACE. |
| MutatedReplies.NothingElseLogged | src/mutation.rs:83-99 | Without REPLACE nothing else is ever logged. |
| MutatedReplies.NoKindLeft | src/mutation.rs:83-99 | Where ONE at full probability changes nothing, the reply holds none of these. |
| MutatedReplies.NoWeight | src/mutation.rs:145-159 | A total weight of zero means that no frame is eligible. |
| MutatedReplies.OutcomeIsWellFormed | src/mutation.rs:297-338 | Whatever replaces a frame is printable if the frame was, and adds at most two levels, none under PRESERVE or OVERFLOW. |
| MutatedReplies.LoggedMutationShows | src/mutation.rs:297-338 | As soon as anything is logged, the tree differs, and so do the bytes of a printable reply. |
| MutatedReplies.MutatedRepliesParse | src/mutation.rs:16-81 | Without a length fault the emitted bytes parse to exactly the mutated tree if and only if they are within 64 MiB, for every reply that leaves room for a generated frame (126 levels under REPLACE, 128 otherwise). |
| MutatedReplies.PreserveKeepsShape | src/mutation.rs:83-99 | Under PRESERVE both trees have the same paths, with the same constructor and number of children at each. |
| MutatedReplies.MutateSelection | src/mutation.rs:39-54 | ONE makes at most one change, at the frame whose interval holds the draw over the total weight, none at zero probability, and none at full probability only if nothing is eligible. |
| MutatedReplies.LengthFault | src/mutation.rs:30-37 | A length fault of the settings: a configured one at the header that the draws select and of the kind asked for, an automatic one at the root with the length plus one, or the 64-bit maximum under OVERFLOW; at full probability it fails only on a tree that admits none, at zero probability always. |
| MutatedReplies.MutateReply | src/mutation.rs:16-81 | The reply for every mode: the encoding of an edited tree with its log, or a length fault in it, at the header that the draws select. ONE spends its single slot on a configured length fault first, in the reply itself, then on the frame that the draw selects; MANY applies its fault to the edited tree. At full probability the fault fails only if that tree admits none, and what can be mutated is. |
| Transport.ParseChunkList | src/transport.rs:98-115 | A chunk list is accepted exactly when it has at most 64 positive, strictly increasing offsets. |
| Transport.Updated | src/transport.rs:61-155 | A rejected update changes nothing; an accepted one shows every setting it was given and keeps what none of them names, each option at most once and never a fault with a cut; TRANSPORT OFF gives the defaults; reachable configurations stay reachable. |
| Transport.AcceptedValues | src/transport.rs:61-155 | The values that each option accepts, in numbers, and that the two forms of CHUNKS are one option. |
| Transport.PlanFault | src/connection_fault.rs:103-142 | A fault is the configured one, at the point of the reply that the settings name, never at zero probability, and at full probability unless its offset lies beyond the reply. |
| Transport.RandomOffsets | src/transport.rs:265-274 | Random boundaries are positive, strictly increasing, at most 64, below the length, and at least one. |
| Transport.DeliveryPlan | src/transport.rs:230-282 | The plan before any connection fault: chunk ends are the boundaries below the wire length and the wire length itself; cut, extra replies and boundaries are those of the settings, random boundaries included, or else the plan is plain; at full probability they are always those of the settings. |
| Transport.SetFault | src/transport.rs:324-331 | A fault keeps the boundaries below its offset and ends the plan there. |
| Transport.PlanDelivery | src/transport.rs:200-228 | From every reachable configuration, for all draws and lengths: chunk ends positive, strictly increasing, at most 65 and ending at the wire length, empty exactly when nothing is sent, and never both a cut and a fault; cut, extra replies, boundaries and fault are those of the settings, present at full probability and absent at zero. |
| Transport.BeforePlan | src/transport.rs:161-174 | A fault before the command sends nothing, whatever the reply would have been. |
| Transport.WireBytes | src/transport.rs:340-351 | The bytes sent are a prefix of the response followed by the extra replies, of exactly the planned length. |
| Delivery.Sender.WriteCounted | src/transport.rs:370-396 | Whatever the writer does, the counter, the fingerprints and the accepted bytes advance together, each call offers the rest of the chunk, and success means the whole chunk. |
| Delivery.Sender.SendChunks | src/transport.rs:414-429 | Chunk after chunk, with a flush at each end; the failing stage and the number of completed chunks are exact. |
| Delivery.Sender.Deliver | src/transport.rs:398-445 | Accepted, fingerprinted and reported bytes are the same prefix of the plan; no call crosses a chunk end; completed chunks are those written and flushed; success means everything was sent, with a shutdown exactly when the plan truncates. |
| Delivery.Respond | src/proxy.rs:548-604 | Planning, cutting and delivering together, for every reachable configuration, draw and client behaviour: the plan is the one of the settings, and the accepted and fingerprinted bytes, the completed chunks, the failing stage, the flushes and the write calls are those of the plan. |
| Epochs.InvStep | src/proxy.rs:367-383 | The invariant of the reset protocol is kept by every step of every connection. |
| Epochs.IndexesAreExact | src/proxy.rs:367-383 | In every reachable state the indexes handed out under an epoch are 0 to n-1, each once and in order, each to a connection of that epoch; outside a reset the counter is their number. |
| Epochs.StaleGetsNothing | src/proxy.rs:247-253 | A connection left behind by a reset stays stale and gets no index in any interleaving, unless it performs a reset of its own. |
| Epochs.NewConnectionIsServed | src/proxy.rs:182-195 | Whenever no reset holds the barrier, a new connection can be accepted under the epoch of that moment and get the next index. |
| Epochs.ResetGoesThrough | src/proxy.rs:815-819 | Whenever the barrier is free, a current connection can reset: the epoch goes up by one, the counter starts again, and the connection is current. |
| Epochs.OthersAreClosed | src/proxy.rs:247-253 | The next check or recheck of a stale connection closes it without an index. |
| Epochs.StepsRefineTheService | src/proxy.rs:815-819 | Every step is one atomic reset, one atomic allocation of the next index to a current connection, or invisible. |
| Transactions.TransactionCommands.Observe | src/transaction.rs:12-37 | The tracker after one exchange, and the list it hands out. |
| Transactions.ObservedSpelled | src/transaction.rs:12-37 | What the tracker goes by, byte by byte: MULTI and DISCARD with `+OK`, EXEC with an array, a null or `-EXECABORT `, `+QUEUED` with any other command. |
| Transactions.TracksStep | src/transaction.rs:12-37 | Every exchange, lost session or unobserved cluster query keeps the tracker at the observed part of the server queue. |
| Transactions.TrackerSimulatesTheServer | src/transaction.rs:12-37 | Over every run, in a transaction the tracked names are the server queue if and only if every queued command was observed. |
| Transactions.UnobservedQueryIsMissed | src/proxy.rs:338-365 | A concrete run in which they differ: MULTI, then CLUSTER NODES in cluster mode. |
| Transactions.ExecReturnsTheQueue | src/transaction.rs:23-28 | EXEC hands out the queue that the server ran or aborted, a list comes back only then or for an abort outside a transaction, and an EXEC that fails otherwise, as a redirected one does, hands out none. |
| Transactions.ItemsMeetTheirCommands | src/proxy.rs:509-520 | Each item of the EXEC reply is canonicalized under the command that the server queued for it. |
| Transactions.IdentificationIsOutsideTransactions | src/upstream_identity.rs:79-109 | The proxy identifies itself again only when the server is in no transaction, so its commands are never queued. |
| Upstream.Identity.WritePending | src/upstream_identity.rs:45-50 | The commands of the pending slots are written in order, and no others. |
| Upstream.Identity.ReadAnswers | src/upstream_identity.rs:51-73 | One reply is read for each pending slot, and exactly the slots whose own reply was accepted are cleared. |
| Upstream.AnswersSpelled | src/upstream_identity.rs:56-72 | An identification command is accepted by the simple string `OK`, rejected by an error of either form, and failed by anything else. |
| Upstream.Identity.Apply | src/upstream_identity.rs:35-75 | It fails exactly by a fault of the upstream; on success as many replies were read as commands written, and exactly the slots whose own reply was accepted are cleared. |
| Upstream.Identity.RetryAfter | src/upstream_identity.rs:79-109 | Another identification follows exactly an accepted AUTH or HELLO with something pending; a HELLO that sets a name clears that slot alone. |
| Upstream.LoginsSpelled | src/upstream_identity.rs:79-109 | What counts as an accepted AUTH or HELLO, and where HELLO sets the name: after the protocol, or after the user and password of AUTH. |
| Upstream.Session.Exchange | src/upstream_connection.rs:44-56 | The command is written once, answered by the reply at its position, which comes back exactly if the upstream had no fault; identification follows exactly when it is due, and nothing else is written. |
| Upstream.UpstreamConnection.constructor | src/upstream_connection.rs:66-80 | A new connection has no session, exactly by a fault of the upstream, or one with no reply outstanding, and no client command was written. |
| Upstream.UpstreamConnection.Exchange | src/upstream_connection.rs:82-117 | The history of everything written to the upstream grows by this command at most once and by no other client command, on whatever session; a reply comes back exactly if the upstream had no fault, and answers that very command; a failure leaves no session; a session that is kept has no reply outstanding. |
| Upstream.Connect | src/upstream_connection.rs:24-42 | A session that could not identify is not kept, one is lost only by a fault, and connecting writes no client command. |
| Upstream.Serve | src/proxy.rs:446-466 | Over every run of failures and reconnections, the client commands in the history of writes are each there at most once and in order, each reply relayed answers its command, and the upstream has a fault for each command lost and for at most one connection besides. |
| Clusters.MapClusterSlots | src/cluster.rs:232-320 | Refuses port zero; otherwise the allocation pass is the fold of the specification, with the same refusal, and the second pass finds and writes the local address of every node. Primaries take the configured port and those after it in order of first appearance, no other listener has a port among theirs, and replicas go on from there, range by range. |
| Clusters.ListenersAreComponents | src/cluster.rs:247-305 | Two entries share a listener if and only if a chain of equal addresses or equal IDs links them, and so no listener has two IDs. |
| Clusters.PortsAreGapless | src/cluster.rs:282-306 | Ports are consecutive from the configured one and fit in 16 bits; listeners are numbered by the first entry of their component. |
| Clusters.ListenersAreOpeners | src/cluster.rs:282-306 | One listener is opened for each entry that no earlier one touches. |
| Clusters.SplitIsExact | src/cluster.rs:252-265 | The first conflict is reported exactly when an entry names two components that already have listeners. |
| Clusters.ClashIsExact | src/cluster.rs:266-280 | The second conflict is reported exactly when the component that the entry joins has another ID. |
| Clusters.AllocationIsExact | src/cluster.rs:247-305 | The allocation succeeds if and only if no entry joins two components or brings a second ID to one, and there is a port for each entry that no earlier one touches. |
| Clusters.RefusalIsExact | src/cluster.rs:252-293 | A refusal is the verdict on the first entry that makes the list unacceptable, and is a split, a second ID or a port overflow; from a port that is not zero the ports run out before the count of listeners does. |
| Clusters.OrderMatters | src/cluster.rs:247-305 | The same three entries are refused in one order and share one listener in another. |
| Redirections.FromSlotRanges | src/cluster.rs:80-128 | By address and by ID the last mapping counts; by port only what all mappings agree on. |
| Redirections.RedirectsReachTheirNode | src/cluster.rs:130-153 | A redirection to a known node, by address or by ID, is rewritten to the listener of that node. |
| Redirections.UnknownHostsGoByPort | src/cluster.rs:140-153 | An unknown host is rewritten by its port if and only if the nodes with that port agree. |
| Redirections.PartialRedirections | src/cluster.rs:130-153 | A redirection of which only the port can be read goes by the port, an unreadable one is left alone, and an unknown ID leaves the decision to the address. |
| Redirections.FromSlots | src/topology_evil.rs:242-283 | Primaries, all nodes and replicas of the slot without duplicates, and the owner in the last range that holds the slot. |
| Redirections.OwnerIsTheLast | src/topology_evil.rs:242-283 | The owner of a slot is the readable primary of the last range that holds the slot. |
| Redirections.ReplicasAreTheirs | src/topology_evil.rs:242-283 | Its replicas are the readable ones of all ranges with a readable primary that hold the slot. |
| Redirections.NodesAreTheirs | src/topology_evil.rs:242-283 | A node is listed exactly if it is the primary, or a replica, of a range whose primary is readable. |
| Redirections.DistinctInOrder | src/topology_evil.rs:242-283 | The lists are in order of first appearance. |
| Slots.StepIsCongruent | src/topology_evil.rs:534-540 | One shift of the register multiplies by x modulo x^16 + x^12 + x^5 + 1. |
| Slots.Crc16 | src/topology_evil.rs:530-543 | The byte and bit loops compute the register of the specification. |
| Slots.CrcIsTheRemainder | src/topology_evil.rs:530-543 | The register is the one remainder of degree below 16 of the message times x^16. |
| Slots.CrcIsLinear | src/topology_evil.rs:530-543 | On messages of equal length the checksum of a bitwise sum is the sum of the checksums. |
| Slots.CrcOfConcatenation | src/topology_evil.rs:530-543 | The checksum of a concatenation follows from the two checksums and the length of the second part. |
| Slots.KeyTagIsTheHashTag | src/topology_evil.rs:514-528 | The computed tag is the hash tag of the Redis Cluster Specification, section "Hash tags", and the whole key exactly when there is none. |
| Slots.RedisSlot | src/topology_evil.rs:510-512 | A slot is in 0 to 16383. |
| Slots.EqualTagsShareASlot | src/topology_evil.rs:510-530 | Keys with the same hash tag have the same slot, that of the tag: its checksum modulo 16384. |
| Slots.UntaggedKeyIsHashedWhole | src/topology_evil.rs:510-530 | The slot of a key without a hash tag is the checksum of the whole key modulo 16384. |
| Slots.NoBraceNoTag | src/topology_evil.rs:514-517 | So is the slot of every key without an opening brace. |
| Slots.WrongValidSlot | src/topology_evil.rs:416-422 | A slot in range that is not the current one. |

## Left out

- Sockets, scheduling, listeners, timeouts and stalls, logging, statistics, command-line handling, repro records and MONITOR: input and output around the modelled core.
- ChaCha20, SHA-256, BLAKE3 and TLSH: draws are arbitrary in range, and fingerprints are the bytes hashed so far.
- Probabilities between zero and full: the coin is then arbitrary; it is decided at zero and at full probability, and scaling by depth keeps a full probability only at the deepest level.
- The text of DEBUG commands, of STATUS and of HELP; option values reach the model parsed, or marked as not parsing. Target paths are compared as text and not parsed.
- Editing frames in place: a frame is a value, so the editor rebuilds what the program overwrites through a reference, and the children of a map are visited as one alternating list of keys and values. The stable sort of the standard library is the function `Sorting.Sort`.
- Lossy decoding of UTF-8 in command names and hosts, and the printing of random doubles, which is any printable text of their characters.
- The wrap-around of the 64-bit epoch, command and connection counters.
- The mutation kind and length details of the repro log: log entries carry the path with the frame before and after instead.
- Edits of EXEC replies, rewriting of CLUSTER SHARDS and CLUSTER NODES replies, and topology faults beyond the choice of a slot and of nodes: they would add only easier members.
- Parsing of addresses and of CLUSTER SLOTS replies: an address is its text with a port, and a node that does not parse is marked so.
- Out-of-band push frames of the upstream: `Upstream` takes each message to have one reply, in order.
- Upstream.Link.Write: a failed write may have reached the server in part; the history counts it as written.
- Epochs.Next: only the steps that touch the epoch, the counter or the barrier are modelled; everything else a connection does happens between them.
- Quoted inline commands: the proxy splits an inline command at whitespace only, where a server also reads quotes; tracker and server are taken to read the same arguments.
- Transactions.Answers: the server is a model of one Redis session, with every reply that it may give to a command, not a model of its data.
