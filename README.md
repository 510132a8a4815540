# slzw: an LZW codec in Java, Python and C, modelled in Dafny

The repository implements one LZW compressor and decompressor three times:
a Java package (`java/codec`), a Python package (`python`) and a single C
file (`slzw.c`). All three share one design:

- **The dictionary.** It holds up to 4096 entries. Entry `a`, from 0x100
  on, is a pair (pointer, byte) naming the string of `pointer` followed by
  `byte`. The codewords below 0x100 are the single bytes.
- **Compressing.** The compressor extends the current string while the
  dictionary holds the extension. Otherwise it emits the string's codeword
  and builds the extension into the next free entry.
- **Codeword widths.** Codewords are 9 to 12 bits wide. The width grows as
  the dictionary fills.
- **The full dictionary.** A build at a full dictionary resets it.
- **The packer.** It ORs each codeword into a barrel shifter, least
  significant bit first, and writes whole bytes. The unpacker reverses
  this.
- **Decompressing.** The decompressor rebuilds the same dictionary one
  build behind. It outputs each codeword's string by walking the pointer
  chain onto a stack and popping it. This includes the KwK case: a
  codeword the decompressor has not built yet is the previous string
  followed by that string's first byte.

The model has two layers.

**The specification layer** is pure functions and lemmas:
- `LzTable`: the dictionary as a value, with its build, match and width
  rules.
- `Packing`: the packer and unpacker as functions of their barrel state.
- `Lzw`: the compressor step and loop, the linked-list walk, and the
  decompressor step and loop. These are parameterised by the variant
  (`Java`, `Python`, `C`) and by what a build at a full dictionary does
  (`ResetThenWrite` or `ResetOnly`).
- `RoundTrip`: proves that decompressing the compressed bytes gives the
  input back.
- `Findings`: the places where the code as written does not.

**The implementation layer** is one module per source file. Each keeps the
source's classes, fields and loops, and proves every method against the
specification layer:
- **Java:** `JavaDict`, `JavaPacker`, `JavaUnpacker`, `JavaIntRef`,
  `JavaComp`, `JavaDecomp`.
- **Python:** `PyDictionary`, `PyStack`, `PyPacker`, `PyUnpacker`,
  `PyCompress`, `PyDecompress`.
- **C:** `Slzw`. The static variables of `slzw.c` are the fields of one
  object, and its `FILE` streams are `File` objects.

Each compress method writes exactly `Lzw.Compress` of its input. Each
decompress method writes exactly the output of `Lzw.DecodeFrom` and ends
as it does. The round-trip theorem `RoundTrip.CodecRoundTrip` therefore
applies to the classes, within its hypotheses: for C on every non-empty
input; for the Java and Python classes, which use the reset-then-write
build, only on inputs of at most 3841 bytes (inputs that never fill the
dictionary); and for Java only because `JavaDict` indexes the indirection
table with the unsigned byte, so that on a byte from 0x80 after the first
Java as written throws instead (`Findings.JavaCompress`).

## Model

| member | source | states |
|---|---|---|
| LzTable.Match | java/codec/Dict.java:89-106 | entry_match finds only a live entry holding exactly (pointer, byte), and reports no match exactly when the indirection table's candidate address is not such an entry |
| LzTable.MatchFindsLive | slzw.c:41-54 | while the indirection table points every live entry back at its address, entry_match finds every string the dictionary holds |
| LzTable.BuildKeepsIndex | slzw.c:70-71 | a compressing build of a string not yet in the dictionary keeps the indirection table covering every live entry, under either reset policy |
| LzTable.NextWidth | java/codec/Dict.java:138-146 | the width stays within 9..12 and only grows by one, or drops back to 9 for a decompressor at the last address |
| LzTable.Write | java/codec/Dict.java:124-149 | a build below a full dictionary stores (pointer, byte) at the next free address, changes no other entry, and advances the next free address by one |
| LzTable.Shl1 | java/codec/Dict.java:139 | `1 << n` is 2^n for every width the dictionary holds |
| LzTable.BuildKeepsWidth | java/codec/Dict.java:118-152 | after any build, in either mode and under either policy, the width is the closed form for the next free address; it also gives that next free address |
| LzTable.WidthLockstep | python/Dictionary.py:88-106 | width lockstep: while the decompressor's next free address is n, it reads with the width the compressor wrote with at the address after n |
| LzTable.CodewordFits | slzw.c:73-75 | every codeword below the next free address fits in the width the compressor packs with |
| LzTable.Str | python/Decompress.py:138-167 | the string a codeword names is 1 to c-254 bytes long, and a root codeword is its own byte |
| LzTable.BuildKeepsDescent | java/codec/Dict.java:124-126 | building an entry whose pointer is below its address keeps every chain descending; walks therefore terminate |
| Lzw.ReverseLast | java/codec/Decomp.java:196-202 | popping the stack writes the byte pushed last first |
| Lzw.EncStep | java/codec/Comp.java:100-138 | one compressor pass either emits nothing or emits exactly the pending codeword at the current width, always leaves a string pending, and emits only dictionary codewords at widths 9..12 |
| Lzw.EncFrom | java/codec/Comp.java:89-142 | the compressor loop leaves a string pending after any non-empty input, and the empty input changes nothing |
| Lzw.Emitted | java/codec/Comp.java:127-148 | every codeword the compressor hands the packer is a dictionary codeword at a width of 9..12 |
| Lzw.DecodeStep | java/codec/Decomp.java:96-124 | a decompressor pass that outputs bytes has consumed at least one input byte and leaves a well-formed state, so the loop terminates |
| Packing.Drain | java/codec/Packer.java:88-93 | the write loop stops with fewer bits pending than its threshold, and keeps at least threshold-8 bits pending |
| Packing.DrainKeepsBits | python/Packer.py:76-84 | the bytes written, followed by the bits left in the barrel, are the bits that were pending |
| Packing.DrainAll | slzw.c:93-97 | a flushing loop writes every pending bit and pads the last byte with fewer than 8 bits |
| Packing.OnesOfMask | java/codec/LzConsts.java:70 | CODEWORDMASK is twelve ones |
| Packing.MaskKeepsFit | java/codec/Packer.java:78 | masking with CODEWORDMASK keeps every codeword that fits its width |
| Packing.PackAppends | java/codec/Packer.java:73-100 | packing an ordinary codeword appends its bits, least significant first, to the bits written and pending |
| Packing.PackSentinel | java/codec/Packer.java:82-96 | packing the EOFFLUSH sentinel writes the part byte pending, if any, padded with ones, and no more |
| Packing.PackCFlush | slzw.c:84-98 | C's flushing pack writes the pending bits and the codeword, padded with fewer than 8 zero bits |
| Packing.PackCAgrees | slzw.c:84-98 | C's pack without flush behaves exactly like the Java/Python pack of an ordinary codeword |
| Packing.PackAllBits | python/Packer.py:55-87 | packing a sequence of codewords writes their bits in order, minus the part byte still pending |
| Packing.Fill | python/Unpacker.py:54-69 | the read loop consumes a prefix of the input, and unless the input ran dry it holds at least a codeword's bits |
| Packing.Unpack | python/Unpacker.py:48-77 | unpack consumes exactly the bytes it counts |
| Packing.UnpackJava | java/codec/Unpacker.java:81-114 | Java's do-while reads at least one byte whenever input remains |
| Packing.UnpackJavaAgrees | java/codec/Unpacker.java:86-102 | when less than a codeword is pending, Java's do-while unpack is the while loop of Python and C |
| Packing.UnpackReads | slzw.c:127-132 | between codewords the unpacker holds less than a byte, so it reads at least one byte whenever input remains |
| Packing.FillKeepsBits | java/codec/Unpacker.java:86-102 | the bits pending followed by the unread bytes' bits are preserved by the read loop, and the loop runs dry exactly when the input has too few bits |
| Packing.LoadKeepsBits | java/codec/Unpacker.java:96-99 | loading a byte appends its 8 bits above the pending ones |
| Packing.UnpackRecovers | python/Unpacker.py:48-77 | when the pending and unread bits start with a codeword's bits, unpack returns that codeword and leaves the rest of the bits |
| Packing.UnpackKeepsClean | slzw.c:122-139 | an unpacker holding less than a byte still holds less than a byte after returning a codeword |
| Packing.UnpackAtEnd | java/codec/Unpacker.java:86-90 | with only padding left, every unpacker reads nothing and returns no codeword |
| Packing.UnpackAllRecovers | python/Unpacker.py:48-77 | unpacking with the widths used for packing returns every codeword that was packed, in order |
| Packing.PackStreamBits | java/codec/Packer.java:73-100 | the bytes of a packed stream ended by EOFFLUSH are the codewords' bits plus fewer than 8 padding bits |
| Packing.PackStreamCBits | slzw.c:84-98 | the bytes of a C stream ended by a flushing pack are the codewords' bits plus fewer than 8 padding bits |
| Packing.PackUnpackRoundTrip | java/codec/Unpacker.java:81-114 | packer/unpacker round trip: unpacking a packed stream with the same widths gives back the codewords |
| RoundTrip.WalkSpells | java/codec/Decomp.java:139-206 | walk termination and correctness: the walk from a live codeword outputs exactly its string, and its last byte pushed is the string's first byte |
| RoundTrip.WalkKwK | python/Decompress.py:145-151 | KwK: the walk of the next free codeword outputs the previous codeword's string followed by its first byte |
| RoundTrip.ReadPending | python/Decompress.py:83-86 | the decompressor's unpack returns exactly the codeword the compressor wrote for its pending string |
| RoundTrip.WalkPending | java/codec/Decomp.java:139-206 | the walk of the codeword the compressor wrote outputs the compressor's pending string |
| RoundTrip.DecodeOne | java/codec/Decomp.java:96-122 | one decompressor pass over that codeword outputs the pending string and builds the previous codeword's entry with the string's first byte |
| RoundTrip.MatchKeepsLockstep | java/codec/Comp.java:111-121 | extending the pending string keeps the decoder's dictionary equal to the encoder's one build behind |
| RoundTrip.MismatchEnc | java/codec/Comp.java:124-136 | a compressor mismatch writes the new entry at the next free address (or only resets under ResetOnly) and keeps the width in its closed form |
| RoundTrip.MismatchDec | java/codec/Decomp.java:113-114 | the decompressor's build after a codeword reproduces the compressor's entries up to its next free address |
| RoundTrip.MismatchKeepsLockstep | slzw.c:112-115 | decoder table equals encoder table one build later, across a mismatch |
| RoundTrip.DecodeLast | python/Compress.py:125-133 | the final codeword followed only by padding decodes to the pending string and ends normally |
| RoundTrip.MatchStep | python/Compress.py:90-103 | a matching byte leaves the dictionary and the codewords still to come unchanged, and extends the pending string |
| RoundTrip.MismatchStep | python/Compress.py:106-117 | a mismatching byte is one decompressor pass that outputs the pending string, with lockstep kept |
| RoundTrip.EncFromAppend | java/codec/Comp.java:89-142 | compressing y then z is compressing y + z |
| RoundTrip.TrackTo | python/Decompress.py:75-121 | while both sides are in lockstep, decompressing the rest of the stream outputs the pending string and the unread input |
| RoundTrip.TrackToMatch | python/Decompress.py:75-121 | the TrackTo induction step for a matching byte |
| RoundTrip.TrackToMismatch | python/Decompress.py:75-121 | the TrackTo induction step for a mismatching byte |
| RoundTrip.Track | java/codec/Decomp.java:90-129 | from lockstep, decoding the remaining stream ends normally with the pending string followed by the remaining input |
| RoundTrip.EncStepFits | slzw.c:109-117 | every codeword the compressor emits fits its width, and the width keeps pace with the next free address |
| RoundTrip.EncFromFits | java/codec/Comp.java:89-142 | the same over the whole input |
| RoundTrip.CompressFrom | java/codec/Comp.java:82-158 | the compressed bytes are the packed stream of the loop's codewords and the final pending codeword |
| RoundTrip.CompressedPrefix | python/Compress.py:64-133 | the compressed bytes are the codewords' bits plus fewer than 8 padding bits |
| RoundTrip.StartLockstep | java/codec/Decomp.java:90-96 | a fresh compressor after its first byte and a fresh decompressor start in lockstep |
| RoundTrip.EmptyRoundTrip | python/Compress.py:125-133 | Java and Python compress the empty input to nothing and decompress nothing to nothing |
| RoundTrip.CodecRoundTrip | java/codec/Comp.java:82-158 | decompress(unpack(pack(compress(x)))) == x: for every variant, under ResetOnly for every input (C: every non-empty input), and under ResetThenWrite for inputs short enough never to fill the dictionary |
| Findings.CEmptyInput | slzw.c:119 | as written, C compresses the empty input to two zero bytes, which decompress to one zero byte |
| Findings.ZeroBytesUnpack | slzw.c:122-139 | two zero bytes unpack to codeword 0 with seven bits left over |
| Findings.CompressCFixed | slzw.c:119 | the corrected C compressor agrees with the original on every non-empty input |
| Findings.CRoundTripFixed | slzw.c:100-180 | with the fix, the C round trip holds for every input, the empty one included |
| Findings.SignedByte | java/codec/Dict.java:95 | Java's byte cast keeps the low 8 bits, read as a number from -128 to 127 |
| Findings.JavaEntryMatch | java/codec/Dict.java:89-106 | entry_match as written, with the signed byte as the column: it throws exactly for the bytes from 0x80 on, and for every other byte it is the table's match |
| Findings.JavaEncStep | java/codec/Comp.java:100-134 | one pass of Java's compressor loop as written: with a string pending, every byte from 0x80 on throws; the first byte, and every byte below 0x80, is the compressor's step |
| Findings.JavaEncFrom | java/codec/Comp.java:89-138 | Java's compressor loop as written throws exactly when a byte from 0x80 on arrives while a string is pending, and otherwise equals the compressor's loop |
| Findings.JavaCompress | java/codec/Comp.java:82-158 | Java's compress as written throws exactly when some byte after the first is 0x80 or more, and otherwise writes the model's compressed bytes |
| Findings.JavaSignedLookup | java/codec/Dict.java:95 | as written, Java's compressor throws on the input [0x41, 0x80] |
| Findings.RunFrom | java/codec/Comp.java:89-138 | on input whose adjacent pairs are all distinct, every byte ends the pending string and the i-th pair is built at 0x100+i |
| Findings.ProbePairsDistinct | java/codec/Dict.java:118-152 | the probe input's adjacent pairs are all distinct |
| Findings.NothingExtends127 | java/codec/Dict.java:89-106 | once the probe has filled the dictionary, no entry extends byte 127 |
| Findings.EmitsFreshEntry | java/codec/Dict.java:121-126 | after the fill, 127 127 makes the compressor reset, write 0x100 and emit 0x100 immediately |
| Findings.StaleRead | java/codec/Decomp.java:157-170 | a decompressor that has not yet reset reads 0x100's stale entry from before the reset |
| Findings.DecodeAfterFull | python/Decompress.py:138-155 | after the fill, the two codewords 127 and 0x100 decode to 127 followed by the first two probe bytes |
| Findings.ReachesFull | python/Compress.py:64-133 | the decoder tracks the encoder right up to the full dictionary |
| Findings.ResetThenWriteLosesOn | python/Dictionary.py:79-86 | under reset-then-write, any dictionary-filling input followed by 127 127 does not survive the round trip |
| Findings.ResetThenWriteLoses | python/Dictionary.py:79-86 | as written, Python decompresses the compressed probe input to a different string: its last three bytes 127 127 127 come back as 127 0 95 |
| Findings.JavaResetThenWriteLoses | java/codec/Dict.java:118-127 | as written, Java compresses the probe input without throwing (all its bytes are below 0x80), and the result decompresses with the last three bytes 127 127 127 changed to 127 0 95 |
| JavaDict.Dict.constructor | java/codec/Dict.java:43-58 | a fresh compress-mode dictionary: every entry (0, 0), next free codeword 0x100, width 9 |
| JavaDict.Dict.WithMode | java/codec/Dict.java:60-65 | the same, in the mode given |
| JavaDict.Dict.ResetDictionary | java/codec/Dict.java:74-79 | only the next free codeword goes back to 0x100; entries and indirection table stay; 9 is returned for the caller to store |
| JavaDict.Dict.EntryMatch | java/codec/Dict.java:89-106 | returns the table's Match: a live address holding exactly (pointer, byte), or NOMATCH |
| JavaDict.Dict.BuildEntry | java/codec/Dict.java:118-152 | the new dictionary is the reset-then-write build of the old one, in its mode, with the same arrays |
| JavaDict.Dict.CodewordValid | java/codec/Dict.java:157-159 | a codeword is valid exactly when it is a root, a live entry, or the next free address (KwK) |
| JavaDict.Dict.IsNextFreeEntry | java/codec/Dict.java:161-163 | the address where the next build writes |
| JavaDict.Dict.DictionaryFull | java/codec/Dict.java:165-167 | true exactly when the next build resets |
| JavaDict.Dict.DictionaryEntryByte | java/codec/Dict.java:169-171 | the last byte of the entry's string |
| JavaDict.Dict.DictionaryEntryPointer | java/codec/Dict.java:173-175 | the codeword whose string the entry extends, below the entry's address |
| JavaDict.Dict.RootCodeword | java/codec/Dict.java:177-179 | true exactly for codewords whose string is one byte |
| JavaPacker.Packer.constructor | java/codec/Packer.java:60-62 | an empty barrel and nothing written |
| JavaPacker.Packer.Pack | java/codec/Packer.java:73-100 | the barrel and output become Packing.Pack's, and the count is the number of bytes written |
| JavaUnpacker.Unpacker.constructor | java/codec/Unpacker.java:65-70 | an empty barrel over the given input |
| JavaUnpacker.Unpacker.Unpack | java/codec/Unpacker.java:81-114 | the barrel, input and count become UnpackJava's; the codeword holder is set only when a whole codeword was read |
| JavaIntRef.IntRef.constructor | java/codec/IntRef.java:42-44 | holds the initial value |
| JavaComp.Comp.constructor | java/codec/Comp.java:66-72 | counters zero, maximum string length and input as given |
| JavaComp.Comp.Default | java/codec/Comp.java:57-63 | the same with maximum string length 4096 over standard input |
| JavaComp.Comp.CompressByte | java/codec/Comp.java:89-140 | one pass of compress's loop is EncStep: the dictionary and locals become its state, the packer gets exactly its codeword, and the byte counters advance |
| JavaComp.Comp.PackPending | java/codec/Comp.java:147-156 | the pending codeword, if any, then EOFFLUSH are packed |
| JavaComp.Comp.Compress | java/codec/Comp.java:82-158 | writes exactly Lzw.Compress of the input for the Java variant, leaves the dictionary as the compressor loop does, and counts every input byte |
| JavaDecomp.Decomp.Default | java/codec/Decomp.java:69-73 | maximum string length 4096, no previous codeword, width 9, empty stack |
| JavaDecomp.Decomp.constructor | java/codec/Decomp.java:75-79 | the same with the maximum string length given |
| JavaDecomp.Decomp.OutputLinkedList | java/codec/Decomp.java:139-206 | in terms of the walk: outputs its bytes and returns its last byte; a string longer than the maximum gives DECOMPRESSION_ERROR with nothing written; an unreadable address is a crash |
| JavaDecomp.Decomp.ExpandCodeword | java/codec/Decomp.java:100-122 | for a received codeword, one decompressor pass from the object's state is DecodeStep: it stops exactly when the step stops, and otherwise outputs its bytes and takes its state |
| JavaDecomp.Decomp.DecompressCodeword | java/codec/Decomp.java:96-122 | one pass of decompress's loop, unpack included, is DecodeStep |
| JavaDecomp.Decomp.Decompress | java/codec/Decomp.java:90-129 | the output and the ending are exactly Lzw.DecodeFrom's for the Java variant |
| PyDictionary.WriteKeepsPairs | python/Dictionary.py:202-206 | storing the address under (byte, pointer) keeps the compress-mode dict answering every lookup as the table's Match |
| PyDictionary.Dictionary.constructor | python/Dictionary.py:55-59 | an empty dict in the given mode, next free codeword 0x100, width 9 |
| PyDictionary.Dictionary.ResetDictionary | python/Dictionary.py:66-70 | the next free codeword goes back to 0x100 and the dict is emptied, so no lookup matches; 9 is returned |
| PyDictionary.Dictionary.SetDictionaryEntry | python/Dictionary.py:202-206 | compressing, the key (byte, pointer) gets the address; decompressing, the address gets (byte, pointer) |
| PyDictionary.Dictionary.BuildEntry | python/Dictionary.py:79-114 | the new dictionary is the reset-then-write build of the old one, and the dict stays in step with it |
| PyDictionary.Dictionary.EntryMatch | python/Dictionary.py:122-126 | compressing, the table's Match; decompressing, nothing matches |
| PyDictionary.Dictionary.CodewordValid | python/Dictionary.py:133-134 | valid exactly for a root, a live entry or the next free address |
| PyDictionary.Dictionary.IsNextFreeEntry | python/Dictionary.py:142-143 | the address where the next build writes |
| PyDictionary.Dictionary.DictionaryFull | python/Dictionary.py:150-151 | true exactly when the next build resets |
| PyDictionary.Dictionary.DictionaryEntryByte | python/Dictionary.py:159-161 | for a key, a live entry's byte, the last byte of its string |
| PyDictionary.Dictionary.DictionaryEntryPointer | python/Dictionary.py:169-171 | for a key, a live entry's pointer, whose string the entry extends |
| PyDictionary.Dictionary.RootCodeword | python/Dictionary.py:178-179 | true exactly for codewords whose string is one byte |
| PyDictionary.MiniTest | python/Dictionary.py:210-219 | the module's test prints 0x101, NOMATCH and 0x102 |
| PyStack.Stack.constructor | python/Stack.py:37-39 | an empty stack |
| PyStack.Stack.ResetStack | python/Stack.py:41-43 | back to empty |
| PyStack.Stack.StackSize | python/Stack.py:45-46 | the number of values on the stack |
| PyStack.Stack.StackEmpty | python/Stack.py:48-49 | true exactly when the stack holds nothing |
| PyStack.Stack.Push | python/Stack.py:51-53 | the value goes on top and the size grows by one |
| PyStack.Stack.Pop | python/Stack.py:55-57 | returns the value pushed last, removes it, and the size shrinks by one |
| PyStack.MiniTest | python/Stack.py:64-77 | the module's test sees size 2, not empty, pops 64 then 19, and ends empty |
| PyPacker.Packer.constructor | python/Packer.py:43-46 | an empty barrel and nothing written |
| PyPacker.Packer.Pack | python/Packer.py:55-87 | the barrel and output become Packing.Pack's, and the count is the number of bytes written |
| PyUnpacker.Unpacker.constructor | python/Unpacker.py:33-39 | an empty barrel over the given input |
| PyUnpacker.Unpacker.Unpack | python/Unpacker.py:48-77 | the barrel, input and count become Packing.Unpack's; a read that ran dry returns the null codeword |
| PyCompress.ConvertToRootcw | python/Compress.py:140-141 | a byte's root codeword is the byte, below 0x100 |
| PyCompress.Compress.constructor | python/Compress.py:45-54 | a maximum string length of 0 means 4096 |
| PyCompress.Compress.ReadByte | python/ReadByte.py:42-57 | returns the next input byte and consumes it, or INPUTEOF at the end |
| PyCompress.Compress.CompressByte | python/Compress.py:81-117 | one pass of compress's loop is EncStep, the packer gets exactly its codeword, and the match length counts the string's bytes |
| PyCompress.Compress.Compress | python/Compress.py:64-133 | writes exactly Lzw.Compress of the input for the Python variant and leaves the dictionary as the compressor loop does |
| PyDecompress.Decompress.constructor | python/Decompress.py:58-65 | a maximum string length of 0 means 4096; the stack starts empty |
| PyDecompress.Decompress.OutputLinkedList | python/Decompress.py:131-179 | in terms of the walk: outputs its bytes and returns its last byte; a string longer than the maximum gives DECOMPRESSION_ERROR; an address that is not a key is a KeyError |
| PyDecompress.Decompress.Decompress | python/Decompress.py:75-121 | the output and the ending are exactly Lzw.DecodeFrom's for the Python variant |
| Slzw.Statics.constructor | slzw.c:37-39 | the statics' initial values: next free codeword 0x100, width 9, empty barrels and stack |
| Slzw.Statics.EntryMatch | slzw.c:41-54 | returns the table's Match |
| Slzw.Statics.BuildEntry | slzw.c:56-82 | the new dictionary is the reset-only build: a full dictionary is only reset, to next free codeword 0x100 and width 9 |
| Slzw.Statics.Pack | slzw.c:84-98 | the barrel and the output file become PackC's |
| Slzw.Statics.CompressByte | slzw.c:109-117 | one pass of compress's loop is EncStep for the C variant, and the output gets exactly its codeword |
| Slzw.Statics.Compress | slzw.c:100-120 | writes exactly Lzw.Compress of the input file for the C variant and leaves the dictionary as the compressor loop does |
| Slzw.Statics.ReadByte | slzw.c:128-131 | reads one byte and loads it into the barrel, or reports EOF and changes nothing |
| Slzw.Statics.Unpack | slzw.c:122-139 | the barrel and input become Packing.Unpack's; EOF when the input runs dry; otherwise the codeword and the last byte read |
| Slzw.Statics.PushChain | slzw.c:153-167 | the stack holds the walk's bytes and the last pushed byte is returned; a chain through an out-of-range address or deeper than the stack is reported as a crash |
| Slzw.Statics.PopStack | slzw.c:169-170 | writes the stack top first and leaves it empty |
| Slzw.Statics.ExpandCodeword | slzw.c:152-174 | outputs the walk's bytes and builds the previous codeword's entry with the walk's last byte, from the second codeword on |
| Slzw.Statics.DecompressCodeword | slzw.c:151-178 | one pass of decompress's loop, from the state the statics and locals hold, is DecodeStep for the C variant |
| Slzw.Statics.Decompress | slzw.c:141-180 | the output and the ending are exactly Lzw.DecodeFrom's for the C variant |

## Left out

- **Byte streams.** Standard input and output, buffered streams and file
  handles are byte sequences: the bytes not yet read, or the bytes
  written. Java's `getc`/`putc` wrappers, `flush`, and their `IOException`
  exits are not modelled. The default constructors take what they would
  read from standard input as a parameter.
- **`main` functions.** The command-line programs (`slzw.c`'s `main`,
  `java/Lzw.java`, `java/codec/Codec.java`, `python/Lzw.py`) and the
  modules' `main` test programs are not part of this model. The
  exceptions are the Python dictionary and stack tests, modelled as
  `MiniTest`.
- **Error messages.** The stderr and stdout messages of the error paths
  are not modelled, nor is Python's `__errmsg` or `dump_dict`. C's
  `exit(DECOMPRESSION_ERROR)` is the ending `Failed(2)`.
- **Runtime failures.** A Python `KeyError`, a Java out-of-bounds access,
  and C's undefined behaviour are the ending `Crashed`. C's undefined
  behaviour means a dictionary read past the array or a stack overflow.
  The model does not say what happens after them.
- **Integer widths.** Barrels and counters are unbounded integers. The
  codec never needs more than 20 bits in a barrel, so C's `unsigned long`
  and `unsigned int` and Java's `int` do not wrap.
- **The Python dictionary object.** Its class-level `__dictionary`
  attribute, shared by instances created before a reset, is a fresh empty
  dict per object.
- **Python's `Decompress` inherits `Stack`.** Here the stack is a
  component object.
- **Java's `DictEntry`.** It is not part of this model. A fresh entry is
  taken to hold pointer 0 and byte 0.
- **Slzw.Statics.Unpack:** requires that the barrel holds less than a
  codeword. Otherwise C's `unpack` returns its uninitialised local
  `ipbyte`. Between codewords the barrel always holds less than a byte.
- **C's uninitialised locals.** In `decompress`, `ip_codeword` and `byte`
  start at 0. The start values are never used: `ip_codeword` is read
  only after `unpack` has set it, and `byte` is first read after the first
  walk has set it.
- **C's helper methods.** `CompressByte`, `ReadByte`, `PushChain`,
  `PopStack`, `ExpandCodeword` and `DecompressCodeword` are the bodies of
  the C loops, factored into methods. Each leaves the statics as the
  inline code does.
- **Java's `Comp`.** Its loop variables are fields of the object, as in
  the source. The byte counters `ip_bytecount` and `op_bytecount` are
  modelled.
- **Python's `pop`.** `PyStack.Stack.Pop` requires a non-empty stack,
  because popping an empty Python list raises.
- **JavaDict.Dict.EntryMatch, JavaDict.Dict.BuildEntry:** index the
  indirection table with the byte's unsigned value, not Java's signed
  byte. See Findings.
- **JavaComp.Comp.Compress, PyCompress.Compress.Compress,
  JavaDecomp.Decomp.Decompress, PyDecompress.Decompress.Decompress:** use
  the reset-then-write build as written. The round trip is therefore
  proved for them only on inputs that never fill the dictionary. See
  Findings.

## Findings

| source | as written | input that shows it | evidently intended | confidence | as-written member | corrected member |
|---|---|---|---|---|---|---|
| java/codec/Dict.java:121-126 | a build at a full dictionary resets it and, in the same call, writes the new entry at 0x100; the compressor can emit 0x100 at once, while the decompressor, one build behind, still holds the entry from before the reset (python/Dictionary.py:82-86 does the same) | the 3840-byte probe (bytes below 127, all adjacent pairs distinct) followed by 127 127 127: the last three bytes come back as 127 0 95, in Java as written and in Python | reset only, as slzw.c:61-65 does, so both sides rebuild 0x100 in step | high (reasoned, not executed) | Findings.JavaResetThenWriteLoses | RoundTrip.CodecRoundTrip |
| slzw.c:119 | the final codeword is packed with a flush even when the input was empty and there is none, so the null codeword 4096 goes out masked to 12 bits | the empty input compresses to two zero bytes, which decompress to one zero byte | pack the final codeword only when there is one, so the empty input compresses to nothing | high (reasoned, not executed) | Findings.CEmptyInput | Findings.CRoundTripFixed |
| java/codec/Dict.java:95 | entry_match indexes the indirection table with the signed byte, so every byte from 0x80 on gives a negative column and throws; build_entry line 132 does the same | compressing 0x41 0x80 looks up column -128 and throws | index with the byte's unsigned value (`byte_val & 0xff`) | high (reasoned, not executed) | Findings.JavaSignedLookup | JavaDict.Dict.EntryMatch |
