# Algorithms of whisper.cpp, modelled and proved

A Dafny 4.11 model of the discrete algorithms of `whisper.cpp` and of the audio and grammar code beside it. `dafny verify
dfyconfig.toml` checks everything.

| files | what they model |
|---|---|
| `GrammarLanguage`, `GrammarAdvance`, `GrammarTermination`, `GrammarAccept`, `GrammarMask`, `GrammarPartial` | the pushdown recogniser that constrains decoding to a grammar, when it ends, the token mask, and the test of partial characters |
| `GrammarSource`, `GrammarMeaning`, `GrammarCompiler`, `GrammarConditions` | the EBNF compiler, from tokens to flat rules, and which grammars the recogniser ends on |
| `KvCache`, `CachedPast`, `BeamDecode` | the key/value cache that all decoders share, and the greedy and beam decode loop on it |
| `Bits`, `PacketReader` | bit reversal, and the bit reader over the segments and pages of a packet |
| `HuffmanTree`, `HuffmanCodes`, `HuffmanTables`, `HuffmanBook`, `HuffmanDecode`, `HuffmanLimits` | Vorbis codebooks: codeword assignment, the three lookup structures, decoding, and its limits |
| `FloorCurve` | the setup and the drawing of a type-1 floor |
| `Fourier` | the recursive Fourier transform |
| `SpeechDetection`, `SpeechStretches`, `SpeechSegments`, `TimeMap` | voice activity segments, and the map from processed to original time |
| `TimeWarp`, `EditDistance` | dynamic time warping, and the similarity of strings |
| `Utf8` | incremental UTF-8 decoding |
| `Arithmetic` | products, quotients and remainders |

## The model in brief

**Grammars.** A rule is a flat sequence of elements; an element pointer is a pair of a rule and an index. `Gen` says which
words an alternate derives, and every other notion of language rests on it. Expanding references ends only for rules that
are not left-recursive; `NotLeftRecursive` states this as an order of the rules, the measure of `AdvanceStack` uses it, and
`EndsIffNotLeftRecursive` shows that it is the exact condition. `GrammarConditions` derives it from conditions on the notation (`NoLeftRecursion`, `AllDefined`); `(a*)*` is outside
(`RepeatedEmptyLoops`). The EBNF side has its own meaning (`ItemMeans`, `SequenceMeans`, `AlternatesMean`), which knows
nothing of rules; `CompiledGrammarRecognises` joins both files. Two promises of the source are false as they stand and have exact
conditions: an empty character class compiles to nothing, which derives the empty word (`ClassIsRightIff`), and the test
of a partial character (`PartialTestIsExactIff`) rejects too much for negated classes that split the window
(`PartialTestRejectsTooMuch`) and accepts too much for positive ones that meet it only with ranges that run downwards
(`PartialTestAcceptsTooMuch`).

**Key/value cache.** Cells carry a position and a set of sequence ids. Vectors are symbolic: a `Hidden` is the embedding of a
token, or the output of a layer, from the token's own vector below and the set of vectors whose keys and values attention
saw. `contents` names for each cell and layer the vector its key and value were computed from. `Alone` is the reference: the
vector of a position when a list is evaluated on its own. The main result is that every row of every batch of a run comes out
as `Alone` of the prompt and its own decoder's tokens, although all decoders share one cache. That each position is attended
once, which a set does not show, is part of `AttendsExactly`. `Run` leaves sampled tokens, the order of candidates and the
rule for when a decoder is over open, but not which candidate a decoder takes: `InTurn` says that of the list alone.

**Speech.** The state machine keeps six variables with sentinels. `SpeechStretches` says what they mean: the frames are read as
a list of stretches (`IsReading`), defined by pauses, marks and lengths alone, and no other list will do
(`DetectedIsTheReading`). After a split pauses count from the frame at which the length was noticed (`base`), as in the
source. That frame is lost when a stretch without a marked pause is cut, even if it is speech (`AtCut`).

**Partial characters.** `Completes` says which code points a partial sequence can become, by the encoding and the decoder
alone; the decoder takes code points of up to 22 bits.

**Codebooks.** Codewords are addresses of blocks in a 32-bit space. `Tiled` is the invariant behind the source's remark
that the free-leaf table is right but not trivially so. `Decodes` is an if-and-only-if: it names both limits of the code,
the 16-bit fast table (`Reachable`) and the accumulator that refills at 24 bits or fewer (`Refilled`); `HuffmanLimits` shows
books and packets that meet them. Bit reversal
appears twice: on natural numbers (`Rev`), which the proofs use, and as the five steps on 32-bit words (`BitReverse`);
`BitReverseIsRev` joins them.

**Packets.** `Pending` is the string of bits that a reader has not taken: those in the accumulator and those of the unread
bytes, reassembled across lacing values and pages (section 6 of RFC 3533). Pages are not empty. Two promises are false when a
page without the continuation flag breaks a packet off, and have exact conditions: that a packet stays at its end once it has
been read (`BrokenPacketReadsOn`, `EndStaysIffEnds`), and that a refill keeps the pending bits (`BrokenRefillGoesOn`,
`PrepHuffman`). Bits and codewords that are all there are read rightly from any pages. `Refillable` excludes only the state in
which the source would shift by a negative number.

**Numbers.** Costs, samples and coefficients are exact reals; `IsTable` says that the table of sines and cosines holds the
powers of a root of unity. Infinite costs are a constructor of their own. Times are rounded as in the source, in exact
arithmetic.

Proofs hide the definitions that a step does not need (`hide`), which keeps every one of them small.

## Model

| member | source | states |
|---|---|---|
| `GrammarLanguage.GenMonotone` | native_android/whisper.cpp/src/whisper.cpp:5617-5665 | what an alternate derives does not depend on the bound on nesting: a larger bound derives no less |
| `GrammarLanguage.PushSplit` | native_android/whisper.cpp/src/whisper.cpp:5636-5643 | a stack with a position pushed derives a word only if the position derives a prefix and the stack the rest; a position at the end of its alternate is not pushed |
| `GrammarLanguage.PushJoin` | native_android/whisper.cpp/src/whisper.cpp:5636-5643 | the converse: such a split gives a derivation of the pushed stack |
| `GrammarLanguage.AfterIsItem` | native_android/whisper.cpp/src/whisper.cpp:5543-5568 | in a well-formed rule the position after a reference or a character class is again an item or the end of an alternate |
| `GrammarAdvance.ExpandDecreases` | native_android/whisper.cpp/src/whisper.cpp:5617-5665 | the termination measure of stack expansion: if the rules are not left-recursive, expanding the reference on top makes the stack smaller |
| `GrammarTermination.EmptyReaches` | native_android/whisper.cpp/src/whisper.cpp:5640-5648 | a position that derives the empty word can be taken off the stack by expansions |
| `GrammarTermination.RankedIsOrder` | native_android/whisper.cpp/src/whisper.cpp:5617-5665 | if no stack can be expanded for ever, the lengths of the longest chains of expansions are an order of the rules |
| `GrammarTermination.EndsIffNotLeftRecursive` | native_android/whisper.cpp/src/whisper.cpp:5617-5665 | for all well-formed rules: every chain of expansions ends, from every stack, exactly if the rules are not left-recursive |
| `GrammarAdvance.AdvanceReachesClasses` | native_android/whisper.cpp/src/whisper.cpp:5617-5665 | every stack that expansion returns is empty or topped by a character class, and it returns at least one |
| `GrammarAdvance.AdvanceKeepsLanguage` | native_android/whisper.cpp/src/whisper.cpp:5617-5665 | expanding a stack keeps its language: a word is derived by the stack exactly if one of the returned stacks derives it |
| `GrammarAccept.AdvanceStack` | native_android/whisper.cpp/src/whisper.cpp:5617-5665 | the recursive procedure over a growing vector of stacks appends exactly the expansions of the stack |
| `GrammarAccept.MatchChar` | native_android/whisper.cpp/src/whisper.cpp:5543-5568 | a character is matched exactly if the class contains it (or, negated, does not), and the returned position is the one after the class |
| `GrammarAccept.ConsumeIsDerivative` | native_android/whisper.cpp/src/whisper.cpp:5683-5698 | one stack: c followed by w is derived exactly if its class accepts c and the stack without it derives w |
| `GrammarAccept.AcceptIsDerivative` | native_android/whisper.cpp/src/whisper.cpp:5667-5702 | accepting a character is the language derivative: some returned stack derives w exactly if some given stack derives c followed by w |
| `GrammarAccept.AcceptWordIsDerivative` | native_android/whisper.cpp/src/whisper.cpp:5867-5881 | the same for a whole word, one character at a time |
| `GrammarAccept.AcceptStack` | native_android/whisper.cpp/src/whisper.cpp:5667-5702 | the loop over one stack in the source computes the accepted stacks of the specification |
| `GrammarAccept.AcceptStacks` | native_android/whisper.cpp/src/whisper.cpp:5667-5702 | the loop over all stacks computes the accepted stacks of the specification |
| `GrammarAccept.InitIsRuleLanguage` | native_android/whisper.cpp/src/whisper.cpp:5776-5815 | the initial stacks derive exactly the language of the start rule |
| `GrammarAccept.InitStacks` | native_android/whisper.cpp/src/whisper.cpp:5776-5815 | the initialising loop over the alternates of the start rule produces those stacks |
| `GrammarAccept.RecognisesExactly` | native_android/whisper.cpp/src/whisper.cpp:5776-5815 | end to end: a word is in the language of the start rule exactly if accepting its characters from the initial stacks leaves the empty stack |
| `GrammarMask.MeetsClass` | native_android/whisper.cpp/src/whisper.cpp:5598-5611 | the loop over a class with its early exits finds a range that meets the window exactly if there is one |
| `GrammarMask.MatchPartialChar` | native_android/whisper.cpp/src/whisper.cpp:5570-5614 | the test of a partial sequence: its early rejections, its window, and whether a range meets it |
| `GrammarMask.RejectForStack` | native_android/whisper.cpp/src/whisper.cpp:5709-5758 | the recursive routine for one stack returns exactly the tokens (counted with multiplicity) that the stack cannot go on with |
| `GrammarMask.RejectCandidates` | native_android/whisper.cpp/src/whisper.cpp:5760-5774 | the chain of rejections over all stacks returns exactly the tokens that no stack can go on with |
| `GrammarMask.MaskAgreesWithAcceptor` | native_android/whisper.cpp/src/whisper.cpp:5709-5774 | a token of complete code points is left unrejected exactly if accepting its code points leaves some stack |
| `GrammarMask.MaskKeepsSentences` | native_android/whisper.cpp/src/whisper.cpp:5709-5774 | no token that is a prefix of a sentence of the grammar is ever rejected |
| `GrammarPartial.CompletesIffInWindow` | native_android/whisper.cpp/src/whisper.cpp:5586-5596 | the code points whose encoding passes through a partial sequence are exactly those of the window that the test computes, and there are none if the test rejects the sequence outright |
| `GrammarPartial.HasCompletionIff` | native_android/whisper.cpp/src/whisper.cpp:5570-5584 | the early rejections: a partial sequence that the decoder stops at is rejected outright only if no encoding passes through it, and then always |
| `GrammarPartial.PartialTestMeans` | native_android/whisper.cpp/src/whisper.cpp:5570-5614 | for every class: a positive class passes if some completion in the window is in it, and passes without one exactly if only ranges that run downwards meet the window; a negated class passes only if every completion is accepted, with the same exception the other way |
| `GrammarPartial.PartialTestIsExactIff` | native_android/whisper.cpp/src/whisper.cpp:5597-5613 | for every class and open partial sequence the test agrees with "some completion is accepted" exactly if no range meets the window, or a positive class has a code point of it, or a negated class has all of it |
| `GrammarPartial.OrderedTestIsExactIff` | native_android/whisper.cpp/src/whisper.cpp:5597-5613 | when no range runs downwards, exactly if the class is positive or does not split the window |
| `GrammarPartial.PartialTestAcceptsTooMuch` | native_android/whisper.cpp/examples/grammar-parser.cpp:150-169 | a positive class with a range that runs downwards, which the parser does not refuse: a partial sequence passes that has no accepted completion |
| `GrammarPartial.PartialTestRejectsTooMuch` | native_android/whisper.cpp/src/whisper.cpp:5597-5613 | a concrete negated class and partial sequence that is rejected although it has an accepted completion |
| `GrammarPartial.MaskKeepsPartialSentences` | native_android/whisper.cpp/src/whisper.cpp:5709-5774 | no token that ends inside a character is rejected if completing that character gives a prefix of a sentence, when no class is negated |
| `GrammarSource.ReadInvertsPrint` | native_android/whisper.cpp/examples/grammar-parser.cpp:132-282 | reading the tokens of a grammar gives back the syntax tree that they were printed from |
| `GrammarSource.GrammarReadIsPrinted` | native_android/whisper.cpp/examples/grammar-parser.cpp:132-282 | every token sequence that is read at all is the printing of the tree that it is read as, up to the last line end |
| `GrammarMeaning.GenJoin` | native_android/whisper.cpp/examples/grammar-parser.cpp:132-230 | a word of one run of elements followed by a word of the next is a word of the two runs in a row |
| `GrammarMeaning.GenSplit` | native_android/whisper.cpp/examples/grammar-parser.cpp:132-230 | and every word of two runs in a row splits so |
| `GrammarMeaning.ClassGen` | native_android/whisper.cpp/examples/grammar-parser.cpp:150-169 | the elements of a character class derive exactly the single characters that its ranges mean |
| `GrammarMeaning.RepeatSound` | native_android/whisper.cpp/examples/grammar-parser.cpp:191-222 | what the synthesised rule of a repetition derives is a list of words of the repeated item, of a length that the operator allows |
| `GrammarMeaning.RepeatComplete` | native_android/whisper.cpp/examples/grammar-parser.cpp:191-222 | and it derives every such list |
| `GrammarMeaning.ImplementsKeepsMeaning` | native_android/whisper.cpp/examples/grammar-parser.cpp:232-272 | rules that represent a grammar derive, for every defined name, exactly the words that its definition means |
| `GrammarMeaning.ClassIsRightIff` | native_android/whisper.cpp/examples/grammar-parser.cpp:150-169 | a class is compiled rightly exactly if it has a range: an empty one emits nothing and so derives the empty word |
| `GrammarCompiler.SynthesisedNameIsInjective` | native_android/whisper.cpp/examples/grammar-parser.cpp:33-37 | synthesised names (base, underscore, number) determine their number |
| `GrammarCompiler.NewKeyIsFresh` | native_android/whisper.cpp/examples/grammar-parser.cpp:33-37 | a synthesised name is not yet in the symbol table, so that ids stay a dense injection |
| `GrammarCompiler.ParseState.GetSymbolId` | native_android/whisper.cpp/examples/grammar-parser.cpp:27-31 | an old symbol keeps its id, a new one gets the next id, and nothing else changes |
| `GrammarCompiler.ParseState.GenerateSymbolId` | native_android/whisper.cpp/examples/grammar-parser.cpp:33-37 | adds exactly the synthesised name with the next id |
| `GrammarCompiler.ParseState.AddRule` | native_android/whisper.cpp/examples/grammar-parser.cpp:39-47 | puts the rule at its id, extending the table when needed, and leaves all other rules as they were |
| `GrammarCompiler.EmitClass` | native_android/whisper.cpp/examples/grammar-parser.cpp:150-169 | the loop over the ranges of a class emits its elements |
| `GrammarCompiler.BuildRepeatRule` | native_android/whisper.cpp/examples/grammar-parser.cpp:199-217 | the pushes of the source build the rule of a repetition |
| `GrammarCompiler.ParseState.EmitRepeat` | native_android/whisper.cpp/examples/grammar-parser.cpp:191-222 | the reference that replaces the last item represents its repetition, the state has only grown, and nothing but that rule is new |
| `GrammarCompiler.ParseState.EmitGroup` | native_android/whisper.cpp/examples/grammar-parser.cpp:179-190 | the reference emitted for a group represents the group, through a rule of its own |
| `GrammarCompiler.ParseState.ParseSequence` | native_android/whisper.cpp/examples/grammar-parser.cpp:132-230 | succeeds exactly if the reader does, and what it appends represents the sequence read |
| `GrammarCompiler.ParseState.ParseAlternates` | native_android/whisper.cpp/examples/grammar-parser.cpp:232-248 | succeeds exactly if the reader does, sets the rule of its id to one that represents the alternates, and disturbs no other rule |
| `GrammarCompiler.ParseState.ParseRule` | native_android/whisper.cpp/examples/grammar-parser.cpp:250-272 | the same for a named rule |
| `GrammarCompiler.Parse` | native_android/whisper.cpp/examples/grammar-parser.cpp:274-286 | succeeds exactly on the token sequences of grammars, and the final state implements the grammar |
| `GrammarConditions.CompiledIsWellFormed` | native_android/whisper.cpp/examples/grammar-parser.cpp:232-286 | rules compiled from a grammar whose names are all defined are well formed: their only END is the last element and every reference is in range |
| `GrammarConditions.AlternatesLead` | native_android/whisper.cpp/examples/grammar-parser.cpp:232-248 | what an alternate of a compiled rule can start with, and whether it can be empty, is what its notation can start with, and whether that can be empty |
| `GrammarConditions.CompiledIsNotLeftRecursive` | native_android/whisper.cpp/src/whisper.cpp:5617-5665 | if in the notation no name can start with itself, and nothing that may be empty is repeated by * or +, the compiled rules, with all those synthesised for groups and repetitions, are not left-recursive |
| `GrammarConditions.RepeatedEmptyLoops` | native_android/whisper.cpp/src/whisper.cpp:5640-5653 | the rule synthesised for a repetition of a rule with an empty alternate: two expansions lead back to the same stack, and no order of the rules exists |
| `GrammarConditions.CompiledGrammarRecognises` | native_android/whisper.cpp/examples/grammar-parser.cpp:274-286 | both files together, with conditions on the notation only: accepting a word from the initial stacks of a compiled rule leaves the empty stack exactly if the EBNF source of its name means the word |
| `KvCache.KvCache.FindSlot` | native_android/whisper.cpp/src/whisper.cpp:1019-1068 | succeeds exactly if a run of free cells of the batch's length exists anywhere, and then writes just such a run and nothing else; a failed search changes no cell |
| `KvCache.KvCache.SearchSlot` | native_android/whisper.cpp/src/whisper.cpp:1034-1059 | the wrapping search ends from any head, and misses no run |
| `KvCache.KvCache.CellMax` | native_android/whisper.cpp/src/whisper.cpp:1071-1079 | no cell in use lies at or after the returned bound |
| `KvCache.KvCache.SeqRm` | native_android/whisper.cpp/src/whisper.cpp:1091-1119 | takes the sequence off exactly the cells in range, frees those that are left without a sequence, and moves the head to the first of these |
| `KvCache.KvCache.SeqCp` | native_android/whisper.cpp/src/whisper.cpp:1121-1137 | adds the sequence to exactly the cells of the source sequence in range |
| `KvCache.KvCache.Decode` | native_android/whisper.cpp/src/whisper.cpp:2868-2954 | slot, window, mask and layers of a batch: no cell in use lies outside the window, the mask is open exactly where a row attends, and every column of the batch and every vector that comes out is the one of the specification |
| `KvCache.KvCache.RunLayers` | native_android/whisper.cpp/src/whisper.cpp:2518-2800 | the loop over the layers, which stores the columns of a layer and then attends to what the mask leaves, computes for every row the vectors defined by recursion on the layer |
| `CachedPast.AloneIsCausal` | native_android/whisper.cpp/src/whisper.cpp:2922-2930 | what a list gives at a position when it is evaluated on its own does not depend on what comes later in the list |
| `CachedPast.EvaluatesAsAlone` | native_android/whisper.cpp/src/whisper.cpp:2518-2800 | if the cells of a sequence and the rows of the batch for it are one per position of a list, every layer gives these rows what it gives when the list is evaluated on its own, whatever else the cache and the batch hold |
| `CachedPast.ReadyHolds` | native_android/whisper.cpp/src/whisper.cpp:2570-2594 | after the evaluation the cells of the sequence have the columns of that list |
| `CachedPast.HoldsMoved` | native_android/whisper.cpp/src/whisper.cpp:1121-1137 | an id that is put on exactly the cells of another holds the same list |
| `KvCache.OccupiedBlocks` | native_android/whisper.cpp/src/whisper.cpp:1043-1053 | an occupied cell rules out every run that starts before it and reaches it |
| `BeamDecode.ReshuffleIsSimultaneous` | native_android/whisper.cpp/src/whisper.cpp:7292-7330 | the two loops of copies and removals are one simultaneous assignment: each live decoder gets its parent's old cells, finished decoders keep theirs, temporary ids are unused again, and a cell is freed exactly if nobody holds it |
| `BeamDecode.ReshuffleHolds` | native_android/whisper.cpp/src/whisper.cpp:7292-7330 | a decoder holds after the reshuffle the token list that its parent held before |
| `CachedPast.PlacedExtends` | native_android/whisper.cpp/src/whisper.cpp:7442-7471 | the next token of a decoder, placed with those of the others, extends the list that the decoder holds |
| `CachedPast.PromptIsHeld` | native_android/whisper.cpp/src/whisper.cpp:7155-7162 | the prompt placed in an empty cache is sequence 0 |
| `CachedPast.HoldsIsAttended` | native_android/whisper.cpp/src/whisper.cpp:2907-2930 | a row of a sequence that holds a list attends to exactly one cell for each position up to its own, with the columns of the list up to there |
| `BeamDecode.NextCandidate` | native_android/whisper.cpp/src/whisper.cpp:7295-7307 | takes the candidate at the place or, if the list is used up, the first, and passes over those with its tokens after the first step only |
| `BeamDecode.DecodeRun.Start` | native_android/whisper.cpp/src/whisper.cpp:7155-7187 | fails exactly if the prompt is longer than the cache; otherwise all decoders hold the prompt, and every row of its batch came out as the prompt up to its position does on its own |
| `BeamDecode.DecodeRun.Reshuffle` | native_android/whisper.cpp/src/whisper.cpp:7290-7330 | live decoders take candidates in turn: the first one place 0, each later one the next place that is not passed over, or place 0 again when there is none; nothing is passed over at the first step, and later only candidates with the same tokens as the one just taken; each has the tokens of its place and the cells of that candidate's parent, and finished decoders keep theirs |
| `BeamDecode.DecodeRun.GatherCandidates` | native_android/whisper.cpp/src/whisper.cpp:7214-7288 | the candidates are one or more continuations of every live decoder, in any order |
| `BeamDecode.DecodeRun.Sample` | native_android/whisper.cpp/src/whisper.cpp:7196-7331 | one step of sampling, greedy or beam: every live decoder continues one that was live by one token, and finished ones stay as they are |
| `BeamDecode.DecodeRun.DecodeNext` | native_android/whisper.cpp/src/whisper.cpp:7442-7471 | fails exactly if no slot is free; otherwise one batch is added to the history, in which every live decoder has a row, and every row attended to exactly the prompt and its own decoder's tokens and came out as these do on their own |
| `BeamDecode.DecodeRun.Run` | native_android/whisper.cpp/src/whisper.cpp:7155-7471 | over every run, greedy or beam, with arbitrary samples and candidate orders, and any rule for when a decoder is over: the history has the prompt's batch and one batch for each step taken, each continues the one before by live decoders' tokens, the last is what the cache holds, all are exact in that sense, and the run ends early only if all decoders are done or no slot is free |
| `Bits.RevMirrors` | native_android/whisper.cpp/examples/stb_vorbis.c:1010-1017 | reversal puts every bit at the mirrored place |
| `Bits.BitReverseMirrors` | native_android/whisper.cpp/examples/stb_vorbis.c:1010-1017 | the five shift-and-mask steps of the source put every bit of a word at the mirrored place |
| `Bits.BitReverseIsRev` | native_android/whisper.cpp/examples/stb_vorbis.c:1010-1017 | so they compute, as a number, the reversal that all tables are specified with |
| `Bits.RevInvolution` | native_android/whisper.cpp/examples/stb_vorbis.c:1010-1017 | reversing twice gives the word back |
| `Bits.BeginsIffInBlock` | native_android/whisper.cpp/examples/stb_vorbis.c:1010-1017 | an accumulator begins with a codeword exactly if its reversal lies in the block of addresses of the codeword |
| `PacketReader.PageIsEntered` | native_android/whisper.cpp/examples/stb_vorbis.c:1539-1549 | going on to a page flagged as continued leaves the unread bytes of the packet as they are; at a page without the flag the packet has no more bytes, but the reader stands before those of the page |
| `PacketReader.SegmentIsEntered` | native_android/whisper.cpp/examples/stb_vorbis.c:1550-1560 | going on to the next segment leaves the unread bytes; a lacing value of 0 means that nothing is left |
| `PacketReader.ReadIs` | native_android/whisper.cpp/examples/stb_vorbis.c:1563-1573 | for any pages: a read gives the first unread byte and removes it, or the end code exactly if there is none; after the end code the reader stands before bytes of another packet exactly if the packet has no end |
| `PacketReader.EndStaysIffEnds` | native_android/whisper.cpp/examples/stb_vorbis.c:1539-1573 | reads past the last byte keep giving the end code exactly if no page without the flag comes before the end of the packet, except one that begins with an empty segment |
| `PacketReader.BrokenPacketReadsOn` | native_android/whisper.cpp/examples/stb_vorbis.c:1547-1549 | a packet broken off by a page without the flag: the end code, and then a byte of the next packet |
| `PacketReader.Vorb.StartPacket` | native_android/whisper.cpp/examples/stb_vorbis.c:1503-1515 | fails exactly if a page is needed and there is none, or one that continues a packet; otherwise bits can be read from the segment that comes next |
| `PacketReader.Vorb.NextSegment` | native_android/whisper.cpp/examples/stb_vorbis.c:1539-1560 | starts a segment, whatever the pages; 0 is returned exactly if the packet has no unread byte |
| `PacketReader.Vorb.Get8PacketRaw` | native_android/whisper.cpp/examples/stb_vorbis.c:1563-1573 | the byte read and the state after it, whatever the pages: the first unread byte of the reassembled packet, or the end code exactly if there is none |
| `PacketReader.BitsAreTaken` | native_android/whisper.cpp/examples/stb_vorbis.c:1623-1627 | masking gives the value of the first n pending bits, and shifting removes exactly them |
| `PacketReader.ByteIsMoved` | native_android/whisper.cpp/examples/stb_vorbis.c:1618-1619 | adding a byte above the valid bits leaves the string of pending bits as it was |
| `PacketReader.FilledIsEnough` | native_android/whisper.cpp/examples/stb_vorbis.c:1633-1647 | a refill ends with more than 24 bits or with all bits of the packet |
| `PacketReader.Vorb.PrepHuffman` | native_android/whisper.cpp/examples/stb_vorbis.c:1633-1647 | whatever the pages: a refill fills the accumulator as far as the packet and the width allow, and leaves the pending bits as they are exactly if there are more than 24 of them or the packet has an end; with an invalid accumulator it stays so exactly if no byte is left, and otherwise the shift is undefined |
| `PacketReader.BrokenRefillGoesOn` | native_android/whisper.cpp/examples/stb_vorbis.c:1639-1646 | a broken-off packet with nothing pending: after the end code the bits of the next packet are pending |
| `PacketReader.ReadsJoin` | native_android/whisper.cpp/examples/stb_vorbis.c:1605-1610 | two reads in a row make one: the value of m bits with the value of the next bits above it |
| `PacketReader.Vorb.GetBits` | native_android/whisper.cpp/examples/stb_vorbis.c:1599-1629 | whatever the pages: a read of n bits gives the value of the first n pending bits, lowest first, and removes them; past the end of the packet the reader is made invalid, and can be refilled then exactly if the packet has an end |
| `HuffmanTree.SplitFreeOk` | native_android/whisper.cpp/examples/stb_vorbis.c:1113-1127 | splitting a free block keeps the table: one block a level, each the upper half of its parent, deeper ones at lower addresses |
| `HuffmanTree.PlaceTiles` | native_android/whisper.cpp/examples/stb_vorbis.c:1097-1128 | placing a codeword keeps the tiling: every address is in exactly one codeword or one free block |
| `HuffmanTree.PlacesLowest` | native_android/whisper.cpp/examples/stb_vorbis.c:1103-1119 | the block taken is the lowest unused one of its size |
| `HuffmanTree.AssignTiles` | native_android/whisper.cpp/examples/stb_vorbis.c:1086-1130 | after any number of entries the codewords and free blocks tile the 32-bit space, and account for the Kraft sum of the lengths |
| `HuffmanTree.FailsIffOverfull` | native_android/whisper.cpp/examples/stb_vorbis.c:1086-1130 | assignment fails exactly if the sum of 2^-length over the coded entries exceeds 1 |
| `HuffmanCodes.AssignLeaves` | native_android/whisper.cpp/examples/stb_vorbis.c:1086-1130 | the codewords are those of the coded entries in order, each with its own length |
| `HuffmanCodes.EachGetsLowest` | native_android/whisper.cpp/examples/stb_vorbis.c:1103-1119 | every entry of the book has the lowest codeword that earlier entries left unused (section 3.2.1 of the Vorbis I specification) |
| `HuffmanCodes.PrefixFree` | native_android/whisper.cpp/examples/stb_vorbis.c:1086-1130 | no word begins with two codewords |
| `HuffmanBook.SplitAvailable` | native_android/whisper.cpp/examples/stb_vorbis.c:1117-1127 | the propagation loop writes the split of the specification into the table of free leaves |
| `HuffmanBook.Codebook.AddEntry` | native_android/whisper.cpp/examples/stb_vorbis.c:1075-1084 | records one more leaf in the tables, sparse or not, and keeps those recorded |
| `HuffmanBook.Codebook.ComputeCodewords` | native_android/whisper.cpp/examples/stb_vorbis.c:1086-1130 | returns false exactly if the assignment is overfull, and otherwise records the assigned codewords of all entries |
| `HuffmanTables.SearchSorted` | native_android/whisper.cpp/examples/stb_vorbis.c:1209-1221 | the halving search finds the last place whose codeword is at most the code, whichever that is |
| `HuffmanTables.BlockIsLast` | native_android/whisper.cpp/examples/stb_vorbis.c:1669-1681 | for a code inside a sorted codeword's block that place is the codeword's own |
| `HuffmanBook.Codebook.ComputeSorted` | native_android/whisper.cpp/examples/stb_vorbis.c:1179-1229 | the sorted table is ascending, holds exactly the codewords to be searched, and beside each stand its entry and length |
| `HuffmanTables.MarkFast` | native_android/whisper.cpp/examples/stb_vorbis.c:1147-1152 | the stepping loop sets exactly the table entries whose low bits are the codeword |
| `HuffmanTables.FastIsComplete` | native_android/whisper.cpp/examples/stb_vorbis.c:1140-1154 | once all places are done, the fast table lacks a short codeword only if its place is 32767 or later |
| `HuffmanBook.Codebook.ComputeAccelerated` | native_android/whisper.cpp/examples/stb_vorbis.c:1134-1155 | every hit of the fast table denotes an entry whose codeword the word begins with, and every short codeword whose place fits is hit |
| `HuffmanBook.Codebook.SetUp` | native_android/whisper.cpp/examples/stb_vorbis.c:3772-3844 | from the lengths to all tables, including the choice between sparse and plain books: succeeds exactly if the lengths do not ask for too many codewords |
| `HuffmanDecode.AccumulatorBegins` | native_android/whisper.cpp/examples/stb_vorbis.c:1656-1690 | pending bits start with a codeword exactly if the accumulator that holds them begins with it |
| `HuffmanDecode.OneStarts` | native_android/whisper.cpp/examples/stb_vorbis.c:1656-1711 | no bit string starts with two codewords |
| `HuffmanDecode.SearchSelects` | native_android/whisper.cpp/examples/stb_vorbis.c:1666-1684 | the halving search selects the entry whose codeword the accumulator begins with, if it is in the sorted table |
| `HuffmanDecode.LinearSearch` | native_android/whisper.cpp/examples/stb_vorbis.c:1694-1710 | the linear search finds an entry whose codeword the accumulator begins with, or there is none |
| `HuffmanDecode.CodebookDecodeScalarRaw` | native_android/whisper.cpp/examples/stb_vorbis.c:1656-1711 | the slow path returns the entry that the pending bits start with exactly if the path can find it and the refilled accumulator holds its codeword, and removes just the codeword; bits of the next packet come behind the rest only if at most 24 bits are pending in a packet without an end |
| `HuffmanDecode.HitDecodes` | native_android/whisper.cpp/examples/stb_vorbis.c:1720-1726 | a hit of the fast table decodes the codeword that the pending bits start with |
| `HuffmanDecode.MissIsSlow` | native_android/whisper.cpp/examples/stb_vorbis.c:1727-1729 | without a hit the slow path can find every entry that is reachable at all |
| `HuffmanDecode.DecodeRaw` | native_android/whisper.cpp/examples/stb_vorbis.c:1717-1729 | whichever path is taken and whatever the pages: the entry that the pending bits start with is returned exactly if it is reachable (not a short codeword at place 32767 or later of a plain book with a sorted table) and the refilled accumulator holds its codeword |
| `HuffmanDecode.Decode` | native_android/whisper.cpp/examples/stb_vorbis.c:1752-1754 | the same for symbols, through the values of a sparse book |
| `HuffmanDecode.ShortEnough` | native_android/whisper.cpp/examples/stb_vorbis.c:1633-1647 | a codeword of at most 25 bits is always in the refilled accumulator |
| `HuffmanDecode.AllReachable` | native_android/whisper.cpp/examples/stb_vorbis.c:1140-1143 | every entry is reachable in a sparse book, and in one of at most 32767 entries |
| `HuffmanDecode.DecodeAll` | native_android/whisper.cpp/examples/stb_vorbis.c:1717-1754 | decoding the codewords of any list of symbols with lengths of at most 25 gives the list back, whatever the pages, and leaves the bits after it |
| `HuffmanLimits.ShortCodewordIsLost` | native_android/whisper.cpp/examples/stb_vorbis.c:1140-1143 | a book of 32768 entries that the setup accepts, in which the shortest codeword is never found: its place does not fit the fast table |
| `HuffmanLimits.LongCodewordIsLost` | native_android/whisper.cpp/examples/stb_vorbis.c:1633-1684 | a book and a packet in which all 26 bits of a codeword are pending, and it is not decoded, since the refill stops at 25 |
| `Fourier.TransformedInParts` | native_android/whisper.cpp/src/whisper.cpp:3042-3053 | the coefficients stored are the sum of the values times the cosines of the table, and minus the sum of the values times its sines |
| `Fourier.RootHalf` | native_android/whisper.cpp/src/whisper.cpp:3015-3021 | half a turn negates a power of the root |
| `Fourier.Halving` | native_android/whisper.cpp/src/whisper.cpp:3060-3102 | the terms of even and odd index are two transforms of half the size, the second turned by k steps |
| `Fourier.Periodic` | native_android/whisper.cpp/src/whisper.cpp:3038-3054 | a transform is periodic in its coefficients |
| `Fourier.Butterfly` | native_android/whisper.cpp/src/whisper.cpp:3087-3101 | the two coefficients made from a pair of half-size coefficients |
| `Fourier.BuffersSuffice` | native_android/whisper.cpp/src/whisper.cpp:3107-3109 | buffers of twice and eight times the frame size are large enough for the scratch regions |
| `Fourier.DftInto` | native_android/whisper.cpp/src/whisper.cpp:3038-3054 | the naive loops store the defined coefficients, and write nothing else |
| `Fourier.Combine` | native_android/whisper.cpp/src/whisper.cpp:3087-3101 | the combining loop turns the two stored half transforms into the whole one, overwriting none of the values that it still needs |
| `Fourier.Fft` | native_android/whisper.cpp/src/whisper.cpp:3060-3102 | the recursive transform stores the coefficients that the naive one defines, for every size that divides the table's, leaves its input as it was, and writes only inside its regions |
| `TimeWarp.StepStaysInside` | native_android/whisper.cpp/src/whisper.cpp:8713-8722 | on the border cells the step chosen never leaves the table before the origin |
| `TimeWarp.BackPathIsWarp` | native_android/whisper.cpp/src/whisper.cpp:8730-8759 | the backtrace is a warping path from (0,0) to the last cell, of at most N + M - 1 steps, whose cost is the cost of the table |
| `TimeWarp.LeastIffNoTies` | native_android/whisper.cpp/src/whisper.cpp:8713-8722 | all costs of the table are least among warping paths exactly if no cell has its first two predecessors tied below the third |
| `TimeWarp.ReturnedIsLeastIff` | native_android/whisper.cpp/src/whisper.cpp:8713-8759 | the cost of the path that is returned is least exactly if some least warping path enters every such tie from the left |
| `TimeWarp.TieExample` | native_android/whisper.cpp/src/whisper.cpp:8713-8722 | a matrix for which such a tie makes the returned path cost more than another |
| `TimeWarp.FillTable` | native_android/whisper.cpp/src/whisper.cpp:8703-8728 | the two loops fill the cost and step tables of the specification |
| `TimeWarp.Backtrace` | native_android/whisper.cpp/src/whisper.cpp:8730-8759 | the rows of the backtrace, filled from the end, are the path; no row before the first is written |
| `TimeWarp.DtwAndBacktrace` | native_android/whisper.cpp/src/whisper.cpp:8690-8773 | the whole procedure returns that path |
| `EditDistance.NoFewerEdits` | native_android/whisper.cpp/examples/common.cpp:648-670 | no chain of single-character insertions, deletions and replacements is shorter than the recurrence says |
| `EditDistance.ThatManyEdits` | native_android/whisper.cpp/examples/common.cpp:648-670 | and some chain is that short |
| `EditDistance.DistanceIsLeast` | native_android/whisper.cpp/examples/common.cpp:648-670 | the recurrence is the least number of edits |
| `EditDistance.AtMostLonger` | native_android/whisper.cpp/examples/common.cpp:648-670 | it is at most the longer length |
| `EditDistance.ComputeColumn` | native_android/whisper.cpp/examples/common.cpp:659-665 | one turn of the outer loop turns the distances to one prefix into those to the next; the first column is computed twice |
| `EditDistance.Similarity` | native_android/whisper.cpp/examples/common.cpp:648-670 | one minus the distance over the longer length, between 0 and 1; not a number exactly if both strings are empty |
| `SpeechDetection.StepOk` | native_android/whisper.cpp/src/whisper.cpp:5242-5318 | every frame keeps the invariant of the state machine, sentinels included |
| `SpeechDetection.Detect` | native_android/whisper.cpp/src/whisper.cpp:5242-5323 | the loop with its early continues computes the fold of the steps, and pushes the segment still open at the end of the audio |
| `SpeechDetection.DetectedAreOrdered` | native_android/whisper.cpp/src/whisper.cpp:5242-5323 | the segments found are in order, not empty, within the audio, and begin at frames of speech |
| `SpeechStretches.StepReads` | native_android/whisper.cpp/src/whisper.cpp:5242-5318 | every frame takes the state machine on as the stretches say: what its variables mean in terms of pauses, marked pauses and the speech after them |
| `SpeechStretches.DetectedIsRead` | native_android/whisper.cpp/src/whisper.cpp:5242-5323 | the segments found are those of the stretches of the frames: each begins at the first speech after the last and ends at the first event, a pause that is long enough, too much length (at the last marked pause or else by a cut), or the end of the audio |
| `SpeechStretches.DetectedIsTheReading` | native_android/whisper.cpp/src/whisper.cpp:5242-5323 | the frames have only one such list of stretches, so that it decides what is found |
| `SpeechStretches.SpeechIsDetected` | native_android/whisper.cpp/src/whisper.cpp:5242-5323 | every frame of speech lies in a segment found, unless its stretch ends by a pause or with the audio and lasts at most the minimum, or is cut at this very frame |
| `SpeechStretches.DetectedIsStretch` | native_android/whisper.cpp/src/whisper.cpp:5242-5323 | every segment found is a stretch that is long enough: it ends where a pause that closes or splits it begins, at a cut, or with the audio |
| `SpeechSegments.MergedIsSpaced` | native_android/whisper.cpp/src/whisper.cpp:5325-5344 | after merging gaps are at least 200 ms, and every segment is inside a merged one |
| `SpeechSegments.MergedGaps` | native_android/whisper.cpp/src/whisper.cpp:5325-5344 | merging closes exactly the gaps of less than 200 ms; all others stay where they are, as do the first start and the last end |
| `SpeechSegments.Merge` | native_android/whisper.cpp/src/whisper.cpp:5325-5344 | the loop that steps back after an erase computes the merge |
| `SpeechSegments.FilteredIsLong` | native_android/whisper.cpp/src/whisper.cpp:5346-5355 | filtering keeps exactly the segments that are long enough, and the gaps |
| `SpeechSegments.PaddingWidens` | native_android/whisper.cpp/src/whisper.cpp:5370-5402 | padding widens every segment, keeps segments apart, and stays within the audio |
| `SpeechSegments.PaddingIsExact` | native_android/whisper.cpp/src/whisper.cpp:5370-5402 | a gap loses the padding on each side or, where that does not fit, is closed but for one sample if its length is odd; before the first segment and after the last the padding is added as far as the audio goes |
| `SpeechSegments.PadAndRound` | native_android/whisper.cpp/src/whisper.cpp:5370-5409 | the in-place loop, which also moves the start of the next segment, computes the padding of the specification |
| `SpeechSegments.SegmentsFromProbs` | native_android/whisper.cpp/src/whisper.cpp:5242-5411 | the whole: kept segments are at least 200 ms apart, long enough, and begin and end where stretches do; the result is in order, does not overlap, lies within the audio, and contains them; every frame of speech lies in it, but for stretches of at most the minimum and the frames of cuts |
| `TimeMap.MapIsMonotone` | native_android/whisper.cpp/src/whisper.cpp:7925-7964 | mapped times never run backwards, despite the integer division |
| `TimeMap.MapIsBounded` | native_android/whisper.cpp/src/whisper.cpp:7925-7964 | they stay between the first and the last original time |
| `TimeMap.MapHitsPoints` | native_android/whisper.cpp/src/whisper.cpp:7945-7948 | a point of the table is mapped to its own original time |
| `TimeMap.MapIsOnLine` | native_android/whisper.cpp/src/whisper.cpp:7958-7964 | between neighbours of the table the mapped time has come the same share of the way as the processed time, rounded down |
| `TimeMap.MapProcessedToOriginalTime` | native_android/whisper.cpp/src/whisper.cpp:7925-7964 | the early exits, the binary search and the interpolation compute that map: between neighbours its result is on their line, and without a table a time is its own |
| `TimeMap.TimesAreNearest` | native_android/whisper.cpp/src/whisper.cpp:4451-4457 | a hundredth of a second is 160 samples, and a number of samples is rounded to the nearest hundredth |
| `TimeMap.SegmentLineIs` | native_android/whisper.cpp/src/whisper.cpp:6729-6749 | a segment of more than a second gets a point every 200 ms from its start, but for its last 200 ms, and no others, all on the line from its start to its end |
| `TimeMap.PointOnLine` | native_android/whisper.cpp/src/whisper.cpp:6735-6748 | an intermediate point is comparable with every point made so far |
| `TimeMap.ChainIsIncreasing` | native_android/whisper.cpp/src/whisper.cpp:6777-6792 | whatever order the sort gives to equal processed times, keeping the first of each leaves strictly increasing processed and never decreasing original times |
| `TimeMap.CopiedPartIs` | native_android/whisper.cpp/src/whisper.cpp:6705-6716 | the samples of a segment that are copied: from its start to its end, with the overlap unless it is the last segment, and never the last sample of the audio |
| `TimeMap.EndsAreIn` | native_android/whisper.cpp/src/whisper.cpp:6715-6725 | the start and the end of every copied segment are among the points made |
| `TimeMap.VadState.BuildMapping` | native_android/whisper.cpp/src/whisper.cpp:6699-6792 | for any sorted disjoint segments the table is increasing in that sense, holds points of the segments only (ends, points between, silences), and has one for each of their processed times, among them the start and the end of every copied segment; every sample of a copied segment, its overlap included, is the sample of the audio that far after its start, with 0.1 s of silence between segments |
| `FloorCurve.DrawLine` | native_android/whisper.cpp/examples/stb_vorbis.c:2034-2081 | at every drawn position the height is the closed form, and nothing else is scaled |
| `FloorCurve.PredictIsOnLine` | native_android/whisper.cpp/examples/stb_vorbis.c:1935-1943 | a height on a line has come from y0 towards y1 by the same share as the position, rounded towards y0, and reaches y1 at the end |
| `FloorCurve.OneStep` | native_android/whisper.cpp/examples/stb_vorbis.c:2071-2079 | one step of error accumulation is one step of the quotient and the remainder |
| `FloorCurve.Neighbors` | native_android/whisper.cpp/examples/stb_vorbis.c:1303-1312 | returns the nearest lower and the nearest higher of the earlier positions |
| `FloorCurve.Floor1.SetUp` | native_android/whisper.cpp/examples/stb_vorbis.c:3985-4004 | fails exactly if two positions are the same; otherwise the order is strictly ascending and every neighbour pair encloses its position, so that no divisor is zero |
| `FloorCurve.CurveIsOne` | native_android/whisper.cpp/examples/stb_vorbis.c:3072-3108 | the curve has one height at each position |
| `FloorCurve.HeightFits` | native_android/whisper.cpp/examples/stb_vorbis.c:3209-3214 | whatever is read for the second position, its height indexes the table of factors |
| `FloorCurve.DoFloor` | native_android/whisper.cpp/examples/stb_vorbis.c:3072-3108 | every one of the n/2 targets is scaled once, by the factor of the curve's height there; heights on lines are masked, and the level end, which is not, has the height of the second position |
| `Utf8.DecodingInvertsEncoding` | native_android/whisper.cpp/src/whisper.cpp:5476-5530 | feeding the bytes of encoded code points gives the code points back |
| `Utf8.DecodeUtf8` | native_android/whisper.cpp/src/whisper.cpp:5476-5530 | on well-formed bytes, from any partial state, the loops compute the byte-by-byte decoder, and stop only at partial sequences that such bytes can leave; an invalid sequence gives the single code point 0 |
| `Utf8.DecodeChunks` | native_android/whisper.cpp/src/whisper.cpp:5860-5882 | chained over any cut of a valid text, decoding yields its code points |

## Left out

- The arithmetic inside a layer (vectors are symbolic), cross attention, backends, model loading, audio input and output, threads: calls into code outside these files.
- Softmax, log-probabilities, temperatures and entropy: sampled tokens and the order of candidates are arbitrary instead, and so is the rule that completes or fails a decoder by its tokens.
- Voice activity probabilities as numbers: a frame only knows whether it is at or above the threshold and whether it is below the lower one; that the two exclude each other is assumed; the clamp of the lower threshold makes it hold for thresholds of at least 0.01 only.
- A limit on the length of final speech segments: the merge pass can undo it, so none is claimed.
- White space, comments, escapes and code points of the grammar text: the compiler reads tokens; a newline is a token only where it ends a rule.
- Element pointers into another grammar copy's rules, and the lifetime of rules: positions are pairs of indices.
- Left-recursive grammars: the source does not end on them, and `NoLeftRecursion` is required of the notation.
- Undefined rule names: they compile to rules without elements; `AllDefined` requires that there are none.
- Rows of a batch with several sequence ids: the decode loop always uses one.
- What follows a failed search for a cache slot: it ends the run, as in the source.
- Padding of the attention window to powers of two: `Pad` rounds up to a multiple, which is the same for the powers used.
- The search for the next page and its checksum; a page without segments.
- PacketReader.Vorb.StartPacket: requires that the segment has been read to its end, as the callers see to; the source only forgets how much of it is left.
- PacketReader.Vorb.PrepHuffman: says nothing of the accumulator after a shift by a negative number of bits, which C leaves undefined.
- PacketReader.Vorb.GetBits: reading 32 bits with 32 in the accumulator is excluded, because the source's shift by 32 is undefined.
- HuffmanDecode.DecodeRaw: says nothing of the entry returned when the pending bits start with no codeword, since in an underfull book the binary search returns some neighbour.
- HuffmanBook.Codebook.SetUp: takes the lengths as given; reading them from the header, and the vector quantisation tables, are not modelled.
- Memory allocation, its failures, and the temporary memory of the setup.
- Residue decoding, inverse transforms, windowing, seeking and the push interface of the Vorbis decoder.
- The values of a floor before drawing: `DoFloor` takes the final heights, the second of them as it is read.
- The size reserved for the filtered samples before they are copied: they are a sequence that grows.
- The sort and the deduplication of the library: stood in for by insertion sorts, of which only sortedness and contents are used.
- Rounding errors of floating point in the Fourier transform, the warping costs and the times.
- Utf8.DecodeUtf8: on malformed text says only what a rejected call returns; there the result can depend on where the text is cut, since a following byte is checked only at the start of a chunk.
- TimeWarp.DtwAndBacktrace: requires at least one row and one column, since otherwise the source writes before its first row.
- The greedy tokenizers, the JSON reader, the audio ring buffer, servers, bindings and converters: they would add only easier members.
