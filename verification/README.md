# Translation engine: verified models of its data structures and codecs

Dafny models of the parts of the translation engine whose correctness is hardest to see, with proofs
that hold for every input, every run or every reachable state.

* **Korean double-array trie** (`ArrayTrie.dfy` over `TrieTree.dfy`, `CellChain.dfy`, `TailFile.dfy`,
  `Relocation.dfy`, `WordOrder.dfy`). A class with the cells, the tail bytes and the head fields of the
  program. It stands for a finite map from keys to data. The invariant ties together the ascending
  chain of free cells, the tree that the occupied cells form, the windows of its nodes, the records in
  the tail file and the map; `reserved` holds the cells that a relocation has taken off the chain and
  not yet written. A pointer into a key is an offset into the key and its terminator, and the null
  pointer that the program passes behind the terminator is the offset past it. Keys to be stored are
  non-empty, without bytes 0 and 1, of at most 495 bytes (a longer one does not fit the 500-byte tail
  buffer); data is between 0 and 2^31 - 1, since a negative search result means "absent". Any C string
  may be searched, removed or modified.
* **UTF-8 and UTF-16** (`Utf8Core.dfy`, `Utf8Text.dfy`, `Utf8Checked.dfy`, `Utf8Repair.dfy`,
  `Utf8Unchecked.dfy`). Octets, units and code points are bit vectors of the widths of the program, so
  that every shift and sum wraps as it does there. The reference is the ABNF in section 4 of RFC 3629
  and sections 2.1 and 2.2 of RFC 2781. An iterator is an offset; what an output iterator has written
  when an exception is thrown is part of each contract.
* **Thai clusters** (`Ctcc.dfy`, `ThaiClusters.dfy`). The segmenter with its states and classes, between the
  two codecs, and the patterns of classes that its clusters are proved to be.
* **RWLock** (`RWLock.dfy`). A monitor over any number of acquisitions, called threads. One stretch under
  the mutex is one step; the counters of the lock are proved to count the threads, and safety, absence of deadlock and
  progress are proved of the threads.
* **Translation scheduler** (`Schedule.dfy`, `UsrControlBlock.dfy`). The operations as steps on a state
  that also has the tasks in flight, and the classes whose methods are proved to make these steps.
* **TinyXML** (`XmlText.dfy`, `TextGrammar.dfy`, `XmlTree.dfy`, `XmlGrammar.dfy`, `XmlParser.dfy`,
  `XmlPrinter.dfy`, `XmlUtf8.dfy`, `XmlNode.dfy`). Entity coding, the recursive-descent parser, the printing
  visitor and the linked child list. The two grammars are relations that name no function of the reader;
  the parser is proved to find exactly what stands in them. A char is one byte, and a pointer into a document is the string from there to the terminating
  zero. White space is kept, as the program's default has it.
* **Japanese prefix index** (`PrefixIndex.dfy`). The nested nodes, proved against a log of insertions.

Some properties that one would expect do not hold. The models keep the code as it is; for each there is
the exact condition under which it holds, and an input on which it does not:

* `EncodeString` passes anything that begins with `&#x` through. In every encoding, a text of whole
  characters comes back exactly if that substring is not in it (`XmlText.ComesBackIff`,
  `XmlText.ReferenceIsLost`, and `XmlUtf8.ValidComesBackIff` for valid UTF-8).
* `prior` does not test whether the character it steps over reaches to where it started. Where it
  returns, it was right to exactly if the lead octet calls for as many octets as it went back
  (`Utf8Checked.PriorIsRight`, `Utf8Checked.PriorThenNext`, `Utf8Checked.PriorSkipsStrayTrail`).
* `tok` puts a space between the halves of a surrogate pair. It returns exactly for valid UTF-8 without
  characters outside the basic plane (`Ctcc.TokReturnsIff`, `Ctcc.SupplementaryThrows`).
* A text identifier may be used again, but not too early. Taking a text keeps the count of work exactly
  if no live text and no task that is out has its identifier (`Schedule.TakeKeepsIff`,
  `Schedule.ReusedIdReleasesEarly`).
* A caller may lock again while it holds the lock, once or more, but not safely. Nobody can go on exactly
  if everyone who holds the lock waits for it too and a writer holds it or waits, and then nobody ever
  can (`Monitor.NestedDeadlockIff`, `Monitor.StuckForGood`, `Monitor.ReaderLocksAgain`).
* A printed document comes back in normal form: texts that follow one another are one, and blank ones
  are dropped. Without references in it, it is the same document exactly if it was in that form
  (`XmlTree.DocumentRoundTrip`, `XmlTree.TextsMerge`).
* `Clone` drops documents below the root, cuts strings at a zero byte, stops at an empty attribute behind
  the first and merges attributes of one name. `XmlDom.CopyIff` says of exactly which trees it makes a
  true copy (`XmlDom.DocumentIsDropped`, `XmlDom.ZeroByteCuts`, `XmlDom.EmptyAttributeEndsCopy`,
  `XmlDom.RepeatedNameMerges`).

`dafny verify dfyconfig.toml` checks the whole project.

## Model

| member | source | states |
|---|---|---|
| DoubleArray.Perform | src/LanguageTools/korean/Source/ArrayTrie.cpp:533-681 | any run of insert, remove and modify_data on a new trie leaves it standing for exactly the map that the same run makes of an empty map |
| DoubleArray.KeysAreIndependent | src/LanguageTools/korean/Source/ArrayTrie.cpp:172-681 | a search after any run finds what it finds in a new trie that went through the operations on that key alone |
| DoubleArray.ArrayTrie.constructor | src/LanguageTools/korean/Source/ArrayTrie.cpp:45-72 | the new files satisfy the whole invariant and stand for the empty map |
| DoubleArray.ArrayTrie.Insert | src/LanguageTools/korean/Source/ArrayTrie.cpp:533-546 | adds the key only if it is absent (the first value wins), keeps every other key, and keeps the invariant; the empty key is ignored |
| DoubleArray.ArrayTrie.SubInsert | src/LanguageTools/korean/Source/ArrayTrie.cpp:548-629 | from any inner node that the word has reached: present keys change nothing, absent ones are added, through tail splits and relocations |
| DoubleArray.ArrayTrie.SplitTail | src/LanguageTools/korean/Source/ArrayTrie.cpp:557-574 | a leaf that passes the first byte of its record to a new child leaves the map as it is |
| DoubleArray.ArrayTrie.FillSlot | src/LanguageTools/korean/Source/ArrayTrie.cpp:575-589 | an unused slot becomes the leaf of the new word, and the map gains exactly that key |
| DoubleArray.ArrayTrie.Relocate | src/LanguageTools/korean/Source/ArrayTrie.cpp:590-628 | moving all children of a node to another base and hanging the new word there gains exactly that key |
| DoubleArray.ArrayTrie.MoveAll | src/LanguageTools/korean/Source/ArrayTrie.cpp:602-620 | moved one by one, cells are freed, reserved cells are filled and grandchildren renamed so that all but the last label have moved |
| TrieTree.MoveChildren | src/LanguageTools/korean/Source/ArrayTrie.cpp:590-628 | the tree with the children of one node moved to a fresh window is again a tree, with the same words at the moved cells |
| TrieTree.RelocateMeans | src/LanguageTools/korean/Source/ArrayTrie.cpp:590-628 | after the move and the new leaf the tree stands for the old map and the new key |
| TrieTree.SplitMeans | src/LanguageTools/korean/Source/ArrayTrie.cpp:557-574 | splitting a leaf changes neither the set of words nor their data |
| DoubleArray.ArrayTrie.Search | src/LanguageTools/korean/Source/ArrayTrie.cpp:172-205 | the data of a stored key, and -1 for every other string |
| DoubleArray.ArrayTrie.SubSearch | src/LanguageTools/korean/Source/ArrayTrie.cpp:356-427 | the data or -1, how far the walk came, whether the next slot is in use, where the data lies, and all stored prefixes on the way |
| TrieTree.AtLeaf | src/LanguageTools/korean/Source/ArrayTrie.cpp:361-388 | at a leaf, a word is stored exactly if the record holds the rest of it |
| TrieTree.AtInner | src/LanguageTools/korean/Source/ArrayTrie.cpp:389-425 | at an inner node there is a next byte, its slot lies in the file, and a stored word goes on to that child |
| TrieTree.Reach | src/LanguageTools/korean/Source/ArrayTrie.cpp:356-427 | every stored word that begins with the path of a node runs through that node |
| DoubleArray.ArrayTrie.ModifyData | src/LanguageTools/korean/Source/ArrayTrie.cpp:1024-1036 | overwrites the data of a present key only, and nothing else |
| DoubleArray.ArrayTrie.Remove | src/LanguageTools/korean/Source/ArrayTrie.cpp:631-640 | removes exactly that key and keeps the invariant |
| DoubleArray.ArrayTrie.SubRemove | src/LanguageTools/korean/Source/ArrayTrie.cpp:642-680 | whether the word was there; if so it is gone, and nodes left without children are freed up to the start of the walk |
| TrieTree.DropMeans | src/LanguageTools/korean/Source/ArrayTrie.cpp:648-657 | without its leaf, the tree stands for the map without that key |
| TrieTree.NodeMeans | src/LanguageTools/korean/Source/ArrayTrie.cpp:671-673 | a node without children can be freed without touching the map |
| DoubleArray.ArrayTrie.SearchLongest | src/LanguageTools/korean/Source/ArrayTrie.cpp:320-354 | entry k-1 tells for every k whether the first k bytes are a stored key (its length or its data, else -1); the result is the longest such k, or 0 |
| TrieTree.PrefixMarks | src/LanguageTools/korean/Source/ArrayTrie.cpp:374-397 | what the walk lists are exactly the lengths of the stored prefixes, in increasing order |
| DoubleArray.ArrayTrie.GetAllWords | src/LanguageTools/korean/Source/ArrayTrie.cpp:931-949 | the first max(0, min(cap - 1, number of keys)) keys in strictly increasing byte order |
| DoubleArray.ArrayTrie.GetAllWordsSub | src/LanguageTools/korean/Source/ArrayTrie.cpp:995-1022 | below any node, a sorted list of stored keys that is complete or full |
| WordOrder.ListingSize | src/LanguageTools/korean/Source/ArrayTrie.cpp:931-1022 | a complete-or-full sorted list has exactly that many keys, all of them stored |
| WordOrder.ListingAppend | src/LanguageTools/korean/Source/ArrayTrie.cpp:997-1021 | going on with the next label keeps the list sorted, free of repetitions, and complete or full |
| DoubleArray.ArrayTrie.GetNewSet | src/LanguageTools/korean/Source/ArrayTrie.cpp:731-755 | a base whose requested cells were all free; exactly these are unlinked, occupied cells are untouched and the window lies in the file |
| DoubleArray.ArrayTrie.IsAvailable | src/LanguageTools/korean/Source/ArrayTrie.cpp:791-803 | true exactly if every requested cell is unused or beyond the end of the file |
| DoubleArray.ArrayTrie.ModifyEmpty | src/LanguageTools/korean/Source/ArrayTrie.cpp:870-913 | extends the file as far as needed and takes exactly the cells of the labels off the free chain |
| DoubleArray.ArrayTrie.DetachAll | src/LanguageTools/korean/Source/ArrayTrie.cpp:893-912 | the walk along the chain unlinks every requested cell and no other |
| DoubleArray.ArrayTrie.CancelEmpty | src/LanguageTools/korean/Source/ArrayTrie.cpp:805-835 | takes the cell off the free chain if it is on it; the chain stays ascending and complete |
| DoubleArray.ArrayTrie.AddEmpty | src/LanguageTools/korean/Source/ArrayTrie.cpp:837-868 | puts the cell back in its place on the chain; all other cells stay in or out of use |
| CellChain.Unlink | src/LanguageTools/korean/Source/ArrayTrie.cpp:819-833 | bypassing one free cell leaves an ascending chain of all other free cells up to the count |
| CellChain.Link | src/LanguageTools/korean/Source/ArrayTrie.cpp:852-867 | linking a cell between its neighbours gives an ascending chain of all free cells |
| CellChain.Grow | src/LanguageTools/korean/Source/ArrayTrie.cpp:876-889 | extending the file keeps the chain and adds only free cells |
| CellChain.ChainStep | src/LanguageTools/korean/Source/ArrayTrie.cpp:736-749 | on the chain, nothing between one cell and the next is free |
| CellChain.Sort | src/LanguageTools/korean/Source/ArrayTrie.cpp:733-735 | distinct labels in ascending order, the same ones |
| DoubleArray.ArrayTrie.IsEmptySet | src/LanguageTools/korean/Source/ArrayTrie.cpp:682-691 | true exactly if no cell of the window is a child of the node |
| DoubleArray.ArrayTrie.GetAll | src/LanguageTools/korean/Source/ArrayTrie.cpp:916-929 | the labels of all children of the node, ascending |
| DoubleArray.ArrayTrie.TailOf | src/LanguageTools/korean/Source/ArrayTrie.cpp:501-531 | text, data and data position of the record, read from raw bytes |
| DoubleArray.ArrayTrie.AddTail | src/LanguageTools/korean/Source/ArrayTrie.cpp:699-729 | writes the record at the end or over one at least as long; every other record stays readable |
| TailFile.Overwrite | src/LanguageTools/korean/Source/ArrayTrie.cpp:699-729 | a record written over a longer one leaves all others in place |
| TailFile.Append | src/LanguageTools/korean/Source/ArrayTrie.cpp:699-729 | a record written at the end leaves all others in place |
| TailFile.Patch | src/LanguageTools/korean/Source/ArrayTrie.cpp:1033-1035 | rewriting four bytes in place changes the data of that record and nothing else |
| TailFile.ReadBack | src/LanguageTools/korean/Source/ArrayTrie.cpp:508-529 | the bytes of a record give back its text and its data |
| Utf8Core.ValidateNext | src/LanguageTools/thai/core.h:222-272 | OK exactly where a UTF8-char of section 4 of RFC 3629 begins; advances by its length or not at all; NOT_ENOUGH_ROOM exactly for a truncated character |
| Utf8Core.VerdictIsSyntax | src/LanguageTools/thai/core.h:98-132 | length, trail, range and overlong tests together are the ABNF of section 4 of RFC 3629 |
| Utf8Core.VerdictByOctets | src/LanguageTools/thai/core.h:222-272 | by ranges of the octets alone: an octet that is no lead, a text that ends too soon, an octet that is no trail, a surrogate or a number beyond 0x10FFFF, and a number written too long, each answered by its own error code and by no other |
| Utf8Core.Accept2 | src/LanguageTools/thai/core.h:163-176 | two octets pass all tests exactly if they are UTF8-2, and their value encodes back to them |
| Utf8Core.Accept3 | src/LanguageTools/thai/core.h:178-195 | three octets pass all tests exactly if they are UTF8-3, and their value encodes back to them |
| Utf8Core.Accept4 | src/LanguageTools/thai/core.h:197-218 | four octets pass all tests exactly if they are UTF8-4, and their value encodes back to them |
| Utf8Core.CharLengthIs | src/LanguageTools/thai/core.h:98-113 | at most one beginning of a text is a UTF8-char, of the length its first octet calls for |
| Utf8Core.CharDecodes | src/LanguageTools/thai/checked.h:136-154 | the value of a UTF8-char is a scalar value that append writes as the same octets |
| Utf8Core.CharEncodes | src/LanguageTools/thai/checked.h:72-96 | what append writes for a scalar value is a UTF8-char with that value, whatever follows |
| Utf8Core.GetSequence2 | src/LanguageTools/thai/core.h:163-176 | reads two octets or tells which test failed first |
| Utf8Core.GetSequence3 | src/LanguageTools/thai/core.h:178-195 | reads three octets or tells which test failed first |
| Utf8Core.GetSequence4 | src/LanguageTools/thai/core.h:197-218 | reads four octets or tells which test failed first |
| Utf8Checked.Append | src/LanguageTools/thai/checked.h:72-96 | writes the encoding of a scalar value, and throws for anything else without writing |
| Utf8Checked.Next | src/LanguageTools/thai/checked.h:136-154 | value and next position of a UTF8-char; otherwise throws and stays; the code point of an invalid_code_point is 0 |
| Utf8Checked.ComplaintByOctets | src/LanguageTools/thai/checked.h:136-154 | which of the three exceptions next throws, by ranges of the octets |
| Utf8Checked.AppendThenNext | src/LanguageTools/thai/checked.h:72-154 | next reads back what append wrote, wherever it was written |
| Utf8Checked.NextThenAppend | src/LanguageTools/thai/checked.h:72-154 | append writes back exactly the octets that next read |
| Utf8Checked.FindInvalid | src/LanguageTools/thai/core.h:287-297 | the first position at which no UTF8-char begins |
| Utf8Text.InvalidAtIsLongest | src/LanguageTools/thai/core.h:287-297 | the part before that position is valid and no longer beginning is |
| Utf8Checked.IsValid | src/LanguageTools/thai/core.h:299-303 | true exactly if the text is the encoding of some sequence of scalar values |
| Utf8Text.ValidIffEncoding | src/LanguageTools/thai/core.h:299-303 | valid texts are exactly the encodings of sequences of scalar values, and decoding finds that sequence |
| Utf8Text.DecodeEncode | src/LanguageTools/thai/checked.h:248-264 | decoding undoes encoding for every sequence of scalar values |
| Utf8Text.EncodeDecode | src/LanguageTools/thai/checked.h:248-264 | encoding undoes decoding up to the first invalid position |
| Utf8Checked.Utf8To32 | src/LanguageTools/thai/checked.h:257-264 | writes all values up to the first invalid position, and throws exactly if there is one |
| Utf8Checked.Utf32To8 | src/LanguageTools/thai/checked.h:248-255 | writes the encodings up to the first number that is no scalar value, and throws exactly if there is one |
| Utf8Checked.Distance | src/LanguageTools/thai/checked.h:196-204 | the number of characters up to the first invalid position; throws exactly if there is one |
| Utf8Text.SurrogatesOfRfc2781 | src/LanguageTools/thai/checked.h:238-241 | LEAD_OFFSET and TRAIL_SURROGATE_MIN give the surrogates of section 2.1 of RFC 2781, which join to the code point again |
| Utf8Text.PairOfRfc2781 | src/LanguageTools/thai/core.h:46-53 | (lead << 10) + trail + SURROGATE_OFFSET modulo 2^32 is the value of section 2.2 of RFC 2781, and splits into the pair again |
| Utf8Text.ValidIffPaired | src/LanguageTools/thai/checked.h:206-231 | UTF-16 decodes to its end exactly if no surrogate in it is unpaired |
| Utf8Checked.Utf8To16 | src/LanguageTools/thai/checked.h:233-246 | writes the UTF-16 of all characters up to the first invalid position |
| Utf8Checked.Utf16To8 | src/LanguageTools/thai/checked.h:206-231 | writes the UTF-8 of all characters up to the first unpaired surrogate, and throws naming the offending unit exactly if there is one |
| Utf8Checked.Utf8ThroughUtf16 | src/LanguageTools/thai/checked.h:206-246 | valid UTF-8 comes back from UTF-16 |
| Utf8Checked.Utf16ThroughUtf8 | src/LanguageTools/thai/checked.h:206-246 | well-paired UTF-16 comes back from UTF-8 |
| Utf8Checked.ThereAndBack8 | src/LanguageTools/thai/checked.h:206-246 | utf8to16 then utf16to8 returns any valid text, never throwing |
| Utf8Checked.ThereAndBack16 | src/LanguageTools/thai/checked.h:206-246 | utf16to8 then utf8to16 returns the text, and throws exactly if a surrogate is unpaired |
| Utf8Checked.Prior | src/LanguageTools/thai/checked.h:162-175 | where it goes back to, what it returns there, and each of its throws |
| Utf8Checked.NextThenPrior | src/LanguageTools/thai/checked.h:136-175 | prior goes back to where next came from, with the same value, wherever next succeeds |
| Utf8Checked.PriorReturns | src/LanguageTools/thai/checked.h:162-175 | prior returns wherever some character ends |
| Utf8Checked.PriorIsRight | src/LanguageTools/thai/checked.h:162-175 | where prior returns, some character ends there exactly if the lead octet it stopped at calls for as many octets as it went back, which it does not test |
| Utf8Checked.PriorThenNext | src/LanguageTools/thai/checked.h:136-175 | a returning prior read a character of the text, which next reads again; some character ended at the start exactly if prior returned and that character reaches to the start |
| Utf8Checked.PriorSkipsStrayTrail | src/LanguageTools/thai/checked.h:162-175 | an input on which prior succeeds though no character ends there |
| Utf8Repair.ReplaceInvalid | src/LanguageTools/thai/checked.h:98-127 | what is written and every way it ends, for any replacement, valid or not; it terminates |
| Utf8Repair.RepairIsValid | src/LanguageTools/thai/checked.h:98-127 | with a valid replacement the output is valid UTF-8, whatever the input |
| Utf8Repair.OneMarkEach | src/LanguageTools/thai/checked.h:109-124 | valid text is kept, and then exactly one mark stands for an octet that begins no sequence, or for one that does together with all trail octets after it |
| Utf8Repair.StuckAfter | src/LanguageTools/thai/checked.h:109-110 | where the text ends inside a character, the valid text before it is all that is written |
| Utf8Repair.RepairKeepsValid | src/LanguageTools/thai/checked.h:98-127 | valid input is left as it is |
| Utf8Repair.RepairTwice | src/LanguageTools/thai/checked.h:98-127 | repairing twice is repairing once |
| Utf8Repair.MarkIsValid | src/LanguageTools/thai/checked.h:129-134 | any scalar value, the default 0xfffd among them, makes a valid replacement |
| Utf8Repair.StuckIffTruncated | src/LanguageTools/thai/checked.h:109-110 | not_enough_room is thrown exactly if the text ends inside a character |
| Utf8Unchecked.Next | src/LanguageTools/thai/unchecked.h:60-89 | on a UTF8-char, the value and the position that the checked next gives |
| Utf8Unchecked.Prior | src/LanguageTools/thai/unchecked.h:97-103 | back to the last octet that is no trail, with its value |
| Utf8Unchecked.NextThenPrior | src/LanguageTools/thai/unchecked.h:60-103 | the unchecked step back undoes the unchecked step forward on well-formed text |
| Utf8Unchecked.Distance | src/LanguageTools/thai/unchecked.h:119-127 | on valid text, the number of characters |
| Utf8Unchecked.Utf8To16 | src/LanguageTools/thai/unchecked.h:144-157 | on valid text, the same as the checked form |
| Utf8Unchecked.Utf16To8 | src/LanguageTools/thai/unchecked.h:129-142 | on well-paired text, the same as the checked form |
| Utf8Unchecked.Utf8To32 | src/LanguageTools/thai/unchecked.h:168-175 | on valid text, the same as the checked form |
| Utf8Unchecked.Utf32To8 | src/LanguageTools/thai/unchecked.h:159-166 | the encodings one after the other |
| Ctcc.Segment | src/LanguageTools/thai/ctcc.h:87-338 | the loop writes a space before each cluster; which these are, ThaiClusters.SegmentationIsGreedy says |
| Ctcc.Segmented | src/LanguageTools/thai/ctcc.h:87-338 | the clusters put together are the text, with a space before each they are what is written, and each ends where the next begins |
| Ctcc.ClustersAreShort | src/LanguageTools/thai/ctcc.h:87-338 | a cluster that begins with no digit, letter or space has at most six units, none of these kinds |
| Ctcc.RunsAreMaximal | src/LanguageTools/thai/ctcc.h:290-318 | Thai digits, digits, letters and spaces come in runs of one kind that cannot be longer |
| ThaiClusters.WalkIff | src/LanguageTools/thai/ctcc.h:87-318 | the automaton goes through more than one unit without a restart exactly if they are a run of one kind or begin one of 25 patterns of character classes |
| ThaiClusters.ClustersAreGreedy | src/LanguageTools/thai/ctcc.h:87-338 | every cluster is a single unit or belongs together by the patterns, and would not if the first unit of the next cluster were added |
| ThaiClusters.OnlyDivision | src/LanguageTools/thai/ctcc.h:87-338 | a text has only one division of which that holds |
| ThaiClusters.SegmentationIsGreedy | src/LanguageTools/thai/ctcc.h:87-338 | so what is written is that division with a space before each part, for every text |
| ThaiClusters.ConsonantAndVowel | src/LanguageTools/thai/ctcc.h:250-263 | a consonant and the vowel sign after it stay together |
| Ctcc.TokThrowsIff | src/LanguageTools/thai/ctcc.h:78-346 | on valid UTF-8, tok throws exactly if some character is outside the basic plane |
| Ctcc.SupplementaryThrows | src/LanguageTools/thai/ctcc.h:78-346 | an input that tok throws for, the four octets of U+1F600 |
| Ctcc.TokReturnsIff | src/LanguageTools/thai/ctcc.h:78-346 | for any octets, tok returns exactly if they are valid UTF-8 without a character outside the basic plane; the output is then valid and loses nothing but the added spaces |
| Ctcc.Tok | src/LanguageTools/thai/ctcc.h:78-346 | what is returned, the clusters of the text with a space before each, and which exception for which input |
| Monitor.Reachable | src/Common/RWLock.cc:15-91 | in every crowd of threads that any run leads to, readers and a writer exclude each other and no wakeup is lost |
| Monitor.StepKeepsInv | src/Common/RWLock.cc:15-91 | every critical section keeps that, whichever thread notify_one wakes and whoever wakes up without cause |
| Monitor.WritersFirst | src/Common/RWLock.cc:23-29 | no reader gets the lock while a writer waits for it or holds it |
| Monitor.StepMoves | src/Common/RWLock.cc:15-91 | where each thread is after a step, by where the threads were: readers get in exactly if no writer is inside or waits, a writer exactly if nobody is inside, a thread that leaves wakes a sleeping writer if nobody is inside any more, and all sleeping readers if no writer is inside or waits |
| Monitor.OpenIff | src/Common/RWLock.cc:23-61 | the tests on the counters come to that: no writer anywhere for a reader, nobody inside for a writer |
| Monitor.NoDeadlock | src/Common/RWLock.cc:15-91 | while any thread is inside, some thread can get the lock or give it back |
| Monitor.NestedDeadlockIff | src/Common/RWLock.cc:15-91 | whatever acquisitions belong to one caller, who cannot give one back while it waits for another: nobody can go on exactly if every holder's caller waits and a writer holds the lock or waits |
| Monitor.StuckForGood | src/Common/RWLock.cc:15-91 | such a deadlock lasts through every further call and every wakeup without cause |
| Monitor.ReaderLocksAgain | src/Common/RWLock.cc:15-34 | a run to such a deadlock: a reader, a waiting writer, and the reader again |
| Monitor.QuietStep | src/Common/RWLock.cc:21-89 | every step but a new call or a causeless wakeup does some of the remaining work or puts one more thread to sleep |
| Monitor.EveryoneIsServed | src/Common/RWLock.cc:15-91 | once no new call comes in, every run is of bounded length, and one that goes on as long as it can leaves no thread waiting |
| Monitor.RWLock.constructor | src/Common/RWLock.cc:7-9 | a new lock, with no threads |
| Monitor.RWLock.ReadLock | src/Common/RWLock.cc:15-34 | the call returns exactly if no writer is inside, asleep or woken; otherwise the thread sleeps |
| Monitor.RWLock.ReadAgain | src/Common/RWLock.cc:21-32 | after waking up, the same once more |
| Monitor.RWLock.ReadUnlock | src/Common/RWLock.cc:36-53 | the thread leaves, and those wake up whom it has to wake; the assertion on the hold flag holds |
| Monitor.RWLock.WriteLock | src/Common/RWLock.cc:55-73 | the call returns exactly if nobody reads or writes; otherwise the thread sleeps |
| Monitor.RWLock.WriteAgain | src/Common/RWLock.cc:61-72 | after waking up, the same once more |
| Monitor.RWLock.WriteUnlock | src/Common/RWLock.cc:75-91 | the thread leaves, and those wake up whom it has to wake; the assertion on the hold flag holds |
| Schedule.WorkIsConserved | src/TransController/UsrControlBlock.h:33-78 | in every state that a run reaches in which texts are taken under free identifiers only, each cell of a live text not done before is in exactly one of pending, in flight, done |
| Schedule.OpKeeps | src/TransController/UsrControlBlock.cc:5-171 | every operation keeps that, also for texts with cells done before they are submitted and for identifiers that have come free again |
| Schedule.OpChanges | src/TransController/UsrControlBlock.cc:5-171 | what each operation does to each live text and to the tasks that are out |
| Schedule.OpOrder | src/TransController/UsrControlBlock.cc:5-171 | where each operation leaves the texts in the list: the texts that a task passes over go to the end in their order, and no other operation moves any |
| Schedule.SuspendStops | src/TransController/UsrControlBlock.cc:78-116 | after Suspend no run without Rerun, and without taking that identifier again once it is free, gives a task for the text |
| Schedule.RerunWaits | src/TransController/UsrControlBlock.cc:91-102 | after Rerun a live text waits for a task exactly if it has a pending cell |
| Schedule.NoCellTwice | src/TransController/UsrControlBlock.cc:104-128 | a task is given for a pending cell of a ready text that is not in flight, nor done unless it was done before |
| Schedule.ReleasedWhenDone | src/TransController/UsrControlBlock.cc:130-159 | a text is released exactly when all its cells are done, with none of its own work pending or in flight |
| Schedule.TakeKeepsIff | src/TransController/UsrControlBlock.cc:5-17 | a text with work can be taken without breaking conservation exactly if no live text and no task that is out has its identifier |
| Schedule.IdComesFree | src/TransController/UsrControlBlock.cc:32-171 | the identifier of a text taken out is free again exactly when the last task with it has come back |
| Schedule.ReusedIdReleasesEarly | src/TransController/UsrControlBlock.cc:19-33 | an input with an identifier that is not free: a late answer releases a text whose only cell still waits |
| Schedule.NoTaskNoWork | src/TransController/UsrControlBlock.cc:104-128 | there is no task exactly if no ready text has work, and then the list is unchanged |
| Schedule.OpMovesForward | src/TransController/UsrControlBlock.cc:104-128 | no operation on other texts puts a waiting text back, and a task for another one moves it forward |
| Schedule.Fairness | src/TransController/UsrControlBlock.cc:104-128 | a text that stays ready with work is passed over at most as often as there are texts before it, whatever else goes on |
| UsrControl.UsrControlBlock.Submit | src/TransController/UsrControlBlock.cc:5-17 | appends the text, or refuses one with nothing to do |
| UsrControl.UsrControlBlock.FindTextBlock | src/TransController/UsrControlBlock.cc:19-33 | the first block with that identifier |
| UsrControl.UsrControlBlock.Cancel | src/TransController/UsrControlBlock.cc:35-49 | takes the block out and hands its text back, or tells that there is none |
| UsrControl.UsrControlBlock.GetTransText | src/TransController/UsrControlBlock.cc:63-76 | takes the block out as well |
| UsrControl.UsrControlBlock.Suspend | src/TransController/UsrControlBlock.cc:78-89 | no live text of that identifier is ready afterwards |
| UsrControl.UsrControlBlock.Rerun | src/TransController/UsrControlBlock.cc:91-102 | the text waits for a task afterwards exactly if it has a pending cell |
| UsrControl.UsrControlBlock.CreateTask | src/TransController/UsrControlBlock.cc:104-128 | the rotation of the list gives the task of the first block whose turn it is, and the list it leaves |
| UsrControl.UsrControlBlock.Success | src/TransController/UsrControlBlock.cc:130-159 | stores the translation of the cell unless it has one, leaves all others, and releases the text when it was the last |
| UsrControl.UsrControlBlock.Failed | src/TransController/UsrControlBlock.cc:161-171 | the cell is pending again |
| UsrControl.TextBlock.constructor | src/TransController/UsrControlBlock.h:33-41 | all cells are pending |
| UsrControl.TextBlock.GetUnTransSrc | src/TransController/UsrControlBlock.h:43-59 | gives out the least pending cell |
| UsrControl.TransText.SetTransResult | src/TransText/TransText.cc:102-128 | the first result of a cell stays, and the count is that of the done flags |
| UsrControl.UsrControlBlock.Record | src/TransController/UsrControlBlock.cc:143-143 | the cells of the text afterwards, and whether they are all done |
| XmlText.ComesBackIff | src/TinyXml/tinyxmlparser.cc:576-639 | in every encoding, a text of whole characters comes back, the cursor just past the delimiter, exactly if it contains no "&#x" |
| XmlText.ReferenceIsLost | src/TinyXml/tinyxml.cc:61-83 | an input that does not come back |
| XmlText.Shrinks | src/TinyXml/tinyxmlparser.cc:440-597 | what is read from the encoding of a text up to its end is no longer than the text, and shorter if a reference begins in the text |
| XmlText.ReadBack | src/TinyXml/tinyxmlparser.cc:576-639 | ReadText undoes EncodeString for texts of whole characters without references |
| XmlUtf8.ValidComesBackIff | src/TinyXml/tinyxml.h:330-364 | in UTF-8 mode, of the texts that are valid UTF-8 exactly those without "&#x" come back |
| XmlText.HexFreeIs | src/TinyXml/tinyxml.cc:61-83 | the condition means that "&#x" occurs nowhere |
| XmlText.EncodedIsClean | src/TinyXml/tinyxml.cc:53-134 | without references, no delimiter and no control character is written |
| XmlText.EscapeReads | src/TinyXml/tinyxmlparser.cc:440-533 | each predefined entity of section 4.6 of XML 1.0 and each two-digit reference is read as its character |
| XmlText.HexReferenceReads | src/TinyXml/tinyxmlparser.cc:452-503 | a hexadecimal reference of any length whose number fits 32 bits is read as the character of that number, most significant digit first, in upper or lower case |
| XmlText.DecimalReferenceReads | src/TinyXml/tinyxmlparser.cc:480-503 | a decimal one likewise |
| XmlText.ReferenceFails | src/TinyXml/tinyxmlparser.cc:466-498 | anything but digits before the first semicolon makes the text unreadable |
| XmlText.NoSemicolonFails | src/TinyXml/tinyxmlparser.cc:452-490 | so does a reference without a semicolon |
| XmlUtf8.Utf8OfIsEncode | src/TinyXml/tinyxmlparser.cc:90-128 | ConvertUTF32ToUTF8 writes what append of the UTF-8 library writes, for every number below 0x200000 |
| XmlUtf8.DecimalReferenceIsCharacter | src/TinyXml/tinyxmlparser.cc:480-503 | in UTF-8 mode a decimal reference to a scalar value is read as the UTF-8 of that value |
| XmlUtf8.HexReferenceIsCharacter | src/TinyXml/tinyxmlparser.cc:452-503 | in UTF-8 mode a hexadecimal reference to a scalar value is read as the UTF-8 of that value |
| TextGrammar.EntityIs | src/TinyXml/tinyxmlparser.cc:440-533 | for every text after an ampersand and every encoding: the entity read, whatever its number, and nothing at all for an ampersand that begins none |
| TextGrammar.TextIs | src/TinyXml/tinyxmlparser.cc:587-597 | ReadText finds a text exactly if it stands there, as a grammar of characters, entities and the delimiter says |
| TextGrammar.TermsAreNumber | src/TinyXml/tinyxmlparser.cc:440-503 | the sum of the digits, each product cut to 32 bits, is the number they write unless that is too large |
| XmlText.ReferencePasses | src/TinyXml/tinyxml.cc:61-83 | in what EncodeString writes, a reference stands as it was up to its semicolon, whatever is in it |
| XmlText.OpenReferencePasses | src/TinyXml/tinyxml.cc:61-83 | one without a semicolon stands as it was up to the last character of the text |
| XmlText.EncodeKeeps | src/TinyXml/tinyxml.cc:53-134 | a text without control characters and without the five characters that have a name is written as it is |
| XmlText.EncodeString | src/TinyXml/tinyxml.cc:53-134 | the loop writes the encoding, references passed through |
| XmlText.ReadTextLoop | src/TinyXml/tinyxmlparser.cc:587-597 | the loop reads up to the end tag |
| XmlText.GetCharAt | src/TinyXml/tinyxml.h:330-364 | one character, copied byte by byte, or what the entity at the cursor stands for |
| XmlText.GetEntityAt | src/TinyXml/tinyxmlparser.cc:440-533 | the reference by its digits, the predefined entity by the table, or nothing: exactly what TextGrammar.EntityIs says stands there |
| XmlText.ReadDigits | src/TinyXml/tinyxmlparser.cc:466-479 | the digit loop, with its 32-bit products; that it reads the number is XmlText.HexReferenceReads and XmlText.DecimalReferenceReads |
| XmlText.StringEqual | src/TinyXml/tinyxmlparser.cc:536-574 | true exactly if the tag comes next |
| XmlTree.AttributeReads | src/TinyXml/tinyxmlparser.cc:1391-1466 | Parse undoes Print for an attribute, whichever quote was chosen |
| XmlTree.ElementReads | src/TinyXml/tinyxmlparser.cc:1051-1176 | parsing a printed element rebuilds it in normal form (texts that follow one another made one, blank ones dropped) and stops just behind it |
| XmlTree.ChildrenRead | src/TinyXml/tinyxmlparser.cc:1179-1248 | the children are rebuilt in order and in normal form, up to the end tag |
| XmlTree.RunStep | src/TinyXml/tinyxmlparser.cc:1179-1248 | texts printed one after the other are read as one text up to the next tag, or as none if that is blank |
| XmlTree.DocumentNormalizes | src/TinyXml/tinyxmlparser.cc:706-798 | what a document without references comes back as, from its stream print or, if tidy, from a print with any indents and line breaks: its normal form |
| XmlTree.CanonicalIff | src/TinyXml/tinyxmlparser.cc:1179-1248 | the normal form is the document itself exactly if no text is blank and no two texts follow one another |
| XmlTree.DocumentRoundTrip | src/TinyXml/tinyxmlparser.cc:706-798 | so that is exactly when a document without references comes back |
| XmlTree.TextsMerge | src/TinyXml/tinyxmlparser.cc:1179-1248 | an input that does not come back: two texts in one element |
| XmlGrammar.ElementIs | src/TinyXml/tinyxmlparser.cc:1042-1176 | for every text: an element is read, just up to u, exactly if one stands there, by a grammar of tag, attributes of different names, and an empty tag's end or content and the end tag of the same name |
| XmlGrammar.ContentIs | src/TinyXml/tinyxmlparser.cc:1179-1248 | the same for the texts and elements inside |
| XmlGrammar.AttributeIs | src/TinyXml/tinyxmlparser.cc:1391-1466 | the same for an attribute, quoted or not |
| XmlGrammar.DocumentIs | src/TinyXml/tinyxmlparser.cc:706-798 | the same for a document |
| XmlGrammar.MismatchFails | src/TinyXml/tinyxmlparser.cc:1126-1136 | a tag whose content ends in the end tag of another element is no element |
| XmlGrammar.UnclosedChild | src/TinyXml/tinyxmlparser.cc:1126-1136 | an input of that kind |
| XmlPrinter.PrintThenParse | src/TinyXml/tinyxml.cc:1760-1858 | the same for the printer object and the parser's loops, in stream mode and with the default indents: the normal form, which is the document exactly if no text is blank or next to another |
| XmlPrinter.Printer.Accept | src/TinyXml/tinyxml.cc:848-859 | the visits of a node and all below it add exactly its print and restore depth and mode |
| XmlPrinter.Printer.VisitEnter | src/TinyXml/tinyxml.cc:1770-1804 | the opening tag with the attributes that First and Next lead to, and the mode for an only text |
| XmlPrinter.Printer.AddAttributes | src/TinyXml/tinyxml.cc:1776-1780 | the loop over the attributes, which ends before an empty one behind the first |
| XmlTree.PassedIff | src/TinyXml/tinyxml.cc:1175-1182 | First and Next lead to all attributes exactly if none but the first has an empty name and an empty value |
| XmlPrinter.Printer.VisitExit | src/TinyXml/tinyxml.cc:1807-1830 | the end tag, if there were children |
| XmlPrinter.Printer.VisitText | src/TinyXml/tinyxml.cc:1833-1858 | the encoded text, on a line of its own unless it is an only child |
| XmlPrinter.AppendAttribute | src/TinyXml/tinyxml.cc:1216-1239 | name, quote by content, encoded value |
| XmlTree.QuoteFits | src/TinyXml/tinyxml.cc:1223-1238 | the quotes around a value occur in it only if both kinds do; double quotes if neither does |
| XmlPrinter.SamplePrint | src/TinyXml/tinyxml.cc:1760-1858 | a print in the default style, line by line |
| XmlParser.ParseElementAt | src/TinyXml/tinyxmlparser.cc:1051-1176 | the loop over the attributes and what follows reads exactly what XmlGrammar.ElementIs says stands there |
| XmlParser.ReadValueAt | src/TinyXml/tinyxmlparser.cc:1179-1248 | the loop over texts and elements is the parse of a value |
| XmlParser.ParseAttributeAt | src/TinyXml/tinyxmlparser.cc:1391-1466 | name, equals sign and value, quoted or not |
| XmlParser.ParseDocumentAt | src/TinyXml/tinyxmlparser.cc:706-798 | the loop over the top level |
| XmlParser.ReadNameAt | src/TinyXml/tinyxmlparser.cc:403-438 | the longest name there is |
| XmlDom.TiXmlNode.LinkEndChild | src/TinyXml/tinyxml.cc:186-210 | appends to the sequence of children and keeps all links in agreement; a document is refused |
| XmlDom.TiXmlNode.Clone | src/TinyXml/tinyxml.cc:826-1148 | a new tree that shows the copy of what the old one shows, none of its nodes shared; the old tree is as it was, whatever its strings and attributes are |
| XmlDom.TiXmlNode.CopyTo | src/TinyXml/tinyxml.cc:826-846 | a new node gets the value up to a zero byte, for an element what CopyAttributes makes of the attributes, and for an element or a document copies of the children |
| XmlDom.TiXmlNode.CopyAttributes | src/TinyXml/tinyxml.cc:831-839 | the attributes that First and Next lead to are set one by one, as C strings |
| XmlDom.TiXmlNode.SetAttribute | src/TinyXml/tinyxml.cc:719-741 | the first attribute of that name gets the value, or one is added at the end; distinct names stay distinct |
| XmlDom.CopyIff | src/TinyXml/tinyxml.cc:826-1148 | Clone makes a true copy exactly of trees in which only elements have attributes, only elements and documents have children, no document is a child, no string has a zero byte, no attribute but the first of its element is empty, and no element has two attributes of one name |
| XmlDom.AttributesCopyIff | src/TinyXml/tinyxml.cc:831-839 | the same for the attributes of one element |
| XmlDom.EmptyAttributeEndsCopy | src/TinyXml/tinyxml.cc:1175-1182 | an input that Clone does not copy: an empty attribute between two others |
| XmlDom.ZeroByteCuts | src/TinyXml/tinyxml.cc:162-166 | an input that Clone does not copy: a zero byte in a value and in the name and the value of an attribute |
| XmlDom.RepeatedNameMerges | src/TinyXml/tinyxml.cc:719-734 | an input that Clone does not copy: two attributes of one name |
| XmlDom.DocumentIsDropped | src/TinyXml/tinyxml.cc:292-317 | an input that Clone does not copy: an element with a document under it, as ReplaceChild can make it |
| XmlDom.TiXmlNode.InsertBeforeChild | src/TinyXml/tinyxml.cc:228-257 | a copy of the whole tree under the given node is inserted before that child; nothing changes if it is none of this node's, or for a document |
| XmlDom.TiXmlNode.InsertAfterChild | src/TinyXml/tinyxml.cc:260-289 | a copy of the whole tree is inserted after that child, under the same conditions |
| XmlDom.TiXmlNode.ReplaceChild | src/TinyXml/tinyxml.cc:292-317 | a copy of the whole tree takes the place of that child, even if it is a document |
| XmlDom.TiXmlNode.RemoveChild | src/TinyXml/tinyxml.cc:320-340 | that child is taken out |
| XmlDom.TiXmlNode.NthChild | src/TinyXml/tinyxml.cc:1684-1700 | following next passes the children in order |
| XmlDom.TiXmlNode.NthLast | src/TinyXml/tinyxml.h:534-619 | following prev from the last child passes them in reverse |
| XmlDom.TiXmlNode.InsertedLinks | src/TinyXml/tinyxml.cc:228-289 | with the neighbours relinked, every child of the new list agrees with its place |
| PrefixIndex.QueryIsLog | src/LanguageTools/japanese/TrieTree.cpp:74-89 | a query answers what going through the log of insertions would, for every prefix of whole characters in increasing length |
| PrefixIndex.AnswersIff | src/LanguageTools/japanese/TrieTree.cpp:74-89 | a line is answered exactly if it stands for an inserted entry whose key is such a prefix |
| PrefixIndex.InsertInfos | src/LanguageTools/japanese/TrieTree.cpp:45-64 | inserting adds the info at the end of what its key has, and changes no other key |
| PrefixIndex.InsertInner | src/LanguageTools/japanese/TrieTree.cpp:45-64 | the recursion over the key makes that insertion |
| PrefixIndex.QueryInner | src/LanguageTools/japanese/TrieTree.cpp:74-89 | the recursion over the string appends those answers |
| PrefixIndex.TrieTree.Insert | src/LanguageTools/japanese/TrieTree.cpp:40-43 | adds one entry to the log that the index stands for |
| PrefixIndex.TrieTree.Query | src/LanguageTools/japanese/TrieTree.cpp:66-72 | answers from that log |

## Left out

- DoubleArray.ArrayTrie.SearchLongest: at most 300 stored prefixes, the size of the program's pointer array; with more it writes past the array. The array is cleared by `300 * 4` bytes, which is all of it on platforms with four-byte pointers; with eight-byte pointers the second half keeps what it held.
- DoubleArray.ArrayTrie.GetAllWords: takes the capacity as a parameter; the program takes its key count, which the relocation path does not always advance.
- DoubleArray.ArrayTrie.AddTail: positions are unbounded integers; the 32-bit overflow of a file of more than 2 GB is not modelled.
- `substring_search`, `getAllWords_startWith`, the current-length output of `sub_search`, the MySQL, byte-swapping and in-memory variants, opening existing files, and the C library's `qsort` beyond its result (`CellChain.Sort`).
- Local copies that the program reloads from the file (`past_elem`, block buffers) are read from the cells instead; a file is a sequence, and input and output errors do not occur.
- Utf8Checked.Next: one range per call; the iterator classes, `advance`, `previous` and the byte order mark test are not modelled.
- Utf8Unchecked.Prior: needs an octet before the position that is no trail; without one the program reads before its buffer.
- Monitor.EveryoneIsServed: without new calls; with a stream of new writers readers may wait for ever, which the writer preference means.
- Monitor.RWLock.ReadLock: the counters are unbounded integers.
- UsrControl.UsrControlBlock.Submit: a text that is not refused is counted correctly and its identifier is free (no live text and no task that is out has it), the exact condition by `Schedule.TakeKeepsIff`; source and target texts, time logs, percentage reports, the pointer back to the controller and the task's language are left out.
- `GetTransTextCopy` (the lookup alone) and the accessors.
- XmlTree.ParseElement: declarations, comments, CDATA, unknown nodes and a value without its closing quote end the modelled parse with `Other`; error codes, positions, row and column stamps and the tree that a failed parse leaves behind are not modelled.
- XmlTree.DocumentRoundTrip: for the default encoding; the parser's white-space rule for UTF-8 mode (which also skips byte order marks) and condensed white space are not modelled. Names are those that ReadName accepts and attribute names are distinct. Values and texts are without `&#x`; that a single one with a reference does not come back is `XmlText.ComesBackIff`; what a text with references is read as is `XmlGrammar.DocumentIs`, but when a whole printed document with a reference in it comes back is not stated.
- XmlPrinter.Printer.Accept: the tree is a value, built by the parser as a value; the links between its nodes are the business of `XmlDom`.
- XmlText.ReadDigits: for platforms where `unsigned long` has 64 bits; where it has 32, the sum wraps earlier.
- XmlText.ComesBackIff: in UTF-8 mode, for texts whose multi-byte characters are whole, valid UTF-8 among them; the last bytes of any other text can take in the delimiter.
- XmlText.StringEqual: compares with regard to case, as all modelled callers do.
- XmlDom.TiXmlNode.Clone: attributes are a sequence of pairs, without the links and the sentinel of their list; user data, the CDATA flag of a text, the fields of a declaration and of a document, deletion of memory, the assertion that two documents are not mixed, and `SetError` are left out. The node to be copied is the root of a finite tree, which the ghost arguments describe.
- PrefixIndex.Insert: for non-empty keys of whole characters; for others the program throws from `substr` half-way. `insert_file` is left out.
- PrefixIndex.TrieNode: nodes are values, as they lie in their parent's vector; the index has no other way to share them.
- Ctcc.Tok: the loop is a method; the switch inside it is a function of state and unit.
- The dictionaries, the perceptron and entropy models, language models, database, network, session, event and configuration code.
