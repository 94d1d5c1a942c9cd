# Verified models for the SGX runtime

This project models the parts of the Linux SGX SDK and platform software whose correctness is least
obvious from the code, and proves what they promise. Every Dafny file is one module; `Common` holds
what they share.

**XML configuration (`Xml*`).** `XmlText` and `XmlCharRef` decode and escape text as
`StrPair::GetStr`, `GetCharacterRef` and `PrintString` do. `XmlDoc` is the document, its compact
printer and its recursive-descent parser as functions; `XmlRoundTrip`, `XmlOutput` and `XmlTheorems`
prove which documents survive printing and parsing, and what shape any parsed document has.
`XmlBuffer`, `XmlPrinter` and `XmlParser` are the code's own loops: decoding in place over the input,
a printer that delays the end of a start tag, and a parser that moves a cursor and leaves ranges of
the buffer (`XmlSpans`) in place of strings. `XmlShared` reads all strings of a document in place
from the one buffer, in any order and even during the parse, and `XmlEndToEnd` puts printer, parser
and buffer together. `DomLinks` and `DomTree` are the linked tree and its pointer surgery.

**Enclave life cycle (`Lifecycle`, `LifecycleTheorems`).** Any number of threads enter any number of
enclaves, leave through ocalls that drop the read lock, call in again and destroy enclaves under
way. A thread is a stack of activations; a run is any interleaving of their steps.

**Thread slots (`Event`, `Filler`, `NodeList`, `SlotAccounts`, `ThreadPool`, `PoolRuns`).** The futex
event as single atomic steps, the hand-shake between starved threads and the background filler, the
linked list under both pools, the trust thread pool with its collectors, and whole runs of ecalls on
it.

**Loading (`Layout`, `LayoutLoader`, `Metadata`, `MemRegion`).** The layout table with its repeat
groups, the validators, the recursive walks, and the page-by-page section builder in 64-bit
arithmetic.

**Small but sharp (`SecureAlign`, `Protection`, `ProtectionRuns`, `QuadCompare`).** Secret-aware
alignment, the coalescing of page protection over whole runs, and quad-precision comparison.

Where the code does something other than its comments or its callers suggest, the model follows the
code:

- `ParseAttributes` says that a duplicated attribute goes undetected, but its own check rejects it.
- The decoder keeps the byte under its write cursor for an unknown entity; that is the ampersand only
  while nothing has shrunk. `XmlText.DecodeIsIntendedIff` states when the result is the expected one.
- An end tag with a slash at its end, `</a/>`, counts as a sealed element, and a stray end tag at the
  top of a document ends the parse without an error.
- The event is used as a counting semaphore, but a wake on a positive counter still issues a
  `FUTEX_WAKE`, which can arrive during a later wait; `Event.SemaphoreIff`, `Filler.StaleMayStrand`
  and `Filler.CanStrandIff` give the exact consequences.
- `validate_layout_table` relies on enclave sizes of no more than 37 bits, which depends on the
  processor; what `validate_metadata` asks of every size, a power of two, is enough. `LayoutLoader.LoadsAreExactIff` gives
  the exact bound and `Metadata.AcceptedIsExact` the conclusion.
- `enclave_initialize` clears the address of the pending region, but not its length, "just in case"
  it is called twice. That is safe; a further load of the same enclave is never protected.
  `ProtectionRuns.NoLateIff` and `ProtectionRuns.LateCallsAreLost` give the exact consequences.
- `acquire_thread` tests the utility pointer in front of one announcement to the filler and not in front
  of the other; `ThreadPool.TrustThreadPool.AcquireThread` and `PoolRuns.Build` say when it is null.
- `custom_alignment_aligned` takes an alignment smaller than that of its type, and then the member is not
  where the pad was computed for; `SecureAlign.ClearEverywhereIff` says when that is harmless.

## Model

| member | source | states |
|---|---|---|
| `XmlText.SkipSpace` | external/tinyxml2/tinyxml2.h:551-562 | the rest of the input with exactly its leading white space removed |
| `XmlText.CharacterRef` | external/tinyxml2/tinyxml2.cpp:456-549 | what a numeric reference yields and consumes: never more bytes than characters read, so that decoding in place cannot overtake its own input |
| `XmlText.NextToken` | external/tinyxml2/tinyxml2.cpp:280-355 | one step of decoding consumes at least one character and emits no more bytes than it consumes; the only step that emits nothing starts at an ampersand |
| `XmlText.DecodeIsIntendedIff` | external/tinyxml2/tinyxml2.cpp:267-365 | for every input, what `GetStr` leaves in the buffer is the intended decoding if and only if every unknown entity is met while the byte under the write cursor is itself an ampersand |
| `XmlText.StaleByteExample` | external/tinyxml2/tinyxml2.cpp:341-345 | the text `&amp;&no;` is decoded wrongly: the second ampersand becomes a left-over byte |
| `XmlText.AllKnownDecodes` | external/tinyxml2/tinyxml2.cpp:328-345 | if all named entities are recognised, no stale byte can appear |
| `XmlText.DecodeOfEscape` | external/tinyxml2/tinyxml2.cpp:2494-2546 | decoding the printer's escaped text gives back the original up to newline normalisation, in attribute and in text mode |
| `XmlText.NormalizeFixpoint` | external/tinyxml2/tinyxml2.cpp:280-302 | newline normalisation leaves a string alone if and only if it has no carriage return |
| `XmlText.DecodeOfRaw` | external/tinyxml2/tinyxml2.cpp:267-365 | comments, CDATA, declarations and unknown nodes are only newline-normalised |
| `XmlCharRef.ReferenceDecodes` | external/tinyxml2/tinyxml2.cpp:456-549 | for any number of leading zeros and any value below 2^32, the backward accumulation in wrapping arithmetic consumes exactly the reference and yields the UTF-8 of its value |
| `XmlCharRef.HexReferenceWraps` | external/tinyxml2/tinyxml2.cpp:485-508 | a hexadecimal reference of any length yields the value of its last eight digits |
| `XmlCharRef.Utf8RoundTrip` | external/tinyxml2/tinyxml2.cpp:403-453 | for every code point below 0x200000 the bytes decode to the code point, and are well-formed UTF-8 (section 4 of RFC 3629) exactly for scalar values |
| `XmlDoc.FindTagIsFirst` | external/tinyxml2/tinyxml2.cpp:193-215 | the search finds the first occurrence of the end tag, and fails only if there is none |
| `XmlDoc.ScanText` | external/tinyxml2/tinyxml2.cpp:193-215 | raw text, end tag and rest make up the input |
| `XmlDoc.ScanName` | external/tinyxml2/tinyxml2.cpp:218-235 | the name read is a prefix of the input and a name |
| `XmlOutput.ParseHasShape` | external/tinyxml2/tinyxml2.cpp:988-1100 | every accepted input yields a document in proper shape: valid and unique names, bodies without their own terminators, no adjacent plain texts, declarations first, nesting below the limit, no NUL |
| `XmlOutput.ListHasShape` | external/tinyxml2/tinyxml2.cpp:988-1100 | the same for every child list, at every depth and with any list already read |
| `XmlOutput.AttributesHaveShape` | external/tinyxml2/tinyxml2.cpp:1815-1871 | attribute names of an accepted tag are valid and pairwise different: a repeated name is an error |
| `XmlRoundTrip.ListParses` | external/tinyxml2/tinyxml2.cpp:988-1100 | parsing the printed form of any well-shaped list, at any depth and before any continuation, gives the normalised list and stops exactly at the continuation |
| `XmlRoundTrip.ElementParses` | external/tinyxml2/tinyxml2.cpp:1898-1923 | the same for an element with its attributes, children and end tag |
| `XmlRoundTrip.TagParses` | external/tinyxml2/tinyxml2.cpp:1815-1871 | a printed start tag parses to its name and attributes, open or sealed |
| `XmlRoundTrip.TextParses` | external/tinyxml2/tinyxml2.cpp:1147-1171 | printed text that is not blank parses to its normalised value |
| `XmlRoundTrip.SpaceDrops` | external/tinyxml2/tinyxml2.cpp:656-665 | blank text between nodes disappears |
| `XmlRoundTrip.LeafParses` | external/tinyxml2/tinyxml2.cpp:656-723 | printed comments, CDATA, declarations and unknown nodes are identified and parsed back |
| `XmlRoundTrip.SpellListIsPrint` | external/tinyxml2/tinyxml2.cpp:2494-2835 | the form used in the proofs is the printed form |
| `XmlTheorems.PrintThenParse` | external/tinyxml2/tinyxml2.cpp:2494-2835 | printing and parsing again keeps every name, attribute, body and the structure; it turns newlines into LF and drops blank text |
| `XmlTheorems.RoundTripIff` | external/tinyxml2/tinyxml2.cpp:2494-2835 | parsing the compact print of a NUL-free document returns the same document if and only if the document is printable: non-empty, well shaped, without carriage returns, blank or trailing plain text, and not starting like white space or a byte order mark |
| `XmlTheorems.TrailingTextFails` | external/tinyxml2/tinyxml2.cpp:1147-1171 | a document whose last child is plain text cannot be read back |
| `XmlBuffer.ConvertUTF32ToUTF8` | external/tinyxml2/tinyxml2.cpp:403-453 | the byte loop computes the UTF-8 encoding |
| `XmlBuffer.AccumulateBackwards` | external/tinyxml2/tinyxml2.cpp:485-542 | the digit loops compute the backward accumulation, with `unsigned` and `unsigned long` wrap-around |
| `XmlBuffer.GetCharacterRef` | external/tinyxml2/tinyxml2.cpp:456-549 | the scan for the semicolon and the digit loop compute the pure reference decoder |
| `XmlBuffer.MatchEntity` | external/tinyxml2/tinyxml2.cpp:328-340 | the search of the entity table finds the entry that heads the text |
| `XmlBuffer.DecodeToken` | external/tinyxml2/tinyxml2.cpp:280-355 | one round of the loop writes the token behind the write cursor, which stays behind the read cursor, and touches nothing else |
| `XmlBuffer.DecodeInPlace` | external/tinyxml2/tinyxml2.cpp:267-365 | the whole loop, run over its own input, leaves exactly the pure decoding |
| `XmlBuffer.StrPair.GetStr` | external/tinyxml2/tinyxml2.cpp:267-372 | the value of a string pair is the same before and after it is flushed, stands in the buffer as a C string afterwards, and nothing outside the pair's range changes |
| `XmlPrinter.PrintedIff` | external/tinyxml2/tinyxml2.cpp:2494-2546 | a string is printed completely if and only if the stretch after its last escaped character fits in an `int` |
| `XmlPrinter.PrintedIsClip` | external/tinyxml2/tinyxml2.cpp:2494-2546 | what is printed of a longer one is the escaped text of the string clipped at that stretch |
| `XmlPrinter.ClipDocumentIff` | external/tinyxml2/tinyxml2.cpp:2494-2546 | clipping changes nothing exactly if every such stretch fits |
| `XmlPrinter.Printer.PrintString` | external/tinyxml2/tinyxml2.cpp:2494-2546 | the run-flushing loop writes the escaped string, cut where the last write is cut |
| `XmlPrinter.Printer.OpenElement` | external/tinyxml2/tinyxml2.cpp:2561-2579 | a pending start tag is sealed first; name and depth are pushed |
| `XmlPrinter.Printer.PushAttribute` | external/tinyxml2/tinyxml2.cpp:2582-2590 | appends the escaped attribute, clipped, inside the open tag |
| `XmlPrinter.Printer.CloseElement` | external/tinyxml2/tinyxml2.cpp:2633-2658 | writes the short form if nothing came since the start tag, else the matching end tag |
| `XmlPrinter.Printer.PushText` | external/tinyxml2/tinyxml2.cpp:2671-2684 | seals and appends text, clipped, or CDATA |
| `XmlPrinter.Printer.PushBracketed` | external/tinyxml2/tinyxml2.cpp:2733-2775 | comments, declarations and unknown nodes |
| `XmlPrinter.Printer.Accept` | external/tinyxml2/tinyxml2.cpp:1966-1977 | visiting any node appends exactly the text of the clipped node to the sealed output and leaves the element stack and depth as they were |
| `XmlPrinter.Printer.PrintDocument` | external/tinyxml2/tinyxml2.cpp:726-737 | visiting a document writes exactly the text of the clipped document to a file printer |
| `XmlPrinter.ShortIsWhole` | external/tinyxml2/tinyxml2.h:230-237 | a text of fewer than `INT_MAX` bytes, which is what the `int` size of the in-memory buffer can hold, is that of the whole document: nothing is clipped |
| `XmlParser.Parser.SkipWhiteSpace` | external/tinyxml2/tinyxml2.h:551-562 | the cursor loop computes the white-space skip |
| `XmlParser.Parser.ParseText` | external/tinyxml2/tinyxml2.cpp:193-215 | the cursor loop stops at the first end tag, or reports that there is none |
| `XmlParser.Parser.ParseName` | external/tinyxml2/tinyxml2.cpp:218-235 | the cursor loop reads the longest name |
| `XmlParser.Parser.ParseAttribute` | external/tinyxml2/tinyxml2.cpp:1356-1381 | name, equals sign and quoted value, or failure; the two strings lie apart, before the cursor |
| `XmlParser.Parser.ParseAttributes` | external/tinyxml2/tinyxml2.cpp:1815-1871 | the loop collects the attributes in order, or records the error, as the function says; their strings lie apart, in order, behind the tag's name and before the cursor |
| `XmlParser.Parser.ParseNode` | external/tinyxml2/tinyxml2.cpp:656-723 | identification and dispatch: same node, same cursor or same error as the function, depth unchanged; the node's strings lie apart, in order, between the cursors, where only plain text may reach the `<` that ends it |
| `XmlParser.Parser.ParseElement` | external/tinyxml2/tinyxml2.cpp:1898-1923 | the same for elements, including a mismatched or missing end tag |
| `XmlParser.Parser.ParseChildren` | external/tinyxml2/tinyxml2.cpp:988-1100 | the child loop with its depth tracker: the result is the functional parser's, the depth is restored on every path, the depth limit is reported, and the strings of all children lie apart and in order |
| `XmlParser.Parser.ParseDocument` | external/tinyxml2/tinyxml2.cpp:2380-2394 | on a fresh document the error code and the tree are those of the functional parser; the ranges it leaves, with the terminators to come, do not overlap, and stand for the strings of the tree in document order |
| `XmlSpans.LaidJoin` | external/tinyxml2/tinyxml2.h:152-159 | ranges of consecutive pieces stay apart, in order and with their values |
| `XmlShared.Load` | external/tinyxml2/tinyxml2.cpp:2285-2394 | parsing leaves one buffer and one string pair for each name and value, with disjoint closed ranges, each standing for its string of the parsed document, also if strings in front of the cursor are decoded while the parse goes on; what is left to parse stays as it was |
| `XmlShared.Fetch` | external/tinyxml2/tinyxml2.cpp:267-372 | decoding one string in the shared buffer leaves the value of every other pair, and all text outside the pairs, as it was |
| `XmlShared.ReadAll` | external/tinyxml2/tinyxml2.cpp:267-372 | reading the strings in any order, any of them any number of times, delivers the strings of the parsed document and leaves the text outside the pairs alone |
| `XmlEndToEnd.PrintAndParse` | external/tinyxml2/tinyxml2.cpp:2285-2316 | for every document with C strings, the printer object followed by the parser object returns the clipped document without error if and only if that is printable; documents that fit are not clipped, nor are those whose text an in-memory printer can hold |
| `XmlEndToEnd.PrintAndRead` | external/tinyxml2/tinyxml2.cpp:2285-2316 | down to the buffer: the strings of a printable document come back in any order of reading, some of them read during the parse |
| `DomLinks.UnlinkValid` | external/tinyxml2/tinyxml2.cpp:804-826 | taking a child out keeps every list mirrored, every parent pointer right and the document a forest; the child is then in no list |
| `DomLinks.UnlinkedFields` | external/tinyxml2/tinyxml2.cpp:804-826 | which fields of which nodes the pointer assignments change, for any pointers inside the store, however they alias |
| `DomLinks.LinkValid` | external/tinyxml2/tinyxml2.cpp:841-932 | putting a detached node anywhere into a list keeps all of this, provided the new parent is not below the node |
| `DomLinks.NotBelowIff` | external/tinyxml2/tinyxml2.cpp:841-868 | that proviso can be met exactly for a node that is neither the new parent nor one of its ancestors |
| `DomLinks.LinkFields` | external/tinyxml2/tinyxml2.cpp:841-932 | which fields the linking assignments change |
| `DomTree.LinkedDocument.Unlink` | external/tinyxml2/tinyxml2.cpp:804-826 | the child leaves its parent's list, and no other list changes |
| `DomTree.LinkedDocument.InsertChildPreamble` | external/tinyxml2/tinyxml2.cpp:1117-1129 | the node leaves the list it is in, if any |
| `DomTree.LinkedDocument.InsertEndChild` | external/tinyxml2/tinyxml2.cpp:841-868 | the node moves from wherever it was to the end of the list |
| `DomTree.LinkedDocument.InsertFirstChild` | external/tinyxml2/tinyxml2.cpp:871-899 | the node moves to the front of the list |
| `DomTree.LinkedDocument.InsertAfterChild` | external/tinyxml2/tinyxml2.cpp:902-932 | the node moves behind the given sibling; a foreign sibling is refused, a node is left where it is that is to follow itself, and a null pointer is followed exactly if the last child is inserted behind the one before it |
| `DomTree.NextIsNull` | external/tinyxml2/tinyxml2.cpp:902-932 | the pointer that `InsertAfterChild` follows is null if and only if the last child is inserted behind the one before it |
| `DomTree.NextCanBeNull` | external/tinyxml2/tinyxml2.cpp:902-932 | a document with two children in which that happens |
| `Lifecycle.StepKeepsInv` | psw/urts/enclave.cpp:294-456 | every step of every thread keeps the life-cycle invariant, for any threads, enclaves and ecall/ocall nesting |
| `Lifecycle.RunKeepsInv` | psw/urts/enclave.cpp:294-456 | so does every interleaving |
| `Lifecycle.EcallKeeps` | psw/urts/enclave.cpp:294-456 | the read lock, reference and presence counts of one ecall step |
| `Lifecycle.DestroyKeeps` | psw/urts/enclave.cpp:783-819 | the same for one step of a removal |
| `LifecycleTheorems.ReadHoldsAreInnermost` | psw/urts/enclave.cpp:294-456 | in every reachable state the reader count of an enclave is the number of threads whose innermost activation holds its lock, and there is none while it is write-locked |
| `LifecycleTheorems.WreckedWhenUnread` | psw/urts/enclave.cpp:542-555 | the step that destroys the hardware enclave finds no reader and nobody inside, and is the first such step |
| `LifecycleTheorems.NeverReentered` | psw/urts/enclave.cpp:542-555 | whatever happens after that step, nobody is ever inside again and it is never repeated |
| `LifecycleTheorems.RefIsActivations` | psw/urts/routine.cpp:40-63 | the reference count is the number of outstanding activations |
| `LifecycleTheorems.DeletedAtMostOnce` | psw/urts/enclave.cpp:730-745 | the object is deleted at most once, only after destruction and removal from the pool, and no activation can still touch it |
| `LifecycleTheorems.DeletedBy` | psw/urts/urts_com.h:657-681 | it is deleted by the caller of the removal, or by the last `unref` of a zombie |
| `LifecycleTheorems.MoveUnwinds` | psw/urts/enclave.cpp:408-456 | every step except a new ocall brings the system closer to rest |
| `LifecycleTheorems.NoDeadlock` | psw/urts/enclave.cpp:783-819 | while any activation is outstanding some thread can take such a step, even with a removal waiting under the pool mutex for the write lock |
| `LifecycleTheorems.EveryRunCanFinish` | psw/urts/enclave.cpp:294-456 | from every reachable state all threads can return |
| `LifecycleTheorems.DestroyedUnwinds` | psw/urts/enclave.cpp:443-455 | on a destroyed enclave each ecall step leads strictly towards its return, at most three steps away |
| `LifecycleTheorems.RestIsBalanced` | psw/urts/enclave.cpp:730-819 | at rest no lock is held, no reference is out, and each removed enclave has been destroyed once and deleted once |
| `Event.RunKeepsInv` | common/src/se_event.c:49-95 | in every state of every run the counter is wakes minus tokens taken minus one while waiting, and a sleeper whose token has come has a wake-up due |
| `Event.SemaphoreIff` | common/src/se_event.c:49-95 | a run behaves as a counting semaphore throughout if and only if no left-over `FUTEX_WAKE` reaches an untimed sleeper whose counter is still -1 |
| `Event.StaleExample` | common/src/se_event.c:86-95 | two wakes on a positive counter leave such a wake-up behind |
| `Event.TimedNeverStale` | common/src/se_event.c:63-84 | with timed waits only, it never happens |
| `Event.Refines` | common/src/se_event.c:49-95 | each step posts a token, takes one that is there, or changes none; a timeout racing with a wake neither duplicates nor drops a token |
| `Event.NoLostWake` | common/src/se_event.c:49-95 | while a token is there the waiter is not stuck |
| `Filler.NoAcquirerStranded` | psw/urts/tcs.cpp:416-427 | in every run without a left-over wake-up, a set wait flag means that the filler will look at it before it can sleep, and nobody is stranded |
| `Filler.FlagIsCleared` | psw/urts/tcs.cpp:538-568 | the flag is cleared after at most three steps of the filler, whatever the acquirers do |
| `Filler.StaleLeavesDebt` | psw/urts/tcs.cpp:435-439 | the first left-over wake-up of a run belongs to an announcement made without the condition lock, and leaves the counter one below its due |
| `Filler.DebtStrands` | psw/urts/enclave.cpp:513-540 | from such a state some schedule always strands a later acquirer |
| `Filler.StaleMayStrand` | psw/urts/tcs.cpp:416-427 | so the condition of the first result is exact |
| `Filler.StaleOccurs` | psw/urts/tcs.cpp:435-439 | left-over wake-ups occur from every initial state with slots yet to be created, whatever the number of free slots and the size of the pool |
| `Filler.CanStrandIff` | psw/urts/tcs.cpp:416-439 | some schedule strands an acquirer if and only if there are slots yet to be created at the start |
| `NodeList.Find` | psw/urts/node.cpp:69-78 | finds the node with the key if and only if there is one |
| `NodeList.InsertNext` | psw/urts/node.cpp:44-52 | the node goes second, keys stay unique; refused exactly when the key is taken, and then nothing changes |
| `NodeList.Remove` | psw/urts/node.cpp:54-67 | the first node with the key is bypassed; a matching head is left to the caller |
| `NodeList.Detach` | psw/urts/tcs.cpp:183-201 | the caller's part: the list without the key |
| `NodeList.Unlink` | psw/urts/tcs.cpp:612-620 | one node is taken out in the middle of a walk |
| `NodeList.Collect` | psw/urts/tcs.cpp:572-661 | the in-place loop of both collectors is an order-preserving filter, and what it drops is appended in order |
| `SlotAccounts.InOnePlace` | psw/urts/tcs.cpp:145-441 | every slot ever added is in exactly one place, and a slot in use that is not the utility slot is bound |
| `SlotAccounts.CollectConserves` | psw/urts/tcs.cpp:572-661 | a collection loses and duplicates nothing |
| `SlotAccounts.KeptUnique` | psw/urts/tcs.cpp:572-661 | a collection keeps the keys unique |
| `SlotAccounts.Takes` | psw/urts/tcs.cpp:145-158 | a free slot that is taken has no references, and becomes bound or held |
| `SlotAccounts.Releases` | psw/urts/tcs.cpp:183-201 | a slot that leaves its binding becomes free |
| `SlotAccounts.Mints` | psw/urts/tcs.cpp:497-530 | a created slot becomes free |
| `SlotAccounts.UtilityBinds` | psw/urts/tcs.cpp:390-405 | the utility slot is not bound before un-initialisation |
| `ThreadPool.OneOwner` | psw/urts/tcs.cpp:359-381 | a slot is bound to one thread only |
| `ThreadPool.BoundIsNotUtility` | psw/urts/tcs.cpp:359-381 | the utility slot is never bound |
| `ThreadPool.CollectBooks` | psw/urts/tcs.cpp:572-661 | a collection keeps every slot accounted for and every busy binding in place |
| `ThreadPool.TrustThreadPool.AddThread` | psw/urts/tcs.cpp:218-236 | where a new slot goes |
| `ThreadPool.TrustThreadPool.BindThread` | psw/urts/tcs.cpp:161-174 | binds, or is refused exactly for a thread that has a binding |
| `ThreadPool.TrustThreadPool.UnbindThread` | psw/urts/tcs.cpp:183-201 | the thread's slot goes to the end of the free vector with its count reset; other bindings and counts stay |
| `ThreadPool.TrustThreadPool.GarbageCollect` | psw/urts/tcs.cpp:572-661 | filter of the bindings, in both modes; no slot in use is taken |
| `ThreadPool.TrustThreadPool.AcquireOrBind` | psw/urts/tcs.cpp:359-381 | the thread's own slot, a free one or a collected one, bound to it; the collector's promise and the binding cannot fail, whatever the filler creates in between; failure means that nothing was free and nothing could be collected |
| `ThreadPool.TrustThreadPool.CollectSome` | psw/urts/tcs.cpp:318-328 | a collection with the filler at work before and after it: no slot in use is taken, and a slot is free if the collector found one |
| `ThreadPool.TrustThreadPool.NewThread` | psw/urts/tcs.cpp:497-530 | one slot is created and becomes free, or nothing changes |
| `ThreadPool.TrustThreadPool.FillMiniPool` | psw/urts/tcs.cpp:538-568 | terminates; moves exactly the slots created, the last first; on success nothing is left to create or the pool is full enough; the wait flag is clear |
| `ThreadPool.TrustThreadPool.AcquireThread` | psw/urts/tcs.cpp:384-441 | the slot handed out is bound to the caller, or is the utility slot of the init call; its count goes up by one and no other count changes; no other thread loses a slot in use; the announcement at the end follows a null pointer exactly after an ordinary ecall that leaves too few free slots with slots yet to be created and no utility slot |
| `ThreadPool.TrustThreadPool.BindUtility` | psw/urts/tcs.cpp:396-404 | un-initialisation trades the caller's slot for the utility slot |
| `ThreadPool.TrustThreadPool.AcquireFreeThread` | psw/urts/tcs.cpp:313-357 | a free slot without references is handed to the caller, who then holds it; no slot in use is taken and no binding is added |
| `ThreadPool.TrustThreadPool.BindPthread` | psw/urts/tcs.cpp:176-181 | the held slot becomes bound to the new thread |
| `ThreadPool.TrustThreadPool.Reset` | psw/urts/tcs.cpp:277-298 | all bindings are given up in list order |
| `PoolRuns.Serve` | psw/urts/enclave.cpp:333-395 | any sequence of ecalls that begin and end in any nesting, fills, and threads created by the enclave: the count of every slot is the number of outstanding ecalls that acquired it, every slot in use is bound to its users, and no slot but the utility slot is ever handed to a thread while another thread's ecall uses it; on a pool that is ready, no call follows a null pointer |
| `PoolRuns.Build` | psw/urts/tcs.cpp:218-236 | with dynamic threads and EDMM the pool has a utility slot exactly if some slot was added that exists already; then it is ready |
| `PoolRuns.UtilityCanBeNull` | psw/urts/tcs.cpp:435-439 | a pool without EDMM in which the first ordinary ecall follows the null pointer |
| `PoolRuns.DoBegin` | psw/urts/tcs.cpp:384-441 | the same, for one acquisition |
| `PoolRuns.DoEnd` | psw/urts/enclave.cpp:386-392 | an ecall that returns lowers the count by one, one that leaves through `pthread_exit` ends all ecalls of its slot |
| `PoolRuns.AloneOnSlot` | psw/urts/tcs.cpp:359-441 | whoever gets a bound slot is its only user |
| `Layout.WalkIsExpansion` | psw/urts/loader.cpp:471-504 | the recursive walk visits exactly the expansion that the validator collected |
| `Layout.ExpandIsExact` | psw/urts/loader.cpp:721-786 | with the loads inside an enclave of at most half the address space no 64-bit addition wraps: repetition j of a group lies exactly j steps away |
| `Layout.AllApartIff` | psw/urts/loader.cpp:767-784 | the recursive form of disjointness is pairwise disjointness |
| `Layout.SortApart` | psw/urts/loader.cpp:766-767 | sorting neither hides nor invents an overlap |
| `Layout.ChainedIff` | psw/urts/loader.cpp:777-784 | in a sorted vector, comparing neighbours is enough, empty ranges included |
| `LayoutLoader.IsEnclaveBuffer` | psw/urts/loader.cpp:708-720 | the wrapped comparison decides exact containment |
| `LayoutLoader.IsMetadataBuffer` | psw/urts/loader.cpp:695-707 | the same in 32 bits |
| `LayoutLoader.CollectRanges` | psw/urts/loader.cpp:721-765 | the collecting loop accepts exactly the tables with sound groups and contents, and collects their expansion |
| `LayoutLoader.CheckSorted` | psw/urts/loader.cpp:767-786 | the checking loop accepts exactly the aligned, contained and chained vectors |
| `LayoutLoader.ValidateLayoutTable` | psw/urts/loader.cpp:721-786 | accepts if and only if groups reach back over entries, contents lie in the metadata and the loads are page-aligned, inside the enclave and pairwise disjoint in exact integers |
| `LayoutLoader.AcceptedLoads` | psw/urts/loader.cpp:721-786 | everything the walks will visit is aligned, inside the enclave and pairwise disjoint, and, in an enclave of at most 2^63 bytes, at its exact distance |
| `LayoutLoader.LoadsAreExactIff` | psw/urts/loader.cpp:753-763 | exact distances for every accepted table if and only if the enclave has at most 2^63 bytes: in any larger one a load can wrap around to address 0 and be accepted there |
| `Metadata.ValidateMetadata` | psw/urts/loader.cpp:805-859 | accepts if and only if version, policy, frame size, enclave size, directories, layout table and patch table are in order, in exact integers; a newer version has its own error |
| `Metadata.HalveToOne` | psw/urts/loader.cpp:828-835 | the halving loop decides whether the size is a power of two |
| `Metadata.ValidatePatchTable` | psw/urts/loader.cpp:788-804 | every patch is copied from inside the metadata to inside the enclave |
| `Metadata.AcceptedIsExact` | psw/urts/loader.cpp:805-859 | whatever metadata is accepted: all loads are aligned, inside the enclave, pairwise disjoint and at their exact distances, in integers without bound |
| `LayoutLoader.Loader.Walk` | psw/urts/loader.cpp:471-504 | the shared recursion visits the selected loads in order, and terminates because groups only look back |
| `LayoutLoader.Loader.BuildContexts` | psw/urts/loader.cpp:471-504 | a validated table is loaded exactly as expanded |
| `LayoutLoader.Loader.PostInitAction` | psw/urts/loader.cpp:323-349 | exactly the loads of removable entries are trimmed |
| `LayoutLoader.Loader.SetContextProtection` | psw/urts/loader.cpp:996-1057 | exactly the loads that are not reserved memory without EDMM are protected |
| `MemRegion.Driver.BuildMemRegion` | psw/urts/loader.cpp:162-223 | for every section: each page once, in ascending order, with the bytes of the flat zero-padded image, at addresses that wrap around at 2^64; write permission is added exactly on relocation pages with raw data |
| `MemRegion.BuiltIsImageIff` | psw/urts/loader.cpp:162-223 | what is built is the flat image, at its own addresses, if and only if the section ends in the address space and does not fill all of it with zeros |
| `MemRegion.Driver.BuildPages` | psw/urts/loader.cpp:300-321 | its alignment assertion, as a precondition that every caller meets |
| `MemRegion.Driver.BuildPartialPage` | psw/urts/loader.cpp:281-298 | zeros around the data |
| `MemRegion.PagesCover` | psw/urts/loader.cpp:162-223 | the pages added are exactly those with an address of the section in them |
| `MemRegion.FlatImage` | psw/urts/loader.cpp:162-223 | read back through the pages, each address has its raw byte, or zero past the raw data |
| `SecureAlign.RolBit` | common/inc/sgx_secure_align.h:41-57 | rotation by any count moves bit i - c to bit i |
| `SecureAlign.BmpBits` | common/inc/sgx_secure_align.h:61-76 | the bitmap marks exactly the cache-line positions of secret bytes |
| `SecureAlign.MaskMarks` | common/inc/sgx_secure_align.h:78-84 | the mask marks exactly the multiples of the alignment |
| `SecureAlign.CountIsDistance` | common/inc/sgx_secure_align.h:87-92 | the recursion counts leading zero bits |
| `SecureAlign.BmpIsSecretByte` | common/inc/sgx_secure_align.h:61-101 | the bit inspected for a pad and a position is set exactly if some secret byte lands on that position |
| `SecureAlign.LspcIsLeast` | common/inc/sgx_secure_align.h:97-101 | the pad is the least multiple of the alignment that keeps every secret byte off the forbidden positions; -1 means that no multiple of the alignment does, however large; -2 that the alignment is no power of two |
| `SecureAlign.ClearEverywhereIff` | common/inc/sgx_secure_align.h:109-140 | at every aligned address the secret bytes keep off positions 0, 4, 5, 6 and 7 of their cache lines if and only if they do so at the pad rounded up to the alignment of the type, where the compiler puts the member |
| `SecureAlign.NoSecretForbidden` | common/inc/sgx_secure_align.h:97-151 | with an alignment no smaller than that of the type the member lies at the pad itself, and no secret byte is on a forbidden position at any aligned address |
| `SecureAlign.SmallAlignmentFails` | common/inc/sgx_secure_align.h:144-148 | with a smaller alignment that can fail: a four-byte type whose first byte is secret, aligned to 1, ends up with it on position 4 |
| `Protection.FlushAgrees` | psw/enclave_common/sgx_enclave_common.cpp:873-890 | applying a pending region changes nothing in sum |
| `Protection.RecordAgrees` | psw/enclave_common/sgx_enclave_common.cpp:891-894 | recording a load is as good as applying it |
| `Protection.ExtendAgrees` | psw/enclave_common/sgx_enclave_common.cpp:896-899 | so is extending the pending region |
| `Protection.LoadKeeps` | psw/enclave_common/sgx_enclave_common.cpp:868-899 | a load takes effect, now or later, exactly as an immediate call would, unless the region is spent, when it has no effect |
| `Protection.InitializeKeeps` | psw/enclave_common/sgx_enclave_common.cpp:901-922 | an initialisation changes nothing in sum and leaves nothing pending |
| `Protection.OthersKeepProtection` | psw/enclave_common/sgx_enclave_common.cpp:852-925 | both leave the pages of other enclaves alone |
| `Protection.EnclaveCommon.FindBase` | psw/enclave_common/sgx_enclave_common.cpp:155-171 | finds the enclave that contains an address, if any |
| `Protection.EnclaveCommon.Create` | psw/enclave_common/sgx_enclave_common.cpp:775-783 | a new enclave has nothing pending |
| `Protection.EnclaveCommon.Load` | psw/enclave_common/sgx_enclave_common.cpp:852-900 | the new state in full; the immediate protections change unless the region was spent by an earlier initialisation, and it is spent afterwards exactly if it was before; other regions and the pages of other enclaves stay |
| `Protection.EnclaveCommon.Initialize` | psw/enclave_common/sgx_enclave_common.cpp:901-925 | the new state in full; afterwards every page of the enclave has the protection of immediate per-load calls, and its region is spent exactly if it was ever loaded; other regions and the pages of other enclaves stay |
| `ProtectionRuns.RunAgrees` | psw/enclave_common/sgx_enclave_common.cpp:775-925 | every run of creations, loads and initialisations: applied and pending protections together are those of immediate calls for the loads that came before their enclave was loaded and then initialised; a region is pending from the first load to the next initialisation, and spent from then on |
| `ProtectionRuns.NoLateIff` | psw/enclave_common/sgx_enclave_common.cpp:775-925 | in every run that loads no page twice: all pages of all enclaves that were loaded and then initialised have the protection of immediate calls if and only if no enclave is loaded after that |
| `ProtectionRuns.NoLateRun` | psw/enclave_common/sgx_enclave_common.cpp:775-925 | in every run without such a load, repeated pages or not, every page of every enclave that was initialised after its last load, or never loaded, has exactly the protection that protecting each load at once would have given it |
| `ProtectionRuns.OrderlyIsNoLate` | psw/enclave_common/sgx_enclave_common.cpp:775-925 | a run in which no enclave is loaded after its own initialisation is one of these, and covers every initialised enclave |
| `ProtectionRuns.EarlyInitializeIsHarmless` | psw/enclave_common/sgx_enclave_common.cpp:901-925 | an initialisation before the first load loses nothing |
| `ProtectionRuns.SealedPages` | psw/enclave_common/sgx_enclave_common.cpp:775-925 | in every run at all, every page of an enclave that was loaded and then initialised has the protection of the loads before that |
| `ProtectionRuns.PendingUntilSealed` | psw/enclave_common/sgx_enclave_common.cpp:852-925 | until then, and only then, some page waits for its protection |
| `ProtectionRuns.LateCallsAreLost` | psw/enclave_common/sgx_enclave_common.cpp:901-925 | once an enclave was loaded and then initialised, no further load or initialisation of it changes any protection |
| `ProtectionRuns.LoadAfterInitialize` | psw/enclave_common/sgx_enclave_common.cpp:901-925 | the shortest such run: load, initialise, load, initialise leaves the second load without its protection |
| `QuadCompare.UnitsGrow` | sdk/compiler-rt/comparetf2.c:51-80 | larger representations encode larger magnitudes, across subnormals, binades and infinity |
| `QuadCompare.MagnitudeIsUnits` | sdk/compiler-rt/comparetf2.c:51-80 | the encoded magnitude is a fixed positive multiple of an integer |
| `QuadCompare.CompareIsOrder` | sdk/compiler-rt/comparetf2.c:51-113 | for every exponent and significand width, on numbers both routines return the order of the encoded extended reals; they differ exactly on unordered operands, which are exactly those with a NaN |

## Left out

- Filler.NoAcquirerStranded: the hand-shake is not safe on all runs, because a `FUTEX_WAKE` issued late can reach a later sleep; `Filler.StaleMayStrand` shows that the condition cannot be dropped, and `Filler.CanStrandIff` says for which pools it matters.
- LifecycleTheorems.NoDeadlock: assumes that `get_tcs` returns; a starved acquirer waits for the filler with the read lock held, which `Filler` models on its own.
- XmlPrinter.Printer.Accept: compact mode only.
- XmlParser.Parser.ParseDocument: the cursor moves over an immutable text; that strings decoded in front of it during the parse leave the rest as it was is in `XmlShared.Load`.
- XmlPrinter.Printer.PrintDocument: a printer that writes to a file. The in-memory one keeps its size in an `int`, which overflows at `INT_MAX` bytes, and earlier if the doubled capacity does; below that nothing is clipped.
- ThreadPool.TrustThreadPool.AcquireThread: the wait for the filler ends, after any number of creations; whether it does, and the announcements to the filler, are the subject of `Filler`.
- ThreadPool.TrustThreadPool.AcquireFreeThread: the same.
- PoolRuns.Serve: a run ends before un-initialisation, which takes the caller's slot away even if it is in use, and starts with all slots added.
- ProtectionRuns.RunAgrees: the driver's refusal of a page that was added before is not part of the step; loads may overlap, and the later one wins. `ProtectionRuns.NoLateIff` asks for it.
- Pointers of the document tree are identities in a map that methods reassign, reference counts of trust threads are a map in the pool; the list of bindings and the text buffer are modelled with real objects and arrays.
- Line numbers, error strings, whitespace collapsing, disabled entity processing and the indented print mode of tinyxml2.
- Numeric conversions, file input and output, cloning and the memory pools of tinyxml2.
- Each body under the enclave pool's mutex is one atomic step, except for a removal, which keeps the mutex while it waits for the write lock; 32-bit wrap-around of the reference count is not modelled.
- Switchless calls, the direct reference increment of the pthread path, signal handlers, the filler's own read lock, and what happens after un-initialisation.
- The contents of enclave pages other than sections: TCS patching, SECS, measurement, launch tokens and the driver calls.
- The copying of patches, the ELRANGE configuration and the ELF parser.
- The remaining compiler-rt routines, the crypto wrappers and the services: wrappers, tables or declarations.
