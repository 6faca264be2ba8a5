# pyrealm: a Dafny model of the forensic scanner and of lazy records

The project models two parts of pyrealm and proves properties of them.

**The forensic scanner and carver** (`src/pyrealm_forensics/parser.py`). A file is a sequence of bytes. The
header is decoded; every plausible array is found by signature, alignment, size arithmetic and the file's end;
packed little-endian references are decoded into a graph; two worklist traversals label each array active,
inactive, shared or orphan; printable UTF-8 and UTF-16LE runs are carved out of the non-reference payloads with
their file offsets. The loops of the source are methods with loops, each proved equal to a specification
function, and the theorems are about those functions and hold for every byte sequence.

**Lazy records and bounded link expansion** (`src/pyrealm/reader.py`). `Realm` and `Record` are classes with the
source's mutable fields: the weak-valued identity cache and the per-field memo. A collector may drop any record
nobody holds, just before any resolution. `to_dict` runs over these objects with one shared mutable set of
ancestors, and is proved equal to a pure function of the immutable native data.

Verify the project with `dafny verify dfyconfig.toml`.

## Files

| file | contents |
|---|---|
| `Bytes`, `Sequences` | byte orders, Python slices, `find`; first-occurrence de-duplication |
| `Layout`, `Scanner`, `References`, `Traversal`, `Classification` | the scanning pipeline, stage by stage |
| `ReferenceBytes` | references in terms of the file's bytes |
| `Locality`, `Truncation`, `TruncatedText`, `HeaderFlip`, `HeaderEdits` | theorems about changing the file |
| `WrittenFiles` | the decoders against a writer: what is laid out is what is read |
| `Runs` | maximal runs over a self-synchronising encoding, shared by both carvers |
| `Utf8`, `Utf8Carver`, `Utf16Carver`, `Extraction`, `StringOrder` | strict UTF-8 (section 4 of RFC 3629), UTF-16LE pairs, carving, the order of the strings |
| `Analysis`, `ReportMeaning` | the composed analysis with its warnings, and what a report says |
| `Records`, `Expansion`, `Rendering`, `Saturation`, `DeeperErrors` | native values, the meaning of `to_dict` from both sides, depth theorems |
| `Reader`, `ResultSets`, `Sessions` | the cache, the memo and `to_dict` on objects; result sets and their generator; whole client runs |

## Model

| member | source | states |
|---|---|---|
| Layout.WidthIsCoded | src/pyrealm_forensics/parser.py:29 | the width table holds no width for code 0 and two to the power c - 1 for code c |
| Layout.PayloadIsLeastCover | src/pyrealm_forensics/parser.py:118-138 | the payload is the least multiple of eight bytes that holds the elements: of so many bits under scheme 0, of so many bytes under scheme 1, of one byte each under scheme 2; only the reserved scheme has no size |
| WrittenFiles.WrittenHeaderIsParsed | src/pyrealm_forensics/parser.py:86-115 | any written two-slot header reads back: bit 0 selects the active slot, the other is inactive, all ones there means unused |
| WrittenFiles.WrittenStreamIsParsed | src/pyrealm_forensics/parser.py:92-100 | a written streaming file reads back with its root from the cookie-protected footer and no inactive root |
| WrittenFiles.HeaderIsWritten | src/pyrealm_forensics/parser.py:86-115 | conversely a header that is read is spelled by the first 24 bytes, magic included, and a streaming root by a footer at the end |
| WrittenFiles.ReadableExactlyWhenWritten | src/pyrealm_forensics/parser.py:86-98 | a file has a readable header exactly when it begins, and where streaming ends, as the writer lays it out |
| WrittenFiles.FixedBytes | src/pyrealm_forensics/parser.py:26-28 | the magic, the signature, the cookie and the unused slot value, byte by byte |
| WrittenFiles.WrittenArrayIsFound | src/pyrealm_forensics/parser.py:152-171 | an array written at any aligned offset past the header is scanned with the count, widths and flags it was written with |
| WrittenFiles.FoundExactlyWhenWritten | src/pyrealm_forensics/parser.py:141-173 | the scanned offsets are exactly those where a signature, flags, a big-endian count and a least payload are laid out |
| WrittenFiles.WrittenReferencesAreDecoded | src/pyrealm_forensics/parser.py:187-192 | values packed at 1, 2, 4 or 8 bytes under width codes 4, 5, 6 or 7 and padded to eight bytes decode to the values written, in order |
| Bytes.Find | src/pyrealm_forensics/parser.py:150-172 | the least match at or after the start, or -1 when there is none |
| Bytes.SliceExactly | src/pyrealm_forensics/parser.py:191 | a slice holds the elements from its lower bound on, up to the upper one or the end |
| Scanner.ScanArrayCandidates | src/pyrealm_forensics/parser.py:141-173 | the scan loop keeps exactly the plausible offsets, overlapping signatures included, each with its decoded header |
| Scanner.RecogniseIsPlausible | src/pyrealm_forensics/parser.py:152-158 | the checks made at a match accept exactly an aligned signature with a known scheme whose least cover fits the file |
| References.AddReferences | src/pyrealm_forensics/parser.py:176-196 | every node gets its decoded child list, whatever order the entries are visited in |
| References.ElementSlicesAreFull | src/pyrealm_forensics/parser.py:187-192 | every element slice of a scanned reference array is full length, inside its payload and inside the file |
| References.ChildrenMeaning | src/pyrealm_forensics/parser.py:187-195 | the children are the decoded values that are scanned offsets, first occurrences in order; the non-zero and even tests follow from membership |
| References.ChildrenInOrder | src/pyrealm_forensics/parser.py:195 | the children stand in the order in which the elements first name them, each once |
| ReferenceBytes.DecodesExactlyWhen | src/pyrealm_forensics/parser.py:187 | an array is decoded exactly when its flags mark references, scheme 0 and a width of whole bytes |
| ReferenceBytes.ChildrenAreSpelled | src/pyrealm_forensics/parser.py:187-195 | a child is exactly a scanned offset that one of the elements of such an array spells, little-endian |
| ReferenceBytes.RefersToIsSpelled | src/pyrealm_forensics/parser.py:187-195 | the edges of the chains are exactly such references between scanned arrays |
| Sequences.DistinctMeaning | src/pyrealm_forensics/parser.py:195 | de-duplication keeps every value once, ordered by first occurrence |
| References.ReferencesAreClosed | src/pyrealm_forensics/parser.py:193-195 | every edge leads to a node, so the traversal never looks up a missing one |
| Traversal.Reachable | src/pyrealm_forensics/parser.py:199-216 | the worklist visits exactly the nodes a path leads to, terminates, and pops at most one more than the visited nodes hold references |
| Traversal.ReachSetIsLeast | src/pyrealm_forensics/parser.py:199-216 | that set is the least one holding the root and closed under children, and empty for an unknown root |
| Classification.ClassifyNodes | src/pyrealm_forensics/parser.py:219-239 | the labelling loop lists every node once, in offset order, labelled by membership in the two reachable sets |
| Classification.LabelsMeanChains | src/pyrealm_forensics/parser.py:176-239 | over the file's bytes: every plausible offset is listed once, ascending, and its label says exactly which roots a chain of decoded references joins to it |
| Locality.GraphIgnoresHeader | src/pyrealm_forensics/parser.py:150-195 | arrays and references do not depend on the 24 header bytes |
| Truncation.CutCandidates | src/pyrealm_forensics/parser.py:141-173 | after a cut exactly the arrays whose extent still fits remain, unchanged |
| Truncation.CutChildren | src/pyrealm_forensics/parser.py:176-196 | a surviving array keeps, in order, exactly its surviving children |
| Truncation.CutLeadsExactly | src/pyrealm_forensics/parser.py:199-239 | in the cut file a root leads to an array exactly when a chain of references in the whole file does that visits only surviving arrays |
| Truncation.TruncationNeverInvents | src/pyrealm_forensics/parser.py:141-239 | cutting a non-streaming file anywhere past the header keeps the header and the fitting arrays; each label is exactly the one those surviving chains give, so labels only move down |
| TruncatedText.TruncationInventsNoText | src/pyrealm_forensics/parser.py:409-448 | every string carved from the cut file is carved from the whole one, same place, label at least as high |
| TruncatedText.SurvivingTextIsKept | src/pyrealm_forensics/parser.py:409-448 | conversely every string of an array that still fits is carved from the cut file too, same place, label at most as high |
| HeaderFlip.FlipSwapsLabels | src/pyrealm_forensics/parser.py:86-115 | unless slot 0 is all ones, flipping bit 0 of the flag byte swaps active with inactive on every array and changes nothing else about the arrays |
| HeaderFlip.AllOnesFlipSwapsExactlyWhen | src/pyrealm_forensics/parser.py:92-105 | when slot 0 is all ones the swap happens exactly if neither header's active root is the offset of an array |
| HeaderFlip.AllOnesSlotHasNoInactive | src/pyrealm_forensics/parser.py:92-105 | with slot 0 all ones the file streams exactly when bit 0 is clear, and no array is inactive or shared |
| HeaderEdits.ConvertedStreamDoesNotSwap | src/pyrealm_forensics/parser.py:92-105 | on every file with slot 0 all ones, slot 1 the offset of an array, the slot bit set and a streaming footer at the end, the flip leaves a readable header and does not swap the labels |
| HeaderEdits.FlipCanFailToSwap | src/pyrealm_forensics/parser.py:92-105 | there is such a file: a header, one empty array and a footer |
| HeaderEdits.CutIsReadableExactlyWhen | src/pyrealm_forensics/parser.py:86-98 | a cut keeps a header readable exactly when it keeps the 24 bytes and, of a streaming file, at least 40 with the cookie bytes at the new end |
| HeaderEdits.FlipIsReadableExactlyWhen | src/pyrealm_forensics/parser.py:92-105 | the flip keeps a header readable exactly when slot 0 is in use, the file streams already or it ends on the cookie bytes |
| Analysis.FlipMovesWarnings | src/pyrealm_forensics/parser.py:289-305 | unless slot 0 is all ones, the flipped file's report lists, in order, exactly the warnings the exchanged roots call for: impossible-root and unresolved warnings change roots, except that a zero or all-ones root is silent while inactive, and while active a zero one is unresolved and an all-ones one unresolved and misaligned |
| Extraction.StringsIgnoreHeader | src/pyrealm_forensics/parser.py:421-447 | files of one length that differ only in the 24 header bytes carry the same strings in the same arrays |
| Analysis.FlipSwapsStrings | src/pyrealm_forensics/parser.py:409-448 | unless slot 0 is all ones the slot flip leaves the carved strings alone but for exchanging their active and inactive labels |
| Utf8.EncodeOfDecode | src/pyrealm_forensics/parser.py:390 | every well-formed character is the encoding of the scalar value it decodes to |
| Utf8.DecodeOfEncode | src/pyrealm_forensics/parser.py:390 | every scalar value's encoding is one well-formed character and decodes back |
| Utf8.LeadWidthDecodes | src/pyrealm_forensics/parser.py:387-392 | decoding the width guessed from the lead byte succeeds exactly where a character begins, and gives that one character |
| Utf8Carver.Utf8Strings | src/pyrealm_forensics/parser.py:374-406 | the one-code-point scan with its one-byte recovery steps reports the long enough runs of kept characters |
| Runs.AllRunsAreMaximal | src/pyrealm_forensics/parser.py:386-405 | on a self-synchronising encoding the left-to-right runs are exactly the maximal ones, and no two touch |
| Utf8Carver.CarvedUtf8IsExact | src/pyrealm_forensics/parser.py:374-406 | the carved strings are exactly the maximal runs of at least `minimum` kept characters, each once, ascending, and encode back to the bytes at their offsets |
| Utf8Carver.ValidTextIsCarved | src/pyrealm_forensics/parser.py:374-406 | every valid UTF-8 range of at least `minimum` kept characters lies wholly inside exactly one carved string and is part of its text |
| Utf8Carver.CarveOfJoined | src/pyrealm_forensics/parser.py:374-406 | encoding printable strings, joining them by unprintable ASCII bytes and carving gives them back at the prefix-sum offsets |
| Utf16Carver.FindPairRuns | src/pyrealm_forensics/parser.py:34-40 | leftmost greedy non-overlapping matching reports the maximal runs of at least `minimum` pairs |
| Utf16Carver.CarvedUtf16IsExact | src/pyrealm_forensics/parser.py:436-447 | at both byte parities the carved strings are exactly the maximal pair runs, each once, ascending, and encode back to their bytes |
| Utf16Carver.AsciiPairsAreCarved | src/pyrealm_forensics/parser.py:436-447 | encoded printable ASCII at any parity lies inside exactly one carved string, and no other carved string covers its start |
| Extraction.ExtractStrings | src/pyrealm_forensics/parser.py:409-448 | the extraction loop yields, array by array, the UTF-8 and then the UTF-16LE strings of each non-reference payload |
| StringOrder.StringsInOrder | src/pyrealm_forensics/parser.py:421-447 | for any list of arrays their strings are listed in the order of the arrays, and within one by encoding and offset, so none twice |
| Analysis.ReportedStringsAscend | src/pyrealm_forensics/parser.py:421-448 | reported strings strictly ascend by array, UTF-8 before UTF-16LE, then file offset; without a minimum there are none |
| Extraction.ShortcutLosesNothing | src/pyrealm_forensics/parser.py:420 | skipping UTF-16LE for a minimum above half the file size drops no string |
| Extraction.RaisingTheMinimumFilters | src/pyrealm_forensics/parser.py:419-448 | a larger minimum gives exactly the long enough strings of the smaller one, in order, across arrays and encodings |
| Analysis.ReportedStringsHaveProvenance | src/pyrealm_forensics/parser.py:409-448 | every reported string re-encodes to the file's bytes at its offset, inside the payload of the plausible non-reference array it names, under that array's label |
| StringOrder.TextIsReportedOnce | src/pyrealm_forensics/parser.py:419-448 | in any list of arrays at distinct offsets, text either carver looks for lies inside the string at exactly one position of the list among those of its array and encoding, and is part of it |
| Analysis.TextInFileIsReported | src/pyrealm_forensics/parser.py:421-447 | printable UTF-8 text, or printable ASCII stored as UTF-16LE, anywhere in a reported non-reference payload lies inside the reported string at exactly one position among those of that array and encoding, and is part of it |
| Analysis.Analyze | src/pyrealm_forensics/parser.py:284-321 | the composed run returns the report and the strings the specification gives, for every file |
| ReportMeaning.KindExactlyWhen | src/pyrealm_forensics/parser.py:272-291 | an empty file, a file without the header bytes and a Realm are told apart exactly |
| ReportMeaning.ReportedHeaderIsWritten | src/pyrealm_forensics/parser.py:86-115 | the reported header is the one the first 24 bytes spell, with the roots its flag bit picks or the footer gives |
| ReportMeaning.ReportWarnsExactly | src/pyrealm_forensics/parser.py:289-305 | each warning is reported exactly when the file calls for it, an impossible root for its reason, in a fixed order and once |
| Analysis.ReportAgreesWithItself | src/pyrealm_forensics/parser.py:289-305 | an impossible root is also reported unresolved; each unresolved warning appears exactly when no array carries that root's labels (and, for the inactive one, it is set); streaming files have no inactive arrays |
| Analysis.QuietRootIsPresent | src/pyrealm_forensics/parser.py:299-303 | without a warning about it the active root is itself listed, labelled active or shared |
| Records.ConvertLosesNothing | src/pyrealm/reader.py:442-460 | conversion fails exactly on a malformed decimal at some depth, and otherwise loses nothing |
| Records.ConvertErrorExactly | src/pyrealm/reader.py:442-460 | the error is that of the first malformed decimal, with its text |
| Records.IdentityExactly | src/pyrealm/reader.py:42-58 | a row's identity is exactly the pair of integers under its two metadata names |
| Records.FieldsExactly | src/pyrealm/reader.py:193-199 | the fields are the row's other entries, in the row's order |
| Expansion.FieldsPointwise | src/pyrealm/reader.py:250-253 | the fields of a record succeed together exactly when each does alone; otherwise the first failing one decides the error |
| Expansion.ItemsPointwise | src/pyrealm/reader.py:488-494 | the items of a list or the values of a dictionary succeed together exactly when each does alone; otherwise the first failing one decides the error |
| Expansion.OutputIsJustified | src/pyrealm/reader.py:469-472 | in a whole output, at any nesting, a `$ref` stands only where expansion is off, the depth is spent or an ancestor is named, and a record is expanded only where none of these holds, one level deeper and inside itself from there on |
| Rendering.PlainExactly | src/pyrealm/reader.py:462-495 | a value comes to an output exactly when the output shows it: a `$ref` with the link's table and key, a record's values each under its own field's name, containers item by item with their keys, leaves unchanged |
| Rendering.OutputShowsRecord | src/pyrealm/reader.py:240-255 | the output of `to_dict` is exactly the one expansion of the record that shows its fields, at every nesting |
| Rendering.LinkErrorExactly | src/pyrealm/reader.py:469-472 | a `$ref` fails exactly for a table key without a name, a link to follow for an unreadable target |
| Expansion.RecordIsAcyclic | src/pyrealm/reader.py:240-255 | no identity is expanded inside its own expansion |
| Expansion.OneLevelLess | src/pyrealm/reader.py:462-495 | the output at depth d is the output at d + 1 with every record at link depth d + 1 replaced by its `$ref` |
| Expansion.WithoutExpansionDepthIsIdle | src/pyrealm/reader.py:469-472 | with link expansion off every depth gives the same output |
| Saturation.DepthMattersExactlyWhen | src/pyrealm/reader.py:234-255 | unless both are errors, the outcomes of depth d and of a greater depth differ exactly when some chain of d + 1 distinct readable records from the root ends in a link out of the chain; without such a chain even errors are equal |
| Saturation.DepthSaturates | src/pyrealm/reader.py:234-255 | with R readable records, and any number of unreadable identities, closed under links every depth of at least R gives the same outcome, on any cyclic graph |
| Saturation.DepthSaturatesSooner | src/pyrealm/reader.py:234-255 | when no record links to an unreadable one, every depth of at least R - 1 gives the same outcome |
| Saturation.OneLevelShortExactlyWhen | src/pyrealm/reader.py:469-472 | unless both are errors, the outcome of depth R - 1 differs from a deeper one exactly when some chain of links from the root visits every readable record once and its last record has a dangling link |
| Saturation.SaturationBoundIsExact | src/pyrealm/reader.py:234-255 | for every R above one some graph of R readable records without a dangling link still changes between depths R - 2 and R - 1 |
| Saturation.UnreadableTargetsCount | src/pyrealm/reader.py:470-472 | with one readable record whose link dangles depths 0 and 1 differ: R - 1 is not always enough |
| DeeperErrors.DeeperRunResumes | src/pyrealm/reader.py:462-495 | a deeper run fails exactly at the first spent link of the shallower one that fails with the depth left over, else where the shallower run fails on its own, else not at all |
| DeeperErrors.ErrorsDifferExactlyWhen | src/pyrealm/reader.py:462-495 | two depths that both end in errors end in different ones exactly when a link the shallower run leaves spent is the first to fail in the deeper one with another error, or none fails there and the shallower error was that of such a link |
| DeeperErrors.ErrorsCanDiffer | src/pyrealm/reader.py:469-472 | they can: a dangling link of an unknown table is refused for its table at depth 0 and for its target at depth 1 |
| Reader.RecordToDict | src/pyrealm/reader.py:240-255 | with collection striking at any link, the run over the shared mutable set equals the pure expansion over ancestors, and restores the set on every normal return |
| Reader.PlainValue | src/pyrealm/reader.py:462-495 | the same for one value of any shape |
| Reader.TopToDict | src/pyrealm/reader.py:234-238 | `to_dict` rejects a negative depth and for every other one gives the pure expansion at that depth; what the client holds stays live |
| Reader.Record.GetItem | src/pyrealm/reader.py:211-223 | a field read equals a fresh conversion, a success is remembered and a failure is not |
| Reader.FreshFieldExactly | src/pyrealm/reader.py:211-223 | that conversion: no such field, the field's conversion error under its name, or its converted value |
| Reader.Record.constructor | src/pyrealm/reader.py:193-199 | the metadata entries become the identity, the other entries the fields, the memo starts empty |
| Reader.Realm.Resolve | src/pyrealm/reader.py:424-431 | the live record of the identity if there is one, else a new one entered under its own identity; an error exactly for an unreadable target |
| Reader.Realm.RecordFromRaw | src/pyrealm/reader.py:433-440 | the same for a row already read, with the metadata errors |
| Reader.OneLiveRecordPerIdentity | src/pyrealm/reader.py:433-440 | what `Valid` comes to, which every method of `Realm`, `Record`, `Results` and of a session preserves under any collection: two live records of one identity are the same object |
| ResultSets.Results.Get | src/pyrealm/reader.py:283-290 | `results[i]`, negative indexes included, gives the live record of the entry's identity or the entry's own error |
| ResultSets.EntryAtExactly | src/pyrealm/reader.py:283-290 | of n entries index k is entry k, -k is entry n - k, every other index is refused |
| ResultSets.ValidIterator.Next | src/pyrealm/reader.py:298-317 | one `next` on the generator gives what the entries from its position on say: the next readable one and the failures before it, in order, whatever its caller keeps and wherever it stops asking |
| ResultSets.IterValid | src/pyrealm/reader.py:298-317 | run to the end by a caller that keeps every record: the readable records in order, and the index and error of every other entry in order |
| ResultSets.EntriesArePartitioned | src/pyrealm/reader.py:298-317 | every entry of a result set is readable or a failure, exactly once |
| ResultSets.ReadableInOrder | src/pyrealm/reader.py:298-317 | each readable entry is yielded behind exactly the readable entries before it |
| Sessions.Run | src/pyrealm/reader.py:424-460 | over every run of resolutions, result indexing, generator steps, field reads, dumps, releases of any held records and collections, each outcome is that of an uncached read, the identity map stays valid and unreleased records stay live |
| Sessions.SuspendedGenerator | src/pyrealm/reader.py:298-317 | whatever a run puts between the steps of a generator, the records it yields are the readable entries it has passed, in order, and the errors it reports are the failures among them |
| Sessions.ResolveAgain | src/pyrealm/reader.py:424-431 | whatever script runs and whatever is collected between two resolutions of an identity, while the first record is not released the second resolution gives that very object |

Where the sources leave something to a library the model states what is assumed: `str.isprintable` is an
arbitrary predicate on code points; `bytes.decode("utf-8")` is the strict grammar of RFC 3629, section 4;
`mmap.find` is the least match; the regular expression's iteration is leftmost, greedy and non-overlapping;
a native read returns the identity it was asked for (`native/module.cpp:541-545`) and never changes.

## Left out

- File opening, hashing, entropy and the headerless classification that depends on it, and all report writing: input and output, or thresholds on floating-point logarithms.
- The wording of warnings and errors: each is a constructor with its parameters.
- Extraction.ExtractStrings: takes a minimum of at least one, as `carve_realm` enforces; zero would make the regular expression match empty text.
- Traversal.Reachable: takes a graph whose edges all lead to nodes, as `_add_references` makes it; on any other the source would raise a KeyError.
- CPython's own limit on regular-expression repeat counts, which a minimum above 2^32 in a file above 8 GiB would meet.
- Native sides that change or are closed during a run, and rows whose identity differs from the one asked for.
- Realm.close, realms released while links are held, schema loading, table lookup by name, queries, and slices of result sets.
- Frozen-set iteration order and de-duplication on conversion: sets are listed in a fixed iteration order.
- Text forms of leaves in `_plain_value` (base64, UUID, decimal): opaque, each kept apart by its own constructor. Dictionary keys are strings, as Realm's are.
- Expansion.OneLevelLess: is stated where the deeper output exists; a deeper run may also fail on a record the shallower one never opens, which DeeperErrors.DeeperRunResumes describes.
- Python's recursion limit.
