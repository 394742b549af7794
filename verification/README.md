# efivar in Dafny

A model of the parts of efivar that move firmware data between memory, files and disks, with proofs of what they
promise. Everything is stated for all inputs, all runs or all interleavings; where the code does not meet a
natural expectation, the exact condition under which it does is proved instead, with a lemma at an input that fails it.

| module | models |
|---|---|
| `Bytes`, `Sorting` | little-endian fields, stores into buffers; `qsort` as a sorted permutation, uniqueness of sorted sequences |
| `Crc32`, `CrcLinear` | the table-driven CRC (section 8.1.1.6.2 of ITU-T V.42) against the bit-serial shift register; its linearity |
| `Ucs2` | UTF-8 (section 3 of RFC 3629) and UCS-2 conversion |
| `Guids` | the order of GUIDs and byte strings |
| `Export` | export and import of variables, dmpstore and native formats |
| `Ring` | the circular doubly linked list and `list_sort` |
| `EslIter` | the two-level iterator over EFI_SIGNATURE_LIST buffers (section 32.4.1 of the UEFI Specification 2.8) |
| `SecDb`, `SecDbFile` | the signature database: find, add, delete, sort; parse, visit, realise |
| `SecDbRuns`, `SecDbCanonical`, `SecDbRoundTrip` | what whole runs of the database keep; canonical bytes; the round trip |
| `SecDbDirection` | what the sort flags and the direction come to, in bytes |
| `SecDbWrap` | a run one addition past the bound, which fails |
| `SecDbHeap` | the database in memory, a ring of lists with a ring of entries each |
| `Authenticode` | the byte stream of the PE image hash |
| `Efivarfs`, `EfivarfsOrder` | the efivarfs write protocol against an arbitrary environment; what stands before each call |
| `Chooser`, `ChooserOrder` | scoring, filtering and ordering of boot images |
| `DevicePath`, `LoadOption` | device paths (section 10.3.1) and load options (section 3.1.3) |
| `Gpt`, `GptSeal` | GPT header and table validation (section 5.3.2); what its checksums refuse |

`dafny verify dfyconfig.toml` checks the whole project.

## How the model is built

Code that updates variables, buffers or objects is a method or a class with loops; each method is proved against
a specification function or relation, and the theorems are about that specification. Integers are unbounded, and
every 16-, 32- or 64-bit wrap-around that the code can reach is written out (`U32`, `Int32`, `Put`, `% TWO64`).
Pointers are offsets into byte sequences; a read outside the buffer is an outcome of its own (`PastEnd`,
`Overrun`, `Unread`, `Overreads`), and so is a division by zero (`Faults`) or a loop that does not end (`Diverges`,
`Hangs`, `Forever`). Non-termination is defined on the turns of the loop: no number of turns reaches its exit
(`DevicePath.NeverEnds`). Sorting is a relation: any permutation, in order whenever the comparator is consistent, so
results hold for every `qsort`.

The main results:

- **Signature database.** With lists sorted by type, every run of additions, deletions, parses and flag changes over
  hash and RSA-2048 entries refines a map from type and data to owner (`SecDbRuns.RunRefines`), which visiting shows
  exactly (`SecDbRuns.VisitShowsMap`). List sizes are 32-bit numbers that deletion never lowers, and a list of size
  zero matches any type (src/secdb.c:56). The sizes of SHA-256, SHA-384, SHA-512 and RSA-2048 lists never come back to
  zero, so these types have no bound. A SHA-1 list does after 835132529 additions and a SHA-224 list after 683290251
  (`SecDbRuns.SizeNotZero`); below these numbers every run is right, and at the second a run exists after which the
  database no longer represents the map (`SecDbWrap.WrapBreaksRun`). With data sorted too, each list has its
  entries by owner and data, ascending or descending as the flag says (`SecDbDirection.RunDirected`), the opposite
  direction realises both levels reversed (`SecDbDirection.OppositeReversed`), the realised bytes are a function of the
  map and the direction (`SecDbCanonical.OrderInvisible`), and parsing them back and realising again
  changes nothing, below 4 GiB or when each list is (`SecDbCanonical.ParseRealizedIdempotent`); a list of 89478485
  SHA-256 values has a size field of 12, and the parser refuses it (`SecDbCanonical.WrappedListRefused`). With sorting
  off, realise after parse is the identity on files of hash and RSA-2048 lists and one-entry lists if and only if no
  entry is without data (`SecDbRoundTrip.RoundTrip`, `SecDbRoundTrip.EmptyListLost`). From 4 GiB on, a file whose
  lists are each smaller is read in full, and then the iterator reads past the buffer (`EslIter.WalksBack`,
  `EslIter.WalksPastEnd`); nothing is promised about what the parse returns after that, and no run goes on from there.
  In memory, adding, deleting and sorting on the ring of lists and their rings of entries have the contracts of the
  operations on sequences, so runs in memory represent the map as well (`SecDbHeap.HeapDatabase.AddEntryOrList`,
  `SecDbHeap.RunInMemory`).
- **Authenticode.** For images as `load_pe` accepts them whose sections tile the file in any table order, every byte before
  the certificate table is hashed once, in order, except the checksum and the directory entry: always below 4 GiB, and
  from there on exactly under a condition on the 32-bit sizes (`Authenticode.Coverage`); 4 GiB of data behind the headers
  are not hashed at all (`Authenticode.HugeFile`). The section table of such an image is accepted exactly if every section
  lies behind the headers, unless it is uninitialised, and its end does not wrap (`Authenticode.AcceptedIffPlaced`). Signing keeps the stream, behind sections that end below 4 GiB and
  with less than 4 GiB after them, if and only if data follows the last section or the file is already a multiple of
  eight bytes, because the code pads only data that follows the sections; the condition for larger files is exact too
  (`Authenticode.SigningKeepsStream`).
- **CRC.** Table and shift register agree; a buffer carries its own CRC exactly when it drives the register to one
  residue; no change within four consecutive bytes goes unnoticed (`Crc32.SealedIffResidue`, `Export.NativeBurst`).
- **Export and import.** A concatenation of dmpstore records is walked back exactly (`Export.ImportAll`). The native
  importer rejects short records the exporter writes and reports a length four bytes too large
  (`Export.NativeAcceptedIff`, `Export.NativeLengthIsOff`), against docs/efi_variable_t.3:49; its copy of the name reads
  twice the name field and leaves the record exactly when the data is too short (`Export.NativeImportsData`), and it
  keeps low bytes only, so that exactly single-byte characters come back (`Export.NativeImportsName`). Names of 2^32
  characters are counted modulo 2^32 (`Export.ExportDmpstore`, `Export.LongNameAsked`).
- **efivarfs.** In every interleaving, data and flags go only to an inode the call opened first or created exclusively,
  and every exit has restored the flags it cleared (`Efivarfs.WritesOnlyOurs`, `Efivarfs.EveryExitRestores`). Whenever the
  immutable bit was seen, clearing it is asked for before the file is opened for writing or written
  (`EfivarfsOrder.ProtectedMadeMutable`); the call ends after ten system calls at most, and fails only for a reason
  (`EfivarfsOrder.Ends`, `EfivarfsOrder.FailsForReason`). Inode
  numbers may be reused; that equal numbers mean one inode rests on the descriptor still being open. The removal of a
  created file after a failure goes by path: it takes the call's own file if nobody else touched the path, and there is a
  run in which it takes another (`Efivarfs.OwnFileRemoved`, `Efivarfs.RemovesAnother`). Attributes and data have all been
  put into the inode exactly if the write returned their length; a shorter count is a success too
  (`Efivarfs.DeliversWhole`, `Efivarfs.ShortWriteSucceeds`).
- **Chooser.** The filter follows the four-step rule exactly when strengths do not get in the way
  (`Chooser.FilterMeetsRule`): a trusted signature of strength zero removes a file the rule passes, so larger
  databases are monotone only for positive strengths (`Chooser.PrintsGrows`, `Chooser.ZeroStrengthRemoves`).
  The times that rank a file are those of all its signatures, trusted or not, because loading has already taken them in;
  a missing end makes it forget those before (`Chooser.TimesOfAll`, `Chooser.TimesOfTrustedIff`,
  `Chooser.MissingEndForgets`, `ChooserOrder.UntrustedTimesCount`). `pe_cmp` is the
  lexicographic key order exactly while differences of strengths fit an `int` (`ChooserOrder.PeCmpIsKeyOrder`). The
  circle of `ChooserOrder.CircularStrengths` needs strengths that no certificate gets: those are at most 256, and with
  them the output does not depend on the order of the arguments (`ChooserOrder.ChosenOnce`). The score is the least
  strength of the considered trusted signatures (`Chooser.ScoreIsLeast`), and what comes first is said on the files
  themselves (`ChooserOrder.LongerHashFirst`, `ChooserOrder.StrongerSignatureFirst`, `ChooserOrder.TimesDecide`).
- **Device paths and load options.** `append_path` concatenates and is associative; it fails to terminate exactly when the
  left path has several instances (`DevicePath.AppendsPath`). A created load option is read back part by part, exactly
  when the last character of its description starts below the room given to it (`LoadOption.CreatesParts`,
  `LoadOption.RoundTrip`). The walk over a malformed path list steps back byte by byte and may go round for ever
  (`LoadOption.WalkList`, `LoadOption.RoundAndRound`).
- **GPT.** `validate_nptes` accepts exactly the tables that fit, without wrap-around; any pair handed out comes from one
  copy, lies inside its region and the device (`Gpt.CopyInBounds`), and is the primary whenever that is valid. Each of
  the outcomes of the search - a copy, none, a division by zero, a read past the header - has its exact condition
  (`Gpt.FindValidGpt`). The table of the alternate copy may start on the last usable block (`Gpt.TableOverlapsIff`).
  A header changed within four bytes is refused, and so are a table and its checksum (`GptSeal.DamagedHeaderRefused`,
  `GptSeal.DamagedTableRefused`), except that a change of the header may reach over the end of its checksum: the
  checksummed bytes then change together with the checksum. Such a change is refused if and only if its difference leaves
  an empty CRC register non-empty, and every valid header of 92 bytes has one that is not (`GptSeal.StraddleIff`,
  `GptSeal.StraddleUnseen`).

## Model

| member | source | states |
|---|---|---|
| Crc32.TableByteIsSerial | src/crc32.c:53-119 | one table step equals eight steps of the reflected shift register with polynomial 0xedb88320, for every register and byte |
| Crc32.Crc32 | src/crc32.c:110-122 | the loop equals the bit-serial register for every buffer and seed |
| Crc32.SerialConcat | src/crc32.c:110-122 | the CRC of a concatenation is the CRC of the second part seeded with that of the first |
| Crc32.FeedByteInjective | src/crc32.c:117-119 | a byte step is injective in the register |
| Crc32.SerialInjective | src/crc32.c:117-119 | any number of byte steps is injective in the register |
| Crc32.WindowInjective | src/crc32.c:117-119 | different windows of up to four bytes leave different registers |
| Crc32.EfiCrc32 | src/crc32.h:29-33 | seeding with ones and complementing, as four little-endian bytes |
| Crc32.ComplementEndsInResidue | src/crc32.h:29-33 | feeding any register its own complement ends in one fixed residue |
| Crc32.SealedIffResidue | src/export.c:257-263 | a buffer ends in its CRC if and only if it drives the register to the residue |
| Crc32.BurstBreaksSeal | src/export.c:257-263 | a buffer differing from a sealed one only within four consecutive bytes, trailing CRC included, is not sealed |
| CrcLinear.SerialLinear | src/crc32.c:110-122 | the CRC of a difference is the difference of the CRCs |
| CrcLinear.UnseenIff | src/export.c:257-263 | a change of a sealed buffer that keeps its length goes unnoticed if and only if the difference alone leaves an empty register empty |
| CrcLinear.HiddenChange | src/crc32.h:29-33 | a change of four bytes, three of them in the trailing CRC, that every sealed buffer of 96 bytes survives |
| Ucs2.Utf8Len | src/ucs2.h:64-79 | the number of characters the walk meets before NUL or the limit |
| Ucs2.Utf8Size | src/ucs2.h:90-97 | one more than the count unless the limit is reached |
| Ucs2.Ucs2Len | src/ucs2.h:19-30 | the number of units before NUL or the limit |
| Ucs2.Ucs2Size | src/ucs2.h:41-50 | twice the count and a terminator, capped by the limit |
| Ucs2.Ucs2ToUtf8 | src/ucs2.h:109-168 | the NUL-terminated encoding of exactly the scanned units, or that it reads past the end: it looks at one unit more than its limit |
| Ucs2.LooksPastLimit | src/ucs2.h:123 | within its limit it reads past the end if and only if no NUL comes before the limit and nothing lies behind it |
| Ucs2.LooksPastExample | src/ucs2.h:123 | one letter with a limit of one |
| Ucs2.Utf8ToUcs2 | src/ucs2.h:181-230 | when it converts, what it stores and returns, that nothing else in the buffer changes, and exactly when it writes past the buffer; nothing is stored for an empty string |
| Ucs2.TerminatorPastSize | src/ucs2.h:181-230 | a conversion writes past the size given to it if and only if that is exactly the size it asks for and every character is decoded |
| Ucs2.TerminatorExample | src/ucs2.h:181-230 | one letter in three bytes of room: four are written |
| Ucs2.DecodeEncodeUnit | src/ucs2.h:123-222 | decoding the encoding of a unit gives the unit back, whatever follows |
| Ucs2.TextCount | src/ucs2.h:64-79 | the encoding of a NUL-free string has one character for each unit |
| Ucs2.DecodeText | src/ucs2.h:206-224 | decoding an encoded NUL-free string is the identity if and only if its last character starts below `size` |
| Ucs2.TwoByteText | src/ucs2.h:123-128 | characters below U+0800 take at most two bytes |
| Ucs2.ShortestIsEncoded | src/ucs2.h:109-168 | every shortest-form text of one to three byte characters is the encoding of some NUL-free units |
| Ucs2.EncodedIsShortest | src/ucs2.h:123-134 | the encoder writes shortest form only |
| Guids.ByteCmp | src/secdb.c:663-678 | the difference at the first differing byte |
| Guids.GuidCmp | src/guid.h:191-207 | orders GUIDs as the bytes of their text compare, and returns zero only for equal ones |
| Guids.TextShows | src/guid.h:191-207 | a GUID made from the groups of its text shows that text |
| Export.ImportDmpstore | src/export.c:49-186 | succeeds if and only if the buffer starts with a well-formed sealed record and the result pointer is not yet set, gives its fields and decoded name, and returns its exact length |
| Export.RecordUnique | src/export.c:49-186 | a buffer starts with at most one dmpstore record |
| Export.ExportDmpstore | src/export.c:326-454 | sizes asked for, errors, and on success exactly one record at the start of the buffer; for names of 2^32 characters and more the narrowed size, and the cut record or the store past the buffer |
| Export.NameFieldText | src/export.c:326-454 | the exported name is whole if and only if its last character starts below the size given to the decoder |
| Export.ExportWhole | src/export.c:326-454 | an export with room carries the whole name if and only if it fits |
| Export.ExportedIsWhole | src/export.c:326-454 | for names below U+0800 the exporter's record is always the whole one |
| Export.WideNameCut | src/export.c:326-454 | thirty three-byte characters with one byte of data are exported cut short |
| Export.LongNameAsked | src/export.c:361-370 | for a name of 2^32 - 1 letters 33 bytes are asked for, and more than 8 GiB needed |
| Export.ImportsBack | src/export.c:49-186 | whatever follows it, an exported record is imported as the variable it came from |
| Export.ImportEfivar | src/export.c:188-311 | accepts exactly the buffers that pass its tests; gives attributes, GUID, the copied name and data, or that a copy leaves the buffer, and the length it reports |
| Export.NativeBurst | src/export.c:188-311 | an accepted native buffer changed within four consecutive bytes is rejected |
| Export.ExportNative | src/export.c:456-591 | sizes asked for, errors, and on success exactly one native record at the start of the buffer; the same for names counted modulo 2^32 |
| Export.NativeAcceptedIff | src/export.c:192-207 | an exported native record is accepted if and only if it is longer than 51 bytes |
| Export.NativeLengthIsOff | src/export.c:243-310 | the length reported for a native record is four more than the record |
| Export.ShortNativeRejected | src/export.c:192-207 | a record of 49 bytes that the exporter writes and the importer rejects |
| Export.LengthOffExample | src/export.c:243-310 | a record of 52 bytes, accepted and reported as 56 |
| Export.NativeImportsData | src/export.c:221-290 | attributes, GUID and data of an exported record come back; the copy of the name stays inside it if and only if the name field is at most four bytes longer than the data |
| Export.NameLeavesRecord | src/export.c:278-280 | a record of 53 bytes that is accepted and whose name copy leaves it |
| Export.NativeImportsName | src/export.c:270-275 | when its copy stays inside the record, a name comes back as its low bytes up to the first zero, and as it was if and only if all its characters are single bytes |
| Export.NameChanged | src/export.c:278-280 | the name U+0141 comes back as the letter A |
| Export.RecordIsNotNative | src/export.c:209-215 | no dmpstore record is taken for a native one |
| Export.Import | src/export.c:313-324 | native first, dmpstore otherwise, and what each gives; a result pointer that is set matters to the second only |
| Export.ImportAll | docs/efi_variable_t.3:49 | using each return value as the next offset walks a concatenation of dmpstore records back exactly |
| Ring.InitHead | src/list.h:29-33 | makes a ring of one node |
| Ring.IsEmpty | src/list.h:35-39 | true exactly for a ring of one node |
| Ring.AddBetween | src/list.h:41-49 | inserts a node after position k, every other link unchanged, ring intact |
| Ring.Add | src/list.h:51-55 | inserts right after the given node |
| Ring.AddTail | src/list.h:57-61 | inserts before the head, last in the ring |
| Ring.Del | src/list.h:63-82 | leaves the ring of the remaining nodes and clears the removed one |
| Ring.Size | src/list.h:105-114 | the number of nodes besides the head |
| Ring.Collect | src/list.h:134-148 | the nodes in ring order, its bound test never cutting any off |
| Ring.Relink | src/list.h:152-157 | relinking through a moving head makes a ring of the head and the array in order |
| Ring.Sort | src/list.h:120-161 | the ring is intact and holds exactly the original nodes in comparator order |
| EslIter.Iterator.constructor | src/esl-iter.c:38-68 | the state before the first call |
| EslIter.Iterator.NextList | src/esl-iter.c:301-440 | the list level, size correction included, moves as its step function does |
| EslIter.Iterator.Next | src/esl-iter.c:83-233 | the entry level moves and reports as its step function does, on every buffer |
| EslIter.StepMoves | src/esl-iter.c:83-440 | on every buffer, each call that hands out an entry moves forward, so iteration ends |
| EslIter.WalksOver | src/esl-iter.c:83-440 | well-formed lists of any total size are handed out entry by entry, and how the walk ends |
| EslIter.WalksBack | src/esl-iter.c:83-440 | a concatenation of well-formed lists yields exactly the flattened entries, each list start flagged once, and then the end if and only if the buffer is below 4 GiB |
| EslIter.WalksPastEnd | src/esl-iter.c:301-440 | two lists of a little over 2 GiB, behind which the iterator reads |
| EslIter.WalksPadded | src/esl-iter.c:301-440 | behind well-formed lists 28 zeros or more end the walk after the same entries, whatever the size; fewer make the iterator read past the file |
| EslIter.LeftoverRefused | src/esl-iter.c:161-170 | a list that does not divide into entries of its size is refused, first in a file or behind well-formed lists |
| EslIter.SizeWraps | src/esl-iter.c:83-233 | a list of 2^32 + 12 bytes has the size field 12, and nothing of it is handed out |
| SecDb.TypeRoundTrip | src/secdb.h:97-121 | the type found for a type's GUID is that type |
| SecDb.TableSizes | src/secdb.c:751-838 | hash lists hold digests of their number of bits, RSA lists moduli of 2048 bits |
| SecDb.EntryCompare | src/secdb.c:683-701 | orders entries by owner as text, then by data |
| SecDb.Database.constructor | src/secdb.c:14-32 | empty, types sorted, data unsorted, ascending |
| SecDb.Database.SetBool | src/secdb.c:299-320 | sets the named flag and no other; other numbers fail |
| SecDb.Database.FindEntry | src/secdb.c:37-68 | the last list that is empty-sized, unready, or of the type and size |
| SecDb.Database.SelectList | src/secdb.c:70-126 | the list found or allocated, with its type and size |
| SecDb.Database.AddEntryOrList | src/secdb.c:216-283 | unknown types fail; data already in the list changes nothing; otherwise one entry more, lists and data sorted as the list's flags say; exactly when a comparison leaves the stored bytes |
| SecDb.Database.DelEntry | src/secdb.c:131-174 | removes the first entry with equal data and owner from the list found, and nothing else; exactly when a comparison leaves the bytes compared |
| SecDb.ShortEntryOverread | src/secdb.c:261-265 | a list with a shorter value, on which the comparison leaves its bytes |
| SecDb.CertificatesApart | src/secdb.c:37-126 | a list with one certificate is found for those sixteen bytes shorter and for no others |
| SecDb.DeletesAlike | src/secdb.c:131-174 | deleting a certificate takes another of the same size and owner that differs only in the last sixteen bytes |
| SecDbFile.FetchMoves | src/secdb.c:368-399 | on every buffer, each entry the parse loop gets, corrected or not, moves the iterator forward, so the loop ends |
| SecDbFile.Parse | src/secdb.c:325-437 | adds every fetched entry in order, new lists forced as the flags say, sorts at the end, keeps what it has when it refuses; reads past the buffer or a stored entry are an outcome of their own; what it leaves in the caller's buffer |
| SecDbFile.ParseNew | src/secdb.c:325-437 | with a NULL database, the parse of a new one, handed out only on success |
| SecDbFile.YieldsUnchanged | src/esl-iter.c:301-440 | a buffer that needs no correction is left as it is |
| SecDbFile.FirstForced | src/secdb.c:368-399 | the first entry is never a corrected one, so that a NULL database does not force it makes no difference |
| SecDbFile.Visit | src/secdb.c:600-661 | on any database, any visitor is called for the entries of every list in order, up to the first it does not continue after; an error of its own or a list of unknown type is returned |
| SecDbFile.ShowsVisits | src/secdb.c:600-661 | on lists that hold what they announce, the calls carry exactly the entries |
| SecDbFile.VisitorState.Visit | src/secdb.c:452-525 | header on a new list, the entry appended, the list size patched in place |
| SecDbFile.Realize | src/secdb.c:531-550 | on any database, the bytes are the concatenation of the non-empty lists, unless the copy of an entry reads past its stored bytes, which happens exactly if a list announces more than an entry holds |
| SecDbFile.HeadCounts | src/secdb.c:519-521 | adding an entry's size to the size field in place makes the header that counts one more, modulo 2^32 |
| SecDbRuns.AddRefines | src/secdb.c:216-283 | an addition inserts into the map only if the data is absent, as long as no list size comes back to zero |
| SecDbRuns.DelRefines | src/secdb.c:131-174 | a deletion removes from the map only on equal data and owner |
| SecDbRuns.ComparesInside | src/secdb.c:131-264 | in every reachable database the comparisons of additions and deletions stay inside the stored bytes |
| SecDbRuns.RightSteady | src/secdb.c:368-424 | no addition of a well-formed file to a reachable database reads past a stored entry |
| SecDbRuns.ParseRefines | src/secdb.c:325-437 | parsing a well-formed file inserts its entries in order; it succeeds if and only if the file is below 4 GiB, and reads past the buffer, all entries inserted, if not |
| SecDbRuns.Apply | src/secdb.c:131-437 | the engine takes exactly the steps that runs are made of, unless it reads past a buffer or a stored entry |
| SecDbRuns.RightOverruns | src/secdb.c:131-437 | in a run an operation reads past something exactly if it parses 4 GiB or more |
| SecDbRuns.RunRefines | src/secdb.c:131-437 | at every point of every run the database represents the map, with fewer than 835132529 SHA-1 and 683290251 SHA-224 additions and any number of others |
| SecDbRuns.SizeNotZero | src/secdb.c:176-213 | no list size is zero below the two bounds, and none ever for the other types |
| SecDbRuns.SearchIsRightIff | src/secdb.c:54-63 | the search finds a list of the type, or rightly none, if and only if no list of another type with size zero lies behind |
| SecDbRuns.WrapBreaksSearch | src/secdb.c:54-63 | a SHA-1 list one addition short of the bound takes in the next SHA-256 entry after that addition |
| SecDbWrap.WrapBreaksRun | src/secdb.c:37-283 | a run of 683290251 SHA-224 additions and one of SHA-1 after which the database does not represent the map |
| SecDbRuns.VisitShowsMap | src/secdb.c:600-661 | the calls of a visit carry every key of the map once and nothing else, and all the bytes they announce are there |
| SecDbCanonical.EntryOrderConsistent | src/secdb.c:683-707 | the entry comparators are total preorders |
| SecDbCanonical.ListOrderConsistent | src/secdb.c:712-749 | the list comparators are total preorders on every reachable database |
| SecDbCanonical.RunOrdered | src/secdb.c:270-280 | every run with both sort flags leaves lists and entries in order of the comparators, which SecDbDirection.RunDirected says on bytes |
| SecDbCanonical.Canonical | src/secdb.c:452-550 | databases with the same map and direction realise the same bytes |
| SecDbCanonical.OrderInvisible | src/secdb.c:216-550 | runs that reach the same map realise the same bytes |
| SecDbDirection.EntryOrderBelow | src/secdb.c:683-707 | the comparator of either direction puts first the entry whose owner text and data are smaller, or larger, at the first byte that differs |
| SecDbDirection.SameTypeBySize | src/secdb.c:712-749 | lists of one type are ordered by entry size, then by size, in the direction given |
| SecDbDirection.RunDirected | src/secdb.c:270-280 | after every run with both sort flags, for i < j in a list the owner text and data of entry i are below those of entry j when ascending and above when descending, and the lists are strictly by type in the same direction |
| SecDbDirection.OppositeReversed | src/secdb.c:683-749 | runs with the same map and opposite directions realise the same lists from the last to the first, each with its entries from the last to the first |
| SecDbCanonical.RebuildUnwrapped | src/secdb.c:216-283 | loading what a run has left takes no more additions of a type than the run did, so no size wraps |
| SecDbCanonical.ParseRealizedIdempotent | src/secdb.c:325-550 | below 4 GiB, parsing realised bytes and realising again gives the same bytes and the same map, and the parse succeeds unless there are none; from 4 GiB on the same for lists that are each smaller, read in full before a read past the buffer |
| SecDbCanonical.WrappedListRefused | src/secdb.c:325-550 | a database of one list of 89478485 SHA-256 values, whose realised bytes the parser refuses |
| SecDbCanonical.ApplyAll | src/secdb.c:131-437 | the engine, given any operations, goes through the states of a run up to the first that reads past something |
| SecDbCanonical.Build | src/secdb.c:131-550 | the engine's own execution of any operations gives bytes if and only if none of them parses 4 GiB or more; it is such a run, and the bytes are the run's |
| SecDbRoundTrip.AddsFile | src/secdb.c:368-424 | with sorting off, a file builds exactly its lists, those of one empty entry without it |
| SecDbRoundTrip.StaysSteady | src/secdb.c:216-283 | no addition of such a file reads past a stored entry |
| SecDbRoundTrip.RoundTrip | src/secdb.c:325-550 | with sorting off, on files of distinct hash or RSA-2048 lists and one-entry lists of known types, realise after parse drops exactly the lists without data, and so is the identity if and only if there are none; the parse succeeds if and only if the file is below 4 GiB, and reads past it if not |
| SecDbRoundTrip.EmptyListLost | src/secdb.c:184-187 | a certificate list of one entry without data, which the round trip loses |
| SecDbRoundTrip.ReadAndWrite | src/secdb.c:325-550 | the engine reads such a file below 4 GiB and writes it back if and only if no entry is without data |
| SecDbHeap.EntryRing.Append | src/secdb.c:176-213 | the ring of entries is intact and holds one entry more, last |
| SecDbHeap.EntryRing.Delete | src/secdb.c:157-171 | the first matching entry is unlinked and nothing else, unless a comparison leaves the data |
| SecDbHeap.EntryRing.Sort | src/list.h:120-161 | the ring of entries is intact and in comparator order |
| SecDbHeap.HeapDatabase.Search | src/secdb.c:54-66 | walking the links backwards finds the list the search on sequences finds |
| SecDbHeap.HeapDatabase.ChangeEntries | src/secdb.c:131-283 | a change inside one ring of entries leaves the other rings and the ring of lists alone |
| SecDbHeap.HeapDatabase.SortLists | src/secdb.c:275-280 | the ring of lists is intact, with its rings of entries, and in comparator order |
| SecDbHeap.HeapDatabase.AddEntryOrList | src/secdb.c:216-283 | on the rings, what the addition on sequences does |
| SecDbHeap.HeapDatabase.DelEntry | src/secdb.c:131-174 | on the rings, what the deletion on sequences does |
| SecDbHeap.HeapDatabase.Apply | src/secdb.c:131-320 | every operation on the rings is a step of a run |
| SecDbHeap.RunInMemory | src/secdb.c:131-320 | the rings represent the map after any additions, deletions and flag changes below the two bounds, and nothing has read past anything |
| SecDbHeap.PayloadsSorted | src/list.h:120-161 | sorting links by what they hold sorts what they hold |
| Authenticode.InsertSection | src/authenticode.c:199-206 | one turn of the in-place insertion sort |
| Authenticode.SortTable | src/authenticode.c:164-208 | accepts exactly the tables whose sections pass every test, which Authenticode.PlacedValid says on their own fields, and sorts them stably by file position |
| Authenticode.PlacedValid | src/sbchooser-pe.c:797-825 | a section is taken exactly if it lies behind the headers in memory and in the file, unless it is uninitialised, and its last address is a 32-bit number not below its first |
| Authenticode.UninitializedBit | src/sbchooser-pe.c:814-819 | bit 7 of the characteristics marks uninitialised data |
| Authenticode.AcceptedIffPlaced | src/authenticode.c:172-197 | the table of an image whose sections tile the file is accepted if and only if every section is so placed |
| Authenticode.MisplacedRefused | src/authenticode.c:172-197 | one section that is not makes the image be refused, whatever else is in it |
| Authenticode.TooLargeRefused | src/authenticode.c:188-197 | a section larger than what headers and the sections before it leave of the file makes the image be refused |
| Authenticode.FirstSection | src/authenticode.c:210-228 | the first section that is not empty is hashed if it ends inside the file, refused if only its begin is inside, and read behind the file if it begins there |
| Authenticode.GenerateDigest | src/authenticode.c:123-269 | the updates are those of the digest function, for every image |
| Authenticode.SortFindsTiles | src/authenticode.c:172-216 | whatever the table order, sorting and skipping empty sections gives the tiling |
| Authenticode.LoadedFramed | src/sbchooser-pe.c:500-750 | in every image that passes the loader, checksum and directory entry lie inside the file, in order |
| Authenticode.Stream | src/authenticode.c:141-261 | the exact stream of a tiled image of any size, with the 32-bit start and length of what follows the sections |
| Authenticode.Coverage | src/authenticode.c:141-261 | every byte before the last bytes, which the directory's size field counts, once and ascending, except the checksum and the directory entry, and zeros only after trailing data: always below 4 GiB, and from there on if and only if what follows the sections is smaller than 4 GiB, starts where its 32-bit offset says, and gets no other padding |
| Authenticode.HugeFile | src/authenticode.c:250-261 | 580 header bytes and 4 GiB of data, none of which is hashed |
| Authenticode.SectionsHashed | src/authenticode.c:164-228 | an image load_pe accepts with two sections of 256 bytes, the later one first in the table: headers and both sections are hashed, in file order |
| Authenticode.TableLeftOutIff | src/authenticode.c:231-261 | the bytes left out at the end are the certificate table if and only if its address field says that it is last |
| Authenticode.SigningKeepsStream | src/authenticode.c:231-261 | signing leaves the stream unchanged if and only if it leaves the tail unchanged; for sections that end below 4 GiB and less than 4 GiB after them, if and only if data follows the last section or the file length is a multiple of eight; beyond, if and only if the part still hashed is followed by the zeros of the padding |
| Authenticode.UnalignedExample | src/authenticode.c:241-261 | a well-formed image of 580 bytes whose stream signing changes |
| Efivarfs.SameInode | src/efivarfs.c:567-582 | equal numbers from fstat mean one inode, because both are open |
| Efivarfs.NextKeeps | src/efivarfs.c:274-616 | every step of the call or the environment keeps the invariant |
| Efivarfs.WritesOnlyOurs | src/efivarfs.c:509-590 | in every interleaving, writes and flag changes go only to an inode opened for reading first or created exclusively; at most one write, of attributes and data |
| Efivarfs.EveryExitRestores | src/efivarfs.c:597-616 | every exit has issued a restore with the original flags on every inode made mutable, holds no descriptor, and reports success exactly if the write succeeded |
| EfivarfsOrder.CallsInOrder | src/efivarfs.c:274-600 | in every run each call has behind it what it needs: the open for writing creates exactly if the one for reading failed and comes after the flags were asked for, and cleared if protected; the write goes to the inode opened for reading, opened for writing too and of the same number, or to the one created; bits are only cleared that were set, and only restored after; a file is removed only if created and not written |
| EfivarfsOrder.ProtectedMadeMutable | src/efivarfs.c:275-293 | if GetFlags answered with the immutable bit, a request to clear it stands between that and the open for writing, and between that and the write |
| EfivarfsOrder.AskedOnce | src/efivarfs.c:524-565 | the flags are asked for once |
| EfivarfsOrder.FailsForReason | src/efivarfs.c:515-602 | an exit reports failure if and only if asking for a number, opening for writing or writing failed or two numbers differ; and a file was removed exactly if the call failed and had created one |
| EfivarfsOrder.AppendIsBitSix | src/efivarfs.c:542-543 | appending is decided by bit 6 of the attributes |
| EfivarfsOrder.Ends | src/efivarfs.c:469-616 | every run makes at most ten system calls and never gets stuck before its exit |
| Efivarfs.DeliversWhole | src/efivarfs.c:584-595 | at every exit a prefix of attributes and data has been taken, all of it if and only if the write returned their length; a shorter count is reported as success; a success has put what was taken into the inode, appended or in place of its contents |
| Efivarfs.StoredWholeIff | src/efivarfs.c:584-595 | the contents are as after a full write if and only if all was taken, or nothing was and they were so before |
| Efivarfs.ShortWriteSucceeds | src/efivarfs.c:587-595 | a run that reports success with nothing written |
| Efivarfs.OwnFileRemoved | src/efivarfs.c:600-602 | if nobody else touches the path meanwhile, it leads to the file the call created until that is removed |
| Efivarfs.RemovesAnother | src/efivarfs.c:600-602 | a run whose cleanup removes a file the call neither opened nor created |
| Chooser.CheckHash | src/sbchooser-pe.c:834-857 | true exactly if the digest is in the list |
| Chooser.MatchesAny | src/sbchooser-pe.c:116-178 | true exactly if some certificate of the database matches |
| Chooser.SigTrust | src/sbchooser-pe.c:315-339 | trusted exactly if anchored in db and not in dbx |
| Chooser.PeFile.constructor | src/sbchooser-pe.c:341-400 | loading takes in the times of every signature |
| Chooser.LoadSpans | src/sbchooser-pe.c:383-394 | loading leaves the earliest start of all signatures, and the latest end of those behind the last without one |
| Chooser.MissingEndForgets | src/sbchooser-pe.c:390-394 | a signature without an end makes loading forget the end before it |
| Chooser.PeFile.UpdateSecurity | src/sbchooser-pe.c:949-1011 | the flags of the digest lists, the strength of exactly the considered trusted signatures, which Chooser.ScoreIsLeast says on them, and their times taken into those the file already has |
| Chooser.AbsorbedIsLeast | src/sbchooser-pe.c:979-984 | the running minima are the least strengths |
| Chooser.ScoreIsLeast | src/sbchooser-pe.c:979-1010 | the score is at most every strength of every considered trusted signature and equals one of them, or is zero if one kind is known of none |
| Chooser.LaterIgnored | src/sbchooser-pe.c:996-998 | with only the first signature considered the others decide neither what is printed nor the strength |
| Chooser.TimesOfAll | src/sbchooser-pe.c:383-394 | the start of a scored file is the earliest of all its signatures, and its end what loading and then scoring come to; if no end is missing, the latest of all |
| Chooser.TimesOfTrustedIff | src/sbchooser-pe.c:986-994 | its times are those of the considered trusted signatures if and only if these reach to the earliest start and to the ends behind the last missing one, or lack an end themselves |
| Chooser.StoredScore | src/sbchooser-x509.c:177-231 | with the strengths certificates are given, no score exceeds 256 |
| Chooser.FilterExact | src/sbchooser.c:314-351 | exactly the files that are printed |
| Chooser.FilterMeetsRule | src/sbchooser.c:292-352 | the filter agrees with the four-step rule if and only if a hash decides, no signature is trusted, or the trusted ones are strong |
| Chooser.PositiveFollowsRule | src/sbchooser.c:292-352 | with positive strengths the filter is the rule |
| Chooser.PrintsGrows | src/sbchooser.c:292-352 | with positive strengths, enlarging db removes no file and enlarging dbx adds none |
| Chooser.ZeroStrengthRemoves | src/sbchooser-pe.c:1000-1010 | trusting a signature of strength zero removes a file, and revoking it adds the file back |
| ChooserOrder.PeCmpIsKeyOrder | src/sbchooser-pe.c:1080-1125 | pe_cmp is the lexicographic order on the seven keys if and only if a hash decides or the strengths do not wrap |
| ChooserOrder.CircularStrengths | src/sbchooser-pe.c:1108-1112 | three strengths that pe_cmp would order in a circle, two of them above the 256 that can be stored |
| ChooserOrder.PeCmpConsistent | src/sbchooser-pe.c:1013-1125 | pe_cmp is a total preorder on files with strengths below 2^31 |
| ChooserOrder.OrderOfArgumentsInvisible | src/sbchooser.c:280-352 | the printed sequence is the same for every permutation of the files and every correct sort |
| ChooserOrder.StoredBounded | src/sbchooser-x509.c:177-231 | such scores never wrap in a comparison |
| ChooserOrder.Choose | src/sbchooser.c:280-352 | loads, scores, sorts and prints the filtered names |
| ChooserOrder.ChosenOnce | src/sbchooser.c:280-352 | with stored strengths, permuting the arguments changes nothing that is printed |
| ChooserOrder.PreferredFirst | src/sbchooser.c:288-290 | of two files in the sorted sequence the one pe_cmp prefers is first |
| ChooserOrder.LongerHashFirst | src/sbchooser-pe.c:1080-1106 | a file whose SHA-512 digest is in db precedes those of which only a shorter one is, or none; and so on for SHA-384 and SHA-256 |
| ChooserOrder.StrongerSignatureFirst | src/sbchooser-pe.c:1108-1112 | without digests listed, a file precedes another if every strength of its trusted signatures exceeds one of the other's |
| ChooserOrder.TimesDecide | src/sbchooser-pe.c:1013-1125 | among equals the file that lasts longer is first, then the one that started earlier, a time before none, and then the names decide |
| ChooserOrder.UntrustedTimesCount | src/sbchooser-pe.c:383-394 | an untrusted signature that lasts longer moves a file before another |
| DevicePath.Size | src/include/efivar/efivar-dp.h:1047-1083 | the bytes up to and including the first end-of-path node, or its error |
| DevicePath.NextEnd | src/include/efivar/efivar-dp.h:1020-1045 | the first node of end type, whatever its subtype |
| DevicePath.SizeIsSum | src/include/efivar/efivar-dp.h:1047-1083 | efidp_size is the exact sum of node lengths over all instances, whatever follows the path |
| DevicePath.IsValid | src/include/efivar/efivar-dp.h:1111-1197 | the verdict of the walk, which goes on only from end nodes, or that no number of turns gives one |
| DevicePath.ZeroLengthEnd | src/include/efivar/efivar-dp.h:1111-1197 | an end node of length zero, on which the walk never ends |
| DevicePath.ValidLooksAtFirst | src/include/efivar/efivar-dp.h:1180-1182 | a path is judged by its first node, whatever follows |
| DevicePath.AcceptedTypes | src/include/efivar/efivar-dp.h:1124-1167 | accepted are exactly paths whose first node is of type 1 to 5 and has at most 1024 bytes, unless it is a vendor node or of type 5 |
| DevicePath.AcceptsNoPath | src/include/efivar/efivar-dp.h:1180-1182 | a lone node without an end, which is accepted |
| DevicePath.Duplicate | src/dp.c:86-94 | a copy of exactly the path |
| DevicePath.DuplicatesPath | src/dp.c:49-94 | the copy of a well-formed path is the path |
| DevicePath.FindEnd | src/dp.c:136-150 | the search stops where its turns do, and reports exactly when none of them stops |
| DevicePath.StuckForever | src/dp.c:136-150 | a search on an end node that is not the last is there after every later turn |
| DevicePath.StripEnd | src/dp.c:136-150 | the left operand without its end node, or a search that no number of turns ends |
| DevicePath.AppendPath | src/dp.c:96-176 | all cases of missing operands, errors and the concatenation |
| DevicePath.AppendsPath | src/dp.c:96-176 | the search for the end of the left path ends after some number of turns if and only if that path has one instance; the result is then the left nodes followed by the right path |
| DevicePath.AppendNode | src/dp.c:178-242 | all cases of missing operands, errors and the concatenation |
| DevicePath.AppendsNode | src/dp.c:178-242 | the search ends if and only if the left path has one instance; the result is then the left nodes, the node and one end node |
| DevicePath.MissingOperands | src/dp.c:96-242 | a missing path is an empty one, and a missing node adds nothing |
| DevicePath.TwoInstances | src/dp.c:136-150 | a path of two empty instances, to which nothing can be appended |
| DevicePath.AppendAssociative | src/dp.c:96-176 | append_path is associative |
| LoadOption.Create | src/loadopt.c:25-99 | every refusal, that of a missing buffer included, the size returned, and exactly the stores made |
| LoadOption.Refusals | src/loadopt.c:33-76 | the size asked for, and what is refused: too little room, missing data or a missing path |
| LoadOption.OnlyWholePath | src/loadopt.c:64-76 | a well-formed path is taken only with its own size |
| LoadOption.CreatesParts | src/loadopt.c:78-96 | the option has its parts if and only if the last character of the description starts below the room given to it |
| LoadOption.ShortDescriptionFits | src/loadopt.c:30-33 | descriptions below U+0800 always fit |
| LoadOption.WideDescriptionCut | src/loadopt.c:86-87 | five three-byte characters do not fit |
| LoadOption.PathIn | src/loadopt.c:192-220 | where the path list is, or that there is none |
| LoadOption.OptionalDataIn | src/loadopt.c:222-253 | where the optional data is and how long |
| LoadOption.WalkList | src/loadopt.c:137-144 | where the walk over the path list ends, steps back on errors included, or that no number of turns ends it |
| LoadOption.GoesRound | src/loadopt.c:137-144 | a walk that comes back to a place never arrives |
| LoadOption.RoundAndRound | src/loadopt.c:137-144 | an end node and four zeros, over which it goes round |
| LoadOption.SizeOfOptional | src/loadopt.c:101-149 | the size of the optional data, the error, a read outside the option, or an endless walk |
| LoadOption.Description | src/loadopt.c:354-364 | the description as UTF-8, or that the conversion reads past the option |
| LoadOption.AccessorsGiveParts | src/loadopt.c:101-364 | every accessor gives its part, and the parts tile the option |
| LoadOption.RoundTrip | src/loadopt.c:25-364 | creating and reading back gives attributes, path, data, size and description |
| LoadOption.UsualInputs | src/loadopt.c:25-99 | the round trip covers every path under 64 KiB that begins with a node of any of the types 1 to 5, of at most 1024 bytes |
| Gpt.ValidateNptes | src/gpt.c:311-344 | accepts exactly the tables that fit between start and last block, with every product below 2^64, and divides by zero exactly for an empty table that would fit |
| Gpt.CheckFields | src/gpt.c:381-465 | the tests on single fields, header CRC included, and exactly when the header size passes its test and exceeds what was read; what the CRC refuses is said by GptSeal.DamagedHeaderRefused and GptSeal.StraddleIff |
| Gpt.IsGptValid | src/gpt.c:367-508 | exactly when it hands out a copy, refuses, divides by zero or reads past the header |
| GptSeal.DamagedHeaderRefused | src/gpt.c:402-413 | a valid header changed within four bytes, its size kept, is refused wherever it is read, unless the change reaches over the end of the checksum |
| GptSeal.HeaderUnseenIff | src/gpt.c:402-413 | any change of a sealed header that keeps its size goes unnoticed if and only if the difference, CRC included, leaves an empty register empty |
| GptSeal.StraddleIff | src/gpt.c:402-413 | a change within four bytes over the end of the checksum leaves the copy valid if and only if its difference leaves an empty register empty |
| GptSeal.StraddleUnseen | src/gpt.c:402-413 | every valid header of 92 bytes has another one that differs from it in bytes 17 to 20 only and is valid in its place |
| GptSeal.DamagedTableRefused | src/gpt.c:498-508 | a table and stored checksum that differ from valid ones within four bytes are refused |
| GptSeal.StrangeHeaderRefused | src/gpt.c:381-465 | a header without its signature, away from both of its addresses, pointing behind the device, or with a size or a number or size of entries out of bounds is refused |
| Gpt.CopyInBounds | src/gpt.c:467-496 | the table of a valid copy lies inside its reserved region and the device |
| Gpt.TableOverlapsIff | src/gpt.c:467-496 | the table of a valid copy meets a usable block if and only if it is the alternate one and starts on the last of them |
| Gpt.TableOnUsableBlock | src/gpt.c:467-496 | a valid alternate copy whose table lies on the last usable block |
| Gpt.NoEntries | src/gpt.c:311-344 | a sealed header without entries, on which the code divides by zero |
| Gpt.LongHeader | src/gpt.c:391-405 | a header of 513 bytes in blocks of 4096, whose CRC is taken past what was read |
| Gpt.IsPmbrValid | src/gpt.c:50-65 | the magic and a partition of type 0xEE |
| Gpt.FindValidGpt | src/gpt.c:610-705 | exactly which of its four outcomes it has; both halves from one copy, the primary whenever it is valid, and nothing with a bad protective MBR unless told to ignore it |
| GptSeal.BackupInstead | src/gpt.c:646-705 | with a primary so damaged the result is that of the last block |
| Gpt.LookupInBounds | src/gpt.c:737-743 | the entry looked up lies inside the table, and is the right one if and only if it is the first or entries are 128 bytes |
| Gpt.WideEntries | src/gpt.c:737-743 | a valid table of 256-byte entries whose second partition is read from the middle of the first |

## Left out

- src/linux*.c, src/disk.c, src/creator.c: probing of the running kernel.
- src/dp-*.c and the text form of device paths: formatting only; the parsers are not implemented in the source.
- efidp_append_instance, efidp_make_generic and the other node makers: they would add easy members or promise nothing provable.
- src/sbchooser-x509.c, src/sbchooser-db.c and PKCS7 parsing: certificate matching and strengths are taken as given; of load_pe, the walk over the certificate table (parse_sigs) is not modelled.
- X.509 certificates in runs: what an addition and a deletion look at is stated for one list (SecDb.CertificatesApart, SecDb.DeletesAlike); the run-level results are for types whose table size is their data size.
- Signature lists with a header, and what the size correction of a malformed list leaves in the database: modelled step by step, no theorem.
- Allocation failure, NULL arguments other than those modelled, errno values, page rounding of output buffers, the `line` counter and debug output.
- SecDbHeap: parsing, visiting and realising are modelled on sequences only; they reach the rings through the operations modelled on both.
- Authenticode: the digests themselves; every digest context receives the same stream.
- Efivarfs: the environment cannot touch the call's own descriptors; name length checks, path construction and efi_update_var_file are not modelled.
- Gpt.IsGptValid: what a CRC over bytes behind the header buffer gives is unknown, so that read is an outcome and nothing is said after it; compare_gpts only prints.
- LoadOption.Create: optional data comes with its exact size.
- SecDbRuns.RunRefines: a switch to unsorted lists during a run is not among its operations; without sorting, equal types may have several lists.
