# umbrik in Dafny

A model of umbrik, a reader and writer of the CDOC2 encrypted container, and proofs about it. The project follows a
container all the way through: the framing and header codec, wrapping and unwrapping of the file master key (FMK), the
scan over recipient records with its PBKDF2 budget, the authenticated payload, the archive inside it, and extraction to
memory or to a directory. Beside that path stand the recipient labels, subject-name splitting, certificate selection
and the command line's habit of trying several keys.

`dafny verify dfyconfig.toml` checks everything.

## How the model is cut

- **Bytes** are integers below 256. XOR is defined bit by bit, so wrapping is concrete.
- **Cryptography** is a record of functions (`Keys.Crypto`). What a proof needs of it is a named hypothesis: decryption
  undoes encryption (section 2.8 of RFC 8439), agreement commutes, and `NoImpostor`, which says that no other master key
  *which the offered key unwraps from this header* authenticates it. HKDF, HMAC and PBKDF2 are functions, hence
  deterministic; their 32-byte outputs are in their types, so the length errors that cannot occur are not modelled.
- **FlatBuffers** is a typed wire tree with the numeric tags and widths of `schema/`; labels are UTF-8. The library
  is a pair of functions with two laws about trees the schema can hold (every union a table that matches its tag): a
  layout within the header cap reads back, and each stored vector costs at least its bytes and a four-byte length.
- **tar and zlib** are a writer, the run of reads that inflating answers, and a parser of entries from what came through
  the `LimitedReader`. An archive is the stream of answers that parser gives, failures included. Its laws are named:
  `LawfulArchiver` (what was written reads back if every read comes through), `Metered` (contents of entries are
  delivered bytes), `SizesReadable` (an entry is yielded only after its size field was read) and `FaultsPropagate`
  (contents that cannot be read cannot be skipped either). On Unix an entry path always converts, so that error is
  absent.
- **The file system** is the destination's children plus whatever symbolic links lead to. Opening and appending follow
  links, as the system does; that umbrik never does so is a theorem. Every refusal the system may make (the destination,
  opening, making a directory, unlinking, running out of space part-way) is a parameter, and each name is opened at
  most once per run, so indexing refusals by name loses nothing; over several attempts they are indexed by attempt too.
- **Randomness** is the values drawn per recipient, the FMK input and the nonce. A **key provider** may answer
  differently for every record, so its answers are indexed by record position.
- **Strings** that are percent-encoded or bound into keys are bytes; `from_utf8_lossy` is modelled in full. Archive and
  subject names are character sequences with Unix path rules.
- Error messages become reason values.

Loops and mutated objects of the original are Dafny loops and classes, each proved equal to a function over values; the
theorems are about those functions.

The members whose names end in `Explained` or `Refusals` give the whole answer of an operation a second time, from its
inputs alone and with the format's own numbers: which error, decided by what, in which order, and what success means.

## Where code and documentation part

- `pack` says it refuses names that would be rejected on the way out, but does not look for duplicates.
  `EndToEnd.EndToEndMemory`, `EndToEndDir` and `EndToEndList` give the exact condition: the files come back if and only
  if their canonical names differ, and otherwise every recipient gets the duplicate-name error from every reader, with
  the disk as it was. `EndToEnd.PackAcceptsDuplicates` is the smallest case.
- `LimitedReader` is documented to fail once too many bytes were produced. With a maximum of `u64::MAX` its saturating
  counter never does; `Inflate.DeliveryBoundedIffBelowSaturation` shows that this is the only exception.
- `max_entries` is described as a bound on tar entries. When unpacking, directories are not counted, so for every
  non-zero limit `Archive.DirectoriesAreNotCounted` has accepted archives of any length, and the bound holds if and only
  if the limit is zero (`Archive.EntriesBoundedIff`, `Extraction.ExtractedEntriesBoundedIff`). When listing, directories
  are counted; `Archive.ListOkIff` says how the two verdicts then differ.
- After a failed extraction "files created by this call are removed; a file that existed before is left alone".
  Directories stay, and so does a created file whose removal the system refuses: `Extraction.FailedUnpackRestores` says
  of each path when it is left, `Extraction.LeftoversExist` shows both kinds. An earlier file that was being overwritten
  has lost its contents (`Extraction.OverwrittenIsLost`); `Extraction.FailureKeepsContentsIff` shows that this needs
  overwriting to be on.
- A public-key recipient's label is said to be free to edit without breaking decryption. It enters no KEK and no verdict
  (`Opening.EcLabelIsFree`), but it lies in the authenticated header: edited in place, the container opens for nobody
  short of an HMAC collision (`EndToEnd.EditedLabelRefused`). It opens if and only if the stored HMAC is the one for the
  new bytes (`EndToEnd.EcLabelEditOpensIff`).
- A label key holding `=` or `&` does not survive formatting; `KeyLabel.LabelRoundTripIff` is an equivalence.

## Model

| member | source | states |
|---|---|---|
| Inflate.CeilingIsUnbounded | crates/umbrik-core/src/payload.rs:117-122 | the saturating ceiling equals the min/max formula over unbounded integers and never exceeds the byte cap |
| Inflate.CeilingIsMonotone | crates/umbrik-core/src/payload.rs:117-122 | raising the length, the ratio or the byte cap never lowers the ceiling |
| Inflate.LimitedReader.Read | crates/umbrik-core/src/payload.rs:88-101 | one read counts with saturation and refuses once the count passes the maximum |
| Inflate.LimitedReader.ReadAll | crates/umbrik-core/src/payload.rs:88-101 | draining any run of reads gives the declared answers, and the counter follows |
| Inflate.CounterIsCappedCount | crates/umbrik-core/src/payload.rs:91 | after any run of reads the counter is the true byte count, capped |
| Inflate.DeliveryBoundedIffBelowSaturation | crates/umbrik-core/src/payload.rs:88-101 | over every run the delivered bytes stay within the maximum if and only if the maximum is below `u64::MAX` |
| Inflate.InflationBounded | crates/umbrik-core/src/payload.rs:88-122 | no run of reads delivers more than the byte cap, nor more than the ratio allows above the floor, whenever the ceiling is below `u64::MAX` |
| Inflate.RefusalIsPermanent | crates/umbrik-core/src/payload.rs:88-101 | after a refusal for size no later read delivers anything |
| Inflate.InvisibleIffFits | crates/umbrik-core/src/payload.rs:88-101 | every read comes through unchanged if and only if the whole run fits the maximum (or the maximum is `u64::MAX`) |
| EnvelopeModel.Parse | crates/umbrik-core/src/header.rs:60-128 | whatever parses has header, HMAC and payload inside the length bounds |
| EnvelopeModel.ParseIffFramed | crates/umbrik-core/src/header.rs:60-128 | parsing answers with parts exactly when the input is the frame of those parts and they are in bounds |
| EnvelopeModel.ParseRefusals | crates/umbrik-core/src/header.rs:60-128 | which error an input gets, told from its length, magic, version and declared header length with the numbers of the format |
| EnvelopeModel.ProperPrefixIsTruncated | crates/umbrik-core/src/header.rs:63-121 | a proper prefix of an accepted container is reported truncated with `expected` above `found`, or keeps header and HMAC and shortens the payload |
| HeaderCodec.DecodeLoop | crates/umbrik-core/src/header.rs:264-291 | the decoding loop computes the decoding function, stopping at the first bad record |
| HeaderCodec.DecodeExplained | crates/umbrik-core/src/header.rs:264-361 | for any bytes: the error, or a header whose records stand for the wire records under the schema's own tag numbers; a union whose table does not match its tag refuses the header |
| HeaderCodec.EncodeLoop | crates/umbrik-core/src/header.rs:369-505 | the encoding loop computes the encoding function: records, then payload method, then size |
| HeaderCodec.EncodeExplained | crates/umbrik-core/src/header.rs:369-505 | the first unwritable record decides the error, each kind with its own; otherwise the tree laid out stands for the header |
| HeaderCodec.EncodeAcceptsExactly | crates/umbrik-core/src/header.rs:369-505 | encoding succeeds on exactly the non-empty headers with implemented capsules and known enum values within the size cap |
| HeaderCodec.DecodeInvertsEncode | crates/umbrik-core/src/header.rs:264-505 | whatever is encoded decodes to the same header, for any number of recipients, given only that the library reads back schema-conforming trees |
| HeaderCodec.EncodeInvertsDecode | crates/umbrik-core/src/header.rs:293-361 | a wire tree that decodes to a writable header is the tree encoding would build: decoding forgets nothing |
| Keys.WrapXor | crates/umbrik-core/src/keys.rs:126-138 | the wrapping loop XORs byte by byte and unwrapping undoes it |
| Keys.UnwrapXor | crates/umbrik-core/src/keys.rs:110-123 | the unwrapping loop XORs byte by byte and refuses any length but 32 |
| Keys.UnwrapIffWrapped | crates/umbrik-core/src/keys.rs:105-138 | unwrapping yields a master key exactly when wrapping that key gives the stored bytes |
| Keys.AadInjective | crates/umbrik-core/src/keys.rs:193-200 | the bound data determines header and HMAC although nothing is length-prefixed |
| Schemes.SymmetricInfoInjective | crates/umbrik-core/src/schemes/mod.rs:30-49 | two labels never share KEK derivation info |
| Schemes.AgreementInfoInjective | crates/umbrik-core/src/schemes/sc01.rs:31-58 | SC01 info binds the concatenated points, and each point in its place when lengths agree |
| Opening.EstablishByProvider | crates/umbrik-core/src/container.rs:352-390 | a provider is asked for its identities first and for an operation only on a match, once |
| Opening.TryKek | crates/umbrik-core/src/container.rs:290-350 | the budget is charged before the derivation; a record over budget is refused uncharged and does no work |
| Opening.ScanRecords | crates/umbrik-core/src/container.rs:410-455 | the stateful scan equals the declarative search, and remaining budget plus charges equals the allowance |
| Opening.OpenHeader | crates/umbrik-core/src/container.rs:397-456 | opening equals decoding, the recipient limit and the search; work done plus budget left never exceeds the allowance |
| Opening.FirstStop | crates/umbrik-core/src/container.rs:414-447 | the position is the least record that fails or opens, or the end |
| Opening.SearchOkIff | crates/umbrik-core/src/container.rs:414-447 | the search succeeds at a position exactly when it opens and no earlier record opens or fails |
| Opening.SearchFails | crates/umbrik-core/src/container.rs:433-438 | the first record that fails, with none opening or failing before it, gives exactly its own error |
| Opening.SearchErrors | crates/umbrik-core/src/container.rs:449-455 | with nothing to stop at: HMAC mismatch iff some candidate existed, else the first unsupported scheme, else no match |
| Opening.VerdictExplained | crates/umbrik-core/src/container.rs:290-447 | the verdict on any record for any key, from record and key alone: each foreign scheme, each guard that refuses with its error, a provider's own failure, or opening iff the master key unwrapped under the format's KEK authenticates the header |
| Opening.StopDecides | crates/umbrik-core/src/container.rs:414-447 | `open_header` answers with the first objection unaltered, or reports the very record that opened: position, label, scheme, master key and bound data |
| Opening.NothingOpens | crates/umbrik-core/src/container.rs:397-455 | a header that does not decode, too many recipients, or no stop at all: which of the remaining errors is answered, foreign schemes by the first of them |
| Opening.FoundIffHolder | crates/umbrik-core/src/container.rs:358-372 | the identity used is the first in the provider's order with the record's curve and point |
| Opening.WorkWithinCharges | crates/umbrik-core/src/container.rs:327-346 | PBKDF2 iterations performed never exceed those charged, after any number of records |
| Opening.WorkOfRecord | crates/umbrik-core/src/container.rs:333-346 | one record performs no more than it is charged, and nothing when it is over budget |
| Opening.OperationsJustified | crates/umbrik-core/src/container.rs:358-390 | over every run each private-key operation uses a listed identity matching the record, against its sender key, at most once per record |
| Opening.NoMatchNoOperation | crates/umbrik-core/src/container.rs:352-365 | a container for nobody the provider knows causes no private-key operation |
| Opening.EventsExplained | crates/umbrik-core/src/container.rs:290-390 | the work done for a record, from record and key: one listing, one operation for the first holder, one stretching for a password without objection, or none |
| Opening.EcLabelIsFree | crates/umbrik-core/src/container.rs:49-53 | under any header bytes and HMAC and for any key, editing the label of an EC record changes no verdict and not the answer of the scan |
| Opening.EditedLabelLosesFmk | crates/umbrik-core/src/schemes/mod.rs:30-49 | editing the label of a password or shared-key record makes the right key unwrap a different master key |
| Opening.EditedLabelLocksOut | crates/umbrik-core/src/header.rs:244-247 | editing the label of a password or shared-key record makes opening fail even under a recomputed HMAC, as a header HMAC mismatch for a sole recipient, unless something collides or another record lets the key in |
| EntryNames.SafeRelativePath | crates/umbrik-core/src/payload.rs:135-179 | the component loop computes the canonical-name verdict |
| EntryNames.CanonicalNameIff | crates/umbrik-core/src/payload.rs:123-179 | a name is accepted as `n` exactly when it is not absolute (unless allowed), never goes up and names the one unhidden component `n` |
| EntryNames.CanonicalNameRefusals | crates/umbrik-core/src/payload.rs:135-179 | which refusal a name gets, segment by segment, in the order of the checks |
| EntryNames.SafeNameIsCanonical | crates/umbrik-core/src/payload.rs:135-179 | accepted names are exactly the fixed points of canonicalisation |
| EntryNames.CanonicalNameMonotone | crates/umbrik-core/src/payload.rs:141-163 | limits that allow more never change an accepted name |
| Archive.UnpackToMemory | crates/umbrik-core/src/payload.rs:379-418 | the in-memory loop computes the state machine over the archive stream |
| Archive.ListEntries | crates/umbrik-core/src/payload.rs:261-290 | the listing loop computes its state machine over the archive stream |
| Archive.MemoryIsExact | crates/umbrik-core/src/payload.rs:379-418 | success returns exactly the file entries, in order, with their data, under distinct safe names, at most `max_entries` of them |
| Archive.MemoryWithinStream | crates/umbrik-core/src/payload.rs:408-414 | what is held in memory after any part of a stream, failing or not, was delivered by that part |
| Archive.ListAgreesWithMemory | crates/umbrik-core/src/payload.rs:261-290 | without directory entries listing and unpacking give the same verdict, the same error and the same names |
| Archive.ListIsExact | crates/umbrik-core/src/payload.rs:261-290 | a successful listing names every entry in order with its claimed size |
| Archive.ListOkIff | crates/umbrik-core/src/payload.rs:284-287 | listing succeeds if and only if unpacking to memory does and all entries, directories included, fit the limit |
| Archive.MemoryExplained | crates/umbrik-core/src/payload.rs:379-418 | unpacking to memory succeeds iff no entry has anything against it, told from the stream alone; otherwise the first complaint is the error: count, link, kind, name, repetition, fault |
| Archive.ListExplained | crates/umbrik-core/src/payload.rs:261-290 | the same for listing, which counts directories and looks at sizes |
| Archive.OnlySafeKinds | crates/umbrik-core/src/payload.rs:223-235 | no link passes either reader unless links are allowed, and nothing but files, directories and links ever does |
| Archive.DirectoriesAreNotCounted | crates/umbrik-core/src/payload.rs:394-408 | for every non-zero limit there are accepted archives of any number of directory entries |
| Archive.EntriesBoundedIff | crates/umbrik-core/src/limits.rs:13-14 | unpacking to memory bounds the number of tar entries by `max_entries` if and only if that is zero |
| Extraction.FileSystem.OpenOutput | crates/umbrik-core/src/payload.rs:197-221 | no symbolic link is opened, an existing path only when overwriting is allowed, and newness is reported |
| Extraction.FileSystem.UnpackInner | crates/umbrik-core/src/payload.rs:320-372 | the extraction loop computes the state machine over the stream, reporting what it created even on failure |
| Extraction.FileSystem.UnpackToDir | crates/umbrik-core/src/payload.rs:305-318 | extraction with rollback in reverse order computes the specified outcome |
| Extraction.EveryRunContained | crates/umbrik-core/src/payload.rs:320-372 | every reachable state keeps what was there, changes nothing outside, and accounts for everything new |
| Extraction.RollbackRemoves | crates/umbrik-core/src/payload.rs:312-314 | rollback removes exactly the created files the system agrees to unlink and touches nothing else |
| Extraction.FailedUnpackRestores | crates/umbrik-core/src/payload.rs:302-318 | after a failure every earlier path is present and unchanged (files may be rewritten only if overwriting is allowed), and a path is new exactly when it is a directory named before the failure or a created file the system refuses to unlink |
| Extraction.LeftoversExist | crates/umbrik-core/src/payload.rs:303-314 | one entry followed by a fault leaves a directory, and leaves a file that cannot be unlinked with its contents |
| Extraction.LeftFilesHoldParts | crates/umbrik-core/src/payload.rs:305-318 | a file left behind by a failure holds what an entry of that name delivered, cut off exactly where room ended |
| Extraction.AllOrNothing | crates/umbrik-core/src/payload.rs:302-318 | without directory entries, names free and unlinking possible, a failed extraction leaves the disk identical under any limits |
| Extraction.OverwrittenIsLost | crates/umbrik-core/src/payload.rs:197-218 | a file being overwritten when the archive fails has lost its contents |
| Extraction.FailureKeepsContentsIff | crates/umbrik-core/src/payload.rs:302-304 | all failed runs leave earlier contents alone if and only if overwriting is off or no entry is accepted |
| Extraction.SymlinksNeverFollowed | crates/umbrik-core/src/payload.rs:197-204 | under any limits, on success and failure, no symbolic link is replaced or written through |
| Extraction.EarlierContentsUntouched | crates/umbrik-core/src/payload.rs:202-207 | with overwriting off all earlier contents are identical, on success and failure |
| Extraction.UnpackIsExact | crates/umbrik-core/src/payload.rs:320-372 | success leaves the old disk plus precisely the returned files with their data and the named directories |
| Extraction.ExtractionExplained | crates/umbrik-core/src/payload.rs:305-372 | extraction succeeds iff nothing in the stream, the destination as it was, or the system stands against any entry; otherwise the first complaint is the error |
| Extraction.ExtractsOnlySafeKinds | crates/umbrik-core/src/payload.rs:223-235 | no link is extracted unless links are allowed |
| Extraction.ExtractionWithinStream | crates/umbrik-core/src/payload.rs:350-370 | a successful extraction writes no more than the stream delivered |
| Extraction.DirAgreesWithMemory | crates/umbrik-core/src/payload.rs:374-418 | into a directory free of the names, both unpackers give the same verdict, error, names and data on every archive |
| Extraction.ExtractedEntriesBoundedIff | crates/umbrik-core/src/limits.rs:13-14 | extraction bounds the number of tar entries by `max_entries` if and only if that is zero |
| Container.NoBadNameIff | crates/umbrik-core/src/payload.rs:48-53 | the name check passes exactly when every name is acceptable under the default limits |
| Container.PackFiles | crates/umbrik-core/src/payload.rs:43-76 | packing refuses an empty list and the first bad name before anything is written |
| Container.Encrypt | crates/umbrik-core/src/container.rs:222-288 | nothing is written before every part exists; then the whole container, or a strict prefix if the output is full |
| Container.OpenArchive | crates/umbrik-core/src/payload.rs:326-338 | every reader sees the archive through a limited reader with the ceiling for the payload's length |
| Container.DecryptToMemory | crates/umbrik-core/src/container.rs:547-556 | parse, open, decrypt and unpack, each only after the one before succeeded |
| Container.ListContainer | crates/umbrik-core/src/container.rs:559-564 | listing runs on the decrypted payload of a verified header only |
| Container.DecryptToDir | crates/umbrik-core/src/container.rs:530-541 | a failure to parse, authenticate or decrypt leaves the disk as it was; otherwise the outcome is that of extraction |
| Container.UnpackedDataBounded | crates/umbrik-core/src/limits.rs:11-16 | whatever a container holds, the total data returned by either unpacker stays within the byte cap and, above the floor, within the ratio |
| Container.DefaultsAreSafe | crates/umbrik-core/src/limits.rs:48-55 | under the default limits whatever unpacks has at most 1000 files and 16 GiB, at most 100 times the payload above the floor, no links, and leaves earlier files alone |
| EndToEnd.VerifiedBeforeUse | crates/umbrik-core/src/container.rs:462-541 | any success implies that the matched record unwraps to a master key authenticating the exact header bytes and that the payload opened under its CEK bound to them |
| EndToEnd.DecryptRefuses | crates/umbrik-core/src/container.rs:462-564 | which error stops an opening at each stage; all three entry points answer with it and the disk is untouched |
| EndToEnd.ParsedPayloadSlices | crates/umbrik-core/src/container.rs:476-484 | after a successful parse the nonce and ciphertext slices cannot be truncated |
| EndToEnd.BuiltRecordShape | crates/umbrik-core/src/container.rs:107-157 | every record built is writable, of an implemented scheme, and asks for the default iterations or none |
| EndToEnd.KekFormula | crates/umbrik-core/src/container.rs:107-216 | the sender's KEK is the format's formula evaluated from the stored capsule and what the recipient holds |
| EndToEnd.EncryptWrites | crates/umbrik-core/src/container.rs:87-288 | what `encrypt` writes, from inputs and randomness: FMK extracted from the drawn material, a record per recipient with the drawn salts and point in place and the FMK under the format's KEK, HMAC and payload by their formulas |
| EndToEnd.EncryptRefuses | crates/umbrik-core/src/container.rs:107-286 | which error `encrypt` answers with, in the order in which things can go wrong |
| EndToEnd.BuiltDemand | crates/umbrik-core/src/container.rs:121-142 | opening with a password asks for 600 000 iterations once per password recipient |
| EndToEnd.DefaultBudgetSuffices | crates/umbrik-core/src/limits.rs:52-54 | no container for at most 64 recipients trips the default budget, whatever key is tried |
| EndToEnd.EncryptedContainerParses | crates/umbrik-core/src/container.rs:274-286 | everything `encrypt` emits lies inside the parser's bounds and parses back to its parts |
| EndToEnd.BuiltHeaderOpens | crates/umbrik-core/src/container.rs:397-456 | with a recipient's key the scan opens at or before that recipient's record, with the real master key |
| EndToEnd.StrangerRefused | crates/umbrik-core/src/container.rs:449-455 | sound key material belonging to nobody gets an HMAC mismatch if some record is of its kind, else no matching recipient |
| EndToEnd.ChangedHeaderRefused | crates/umbrik-core/src/container.rs:432-455 | with the stored HMAC kept, a container with any other header bytes opens for no key short of an HMAC collision |
| EndToEnd.EditedLabelRefused | crates/umbrik-core/src/container.rs:49-53 | the same for one edited label of any recipient, public-key ones included |
| EndToEnd.EcLabelEditOpensIff | crates/umbrik-core/src/container.rs:49-53 | after editing a public-key label every recipient opens the header if and only if the stored HMAC is the master key's for the new bytes |
| EndToEnd.EndToEndMemory | crates/umbrik-core/src/container.rs:222-288 | whatever `encrypt` accepts, any one recipient's key returns exactly those files in order iff canonical names differ, else the duplicate-name error |
| EndToEnd.EndToEndDir | crates/umbrik-core/src/container.rs:530-541 | into a directory free of the names exactly the files appear, with their data and sizes, and nothing else changes; with coinciding names the duplicate-name error and the disk as it was |
| EndToEnd.EndToEndList | crates/umbrik-core/src/container.rs:559-564 | any one recipient's key lists exactly the canonical names and sizes in order iff canonical names differ, else the duplicate-name error |
| EndToEnd.PackAcceptsDuplicates | crates/umbrik-core/src/payload.rs:48-53 | two spellings of one name pass the checks made when packing |
| KeyLabel.FormUrlEncode | crates/umbrik-core/src/keylabel.rs:268-280 | the encoding loop computes the byte-wise encoding |
| KeyLabel.EncodeByteMeans | crates/umbrik-core/src/keylabel.rs:268-280 | letters, digits and `.-*_` stand for themselves, space becomes `+`, the rest upper-case escapes |
| KeyLabel.FormUrlDecode | crates/umbrik-core/src/keylabel.rs:284-317 | the decoding loop computes the decoding, invalid escapes passed through |
| KeyLabel.HexPairMeans | crates/umbrik-core/src/keylabel.rs:293-306 | an escape is two hexadecimal digits of either case, or a plus sign and one digit |
| KeyLabel.NoEscapePassesThrough | crates/umbrik-core/src/keylabel.rs:300-312 | everything that is no escape passes through unchanged |
| KeyLabel.DecodeInvertsEncode | crates/umbrik-core/src/keylabel.rs:263-317 | decoding inverts encoding on arbitrary bytes |
| Utf8.ValidIff | crates/umbrik-core/src/keylabel.rs:315-316 | well-formed bytes are exactly the encodings of code points (section 3 of RFC 3629) |
| Utf8.LossyReplaces | crates/umbrik-core/src/keylabel.rs:315-316 | lossy decoding replaces each maximal ill-formed piece by one replacement character |
| Utf8.LossyIsValid | crates/umbrik-core/src/keylabel.rs:315-316 | lossy decoding always yields well-formed text |
| KeyLabel.LookupAfterInsert | crates/umbrik-core/src/keylabel.rs:49-74 | insertion into the ordered parameters is map update |
| KeyLabel.InsertKeepsSorted | crates/umbrik-core/src/keylabel.rs:49-56 | insertion keeps the keys strictly sorted |
| KeyLabel.SortedIsDetermined | crates/umbrik-core/src/keylabel.rs:49-56 | sorted parameters are determined by their lookups |
| KeyLabel.ParseLabel | crates/umbrik-core/src/keylabel.rs:220-231 | the parsing loop computes the parse, failing on a pair without an equals sign |
| KeyLabel.ParseNoneIff | crates/umbrik-core/src/keylabel.rs:220-231 | a label does not parse exactly when the prefix is missing or a non-empty pair has no equals sign |
| KeyLabel.ParsedValue | crates/umbrik-core/src/keylabel.rs:220-231 | the last pair that gives a key decides its value |
| KeyLabel.ParsedIsPlain | crates/umbrik-core/src/keylabel.rs:220-231 | whatever parses has strictly sorted keys free of separators |
| KeyLabel.LabelRoundTripIff | crates/umbrik-core/src/keylabel.rs:85-93 | a sorted map with UTF-8 values survives formatting and parsing exactly when no key holds a separator |
| KeyLabel.FormatInjective | crates/umbrik-core/src/keylabel.rs:85-93 | different parameter maps never share a label |
| LabelDialects.DigidocDisplays | crates/umbrik-core/src/keylabel.rs:154-187 | a libcdoc-style label is shown as name and type, for every name |
| LabelDialects.EidDisplaysIff | crates/umbrik-core/src/keylabel.rs:193-201 | a reference-style label is shown as name and type exactly when the name is not empty |
| LabelDialects.DisplayExplained | crates/umbrik-core/src/keylabel.rs:236-261 | what is shown for every label: verbatim when it does not parse or names nothing, else the first of CN, LABEL, FILE, SERIAL_NUMBER (upper case before lower) with the type |
| LabelDialects.PlainLabelShown | crates/umbrik-core/src/keylabel.rs:236-239 | a label without the prefix is shown verbatim |
| LabelDialects.ShorthandsDisplay | crates/umbrik-core/src/keylabel.rs:102-134 | what labels of password, secret, certificate and public-key recipients show |
| LabelDialects.NamedWritten | crates/umbrik-core/src/keylabel.rs:102-110 | a password or secret label holds LABEL, TYPE and V in that order, an empty name left away |
| LabelDialects.FileWritten | crates/umbrik-core/src/keylabel.rs:116-134 | a certificate or public-key label holds CERT_SHA1, CN, FILE, TYPE and V in that order, absent or empty fields left away |
| LabelDialects.SplitCommonNameIff | crates/umbrik-core/src/keylabel.rs:207-215 | a common name splits into last and first name exactly when it starts with two non-empty comma-separated parts |
| LabelDialects.EidNames | crates/umbrik-core/src/keylabel.rs:193-201 | first and last name are stored under their own keys |
| LabelDialects.EidWritten | crates/umbrik-core/src/keylabel.rs:193-201 | the reference label holds CN, FIRST_NAME, LAST_NAME, SERIAL_NUMBER, TYPE and V in that order, absent or empty fields left away |
| LabelDialects.DigidocText | crates/umbrik-core/src/keylabel.rs:154-187 | the libcdoc label written out, field by field in its fixed order |
| DistinguishedName.ExtractRdn | crates/umbrik-core/src/cert.rs:200-224 | the character loop and the field search compute the extraction |
| DistinguishedName.FieldsInvertEscape | crates/umbrik-core/src/cert.rs:200-219 | splitting inverts any escaping of any non-empty list of fields, whatever they contain |
| DistinguishedName.ExtractFindsFirst | crates/umbrik-core/src/cert.rs:196-224 | extraction returns the value of the first field of that name, whatever whitespace stands before fields, losing only trailing whitespace |
| DistinguishedName.ExtractMeans | crates/umbrik-core/src/cert.rs:221-224 | for any subject: exactly the value of the first field that is, trimmed, the name, an equals sign and a value |
| DistinguishedName.TrimMeans | crates/umbrik-core/src/cert.rs:221-223 | trimming removes the whitespace at both ends and nothing else |
| DirectoryLookup.SelectCertificates | crates/umbrik-ldap/src/lib.rs:229-268 | the nested loops give each entry or certificate its declared fate |
| DirectoryLookup.MatchesAreFirst | crates/umbrik-ldap/src/lib.rs:231-251 | told from the entry list: each match is the earliest usable certificate with its key, with that entry's name and card type, in the order of those places |
| DirectoryLookup.RejectionsAreComplete | crates/umbrik-ldap/src/lib.rs:231-267 | the rejections are all unusable entries and refused certificates, in order, each with its entry's name and reason |
| DirectoryLookup.MatchedKeys | crates/umbrik-ldap/src/lib.rs:238-246 | looking through the matches finds exactly the keys offered so far |
| DirectoryLookup.SelectionConserves | crates/umbrik-ldap/src/lib.rs:229-268 | every unusable entry and every certificate is one match, one rejection or one duplicate |
| DirectoryLookup.NothingIsLost | crates/umbrik-ldap/src/lib.rs:229-268 | matches, rejections and duplicates add up to the unusable entries plus the certificates of usable ones |
| DirectoryLookup.MatchesDistinct | crates/umbrik-ldap/src/lib.rs:238-251 | matches have pairwise distinct keys |
| DirectoryLookup.SelectedKeysAreAvailable | crates/umbrik-ldap/src/lib.rs:229-268 | a key is selected exactly when some usable certificate of some usable entry carries it |
| DirectoryLookup.SelectionIgnoresOrder | crates/umbrik-ldap/src/lib.rs:229-268 | the selected keys do not depend on the order of the entries |
| Candidates.BothReadingsTried | crates/umbrik-cli/src/main.rs:251-264 | however a password argument was meant, the password is among the candidates |
| Candidates.CandidatesInOrder | crates/umbrik-cli/src/main.rs:251-264 | what follows the first colon is tried before the whole argument, when both sides hold something; otherwise the whole alone |
| Candidates.TryKeys | crates/umbrik-cli/src/main.rs:428-447 | the first key that succeeds decides; otherwise the first error is reported and every key was tried |
| Candidates.FailedKeysRestore | crates/umbrik-cli/src/main.rs:865-868 | however many keys fail, and whatever the system refuses at each attempt, earlier paths survive and no file is left that could be unlinked |
| Candidates.AttemptsPreserve | crates/umbrik-cli/src/main.rs:865-868 | with overwriting off no sequence of attempts changes anything that was there before |
| Candidates.StrangersFail | crates/umbrik-cli/src/main.rs:428-447 | keys of strangers all fail and never reach the disk |
| Candidates.RecipientAmongStrangers | crates/umbrik-cli/src/main.rs:865-868 | a recipient's key behind any number of strangers' is the one that answers, with exactly the sent files on disk |

## Left out

- The insides of HKDF, HMAC, PBKDF2, ChaCha20-Poly1305, ECDH, zlib, tar and the FlatBuffers byte layout: library code, represented by named laws.
- X.509 and DER parsing, key usage, validity dates, DN classification and card types: library calls or single-branch checks, abstract in the selection model.
- Software key parsing, PKCS#11 sessions, PIN prompts, LDAP queries and the capsule-server transport: foreign calls and network.
- Zeroisation, constant-time comparison and redacted debug output: not functional behaviour.
- Recovering the limit error from the wrapped I/O error by its message: the fault of a stream already says which it is.
- Command-line parsing, terminal output, Python bindings, and the order in which the command line assembles its keys.
- `extract_id_code` and the `Limits` builders: one-line compositions of modelled parts.
- Windows path prefixes, case-insensitive file systems and changes by other processes between check and open: the model has Unix paths and a sequential file system.
- Creation of missing parents of the destination: the destination either can be used or cannot.
