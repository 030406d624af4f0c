# Verified model of odf-crypto

odf-crypto reads and writes encrypted OpenDocument packages the way LibreOffice does. This
project models its streaming ciphers and codecs, its two-pass release and re-keying, its
non-seeking zip writer, its folder tree with LibreOffice's stale cache, its manifest importer,
printer and stripper, and its classifier, and proves what they keep over every run.

Run `dafny verify dfyconfig.toml` to check the whole project.

## How it is laid out

| part | files |
|---|---|
| bytes, readers, paths | `Bytes`, `Streams`, `Paths` |
| AES-GCM streams, the standard's definition, the two-pass release | `Gcm`, `GcmStandard`, `GcmMember`, `VerifyRelease` |
| CBC behind the checksum gate, the standard's definition | `Cbc`, `Gate`, `CbcStandard` |
| inflating through a ring | `Inflate` |
| adaptive deflating | `DeflateFormat`, `Deflate`, `DeflateWriter`, `DeflateTotal` |
| deflating in writes, a concrete codec | `PlainDeflate`, `CodecWitness` |
| encrypting end to end, re-keying | `Payload`, `EndToEnd`, `Rekey` |
| zip records, archives, writer, reader | `Records`, `ZipFormat`, `ZipArchive`, `ZipReader`, `ZipWriter` |
| folder tree and cache | `ZipTree`, `FolderTree`, `Resolve`, `TreeState` |
| manifest numbers, base64, XML, import | `LoInt`, `Base64`, `Xml`, `ManifestNames`, `Manifest`, `ManifestImport`, `ManifestRows`, `Importer` |
| manifest printing, importing whole packages, stripping | `ManifestWrite`, `PgpImport`, `RowsImport`, `ManifestStrip`, `StripRows`, `StripKeeps`, `StripExamples` |
| rows, classification, screens | `Acceptance`, `Members`, `Classify`, `Screens`, `Readings` |
| per-entry rebuild | `Plans`, `MemberKeys`, `Entries`, `Budget` |
| what re-keying seals | `Reseal`, `ShadowedMember`, `RekeyEntries` |

Objects whose methods update fields are classes, and each method is tied to a function on
values about which the laws are proved. A reader is any object of class `Streams.Source`: it
yields its target's bytes in pieces of any size and may fail at any moment. An archive may show
different bytes each time a member is opened, and `VerifyRelease.Archive` logs what it showed.
The formats and modes come from their own standards: `GcmStandard`, `CbcStandard` and `ZipReader`
are written from those, with their own constants, and the model is proved to agree.
Ciphers, GHASH steps, digests and CRC are arbitrary functions. The compressor and decompressor
are arbitrary step functions under a stated contract (`Deflate.Compressor.Lawful`,
`Inflate.Decoder.Lawful`); `DeflateTotal.LiteralGoes` and `CodecWitness.WitnessAgrees` show
that the contracts can be met. An XML document is a tree, and its events are exactly the
well-nested lists.

What the code relies on appears as preconditions: ciphertexts below 2^61 bytes, zip names of at
most 65,535 bytes, and deflate output within `deflate_bound`. Reader laws hold up to the first
failure.

Four promises fail on some inputs. For each there is a concrete failing input and, over all
inputs, the condition under which it holds:

- A cached lookup should answer as the plain walk does. It differs exactly when `Resolve.Drifts`
  holds (`Resolve.DriftExactly`); `Resolve.PoisonedLookup` and `Resolve.EmptySegmentDrifts`.
- Stripping a manifest should keep its rows. It does exactly when `StripKeeps.RootsKept` holds
  (`StripKeeps.StrippingKeepsRowsExactly`); `StripExamples.DroppedRootLosesRow` and
  `StripExamples.SizePrefixLosesRow`.
- Re-keying should seal no content in plain. A member is decrypted exactly when `Reseal.Claimed`
  holds (`Reseal.ResealsExactly`); `ShadowedMember.ShadowedIsCarried`.
- Declared sizes that pass the screen should not sum above the limit. The sum saturates, so
  the screen is right exactly below 2^64 - 1 or when the true sum is within it
  (`Budget.ScreenExactly`); `Budget.SaturationHidesExcess`.

## Model

| member | source | states |
|---|---|---|
| `Gcm.FoldAppend` | src/stream.rs:198-226 | Hashing `a` and then `b` in place of `a ++ b` gives the same running hash when `a` is whole blocks: the split law behind the carried partial block. |
| `Gcm.GhashStream.Update` | src/stream.rs:206-226 | For any split of the data into calls, the carried partial block and running hash represent the concatenation of everything given so far. |
| `Gcm.GhashStream.Finalize` | src/stream.rs:228-238 | The digest is the one-shot GHASH of everything absorbed: zero-padded blocks, then the length block (section 6.4 and 7.1 of NIST SP 800-38D). |
| `Gcm.CryptAppend` | src/stream.rs:177-193 | Counter mode is split-independent: encrypting `a` and then `b` from where `a` stopped equals encrypting `a ++ b`. |
| `GcmStandard.CryptIsStandard` | src/stream.rs:307-329 | Over any block cipher, what is encrypted is the ciphertext of section 7.1 of NIST SP 800-38D: GCTR from the counter block behind J0. |
| `GcmStandard.TagIsStandard` | src/stream.rs:228-238 | And the tag is the standard's: GHASH of the filled ciphertext and both bit lengths, under the block at J0. |
| `GcmStandard.DataSkipsMask` | src/stream.rs:307-329 | Primitives that differ only in the first 16 stream bytes encrypt alike: data never meets the mask. |
| `GcmStandard.TagUsesMask` | src/stream.rs:331-342 | The tag of a given ciphertext depends on the hash and those first 16 stream bytes only. |
| `GcmStandard.ZerosShowStream` | src/stream.rs:307-329 | A zero at message position `i` encrypts to stream byte 16 + `i`. |
| `Gcm.CryptInvolution` | src/stream.rs:320-329 | Encrypting and decrypting are the same operation and undo each other, for every key, IV, position and length. |
| `Gcm.GcmStream.Absorb` | src/stream.rs:315-318 | Absorbing adds exactly the ciphertext given to what is authenticated and moves no keystream. |
| `Gcm.GcmStream.Decrypt` | src/stream.rs:320-324 | Decrypting authenticates the ciphertext and returns its counter-mode image at the current position. |
| `Gcm.GcmStream.Encrypt` | src/stream.rs:326-329 | Encrypting returns the counter-mode image and authenticates that image, not the plaintext. |
| `Gcm.GcmStream.ComputeTag` | src/stream.rs:331-342 | However the data was split and whichever of absorb, decrypt and encrypt took it in, the tag is the one-shot tag of the whole ciphertext. |
| `Gcm.ConstantTimeEquals` | src/stream.rs:163-173 | Accumulating differences without stopping early answers true exactly when both sides are equal. |
| `Streams.ReadFull` | src/stream.rs:150-161 | Over any reader, however short its reads: the result is the next bytes in order, short only at a clean end. |
| `GcmMember.GcmVerify` | src/stream.rs:345-372 | Answers true exactly when the tag behind the next `ctLen` bytes is the tag of those bytes under the key; any other outcome is one of the reader's faults or a truncated member. |
| `GcmMember.GcmDecryptReader.Read` | src/stream.rs:394-424 | Up to its first failure the reader serves, for any sequence of read sizes, the decryption in order, and reports a clean end only after the tag matched. |
| `VerifyRelease.EnsureEnd` | src/decrypt_stream.rs:497-504 | Passes only if the member ended exactly there, cleanly; refuses only for a fault of the source or because bytes were left. |
| `VerifyRelease.GcmKey` | src/decrypt_stream.rs:372-395 | The key found is the first candidate for which its own opening of the member was whole and carried the right tag, every earlier one refuted by its own opening. No key means that all were refuted so, or that a key could not be derived, or that one opening failed by itself. |
| `VerifyRelease.OnlyWrongGiveUp` | src/decrypt_stream.rs:372-395 | With an archive that answers and keys that derive, no key is found only after every candidate was tried and was wrong: a right password is never refused. |
| `VerifyRelease.Try` | src/decrypt_stream.rs:461-475 | One candidate, one opening: the verdict is the tag comparison over everything it showed, and it stops only for what that opening showed. |
| `VerifyRelease.ReleaseMember` | src/decrypt_stream.rs:429-459 | Verify before release for an archive that may answer differently every time it is opened: the consumer runs only after one opening was authentic, what it gets decrypts the next opening under the same key, and success means that opening was authentic too. It is not called only if the ladder gave up or the next opening failed. |
| `VerifyRelease.Release` | src/decrypt_stream.rs:445-458 | The release pass alone: consumer, drain and end check; success means the bytes it read carry their own tag. |
| `Cbc.DecryptBlocks` | src/stream.rs:481-503 | A call over whole blocks advances the chained decryption by exactly those blocks. |
| `Cbc.Settle` | src/stream.rs:544-597 | The end of a refill: either the newest block is held back, or the source ended, the last byte is a pad of 1 to 16 and exactly the pad is cut; otherwise the fault named for that case. |
| `Cbc.CbcDecryptReader.Refill` | src/stream.rs:544-597 | Keeps released bytes, ready bytes and the held-back block equal to the decryption of all blocks read, and terminates. |
| `Cbc.CbcDecryptReader.Read` | src/stream.rs:599-613 | For any short reads below and any read sizes above, serves exactly the whole-buffer decryption without its padding, or fails for a stated cause. |
| `CbcStandard.GateOpensExactly` | src/stream.rs:473-708 | The gated reader yields a plaintext cleanly if and only if the member is its CBC encryption (section 6.2 of NIST SP 800-38A) under padding of 1 to 16 bytes, and the first 1024 bytes have the row's digest. |
| `CbcStandard.CleanWasSealed` | src/stream.rs:544-597 | Whatever decrypts cleanly is the encryption of what comes out, with some such padding. |
| `Gate.ChecksumGate.Verify` | src/stream.rs:668-691 | Releases nothing; succeeds only if the row's own kind of digest of the first min(1024, len) plaintext bytes is the manifest's, and fails only for a fault of the source or because it is not. |
| `Gate.ChecksumGate.Read` | src/stream.rs:693-708 | No byte leaves before that digest matched; afterwards the window and the rest come out once and in order. |
| `Gate.RunGated` | src/stream.rs:505-708 | Driving the composed reader to its end over any source: a clean end means a positive multiple of 16 bytes, a valid pad and a matching digest, and exactly the unpadded decryption came out; nothing comes out on a digest mismatch; and a source that cannot fail and is so always ends cleanly. |
| `Inflate.RingAdvances` | src/stream.rs:770-797 | Writing at the output position keeps the 32 KiB window equal to the end of the output, across the wrap. |
| `Inflate.WindowReaches` | src/stream.rs:770-797 | From that window every byte up to 32,768 back is found where the decoder looks for it. |
| `Inflate.NeverRefused` | src/stream.rs:798-817 | On a stream of exactly the expected size within the limit none of the size, limit and end checks can fire. |
| `Inflate.InflateReader.Decompress` | src/stream.rs:770-828 | One step overwrites no pending byte, gives the tap exactly the bytes consumed, keeps the output within min(expected, limit), and makes progress. |
| `Inflate.InflateReader.Read` | src/stream.rs:798-846 | For any read sizes the decoder's output is handed out once and in order; the end is reported only when the end marker was reached with exactly the expected number of bytes, and the tap then holds exactly one stream. A fault is the source's, or the limit's once more than it was put out, or else a bad stream. |
| `Inflate.InflateReader.WithinBudget` | src/stream.rs:798-817 | At every moment at most min(expected, limit) bytes were released and the tap is a prefix of the input. |
| `Inflate.CopyOut` | src/decrypt_stream.rs:509-528 | Success means one whole stream of the expected size was inflated; a sound source holding such a stream always succeeds. |
| `DeflateFormat.DecodeFrame` | src/stream.rs:889-921 | Symbols that decode with a dictionary decode alike behind any longer history the dictionary is a suffix of. |
| `DeflateFormat.StoredBlocksDecode` | src/stream.rs:942-955 | Stored blocks (section 3.2.4 of RFC 1951) written at a byte boundary decode to exactly the bytes they hold. |
| `DeflateFormat.StoredCost` | src/stream.rs:942-955 | They cost exactly five bytes more for every 65,535 begun. |
| `Deflate.PumpEmits` | src/stream.rs:967-993 | The pump loop keeps the compressor's accounting: what was accepted is emitted or pending, a full flush leaves nothing owed, a finish leaves nothing pending. |
| `Deflate.ReleaseCovers` | src/stream.rs:923-956 | Store or compress, a chunk keeps the invariant: the output decodes to all input but what is pending, and the compressor's dictionary is a suffix of the decoded bytes. |
| `Deflate.SplitIndependent` | src/stream.rs:1024-1049 | The writer's whole state, output included, depends only on the concatenation of the writes. |
| `Deflate.FinishEnds` | src/stream.rs:994-1001 | Finishing ends the stream with everything accepted decoded. |
| `Deflate.AdaptiveRoundTrip` | src/stream.rs:889-1053 | For every split into writes and every store-or-compress decision, the emitted stream decodes to exactly the concatenated input and ends. |
| `Deflate.HeldIsRemainder` | src/stream.rs:1024-1049 | What waits undecided is the remainder of everything written after whole chunks of 65,536 bytes. |
| `DeflateTotal.ChunkGoes` | src/stream.rs:923-956 | A chunk the entropy test picks appears in the output byte for byte behind a flushed compressor; any other goes into the compressor, and no stored byte is written for it. |
| `DeflateTotal.PushAllGoes` | src/stream.rs:967-1049 | If no step of the compressor is refused or stalls, no write fails. |
| `DeflateTotal.FinishAllGoes` | src/stream.rs:994-1001 | And the stream can always be ended. |
| `DeflateWriter.AdaptiveWriter.PumpInto` | src/stream.rs:967-993 | The loop that steps the compressor computes the pump on values. |
| `DeflateWriter.AdaptiveWriter.WriteStored` | src/stream.rs:942-955 | The block loop writes exactly the stored form of the chunk. |
| `DeflateWriter.AdaptiveWriter.Write` | src/stream.rs:1024-1049 | The chunk-gathering loop computes the value-level writer, and `consumed` equals the bytes accepted. |
| `DeflateWriter.AdaptiveWriter.Close` | src/stream.rs:994-1001 | Finishing computes the value-level finish. |
| `DeflateTotal.LiteralGoes` | src/stream.rs:967-993 | The contract asked of the compressor can be met by one that never stalls, so what is proved from it is about something. |
| `Payload.GcmEncryptWriter.Write` | src/stream.rs:456-471 | Each write takes a prefix of what it is given and appends its encryption at the current position. |
| `Payload.GcmEncryptWriter.Close` | src/stream.rs:448-453 | The finished member is IV, ciphertext and tag of everything written, however it was split. |
| `Payload.SealedOpens` | src/stream.rs:426-471 | A sealed member read back stands for exactly the plaintext, cleanly. |
| `Payload.SealedIsStandard` | src/stream.rs:426-471 | A sealed member is IV, the standard's ciphertext and the standard's tag, so any other implementation opens it. |
| `Payload.PumpPackage` | src/encrypt_stream.rs:199-212 | For every pattern of short reads the deflater is fed the whole source, in order. |
| `Payload.Encrypt` | src/encrypt_stream.rs:164-190 | What is written is the sealing of a DEFLATE stream that decodes to exactly the package, and only if the package had the size declared; a source that cannot fail and has that size is sealed whenever the compressor is willing. |
| `Payload.Open` | src/decrypt_stream.rs:429-528 | A member sealing a plaintext that starts with one whole stream of the declared size verifies, decrypts and inflates to that stream's bytes. |
| `Payload.RoundTrip` | src/encrypt_stream.rs:122-198 | End to end: whatever package, key, IV and chunking, a sealed package is accepted by the verify pass and decrypts and inflates back to itself. |
| `EndToEnd.EncryptAndDecrypt` | src/encrypt_stream.rs:122-198 | Sealing, manifest and opening composed: the row imported from the written manifest, its vector, salt, cost parameters and size and nothing else, restores exactly the package. |
| `CodecWitness.WitnessAgrees` | src/stream.rs:889-1053 | A concrete decoder and packing meet the decoder's contract and agree, so the round trips are about something. |
| `Rekey.Tee.Read` | src/reencrypt.rs:302-311 | Every byte read from the old stream is written to the new cipher, once. |
| `Rekey.DrainTee` | src/reencrypt.rs:421-432 | Draining carries what lies behind the DEFLATE end marker as well, up to the old tag, which is checked. |
| `Rekey.CheckStream` | src/reencrypt.rs:344-348 | The side inflater succeeds only on one whole stream of exactly the declared size, and everything it read, buffered bytes included, went through the tee. |
| `Rekey.Wholesome` | src/reencrypt.rs:313-358 | On success the new member seals the whole old deflated plaintext verbatim: the decryption of what the last opening showed, whose own tag held, after an opening that was authentic under the same key; that plaintext starts with one whole stream of the declared size. A refusal means the ladder gave up or the last opening failed or showed no such member. |
| `Rekey.RekeyKeepsPackage` | src/reencrypt.rs:313-358 | On success the new member verifies under the new key and inflates to exactly the package the old member's stream holds, of the declared size. |
| `ZipTree.InsertDecides` | src/zip_tree.rs:426-469 | Inserting a name succeeds exactly when no path becomes needed both as stream and folder, and then the tree holds what the names need. |
| `FolderTree.BuildDecides` | src/zip_tree.rs:61-81 | Building succeeds exactly on consistent names; the tree and the seeded cache are then determined by the set of names. |
| `FolderTree.OrderIndependent` | src/zip_tree.rs:61-81 | Any order and repetition of the same names gives the same verdict, the same tree and the same cache. |
| `Resolve.WalkAnswers` | src/zip_tree.rs:180-251 | The walk, in terms of the path's segments: what it finds, and what it leaves in the cache. |
| `Resolve.ResolveKeepsCache` | src/zip_tree.rs:113-251 | Every lookup keeps every cache entry the folder its key names or that folder's parent. |
| `Resolve.OneLevelCache` | src/zip_tree.rs:60-251 | The one-level cache theorem over any names and any sequence of lookups: every entry is an existing folder, at most one level too high. |
| `Resolve.DriftExactly` | src/zip_tree.rs:113-251 | Over every path, empty segments included: exactly when a cached answer differs from the cache-free walk's, and that it then comes from the cached folder, which is the key's own or its parent. |
| `Resolve.OneFolderHigher` | src/zip_tree.rs:113-251 | Without empty folder segments a path drifts exactly to the same name one folder higher; a folder path only if parent and child share a name. |
| `Resolve.EmptySegmentDrifts` | src/zip_tree.rs:113-251 | With one the drift is real too: a tree built from `folder//name` finds that stream through its cache, and the plain walk does not. |
| `Resolve.RootNameNeverDrifts` | src/zip_tree.rs:113-140 | A path without a slash always gets the plain answer. |
| `Resolve.PoisonedLookup` | src/zip_tree.rs:180-251 | The drift is real: a folder lookup makes the next lookup in it find the root's entry of that name. |
| `TreeState.PartsOfTreePath` | src/zip_tree.rs:285-299 | The string a resolved node goes by leads the setters back to that node. |
| `TreeState.ApplyAt` | src/zip_tree.rs:254-272 | A setter changes the node it names and no other. |
| `TreeState.NothingUnexpected` | src/zip_tree.rs:395-424 | If nothing unexpected is reported, every stream no row marked is one of the exempt ones. |
| `TreeState.UnexpectedExactly` | src/zip_tree.rs:395-424 | The recursive search reports exactly if some node of the tree is unexpected by its own path. |
| `TreeState.Tree.FromZipNames` | src/zip_tree.rs:61-81 | The insertion loop computes the tree and cache, or refuses exactly the inconsistent names. |
| `TreeState.Tree.Resolve` | src/zip_tree.rs:113-178 | The stateful lookup gives the specified answer and cache, and keeps the tree valid. |
| `TreeState.Tree.WalkAndCache` | src/zip_tree.rs:180-251 | The walking loop gives the specified walk. |
| `TreeState.Tree.SetFolderMeta` | src/zip_tree.rs:254-264 | Sets a folder's metadata and leaves every kind, and so every cache entry, right. |
| `TreeState.Tree.MarkFromManifest` | src/zip_tree.rs:267-272 | Marks a stream and leaves every kind, and so every cache entry, right. |
| `Records.UnpackPack` | src/zip_stream.rs:162-199 | Little-endian fields that fit their widths read back exactly. |
| `ZipFormat.LocalRoundTrip` | src/zip_stream.rs:162-199 | A local header reads back: each size is exact or all ones with the true value in the Zip64 field (section 4.5.3 of APPNOTE). |
| `ZipFormat.MemberRoundTrip` | src/zip_stream.rs:349-380 | A whole member, with or without a data descriptor (section 4.3.9.2 of APPNOTE), reads back: data, CRC and size agree. |
| `ZipFormat.CentralRoundTrip` | src/zip_stream.rs:384-432 | A directory entry reads back exactly, each overflowed field through its sentinel, whatever combination overflowed. |
| `ZipArchive.EndRoundTrip` | src/zip_stream.rs:433-472 | From the end of the file alone a reader finds count, size and start of the directory, through the Zip64 records when they are needed. |
| `ZipArchive.DirectoryRoundTrip` | src/zip_stream.rs:384-472 | From the end record a reader recovers exactly the entries written. |
| `ZipArchive.MembersReadable` | src/zip_stream.rs:162-380 | Each entry's offset is where its member's local header begins. |
| `ZipWriter.BoundCoversStored` | src/zip_stream.rs:119-126 | `deflate_bound` is exactly the padded sum, capped at 64 bits, and leaves room for storing the whole input in blocks. |
| `ZipWriter.StoredSize` | src/zip_stream.rs:162-253 | A stored member takes 30 bytes, its name, its body, and 20 more exactly if its size needs Zip64. |
| `ZipWriter.DeflatedSize` | src/zip_stream.rs:259-380 | A deflated member takes 30 bytes, its name, its data and 16, or 44 exactly if the bound on its hint needs Zip64. |
| `ZipWriter.ZipStreamWriter.Stored` | src/zip_stream.rs:204-253 | Success means exactly `size` bytes were copied, the source was at its end and the CRC matched, and a reader will take out that body; a source that cannot fail is refused for nothing else. |
| `PlainDeflate.StreamDecodes` | src/stream.rs:889-1002 | Without stored chunks: however the input is split into writes, the stream decodes to exactly their concatenation and ends. |
| `ZipWriter.ZipStreamWriter.Deflated` | src/zip_stream.rs:259-303 | Success means the whole source, within the hint, was compressed piece by piece into a stream that decodes to it, with its true CRC and sizes, and a reader will inflate exactly it; with a willing compressor a source that cannot fail is refused only for exceeding the hint. |
| `ZipWriter.ZipStreamWriter.DeflatedFrom` | src/zip_stream.rs:310-345 | Succeeds exactly when the source's copy did, its size is within the hint and its data fits the header promised; a reader will then inflate the copied bytes. |
| `ZipWriter.ZipStreamWriter.EndDeflated` | src/zip_stream.rs:349-380 | Descriptor and directory entry complete the member begun. |
| `ZipWriter.ZipStreamWriter.Close` | src/zip_stream.rs:384-476 | After any sequence of successful members a reader written from APPNOTE alone, with its own codes, starts at the end record and takes out exactly what was filed: names, UTF-8 flags, dates, modes, CRCs, sizes, and each body by its method code. |
| `LoInt.ParseLoInt` | src/manifest.rs:494-540 | The digit loop gives the number written whenever it is in range and 0 exactly when it is not, without ever leaving the range. |
| `LoInt.PrintReadsBack` | src/manifest.rs:485-540 | Every printed integer of the range reads back as itself. |
| `LoInt.NumberReads` | src/manifest.rs:471-540 | Blanks as LibreOffice counts them, one sign, digits, and then anything else: the number written, or 0 out of range. |
| `LoInt.NotANumber` | src/manifest.rs:494-540 | Without a digit there, 0. |
| `Base64.Decode` | src/manifest.rs:543-584 | The decoder loop emits exactly the complete groups of the characters that count, with `=` in the last two places shortening a group. |
| `Base64.Encode` | src/manifest.rs:598-621 | The encoder loop emits the padded form group by group. |
| `Base64.RoundTrip` | src/manifest.rs:543-621 | `decode_b64(encode_b64(b)) = b` for all bytes (section 4 of RFC 4648). |
| `Base64.Alphabet` | src/manifest.rs:598-621 | The letters are those of Table 1 of RFC 4648, in its order. |
| `Base64.GroupIsNumber` | src/manifest.rs:598-621 | Three bytes in base 256 and their four characters in base 64 are the same number. |
| `Base64.KeptExactly` | src/manifest.rs:543-560 | The characters that count are exactly the alphabet's, `=` and, as LibreOffice has it, the backquote; every other is skipped. |
| `Base64.ShortGroup` | src/manifest.rs:598-621 | A short last group is the full one for zeros added, cut and padded. |
| `ManifestImport.NamesAgree` | src/manifest.rs:56-108 | Start and end tag of an element convert to the same name. |
| `ManifestImport.RunMeans` | src/manifest.rs:125-274 | An unbounded machine run over a document computes its meaning, by recursion on its elements, and restores the stack. |
| `ManifestImport.DeepIsDeaf` | src/manifest.rs:125-217 | From the seventh level on only character data is taken in. |
| `ManifestImport.CapRunMeans` | src/manifest.rs:125-274 | The capped machine computes the same meaning from any stack within the cap, and no end tag is mismatched. |
| `ManifestImport.DepthCapUnobservable` | src/manifest.rs:17-20 | On every well-nested document the machine with the 16-frame cap equals the one without, the mismatch return never fires, and the stack ends empty. |
| `Importer.Import.ConvertName` | src/manifest.rs:67-76 | The innermost binding of the prefix to a manifest namespace decides. |
| `Importer.Import.PushNameAndNamespaces` | src/manifest.rs:78-108 | The frame is pushed first, so an element's own namespaces apply to its attributes. |
| `Importer.Import.StartElement` | src/manifest.rs:125-217 | A start tag takes the machine to the specified state, beyond the cap too. |
| `Importer.Import.EndElement` | src/manifest.rs:219-274 | An end tag takes the machine to the specified state. |
| `Importer.ParseManifest` | src/manifest.rs:684-738 | The event loop yields the specified rows: on every document exactly its meaning. |
| `Acceptance.AcceptRow` | src/classify.rs:501-573 | A row is accepted exactly if its data is complete for PGP, once PGP keys were seen, or for a password; it then carries the path, size, vector, cipher, derivation, start key, key length and checksum of the data, with the defaults where these are absent. |
| `ManifestWrite.WellNested` | src/encrypt.rs:907-930 | The events written are a well-nested document. |
| `ManifestWrite.PrintImport` | src/encrypt.rs:855-931 | For every size, vector, salt and valid Argon2 parameters the written manifest imports as one row, accepted with exactly those values, AES-GCM, SHA-256 and key length 32. |
| `PgpImport.KeySectionMeans` | src/manifest.rs:125-350 | PGP-wrapped keys in front of the rows, in OASIS's spelling or LibreOffice's own, are all taken, in order, each identifier, packet and cipher value in its place. |
| `RowsImport.PackageImports` | src/manifest.rs:125-463 | A whole manifest, keys and then any rows, under every name the importer knows for ciphers, digests, start keys and derivations: each row is imported with its path, type, version and size, and accepted as exactly the row meant, counts, salt, vector, digest and key length included, or turned away exactly if it is plain, cannot be followed or lacks a checksum it needs. |
| `RowsImport.CipherRead` | src/uris.rs:118-136 | Each known cipher name stands for its cipher and key length, and any other text for none. |
| `ManifestStrip.FilterPrunes` | src/decrypt.rs:882-970 | The skip-depth filter over events equals pruning the tree: encryption-data subtrees and the size attributes of file-entry elements. |
| `ManifestStrip.StripManifest` | src/decrypt.rs:896-970 | The filtering loop computes the pruning of every document. |
| `ManifestStrip.SizeKeys` | src/decrypt.rs:13-15 | Every key whose local name is `size` is dropped, and only keys that end so. |
| `StripRows.InsideKeepsRows` | src/manifest.rs:125-274 | Nothing below a row's element changes any row's path, media type, version or size. |
| `StripRows.StrippedIsPlain` | src/decrypt.rs:882-970 | For every document, no row of its stripped form is accepted as encrypted. |
| `ManifestRows.ImportCollects` | src/manifest.rs:125-274 | The rows imported from any document are exactly those its tags show, in order, each name converted by the namespaces in scope. |
| `ManifestRows.Declares` | src/manifest.rs:78-108 | A declaration binds its prefix, and the bare one the empty prefix. |
| `ManifestRows.PrefixDecides` | src/manifest.rs:56-108 | Under whatever prefix, the empty one included, a name is the manifest's exactly if some element around it binds the prefix to one of the two namespaces. |
| `StripKeeps.StrippingKeepsRowsExactly` | src/decrypt.rs:882-970 | For every document: stripping keeps every row's path, media type and version if and only if no root dropped as encryption-data held rows, and no row takes its tag, what its attributes show or the package's version it falls back on through a prefix `size` whose declaration is dropped and that no outer one binds. |
| `StripExamples.RowsSurvive` | src/decrypt.rs:882-970 | The common case: no root is encryption-data and no row declares the prefix `size`. |
| `StripExamples.DroppedRootDecides` | src/decrypt.rs:915-970 | One encryption-data root: the rows survive exactly when there were none. |
| `StripExamples.ForeignSizeKeepsRow` | src/decrypt.rs:13-15 | A row that binds `size` to a foreign namespace survives. |
| `StripExamples.DroppedRootLosesRow` | src/decrypt.rs:915-970 | A concrete document whose only row is lost with its root. |
| `StripExamples.SizePrefixLosesRow` | src/decrypt.rs:13-15 | A concrete document whose row is lost because `xmlns:size` is dropped as a size. |
| `Members.TreePathFindsMember` | src/classify.rs:258-281 | Exactly when a stream's tree path is matched by the member name that put it there: slashes may repeat only right before the last segment. |
| `Members.CollapseSlashes` | src/classify.rs:266-281 | The collapsing loop computes the specified name. |
| `Classify.ResolvedExists` | src/zip_tree.rs:113-251 | Every path that resolves names an existing node of the kind reported. |
| `Classify.StepKeeps` | src/classify.rs:331-390 | One row keeps all of the run's invariants: landing, completeness, the first common row, and cover of the marked streams. |
| `Classify.RunKeeps` | src/classify.rs:331-390 | The same over any sequence of rows. |
| `Screens.TakeBag` | src/classify.rs:331-390 | One row through the mutable tree computes the specified step. |
| `Screens.ClassifyMembers` | src/classify.rs:316-445 | The loop over rows computes the specified classification. |
| `Readings.RefusedExactly` | src/classify.rs:316-445 | For every package: refused if and only if its names are inconsistent, some row's path runs through a stream at its turn, or the mimetype differs from the type the rows leave on the encrypted-package, or else the root, while the root has one. |
| `Readings.AcceptedReads` | src/classify.rs:316-445 | Otherwise every field is read off names and rows: the rows taken and whether one was turned away, what the package calls itself, its keys, and whether any node is out of place. |
| `Readings.AtLeastMeans` | src/classify.rs:312-314 | The version test is the order of strings: the first difference decides. |
| `Classify.CommonExactly` | src/classify.rs:494-499 | The common rows are exactly those whose last component is content.xml or encrypted-package. |
| `TreeState.ContainsMeans` | src/zip_tree.rs:395-424 | The signature files are those with the word anywhere in their name. |
| `Screens.VerdictSound` | src/classify.rs:392-444 | Every accepted row is on an existing stream; Plain exactly if no row was accepted; Wholesome exactly if one landed on the root stream encrypted-package, and then its row is found; `common` is the first accepted content.xml or encrypted-package row. |
| `Screens.WholesomeRow` | src/decrypt.rs:620-635 | The first row on encrypted-package, and none exactly if the package is not wholesome or has no such row. |
| `Screens.WholesomeScreened` | src/decrypt.rs:538-579 | What the early screen asks of a wholesome package: no PGP row, at most 4096 rows, nothing fatal, and its own row's size within the limit. |
| `Screens.RowsNameMembers` | src/decrypt.rs:598-613 | With member names that find themselves, every accepted row names a zip member. |
| `Screens.NothingUnprotected` | src/reencrypt.rs:206-219 | If both screens accept a package, every stream of the tree but the exempt ones has a complete password row with exactly its path. |
| `Reseal.RowsDecide` | src/decrypt_entries.rs:96-145 | In such a package a zip member has a row of its own exactly if it is the first to match the path of some member's stream. |
| `Reseal.ResealsExactly` | src/reencrypt.rs:206-219 | What re-keying seals: of the members that are neither the manifest nor exempt exactly the claimed ones come out decrypted, and every other is carried over in plain. |
| `Reseal.UnambiguousAreClaimed` | src/reencrypt.rs:206-219 | With names that lead back to themselves and never collapse alike every member is claimed, so nothing stays in plain. |
| `Reseal.ClaimedThroughAnother` | src/decrypt.rs:598-613 | A member can be claimed through another member's stream: `a//b/c` by `a/b/c`, although its own stream is `a/c`, which a third member matches first. |
| `ShadowedMember.ShadowedIsCarried` | src/reencrypt.rs:206-219 | The failing input: `d//content.xml` and `d/content.xml` with one complete row pass both screens, and the second is carried over in plain. |
| `RekeyEntries.LetThroughExactly` | src/reencrypt.rs:206-219 | Which packages are re-keyed entry by entry, read off names and rows: some row taken, at most 4096 and none for PGP, a common one but none on the root's encrypted-package, sizes within the limit, none turned away, nothing out of place. |
| `RekeyEntries.RekeyPerEntry` | src/reencrypt.rs:361-410 | Classify, screen and rebuild composed: whatever was rebuilt, finished or not, decrypts its content members exactly where they are claimed, and the output limit stops it only at a member that inflates to more than its rows declare. |
| `Plans.MemberForArchive` | src/decrypt.rs:598-613 | The search finds the first member that matches. |
| `Plans.ShapeFitsExactly` | src/decrypt.rs:756-842 | The shape screen passes a member exactly if the cipher takes the row's key and vector lengths, the member's length is that of some sealed plaintext, and a GCM member begins with the row's vector. |
| `Plans.PlannableExactly` | src/decrypt_entries.rs:72-86 | A row can be planned if and only if its size is from 0 to the ceiling and the first member that matches its path could be some plaintext sealed under it. |
| `Plans.MakePlans` | src/decrypt_entries.rs:72-86 | Accepts exactly the packages whose rows all have a size, a member and the shape their cipher needs, and otherwise blames the first bad row for the first thing wrong with it; each member's plan is its last row, and every other row is set aside. |
| `Plans.PlansFit` | src/decrypt.rs:795-842 | Every plan made, and every superseded row set aside, fits its cipher, with the length of its own member. |
| `MemberKeys.ChecksumKey` | src/decrypt_entries.rs:182-205 | The key found is the first candidate whose opening of the member passes the checksum gate, each before it refuted by its own opening. No key means that all were, or that a key could not be derived, or that one opening failed by itself. |
| `MemberKeys.KeyFor` | src/decrypt_entries.rs:207-221 | The key found for a row, by tag or by checksum, passed its check in the last opening, which was of that row's member; none is found only as the cipher's own walk gives up. |
| `MemberKeys.RefusedMeansWrong` | src/decrypt_stream.rs:372-395 | With an archive that answers, a password is refused only if its own start key is wrong and, for a SHA-1 row, every rung of the legacy ladder too, each by an opening of its own, in that order. |
| `Entries.CopyDeflated` | src/decrypt_entries.rs:368-382 | What is copied is exactly one DEFLATE stream of the declared size, and size and CRC are the inflated bytes'; at most the limit is inflated even on failure. |
| `Entries.ReadGcm` | src/decrypt_stream.rs:445-458 | The release pass into the inflater: success means one exact stream of the declared size and a tag that held over what this opening showed. |
| `Entries.DecryptMember` | src/decrypt_entries.rs:241-276 | What goes out for a member is one exact stream, drawn from an opening of that member through the row's own cipher, under a key an earlier opening had passed. It fails only if no key opened the member or the opening it was read from was no good. |
| `Entries.CheckSuperseded` | src/decrypt_entries.rs:87-89 | The password is tried on every superseded row, by that row's own check, before anything is written. |
| `Entries.RebuildAll` | src/decrypt_entries.rs:93-147 | The running sum stays within the limit at every point, members come out in archive order, each as its last row says. |
| `Entries.PerEntry` | src/decrypt_entries.rs:61-147 | The whole rebuild: refused exactly if some row is not plannable; otherwise order, exact sizes, each output drawn from its own member and row, every row's password checked, the budget whether it succeeds or stops half-way, and the weakest integrity reported exactly. It is abandoned only for a replaced row no key opens, or at a member that cannot be decrypted or carried. |
| `Entries.IntegrityMeans` | src/decrypt_entries.rs:46-51 | Each decrypted output comes from one opening of its own member: with AES-GCM one that carries its own tag, otherwise one that ended, had a valid pad and whose first kilobyte meets the checksum; if the rebuild reports `Verified`, all are GCM. |
| `MemberKeys.CleanMeansWhole` | src/decrypt_entries.rs:223-239 | The gated reader of a row ends cleanly over these bytes if and only if the opening was whole: ended, whole blocks and a valid pad for CBC, and a checksum that accepts the first kilobyte. |
| `Budget.BudgetSuffices` | src/decrypt_entries.rs:117-124 | A package the early screen lets through, at any limit below 2^64 - 1, never runs out of budget: what is left covers each next member, however rows share members. |
| `Budget.LimitMeansOverrun` | src/decrypt_entries.rs:117-124 | So the output limit is reported only at a member that inflates to more than its row declares. |
| `Budget.AddUpSaturates` | src/decrypt.rs:566-579 | The screen's saturating sum is the true sum up to the largest 64-bit value. |
| `Budget.ScreenExactly` | src/decrypt.rs:566-579 | The screen decides as the true sum would if and only if the limit is below 2^64 - 1 or the true sum does not exceed it. |
| `Budget.SaturationHidesExcess` | src/decrypt.rs:566-579 | At the limit 2^64 - 1 three rows pass the screen although their true sum exceeds it. |

## Left out

- Buffers a caller lends to a read or write are returned as values; aliasing between a caller's buffer and a stream is not modelled.
- Tree nodes are values: a setter replaces the tree from the root instead of updating a node in place.
- AES, GHASH multiplication, digests, CRC-32, miniz, Argon2, PBKDF2 and Blowfish are not modelled; they are arbitrary functions or contracted steps.
- The entropy test that decides between storing and compressing is an arbitrary predicate on a chunk.
- DEFLATE bit packing is a parameter: the adaptive writer is proved on symbols, and `Payload.Agree` says how packed symbols and the inflater's format belong together.
- The Blowfish reader would add the laws of the CBC reader on simpler state; in `MemberKeys` its plaintext is an arbitrary function of key, vector and ciphertext.
- Retrying interrupted reads, a failing tap or output writer, memory wiping and allocation failures are not modelled.
- A read after the first failure is outside the reader laws. After a failed tag check the GCM reader reports its end, so a consumer must not swallow the failure; that is a condition on the consumer in `VerifyRelease.AnyConsumer`.
- A password is a function from a row to its candidate keys, in order and each possibly not derivable; the start-key digest, the derivations and the legacy ladder's contents are not computed.
- XML text level: escaping, entity references, encodings, malformed documents and the XML crate itself. An import that meets malformed XML yields no rows; the model starts from events.
- The stripping filter's 32-bit depth counter is unbounded here.
- Plans.MakePlans: the order of refusals between rows is kept, their messages are not.
- Entries.PerEntry: the zip container being written is a list of members, and the framing is `ZipWriter`'s; a plain member's bytes are carried by reference to the source member rather than copied.
- Entries.ReadGcm: the inflater reads from a source that stands for the decrypting reader's target; that the reader serves exactly that target is `GcmMember.GcmDecryptReader.Read`.
- RekeyEntries.RekeyPerEntry: the names classified and the members rebuilt are two independent lists, because the classifier passes over empty directory entries and the rebuild does not; the outer encrypted container is `Payload`'s.
- Payload.RoundTrip: a deflated stream of 2^61 bytes or more is refused, because GHASH's length field would wrap, which the code does not check.
- The check that a member stored with a data descriptor is encrypted, member-name validity and reading the mimetype member are left out; they would only add easy members.
- The seekable zip sink, the bound on a rebuilt package's size, the whole-buffer decryption path, the command line and error messages.
