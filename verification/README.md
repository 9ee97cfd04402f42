# Eblusha server: a verified model of its storage pipeline, sessions, calls and delivery

A Dafny model of four parts of the Eblusha messenger's server, with proofs of the properties they are built for.

* **Encrypted storage.** A file is uploaded in parts, re-cut into sealed chunks (EBP2) or sealed at once (EBP1), found again from its URL, and served by byte range. Modules `Upload`, `Ebp2`, `Ebp2Whole`, `Ebp2Integrity`, `Ebp2Range`, `Ebp1`, `Thumbnail`, `ByteRanges`, `StorageKeys`, `Files`, `EndToEnd`, `ForwardRemap`, and what a client sees of them in `RangeReplies`, `KeySearch`, `UploadAnswers` and `Formats`, over `Bytes`, `Text` and `Aead`.
* **Refresh tokens.** Rotation, logout and revocation as a state machine over the token table (`RefreshTokens`), and what each request comes to (`RefreshAnswers`).
* **Calls and presence.** Direct and group call signalling with handlers interleaved at their awaits, and throttled presence writes (`Calls`, `DirectCalls`, `GroupCalls`, `Presence`), with what can happen to a call component by component (`DirectCallSteps`, `GroupCallSteps`, `PresenceSteps`).
* **Secret inbox and history.** At-least-once delivery over expiring Redis keys, and keyset pagination (`SecretInbox`, `SecretDelivery`, `SecretRounds`, `SecretPushes`, `SecretLifetimes`, `Keyset`).

What is assumed. AES-256-GCM (NIST SP 800-38D) is a pair of functions of which only "opening inverts sealing" and the lengths are assumed (`Aead.Cipher.Correct`); the integrity results assume instead that nothing opens but what was sealed (`Ebp2Integrity.Ideal`), and the remap results that a payload opens to one plaintext only (`ForwardRemap.Unambiguous`). Nonces are arbitrary. Encoding of a URL segment (section 2.1 of RFC 3986) is an injective function whose image has no slash. Every database statement or transaction, Redis command or script is one atomic step; code between two awaits is one step; timers fire when they are due; UUIDs are not in use yet when they are made; a verified token was signed from the record it names. The clock does not run backwards. `Assumptions` shows of each of these assumptions about a cipher, an encoding, dates and an order that it can be met.

Where the loops and objects of the source change state step by step, the model does too: methods and classes are proved against specification functions, and the properties are proved of those. Protocols are state machines: `Enabled` and `Apply` give the steps, `Run` the interleavings. Fields named as history in a comment exist only in the model.

Where code and intent part, the model follows the code:

* a key that contains two dots in a row, in a file name, counts as unsafe for deletion and is served but never deleted (`StorageKeys.DoubleDotNameIsNotDeleted`);
* likewise the `.eblusha` variant of a path whose last segment is a single dot is served and never deleted, though the path has no two dots in a row (`StorageKeys.DotSegmentIsNotDeleted`);
* with an empty storage prefix a deletion falls back to "uploads", where the route does not look (`StorageKeys.EmptyPrefixDeletesMore`);
* a suffix range of an empty object is accepted, which RFC 9110 calls unsatisfiable (`ByteRanges.ParserFollowsStandard`);
* the remap may find objects for URLs that do not decode, or have three or more slashes after the route prefix, where the route does not (`ForwardRemap.SearchesAgreeIff` says for which, `ForwardRemap.ThreeSlashesLoseTheBlob` gives the store);
* a `call:end` that found no call still clears the ring timer of a call invited meanwhile (`DirectCalls.EndCanDisarmRing`; `DirectCalls.OnlyEndDisarms` says when);
* a reconciliation awaits between storing OFFLINE and noting it, and what is written meanwhile is forgotten (`Presence.ReconcileCanLoseStatus`; `Presence.OvertakenBegins` says when);
* `/secret/send` may enqueue an id without a delivery row (`SecretDelivery.RowLessIff`);
* an empty EBP2 object is announced with one byte and sent with none (`Files.SendEbp2Object`);
* a storage prefix that still starts with a slash after one is taken off makes keys that are never tried first (`StorageKeys.KeyIsTriedFirstIff`).

`dafny verify dfyconfig.toml` checks everything.

## Model

| member | source | states |
|---|---|---|
| `EndToEnd.UploadThenDownload` | src/routes/upload.ts:440-564 | parts in any order and with any retries, read back in fragments cut anywhere, sealed in chunks and fetched by range: for every non-empty file and every header the reply is, without a Range, the whole file; for a Range that RFC 9110 says selects bytes, and not more than the limit (64 MiB of a video, else 16 MiB), exactly those bytes with their bounds and their number; else 416; the same below the EBP2 threshold, where a Range that is too long is ignored |
| `EndToEnd.StoreUploadedObject` | src/routes/upload.ts:178-403 | what is stored under the put key is the whole content again when it is opened with that key as AAD, by whole decryption for EBP2 and in one piece for EBP1; the EBP1 self-check never fails; the URL is the encoded key |
| `EndToEnd.Get` | src/routes/files.ts:284-462 | the handler sends what the candidate search arrives at and announces the length of what it sends; for an EBP2 object it sends the requested slice if all chunks are there, and otherwise that, a refusal, or visibly less than announced |
| `EndToEnd.SendStored` | src/routes/files.ts:394-462 | from any store that only opens to chunks of one file, a reply is that file's slice, or a refusal, or a prefix of the slice that is shorter than announced; never other bytes |
| `EndToEnd.IdealIsReadable` | src/lib/storageEncryption.ts:344-404 | under ideal encryption an object reads as its own file or not at all, whatever bytes the store hands back and whatever sizes parseInt makes of the metadata |
| `EndToEnd.Ebp2IsFound` | src/routes/files.ts:338-396 | the first candidate for an uploaded object's URL is found and recognised as EBP2 |
| `EndToEnd.Ebp2Fields` | src/routes/upload.ts:247-253 | the metadata written at upload reads back as the same sizes and content type |
| `Files.ParseIntReads` | src/routes/files.ts:395-396 | parseInt reads a rendered number back, whatever follows it that is not one more digit |
| `Files.ParseIntReadsSigned` | src/routes/files.ts:395-396 | and skips white space in front, and counts a sign |
| `EndToEnd.StoredIsReadable` | src/routes/files.ts:439-442 | an honest store serves every chunk of what was uploaded |
| `EndToEnd.Ebp1IsServed` | src/routes/files.ts:496-573 | an EBP1 object stored under its key is decrypted with its recorded AAD and served as the sealed plaintext |
| `EndToEnd.DecryptedIsSlice` | src/routes/files.ts:575-600 | a decrypted blob is sent whole, or as the bytes the Range selects, or refused exactly because the Range selects none |
| `Upload.Session.PutPart` | src/routes/upload.ts:440-496 | the checks on a part request in their order, and that only an accepted part replaces what is stored for its number |
| `Upload.Session.Complete` | src/routes/upload.ts:498-540 | the part checks of completion in their order, and the parts in order |
| `Upload.Upload` | src/routes/upload.ts:498-552 | whatever the order and the retries, if the last accepted body of every part is the file's slice, the upload assembles to the file |
| `UploadAnswers.HonestUpload` | src/routes/upload.ts:440-552 | a client that sends only its file's own parts, each at least once, in any order, has the upload completed and assembled to the file |
| `UploadAnswers.AcceptedIff` | src/routes/upload.ts:440-496 | a part is accepted exactly if the file has it and it has the right number of bytes |
| `UploadAnswers.RefusedBecause` | src/routes/upload.ts:440-496 | and which reason a refused one gets |
| `UploadAnswers.CompletionFails` | src/routes/upload.ts:498-540 | completion fails with the first part that is missing or not of its size |
| `Upload.AssembleSlices` | src/routes/upload.ts:515-536 | the completion loop accepts the file's slices |
| `Upload.ConcatSlices` | src/routes/upload.ts:165-176 | the first n slices, concatenated, are the file up to slice n |
| `Ebp2.EncryptStream` | src/lib/storageEncryption.ts:205-256 | the sealed object depends on the concatenation of the input fragments only |
| `Ebp2.Encrypter.OnData` | src/lib/storageEncryption.ts:240-246 | after each event the full chunks of everything received have been written and the rest is buffered |
| `Ebp2.Encrypter.OnEnd` | src/lib/storageEncryption.ts:248-251 | the output is the encoding of everything received |
| `Ebp2.ChunkEncryptedRange` | src/lib/storageEncryption.ts:259-276 | the offset loop equals 17 + i * (28 + chunkSize) exactly as long as all chunks before i are full |
| `Ebp2.SealedLengthClosedForm` | src/lib/storageEncryption.ts:264-270 | the loop's sum against its closed form, in both directions |
| `Ebp2.ChunkBytes` | src/lib/storageEncryption.ts:259-276 | the byte range computed for a chunk holds exactly its sealed form, and the next one starts where it ends |
| `Ebp2.EncodedLength` | src/lib/storageEncryption.ts:205-256 | length of the stored object |
| `Formats.HeaderLayout` | src/lib/storageEncryption.ts:217-221 | the header byte by byte |
| `Formats.AadLayout` | src/lib/storageEncryption.ts:186-199 | the AAD byte by byte |
| `Formats.LittleEndian` | src/lib/storageEncryption.ts:194-221 | integers are written lowest byte first |
| `Formats.ChunkLayout` | src/lib/storageEncryption.ts:228-238 | a chunk is its nonce, tag and ciphertext, sealed under the AAD of its index |
| `Ebp2Whole.DecryptWhole` | src/lib/storageEncryption.ts:283-320 | the loop computes the decryption of the buffer and terminates for every header |
| `Ebp2Whole.WholeInvertsEncode` | src/lib/storageEncryption.ts:283-320 | whole decryption inverts encryption |
| `Ebp2Whole.WholeOfPrefix` | src/lib/storageEncryption.ts:300-319 | any prefix with the header decrypts to the longest chunk-aligned plaintext prefix it holds |
| `Ebp2Integrity.AadInjective` | src/lib/storageEncryption.ts:186-199 | the AAD determines object key, index, sizes and version |
| `Ebp2Integrity.OpenedIsSealed` | src/lib/storageEncryption.ts:300-318 | under ideal encryption a chunk that opens is the file's chunk of that index, and the header is the file's |
| `Ebp2Integrity.AcceptedIsPrefix` | src/lib/storageEncryption.ts:283-320 | any bytes that whole decryption accepts yield a chunk-aligned prefix of the one file sealed for the key |
| `Ebp2Range.ChunksForRange` | src/lib/storageEncryption.ts:323-336 | exactly the existing chunks that share a byte with the range, in order and without gaps |
| `Ebp2Range.RangeStream.Read` | src/lib/storageEncryption.ts:361-400 | one read: the chunk fetched, the slice pushed, the end marker or the destruction |
| `Ebp2Range.RangeStream.ReadFaithfully` | src/lib/storageEncryption.ts:361-400 | every read before the end pushes a non-empty slice, the next part of the range |
| `Ebp2Range.RangeStream.Drain` | src/lib/storageEncryption.ts:344-404 | the slices concatenate to the plaintext range, the end marker is pushed once, no read stalls; a destroyed stream has pushed a prefix that is strictly shorter; an empty object gives the end marker only |
| `Ebp2Range.RangesTile` | src/lib/storageEncryption.ts:259-276 | the byte ranges fetched for consecutive chunks tile the object after its header |
| `Ebp2Range.HonestIsFaithful` | src/lib/storageEncryption.ts:344-404 | every chunk fetched from an honest store opens to the file's chunk |
| `Ebp2Range.IdealIsFaithful` | src/lib/storageEncryption.ts:344-404 | under ideal encryption no store, whatever it returns and whatever sizes the metadata claims, makes the stream open anything but the file's chunks |
| `Ebp2Range.ReadRange` | src/lib/storageEncryption.ts:344-404 | the body of a range is the file's slice, or the stream was destroyed and the body is a strictly shorter prefix of it |
| `Thumbnail.RangeEnd` | src/routes/attachments.ts:257-262 | the fetch length is exact: header and needed chunks, not a byte more |
| `Thumbnail.PrefixSuffices` | src/routes/attachments.ts:255-270 | what is fetched decrypts to whole chunks that cover the first fetchLen bytes |
| `Thumbnail.FirstBytes` | src/routes/attachments.ts:255-290 | the whole-decryption path and the range path give the same first fetchLen bytes |
| `Ebp1.DecryptInvertsEncrypt` | src/lib/storageEncryption.ts:75-151 | one-shot decryption inverts one-shot encryption |
| `Formats.BlobLayout` | src/lib/storageEncryption.ts:75-110 | the one-shot container byte by byte |
| `Files.ServeLoop` | src/routes/files.ts:338-391 | the search over the candidates returns the first that is served |
| `Files.FirstNotPassedOver` | src/routes/files.ts:338-391 | the first candidate that is not passed over decides, and without one nothing is found |
| `Files.TryKey` | src/routes/files.ts:339-573 | a candidate is passed over exactly when nothing is stored there, or an EBP1 blob that none of the keys the route has opens under any AAD it tries |
| `Files.PassedOverIff` | src/routes/files.ts:339-573 | the same of the specification, for every store, key and Range |
| `Files.DecryptLoop` | src/routes/files.ts:524-573 | the conversation key is tried with every AAD before the storage key |
| `KeySearch.ServedAs` | src/routes/files.ts:338-560 | an object is served chunk by chunk, decrypted or as it is, exactly by what its metadata says |
| `KeySearch.AadsTried` | src/routes/files.ts:516-522 | the AAD on record alone, or else the key first and then every other candidate |
| `Files.SendEbp2Object` | src/routes/files.ts:394-462 | status, bounds, body and length of the EBP2 branch for every Range and size: complete and of the announced length, or a strictly shorter prefix; an empty object is announced with one byte and sent with none; which range that is, RangeReplies.WantedIsSelected says by the standard |
| `ByteRanges.ParserFollowsStandard` | src/routes/files.ts:141-172 | for every range spec and size the parser selects what section 14.1.2 of RFC 9110 selects, exactly except for a non-empty suffix of an empty object |
| `ByteRanges.SelectedAreAskedFor` | src/routes/files.ts:141-172 | the bytes selected are all the bytes the range asks for that the object has, and none is selected only when it asks for none |
| `RangeReplies.ParsedIsSelected` | src/routes/files.ts:141-172 | every header that reads as a range, in any case of letters, with white space around it and zeros in front, selects what the standard says; every other is refused |
| `RangeReplies.RenderedAsks` | src/routes/files.ts:146-147 | a range as the standard writes it is read as that range and no other |
| `RangeReplies.WantedIsSelected` | src/routes/files.ts:411-431 | the bytes the EBP2 branch sets out to send are those selected, or none if they are more than the limit in bytes |
| `RangeReplies.RefusedIff` | src/routes/files.ts:411-431 | 416 is the answer exactly when no range that is read selects at least one byte and at most the limit |
| `RangeReplies.DecryptedAnswers` | src/routes/files.ts:496-608 | a decrypted blob is sent whole without a Range, above 50 MiB, or when too much is asked for; else the bytes selected, with their bounds, or 416 |
| `StorageKeys.DecodeInvertsEncode` | src/routes/upload.ts:51-55 | decoding the URL gives back the key, for every key |
| `StorageKeys.FirstCandidateIsKey` | src/routes/files.ts:209-237 | the first key tried for an uploaded object's URL is the key it was sealed under |
| `StorageKeys.KeyIsTriedFirstIff` | src/routes/files.ts:209-237 | that is so exactly for keys without a leading slash |
| `KeySearch.CandidatesOfPath` | src/routes/files.ts:209-237 | a path that names no bucket is looked up as it is and then under the prefix, unless it is there already |
| `KeySearch.CandidatesUnderBucket` | src/routes/files.ts:209-237 | one that names a bucket is looked up with it, without it, and then both under the prefix |
| `KeySearch.VariantOfName` | src/routes/files.ts:239-248 | the variant has .eblusha in place of the extension |
| `KeySearch.EncodedBySegment` | src/routes/upload.ts:51-55 | segments are encoded one by one and the slashes between them stay |
| `KeySearch.EmptySegmentsDoNotCount` | src/lib/storageDeletion.ts:7-12 | a deletion reads a path without its empty segments |
| `StorageKeys.StrippedAgree` | src/lib/storageDeletion.ts:42-63 | stripping the bucket commutes with stripping the slash |
| `StorageKeys.StrippedIff` | src/routes/files.ts:111-133 | a segment is taken off exactly if it is the bucket or is followed by the segments of the prefix; every other path stays as it is |
| `StorageKeys.BucketIsTakenOff` | src/routes/files.ts:111-133 | a path under the bucket leads to what comes after it |
| `StorageKeys.DeletedAreServedAndSafe` | src/lib/storageDeletion.ts:65-130 | a deletion removes exactly the safe keys among those the route may serve the path from |
| `StorageKeys.DeletionMatchesServingIff` | src/lib/storageDeletion.ts:85-130 | the two sets agree exactly when neither the decoded path nor the prefix has two dots in a row, the path does not start with three slashes, and its last segment, with the bucket taken off or not, is not a single dot |
| `StorageKeys.ServedCleanIff` | src/routes/files.ts:209-325 | and exactly then every key the route tries is free of two dots in a row and of a leading slash |
| `StorageKeys.VariantIsClean` | src/routes/files.ts:239-248 | the .eblusha variant of a key gains two dots in a row exactly when the key's last segment is a single dot |
| `StorageKeys.DotSegmentIsNotDeleted` | src/lib/storageDeletion.ts:25-30 | for every such path the variant is served and never deleted |
| `StorageKeys.DoubleDotNameIsNotDeleted` | src/lib/storageDeletion.ts:25-30 | a file name with two dots in a row is served and never deleted |
| `StorageKeys.EmptyPrefixDeletesMore` | src/lib/storageDeletion.ts:85-130 | with an empty prefix the deletion falls back to uploads and removes, for every single segment, a key the route never tries |
| `ForwardRemap.RemapOneAttachment` | src/lib/forwardAttachmentRemap.ts:177-360 | when an attachment is re-materialised, under which key, with which metadata, and which URL it gets |
| `ForwardRemap.RematerialisedIff` | src/lib/forwardAttachmentRemap.ts:177-360 | there is a new object exactly if the URL leads to a one-shot blob of another conversation of at most 57671680 bytes that some key and AAD open; it is sealed for its own key with the same plaintext and content type, and nothing else changes |
| `ForwardRemap.ResolveFirstExisting` | src/lib/forwardAttachmentRemap.ts:126-151 | the first existing key among the candidates |
| `ForwardRemap.DecodedOrKept` | src/lib/forwardAttachmentRemap.ts:29-46 | a segment that does not decode is looked up as it stands |
| `ForwardRemap.RemapPreservesMeaning` | src/lib/forwardAttachmentRemap.ts:177-360 | on every URL on which the two searches agree, the new URL is served exactly as the original was, for every store and Range |
| `ForwardRemap.RemapPreservesMeaningIff` | src/lib/forwardAttachmentRemap.ts:177-360 | and only on those: otherwise there is a store on which the remap changes what is served |
| `ForwardRemap.SearchesAgreeIff` | src/lib/forwardAttachmentRemap.ts:29-46 | the searches agree exactly on the URLs that decode and do not begin with more slashes than both drop, or with one more than that where looking under the prefix adds no key |
| `ForwardRemap.ThreeSlashesDisagree` | src/lib/forwardAttachmentRemap.ts:29-46 | with the prefix uploads and no bucket they disagree on three slashes and any word |
| `ForwardRemap.ThreeSlashesLoseTheBlob` | src/lib/forwardAttachmentRemap.ts:177-360 | and for every such URL there is a store in which the remapped URL is served differently |
| `ForwardRemap.SearchesAgreeWhenDecodable` | src/lib/forwardAttachmentRemap.ts:29-46 | the searches agree on every URL that decodes and has at most two slashes after the route prefix |
| `ForwardRemap.DecryptsWithMore` | src/lib/forwardAttachmentRemap.ts:250-286 | the longer AAD list of the route decrypts a blob to the same plaintext as the list of the remap |
| `ForwardRemap.OthersUnaffected` | src/lib/forwardAttachmentRemap.ts:315-330 | what a path that does not lead to the new key is served as does not change |
| `RefreshTokens.StepKeepsInv` | src/lib/authSessions.ts:131-290 | every step of every interleaving keeps: one live record per session, rotated records have their replacement, which inherits user, session and device, and replaces nothing else |
| `RefreshTokens.StepEvolves` | src/lib/authSessions.ts:178-192 | no record is deleted or rebound, and revoked records never change |
| `RefreshTokens.RunKeepsAll` | src/lib/authSessions.ts:120-290 | the whole invariant in every state of every run |
| `RefreshTokens.ChainIsAcyclic` | src/lib/authSessions.ts:349-371 | replacement never leads back, and every descendant inherits user, session and device |
| `RefreshTokens.LogoutEndsSession` | src/lib/authSessions.ts:220-234 | the revocation of a logout leaves no live record in the session |
| `RefreshTokens.LogoutIsPermanent` | src/lib/authSessions.ts:206-234 | no later step brings a record of that session to life |
| `RefreshTokens.LoggedOutForGood` | src/lib/authSessions.ts:149-204 | and every refresh of one of its tokens that starts afterwards is refused |
| `RefreshTokens.DeviceRevokedForGood` | src/lib/authSessions.ts:250-290 | no record then bound to the device ever has a live descendant, and none can be refreshed |
| `RefreshTokens.UserRevokedForGood` | src/lib/adminUsers.ts:209-212 | the same for everything a banned user has |
| `RefreshTokens.RevocationIsPermanent` | src/lib/authSessions.ts:149-204 | dead records stay dead with their descendants in every run |
| `RefreshTokens.RaceHasOneWinner` | src/lib/authSessions.ts:159-204 | of any number of racing refreshes of a live token at most one creates a successor; one that reached the transaction and passed it leaves exactly one creator or finds the token revoked; what the others hand out is a proper descendant |
| `RefreshTokens.UndisturbedRefresh` | src/lib/authSessions.ts:167-196 | a refresh nobody interferes with rotates the token and issues a live record for the same user, session and device |
| `RefreshTokens.ResolveActive` | src/lib/authSessions.ts:349-371 | the walk returns the tail of the chain exactly when it is live, unexpired and at most 15 links away |
| `RefreshTokens.RefusalHasCause` | src/lib/authSessions.ts:349-371 | in any run, whatever happens to the table during the walk, it ends without a record only after 16 replacements, at an expired record, or at one revoked without being replaced |
| `RefreshAnswers.StartAnswers` | src/lib/authSessions.ts:131-166 | a first read refuses exactly an unknown token, another user's or device's, or an expired one that was not revoked; a revoked one is followed, one in use goes on to be rotated |
| `RefreshAnswers.EveryRefusalHasCause` | src/lib/authSessions.ts:131-204 | in every run a refused refresh was refused by a step with one of these causes, or with one of those of the walk, in the table at that step |
| `RefreshAnswers.RotatedTokenIsFollowed` | src/lib/authSessions.ts:159-164 | a rotated token, presented by its user and device, gets the end of its chain exactly when that is live, unexpired and at most 15 links away, and is refused otherwise |
| `RefreshAnswers.LoserFollows` | src/lib/authSessions.ts:176-203 | so does a refresh that lost the race for the rotation, by its second read |
| `RefreshAnswers.NextIsBound` | src/lib/authSessions.ts:292-309 | the replacement is bound to the record's user, session and device, or where there was none to the request's, and lives for the lifetime |
| `RefreshAnswers.LoginBinds` | src/lib/authSessions.ts:120-128 | a login adds one record, bound to its user, device and session, for the lifetime, and changes no other |
| `RefreshAnswers.LogoutRevokesItsSession` | src/lib/authSessions.ts:220-234 | a logout revokes the live records of its session, and every other record stays as it is |
| `RefreshAnswers.LogoutFromToken` | src/lib/authSessions.ts:206-234 | so from the token presented: an undisturbed logout revokes exactly the live records of its session |
| `RefreshAnswers.LegacyLogoutRevokesBoth` | src/lib/authSessions.ts:220-248 | a logout of a record without a session revokes it and the live end of its chain, and no others |
| `RefreshAnswers.DeviceRevocationIsExact` | src/lib/authSessions.ts:250-290 | a device revocation revokes the user's live records of those devices, and every other record stays as it is |
| `Calls.ParticipantsKeepSockets` | src/realtime/socket.ts:537-552 | participants never have an empty socket set, and adding a socket is undone by removing it |
| `DirectCalls.RecordsNeverExceedCalls` | src/realtime/socket.ts:1787-2225 | over all interleavings every installed call is current, about to be recorded or settled, and only one of these; so the missed and ended messages never exceed the calls installed |
| `DirectCalls.StepKeepsBooks` | src/realtime/socket.ts:1787-2492 | each step keeps: no two messages consume the same call, and no installed call is lost track of |
| `DirectCalls.DeclineIsRecorded` | src/realtime/socket.ts:2082-2107 | under every schedule a declined call is over for good, and its missed message is written once or its write has failed |
| `DirectCalls.ClaimSettlesOnce` | src/realtime/socket.ts:1025-1081 | whatever a handler takes out of the table is settled once, whatever is interleaved with it |
| `DirectCalls.RingOutIsRecorded` | src/realtime/socket.ts:1098-1150 | under every schedule a call that rings out becomes accepted if both sides are in it, and else is over for good with one missed message |
| `DirectCalls.RacingEndsRecordOnce` | src/realtime/socket.ts:2109-2225 | any number of hang-ups, in any order and interleaved with anything: the call is over for good with one message, by the one that took it |
| `DirectCalls.PendingIsStable` | src/realtime/socket.ts:1787-1878 | no step changes inviter, socket, video flag or start of a pending call, and an accepted call never becomes pending again |
| `DirectCalls.GlareIsSafe` | src/realtime/socket.ts:1834-1878 | while a call stays pending its entry is the same, under any interleaving of invites |
| `DirectCalls.SameSerialSameCall` | src/realtime/socket.ts:1878-1878 | an entry is one call for its whole life |
| `DirectCalls.RunKeepsRing` | src/realtime/socket.ts:1098-1159 | in every run a pending call has an armed ring timer or an invite about to arm it, exactly if it is not among those a hang-up left without |
| `DirectCalls.OnlyEndDisarms` | src/realtime/socket.ts:2128-2162 | per step: a pending call loses its backstop exactly when a hang-up that had found no call goes on and no invite is about to arm a timer |
| `DirectCalls.DisarmedFollows` | src/realtime/socket.ts:1098-1159 | and gets it back exactly when an invite arms one |
| `DirectCalls.EndCanDisarmRing` | src/realtime/socket.ts:2128-2162 | that exception occurs: a run that ends with a pending call, nothing in flight and no timer |
| `DirectCallSteps.CalleeAccepts` | src/realtime/socket.ts:1981-2040 | the callee's accept makes the call accepted at once, clears both timers, and then both are in the call with their sockets |
| `DirectCallSteps.OthersDoNotAccept` | src/realtime/socket.ts:1985-1989 | an accept by the inviter, or without a call, changes nothing |
| `DirectCallSteps.BecomesAcceptedIff` | src/realtime/socket.ts:1098-2257 | a call that rings becomes accepted exactly by somebody else's accept or join, or by ringing out with both in it |
| `DirectCallSteps.EndsIff` | src/realtime/socket.ts:1025-2225 | a call ends exactly by being declined, rung out, left before anyone was in it, given up after its inviter was gone, or by a handler that ends it getting past its await |
| `DirectCallSteps.WhatIsSaid` | src/realtime/socket.ts:1025-2225 | which message the end of a call leaves: missed, ended, or none |
| `DirectCallSteps.InCallIff` | src/realtime/socket.ts:1981-2492 | over every step: a socket is in the call exactly if the step brings it, or it was there and is not taken out |
| `DirectCallSteps.EndEndsCall` | src/realtime/socket.ts:2109-2225 | an undisturbed hang-up leaves no call, nobody in it, no timer, and the right message to be written |
| `DirectCallSteps.RingAfter` | src/realtime/socket.ts:1015-1160 | over every step: the ring timer is armed by an invite only, and cleared by what answers or ends the call only |
| `DirectCallSteps.GraceAfter` | src/realtime/socket.ts:1060-1192 | over every step: when the grace timer is armed, for whom, and when it is cleared |
| `GroupCalls.AloneTimerIsRight` | src/realtime/socket.ts:1193-1225 | at every yield point, with the grace timer of a dropped inviter among the steps: an armed alone-timer means an active call with exactly one user, one user without a timer means a first invite in flight, and nobody takes part without a socket |
| `GroupCalls.LoneCallEndsInTime` | src/realtime/socket.ts:1213-1222 | from the first moment a lone user is settled in a call, nobody stays alone in it for more than five minutes |
| `GroupCallSteps.AutoEndEndsCall` | src/realtime/socket.ts:1213-1220 | five minutes alone end the call: no entry, nobody in it, no timer |
| `GroupCallSteps.TimeGoesOn` | src/realtime/socket.ts:1193-1225 | from every reachable state a run of the clock and the due timers alone reaches every later time, so the bound is not kept by a clock that stands still; a call with one user is over by then |
| `GroupCallSteps.EntryIff` | src/realtime/socket.ts:945-961 | over every step: a call exists from its announcement to its end |
| `GroupCallSteps.InCallIff` | src/realtime/socket.ts:1896-2463 | over every step: a socket is in the call exactly if the step brings it, or it was there and is not taken out |
| `GroupCallSteps.AloneAfter` | src/realtime/socket.ts:1193-1225 | over every step: a running alone-timer is the one that ran before, or one that starts now |
| `GroupCallSteps.FirstJoinStartsCall` | src/realtime/socket.ts:2225-2330 | the first to join without a call announces it and is in it, alone and with the timer on |
| `GroupCalls.Conversation.SyncGroupAloneTimer` | src/realtime/socket.ts:1193-1225 | afterwards the timer is armed exactly if one user is in the call, and one that was armed keeps its start |
| `GroupCalls.Conversation.FinishGroupCall` | src/realtime/socket.ts:945-961 | everything of the call is cleared before the first await |
| `GroupCalls.Conversation.RoomLeave` | src/realtime/socket.ts:2334-2394 | exactly that user's socket is gone; without a call no entry is left, and with one somebody is in it and the timer is armed exactly if that is one user; it is the leave step of the machine |
| `GroupCalls.Conversation.RemoveParticipant` | src/realtime/socket.ts:543-552 | exactly that socket is gone, and the users left are exactly those with a socket |
| `GroupCalls.Conversation.RoomJoin` | src/realtime/socket.ts:2309-2326 | exactly that socket is added, and the timer is armed exactly if one user is in the call |
| `Presence.WriteLandsInTime` | src/realtime/socket.ts:653-710 | in no run does the stored status stay behind the latest observed one for more than 120000 ms, except between the halves of a reconciliation or after one was overtaken; the write that ends it stores the latest status |
| `Presence.RunKeepsInv` | src/realtime/socket.ts:653-710 | the invariant behind it, with reconciliation as two steps: a divergence has a flush, due in time, exactly if it was not made by an overtaken reconciliation |
| `Presence.OvertakenBegins` | src/realtime/socket.ts:763-777 | a divergence without a flush begins exactly when a reconciliation notes OFFLINE after something newer has been stored with no flush pending |
| `Presence.OvertakenStays` | src/realtime/socket.ts:763-777 | and ends exactly with a newer status or another reconciliation |
| `Presence.ReconcileCanLoseStatus` | src/realtime/socket.ts:763-777 | it occurs: a run that ends with the user stored ONLINE, noted OFFLINE, no flush, and going offline unnoticed |
| `PresenceSteps.WrittenIff` | src/realtime/socket.ts:653-710 | exactly which steps write the status column, and with what: at once when going offline, coming back, the first time, or 120000 ms after the last write; else by the flush |
| `PresenceSteps.FlushAfter` | src/realtime/socket.ts:680-710 | when the flush is due: 120000 ms after the last write, at least 1000 ms from now |
| `PresenceSteps.TimeGoesOn` | src/realtime/socket.ts:653-710 | from every reachable state a run of the clock and the flush alone reaches every later time, with the status stored that waited for a flush due by then |
| `Presence.User.PersistPresenceToDb` | src/realtime/socket.ts:653-678 | the status is noted, and stored at once or by a flush within the interval; going offline, coming back and a first status are stored at once, a repeated one changes nothing |
| `Presence.User.OnFlush` | src/realtime/socket.ts:680-710 | the flush stores the latest status |
| `SecretInbox.EnqueueIsIdempotent` | src/lib/secretInbox.ts:104-115 | an enqueue appends exactly when the pair has not been seen, leaves other inboxes alone, and repeated at once changes nothing |
| `SecretLifetimes.EnqueuedFor` | src/lib/secretInbox.ts:104-136 | at any later time: an enqueued message is in the inbox for 604800 s, counts as seen for as long, and its payload is cached for its own time to live |
| `SecretLifetimes.CachedByRequest` | src/lib/secretInbox.ts:66-149 | the time to live is the request's, between 60 s and 604800 s, and an hour if it gives none |
| `SecretLifetimes.OthersKeepTheirTime` | src/lib/secretInbox.ts:104-136 | and nothing else is in the inbox, seen or cached for longer or shorter than before |
| `SecretLifetimes.InsertedStays` | src/lib/secretInbox.ts:104-177 | in every run, a message inserted and neither acked nor dropped since is in the inbox as long as the clock is less than 604800 s past its insertion |
| `SecretLifetimes.RepopulatedFor` | src/routes/secret.ts:240-269 | a payload found in the table is cached again for an hour, if it was missing |
| `SecretInbox.Redis.EnqueueSecretMessages` | src/lib/secretInbox.ts:100-149 | the loop over the script, and its results |
| `SecretInbox.Redis.AckSecretInbox` | src/lib/secretInbox.ts:162-177 | every occurrence of the ids leaves that device's inbox, the others keep their order, and no other inbox changes |
| `SecretInbox.Redis.MarkSecretSeen` | src/lib/secretInbox.ts:199-211 | exactly the listed pairs that had not been seen get a new marker, with the full time to live; all others keep theirs |
| `SecretDelivery.AnswerPull` | src/routes/secret.ts:214-269 | the loops of a pull: what is served and what is dead, in inbox order |
| `SecretDelivery.OneInsertionPerWindow` | src/lib/secretInbox.ts:104-115 | in every run of pushes, sends, retries, pulls, acks and clock steps no pair is inserted twice within seven days |
| `SecretDelivery.InboxKeepsOrder` | src/lib/secretInbox.ts:104-177 | no step reorders an inbox; a retry changes nothing |
| `SecretDelivery.NothingPushedIsDropped` | src/routes/secret.ts:387-448 | every id in an inbox has its delivery row unless a send enqueued it without one, and no pull, however it interleaves, finds any other id dead |
| `SecretDelivery.RowLessIff` | src/routes/secret.ts:104-163 | a send enqueues a pair without a row exactly when its message was stored for others only, earlier or earlier in the same request |
| `SecretPushes.SendStores` | src/routes/secret.ts:104-140 | a send stores each new message as its first envelope says, with a row for that receiver alone |
| `SecretPushes.PushIsRead` | src/routes/secret.ts:338-448 | a push that runs to its end is read: a receiver who has not seen the message and then reads the inbox to its end gets it last, once, with the payload pushed or left in the cache by an earlier push |
| `SecretPushes.AckMarks` | src/routes/secret.ts:294-312 | after an ack exactly the acked messages, and those seen before, count as seen |
| `SecretRounds.PullCompletes` | src/routes/secret.ts:205-273 | a pull that nothing interrupts answers with the payload of every id at the head that resolves, in order, takes exactly the others out, and changes what no id resolves to |
| `SecretRounds.ServedAndDead` | src/routes/secret.ts:240-269 | the ids served are those that resolve through the cache or the device's rows, and the dead ones are all others |
| `SecretRounds.RoundAnswersHead` | src/routes/secret.ts:205-330 | a pull and an ack of what it returned take exactly the head out of the inbox |
| `SecretRounds.RoundsDeliverAll` | src/routes/secret.ts:205-330 | from every state of the machine, rounds of pull and ack empty the inbox, and the answers hold the message of every id that resolves, once and in enqueue order, whatever the limits |
| `SecretRounds.EveryIdIsDelivered` | src/routes/secret.ts:387-448 | where nothing was enqueued without a row, that is every id in the inbox |
| `SecretRounds.ReadAllIsRun` | src/routes/secret.ts:205-330 | reading to the end is a run of the delivery machine |
| `SecretRounds.RoundLeavesTail` | src/lib/secretInbox.ts:151-160 | a round leaves the tail without the head's ids, strictly shorter if there was anything |
| `Keyset.PageCovers` | src/routes/conversations.ts:1009-1058 | a page holds the newest visible rows under the cursor, in order, and its cursor separates them from the rest |
| `Keyset.NothingExpiredIsReturned` | src/routes/conversations.ts:978-1007 | no page has a message that has expired, or one at or above the cursor |
| `Keyset.PageIsFull` | src/routes/conversations.ts:1009-1058 | a page has as many messages as asked for unless it has all there are, and a cursor comes back exactly if it has not all |
| `Keyset.PagesDescend` | src/routes/conversations.ts:1009-1058 | whatever happens to the table between requests, nothing is returned twice |
| `Keyset.NothingIsHidden` | src/routes/conversations.ts:1009-1058 | a message that stays is returned, also when others come and go |
| `Keyset.UnchangedTableOnce` | src/routes/secret.ts:662-670 | over an unchanged table the pages up to the null cursor are exactly the visible rows in (createdAt, id) descending order |
| `Keyset.PagesAreBounded` | src/routes/conversations.ts:1009-1058 | the null cursor has come once there are more pages than visible rows |
| `Keyset.ReadingEnds` | src/routes/conversations.ts:1009-1058 | from wherever a client has got to, and with whatever limits, reading on reaches the null cursor |
| `Keyset.CursorRoundTrip` | src/routes/conversations.ts:986-999 | a cursor reads back as the key it was made from |
| `Keyset.SecretCursorRoundTripIff` | src/routes/secret.ts:644-652 | the secret history reads its cursor back exactly when the id has no bar in it |

## Left out

- UploadThenDownload: non-empty files only, because for an empty EBP2 object the route announces a Content-Length of 1 and sends nothing; totalSize is at most 2^52, which a chunk size of 1 MiB and 32-bit chunk indices allow; EBP1 uploads need a key without white space at its ends, because the recorded AAD is trimmed.
- SendEbp2Object: metadata whose sizes parseInt cannot read, a negative size and a chunk size below 1 are not modelled; no upload writes them.
- Get: unencrypted objects, HEAD and OPTIONS requests, cache headers and the `?thumb` variant; an EBP2 object is taken to read as some file, which StoredIsReadable gives for an honest store and IdealIsReadable for any.
- ResolveActive: on a table that does not change during the walk; for walks inside a run see RefusalHasCause and RaceHasOneWinner.
- RemapOneAttachment: absolute URLs are taken after the URL parser, as the part behind `/api/files/`; query strings and the reported size are left out.
- DeletionMatchesServingIff: URLs without empty segments only, since the deletion drops those before it decodes, and prefixes that are not empty and have no further slash at an end once one is taken off either; object-store style public URLs are left out.
- SearchesAgreeIff: prefixes that have no further slash at an end once one is taken off either.
- LogoutEndsSession: a logout of a legacy record without a session revokes only the two tokens it has read, so it is modelled but nothing permanent is claimed for it.
- RaceHasOneWinner: white space around token ids, the client name and the JWT itself are left out.
- RecordsNeverExceedCalls: an upper bound on messages, since leaving a room, overwriting an accepted entry or a failed write ends a call without one; the settled calls are counted exactly.
- PendingIsStable: the throttle on repeated invites may refuse any invite while a call is tracked, whatever the time.
- AloneTimerIsRight: says nothing about which users are in the call, since two concurrent first joins overwrite each other.
- WriteLandsInTime: a failing database write is not modelled.
- LoneCallEndsInTime: the time from the moment the timer could be armed; before it a first invite may be writing its message, which takes as long as the database does.
- RoundsDeliverAll: one reader at a time and no clock step meanwhile; what interleaved pulls may find dead is NothingPushedIsDropped.
- RowLessIff: the transaction that stores a request's messages is one step, in which a message that exists is skipped, as the handler means it to be.
- PushIsRead: with nobody else at work between the push and the reading; what holds under any interleaving is InsertedStays and NothingPushedIsDropped.
- ParsedIsSelected: numbers of 309 digits and more, which JavaScript reads as infinite, make a header that is refused.
- OneInsertionPerWindow: the inbox list itself expires seven days after the last push to it, and the messages in it are then found through history only.
- UnchangedTableOnce: cursors without a bar, which older clients send, are left out.
- Cipher, UTF-8, percent-encoding, date formatting and collation are parameters with the axioms named above.
- Storage backends, file system, Redis and database failures, isolation below one statement.
- Socket.IO rooms, emitted events, cluster adapter and call encryption keys.
- Sizes from 2^53 on, where JavaScript numbers are no longer exact.
- Link previews, search, rate limits, admin lists, migrations: no hard state.
