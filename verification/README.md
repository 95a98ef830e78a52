# Throughline: a Dafny model of its guarantees

Throughline keeps untrusted source text, commands, audit events and outbox notifications in one
PostgreSQL database and promises that nothing is lost, doubled or shown to the wrong reader. This
project models the code that carries those promises and proves them for every input, every run and
every interleaving.

- **Source text** (`Utf16`, `Chunker`, `ExcerptCheck`). UTF-16 strings, `Array.from`, the scalar-string
  test, the greedy chunker, its reconstruction check, and the web application's own copy of the
  chunk walk.
- **Canonical JSON and envelopes** (`KeyOrder`, `CanonicalJson`, `JsonReader`, `CanonicalRoundTrip`,
  `ShortestText`, `Envelopes`, `EnvelopeAcceptance`, `EnvelopeCodec`, `SentText`). The canonical
  printer, an independent reader for JSON text (after RFC 8259), the envelope parser, and an
  envelope's life as table columns and as a message. Key order follows section 3.2.3 of RFC 8785.
- **The product outbox** (`ErrorCodes`, `ProductOutbox`, `OutboxProtocol`, `OutboxTheorems`,
  `OutboxLeases`). Rows, leases and handles; the repository and relay as classes; and a state
  machine over every interleaving of inserts, claims, publishing transactions that lock, send, mark
  and commit or crash, and failure reports.
- **Authorization over the Space tree** (`SpaceGrants`, `AuthorityRules`, `AuthorityBatch`). Grant
  inheritance stated three ways, and the batch that reads, share-locks, reads again and compares
  while other transactions write. `history(i)` is the database as statement `i` sees it.
- **Exactly-once commands** (`CommandRequests`, `Commands`). Which requests count as the same, and
  every interleaving of command transactions that reserve, write, complete and commit or abort.
- **Source corrections** (`SourceCorrection`). Lock, search again, insert, with statement-level
  snapshots; supersession chains; tombstones.
- **Runners** (`Consumer`, `Migrations`). The SQS consumer with two timers and an abort signal, and
  the migration runner with its journal.
- **UUIDs** (`UuidV7`), after section 5.7 of RFC 9562.

Where the source changes state in place the model has a class or a loop, proved to do what a
function says; the laws are lemmas about that function. Concurrency is modelled at the level of SQL
statements and callbacks: a row lock, a unique-index wait or an `await` is a step that is enabled or
not. A transaction commits as a whole or not at all.

Some expectations one might have of the code do not hold as they stand. Each has a witness and its
exact condition:

- Printing then reading a value back fails for sparse arrays, and only for them
  (`CanonicalRoundTrip.SparseArrayCollides`, `CanonicalRoundTrip.RoundTrip`).
- After the consumer returned "deleted", a terminal reason may still be assigned: exactly when a
  visibility extension is in flight at that moment (`Consumer.LateReasonExactly`,
  `Consumer.ReasonSetAfterDeleted`).
- An authority batch does not lock the rows that say which Space a resource is in. Of the requests a
  batch allowed, exactly the reads of Spaces stay allowed whatever is written while the locks hold
  (`AuthorityRules.OnlySpaceReadsLast`); a whole allowed batch whose relationship then moves is in
  `AuthorityBatch.ScopeRowsAreNotLocked`.
- A code-unit-sorted journal prefix with times that never decrease may still be refused: exactly
  when files applied in the same millisecond are ordered otherwise by the locale comparison
  (`Migrations.ChronologyCheckIsExact`, `Migrations.TiesCanRefuse`), or when the B1 files present are
  not the first of their fixed list (`Migrations.B1ChecksNeverDecide`).
- Normalizing a failure code twice changes it exactly when the first cut falls right behind an
  underscore (`ErrorCodes.NormalizingTwice`, `ErrorCodes.NormalizingTwiceCanChange`).

Parameters stand for what the model does not look into: the hash functions (injective where a
result needs it, arbitrary elsewhere), the white-space class, the event catalog, the set of
deterministic SQS rejections, the locale comparison of file names, the fixed list of B1 migrations,
clocks, random bytes and tokens, answers of the queue and of the authorization service, and what the
jsonb type makes of the text it is given (the same value, members in any order).

## Model

| member | source | states |
|---|---|---|
| Utf16.IsUnicodeScalarString | packages/core-types/src/trust-primitives.ts:26-39 | The index loop accepts a string exactly when every surrogate in it has its partner beside it. |
| Utf16.MatchOnScalarBoundary | apps/web/lib/assisted-objective.ts:307-311 | In well-formed text a match of a non-empty well-formed part starts and ends between scalars (D91), so counting scalars before it finds its offset. |
| Chunker.ChooseBoundary | packages/content/src/source-text.ts:144-155 | The three backward scans find the boundary of the window, as BoundaryMeaning describes it. |
| Chunker.BoundaryMeaning | packages/content/src/source-text.ts:144-155 | The boundary, and nothing else, ends at the last blank line, failing that the last newline, failing that the last white space, failing that the end of the window. |
| Chunker.AssertChunkReconstruction | packages/content/src/source-text.ts:114-142 | Accepts exactly the ordered, gapless partitions of a well-formed text with matching texts and digests. |
| Chunker.PartitionIsLossless | packages/content/src/source-text.ts:135-141 | The texts of a partition join to the whole text, so the last two tests cannot fail. |
| Chunker.ChunkNormalizedSource | packages/content/src/source-text.ts:70-96 | Succeeds exactly on non-empty, NUL-free, well-formed text; the chunks partition it in order, hold 1 to 2000 scalars each and join to the text; one that starts at most 2000 scalars before the end takes the rest, and every other ends at the last blank line, else newline, else white space of its 2000 scalars, else at 2000. |
| Chunker.ChunkingIsDetermined | packages/content/src/source-text.ts:74-93 | A partition is the one the chunker returns exactly when every chunk ends so: the contract leaves no choice. |
| Chunker.SuffixLocality | packages/content/src/source-text.ts:74-93 | Chunking the suffix from any chunk boundary gives the remaining chunks with shifted offsets and indices. |
| Chunker.AppendLocality | packages/content/src/source-text.ts:74-93 | Appending text changes no chunk except possibly the last. |
| ExcerptCheck.WalkAgreesWithServer | apps/web/lib/assisted-objective.ts:314-324 | The web walk, which may stop early, finds a chunk exactly when the server has one holding the interval. |
| ExcerptCheck.IsExcerptWithinCanonicalChunk | apps/web/lib/assisted-objective.ts:306-325 | True exactly when the first occurrence of the excerpt lies inside one chunk of the server's chunking. |
| ExcerptCheck.CountOccurrences | apps/web/lib/assisted-objective.ts:344-354 | Counts overlapping occurrences, no further than the limit. |
| ExcerptCheck.AdviseOnCandidate | apps/web/lib/assisted-objective.ts:97-112 | A candidate is suggested exactly when it occurs once and that occurrence lies inside one server chunk; it is ambiguous exactly when it does not occur once. |
| ExcerptCheck.UniqueInsideIsQuoted | apps/web/lib/assisted-objective.ts:99-104 | A suggested well-formed excerpt is a contiguous part of the text of one server chunk. |
| KeyOrder.SortForgetsOrder | packages/core-types/src/domain-notification.ts:524-526 | Two member lists with distinct keys sort to the same list exactly when they have the same members. |
| KeyOrder.SortIsByCodeUnit | packages/core-types/src/domain-notification.ts:524-526 | Sorting keeps the members and puts them in order of the first code unit in which their keys differ, a proper prefix first. |
| CanonicalRoundTrip.RoundTrip | packages/core-types/src/domain-notification.ts:502-528 | Every accepted value prints, and reading the text gives the value back up to key order exactly when no array in it is sparse. |
| CanonicalRoundTrip.SparseArrayCollides | packages/core-types/src/domain-notification.ts:521-523 | A sparse array and the empty array print alike. |
| CanonicalRoundTrip.EqualTextsMeanSameValues | packages/core-types/src/domain-notification.ts:502-528 | For values without sparse arrays, equal canonical texts mean equal values, and values that differ only in member order print identically. |
| CanonicalRoundTrip.SerializedTextWellFormed | packages/core-types/src/domain-notification.ts:506-528 | The printed text is well-formed UTF-16, whatever strings are in the value, so hashing its UTF-8 bytes loses nothing. |
| ShortestText.CanonicalTextIsShortest | packages/core-types/src/domain-notification.ts:502-528 | Of all well-formed texts that read as the value with its members in key order none is shorter than the canonical text, and one of that length differs only in upper-case hexadecimal digits: nothing is escaped without need. |
| ShortestText.OrdinaryStringsPrintAsThemselves | packages/core-types/src/domain-notification.ts:506-508 | A well-formed string without quotes, backslashes and control characters is printed as it is between quotes. |
| EnvelopeAcceptance.AcceptedExactly | packages/core-types/src/domain-notification.ts:184-260 | An input is accepted exactly when an envelope says the same field by field, letter case of UUIDs aside, within the bounds of each field; that envelope is the result. |
| EnvelopeAcceptance.PayloadAcceptedExactly | packages/core-types/src/domain-notification.ts:184-260 | A payload is accepted exactly when it has no unknown key and each known field passes its rule or is optional and absent; what the rules keep of its fields is what results. |
| Envelopes.ApplyTwice | packages/core-types/src/domain-notification.ts:559-602 | Checking and normalizing a field a second time changes nothing. |
| Envelopes.SamePayloadParses | packages/core-types/src/domain-notification.ts:184-260 | A payload equal to a parsed one up to member order parses to that very payload. |
| Envelopes.ColumnsRoundTrip | packages/db/src/product-outbox-repository.ts:377-395 | A parsed envelope written to columns reads back as itself, however the jsonb column reordered the payload. |
| Envelopes.EqualEnvelopeTexts | packages/db/src/product-domain-repositories.ts:428-436 | Two parsed envelopes have the same canonical text exactly when they are equal, so the replay comparison compares everything. |
| EnvelopeCodec.EnvelopeCodecIsLawful | packages/db/src/product-domain-repositories.ts:359-399 | The code's parser, columns and printer keep the laws the outbox rests on: what is written is read, and texts identify envelopes. |
| EnvelopeCodec.TextOfParsed | packages/core-types/src/domain-notification.ts:498-500 | Serializing a parsed envelope gives the text its original input would have got. |
| SentText.SentTextParsesBack | packages/core-types/src/domain-notification.ts:498-500 | The text of an accepted input reads as JSON, and parsing what is read as an envelope gives that very envelope: every field under its own key. |
| ErrorCodes.ReportedCodesAreAccepted | apps/outbox-relay/src/product-relay.ts:324-333 | For every error name the product relay's code matches the safe-code pattern and the Foundation relay's has an accepted length. |
| ErrorCodes.CodeSpellsTheName | apps/outbox-relay/src/relay.ts:244-253 | A code spells the letters and digits of the name in lower case, all of them unless it fills the limit; it is the fallback when there are none. |
| ErrorCodes.CleanedKeepsWords | apps/outbox-relay/src/product-relay.ts:324-333 | Up to the cut, the code has the name's letters and digits in lower case in the name's words, which start behind a separator and where upper case follows lower case or a digit; single underscores tell words apart. |
| ErrorCodes.NormalizingTwice | apps/outbox-relay/src/product-relay.ts:324-333 | Normalizing a code again changes it exactly when the cleaned name is longer than the limit and has an underscore at the last place kept. |
| ErrorCodes.NormalizingTwiceCanChange | apps/outbox-relay/src/product-relay.ts:324-333 | Ninety-nine letters, an underscore and a letter are such a name. |
| ErrorCodes.FoundationDelayIsAccepted | apps/outbox-relay/src/relay.ts:255-257 | For every attempt number the delay is accepted by recordRetry, lies in 1 to 256 seconds, never decreases, and doubles up to the ninth attempt. |
| ErrorCodes.ClassificationMeaning | apps/outbox-relay/src/product-relay.ts:278-286 | A failure is deterministic exactly when its name, or the fallback for a missing or empty one, is among the certain rejections; its code is always accepted. |
| ProductOutbox.StoredRowsGetHandles | packages/db/src/product-outbox-repository.ts:348-375 | A claim of a stored row always yields a valid handle that carries the stored envelope and matches the row. |
| ProductOutbox.ReplayMatchesExactly | packages/db/src/product-domain-repositories.ts:428-436 | The replay test passes exactly for the stored envelope, relay and policy. |
| ProductOutbox.ChooseNext | packages/db/src/product-outbox-repository.ts:149-165 | Picks the first eligible unlocked row by next attempt, creation and id, and finds one whenever there is one. |
| ProductOutbox.ProductOutboxRepository.ClaimNext | packages/db/src/product-outbox-repository.ts:123-190 | Refuses bad input unchanged; otherwise ends sixth claims that ran out as unconfirmed and claims the first due unlocked row for the seconds asked, if there is one; every row that is settled, another relay's, not yet due or under a live lease stays as it is, unless the clock runs backwards between its two statements. |
| ProductOutbox.ProductOutboxRepository.PublishClaimed | packages/db/src/product-outbox-repository.ts:192-264 | Gets past the claim check only under a live lease of the handle's own claim; the row is published exactly when the claim was admitted, acknowledged, still live at the mark and committed; the answer is an acknowledgment or the exact error; "published" is answered only for a published row, and "unresolved" for one only when neither commit nor lookup answered. |
| ProductOutbox.ProductOutboxRepository.RecordFailure | packages/db/src/product-outbox-repository.ts:266-307 | Refuses foreign handles and unsafe codes unchanged; else a row still held by the handle loses its lease and waits 1, 5, 30, 120 or 600 seconds below the sixth attempt and ends as the failure kind says at the sixth; any other claim is already settled; no other row changes. |
| ProductOutbox.ProductOutboxRepository.Insert | packages/db/src/product-domain-repositories.ts:359-438 | Adds a pending unclaimed row carrying the envelope exactly when neither its semantic key nor its id is there; answers a replay exactly of the row holding this very envelope for this relay and policy; otherwise changes nothing. |
| ProductOutbox.ProductOutboxRelay.PublishClaimed | apps/outbox-relay/src/product-relay.ts:78-103 | A normal answer means the mark took effect with the id the publisher gave; an unresolved one reports the claim unless the mark took effect; rejected and unauthorized calls change nothing; any other failure is recorded under its own classification. |
| ProductOutbox.ProductOutboxRelay.PublishNext | apps/outbox-relay/src/product-relay.ts:69-76 | One claim round as ClaimNext describes it; idle exactly when it takes no row; otherwise the call ends, from the claimed table, as the relay call on the new handle does. |
| OutboxProtocol.StepKeepsInv | packages/db/src/product-outbox-repository.ts:123-307 | Every step of every participant keeps the invariant, and changes a row only by a claim or by settling a claim. |
| OutboxTheorems.OneHolder | packages/db/src/product-outbox-repository.ts:205-223 | At most one issued handle of an event satisfies the lock predicate at a time. |
| OutboxTheorems.LockedRowMatches | packages/db/src/product-outbox-repository.ts:222-223 | The comparison after the lock never rejects a row the lock statement found. |
| OutboxTheorems.StaleHandlesStayOut | packages/db/src/product-outbox-repository.ts:266-307 | Fencing: once a claim is over, its handle can never publish again, and a failure report for it answers already settled and touches nothing, in every later state. |
| OutboxTheorems.SettledIsFinal | packages/db/src/product-outbox-repository.ts:134-186 | A published or terminal row never changes again. |
| OutboxTheorems.SixClaimsTwelveChanges | packages/db/src/product-outbox-repository.ts:155-168 | Over any run an event is claimed at most six times and changes at most twelve times. |
| OutboxTheorems.PublishedIsAcknowledged | packages/db/src/product-outbox-repository.ts:233-255 | A row is published only with a message id the publisher returned for that very attempt. |
| OutboxTheorems.PublishedIsNeverUndone | packages/db/src/product-outbox-repository.ts:257-263 | A publication found once is found in every later state, and a failure report after a false "unresolved" changes nothing. |
| OutboxTheorems.SentIsInserted | apps/outbox-relay/src/product-relay.ts:263-275 | Whatever is ever sent for an event is the canonical text of the envelope inserted for it. |
| OutboxTheorems.SentBodyIsCanonicalEnvelope | apps/outbox-relay/src/product-relay.ts:263-275 | With the code's own parser, columns and printer: the sent body equals the canonical form of the envelope given to insertOrReplay. |
| OutboxTheorems.ReceiverGetsInsertedEnvelope | apps/outbox-relay/src/product-relay.ts:263-275 | Whoever reads a sent message as JSON and parses it gets the envelope given to insertOrReplay. |
| OutboxTheorems.LockedRowStays | packages/db/src/product-outbox-repository.ts:205-221 | While a publishing transaction is open, no step of anyone changes its row. |
| OutboxTheorems.AtMostSixSends | apps/outbox-relay/src/product-relay.ts:69-76 | Driven by publishNext, every event is sent at most six times, in rising claim order. |
| OutboxTheorems.UnsettledRowsAreServed | packages/db/src/product-outbox-repository.ts:134-165 | Every unsettled unlocked row is, once the clock is a millisecond past its due time, swept, claimed, or preceded by a row that is claimed. |
| OutboxTheorems.WaitsBehindSixClaimsEach | packages/db/src/product-outbox-repository.ts:149-165 | Once a row is due, the claim transactions that find it waiting and do not serve it number at most the claims left to the rows before it, six for each, over any run. |
| OutboxLeases.ClaimStepIsRound | packages/db/src/product-outbox-repository.ts:134-172 | In every reachable state a claim transaction takes the first due row nobody locks, ends interrupted ones, and leaves alone what is settled, another relay's, not yet due or under a live lease. |
| OutboxLeases.OnlyLiveClaimsPublish | packages/db/src/product-outbox-repository.ts:205-246 | Publishing begins, and the mark is set, only while the lease of the handle's own claim runs. |
| OutboxLeases.LiveLeaseExcludesOthers | packages/db/src/product-outbox-repository.ts:155-161 | Until a lease ends, no run of any relays and inserters changes the row, unless its holder publishes it or reports a failure. |
| SpaceGrants.QueryMeetsRule | packages/authorization/src/authorization-service.ts:2146-2226 | On every forest the depth and boundary query finds a grant exactly when the recursive rule "direct grant, or inherit and parent reachable" does. |
| SpaceGrants.InheritedExactlyWithPath | packages/authorization/src/authorization-service.ts:2298-2329 | The query returns exactly the actor's grants for which the walk returns a path. |
| SpaceGrants.MayReadMeaning | packages/authorization/src/authorization-service.ts:2146-2226 | On every database, with cycles or without, the query lets a Space be read exactly when it is not archived and the role, its kind, or a grant at the end of an open path of parents allows it. |
| SpaceGrants.PathIsOpenChain | packages/authorization/src/authorization-service.ts:2323-2328 | A path is a chain of live parents from the target to the grant's Space, unrestricted below it. |
| SpaceGrants.RestrictedInheritsNothing | packages/authorization/src/authorization-service.ts:2262 | The extra test of the target's own mode is implied by the query. |
| SpaceGrants.PathDependsOnItsRows | packages/authorization/src/authorization-service.ts:2304-2328 | Changes to other Spaces, or above the grant, leave a path as it is. |
| SpaceGrants.CanReadSpaceResource | packages/authorization/src/authorization-service.ts:2138-2291 | Allows exactly what the rule allows; a token names a grant in force for the actor on that Space, the first direct one or a nearest inherited one. |
| AuthorityRules.RequestAllowedMeaning | packages/authorization/src/authorization-service.ts:936-972 | A request is allowed exactly when the Space may be read and, but for reads of Spaces, neither its row's class nor its Space's class is above the ceiling, and ending a relationship has an administrator or a grant better than a viewer's. |
| AuthorityRules.AuthorityLasts | packages/authorization/src/authorization-service.ts:385-435 | While the locks hold, at every later statement policy, actor and every recorded Space and grant row are unchanged, and each request is still allowed if its scope row reads the same. |
| AuthorityRules.OnlySpaceReadsLast | packages/authorization/src/authorization-service.ts:385-435 | A request of an allowed batch stays allowed in every continuation in which the locks hold exactly when it is the read of a Space. |
| AuthorityBatch.ScopeRowsAreNotLocked | packages/authorization/src/authorization-service.ts:982-1086 | A run from first to last statement in which both evaluations allow a batch, all recorded rows are locked and stay, and then only the scope row of the relationship moves: ending it is no longer allowed. |
| AuthorityBatch.Discovery.RecordSpace | packages/authorization/src/authorization-service.ts:2385-2399 | Keeps the first reading of a row; the discovery becomes inconsistent exactly when a later reading differs; nothing else changes. |
| AuthorityBatch.Discovery.RecordPath | packages/authorization/src/authorization-service.ts:2341-2346 | Records a path and all its rows, with the same rule. |
| AuthorityBatch.EvaluateSees | packages/authorization/src/authorization-service.ts:484-508 | Whatever others write, every recorded row was read by some statement of the evaluation, and every allowed request of a consistent evaluation is supported by recorded rows. |
| AuthorityBatch.EvaluateAdds | packages/authorization/src/authorization-service.ts:484-508 | In an unchanging database each verdict is the rule's, and exactly the rows it rests on are recorded. |
| AuthorityBatch.Evaluate | packages/authorization/src/authorization-service.ts:484-508 | The loop over the requests computes that evaluation. |
| AuthorityBatch.NormalizeRequests | packages/authorization/src/authorization-service.ts:438-476 | Accepts exactly the batches with one relationship to end and persons read at it, and keeps the same requests without repetition. |
| AuthorityBatch.TakeLocks | packages/authorization/src/authorization-service.ts:385-409 | Succeeds exactly when every locked row equals the expected one; then all of them are locked with those contents. |
| AuthorityBatch.LockAndReauthorize | packages/authorization/src/authorization-service.ts:325-436 | If the batch allows, both evaluations recorded the same rows, all of them are locked, policy and actor are active, each request is supported by recorded rows, and the final evaluation read every scope row with both classes within the ceiling; while nobody writes, it allows exactly when the rule in rows allows every request. |
| CommandRequests.CanonicalizePayload | packages/account-operations/src/command-schemas.ts:268-283 | Overwrites exactly the four id arrays by their sorted members without repetition. |
| CommandRequests.CanonicalIdsAreSets | packages/account-operations/src/command-schemas.ts:279-280 | Canonical arrays are equal exactly when the arrays have the same members. |
| CommandRequests.CanonicalIdsAreSorted | packages/account-operations/src/command-schemas.ts:279-280 | A canonical array holds the same ids, each once, in code-unit order. |
| CommandRequests.HashesTellRequests | packages/account-operations/src/domain-command-bus.ts:221-224 | Requests hash alike exactly when they are of one kind and their payloads differ at most in member order and in order and repetition within the four id arrays. |
| Commands.DomainCommandRepository.Reserve | packages/db/src/product-domain-repositories.ts:104-202 | Only a new key adds a record, reserved under the new id; a completed record is replayed exactly to its own identity, a reserved one named to it; everything else is refused and the table unchanged. |
| Commands.DomainCommandRepository.Complete | packages/db/src/product-domain-repositories.ts:204-255 | Succeeds exactly on the reserved record with this id, key and hash and a printable response; that record alone becomes completed, keeping id and identity. |
| Commands.PrintableResponseIsStored | packages/db/src/product-domain-repositories.ts:208-211 | A printable response is stored as itself up to member order. |
| Commands.Conservation | packages/account-operations/src/domain-command-bus.ts:211-1245 | In every committed state no command is left reserved, and completed commands, audit events and outbox events correspond one to one through the command id; from there a commit adds one of each and every other step nothing. |
| Commands.SameCallIsReplayed | packages/account-operations/src/domain-command-bus.ts:1483-1528 | A call that reserves, completes and commits, whatever others do meanwhile, leaves its own id, identity, resource, response and time on record; in every later state the same call gets that record, another identity a conflict, and nothing changes. |
| Commands.AtMostOneCompletion | packages/db/src/product-domain-repositories.ts:104-255 | Over any run with aborts anywhere, each key completes at most once. |
| Commands.SameRequestIsReplayed | packages/db/src/product-domain-repositories.ts:457-471 | A request that was carried out is replayed, in every later state, exactly to the same caller under the same policy with the same request; the record names that caller and request. |
| SourceCorrection.DeriveAccessClass | packages/content/src/repository.ts:615-621 | The derived class is one of the Space's, the requested and the predecessor's, and no lower than any of them. |
| SourceCorrection.SupersessionIsLinear | packages/content/src/repository.ts:372-421 | Under any interleaving, with the second statement or the unique constraint, every source has at most one successor, successors are younger and in the same Space, and access class never falls along a chain. |
| SourceCorrection.ConstraintNeverFires | packages/db/src/schema.ts:831 | In every run, at each insert and commit of a rechecked correction neither a committed source nor another transaction supersedes its target, so with and without the constraint the same steps are taken. |
| SourceCorrection.LockAloneIsNotEnough | packages/content/src/repository.ts:378-391 | With neither the second statement nor the unique constraint, two corrections that searched early both succeed. |
| SourceCorrection.LinearExactlyWhenGuarded | packages/content/src/repository.ts:395-415 | Supersession stays linear in all runs exactly when one of the two guards is there. |
| SourceCorrection.CorrectionIsKept | packages/content/src/repository.ts:291-331 | A correction that is inserted and commits leaves the text, Space and classes it was given as the one successor of a source not tombstoned before. |
| SourceCorrection.SourcesAreImmutable | packages/content/src/repository.ts:559-606 | A committed source changes by at most one tombstone, which takes its text and perhaps its hash and nothing else. |
| SourceCorrection.TombstoneIsKept | packages/content/src/repository.ts:559-606 | A tombstone that locks its row and commits, whatever others do in between, erases exactly the version it was asked to. |
| SourceCorrection.ChainLeadsToCurrent | packages/content/src/repository.ts:532-557 | The recursive query terminates at exactly one source without a successor. |
| SourceCorrection.MembersResolveAlike | packages/content/src/repository.ts:532-557 | Every member of a chain resolves to the same current source. |
| SourceCorrection.SuccessorResolvesAlike | packages/content/src/repository.ts:541-546 | A corrected source and its successor resolve to the same current source. |
| SourceCorrection.ContentRepository.TombstoneSource | packages/content/src/repository.ts:559-606 | Succeeds exactly on the expected version of a live source: no text and no chunks remain, the hash exactly if it is to be retained, one version on, all else and all other sources unchanged. |
| Consumer.ReceiveOne.FireExtension | apps/agent-worker/src/foundation-consumer.ts:137-159 | An extension goes in flight exactly while the run is active, without a reason and with time left; out of time it sets the deadline reason; it never writes a second reason, and keeps the invariant. |
| Consumer.ReceiveOne.ResumeAfterExtension | apps/agent-worker/src/foundation-consumer.ts:175-192 | A delete is requested exactly after a successful consume with no reason and time left; otherwise the run returns with its reason, else the failure or the deadline; the invariant is kept. |
| Consumer.ReceiveOne.FireDeadline | apps/agent-worker/src/foundation-consumer.ts:160-163 | Afterwards there is a reason, the earlier one if there was one, and the signal is aborted; nothing else changes. |
| Consumer.ReceiveOne.RejectExtension | apps/agent-worker/src/foundation-consumer.ts:154-157 | As the deadline with its own reason, before or after the return; nothing is returned or requested. |
| Consumer.ReceiveOne.ResolveDelete | apps/agent-worker/src/foundation-consumer.ts:196-199 | The run returns "deleted" exactly if no reason was set meanwhile, else that reason, with both timers cleared. |
| Consumer.ReceiveOne.HandleAll | apps/agent-worker/src/foundation-consumer.ts:104-205 | For every order of callbacks: at most one reason and one delete, the reported reason is the one at the return, and "deleted" means the delete resolved without one. |
| Consumer.OneTerminalReason | apps/agent-worker/src/foundation-consumer.ts:133-163 | For every order of callbacks the terminal reason is written at most once, and exactly when the signal is aborted. |
| Consumer.ReportedReasonIsTerminal | apps/agent-worker/src/foundation-consumer.ts:173-197 | The reason reported is the terminal reason, when one was set before the return. |
| Consumer.DeleteOnlyAfterConsume | apps/agent-worker/src/foundation-consumer.ts:180-192 | A delete is requested at most once, after consume succeeded, before the deadline and with no terminal reason. |
| Consumer.ExtensionIsAwaited | apps/agent-worker/src/foundation-consumer.ts:175-180 | An extension in flight when rehydrating or consuming ends has settled before anything is returned or deleted. |
| Consumer.DeletedMeansDeleted | apps/agent-worker/src/foundation-consumer.ts:188-199 | "Deleted" is returned only if the delete resolved and no terminal reason was set before the return. |
| Consumer.LateReasonExactly | apps/agent-worker/src/foundation-consumer.ts:154-157 | After "deleted" a terminal reason can still be assigned exactly when an extension is in flight. |
| Consumer.DeletedWithExtensionInFlight | apps/agent-worker/src/foundation-consumer.ts:145-199 | A run in which the extension is sent during the delete. |
| Consumer.ReasonSetAfterDeleted | apps/agent-worker/src/foundation-consumer.ts:145-199 | One run from the start that returns "deleted" and assigns the terminal reason afterwards. |
| Migrations.ChronologyCheckIsExact | packages/db/src/b1-catalog-contract.ts:45-53 | Sorting by time and locale leaves the ids where they are exactly when times never decrease and neighbours applied at the same time agree with the locale. |
| Migrations.ValidateJournal | packages/db/src/b1-catalog-contract.ts:25-68 | Accepts exactly the checksum-matching prefixes of the sorted files in non-decreasing time with agreeing ties, whose B1 rows are the first of the fixed list. |
| Migrations.B1ChecksNeverDecide | packages/db/src/b1-catalog-contract.ts:55-68 | The B1 checks refuse no journal the others accept exactly when the B1 files present are the first of their list. |
| Migrations.TiesCanRefuse | packages/db/src/b1-catalog-contract.ts:45-53 | Under a comparison that ignores case, a matching prefix in non-decreasing time that is refused. |
| Migrations.SublistOfPrefix | packages/db/src/b1-catalog-contract.ts:55-59 | The B1 rows of a journal that matches the files are the first of the B1 files present. |
| Migrations.RequestedAreThoseUpTo | packages/db/src/migrations.ts:67 | Filtering the sorted files by name keeps exactly the requested one and those before it in code-unit order, which are a prefix; without a name, or with an empty one, all. |
| Migrations.Database.ApplyMigrations | packages/db/src/migrations.ts:56-156 | However a run ends, the journal is a matching prefix and the schema is what that prefix makes; a successful run has skipped then applied the requested files, one that stops has recorded those before, and the one it stops at only if it crashed after its commit; a repeat applies nothing; the journal passes the next validation when the clock moves on, or does not run backwards and the locale agrees with the sorting, and the B1 files are the first of their list. |
| UuidV7.WriteUuidV7 | packages/account-operations/src/domain-command-bus.ts:1768-1779 | The byte loop writes the low 48 bits of the time big-endian, version 7 and variant 10, and leaves the other random bits. |
| UuidV7.GenerateUuidV7 | packages/db/src/product-relay-provisioning.ts:110-124 | Refuses exactly the times outside 48 bits and writes any other exactly. |
| UuidV7.TextSpellsBytes | packages/db/src/product-relay-provisioning.ts:122-123 | Read without its hyphens, two digits to a byte, the text gives back the sixteen bytes in order. |
| UuidV7.TextIsAccepted | packages/core-types/src/domain-notification.ts:569-572 | The text form is accepted by requireUuidV7 and left unchanged. |
| UuidV7.LaterIdsSortLater | packages/db/src/product-relay-provisioning.ts:115-123 | Ids of later milliseconds come later in lexicographic order, whatever the random bytes. |

## Left out

- The older relay's own tables (`RelayOutboxRepository.claimNext`, `publishClaimed`, `recordFailure`): the same fenced protocol without an attempt limit. Only its codes and delays are modelled.
- Failures of the relay's call to `recordFailure` itself, after which the relay classifies the new error and reports once more.
- SQL beyond the meaning of each cited statement: planning, row-level security, roles, column widths, catalog comparison; and the SQL migrations, which are not part of this model.
- Index waits other than on command keys and ids, and the order in which one statement locks several rows.
- The database clock and the application clock are parameters; nothing is claimed about how far apart they are.
- Floating-point printing: safe integers are printed digit by digit, other finite numbers are tokens of the JSON number grammar.
- Symbol keys, getters, proxies and cyclic values offered to the canonical printer.
- The table of event types, aggregate types and payload fields: a parameter, of which only distinct keys and leaf literals are assumed.
- Handle fields that repeat fields of the envelope inside the same frozen handle.
- NFC, carriage returns and the byte-order mark: text is taken as already normalized.
- Which lines of a source are candidate objectives: an abstract choice before `ExcerptCheck.AdviseOnCandidate`.
- Evaluation order within an authority batch: requests are kept in the order of their first occurrence instead of being sorted by key, and a request whose resource type does not fit its action cannot be written down.
- The lock modes of `canReadSpaceResource` outside a batch, and the authorization actions a relationship batch cannot contain.
- What a command does to the work graph: one transaction writes one effect, one audit event and one outbox event, as each of the ten commands does.
- Parsing of a stored command result, and mapping of a database error raised by a trigger.
- Content items and their revisions, and the verification of chunk rows already present.
- Migration runs with a reset, the order in which the database collation returns the journal rows (the code-unit order of the files), and the separate comparison of product catalogs: it is one of the faults a file can meet.
- Container start, AWS clients, tracing, environment parsing, scripts and zod schemas.
