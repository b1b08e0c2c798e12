# tfnet membership ledger: a Dafny model with proofs

tfnet keeps the membership of a private overlay in an append-only, hash-chained log. An entry
(GENESIS, ADD or REMOVE) is accepted only with the signatures of everyone who is a member after it,
and every host replays the log on its own and derives its WireGuard and FRR peers from the result.
This project models that ledger, the commands that feed it and the code that consumes it, and proves
what all hosts can rely on.

The library routines (SHA-256, Ed25519, base64, `netip`) are fields of a record `Primitives` that is
passed as a parameter `p`. No law about them is assumed: a theorem holds for every choice of these
functions, chain theorems name two different payloads with equal digests as the alternative, and the
one place that needs correct signatures (`Honest.HonestKey`) takes them as a hypothesis.

Go strings are byte sequences. Objects whose fields the code updates (`State`, the on-disk `Store`) are
classes; their methods have the loops of the code, and loops over Go maps pick any remaining key, so
each contract holds for every iteration order. A log is shorter than 2^64 entries where a theorem
says so, because the sequence number is a uint64 that wraps.

| module | models |
|---|---|
| `Bytes`, `Sorting` | big-endian integers, hexadecimal text, Go's string order and sorting |
| `Codec`, `Entries`, `Layout` | canonical payload, its decoder, entry hash, the payload byte by byte (`internal/ledger/entry.go`) |
| `States` | `State`, N-of-N rule, `Apply` (`internal/ledger/state.go`) |
| `Acceptance` | a second, independent definition of what Apply accepts, and their equivalence |
| `Runs` | replay as a fold; facts of every accepted log and of every accepted or rejected entry |
| `Membership` | unanimity and conservation over whole runs |
| `Forks` | what the tip hash determines; accountability for two diverging logs |
| `Pendings` | pending directories and concurrent signing (`internal/ledger/pending.go`) |
| `Stores` | the disk, replay, directory names (`internal/ledger/store.go`) |
| `Protocol` | propose, sign, merge, commit and crash as steps on the disk |
| `Commands`, `Proposals`, `Honest` | the ledger subcommands; what a proposal is and when it is refused; completeness of the honest flow |
| `Syncer`, `Render` | the member diff of sync and what a verified pull may do; WireGuard and FRR peers |
| `Witnesses` | concrete inputs for which the code does less than its comments promise |

Where the code and its documentation disagree, the model follows the code:

- `docs/signing-sequence.md:106` says a signature by the target of a REMOVE is rejected. The code accepts
  it exactly when it is valid (`Runs.TargetMaySign`).
- `internal/ledger/state.go:159-160` says an error leaves the state unchanged. That is proved for every
  reachable state; for an arbitrary State value there is one exception, stated exactly in
  `Runs.RejectedUnchanged` and shown to be real in `Witnesses.PartialGenesisExists`.
- `internal/ledger/pending.go:48-50` says two proposals at one sequence number get different directory
  names because their hashes differ. They do exactly when the hashes differ in the first six bytes
  (`Stores.SameDirectory`, `Witnesses.DifferentProposalsSameDirectory`), and no hash function keeps more
  than 256^6 proposals apart (`Stores.NamesRunOut`).
- `internal/ledger/state.go:36-37` says commit-time replay would catch an overlay collision that
  propose-add misses. propose-add compares the CIDR text and `Apply` compares nothing, so a host that is
  taken is accepted under another mask (`Witnesses.CollidingHostAccepted`); an accepted ADD keeps overlay
  hosts unique exactly when no member has its host (`Render.OverlayKept`, `Render.UniqueThroughout`).
- `ledger genesis` saves a specification that lists a node id twice, although no such entry is ever
  accepted (`Witnesses.DuplicateGenesisProposed`, `Runs.DuplicateGenesisRejected`).

## Model

| member | source | states |
|---|---|---|
| Bytes.BigEndianRoundTrip | internal/ledger/entry.go:107-109 | a number written big-endian reads back exactly when it fits the width |
| Bytes.HexRoundTrip | cmd/tfnet/cmd_ledger.go:699-707 | hex.DecodeString inverts hex32 |
| Bytes.MostSignificantFirst | internal/ledger/entry.go:82-84 | the first byte of a written number is the most significant |
| Bytes.HexDigits | cmd/tfnet/cmd_ledger.go:699-707 | each byte becomes two digits of "0123456789abcdef", high half first |
| Bytes.HexDecodable | internal/ledger/entry.go:85-91 | a prev hash decodes exactly when it has even length and only digits of either case |
| Bytes.LessAtDifference | internal/ledger/state.go:25-33 | sort.Strings order: the first difference decides, the smaller byte first, and a proper prefix comes first |
| Codec.LenStrRoundTrip | internal/ledger/entry.go:171-179 | a length-prefixed string reads back exactly when its length is below 2^32 |
| Codec.HeaderRoundTrip | internal/ledger/entry.go:80-91 | sequence number and prev hash read back from fixed offsets for contents of any size |
| Codec.DecodeEncode | internal/ledger/entry.go:80-179 | the decoder inverts the canonical encoding of all three operations |
| Codec.EncodeDecode | internal/ledger/entry.go:80-179 | whatever decodes is the encoding of what it decodes to, so the canonical form is the only form |
| Entries.WriteLenStr | internal/ledger/entry.go:171-179 | appends the length modulo 2^32 and the string |
| Entries.CanonicalSubject | internal/ledger/entry.go:137-169 | succeeds exactly on a well-formed subject and yields its bytes; which subjects and which bytes: Layout.PayloadExists, Layout.OneSubjectLayout |
| Entries.CanonicalPayload | internal/ledger/entry.go:80-133 | fails exactly on the malformed entries and otherwise yields the encoding of the signed content, subjects in node-id order |
| Layout.PayloadExists | internal/ledger/entry.go:80-157 | an entry has a payload exactly when its prev hash is the text of 32 bytes, it has the subject or subjects its operation needs, and each has an id, two keys of 32 bytes and a parsing overlay |
| Layout.OneSubjectLayout | internal/ledger/entry.go:80-169 | an ADD or REMOVE at every offset: seq, prev hash, operation text, id, decoded identity key, decoded WireGuard key, overlay, and nothing else |
| Layout.AddLayout | internal/ledger/entry.go:118-133 | the offsets of an ADD as plain numbers |
| Layout.GenesisLayout | internal/ledger/entry.go:93-116 | a GENESIS with distinct ids at every offset: header, count, then every subject in node-id order up to the end |
| Entries.ComputeHash | internal/ledger/entry.go:61-69 | SHA-256 of that payload |
| Entries.HexText | cmd/tfnet/cmd_ledger.go:699-707 | the array-filling loop produces the lower-case hexadecimal text |
| Entries.PayloadDecodes | internal/ledger/entry.go:80-133 | the payload decodes to sequence number, prev hash bytes, operation and the sorted subjects |
| Entries.SamePayloadSameContent | internal/ledger/entry.go:80-133 | equal payloads if and only if equal signed content, across the three operations |
| Entries.SamePayloadSameHeader | internal/ledger/entry.go:80-91 | equal payloads fix sequence number and prev hash with no bound on lengths |
| Entries.UnsignedFields | internal/ledger/entry.go:35-47 | approvals and endpoints are outside the payload |
| Entries.GenesisOrder | internal/ledger/entry.go:105-116 | permuting genesis subjects leaves the payload unchanged |
| Sorting.SortByUnique | internal/ledger/entry.go:105-106 | with distinct node ids every sorted arrangement is the same one, whatever algorithm sort.Slice uses |
| States.State.MemberIDs | internal/ledger/state.go:25-33 | the member ids in strictly ascending order, for every map order |
| States.State.MemberByOverlayIP | internal/ledger/state.go:35-45 | a member with that overlay, or empty when there is none |
| States.State.RequiredApprovers | internal/ledger/state.go:47-96 | the required set of each operation, and exactly when there is none |
| States.State.MissingApprovers | internal/ledger/state.go:98-113 | the required ids without an approval, ascending |
| States.State.PubkeysForVerify | internal/ledger/state.go:115-146 | the keys of the members, overlaid by those of GENESIS and ADD subjects; fails exactly when one does not decode |
| States.State.CheckApprovals | internal/ledger/state.go:187-208 | passes exactly when every required approval is there and every approval present is a candidate's and verifies (what verifying means: States.VerifiedMeans) |
| States.State.UpdateMembers | internal/ledger/state.go:210-225 | the new member map, and what the insert loop leaves when it returns midway |
| States.State.Apply | internal/ledger/state.go:159-229 | under every map order: accepts exactly by a closed-form predicate on old state and entry, with both post-states determined; both are said independently in Acceptance.AcceptsExactly and Acceptance.AppliedState |
| States.ApprovalVerifies | internal/ledger/state.go:187-208 | every approval of an accepted entry verifies under the key of the member it names or of the subject the entry brings in |
| States.VerifiedMeans | internal/ledger/state.go:231-243 | verified means: the key text decodes to 32 bytes, the approval to 64, and Ed25519 accepts them for the SHA-256 digest of the payload |
| States.MissingMeans | internal/ledger/state.go:98-113 | the missing list holds each required id without an approval once, ascending |
| States.PartialInsert | internal/ledger/state.go:210-217 | a clashing genesis leaves the members and exactly the subjects before the first clash |
| Acceptance.AcceptsExactly | internal/ledger/state.go:159-229 | for every state and entry, Apply accepts exactly the entries that continue the chain and carry verified approvals of exactly those who are members after it (for REMOVE, also of the target), in the entry's own fields |
| Acceptance.AppliedState | internal/ledger/state.go:210-229 | the state after: the subjects as listed are in, or the target is out, seq is one more, and the tip is the SHA-256 digest of the payload |
| States.RequiredAreCandidates | internal/ledger/state.go:187-194 | the key lookup of the verification loop never misses |
| Runs.ReplayAppend | internal/ledger/store.go:70-83 | a log extended by one entry replays exactly when that entry is accepted in the old final state, and then to the state Apply produced |
| Runs.WellFormedMembers | internal/ledger/entry.go:137-157 | in every reachable state map keys are the subjects' non-empty ids, keys decode and overlays parse; the member-key error of pubkeysForVerify is unreachable |
| Acceptance.ReachableMember | internal/ledger/entry.go:137-157 | the same of each member in plain terms: own non-empty id, both keys base64 of 32 bytes, overlay parses |
| Runs.ChainOfDigests | internal/ledger/entry.go:61-69 | each entry names the SHA-256 digest of the payload before it, the first one 32 zero bytes; the tip is the digest of the last payload |
| Runs.EmptyAtZero | internal/ledger/state.go:226-227 | sequence number = log length, and zero means the empty state |
| Runs.SeqIsIndex | internal/ledger/state.go:56-58 | entry i has sequence number i; GENESIS only at index 0 |
| Runs.RejectedUnchanged | internal/ledger/state.go:210-217 | on any state, a rejected entry leaves it unchanged if and only if it is not a genesis that passes all checks and clashes after its first subject |
| Witnesses.PartialGenesisExists | internal/ledger/state.go:210-217 | a State value and an entry for which the error does change the state |
| Runs.AllOrNothing | internal/ledger/state.go:159-160 | from every reachable state an error changes nothing |
| Runs.NoKeyOverride | internal/ledger/state.go:127-142 | on an accepted entry no member's key is replaced by one the entry brings |
| Runs.ExactSigners | internal/ledger/state.go:187-225 | who signed an accepted entry: the post-state members for GENESIS and ADD, between post- and pre-state members for REMOVE, every approval valid |
| Runs.TargetMaySign | internal/ledger/state.go:196-208 | adding the removed node's own signature keeps the entry accepted exactly when the signature is valid |
| Runs.GenesisOrderIndependent | internal/ledger/state.go:59-68 | permuted genesis subjects: same payload, same decision, same resulting state |
| Runs.DuplicateGenesisRejected | internal/ledger/state.go:59-65 | a genesis with a repeated id is rejected in every state, without trace |
| Witnesses.DuplicateGenesisProposed | cmd/tfnet/cmd_ledger.go:102-139 | the genesis command saves a list that repeats any well-formed subject |
| Runs.StaleStaysDead | internal/ledger/state.go:162-164 | once seq k is committed, no entry with seq <= k is accepted in any extension |
| Membership.LastJoin | internal/ledger/state.go:210-225 | the most recent entry that lists a node as joining |
| Membership.Transition | internal/ledger/state.go:210-225 | an accepted entry brings in exactly the ids it joins, takes out exactly those it removes, and changes no other subject |
| Membership.Unanimity | internal/ledger/state.go:187-225 | every current member has an approval on every entry since it joined last that Ed25519 verifies under its current key for the digest of that payload; its subject never changed since |
| Membership.MemberCount | internal/ledger/state.go:210-225 | member count = genesis and ADD subjects minus REMOVEs |
| Membership.JoinsAndLeaves | internal/ledger/state.go:79-92 | joins and leaves of each node alternate; member exactly when joins = leaves + 1 |
| Forks.TipDeterminesHistory | internal/ledger/state.go:161-229 | equal tips of non-empty accepted logs mean equal length and equal payloads, or two different payloads with one SHA-256 digest |
| Forks.CollisionOfDigest | internal/ledger/entry.go:61-69 | the collision of the tip theorems is two different byte strings with one SHA-256 digest, both payloads of the given logs |
| Forks.HistoryDeterminesState | internal/ledger/store.go:70-83 | equal payloads mean equal tip, sequence number and members on decoded keys |
| Forks.TipDeterminesMembers | internal/ledger/store.go:70-83 | equal tips mean equal history and members, or an explicit collision |
| Forks.ForkAccountability | internal/ledger/state.go:53-96 | at a fork, every member that is not the target of a REMOVE signed both entries under one key: at least n minus the REMOVEs, n-1 if both remove the same node; same seq and prev hash |
| Forks.FirstFork | internal/ledger/state.go:161-208 | two accepted logs with the same first entry that differ have a first difference, and everyone liable there signed both entries |
| Forks.NoDoubleSigningNoFork | internal/ledger/state.go:53-96 | if at each difference one member that must sign has not signed both entries, accepted logs with the same first entry do not fork |
| Pendings.ReadSigsDir | internal/ledger/pending.go:99-127 | the JSON files in name order; fails exactly on an incomplete one |
| Pendings.LoadPending | internal/ledger/pending.go:66-97 | entry with collected approvals; fails exactly when the entry has no hash or a file is incomplete or for another hash |
| Pendings.LoadsWhen | internal/ledger/pending.go:66-97 | a directory loads exactly when the entry has a payload and every ".json" file has a signer, a signature and no hash other than the digest of that payload |
| Pendings.LastFileWins | internal/ledger/pending.go:88-96 | where several files name one signer, the last in name order counts |
| Pendings.SavedWhen | internal/ledger/pending.go:129-143 | refuses exactly an empty signer or signature; otherwise writes <node id>.json and nothing else |
| Pendings.TidyApprovals | internal/ledger/pending.go:88-96 | with files named after their signers, each approval comes from its own file, so file order is immaterial |
| Pendings.SavedApprovals | internal/ledger/pending.go:129-143 | saving a signature adds exactly that approval on reload |
| Pendings.SigningShrinksMissing | internal/ledger/state.go:100-113 | signing keeps the hash and takes exactly the signer off the missing list |
| Pendings.InterleavingIrrelevant | internal/ledger/pending.go:13-16 | every interleaving of signatures by distinct nodes gives the same directory |
| Pendings.SeparateCopiesMerge | internal/ledger/pending.go:13-16 | separately signed copies merge without conflict into the directory of signing one after the other |
| Pendings.MergeUnique | internal/ledger/pending.go:13-16 | such a merge has one outcome |
| Stores.SameDirectory | internal/ledger/pending.go:48-63 | two proposals get the same directory if and only if they have the same sequence number and the same first six hash bytes |
| Stores.NameShape | internal/ledger/pending.go:48-63 | the name is the decimal sequence number, six digits wide below one million, "-", and the text of six bytes of the payload's digest |
| Witnesses.DifferentProposalsSameDirectory | internal/ledger/pending.go:48-50 | two proposals propose-add builds for one ledger, with different hashes and one directory name |
| Stores.NamesRunOut | internal/ledger/pending.go:51-63 | for every hash function: among more than 256^6 proposals with one sequence number two get the same directory |
| Stores.Store.Replay | internal/ledger/store.go:68-83 | final state of an accepted log; otherwise the state at the first rejected entry |
| Stores.PartialReplay | internal/ledger/store.go:68-69 | a failed replay returns the state of the longest accepted prefix, with nothing of the failing entry |
| Stores.Store.SavePending | internal/ledger/store.go:103-126 | writes the bare entry under its name and keeps signature files already there |
| Stores.ProposingKeeps | internal/ledger/store.go:110-126 | proposing keeps signature files that are there, strips approvals, and touches no other directory; proposing again keeps the collected approvals |
| Stores.Store.SaveSig | internal/ledger/pending.go:129-143 | one file per signer; nothing on an incomplete signature |
| Protocol.StepKeepsLog | internal/ledger/store.go:85-87 | a step keeps the log or appends one accepted entry, and replaying gives exactly what Apply produced |
| Protocol.RunKeepsLog | cmd/tfnet/cmd_ledger.go:525-563 | over every run of steps the log replays and only grows at its end |
| Protocol.CommittedOnce | cmd/tfnet/cmd_ledger.go:550-563 | after a commit no competing or left-over proposal with the same or a lower seq is ever appended, also after a crash before removal |
| Protocol.CommitLeaves | cmd/tfnet/cmd_ledger.go:550-563 | commit removes its directory exactly unless told to keep it, with all other directories and kept contents untouched |
| Protocol.LeftOverIsDead | cmd/tfnet/cmd_ledger.go:550-563 | after a crash between append and removal the directory is still there and is never committed again |
| Protocol.OneEntryPerSeq | internal/ledger/state.go:162-164 | at most one committed entry per sequence number; GENESIS only first |
| Commands.ProposeGenesis | cmd/tfnet/cmd_ledger.go:102-139 | saved exactly for an empty ledger and a hashable non-empty list |
| Proposals.ProposedGenesisWhen | cmd/tfnet/cmd_ledger.go:102-139 | saves exactly a non-empty list of subjects that parse, on an empty ledger; the entry lists just these |
| Commands.ProposeAdd | cmd/tfnet/cmd_ledger.go:159-198 | saved exactly for a proposal as Proposals.ProposedAddWhen describes it |
| Proposals.ProposedAddWhen | cmd/tfnet/cmd_ledger.go:169-198 | propose-add saves exactly a subject with no empty field, a new id, an overlay text no member has, two keys of 32 bytes and a parsing overlay; the entry is an ADD of that subject on top of the ledger |
| Proposals.AddKeepsTexts | internal/ledger/state.go:35-45 | an accepted ADD keeps overlay texts distinct if and only if no member has its overlay text |
| Proposals.ProposedLedgerHasDistinctTexts | cmd/tfnet/cmd_ledger.go:176-178 | over every run whose ADDs pass the tests of propose-add, no two members ever have one overlay text |
| Commands.ProposeSelfAdd | cmd/tfnet/cmd_ledger.go:222-303 | the same from the joiner's keys, plus its signature |
| Commands.ProposeRemove | cmd/tfnet/cmd_ledger.go:327-354 | saved exactly for a member: the hash never fails |
| Proposals.ProposedRemoveWhen | cmd/tfnet/cmd_ledger.go:327-354 | saves exactly for a member; the entry removes that member's subject |
| Commands.StoredMeans | internal/ledger/store.go:110-126 | a proposal that goes through stands under its name without approvals; one that does not changes nothing |
| Commands.Sign | cmd/tfnet/cmd_ledger.go:370-418 | adds the signer's file, and only that, exactly when the directory loads and the identity can sign |
| Commands.SignDetached | cmd/tfnet/cmd_ledger.go:396-410 | sign -out: the same signature, and the disk stays as it is |
| Commands.SignatureMeans | cmd/tfnet/cmd_ledger.go:387-402 | made exactly by a complete identity with a 32-byte seed; names the signer, records the digest and signs it |
| Commands.SigningMeans | cmd/tfnet/cmd_ledger.go:387-418 | signing in place adds <node id>.json exactly when the directory loads and a signature can be made |
| Commands.ForeignSignatureRefused | cmd/tfnet/cmd_ledger.go:459-461 | a signature for one payload does not merge into a directory with another digest, and makes it unloadable when put there |
| Commands.Merge | cmd/tfnet/cmd_ledger.go:430-474 | saves the files before the first unacceptable one, all of them exactly on success |
| Commands.CommitPending | cmd/tfnet/cmd_ledger.go:517-563 | appends exactly an entry Apply accepts in the replayed state; otherwise the disk is unchanged |
| Commands.Approve | cmd/tfnet/cmd_ledger_simple.go:257-357 | approve is sign, then commit when nothing is missing; exactly when it fails, and what a failure leaves |
| Commands.ApproveLeaves | cmd/tfnet/cmd_ledger_simple.go:275-341 | the log stays under -no-finalize; other directories stay; nothing changes for somebody not required |
| Commands.RemoveHashes | cmd/tfnet/cmd_ledger.go:348-350 | the hash of a removal of a current member never fails |
| Honest.SignAllHonest | cmd/tfnet/cmd_ledger.go:370-418 | honest signing in any order always succeeds, whatever the directory holds already: the signers' approvals are valid on reload and the others stay |
| Honest.HonestFlow | cmd/tfnet/cmd_ledger.go:159-210 | a proposal in a directory that may hold signatures, signed by honest nodes and reloaded, is accepted if and only if all required approvals are there, every one not overwritten is valid, and a genesis lists distinct ids |
| Honest.HonestCommit | cmd/tfnet/cmd_ledger.go:525-563 | the same on the disk: commit appends the directory under exactly these conditions, and the members change as proposed |
| Honest.HonestApprove | cmd/tfnet/cmd_ledger_simple.go:275-357 | required approvers approve in any order, repeats included, in a directory that may hold approvals: the log stays until none is missing; the approve that completes the set commits if and only if every approval found at the start is valid |
| Honest.BadApprovalBlocks | cmd/tfnet/cmd_ledger_simple.go:293-295 | approve leaves an approval that is there alone: while one is not valid, no list of honest approvers gets the entry committed |
| Honest.SelfAddThenApprove | cmd/tfnet/cmd_ledger.go:273-293 | the default way to join: after propose-self-add in a new directory only the present members approve, in any order, and the last one's approve makes the joiner a member |
| Honest.SoleRemoval | cmd/tfnet/cmd_ledger_simple.go:275-281 | the removal of the only member needs no signature: commit accepts it unless an approval present is not valid, and approve refuses everybody |
| Honest.DetachedThenMerge | cmd/tfnet/cmd_ledger.go:430-474 | detached signatures all merge exactly when signing in place succeeds for everybody, into the same directory |
| Honest.TightFork | internal/ledger/state.go:187-208 | two proposals for one log, each signed by its required approvers, are both accepted, and those who signed both are exactly the members accountability names |
| Syncer.DiffMembers | internal/syncer/syncer.go:167-195 | the sorted set differences, nil states as empty |
| Syncer.Run | internal/syncer/syncer.go:100-139 | verify before diff: an unverified new log yields an error and no diff unless verification is skipped |
| Syncer.DiffRebuilds | internal/syncer/syncer.go:182-194 | strictly sorted, disjoint lists that rebuild the new set from the old |
| Syncer.DiffBounded | internal/syncer/syncer.go:167-195 | an extension of a non-empty accepted log by n entries moves at most n nodes |
| Syncer.ExtendsExactly | internal/syncer/syncer.go:124-139 | a verified pull extends the old log, up to a collision, exactly when its prefix of that length has the old tip |
| Syncer.HonestSync | internal/syncer/syncer.go:124-139 | with one honest member at each difference a verified pull extends the old log or is a prefix of it, and the diff is no longer than the difference in length |
| Witnesses.VerifiedFork | internal/syncer/syncer.go:124-139 | two verified ledgers with one genesis of which neither extends the other |
| Render.EnsureUniqueOverlay | internal/render/wireguard.go:92-112 | succeeds exactly when all overlays parse and hosts are pairwise distinct |
| Render.UniqueOverlayMeans | internal/render/wireguard.go:92-112 | that is: every overlay parses and two members never have one host, in terms of netip |
| Render.WireGuardConf | internal/render/wireguard.go:27-79 | one peer for each other member in id order; fails exactly for a non-member or an unparsable overlay |
| Render.FRRConf | internal/render/frr.go:22-98 | bfd, neighbor and activate lists are all the other members' hosts in id order |
| Render.RenderConditions | internal/render/frr.go:47-60 | when the peer loops succeed, in terms of netip |
| Render.PeerFields | internal/render/wireguard.go:60-78 | each record carries the member's node id, WireGuard key, overlay host with "/32" and endpoint; the FRR lists carry the host |
| Render.OverlayKept | internal/ledger/state.go:35-37 | an accepted entry keeps overlay hosts unique if and only if the hosts it brings are fresh; for ADD, if and only if no member has its host |
| Render.UniqueThroughout | internal/render/wireguard.go:92-112 | hosts are unique at every point of a run if and only if every entry brings fresh ones |
| Witnesses.CollidingHostAccepted | internal/ledger/state.go:35-37 | an ADD that propose-add builds and Apply accepts although its host is taken |
| Render.WireGuardNeverFails | internal/render/wireguard.go:60-68 | WireGuardConf fails for no member of a reachable state |
| Render.FrrNeverFails | internal/render/frr.go:47-60 | FRRConf fails for no member of a reachable state and a nonzero ASN, given that an address netip prints parses again |
| Render.Mesh | internal/render/wireguard.go:60-78 | WireGuard and FRR lists denote exactly the other members, each once, with distinct AllowedIPs |
| Render.MeshSymmetric | internal/render/wireguard.go:60-78 | a lists b exactly when b lists a, and every two members list each other |
| Render.SameTipSameMesh | internal/render/wireguard.go:60-78 | hosts whose ledgers have the same tip render the same mesh, or an explicit collision |

## Left out

- SHA-256, Ed25519, X25519, base64 and `netip` internals: parameters of every theorem.
- JSON encoding, file errors, and a log file that does not decode: saving then loading is the identity; `LoadEntries` is the log itself.
- Node ids with path separators: a signature file is named after its signer.
- Git transport, hooks and notifications of sync; three-way merging is modelled only for signature files.
- Interleaving inside one commit: the log file has no lock, and a commit is one step here.
- The order of equal keys in `sort.Slice`: the payload of a genesis that repeats an id uses a stable order; such an entry is always rejected.
- Error messages: only success and failure, since map order decides which error is reported first.
- `list`, `show`, `pending`, `members`, `verify` output, and picking a pending directory by prefix or prompt.
- Host runtime, audit log, host configuration, key generation, flags.
- Forks.HistoryDeterminesState: needs string and list lengths below 2^32, above which a length prefix is cut.
- Runs.AllOrNothing: for logs shorter than 2^64 entries; the sequence number then wraps to zero.
- Render.WireGuardConf: peer records instead of text; interface section, keepalive and MTU are left out.
- Render.FRRConf: peer lists instead of text; timers are left out.
- Syncer.Run: the part between reading the old ledger and the diff, with the pulled log as a parameter.
- Commands.Approve: from replay to finalisation, for a directory already chosen and confirmed.
- Witnesses.DifferentProposalsSameDirectory: for a stand-in digest, since no two inputs are known whose SHA-256 digests do this; Stores.NamesRunOut covers every hash function.
- Witnesses.VerifiedFork: for stand-in primitives; Honest.TightFork covers all primitives with honest keys.
- Layout.GenesisLayout: for distinct node ids; with a repeated id the order of equal ones is up to sort.Slice, and the entry is always rejected.
