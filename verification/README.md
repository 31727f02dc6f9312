# Diffmonger: a verified model

Diffmonger keeps the snapshots of a dataset as a sparse Fenwick tree: node n is stored as the difference from its
parent n - LSB(n), and is deleted when node n + 3 LSB(n) is about to be stored. This project models

- the retention arithmetic of `src/diffmonger.hpp`, as the loops over 64-bit words that the code runs, proved against one
  declarative history (`Fenwick.dfy`): which nodes are alive after n, and which die at n;
- what that history costs (`Accounting.dfy`, `Simulation.dfy`, `History.dfy`): how many nodes, how much data, how much
  is written;
- the repository as a state machine (`Repository.dfy`, `Trust.dfy`, `Controller.dfy`, `Runs.dfy`, `Snapshot.dfy`,
  `Restore.dfy`): snapshots, pruning, mirroring, the quarantine, stops at any point, and restoring;
- its byte formats (`Serialisation.dfy`, `IdFiles.dfy`, `IoUtil.dfy`, `Encryption.dfy`), and the loops of the vendored
  libsodium with hard state or arithmetic (`Secretstream.dfy`, `Argon2.dfy`, `Argon2Fill.dfy`, `Base64.dfy`).

Bitwise operators are defined bit by bit on natural numbers in `Bits.dfy`, and wrap-around is explicit. A C++ exception
is a `threw` result or a `None`. The backend, the cryptographic primitives and the clock are parameters; where a
property needs a law of one of them (that applying a difference undoes taking it, that sealing is undone by opening),
the law is a precondition.

Four places where the repository's own words differ from its code, and the model follows the code:

- README.md:241 writes the alive set with k ≥ n; the code, like the comment at src/diffmonger.hpp:45, has k ≤ n.
- The comment at src/diffmonger.hpp:54-57 says the loop's `cur` is a multiple of `uint_2powm`. From the second round on
  it is a multiple of half of that (`Retention.AtRound`).
- The comment at simulation/disk-usage-analysis.cpp:80-82 sums the writes up to 2^k to (k + 1) 2^(k - 1). The sum is
  (k + 2) 2^(k - 1) (`Accounting.WrittenAtPow2`), which is also what gives the factor 15 for 2^28 at README.md:266.
- The comment at src/RepositoryStructure.cpp:180-183 calls it safe to stop between a commit's rename and its breadcrumb
  write. The next search for a free node then never ends (`Repository.StaleBreadcrumbIsStuck`).

## Model

| member | source | states |
|---|---|---|
| Bits.AndNegIsLsb | src/diffmonger.hpp:32-35 | `node & -node` on 64-bit words is the value of the least significant set bit |
| Bits.AndOrAreBitwise | src/diffmonger.hpp:300 | the operators used here are the bitwise ones: a bit is set in the conjunction exactly if it is set in both, and in the disjunction if in either |
| Fenwick.AliveSeqMeaning | README.md:240-241 | the reference listing holds exactly {0} and the k ≤ n with T(k) > n, each once, from n down to 0 |
| Fenwick.AliveStep | src/diffmonger.hpp:183-187 | storing n and deleting what dies at n turns the alive set of n - 1 into that of n, and only alive nodes die |
| Fenwick.ParentOutlives | README.md:246-247 | a parent dies strictly later than its child |
| Fenwick.AncestorAlive | src/RepositoryStructure.hpp:201-210 | an ancestor a of v is alive after every n from a to v |
| Fenwick.PrunedOffPath | src/diffmonger.hpp:249-264 | what dies at n is on the Fenwick path of neither n nor n - 1 |
| Fenwick.NextParentOnPath | test/node.cpp:89-94 | the parent of v + 1 is on the path of v |
| Fenwick.PathLength | README.md:246-247 | a path has one node per set bit and the root |
| Fenwick.NodeDistribution | README.md:251-254 | for 0 < m ≤ n some alive node lies between n - m and n - floor(m/2) |
| Fenwick.GapWidth | test/node.cpp:120-140 | neighbouring alive nodes skip at most half the distance back from n |
| Retention.FenwickParent | src/diffmonger.hpp:32-35 | the word expression is the parent in the tree, and 0 for 0 |
| Retention.TimeOfDemise | src/diffmonger.hpp:191-246 | fails exactly for 0, and is T(node) exactly when T(node) fits a word |
| Retention.DemiseFits | src/diffmonger.hpp:191-246 | below 2^63 it fits for every node but 2^62 |
| Retention.FenwickPathIncRoot | src/diffmonger.hpp:14-26 | the loop emits the path from the node down to 0 |
| Retention.RoundAdvances | src/diffmonger.hpp:127-173 | one round moves the anchor from the grid of s to the multiple of 2s one below that of n |
| Retention.RoundMembers | src/diffmonger.hpp:62-126 | between two anchors exactly the odd multiple of s/2, if it is due, is alive |
| Retention.AliveAfter | src/diffmonger.hpp:47-180 | gives up exactly from 2^63 on; otherwise emits the alive nodes, each once, greatest first; what it emits before giving up is alive and in order too |
| Retention.Prune | src/diffmonger.hpp:253-373 | emits exactly the j > 0 with T(j) = node, greatest first, for every word, and gives up exactly at 2^63 and 3 * 2^62 (after emitting all) |
| Accounting.AliveCount | README.md:248-249 | after n there are floor(log2 n) + 1 + popcount(n) nodes |
| Accounting.AliveCountBound | README.md:248-249 | at most 2 floor(log2 n) + 2 |
| Accounting.AliveUsage | simulation/disk-usage-analysis.cpp:37-45 | the nodes alive after n hold n + 2^floor(log2 n) - 1 units |
| Accounting.UsageBound | README.md:259-264 | what the simulation charges at node n, plus 1, is at most 2.5 (n + 1), and 2.5 n - 1 at powers of two |
| Accounting.WrittenBound | simulation/disk-usage-analysis.cpp:65-84 | storing 1 to n writes at most (floor(log2 n) + 2) n / 2 units |
| Accounting.WrittenAtPow2 | simulation/disk-usage-analysis.cpp:65-84 | exactly (k + 2) 2^(k - 1) for n = 2^k |
| Simulation.DiskUsage | simulation/disk-usage-analysis.cpp:39-45 | the accumulating loop sums node - parent over the emitted nodes, exactly as long as the sum fits a word |
| Simulation.Run | simulation/disk-usage-analysis.cpp:29-62 | for every argument: throws exactly past 2^63; below 2^59 no counter wraps, and the two reported maxima are the true ones over nodes 1 to n and their first places, usage never above 2.5 |
| History.Run | test/node.cpp:96-118 | for every n below 2^63: erasing what `prune` emits after each insertion leaves exactly the alive set, at most 126 nodes, closed under parents |
| History.Erase | test/node.cpp:99-104 | pruned nodes are all present and distinct, so each erasure removes one |
| Repository.SearchStaysPut | src/RepositoryStructure.cpp:445-453 | the search for the next node ends exactly when no valid id is stored at the breadcrumb, and then at once: it never fast-forwards |
| Repository.StaleBreadcrumbIsStuck | src/RepositoryStructure.cpp:178-188 | so after a stop between rename and breadcrumb write it never ends, against the comment there |
| Repository.RepositoryStructure.NextSnapshotNode | src/RepositoryStructure.cpp:445-453 | is the result of that search, for any number of rounds |
| Repository.RepositoryStructure.Commit | src/RepositoryStructure.cpp:171-188 | refuses an existing node without changing anything; otherwise stores it and moves the breadcrumb to the next node with this timestamp, unless the number would overflow |
| Repository.RepositoryStructure.DeleteDying | src/Controller.cpp:503-507 | removes exactly the stored nodes that die at the given one, and throws afterwards where `prune` gives up |
| Repository.RepositoryStructure.GetNodesIncludingUntrusted | src/RepositoryStructure.cpp:298-326 | lists, ascending, the stored nodes alive after the last trusted one; throws exactly for a breadcrumb above 2^63 or an unreadable id there, and otherwise never ends exactly when a valid node is stored there |
| Trust.TrustCosts | src/Trust.cpp:58-77 | trusting a node past the first raises the authorised time by at least a spacing and never beyond the clock (or its old value) |
| Trust.TrustIsMonotone | src/Trust.cpp:58-77 | a later clock trusts whatever an earlier one did, with the same breadcrumb |
| Controller.PruneRepository | src/Controller.cpp:469-510 | terminates; node k + 1 of those it moves past is readable, claims no earlier time than k does, and its authorised time fits before the clock; it stops exactly where that or the numbers end, and throws exactly where a node is unreadable, its predecessor is, or `prune` gives up; what dies is deleted on the way |
| Controller.AdvancingConsumes | src/Controller.cpp:484-509 | each advance takes exactly the breadcrumb's node out of the untrusted ones, and deletes none of the others |
| Controller.PrunedStored | src/Controller.cpp:484-509 | over the whole command exactly the stored nodes that die between the old and the new breadcrumb go |
| Controller.PrunedAdvances | src/Trust.cpp:29-77 | the same of the function: a_k = max(a_(k-1) + spacing, timestamp_k) up to the first k that is refused, which k that is, and whether it ends in an exception |
| Controller.ScheduleIndependence | src/Controller.cpp:484-509 | pruning at t1 and again at t2 ends, in state and in error, as pruning once at t2 |
| Runs.ExecPrefix | src/Controller.cpp:475-483 | wherever a run stops, what was done by then is a run, so that what holds after every run holds at every interruption |
| Runs.StepKeepsSound | src/RepositoryStructure.hpp:192-199 | every atomic step of a local or mirrored repository keeps the invariant |
| Runs.RunKeepsSound | src/Controller.cpp:475-483 | so does every run |
| Runs.SoundMeans | src/RepositoryStructure.hpp:201-210 | below the breadcrumb u stored nodes are closed under parents, u - 1 is there with its own id, and so is every proper ancestor of u |
| Runs.DecideThrowsOnlyFor | src/Trust.cpp:23-27 | in a sound repository the quarantine throws only for an unreadable candidate or at the last node number |
| Runs.PathStored | src/RepositoryStructure.hpp:201-210 | the whole path of a trusted stored node is stored, under the right ids |
| Runs.CommitIsExact | src/Controller.cpp:199-257 | a completed snapshot n leaves exactly the alive set of n |
| Runs.Throttled | src/Trust.cpp:64-77 | if K + 1 spacings do not fit before the clock, whatever arrives and however it is dated, at most K nodes become trusted in a run a + b; and node 0 and all nodes dying at u + K or later that are stored after a, including those that arrived in it, are stored unchanged after b |
| Runs.ThrottledByClock | src/Trust.cpp:64-77 | with K = max(0, floor((now - a) / spacing)) |
| Runs.DatesStayInOrder | src/Trust.cpp:29-59 | over any run of a mirror, the timestamps of consecutive trusted nodes that are stored never decrease, whatever dates arrive |
| Runs.PruneRepositoryRuns | src/Controller.cpp:475-509 | the command, as a list of steps (deletions in the order of `prune`, then the breadcrumb, and again), is such a run to its final state, and so is every beginning of that list |
| Runs.RunKeepsFaithful | src/Controller.cpp:55-69 | for any set of nodes: if those that enter carry the right differences, so do those that are stored after any run, whatever the others carry |
| Snapshot.StoreSnapshot | src/Controller.cpp:45-112 | throws exactly if a temporary snapshot is out, writing fails or numbers run out; a failed write changes no node and leaves the temporary snapshot checked out; otherwise the whole content for node 0, and the difference from the parent for others, is stored |
| Snapshot.TakeSnapshot | src/Controller.cpp:189-258 | never ends exactly when a valid id is stored at the breadcrumb; succeeds exactly under the stated condition, and then has pruned, adopted an orphan if there was one, and stored; whenever it throws the breadcrumb stays, and at most what was due to be pruned is gone |
| Snapshot.SnapshotCommand | src/Controller.cpp:261-269 | every attempt but the last adopted an orphan and nothing else; the state, dataset and outcome are those of the last; a snapshot is stored exactly if no attempt up to the first without an orphan fails, and then after one attempt more than there are consecutive orphans, with the live content of the last, never an orphan's |
| Snapshot.CommandSucceeds | src/Controller.cpp:261-269 | in a sound repository no attempt fails exactly if no temporary snapshot is out, nothing outside fails, and from the breadcrumb to the first node that is no orphan each has its parent in the dataset, room for its number and nothing stored in its place |
| Snapshot.AttemptKeeps | src/Controller.cpp:189-258 | an attempt, finished, failed or stopped anywhere, keeps the invariant, every stored payload the difference of captured contents, and all captured contents |
| Snapshot.SnapshotsReplay | src/Controller.cpp:189-258 | after any number of such attempts from a new repository, every trusted stored node replays to the content its snapshot captured |
| Snapshot.PayloadIsFaithful | src/Controller.cpp:55-69 | what a snapshot stores is the difference the captured history calls for |
| Snapshot.ParentIsKept | src/Controller.cpp:201-205 | pruning for a node never deletes its parent |
| Snapshot.SnapshotRuns | src/Controller.cpp:199-257 | a successful attempt, as a list of single deletions and a rename, is a run, and so is every beginning of it |
| Restore.AscendingPath | src/Controller.cpp:398-406 | in ascending order each node of a path comes directly after its parent, from 0 to v |
| Restore.Restorable | src/Controller.cpp:407-430 | the loop over the listing picks exactly the nodes up to the given one whose chain of parents in the listing is complete, in order |
| Restore.RestoreOne | src/Controller.cpp:438-451 | throws exactly without the parent's id or snapshot, or over an existing snapshot if the backend does not overwrite; otherwise applies the stored difference to the parent's content and touches nothing else |
| Restore.RestoreNodes | src/Controller.cpp:432-456 | throws exactly if some node of the list has no valid id, or is neither skipped nor free to be created on a parent that is there; otherwise every node of the list is there, created from its parent or kept where it was skipped; and no other snapshot changes either way |
| Restore.BlockedMeans | src/Controller.cpp:432-456 | for a parent-closed list that means: some node has no valid id, or its snapshot is in the way |
| Restore.RestoreNode | src/Controller.cpp:398-456 | throws exactly if some node of the path has no valid id or its snapshot is in the way; otherwise the whole path is there, each created or kept; other snapshots are untouched; and right payloads give the captured contents, which in a sound repository never fails |
| Restore.RestoreAll | src/Controller.cpp:398-456 | selects exactly the listed nodes up to the given one that are stored with their whole path, ends exactly as the listing does or throws exactly on a missing id or a snapshot in the way, and otherwise leaves each selected node created or kept and all others untouched; right payloads give the captured contents |
| Restore.ReplayIsHistory | src/Controller.cpp:438-451 | a chain of stored differences that are right on the path replays to the captured content |
| Restore.RunThenRestore | src/Controller.cpp:398-456 | after any run from a new repository, a trusted stored node whose path's nodes entered with their own differences replays to the content captured at it, whatever else arrived |
| Serialisation.ToBytes | libs/util/include/diffmonger/util/Serialisation.hpp:20-36 | the shifting loop gives the little-endian bytes of the unsigned cast |
| Serialisation.FromBytes | libs/util/include/diffmonger/util/Serialisation.hpp:44-58 | the or-ing loop gives back the number those bytes stand for, cast to the signed type |
| Serialisation.RoundTrip | libs/util/include/diffmonger/util/Serialisation.hpp:136-292 | for all types built from integers, bytes, strings, vectors, arrays and time points: decoding what was encoded, followed by anything, returns it and leaves exactly what followed |
| Serialisation.Canonical | libs/util/include/diffmonger/util/Serialisation.hpp:136-292 | whatever decodes is the encoding of its value |
| Serialisation.Extension | libs/util/include/diffmonger/util/Serialisation.hpp:115-127 | bytes after those read play no part |
| Serialisation.PrefixRejected | libs/util/include/diffmonger/util/Serialisation.hpp:115-127 | every strict prefix of an encoding is rejected |
| Serialisation.Serialiser.Serialise | libs/util/include/diffmonger/util/Serialisation.hpp:73-95 | appends the encoding to the buffer |
| Serialisation.Deserialiser.Consume | libs/util/include/diffmonger/util/Serialisation.hpp:115-127 | yields the next bytes, or throws without moving |
| Serialisation.Deserialiser.Deserialise | libs/util/include/diffmonger/util/Serialisation.hpp:98-113 | throws exactly on insufficient data, and otherwise returns the decoded value and moves past it |
| IdFiles.SerialiseId | src/BackendDriver.cpp:7-16 | the three fields in order, the bytes as a length-prefixed span |
| IdFiles.DeserialiseId | src/BackendDriver.cpp:19-31 | throws exactly when they do not decode, and ignores what follows them |
| IdFiles.IdFileFound | src/RepositoryStructure.cpp:197-225 | the id file of a node makes it found with its timestamp; under another name, or truncated, it is an error |
| IdFiles.BreadcrumbReread | src/RepositoryStructure.cpp:430-438 | a written breadcrumb is read back after a restart |
| IoUtil.ReadBytes | libs/util/src/ioutil.cpp:62-88 | through short and interrupted reads: as many bytes as asked for, or all there are; throws only on a read error |
| IoUtil.ReadBytesExact | libs/util/src/ioutil.cpp:90-97 | throws exactly when there are fewer, or on a read error |
| IoUtil.WriteSecure | libs/util/src/ioutil.cpp:14-28 | through short and interrupted writes: all of it, in order; throws only on a write error, after writing a beginning of it |
| IoUtil.Consume | libs/util/include/diffmonger/util/ioutil.hpp:69-80 | calls the consumer with the full buffers and the last partial one, and stops; after a read error, with some of the first of them |
| IoUtil.ChunksFlatten | libs/util/include/diffmonger/util/ioutil.hpp:69-80 | the chunks put together are the input |
| Encryption.EncryptToFd | src/EncryptionUtil.cpp:42-117 | writes slot table, header, length-prefixed chunks and the final one; throws exactly when a seal fails or on an I/O error, having written a beginning of that |
| Encryption.FindKey | src/EncryptionUtil.cpp:127-163 | reads to the flagged slot, keeping the session key of the last slot under our id; throws exactly on a missing or unopenable slot or a read error |
| Encryption.DecryptFrames | src/EncryptionUtil.cpp:180-201 | writes each message that authenticates until a tag ends the stream; returns normally only after the final tag, and through any I/O error has written a beginning of the same |
| Encryption.DecryptFromFd | src/EncryptionUtil.cpp:119-202 | on every input and through any I/O error: only a beginning of what the input decrypts to is written, returning normally means all of it and properly ended, and without I/O errors it throws exactly when the input is not properly ended |
| Encryption.RoundTrip | src/EncryptionUtil.cpp:42-202 | decryption, by the key of any slot, writes back exactly the plaintext, whatever follows |
| Encryption.EndsProperly | src/EncryptionUtil.cpp:178-201 | a sealed message under tag 0 is followed by more, under tag 3 it ends the stream properly, and under any other it is written but ends in an exception |
| Encryption.LongLengthIsClamped | src/EncryptionUtil.cpp:182-187 | the length before a full chunk is neither authenticated nor exact: any greater one reads the same |
| Encryption.DistinctIdsAddress | src/EncryptionUtil.cpp:148-160 | distinct key ids with ours among them are enough for that |
| Encryption.NotAddressed | src/EncryptionUtil.cpp:162-163 | without a slot of ours it throws and writes nothing |
| Encryption.TruncationFails | src/EncryptionUtil.cpp:140-197 | every strict prefix throws, after writing a beginning of the plaintext |
| Encryption.AlteredFails | src/EncryptionUtil.cpp:182-201 | an encrypted file with the bytes of a message altered, and anything after them, throws after writing exactly the messages before it |
| Encryption.AlteredByteFails | src/EncryptionUtil.cpp:182-201 | in particular with any one byte of tag or ciphertext changed, unless the authenticator collides |
| Encryption.DecryptedExtends | src/EncryptionUtil.cpp:119-202 | of any input at all, more bytes only extend what a shorter one writes, and change nothing after success |
| Secretstream.PullInvertsPush | externals/libsodium/src/libsodium/crypto_secretstream/xchacha20poly1305/secretstream_xchacha20poly1305.c:110-260 | from equal states a pull returns the pushed message and tag and ends in the pusher's state |
| Secretstream.PushInvertsPull | externals/libsodium/src/libsodium/crypto_secretstream/xchacha20poly1305/secretstream_xchacha20poly1305.c:178-260 | whatever a pull accepts is what pushing its result gives |
| Secretstream.Lockstep | externals/libsodium/src/libsodium/crypto_secretstream/xchacha20poly1305/secretstream_xchacha20poly1305.c:110-260 | any sequence of messages, data and tags is pulled back in full and the states end equal, through rekeys and counter wrap |
| Secretstream.Conversation | externals/libsodium/src/libsodium/crypto_secretstream/xchacha20poly1305/secretstream_xchacha20poly1305.c:42-80 | in particular from one key and header, counting from one |
| Secretstream.IncrementCounts | externals/libsodium/src/libsodium/crypto_secretstream/xchacha20poly1305/secretstream_xchacha20poly1305.c:165-166 | the counter counts modulo 2^32 |
| Secretstream.CounterAdvances | externals/libsodium/src/libsodium/crypto_secretstream/xchacha20poly1305/secretstream_xchacha20poly1305.c:163-171 | the counter is never left at zero; key and nonce are renewed from the key stream, and counting restarts at one, exactly under a tag with the second bit set or when the counter runs out; otherwise the key stays and the counter goes up |
| Secretstream.BlocksFit | externals/libsodium/src/libsodium/include/sodium/crypto_secretstream_xchacha20poly1305.h:32-34 | the longest message allowed is the longest whose key stream blocks, from 2 on, are numbered in 32 bits |
| Secretstream.Stream.constructor | externals/libsodium/src/libsodium/crypto_secretstream/xchacha20poly1305/secretstream_xchacha20poly1305.c:67-80 | derives key, counter 1 and inner nonce from header and key |
| Secretstream.Stream.IncrementCounter | externals/libsodium/src/libsodium/crypto_secretstream/xchacha20poly1305/secretstream_xchacha20poly1305.c:165-166 | the carry loop adds one to the little-endian counter |
| Secretstream.Stream.Rekey | externals/libsodium/src/libsodium/crypto_secretstream/xchacha20poly1305/secretstream_xchacha20poly1305.c:82-108 | the state in place follows the rekeying function |
| Secretstream.Stream.PushMessage | externals/libsodium/src/libsodium/crypto_secretstream/xchacha20poly1305/secretstream_xchacha20poly1305.c:110-176 | output and state follow the function proved above, or abort on an over-long message |
| Secretstream.Stream.PullMessage | externals/libsodium/src/libsodium/crypto_secretstream/xchacha20poly1305/secretstream_xchacha20poly1305.c:178-260 | likewise, and a refused input leaves the state as it was; what is refused is settled by the next rows |
| Secretstream.XorIsBitwise | externals/libsodium/src/libsodium/crypto_secretstream/xchacha20poly1305/secretstream_xchacha20poly1305.c:160-162 | the exclusive or that renews the inner nonce is so bit by bit |
| Secretstream.AuthenticatedInjective | externals/libsodium/src/libsodium/crypto_secretstream/xchacha20poly1305/secretstream_xchacha20poly1305.c:131-158 | for lengths below 2^64, different additional data, tag blocks or ciphertexts are authenticated as different texts |
| Secretstream.PullAccepts | externals/libsodium/src/libsodium/crypto_secretstream/xchacha20poly1305/secretstream_xchacha20poly1305.c:207-240 | an input is accepted exactly if it is long enough and ends in the authenticator of that text under the message's own one-time key |
| Secretstream.AcceptedOnce | externals/libsodium/src/libsodium/crypto_secretstream/xchacha20poly1305/secretstream_xchacha20poly1305.c:207-240 | in one state, two accepted inputs with one authenticator are the same input with the same additional data, unless the authenticator collides on them |
| Secretstream.AlteredIsRefused | externals/libsodium/src/libsodium/crypto_secretstream/xchacha20poly1305/secretstream_xchacha20poly1305.c:224-240 | an accepted input with its tag or ciphertext altered, or with other additional data, is refused, unless the authenticator collides |
| Argon2.IndexAlphaPicks | externals/libsodium/src/libsodium/crypto_pwhash/argon2/argon2-core.h:139-208 | in 32- and 64-bit arithmetic, the result is the element of the window of section 3.4.2 of RFC 9106 that the pseudo-random value maps to |
| Argon2.WindowMembers | externals/libsodium/src/libsodium/crypto_pwhash/argon2/argon2-core.h:144-180 | the window holds exactly the columns of the lane that are made, not about to be replaced by this lane or a parallel one, and not the previous block (in another lane, only for the first of a segment) |
| Argon2Fill.GenerateAddresses | externals/libsodium/src/libsodium/crypto_pwhash/argon2/argon2-fill-block-ref.c:112-141 | value i comes from address block i / 128 + 1 |
| Argon2Fill.InputsDiffer | externals/libsodium/src/libsodium/crypto_pwhash/argon2/argon2-fill-block-ref.c:112-141 | no two address blocks are made from the same input |
| Argon2Fill.FillSegment | externals/libsodium/src/libsodium/crypto_pwhash/argon2/argon2-fill-block-ref.c:143-234 | the running offsets with their rotation make block after block, in place and within bounds, each as the next rows determine it |
| Argon2Fill.FixedReference | externals/libsodium/src/libsodium/crypto_pwhash/argon2/argon2-fill-block-ref.c:158-166 | for Argon2i, and in pass 0 and slices 0 and 1 of Argon2id, which block is referred to is the same for all memories |
| Argon2Fill.DependentReference | externals/libsodium/src/libsodium/crypto_pwhash/argon2/argon2-fill-block-ref.c:190-205 | everywhere else it depends on the first word of the previous block and on nothing else, the compression included |
| Argon2Fill.ReferenceOfWord | externals/libsodium/src/libsodium/crypto_pwhash/argon2/argon2-fill-block-ref.c:190-214 | its lane is the upper half of that word (or generated address) modulo the lanes, or the own one in the first segment; its column is picked by the lower half from the standard's window |
| Argon2Fill.BlockFromReference | externals/libsodium/src/libsodium/crypto_pwhash/argon2/argon2-fill-block-ref.c:216-229 | the first pass compresses previous block and reference; later ones mix in what the block held |
| Argon2Fill.FillMemoryBlocks | externals/libsodium/src/libsodium/crypto_pwhash/argon2/argon2-core.c:225-245 | a pass fills slice after slice, each lane in turn |
| Argon2Fill.FillFirstBlocks | externals/libsodium/src/libsodium/crypto_pwhash/argon2/argon2-core.c:371-395 | the first two blocks of every lane, and no other, are set from the hash |
| Argon2Fill.NewBlockLocal | externals/libsodium/src/libsodium/crypto_pwhash/argon2/argon2-fill-block-ref.c:190-233 | a new block reads only its own lane and, in the others, nothing of the current slice |
| Argon2Fill.SegmentFrame | externals/libsodium/src/libsodium/crypto_pwhash/argon2/argon2-fill-block-ref.c:222-232 | filling a segment changes nothing outside it |
| Argon2Fill.LanesDoNotInterfere | externals/libsodium/src/libsodium/crypto_pwhash/argon2/argon2-core.c:236-244 | after any lanes of a slice were filled in any order, each holds what it would hold alone |
| Argon2Fill.AnyOrder | externals/libsodium/src/libsodium/crypto_pwhash/argon2/argon2-core.c:236-244 | so the order (or parallelism) of the lanes makes no difference |
| Argon2Fill.FirstPassDetermined | externals/libsodium/src/libsodium/crypto_pwhash/argon2/argon2-core.h:146-162 | the first pass reads no block before it is made: its result depends on the first two blocks of each lane alone |
| Base64.DigitsOfChars | externals/libsodium/src/libsodium/sodium/codecs.c:110-157 | the characters of 6-bit values are digits other than the padding, and map back to them |
| Base64.CharsOfDigits | externals/libsodium/src/libsodium/sodium/codecs.c:126-157 | 7-bit digits have 6-bit values that map back to the same characters |
| Base64.Alphabet | externals/libsodium/src/libsodium/sodium/codecs.c:110-157 | the 6-bit values are written A-Z, a-z, 0-9, + and /, or - and _ in the URL-safe variants |
| Base64.Bin2Base64 | externals/libsodium/src/libsodium/sodium/codecs.c:179-240 | the shift-register loop writes the encoding of section 4 or 5 of RFC 4648, padding and zero bytes, or aborts exactly when they do not fit |
| Base64.SkipPaddingLoop | externals/libsodium/src/libsodium/sodium/codecs.c:242-265 | finds the padding past ignored characters, or fails |
| Base64.Base642Bin | externals/libsodium/src/libsodium/sodium/codecs.c:267-335 | on every text: succeeds exactly when it decodes, fits the buffer and (if asked) is read to its end, then holds the decoded bytes; otherwise reports a length of 0, or of what was decoded when only the end is missing; and never touches the array beyond the buffer |
| Base64.DecodeEncode | externals/libsodium/src/libsodium/sodium/codecs.c:179-335 | decoding an encoding returns the bytes, in all four variants |
| Base64.HighIsSixtyThree | externals/libsodium/src/libsodium/sodium/codecs.c:126-157 | a (signed) character above 127 reads as the digit 63: the equality test takes it for both special characters |
| Base64.NotCanonicalAbove127 | externals/libsodium/src/libsodium/sodium/codecs.c:267-335 | so four such characters decode to three bytes 255, which encode to something else |
| Base64.EncodeDecode | externals/libsodium/src/libsodium/sodium/codecs.c:267-335 | a text accepted in full with nothing ignored is the encoding of what it decodes to if and only if it is 7-bit |
| Base64.IgnoringIsRemoving | externals/libsodium/src/libsodium/sodium/codecs.c:284-324 | with a list of characters to ignore, a text is read to its end exactly as the text without them is with no list |
| Base64.ReadUpTo | externals/libsodium/src/libsodium/sodium/codecs.c:284-327 | a text is read up to a place exactly if the part before it is read in full and does not go on with what follows |

## Left out

- Command line, ZFS commands, processes, locks, passwords and key derivation, and the choice of timestamps.
- Files that change while they are read, and errors of the file system other than in reading and writing payloads.
- Rename, deletion of a node and the breadcrumb write are atomic steps; the files of the temporary snapshot are a flag.
- Timestamps in the state machine are unbounded integers: the source's 64-bit sums of ticks could overflow.
- Local and mirrored steps may alternate in `Runs`, but files planted under the number of an already pruned node may not appear.
- After a stop between the rename and the breadcrumb write of a local commit the repository is still sound (`Snapshot.AttemptKeeps`), but no further snapshot follows, for the next search never ends (`Repository.StaleBreadcrumbIsStuck`). Listing, and restoring everything, do not end either where a valid node is stored at the breadcrumb, as it is on a mirror in quarantine; restoring single nodes does (`Restore.RestoreNode`).
- A non-zero `end` in `getNodesIncludingUntrusted`: unused in the source.
- Removal of the backend's snapshots while pruning (src/Controller.cpp:213-219): the node is deleted before its id is read, so nothing is ever removed, and nothing is claimed about it.
- `getNodeRelativeToLastTrusted` (src/RepositoryStructure.cpp:392-422) and the trial of several key slots in `decryptKeyPair` (src/Controller.cpp:139-156).
- Restoring and encryption are proved apart: the payload of the state machine is the plaintext of the encryption.
- Encryption.DecryptFromFd: the last-slot flag is any non-zero byte, where the source copies it into a `bool`.
- Encryption.EncryptToFd: chunks are collected before they are sealed, where the source seals each as it is read; so how much of the input is consumed before a write error is not described.
- Simulation.Run: the ratios are real numbers, not doubles, and from 2^59 on nothing is said of the maxima; an argument that `atoi` makes negative is a count near 2^64, which ends in the exception.
- Serialisation.Deserialiser.Deserialise: does not model that reserving memory for a huge claimed length can itself throw.
- The listing is built in ascending order, where the source appends and sorts.
- Base64.Base642Bin: `char` is signed, as on the usual platforms; with unsigned characters texts above 127 behave otherwise.
- ChaCha20, Poly1305, BLAKE2b, Curve25519 and the Argon2 compression and hash are uninterpreted functions.
- Libsodium's vectorised variants, its wrappers and size getters, and Argon2's allocation, hashing of inputs and final block.
