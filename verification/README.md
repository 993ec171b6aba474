# Verified models of the Equilibria tooling

A Dafny 4.11 model of the algorithmic scripts of the Equilibria core repository, with proofs
about them. `dafny verify dfyconfig.toml` checks everything.

## What is modelled

**The quorum mesh generator** (`MeshGraph.dfy`, `MeshRun.dfy`, `MeshChoice.dfy`,
`QuorumMesh.dfy`). The script builds a directed 0/1 matrix of connections. It probes every
possible connection in place, takes the probe back, adds the best one, and starts again until
every pair of nodes has enough paths of at most two hops. `QuorumMesh` is that matrix code over
an `array2`, proved against sets of connections: the paths between two nodes are the direct
connection plus the common neighbours, the chosen connection is the least one in the order "load
of its two ends, then pairs left behind, then place in the matrix", and the connections added
form a greedy run. About all greedy runs it is proved that they keep the mesh oriented, make at
most n(n-1)/2 passes, never lose a path, take up connections in order of load, and that there is
only one finished run. About the finished mesh it is proved that it survives the loss of any
target-1 nodes. Having t paths is in fact equivalent to surviving every combination of fewer
than t lost relays and the lost direct link (`PathsAreFaultTolerance`). `RunTakesForemost` says
what a run is without the scores of the search: each connection is compared by the mesh that it
would give.

The generator stops exactly when there are five nodes or more: `TargetReachable` shows that for
two to four nodes no matrix meets the target of four paths, so the loop guard never becomes
false, and `Generate` terminates for every n of at least five. (With one node the script fails
on an empty minimum, with none on its first assignment.)

**The stake migration** (`Stakes.dfy`, `Migration.dfy`). Nodes are filtered, their contributions
converted and rescaled, and the remainder goes to the operator. The script uses floating-point
numbers; the model uses the exact rationals 54a/100 and aR/(S+1), rounded down. `RoundingRobust`
shows that conservation does not depend on this: it holds for every inexact way of computing the
shares whose relative error is at most 1/k for some k no smaller than S. The results about
adjusting hold for whatever converted amounts they are given.

**The tx-extra decoder** (`TxExtraFormat.dfy`, `TxExtraRoundTrip.dfy`, `TxExtraWriteBack.dfy`,
`TxExtraLayout.dfy`, `TxExtraReader.dfy`). The readers cut pieces off a shared text. `RoundTrip`
is the central result: decoding what was written gives the fields back if and only if every
nonce size byte and every name-system flag byte is at most 09. The decoder reads these two as
decimal numbers although they are written in hexadecimal, so a plain 32-byte payment id (size
byte 21) is never read back while an encrypted one of 8 bytes (size byte 09) always is
(`PaymentIds`). `WriteBack` is the other direction: lower-case text that was decoded without an
error is written back as it was if and only if no field is cut short by the end of the text,
nonce sizes are from 01 to 09 and flags from 00 to 09. `TxExtraLayout` spells out the texts
themselves: the bits of the flags, how much a nonce of any size takes, and a whole transaction.

**The parallel registration** (`RpcLog.dfy`, `UnlockWait.dfy`, `RegistrationRun.dfy`,
`RunCalls.dfy`, `Registrar.dfy`). The wallet and node daemons are an arbitrary oracle that may
choose each reply by everything said before. The registrar's calls and their replies form a log.
`Registrar` is the code, proved to make exactly the calls that `IsRun` describes: each wallet is
created once, each node with an address gets one attempt at funding, then there is one wait, and
then each funded node gets one attempt at registration. About every such run it is proved that
every call stands where it may (`Safe`), that every registration is for a node whose address was
answered and then funded (`Earned`), and which nodes were created, funded, submitted and
registered. If every call is answered with enough, all nodes are registered. `RunCalls` reads
the same off the log alone: which calls a phase makes, what comes before a transfer and a
submission, what the wait has seen, and how many calls there are.

The registrar does not look at the replies to opening or creating a wallet. `InUse` is the
wallet that was last opened or created with an answer, and a transfer, a submission or an
address request is for the wallet it is meant for if and only if the opening or creation just
before it was answered or that wallet was in use already (`WalletInUse`). `WrongWallet` is a run
that makes its transfer while a node's wallet is in use. The wait for unlocked funds counts a
wallet as done when its balance request has no result. Its answer "all unlocked" is true to fact
if and only if, in the poll after which each wallet was no longer waited for, both the opening
and the balance were answered (`EmptyPendingMeansUnlocked`). If nothing is answered, the answer
is "all unlocked" after one round and no wallet was seen (`SilentWait`). The registrar goes on
to register whatever the wait has answered.

**Heights and timestamps** (`HardforkCalc.dfy`), **amount literals** (`AmountPrinter.dfy`) and
**the port plan** (`PortPlan.dfy`) are small exact pieces.

Where the code and its comments differ, the model follows the code: contributions are adjusted
whenever their sum differs from the requirement (`utils/hf21_info.py:85` only speaks of larger
sums), and a service node's ports are the base ports plus its number
(`quickstart/equilibria_testnet.py:129` speaks of twice the number).

## Model

| member | source | states |
|---|---|---|
| QuorumMesh.QuorumMatrix.constructor | utils/generate-quorum-matrix.py:119-120 | the generator starts from the mesh without connections |
| QuorumMesh.QuorumMatrix.NeighboursOf | utils/generate-quorum-matrix.py:42-48 | the list holds exactly the other nodes connected with j in either direction, each once, in order |
| QuorumMesh.QuorumMatrix.CountPathsWithinTwo | utils/generate-quorum-matrix.py:38-52 | for every 0/1 matrix the count is the direct connection plus the number of relays, whichever way the two nodes are given |
| QuorumMesh.QuorumMatrix.MinWithinTwo | utils/generate-quorum-matrix.py:92-99 | no minimum exactly for fewer than two nodes; otherwise a value that some pair attains and no pair undercuts |
| QuorumMesh.QuorumMatrix.CountNotWithinTwo | utils/generate-quorum-matrix.py:102-108 | the number of pairs with at most the given number of paths |
| QuorumMesh.QuorumMatrix.OutgoingConns | utils/generate-quorum-matrix.py:130 | the row sum is the out-degree |
| QuorumMesh.QuorumMatrix.IncomingConns | utils/generate-quorum-matrix.py:132 | the column sum is the in-degree |
| QuorumMesh.QuorumMatrix.Probe | utils/generate-quorum-matrix.py:135-141 | counts the pairs left behind by a tentative connection and leaves the mesh as it was |
| QuorumMesh.QuorumMatrix.Consider | utils/generate-quorum-matrix.py:132-141 | after each place of the matrix the best so far is the most preferred candidate among all places before |
| QuorumMesh.QuorumMatrix.BestConnection | utils/generate-quorum-matrix.py:127-141 | the matrix is unchanged; the result is the most preferred of all possible connections, ties to the first in row-major order, and (0, 0) only if there is none |
| QuorumMesh.QuorumMatrix.AddConnection | utils/generate-quorum-matrix.py:144 | exactly one connection is added and the mesh stays oriented |
| QuorumMesh.QuorumMatrix.Pass | utils/generate-quorum-matrix.py:126-144 | a pass extends the greedy run by one connection, within the bound on passes |
| QuorumMesh.QuorumMatrix.Generate | utils/generate-quorum-matrix.py:118-158 | for five or more nodes the loop ends, with the mesh of a finished greedy run |
| MeshGraph.NotWithinTwoIsSize | utils/generate-quorum-matrix.py:102-108 | counting row by row gives the size of the set of sparse pairs |
| MeshGraph.PathsSymmetric | utils/generate-quorum-matrix.py:38-40 | the number of paths does not depend on the direction |
| MeshGraph.PathsAndDegree | utils/generate-quorum-matrix.py:38-52 | relays are the common neighbours; paths never exceed the degree of an end |
| MeshGraph.PathsBound | utils/generate-quorum-matrix.py:38-52 | no mesh gives a pair more than n-1 paths |
| MeshGraph.SaturatedPaths | utils/generate-quorum-matrix.py:133-141 | with nothing left to add every pair has n-1 paths |
| MeshGraph.PathsMonotone | utils/generate-quorum-matrix.py:144 | added connections never cost a pair a path |
| MeshGraph.SparseMonotone | utils/generate-quorum-matrix.py:102-108 | added connections never raise the number of sparse pairs |
| MeshGraph.MinPathsMonotone | utils/generate-quorum-matrix.py:158 | added connections never lower the minimum |
| MeshGraph.MinPathsCoversAllPairs | utils/generate-quorum-matrix.py:126 | the loop's exit test on the minimum is a statement about all ordered pairs |
| MeshGraph.BestIsUnique | utils/generate-quorum-matrix.py:137-139 | the preference picks a single connection |
| MeshGraph.LoadMonotone | utils/generate-quorum-matrix.py:130-139 | in a larger mesh the best connection is never lighter |
| MeshGraph.CandidateLoad | utils/generate-quorum-matrix.py:127-137 | every candidate beats the initial score of 2n |
| MeshGraph.CandidateExists | utils/generate-quorum-matrix.py:126-134 | while the minimum is below n-1 there is a connection to add |
| MeshGraph.EdgeBound | utils/generate-quorum-matrix.py:133-144 | an oriented mesh has at most n(n-1)/2 connections |
| MeshGraph.Handshake | utils/generate-quorum-matrix.py:78-87 | the degrees of all nodes add up to twice the number of connections |
| MeshGraph.ConnectivityCost | utils/generate-quorum-matrix.py:126-158 | t paths between all pairs force degree t everywhere and n*t/2 connections |
| MeshGraph.PathsAreFaultTolerance | utils/generate-quorum-matrix.py:7-11 | a pair has t paths if and only if no fewer than t failures of relays and direct link can part it |
| MeshGraph.MeshFaultTolerance | utils/generate-quorum-matrix.py:126-158 | after any target-1 nodes fail, every two survivors are adjacent or share a surviving neighbour |
| MeshRun.RunInvariant | utils/generate-quorum-matrix.py:126-144 | on every run no self-connection and no pair connected both ways ever appears, and each pass adds one new connection |
| MeshRun.RunBounded | utils/generate-quorum-matrix.py:126-158 | no run makes more than n(n-1)/2 passes |
| MeshRun.RunMonotone | utils/generate-quorum-matrix.py:126-164 | along a run paths and minimum never fall and sparse pairs never rise |
| MeshRun.RunLoads | utils/generate-quorum-matrix.py:130-144 | along a greedy run the load of the chosen connections never falls from pass to pass |
| MeshRun.GreedyRule | utils/generate-quorum-matrix.py:126-144 | the rule of a pass only adds candidates, leaves no choice, and applies to unfinished meshes only |
| MeshRun.FinishedRunIsUnique | utils/generate-quorum-matrix.py:118-158 | the number of nodes and the target determine the finished run |
| MeshRun.GreedyStep | utils/generate-quorum-matrix.py:126-144 | adding the best connection below the target extends a greedy run |
| MeshRun.FinishedMesh | utils/generate-quorum-matrix.py:118-158 | cost bounds, minimum degree and fault tolerance of every finished mesh |
| MeshRun.EmptyMesh | utils/generate-quorum-matrix.py:120-124 | zero is the minimum of the mesh the generator starts from |
| MeshRun.PathsReachable | utils/generate-quorum-matrix.py:126 | t paths between all pairs can be had, by any matrix at all, if and only if t is at most n-1 |
| MeshRun.TargetReachable | utils/generate-quorum-matrix.py:28-29 | with two or more nodes the target can be met, by any matrix at all, if and only if there are at least five |
| MeshChoice.DegreesAreConnections | utils/generate-quorum-matrix.py:130-132 | row and column sums count the connections a node has opened and been sent |
| MeshChoice.EndsAreLoad | utils/generate-quorum-matrix.py:130-136 | the first part of a score is the number of connections at the two ends once the connection is there |
| MeshChoice.ShortIsLeftover | utils/generate-quorum-matrix.py:135-136 | the second part is the number of pairs that stay short in the mesh with the connection |
| MeshChoice.BestIsForemost | utils/generate-quorum-matrix.py:127-144 | the connection found is the one whose ends have fewest connections, then the one that leaves fewest pairs short, then the first in the matrix; and any such connection is the one found |
| MeshChoice.RunTakesForemost | utils/generate-quorum-matrix.py:118-158 | a list of connections is a run of the generator if and only if each is foremost, for the minimum at that moment, in the mesh of those before |
| MeshChoice.NoneShort | utils/generate-quorum-matrix.py:102-108 | the count of short pairs is zero if and only if all pairs have a path more |
| MeshChoice.RaisesWhenPossible | utils/generate-quorum-matrix.py:137-144 | a pass raises the minimum if some connection does whose ends have no more connections than those of the chosen one |
| MeshChoice.PathsSurvive | utils/generate-quorum-matrix.py:7-11 | all pairs have t paths if and only if no fewer than t failures part any two nodes |
| MeshChoice.StopsInTime | utils/generate-quorum-matrix.py:28-29 | up to ten nodes the run stops at its first mesh that survives any three failures, from eleven nodes on at the first that survives any one |
| Stakes.Converted | utils/hf21_info.py:77 | the largest whole number within 54 per cent of the amount |
| Stakes.ShareSum | utils/hf21_info.py:87-90 | rounding the shares down loses at most s/(s+1) of a unit each |
| Stakes.ScaledFallsShort | utils/hf21_info.py:87-91 | the rescaled contributions always add up to less than the requirement |
| Stakes.TopUpSum | utils/hf21_info.py:91-92 | however they were computed, topping up rescaled amounts gives the requirement if and only if they did not exceed it |
| Stakes.Conservation | utils/hf21_info.py:85-92 | adjusted contributions add up to exactly the requirement, rescaled or not |
| Stakes.LeftAlone | utils/hf21_info.py:86 | contributions are left alone if and only if they already add up to the requirement |
| Stakes.SurplusBounds | utils/hf21_info.py:91-92 | the top-up is at least 1, and less the number of contributors it is below R/(S+1) |
| Stakes.ContributorShare | utils/hf21_info.py:88-90 | nobody but the operator gets more than the exact share, and nobody loses a whole unit |
| Stakes.OperatorShare | utils/hf21_info.py:88-92 | the operator never gets less than the exact share |
| Stakes.OrderKept | utils/hf21_info.py:88-92 | the order of contributors is kept, and the largest operator stays largest |
| Stakes.RoundingRobust | utils/hf21_info.py:89-92 | conservation under every inexact computation of the shares with relative error at most 1/k, k no smaller than S |
| Migration.ConvertContributors | utils/hf21_info.py:70-78 | succeeds if and only if all contributors are registered, with addresses, converted amounts and their sum |
| Migration.Rescale | utils/hf21_info.py:87-90 | each amount replaced by its share, addresses kept, the new sum |
| Migration.Normalise | utils/hf21_info.py:86-92 | addresses kept, amounts adjusted, their sum the requirement |
| Migration.SeedFor | utils/hf21_info.py:48-98 | a seed exactly for the nodes that pass all tests, an IndexError exactly for an otherwise eligible node without contributors |
| Migration.MigrateNode | utils/hf21_info.py:47-103 | the turn of one node keeps the account of all nodes before, or fails for a node without contributors |
| Migration.GetMigration | utils/hf21_info.py:42-106 | migrated and skipped nodes account for all nodes, seeds in order, both key maps with the last assignment winning; IndexError if and only if some considered node has no contributors |
| Migration.SeedsAreFunded | utils/hf21_info.py:94-98 | every seed holds exactly the requirement, the operator's new address first |
| Migration.SeedCarriesOver | utils/hf21_info.py:77-98 | a seed has the two keys of its node and, in order, the new addresses of all its contributors |
| Migration.ExactStakesKept | utils/hf21_info.py:77-86 | a node whose converted contributions add up to the requirement has exactly those in its seed |
| Migration.SeededNodes | utils/hf21_info.py:50-83 | a node is seeded if and only if it is active, has a BLS key, its operator is its first contributor, and all contributors have a new address |
| Migration.SkippedNodes | utils/hf21_info.py:52-105 | the number of nodes not migrating is the number of nodes without a seed |
| Migration.BlsValues | utils/hf21_info.py:100 | every key of the BLS map has the BLS key of the last migrating node with that ed25519 key |
| Migration.BlsKeys | utils/hf21_info.py:100 | the keys of the BLS map are exactly the seeded ed25519 keys |
| Migration.EdkeyReplacements | utils/hf21_info.py:101-103 | no key is replaced by itself, and every replacement is the key of a seeded node |
| Migration.EdkeysReplaced | utils/hf21_info.py:102-103 | a key is replaced if and only if it is the service node key, and not the ed25519 key, of a migrating node |
| Migration.EdkeyValues | utils/hf21_info.py:102-103 | it is replaced by the ed25519 key of the last such node |
| Migration.OutcomeUnique | utils/hf21_info.py:42-106 | the accounting determines the whole outcome |
| TxExtraFormat.ReadDataSuffix | utils/parse-tx-extra.py:36-141 | every reader leaves a suffix of its text, whatever the sizes, also for a nonce size of 00 |
| TxExtraFormat.ReadFieldShrinks | utils/parse-tx-extra.py:153-157 | every field takes at least two characters |
| TxExtraRoundTrip.HexByteValue | utils/parse-tx-extra.py:125 | a hexadecimal byte above 09 read as decimal is an error or too small |
| TxExtraRoundTrip.LittleEndianRoundTrip | utils/parse-tx-extra.py:132-136 | amounts survive the little-endian byte order |
| TxExtraRoundTrip.OwnerRoundTrip | utils/parse-tx-extra.py:81-94 | an owner is read back and the following text untouched |
| TxExtraRoundTrip.OnsHeaderRead | utils/parse-tx-extra.py:99-113 | the header is read back but for its flags, which are read as decimal |
| TxExtraRoundTrip.OnsExtrasRoundTrip | utils/parse-tx-extra.py:114-130 | every combination of optional parts the flags select is read back |
| TxExtraRoundTrip.PubkeyRoundTrip | utils/parse-tx-extra.py:36-40 | a public key is read back |
| TxExtraRoundTrip.NonceRoundTrip | utils/parse-tx-extra.py:48-56 | a nonce is read back if and only if its size byte is at most 09 |
| TxExtraRoundTrip.OnsRoundTrip | utils/parse-tx-extra.py:97-130 | a name-system field is read back if and only if its flag byte is at most 09 |
| TxExtraRoundTrip.BurnRoundTrip | utils/parse-tx-extra.py:139-141 | every 64-bit burn amount is read back |
| TxExtraRoundTrip.DecodeWritten | utils/parse-tx-extra.py:153-157 | a written field followed by any text is decoded to the field and what the text gives, or to something that does not begin with the field |
| TxExtraRoundTrip.RoundTrip | utils/parse-tx-extra.py:153-157 | a written list of fields is decoded to itself if and only if all its size and flag bytes are at most 09 |
| TxExtraRoundTrip.PaymentIds | utils/parse-tx-extra.py:43-56 | 8-byte encrypted payment ids are always read back, 32-byte plain ones never |
| TxExtraWriteBack.FullFieldBack | utils/parse-tx-extra.py:36-157 | a field that is not cut short, with sizes from 01 to 09 and flags up to 09, is written back as it was read |
| TxExtraWriteBack.PrefixIsFull | utils/parse-tx-extra.py:36-157 | a field whose writing begins the text it was read from was not cut short, and its writing is what was cut off |
| TxExtraWriteBack.WriteBack | utils/parse-tx-extra.py:153-157 | lower-case text decoded without an error is written back if and only if it is made of such full fields |
| TxExtraWriteBack.NonceSizeZero | utils/parse-tx-extra.py:48-56 | with a size byte of 00 the data are all but the last two characters of the text |
| TxExtraWriteBack.SizeZero | utils/parse-tx-extra.py:48-56 | at the end of a text a size byte of 00 is read as an empty nonce and written as 01 |
| TxExtraLayout.PartsByBits | utils/parse-tx-extra.py:67-130 | bits 0 to 3 of the flags announce owner, backup owner, signature and encrypted value, and the other bits nothing |
| TxExtraLayout.AllParts | utils/parse-tx-extra.py:81-130 | the order of the parts, and of the pieces of an owner, when all are there |
| TxExtraLayout.NonceTakes | utils/parse-tx-extra.py:48-56 | a decimal size other than 00 takes twice the size less two characters, or what there is; any other size is an error |
| TxExtraLayout.PlainPaymentId | utils/parse-tx-extra.py:48-56 | a payment id of 32 bytes loses its last 24 digits to the fields after it |
| TxExtraLayout.NamePurchase | utils/parse-tx-extra.py:4 | a text laid out like the one in the usage note, with any contents, nonce tag and name type, is decoded to its four fields |
| TxExtraReader.Reader.constructor | utils/parse-tx-extra.py:15 | the reader starts with the whole text |
| TxExtraReader.Reader.Cut | utils/parse-tx-extra.py:38-39 | the piece and the remaining text are Python's two slices and together the text before |
| TxExtraReader.Reader.EatPubkeyData | utils/parse-tx-extra.py:36-40 | reads what the format says and loses no text |
| TxExtraReader.Reader.EatNonceData | utils/parse-tx-extra.py:48-56 | the same, with its two exceptions |
| TxExtraReader.Reader.EatOnsGenericOwner | utils/parse-tx-extra.py:81-94 | the same for an owner |
| TxExtraReader.Reader.EatOnsHeader | utils/parse-tx-extra.py:99-113 | the same for the fixed part of a name-system field |
| TxExtraReader.Reader.EatOptionalOwner | utils/parse-tx-extra.py:116-119 | the same for an owner the flags may leave out |
| TxExtraReader.Reader.EatOptionalSignature | utils/parse-tx-extra.py:120-123 | the same for the signature |
| TxExtraReader.Reader.EatOptionalValue | utils/parse-tx-extra.py:124-129 | the same for the encrypted value, whose size is hexadecimal |
| TxExtraReader.Reader.EatOnsExtras | utils/parse-tx-extra.py:114-130 | the same for all optional parts in order |
| TxExtraReader.Reader.EatOnsData | utils/parse-tx-extra.py:97-130 | the same for a whole name-system field |
| TxExtraReader.Reader.EatBurn | utils/parse-tx-extra.py:132-141 | the same for a burn, including short and odd amounts |
| TxExtraReader.Reader.EatData | utils/parse-tx-extra.py:145-150 | dispatch on the tag; a tag without a reader is a failed look-up |
| TxExtraReader.Reader.EatField | utils/parse-tx-extra.py:154-157 | the same for a tag with its data |
| TxExtraReader.Reader.Run | utils/parse-tx-extra.py:153-157 | ends on every hexadecimal text, prints what decoding gives, and on success the pieces cut make up the text |
| RpcLog.EffectsAppend | quickstart/equilibria_testnet.py:402-473 | the effects of consecutive safe conversations add up |
| RpcLog.EarnedAppend | quickstart/equilibria_testnet.py:466-473 | registrations for backed nodes keep every registration earned |
| RpcLog.WalletInUse | quickstart/equilibria_testnet.py:475-653 | a transfer, a submission or an address request acts on the wallet it is meant for if and only if the opening or creation before it was answered or that wallet was in use already |
| RpcLog.RightWallets | quickstart/equilibria_testnet.py:475-653 | if every opening and creation is answered, every call acts on the wallet it is meant for |
| UnlockWait.PendingShrinks | quickstart/equilibria_testnet.py:557-578 | the pending set only shrinks |
| UnlockWait.DroppedIsNotPolled | quickstart/equilibria_testnet.py:560-562 | a wallet no longer pending is never polled again |
| UnlockWait.PolledOnce | quickstart/equilibria_testnet.py:560-569 | a round polls a wallet once |
| UnlockWait.DroppedWhen | quickstart/equilibria_testnet.py:571-576 | a wallet is dropped if and only if its reply showed enough or had no result |
| UnlockWait.LeavesOnce | quickstart/equilibria_testnet.py:557-578 | there is one poll after which a wallet is no longer waited for |
| UnlockWait.SeenWhenLeaving | quickstart/equilibria_testnet.py:564-576 | a wallet no longer waited for was seen unlocked if and only if its opening and its balance were answered in that poll |
| UnlockWait.EmptyPendingMeansUnlocked | quickstart/equilibria_testnet.py:578-582 | with nothing left pending, all wallets were seen unlocked if and only if the opening and the balance of each were answered in the poll after which it was no longer waited for |
| UnlockWait.SilentWait | quickstart/equilibria_testnet.py:550-590 | if no call is answered the wait ends after one round, with nothing pending and no wallet seen |
| UnlockWait.SilentWaitExists | quickstart/equilibria_testnet.py:550-590 | such a wait for any one wallet |
| UnlockWait.SeenInLog | quickstart/equilibria_testnet.py:564-573 | a wallet was seen unlocked if and only if the calls of the wait have it opened with an answer and then a balance that suffices |
| UnlockWait.WaitOpens | quickstart/equilibria_testnet.py:558-569 | the wait opens no wallet but those waited for |
| RegistrationRun.FundingTotal | quickstart/equilibria_testnet.py:442-450 | transfers to k nodes cost exactly k times requirement and fee |
| RegistrationRun.CreationsEffects | quickstart/equilibria_testnet.py:416-422 | the creations bring about exactly the nodes whose address was answered, each with its answer in the log |
| RegistrationRun.CreatedIncreasing | quickstart/equilibria_testnet.py:416-422 | the nodes with an address come in increasing order, with numbers from 1 to n |
| RegistrationRun.FundingEffects | quickstart/equilibria_testnet.py:488-524 | an attempt at funding makes one transfer at most, of requirement and fee, straight after a balance that holds them |
| RegistrationRun.FundingsEffects | quickstart/equilibria_testnet.py:442-450 | the funded nodes got exactly one transfer each, in order |
| RegistrationRun.RegistrationEffects | quickstart/equilibria_testnet.py:592-653 | an attempt at registration submits one command at most, never after a balance shown to be short, and registers the node if and only if it was accepted |
| RegistrationRun.RegistrationsEffects | quickstart/equilibria_testnet.py:464-473 | the nodes submitted and registered are exactly those whose replies say so, in order |
| RegistrationRun.RunEffects | quickstart/equilibria_testnet.py:402-473 | every call of every run is allowed where it stands, every registration is earned, and the effects are exactly the lists of created, funded, submitted and registered nodes |
| RegistrationRun.RunLists | quickstart/equilibria_testnet.py:402-473 | these lists are nested and increasing in 1..n, and the transfers add up to requirement and fee for each funded node |
| RegistrationRun.RunWait | quickstart/equilibria_testnet.py:452-462 | the wait of a run that leaves nothing pending has seen all funded wallets unlocked if and only if each was answered in the poll after which it was no longer waited for |
| RegistrationRun.GenerousRun | quickstart/equilibria_testnet.py:402-473 | if every call of a run is answered with enough, all n nodes are registered |
| RegistrationRun.GenerousOracle | quickstart/equilibria_testnet.py:402-473 | an oracle that always answers with enough has all n nodes registered |
| RegistrationRun.OwnAddress | quickstart/equilibria_testnet.py:475-486 | a node's address is asked of its own wallet if and only if the creation of that wallet was answered |
| RegistrationRun.WrongWallet | quickstart/equilibria_testnet.py:488-524 | a run for one node without an answered opening makes its transfer while the node's wallet is in use |
| RunCalls.SeenInRun | quickstart/equilibria_testnet.py:550-590 | the same, read off the log of a whole run between the start and the end of its wait |
| RunCalls.PhaseCalls | quickstart/equilibria_testnet.py:402-473 | each phase makes its own calls only: wallets 1..n are created; the genesis wallet is opened and requirement and fee sent to created nodes; wallets of funded nodes are polled; these are opened again and their own daemons asked for commands |
| RunCalls.RunSize | quickstart/equilibria_testnet.py:402-473 | a bound on the calls of every run |
| RunCalls.StarvedRun | quickstart/equilibria_testnet.py:488-548 | without sufficient funds nobody is funded and each node with an address costs exactly 121 balances |
| RunCalls.LockedWait | quickstart/equilibria_testnet.py:550-590 | while all balances are short every wallet is asked 120 times and all stay pending |
| RunCalls.FundingAttempt | quickstart/equilibria_testnet.py:488-548 | balances of the genesis wallet until one affords the transfer, 121 at most, then the transfer; funded if and only if it was answered |
| RunCalls.RegistrationAttempt | quickstart/equilibria_testnet.py:592-653 | the attempt stops after the balance if and only if that is below the requirement, and after the command if and only if there is none; registered if and only if the submission was answered |
| RunCalls.EveryTransfer | quickstart/equilibria_testnet.py:488-524 | in every run a transfer is of requirement and fee, straight after a balance that affords them |
| RunCalls.EverySubmission | quickstart/equilibria_testnet.py:592-653 | in every run a submission is the command just answered by the daemon of a submitted node, after a balance of its wallet that is not short |
| Registrar.ServiceNodeRegistrar.AskBalance | quickstart/equilibria_testnet.py:564-569 | the three calls are made in order; the reply is the last one's |
| Registrar.ServiceNodeRegistrar.CreateSnWallet | quickstart/equilibria_testnet.py:475-486 | the creation and the request for the address are made; the address is the one answered, or empty |
| Registrar.ServiceNodeRegistrar.CreateWallets | quickstart/equilibria_testnet.py:416-422 | every wallet from 1 to n is created once, in order, and the nodes are those with an address |
| Registrar.ServiceNodeRegistrar.WaitForUnlockGenesis | quickstart/equilibria_testnet.py:526-548 | success only on a balance that shows the amount, failure only after 120 that do not |
| Registrar.ServiceNodeRegistrar.EnsureGenesisFunds | quickstart/equilibria_testnet.py:490-509 | the same with the balance looked at first |
| Registrar.ServiceNodeRegistrar.FundWalletNoWait | quickstart/equilibria_testnet.py:488-524 | one attempt: up to 121 balances, of which only the last may suffice, and the transfer if and only if it did; true exactly when the transfer was answered |
| Registrar.ServiceNodeRegistrar.FundWallets | quickstart/equilibria_testnet.py:442-450 | every created node gets one attempt, in order, and the funded nodes are those whose transfer was answered |
| Registrar.ServiceNodeRegistrar.PollPending | quickstart/equilibria_testnet.py:558-576 | a round polls exactly the pending wallets in order and keeps those shown to be short |
| Registrar.ServiceNodeRegistrar.WaitForAllUnlocks | quickstart/equilibria_testnet.py:550-590 | one round at least and 120 at most; true if and only if the last round leaves nothing pending, and otherwise all 120 are made |
| Registrar.ServiceNodeRegistrar.RegisterFundedNode | quickstart/equilibria_testnet.py:592-653 | one attempt: the command is asked for if and only if the balance was not shown to be short, and submitted if and only if there was one; true exactly when it was accepted |
| Registrar.ServiceNodeRegistrar.RegisterNodes | quickstart/equilibria_testnet.py:464-473 | every funded node gets one attempt, in order, and the result is the number accepted |
| Registrar.ServiceNodeRegistrar.OpenGenesis | quickstart/equilibria_testnet.py:434-440 | the genesis wallet is asked to be opened and refreshed |
| Registrar.ServiceNodeRegistrar.RegisterAllNodesParallel | quickstart/equilibria_testnet.py:402-473 | under every oracle the calls made are those of a run for the nodes 1..n, with the wait between funding and registration, and the result is the number registered in it |
| HardforkCalc.UnixToBlockExactly | contrib/hardfork-calc.py:10-11 | the timestamps of a block are those within a minute of its time, ends included for even blocks only |
| HardforkCalc.BlockRoundTrip | contrib/hardfork-calc.py:10-16 | a block's own time leads back to it |
| HardforkCalc.TimeRoundTrip | contrib/hardfork-calc.py:10-16 | the other way moves a timestamp by -81 to +39 seconds, both attained |
| HardforkCalc.UnixToBlockMonotone | contrib/hardfork-calc.py:10-11 | later timestamps never give earlier blocks |
| HardforkCalc.SecondsOfBlock | contrib/hardfork-calc.py:10-11 | even blocks have exactly 121 timestamps, odd ones 119 |
| HardforkCalc.ArgumentMeaning | contrib/hardfork-calc.py:20-26 | a block number given as argument comes out as the same block |
| AmountPrinter.DecimalsPrinted | contrib/mk_sqlite_snapshots.py:39 | nine digits, all of them, with the right value |
| AmountPrinter.FormatRoundTrip | contrib/mk_sqlite_snapshots.py:37-46 | reading the digits of a printed amount gives the amount |
| AmountPrinter.FormatInjective | contrib/mk_sqlite_snapshots.py:37-46 | different amounts are printed differently |
| AmountPrinter.FormatWidth | contrib/mk_sqlite_snapshots.py:37-42 | the column width is kept if and only if the amount is below 10^(digits+9) |
| AmountPrinter.NotOctal | contrib/mk_sqlite_snapshots.py:37-42 | a literal starts with the digit 0 for the amount 0 only |
| AmountPrinter.FormatLayout | contrib/mk_sqlite_snapshots.py:37-42 | spaces, then digits, with the separator in the tenth place from the end if and only if there is a whole coin |
| PortPlan.NoCollisions | quickstart/equilibria_testnet.py:849-908 | all ports are distinct if and only if there are at most 100 service nodes and at most 100 regular nodes |

## Left out

- QuorumMesh.QuorumMatrix.Generate: needs five nodes or more, because with fewer the script does not terminate or fails; the globals that are replaced for each size are one object per size.
- TxExtraReader.Reader.Run: for text of hexadecimal digits only; Python's other spellings of numbers (spaces, signs, underscores) are not modelled, and nothing is said of the text left behind by an exception.
- Stakes.Converted: the exact rational 54a/100 stands in for the binary64 product, because rounding is not the point there; everything about adjusting is proved for any converted amounts.
- Migration.GetMigration: floating-point rounding of the converted amounts, and look-ups of keys missing from the daemon's answer.
- `within_two_matrix`, tables, traces and the generated C++ text of the mesh generator: they only display counts that are modelled.
- The C++, Python and proofs files written by the migration script, and its bonus table.
- Names of the printed tags and of the fields' dictionary keys in the tx-extra decoder.
- Replies that have a result without the expected key, which raise an exception in the registrar; the text of wallet file names, which are told apart by node number; sleeping and logging.
- The sequential registration kept for backwards compatibility: it repeats the steps modelled for the parallel one.
- Dates, time zones and fractions of a second in the hard-fork calculator.
- Negative amounts in the amount printer, and the database queries around it.
- Starting and stopping containers, the monitor thread, the test-network set-up scripts, network clients and translations: input and output only.
- The consensus constants under `src/`: small tables whose users are not part of this model.
