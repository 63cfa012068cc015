# Cloudmer in Dafny

A Dafny model of the parts of the Cloudmer storage system that carry its promises, with proofs:

- **RAID-5 array** (`Raid5.dfy`, `RaidTheorems.dfy`): padding, striping, rotating parity, reading
  with one failed disk, recovery. The class `Raid5Storage` is proved against a closed-form layout;
  the theorems are about that layout and about all runs of write, fail, recover and read.
- **Ledger** (`Merkle.dfy`, `Ledger.dfy`, `Blockchain.dfy`, `Conservation.dfy`): Merkle root, nonce
  search, validation, chain replacement, and what a ledger keeps over a run.
- **Access queries** (`Access.dfy`): the two independently written answers to "who has access".
- **Network** (`Node.dfy`, `Network.dfy`, `P2P.dfy`, `Gossip.dfy`, `Racing.dfy`): one node under
  arbitrary input, a finite set of honest nodes over an unreliable network, and the flooding of new
  blocks, with an atomic seen test and with racing handlers.
- **Byte pipelines** (`Framing.dfy`, `Transfer.dfy`, `UploadLedger.dfy`, `FileCrypto.dfy`):
  length-prefixed framing, chunked upload and download, the ledger entry of an upload, chunked
  encryption.

`dafny verify dfyconfig.toml` verifies everything.

How things are modelled:

- SHA-256, MD5, zlib and JSON are function parameters, so each statement holds for all such
  functions. No injectivity is assumed. Results about hashes either return two explicit different
  inputs with one hash (`FindTampering`, `MerkleCollision`, `FindClash`) or assume that the finitely
  many block contents made in the run do not collide (`Network.CollisionFree`).
- Clock readings (one per transaction where the code reads the clock per transaction), random ids and
  nonces, and peers' responses are parameters. `Socket.Recv` returns a piece of any size the network
  likes.
- A handler that holds `_chain_lock` is one atomic step. The unlocked test of the seen-hash set and
  the locked rest of `_receive_block` are separate steps, and no network result relies on the test.
- Python exceptions raised on purpose are `Result` or `Option` values. A block dictionary with a
  missing key is `Malformed`.

Where the code and its documentation disagree, the model follows the code:

- `is_valid` says it checks that the genesis block is untouched (`blockchain.py:438`); the loop starts
  at position 1, so only the genesis hash field is tied down (`Ledger.GenesisSwap`).
- `get_file_metadata` says "most recent UPLOAD"; inside the newest block that has one it returns the
  earliest (`Access.MetadataIsNewest`, `Access.MetadataMissesNewest`).
- `_receive_block` says a rejected block triggers a sync (`p2p.py:325`); that holds exactly for
  unseen, complete blocks that are proven and above the tip (`P2P.RejectionSyncsExactly`), and a rival
  of the tip is turned away silently (`P2P.RivalRejectedSilently`).
- `sync_chain` says it adopts the longest valid chain of all peers (`p2p.py:522`); a longer response
  with a missing key raises and ends the loop. The promise holds exactly when no valid response behind
  a raising one is longer than all before it (`Node.SyncIsFirstLongest`), and two responses break it
  (`Node.SyncMissesTwoBlocks`).

## Model

| member | source | states |
|---|---|---|
| RaidTheorems.ReadAfterAnyRun | raid5.py:57-180 | After every finite run of write, fail, recover and read in which a disk fails only while no other disk is damaged, reading returns byte for byte what was written last, for every geometry and length |
| RaidTheorems.RunHolds | raid5.py:57-180 | The same from any array that holds its data with at most one damaged disk |
| RaidTheorems.StepHolds | raid5.py:57-180 | Each operation keeps "holds the last data, at most one damaged disk, known as failed"; a write repairs the array although it leaves `failed_disk` set |
| RaidTheorems.ReadReturnsData | raid5.py:113-145 | With at most one damaged disk, reading gives exactly the stored data without the padding |
| RaidTheorems.RecoverRestores | raid5.py:164-180 | Recovery puts back every original block of the failed disk and clears the mark |
| RaidTheorems.OthersDetermine | raid5.py:127-133 | Any block of a row is the XOR of the other blocks, for any number of disks |
| RaidTheorems.RowXorsToZero | raid5.py:94-106 | Every byte column of a stripe row XORs to zero |
| RaidTheorems.WrittenArray | raid5.py:75-106 | After a write: every disk has exactly the stated number of blocks of the stated size, length plus padding fills whole rows with less than a row of padding, every row XORs to zero |
| RaidTheorems.WrittenBytes | raid5.py:75-106 | Every byte off the parity disk is the data byte its slot stands for, or zero behind the data |
| RaidTheorems.FailInFields | raid5.py:149-162 | A failure marks the disk and zeroes all its bytes; no other byte or field changes |
| RaidTheorems.PlaceIsSlot | raid5.py:97-106 | Every logical block has its own slot off the parity diagonal |
| RaidTheorems.SlotIsPlace | raid5.py:97-106 | Every slot off the parity diagonal belongs to exactly one logical block, so placement is a bijection |
| RaidTheorems.SlotContent | raid5.py:85-106 | A data slot stores exactly the bytes of its logical block |
| RaidTheorems.ParityOncePerWindow | raid5.py:97-98 | Any n+1 consecutive rows put parity on each disk exactly once |
| RaidTheorems.ParityCountIs | raid5.py:97-98 | How often a disk carries parity among the first rows, in closed form |
| RaidTheorems.ParityBalanced | raid5.py:97-98 | Over any number of rows two disks carry parity equally often up to one |
| RaidTheorems.TwinLooksAlike | raid5.py:85-106 | Every payload with a full first row has a different payload of the same length with the same blocks on all but two given disks |
| RaidTheorems.NoDoubleFaultReader | raid5.py:85-106 | No reader of the remaining disks can be right for all payloads once two disks are lost |
| RaidTheorems.SecondFaultLosesData | raid5.py:149-160 | After a second failure the array is in the same state for two different payloads |
| RaidTheorems.TwoFailures | raid5.py:113-160 | After a write and two failures every payload of a given length reads back exactly when both hit one disk or one of them is a data disk the length leaves unused (the first, or the second when the first carries row 0's parity); from one full row on that means one disk |
| RaidTheorems.SurvivesExactly | raid5.py:57-180 | After a write of at least one full row, every payload of that length survives a run of failures, recoveries and reads exactly when no disk fails while another is damaged |
| RaidTheorems.UnsafeRunLosesData | raid5.py:149-180 | Any run with such a second fault loses some payload of every length from one full row on, whatever follows |
| RaidTheorems.RunsMeet | raid5.py:149-180 | From the second fault on, two payloads that differ only on the two disks leave one and the same array |
| RaidTheorems.HarmlessReadBack | raid5.py:113-160 | The harmless direction, payload by payload |
| RaidTheorems.DataDiskLost | raid5.py:136-160 | A payload byte on the first failed disk is read as zero after the second failure |
| RaidTheorems.ParityLost | raid5.py:127-160 | A used data disk is not rebuilt once row 0's parity is gone |
| Xor.XorBytes | raid5.py:9-15 | The nested loops compute the byte-wise XOR of all arrays over the first one's length |
| Xor.XorAtWithout | raid5.py:129-132 | Leaving one block out cancels exactly that block |
| Raid5.Raid5Storage.Create | raid5.py:35-53 | Fewer than two data disks is a ValueError; otherwise an empty healthy array, also for a stripe size of zero |
| Raid5.Raid5Storage.constructor | raid5.py:39-53 | The empty array of the given geometry |
| Raid5.Raid5Storage.PadData | raid5.py:75-83 | Padding and row count by remainder and division are the least that fill whole rows |
| Raid5.Raid5Storage.SliceRow | raid5.py:86-92 | The slices are the data blocks of that row |
| Raid5.Raid5Storage.PlaceRow | raid5.py:100-106 | Each disk gets one more block: data in order, parity at its disk |
| Raid5.Raid5Storage.Write | raid5.py:57-109 | The new array is the closed-form layout of the padded data and `failed_disk` is kept; with a stripe size of zero the array is cleared and the division fails |
| Raid5.Raid5Storage.StripeData | raid5.py:74-109 | From a cleared array: the layout of the padded data |
| Raid5.Raid5Storage.CollectRow | raid5.py:124-134 | The stored row with the failed disk's block replaced by the XOR of the others |
| Raid5.Raid5Storage.ExtractData | raid5.py:136-139 | The data blocks of the row in order, the parity disk skipped |
| Raid5.Raid5Storage.Read | raid5.py:113-145 | All rows' data with the padding cut off; nothing is changed |
| Raid5.Raid5Storage.SimulateDiskFailure | raid5.py:149-162 | Out of range is an IndexError and changes nothing; otherwise that disk is zeroed and marked |
| Raid5.Raid5Storage.RecoverDisk | raid5.py:164-180 | Every block of the failed disk is rebuilt from the others and the mark cleared; without a failed disk nothing happens |
| MerkleTree.RootLoop | blockchain.py:72-80 | The loop ends after ceil(log2 n) rounds at the root of the perfect tree over the leaves extended by repeating the last subtree |
| MerkleTree.RoundsEndAtRoot | blockchain.py:72-80 | Any sequence of rounds, each hashing neighbours of the one before and a last odd hash with itself, ends at that root |
| MerkleTree.NextLevel | blockchain.py:73-78 | One round: duplicate an odd last hash, then hash neighbours |
| MerkleTree.ExtendThenPair | blockchain.py:72-78 | A round on the extended leaves is the extension of the next level |
| MerkleTree.RootOfPairs | blockchain.py:75-78 | The root of a perfect tree is the root of its next level |
| MerkleTree.LevelUpKeepsRoot | blockchain.py:72-78 | Every round keeps the reference root and takes off one level |
| MerkleTree.PerfectRootBinds | blockchain.py:57-80 | Equal roots over 2^k leaves force equal leaves or the walk down ends at an explicit clash |
| MerkleTree.TreeRootBinds | blockchain.py:57-80 | Lists of one depth have one root exactly when their extensions agree, unless a clash is returned |
| MerkleTree.OddTailRepeats | blockchain.py:73-74 | Without equal lengths the root does not bind: appending the last leaf of an odd list again never changes it |
| Ledger.MerkleRootBinds | blockchain.py:57-80 | Equal roots over equally many transactions: the same texts in order, or an explicit digest collision |
| Ledger.MerkleRootIsLastRound | blockchain.py:57-80 | On texts and digests: the root of no transactions is the digest of "empty", of others the one hash that the rounds over the digests of their texts end in |
| Ledger.TamperEvident | blockchain.py:435-459 | Valid chains of one length with one tip hash agree on every block from position 1 on and on the genesis hash, or the walk returns two different contents with one text or two texts with one digest |
| Ledger.AlteredUnderSameHash | blockchain.py:443-459 | One block altered under its old hash: the chain stays valid exactly if it names the same previous hash and its text has the old digest, which takes the old text or a digest collision |
| Ledger.ValidInFields | blockchain.py:435-459 | A chain is valid exactly when from position 1 on every stored hash is the digest of the whole block text, starts with the target, and the previous hash is the one stored before |
| Ledger.ProofInFields | blockchain.py:229-230 | A proof holds exactly when the stored hash starts with the target and is the digest of the block text |
| Ledger.TargetIsPrefix | blockchain.py:217-219 | Starting with the target means starting with as many zeros as the difficulty |
| Ledger.ReplaceInFields | blockchain.py:463-485 | A chain is taken over, block for block, exactly when it is longer, complete and valid in these terms; it raises exactly when it is longer and a key is missing |
| Ledger.MinedInFields | blockchain.py:221-310 | The mined block field by field, with the least nonce whose digest starts with the target |
| Ledger.RewardInFields | blockchain.py:294-299 | The reward names the miner and no file |
| Ledger.GenesisSwap | blockchain.py:435-459 | Replacing the first block keeps a chain valid exactly when nothing follows it or the hash field is the same |
| Ledger.MinedExtends | blockchain.py:300-310 | A mined block links to the tip, proves its work, and has the position as index |
| Blockchain.Block.constructor | blockchain.py:27-55 | Fields as given, Merkle root of the transactions, hash of the contents |
| Blockchain.Block.ComputeMerkleRoot | blockchain.py:57-80 | The digest of "empty" or the tree root of the transaction hashes |
| Blockchain.Block.FromDict | blockchain.py:95-106 | A missing key is a KeyError; otherwise `to_dict` gives the dictionary back unchanged |
| Blockchain.ProofOfWork.Mine | blockchain.py:221-227 | The search ends at the least good nonce; the other hashed fields are untouched |
| Blockchain.CloudBlockchain.constructor | blockchain.py:252-264 | One genesis block with a correct hash, nothing pending |
| Blockchain.CloudBlockchain.AddTransaction | blockchain.py:278-281 | Appends to the pool only; answers tip index plus one |
| Blockchain.CloudBlockchain.MinePendingTransactions | blockchain.py:285-312 | ValueError on an empty pool; otherwise one block with the pool and a reward, mined on the tip, and an empty pool |
| Blockchain.CloudBlockchain.ChainIsValid | blockchain.py:443-459 | The loop decides hash, link and proof of every block from position 1 on |
| Blockchain.CloudBlockchain.IsValid | blockchain.py:435-459 | The same for the ledger's own chain, in both directions |
| Blockchain.CloudBlockchain.DecodeAll | blockchain.py:473-476 | Succeeds exactly when no block lacks a key, and then carries all dictionaries in order |
| Blockchain.CloudBlockchain.ReplaceChain | blockchain.py:463-485 | Takes over exactly the strictly longer, complete and valid chains; a KeyError or refusal changes nothing |
| Blockchain.CloudBlockchain.GetFileMetadata | blockchain.py:316-325 | Newest block first, first UPLOAD within it |
| Blockchain.CloudBlockchain.AnyDelete | blockchain.py:332-336 | Finds a DELETE of the file exactly when the chain has one |
| Blockchain.CloudBlockchain.ReplayBlock | blockchain.py:341-361 | One block's part of the replay |
| Blockchain.CloudBlockchain.ReplayChain | blockchain.py:338-361 | The second loop replays all blocks in order |
| Blockchain.CloudBlockchain.CheckAccess | blockchain.py:327-363 | The loops compute the replay that `Access.CheckIsNewest` characterises, one clock reading per transaction |
| Blockchain.CloudBlockchain.AccessBlock | blockchain.py:401-407 | One block's part of the access set |
| Blockchain.CloudBlockchain.GetAccessList | blockchain.py:391-409 | The loops compute the set that `Access.ListByPosition` characterises |
| Access.CheckIsNewest | blockchain.py:327-363 | Access is granted exactly when no DELETE of the file is on the chain and the newest event affecting the user is an upload naming them or a grant that was live when the clock was read for it |
| Access.LastWordDecides | blockchain.py:327-363 | In the fields of the transactions: without a DELETE, the last one that speaks of the user decides, however many others follow; an upload and a grant read before its expiry give access |
| Access.NoWordNoAccess | blockchain.py:338-363 | A user of whom no transaction speaks has no access |
| Access.GrantAtTheEnd | blockchain.py:354-357 | A grant at the end gives access exactly while the clock reading is before its expiry |
| Access.ReplayIsNewest | blockchain.py:338-363 | The replay alone, read the same way |
| Access.CheckByPositions | blockchain.py:327-363 | The same by positions of the newest naming upload and the newest grant or revocation |
| Access.ListByPosition | blockchain.py:391-409 | A user is listed exactly when their newest grant or revocation is a grant, or they have none and the metadata upload names them, whatever keys are missing elsewhere |
| Access.ListLastWord | blockchain.py:391-409 | For every user, "" included: with metadata the last grant or revocation decides |
| Access.ListWithoutWord | blockchain.py:391-399 | Without one, the metadata owner and access list do |
| Access.MetadataInFields | blockchain.py:316-325 | The metadata is the first UPLOAD of the file in the last block that has one |
| Access.NoMetadataInFields | blockchain.py:316-325 | There is none exactly without an UPLOAD of the file |
| Access.AgreementExactly | blockchain.py:327-409 | The two answers agree for a user exactly outside a complete list of situations: deletion, grant without upload, expiry, re-upload after revocation, named by another upload |
| Access.ListIsCheck | blockchain.py:327-409 | With one UPLOAD first, no DELETE and no expired grant, the list is exactly the users the check accepts |
| Access.DifferByDeletion | blockchain.py:327-409 | Upload and DELETE: listed, not accepted |
| Access.DifferByMissingUpload | blockchain.py:327-409 | A grant without an upload: accepted, not listed |
| Access.DifferByExpiry | blockchain.py:327-409 | An expired grant: listed, not accepted |
| Access.DifferByReupload | blockchain.py:327-409 | A revocation, then the user uploads again: accepted, not listed |
| Access.DifferByOtherUpload | blockchain.py:327-409 | Two users upload one file: the first is accepted, not listed |
| Access.MetadataIsNewest | blockchain.py:316-325 | The metadata is the newest UPLOAD exactly when the newest block with one starts and ends with the same UPLOAD |
| Access.MetadataMissesNewest | blockchain.py:316-325 | Two uploads in one block: the older is reported |
| Conservation.NothingLost | blockchain.py:278-312 | Blocks' transactions without rewards, in order, plus the pool equal the submission history; the rewards are exactly the successful minings, height minus one |
| Conservation.MineAccounts | blockchain.py:285-312 | One mining moves the pool into the chain and adds one reward |
| Conservation.StepAccounts | blockchain.py:278-312 | Either operation keeps the account, adding what it submits and what it earns |
| Node.AcceptedExactly | p2p.py:344-367 | A received block is accepted exactly when it is proven, links to the tip and has a greater index; that it is the next index is not tested |
| Node.VerdictInFields | p2p.py:341-366 | Each verdict on a block in the fields of the block and the tip |
| Node.AcceptedPool | p2p.py:367-377 | Accepting a block appends it and removes from the pool exactly the entries whose non-empty file hash one of its transactions carries; the others keep their order |
| Node.AcceptedPoolCounts | p2p.py:369-377 | The same by counting each entry |
| Node.RejectedChangesNothing | p2p.py:344-360 | A block that is not accepted leaves chain and pool alone |
| Node.QueuedInFields | p2p.py:274-286 | A transaction is queued at the end unless a pending one has both its file hash and its time stamp |
| Node.UnconfirmedKeeps | p2p.py:368-377 | The pool after acceptance: entries the block does not confirm as often as before, the confirmed ones gone |
| Node.UnconfirmedAdd | p2p.py:374-377 | Filtering keeps the pool's order |
| Node.StepMoves | p2p.py:255-437 | Any single step appends one linked block, takes over a strictly longer valid chain, or leaves the chain alone, and keeps validity |
| Node.AnyRunKeepsValidity | p2p.py:255-437 | Over every run with arbitrary incoming blocks and chains: validity is kept, height never drops, every change is of those two kinds |
| Node.FinalHeightCoversResponses | p2p.py:520-539 | With anything interleaved, the final height is at least that of every valid chain received |
| Node.HeightsGrow | p2p.py:255-437 | Heights never drop in a run from any chain, valid or not |
| Node.SyncIsFirstLongest | p2p.py:520-539 | Without interference the result is the first longest among our chain and all valid responses exactly when no valid response behind a raising one is longer than all that counted before it |
| Node.SyncUpToStop | p2p.py:520-539 | In any case it is the first longest of the responses up to the first that raises |
| Node.SyncMissesLonger | p2p.py:520-539 | A longer response with a missing key hides every longer valid response behind it |
| Node.SyncMissesTwoBlocks | p2p.py:520-539 | Two concrete responses: a one-block chain is kept although a valid chain of two blocks was received |
| Network.ChainsAreGenuine | p2p.py:341-391 | Honest network, no content collision: every block of every node's chain was created by a node and its index is its position |
| Network.OneHashOnePrefix | p2p.py:341-391 | Two chains sharing a hash share it at one position and are identical up to it |
| Network.AppendedAtMostOnce | p2p.py:330-437 | Mining and receiving together append a block to a node at most once, even when handlers race past the seen test |
| Network.SecondCopyRejected | p2p.py:352-355 | A block the node appended before never passes the locked tests again |
| Network.ChainsStayValid | p2p.py:255-437 | Every node's chain passes `is_valid` in every reachable state, with or without collisions |
| Network.LinkedIndex | p2p.py:352-366 | A created block that links to the tip carries the next index although only "greater" is tested |
| Network.StepInv | p2p.py:313-437 | Every step of the network keeps the invariant |
| P2P.P2PNode.Dispatch | p2p.py:229-309 | Each message takes its own step; HELLO also adds a peer; HELLO, GET_CHAIN, GET_CHUNK and GET_PEERS are answered and nothing else; only NEW_BLOCK starts a thread; only a longer chain with a missing key raises |
| P2P.P2PNode.HandleChain | p2p.py:255-266 | Takes exactly the chain-replacement step |
| P2P.P2PNode.HandleGetChain | p2p.py:245-253 | Answers the chain and its height |
| P2P.P2PNode.HandleNewTx | p2p.py:274-291 | Queued unless an entry with the same file hash and time stamp is pending |
| P2P.P2PNode.SubmitTransaction | p2p.py:543-554 | Always queued |
| P2P.P2PNode.MineOnce | p2p.py:428-437 | The locked mining step, then the new hash is marked |
| P2P.P2PNode.CheckAndMark | p2p.py:327-332 | Reports whether the hash was seen and marks it |
| P2P.P2PNode.Confirmed | p2p.py:369-373 | The set of non-empty file hashes of the block |
| P2P.P2PNode.DropConfirmed | p2p.py:374-377 | The pool without those entries, order kept |
| P2P.P2PNode.AcceptLocked | p2p.py:341-391 | Proof, index and link tests in this order; only acceptance changes chain and pool |
| P2P.P2PNode.ReceiveBlock | p2p.py:313-394 | The whole handler: duplicate, undecodable, or judged, and the thread it starts |
| P2P.SyncStartsExactly | p2p.py:327-394 | A sync starts exactly for an unseen, complete, proven block above the tip that does not link |
| P2P.ReceiveInFields | p2p.py:327-391 | The hash is marked in any case; the chain grows by the block exactly if it is new, complete, proven, above the tip and linked |
| P2P.GossipStartsExactly | p2p.py:327-391 | Gossip starts exactly for an unseen, complete block that extends the tip, and then and only then the chain grows, by that block |
| P2P.RejectionSyncsExactly | p2p.py:316-394 | "A rejected block triggers a sync" is met exactly by unseen, complete, proven blocks above the tip |
| P2P.RivalRejectedSilently | p2p.py:345-355 | A rival block at the height of the tip is rejected and no sync starts |
| P2P.P2PNode.GossipBlock | p2p.py:396-406 | Forwarded to all peers but the origin; those that did not answer are dropped |
| P2P.P2PNode.SyncChain | p2p.py:520-539 | Offers the responses in order until one raises |
| GossipLink.DeliveryIsGossipStep | p2p.py:329-406 | Handling a delivered block, and the gossip thread it starts if any, is one step of the flooding model |
| GossipLink.TargetsAreGossiped | p2p.py:396-406 | The targets and the kept peers in that step are those of `GossipBlock` |
| Gossip.GossipTerminates | p2p.py:329-406 | Without new mining every run is finite: its length is at most the messages in flight plus one round of peers per unseen node and hash |
| Gossip.StepShrinks | p2p.py:385-406 | Every delivery or loss lowers that measure |
| Gossip.ForwardsBounded | p2p.py:396-406 | A block is forwarded in all at most as often as the peer sets have members |
| Racing.RacingFloodsEnd | p2p.py:327-437 | Honest network, no content collision, handlers racing past the seen test: a block is sent at most once along every peer link, the broadcast of its miner included, and all copies together are handled in at most three steps per link and created block |
| Racing.RunRaceInv | p2p.py:327-437 | After every run: every append has paid for its copies, only created blocks are under way, and the moves of copies are covered by the copies sent |
| Racing.StepSent | p2p.py:341-406 | Each move keeps the copies sent of a block within the peers of the nodes that appended it |
| Racing.StepWork | p2p.py:327-406 | Losing, testing, marking and locking each use up work that only sending adds |
| Stream.RecvExactly | p2p.py:68-75 | However the stream is segmented: exactly n bytes, or nothing when it ends first |
| SizeFraming.RecvBySize | tcp_by_size.py:12-36 | Reads one frame whatever the segmentation; empty on a cut or a negative length; ValueError on a header that `int` refuses |
| SizeFraming.SendWithSize | tcp_by_size.py:42-50 | Seven-digit decimal length, a bar, the payload |
| SizeFraming.FrameInFields | tcp_by_size.py:42-47 | The frame byte by byte: seven decimal digits, the highest first, a bar, the payload |
| SizeFraming.FrameSurvives | tcp_by_size.py:6-50 | A payload comes back exactly when it is shorter than 10^7 bytes |
| SizeFraming.ParseFrame | tcp_by_size.py:12-50 | A frame parses to its payload and leaves exactly what follows |
| SizeFraming.ParseOverlong | tcp_by_size.py:45-48 | From 10^7 bytes on the header overflows and the payload is lost |
| SizeFraming.ParseCut | tcp_by_size.py:15-36 | A stream cut anywhere inside a frame gives the empty result, never a shorter payload |
| SizeFraming.FramesSurvive | tcp_by_size.py:12-50 | A list of payloads comes back in order and nothing more is consumed |
| SizeFraming.FramesThenCut | tcp_by_size.py:12-50 | Whole frames and then a cut one give those payloads, then the empty result |
| Decimal.IntOfDigits | tcp_by_size.py:25 | `int` with its blanks, signs and underscores reads a string of digits as its value |
| Decimal.IntWithBlanks | tcp_by_size.py:25 | Blanks on either side do not matter |
| Decimal.IntWithSign | tcp_by_size.py:25 | A sign in front negates or not |
| Decimal.IntWithUnderscore | tcp_by_size.py:25 | A single underscore between digits is skipped |
| Decimal.TwoUnderscoresRefused | tcp_by_size.py:25 | Two in a row are a ValueError |
| Decimal.IntRefuses | tcp_by_size.py:25 | Any other character is a ValueError |
| BigEndianFraming.EncodeMessage | p2p.py:47-50 | The JSON text behind its length; struct.error from 2^32 bytes on |
| BigEndianFraming.DecodeMessage | p2p.py:53-65 | Reads one 4-byte-length frame; None on a cut or a body that is not JSON; a body that is not UTF-8 raises |
| BigEndianFraming.UnpackPack | p2p.py:50-59 | The big-endian length round-trips below 2^32 |
| BigEndianFraming.FrameInFields | p2p.py:49-50 | The first length byte sent is the most significant one |
| BigEndianFraming.BodyInFields | p2p.py:56-62 | The first length byte read is the most significant one, and as many bytes as they say are taken |
| BigEndianFraming.MessageSurvives | p2p.py:47-75 | Encoding succeeds exactly below 2^32 bytes of JSON; then the message comes back; every cut gives None |
| BigEndianFraming.MessagesSurvive | p2p.py:47-75 | The same for lists of messages |
| BigEndianFraming.MessagesThenCut | p2p.py:47-75 | Whole messages and then a cut one give those messages, then None |
| Transfer.Server.HandleUploadInit | cloudmer_SRV.py:190-203 | Registers an empty transfer |
| Transfer.Server.HandleChunk | cloudmer_SRV.py:206-229 | Unknown id, empty payload and bad compression are refused; otherwise the index is overwritten; for an unknown id the payload stays on the connection |
| Transfer.ChunkInFields | cloudmer_SRV.py:206-229 | Each answer in the fields of the message, and what is stored where; every other transfer and all files stay as they are |
| Transfer.Server.HandleUploadDone | cloudmer_SRV.py:232-262 | The transfer is always dropped; missing chunk, MD5 mismatch or the stored file |
| Transfer.SliceFile | cloudmer_CLIENT.py:277-305 | One message per megabyte slice, compressed only when worth it |
| Transfer.PackedInFields | cloudmer_CLIENT.py:277-305 | Message i carries megabyte i of the file, compressed exactly if that saves more than a tenth, and as many messages as cover the file |
| Transfer.HoldsLastWrites | cloudmer_SRV.py:206-229 | Whatever other transfers do, a transfer holds exactly the last write of each of its indices |
| Transfer.DoneReassembles | cloudmer_SRV.py:232-262 | Completion succeeds only if all indices arrived, with the join of the last writes, else names the first missing index |
| Transfer.UploadFile | cloudmer_CLIENT.py:274-311 | The client's whole exchange with the server is `Exchange`, and nothing is left unread |
| Transfer.ExchangeStores | cloudmer_CLIENT.py:274-311 | The exchange stores the file and succeeds exactly when the file is not empty; the transfer is gone afterwards |
| Transfer.UploadRoundTrip | cloudmer_CLIENT.py:277-311 | However the client's chunks are interleaved, reordered or repeated, the original file is stored exactly when it is not empty |
| Transfer.DownloadFile | cloudmer_CLIENT.py:347-365 | Collects by index; fails when messages run out, an index is missing or the MD5 differs |
| Transfer.DownloadExactly | cloudmer_CLIENT.py:347-365 | Whatever arrives: the download ends with `data` exactly when all announced messages came, each decodes, every index is among them, `data` joins the last payloads, and its MD5 is the announced one |
| Transfer.DownloadRoundTrip | cloudmer_SRV.py:160-178 | In any order of the chunks the download is the file, the empty file included |
| UploadLedger.FinishUpload | cloudmer_SRV.py:232-281 | A failed DONE leaves the ledger alone; a successful one appends one block with the pool, the upload entry and the reward |
| UploadLedger.AddThenMine | cloudmer_SRV.py:275-277 | Submitting and mining appends exactly that block and empties the pool |
| UploadLedger.UploaderHasAccess | cloudmer_SRV.py:267-277 | After it the uploader passes `check_access` exactly when no DELETE of the same content was ever recorded, so storing a deleted file again gives no access |
| UploadLedger.OthersKeepAccess | cloudmer_SRV.py:267-277 | The new block changes nobody else's access unless the pool speaks of them |
| UploadLedger.UploadTxInFields | blockchain.py:127-149 | The entry is an UPLOAD of the file by its owner with an empty access list |
| FileCrypto.CipherInverts | crypto.py:35-37 | Ciphering twice with one key gives the data back |
| FileCrypto.CipherMasks | crypto.py:35-37 | Ciphertext and data differ, byte by byte, by the repeated key |
| FileCrypto.CipherTellsKeys | crypto.py:35-37 | Data at least as long as the key is ciphered alike only by equal keys |
| FileCrypto.WrongKeyFails | crypto.py:155-185 | Data that covers key and nonce comes back exactly with the right key |
| FileCrypto.ChunkAndEncrypt | crypto.py:225-248 | One sealed record per piece in file order; a zero chunk size is a ValueError |
| FileCrypto.SealedInFields | crypto.py:225-236 | Record k: its index, digest and length of its stretch of the file, the nonce, and a ciphertext that differs from the stretch by key and nonce repeated |
| FileCrypto.SortOrders | crypto.py:260 | Sorting by index orders the records |
| FileCrypto.SortStable | crypto.py:260 | Records with one index keep their order |
| FileCrypto.ReconstructFile | crypto.py:260-277 | Decrypts in index order, fails on the first hash mismatch |
| FileCrypto.ReconstructsExactly | crypto.py:260-277 | Whatever records come: the result is `file` exactly when it joins, in index order, the unmasked ciphertexts and each of these has the recorded digest |
| FileCrypto.AnyOrderReconstructs | crypto.py:205-277 | Any permutation of the encrypted chunks reconstructs the file with no assertion failing, for every chunk size above 0 and the empty file |

## Left out

- Blockchain.ProofOfWork.Mine: takes for granted that some nonce is good, because the search loop does not end otherwise; nonces are unbounded integers in both.
- Blockchain.CloudBlockchain.MinePendingTransactions: the same assumption about the next block.
- P2P.P2PNode.MineOnce: the same assumption about the next block, as in UploadLedger.FinishUpload for the block of the upload.
- Raid5.Raid5Storage.Create: a negative stripe size is not modelled; with zero only construction and `write` are.
- Xor.XorBytes: needs every array to be at least as long as the first; a shorter one is an IndexError that the array never causes.
- Network.ChainsAreGenuine: needs that no two different block contents of the run share a hash and that chains in messages are some node's chain; `_receive_block` and `is_valid` do not test indices themselves.
- Gossip.GossipTerminates: check and mark of the seen hash are one step here and peer sets only shrink, for any network; with racing handlers and honest nodes see `Racing.RacingFloodsEnd`.
- Transfer.Server.HandleUploadDone: the ledger entry that follows is `UploadLedger.FinishUpload`.
- Transfer.SliceFile: the comparison with 0.9 of the slice length is in integers instead of floating point; both choices round-trip.
- Access.AgreementExactly: for the user "" alone, needs the owner of uploads and the target of grants and revocations to be present; the list puts "" in for an absent one, the check never matches it.
- Access.ListByPosition: the same, and so `Access.ListIsCheck`.
- Transfer.Server.HandleChunk: what the session loop does with a payload left unread is not modelled. CorruptPayload stands for zlib's exception, which ends the session.
- The text syntax of the client commands and their "Bad format" answers, login, file lists, star, trash and restore: thin.
- Sockets, threads, timeouts, logging, callbacks, files and QML: input, output and user interface.
- Liveness of peer sets and `connect_to_peer`; base64 around a chunk; `database.py` and `aes_functions.py` are not part of this model.
- Pending transactions at network level: accepting a block or a longer chain can drop some, so there is nothing to conserve.
- AES, RSA, signatures, base64, JSON, zlib and the hash functions: library code.
- `load` and `save` of chains: persistence without validation.
- `get_user_files`, `get_file_history`, `get_stats` and the transaction constructors: easy folds.
