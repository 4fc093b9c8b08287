# rbc ledger core in Dafny

This project models the ledger engine of rbc, a single-node blockchain written in Rust. It covers:

- **Transactions** (`transaction.dfy`, module `Transactions`). These are coinbase rewards and signed transfers. The module models their validity rule, the message that gets signed, and the fixed-size record codec with `from_file`, which reads `count` records back from the block log.
- **Blocks** (`block.dfy`, module `Blocks`). A block is a header plus a transaction list. The module models:
  - the stored form of a block and its hash preimage;
  - proof-of-work sealing (`pow` / `validate`);
  - the constructors `new`, `new_genesis` and `new_with_tx`;
  - the transaction policy `has_valid_transactions`.

  The header field `height` holds the mining difficulty, not the block's position in the chain.
- **Block store** (`db.dfy`, module `BlockStore`). This is the append-only block log. The class `BlockDB` holds the file bytes, a read cursor and a block count. It has `open`, `next`, `push`, `last_block` and `reset`. The function `Step` describes one call of `next`, including its quirks:
  - a header read error yields nothing and keeps the cursor;
  - the end of the file rewinds the cursor;
  - a short header is decoded anyway;
  - a failed or short transaction read yields the block with no transactions.

  `Scan` is the list of blocks that one pass reads.
- **Ledger** (`blockchain.dfy`, module `Ledger`). The class `Blockchain` has `load` (bootstrap a genesis block), `mine` (link a new block to the tip), `balance_of` (a running balance that refuses to go below zero) and `is_valid` (two passes: per-block checks, then hash links). Each is specified against a pure function of the log: `BalanceFold`, `AllIntact`, `Linked` and `ChainValid`.
- **Encoding helpers** (`encode.dfy`, module `Encode`). This covers lower-case hex rendering, which proof of work inspects, and an explicit little-endian fixed-width integer codec.

`keys.dfy` (module `Keys`) holds the wallet and key types. The SHA-256 and Ed25519 primitives are uninterpreted function values in a `Crypto` datatype, which every operation that hashes or signs takes as a parameter. `outcomes.dfy` holds `Option` and `Result`.

The clock is a parameter: the `timestamp` of `load` and `mine`. OS read failures are a `ReadFault` parameter of `BlockDB.Next`. The file is an in-memory byte sequence.

## Model

| member | source | states |
|---|---|---|
| Encode.Sha256Hash | src/encode.rs:10-18 | a digest is always SHA256_HASH_SIZE = 32 bytes |
| Encode.EncodeInt | src/encode.rs:20-33 | writes exactly `width` bytes, the little-endian representation `ToLE(n, width)` |
| Encode.FromToLE | src/encode.rs:20-33 | decoding an encoded integer that fits its width gives the integer back |
| Encode.ToFromLE | src/encode.rs:20-33 | encoding a decoded byte string gives the same bytes back |
| Encode.Hex | src/encode.rs:35-41 | the loop builds `HexOf(bytes)`: two characters per byte, in byte order |
| Encode.HexByteRoundTrip | src/encode.rs:38 | each byte renders as two lower-case hex digits, high nibble first, from which the byte is recovered |
| Encode.HexByteZero | src/encode.rs:38 | a byte renders as "00" exactly when it is 0 |
| Encode.HexAppend | src/encode.rs:36-40 | hex of a concatenation is the concatenation of the hex renderings |
| Encode.HexAt | src/encode.rs:37-39 | byte i is rendered at characters 2i and 2i+1 |
| Encode.HexPairZero | src/encode.rs:38 | each of a byte's two digits is '0' exactly when its nibble is zero |
| Encode.LeadingZeroDigits | src/block.rs:205-212 | the hex starts with d zeros iff the first d/2 bytes are zero and, for odd d, the next byte's high nibble is zero |
| Encode.LeadingZerosToBytes | src/block.rs:205-212 | d leading '0' digits force the byte-level zero prefix |
| Encode.BytesToLeadingZeros | src/block.rs:205-212 | the byte-level zero prefix gives d leading '0' digits |
| Encode.LeadingZeroBytes | src/encode.rs:38 | the hex starts with 2k zeros iff the first k bytes are zero |
| Transactions.DecodeTx | src/transaction.rs:102-112 | a record whose flag byte is 0 or 1 is exactly the encoding of the transaction it decodes to |
| Transactions.EncodeTx | src/transaction.rs:39-58 | a transaction's record has the fixed length TX_SIZE = 133 |
| Transactions.DecodeEncodeTx | src/transaction.rs:48-58 | decoding an encoded record reproduces value, sender, receiver, signature and coinbase flag |
| Transactions.NewCoinbase | src/transaction.rs:118-120 | a coinbase with the given value and receiver, an all-zero sender and an all-zero signature |
| Transactions.New | src/transaction.rs:122-134 | not a coinbase; the value, sender key and receiver key come from the arguments; valid whenever the sender's keys are a signing pair |
| Transactions.Sign | src/transaction.rs:180-182 | stores the signature over the message and changes no other field, so the signed message is unchanged |
| Transactions.SignMessage | src/transaction.rs:168-178 | the signed message is a 32-byte digest |
| Transactions.SignMessageIgnoresSignature | src/transaction.rs:31-37 | the signed message does not depend on the signature field |
| Transactions.SignedIsValid | src/transaction.rs:156-162 | a transaction signed with the sender's own key pair is valid |
| Transactions.IsValid | src/transaction.rs:156-162 | every coinbase is valid, whatever it carries; a transfer's validity is left to the signature check (see `SignedIsValid`) |
| Transactions.IsReceiver | src/transaction.rs:144-146 | true iff the receiver key equals the wallet's public key byte for byte |
| Transactions.IsSender | src/transaction.rs:148-150 | true iff the sender key equals the wallet's public key byte for byte |
| Transactions.SignBytesInjective | src/transaction.rs:31-37 | the signed bytes agree exactly when every field but the signature agrees |
| Transactions.CoinbaseValid | src/transaction.rs:156-162 | a coinbase is valid whatever its signature and sender |
| Transactions.ReadRecords | src/transaction.rs:80-116 | all `count` records or none: an error at any of the `count` records, or a short file, gives none; otherwise the offset moves past count records |
| Transactions.FromFile | src/transaction.rs:80-116 | the record-by-record loop with early empty returns computes exactly `ReadRecords` |
| Transactions.ShortReadIsFinal | src/transaction.rs:93-100 | once a record read is short, no later record (and no later read error) is reached |
| Transactions.RecordsAtEncoded | src/transaction.rs:102-112 | records written by encoding `txs` are read back as `txs`, in order |
| Blocks.DecodeHeader | src/db.rs:86-91 | every header record is exactly the encoding of the header it decodes to |
| Blocks.DecodeEncodeHeader | src/block.rs:20-26 | decoding an encoded header record reproduces all five header fields |
| Blocks.Serialized | src/block.rs:54-67 | the stored form is HEADER_SIZE + WORD_SIZE + n·TX_SIZE bytes |
| Blocks.Serialize | src/block.rs:54-67 | the append loop builds header, then count, then each transaction's record in order |
| Blocks.SerializedParts | src/block.rs:54-67 | the header, the transaction count and the records are read back from the stored form |
| Blocks.HashPreimage | src/block.rs:171-190 | the preimage is the 80-byte hash header plus n·TX_SIZE bytes of records |
| Blocks.HashData | src/block.rs:171-190 | the append loop builds the preimage: nonce, height, timestamp, previous hash, count, then the records |
| Blocks.PreimageIgnoresHash | src/block.rs:12-18 | the stored hash is not part of the preimage, so writing it keeps the block's own hash |
| Blocks.PreimageDeterminesNonce | src/block.rs:175-181 | different nonces give different preimages |
| Blocks.BlockHash | src/block.rs:165-169 | the block's hash is the same whatever hash the block stores: it equals the hash of the block with a zeroed hash field |
| Blocks.CreateHash | src/block.rs:165-169 | the hash of the preimage |
| Blocks.Validate | src/block.rs:202-217 | returns the block's hash iff its hex starts with `height` zeros, else None |
| Blocks.NoSealExtends | src/block.rs:193-198 | a failed nonce below the sealing one extends the run of nonces that do not seal |
| Blocks.Pow | src/block.rs:192-200 | stops at the least nonce from the current one that seals; the stored hash is the block's own and has `height` leading zeros; transactions, previous hash, timestamp and height are unchanged |
| Blocks.SealedHashZeroBytes | src/block.rs:192-217 | a sealed block's hash starts with height/2 zero bytes |
| Blocks.ZeroLeadByteSeals | src/block.rs:192-200 | the difficulty precondition can be met: a hash primitive whose digests start with a zero byte seals every fresh block of difficulty 2 at nonce 0 |
| Blocks.NewWithTx | src/block.rs:89-107 | the given transactions and previous hash, sealed at the least sealing nonce from 0 |
| Blocks.NewGenesis | src/block.rs:76-78 | no transactions, an all-zero previous hash, sealed at the least sealing nonce from 0 |
| Blocks.New | src/block.rs:80-87 | element 0 is the miner's coinbase worth MINING_REWARD = 50, followed by the given transactions in order; sealed at the least sealing nonce from 0 |
| Blocks.OthersValidAll | src/block.rs:128-144 | the loop over later transactions passes iff none is a coinbase and all are valid |
| Blocks.HasValidTransactions | src/block.rs:109-147 | true iff the list is empty, or element 0 is a coinbase worth 50 and every later element is a valid non-coinbase |
| Blocks.NewBlockPolicy | src/block.rs:80-87 | a block built by `new` from valid transfers passes the policy |
| BlockStore.Got | src/db.rs:73-74 | one read fills at most the batch buffer, and reads zero bytes exactly at the end of the file |
| BlockStore.ReadBlock | src/db.rs:86-95 | a read batch always yields a block whose transaction count fits the count word; the cursor stays in the file |
| BlockStore.Step | src/db.rs:70-96 | without faults, any position before the end yields a block and moves the cursor forward |
| BlockStore.StepOutcomes | src/db.rs:73-95 | a header read error keeps the cursor; the end of the file rewinds to 0; otherwise a block is yielded, and when its records were read the cursor moves past header, count and records |
| BlockStore.Scan | src/db.rs:23-25 | the blocks of a fault-free pass from a position: each has a transaction count that fits the count word, and there are no more of them than bytes left |
| BlockStore.ScanStep | src/db.rs:70-96 | one step returns nothing exactly at the end of the file (and rewinds), else peels the first block of the pass |
| BlockStore.ScanEmpty | src/db.rs:81-84 | a pass yields no block iff the file is empty |
| BlockStore.StepSerialized | src/db.rs:70-96 | `next` on a stored block yields that block and moves past its record |
| BlockStore.ScanFlatten | src/db.rs:70-96 | a pass over a file written as blocks `bs` reads back exactly `bs` |
| BlockStore.FlattenAppend | src/db.rs:32-46 | appending a block's record extends the file of stored blocks |
| BlockStore.AppendRoundTrip | src/db.rs:32-46 | after appending a block to a clean log, a full pass yields the earlier blocks followed by that block, and the log stays clean |
| BlockStore.ShortHeaderYieldsBlock | src/db.rs:81-91 | a torn header at the end of the file is not detected: it still yields a block, with no transactions, and the cursor reaches the end |
| BlockStore.RecordErrorYieldsEmptyBlock | src/db.rs:93-95 | a failed transaction read still yields a block, with no transactions unless the failing read lies past the block's transaction count |
| BlockStore.BlockDB.Open | src/db.rs:14-30 | the file is the contents, the cursor is 0, and `len` is the number of blocks a full pass decodes |
| BlockStore.BlockDB.Next | src/db.rs:70-96 | the block and new cursor are `Step`'s; the file and `len` are unchanged |
| BlockStore.BlockDB.Push | src/db.rs:32-46 | the block's record is appended after every existing byte, the cursor is 0, and `len` grows by exactly 1 |
| BlockStore.BlockDB.LastBlock | src/db.rs:48-56 | returns the final block of the pass from the cursor (None iff the pass is empty) and leaves the cursor at 0 |
| BlockStore.BlockDB.Reset | src/db.rs:58-60 | the cursor is 0 and nothing else changes |
| Ledger.NetIsReceivedMinusSent | src/blockchain.rs:42-51 | the net effect is received minus sent; a self-transfer counts as a receipt only |
| Ledger.ReceivedBoundNoOverflow | src/blockchain.rs:43 | total receipts below 2^32 on top of the start balance are enough for the running balance never to overflow |
| Ledger.NoOverflowAppend | src/blockchain.rs:40-54 | the no-overflow condition splits over a concatenation the way the balance fold does |
| Ledger.NoOverflowBeyondReceived | src/blockchain.rs:43 | on one log, NoOverflow holds where the total-receipts bound fails, so it is strictly weaker than that bound: receiving 0xFFFF_FFFF, paying it, then receiving 1 folds to 1 without overflow though total receipts reach 2^32 |
| Ledger.BalanceFoldSpec | src/blockchain.rs:37-57 | the fold fails exactly when some prefix would go negative; otherwise it is the start balance plus received minus sent |
| Ledger.BalanceFoldAppend | src/blockchain.rs:40-54 | folding a concatenation folds the first part and continues from its result, failing if it fails |
| Ledger.TamperedHashDetected | src/blockchain.rs:66-76 | changing the stored hash of any block of a valid chain makes it invalid |
| Ledger.BrokenLinkDetected | src/blockchain.rs:91-102 | appending a block that does not name the tip's hash makes the chain invalid |
| Ledger.ExtendValidChain | src/blockchain.rs:25-35 | a sealed block with valid transactions that names the tip keeps a valid chain valid |
| Ledger.AllIntactCons | src/blockchain.rs:60-77 | the first pass's condition splits into the first block and the rest |
| Ledger.LinkedCons | src/blockchain.rs:91-105 | the link condition splits into the first link and the rest |
| Ledger.GenesisChainValid | src/blockchain.rs:15-23 | a single sealed genesis block is a valid chain |
| Ledger.Blockchain.Load | src/blockchain.rs:15-23 | `len` ≥ 1 and the cursor is 0; a non-empty log is unchanged; an empty one becomes a clean log of exactly one sealed genesis block with no transactions, an all-zero previous hash and the given timestamp |
| Ledger.Blockchain.Mine | src/blockchain.rs:25-35 | NotFound iff the pass finds no tip; otherwise exactly one block is appended that names the tip's hash, carries the coinbase then the given transactions and the given timestamp, and is sealed at the least sealing nonce from 0, so the appended bytes are fixed by the inputs; on a clean log the pass extends by that block |
| Ledger.Blockchain.BalanceOf | src/blockchain.rs:37-57 | Ok with the fold's balance, or InsufficientFunds iff the fold fails; the cursor ends at 0 and the log and `len` are unchanged |
| Ledger.Blockchain.IsValid | src/blockchain.rs:59-108 | true iff every block from the cursor is intact and the log from the start is non-empty and linked; from cursor 0 this is `ChainValid`; the cursor ends at 0 and the log is unchanged |
| Ledger.ValidateTwice | src/blockchain.rs:59-108 | asking twice gives the same answer, the whole-chain condition |
| Ledger.Blockchain.Next | src/blockchain.rs:118-120 | the blockchain's iterator is the log's fault-free step: block and cursor are `Step(file, cursor, NoFault)`, file and `len` unchanged |
| Ledger.Accumulate | src/blockchain.rs:41-53 | the loop over one block's transactions computes the balance fold, failing exactly where the fold fails; it needs only that no receipt overflows before the fold stops |
| Ledger.Blockchain.Linkage | src/blockchain.rs:79-107 | the second pass returns true iff the log is non-empty and every block names its predecessor's hash |

## Left out

- Key generation and the wallet's clock seed: a wallet is a given key pair. SHA-256 and Ed25519 are uninterpreted function values. The one law assumed about them, that a signature verifies, is the predicate `KeyPair`, which callers must establish.
- The native memory layout of the records is replaced by a packed little-endian codec. That codec is 133-byte transaction records, 104-byte header records, 8-byte words and an 80-byte hash header. The Rust structs are copied byte by byte with the compiler's field order, padding and native endianness, and this model does not reproduce those.
- The clock (`get_unix_time`) and its failure: the timestamp is a parameter of `Load`, `Mine` and the block constructors. `ut_to_str`, `to_string`, and the `verbose!`, `warning!` and `println!` output are not modelled.
- OS file handling: the file is an in-memory byte sequence. The following are not modelled:
  - opening and creating the file, and errors of `open`, `push`, `seek` and `flush`;
  - `BufWriter`;
  - reads that return fewer bytes than are available.

  Read errors are the `ReadFault` parameter of `BlockDB.Next`. `Blockchain.Next` and the loops of `Open`, `LastBlock`, `BalanceOf`, `IsValid` and `Linkage` run fault-free.
- Blocks.Pow: its termination is a precondition (`Sealable`). Some nonce from the current one must seal the block. The source loops forever, and the nonce would overflow, when none does. `NewGenesis` and `New` require `PowTerminates(c, height)`: every fresh block of their own difficulty can be sealed. `Load` and `Mine` require it at `DIFFICULTY` = 2, the only difficulty the ledger mines at.
- Blocks.Validate: requires `height` ≤ 64. Above that the source's slice of the 64-digit hex panics.
- Ledger.Blockchain.BalanceOf: requires `NoOverflow`, that no receipt takes the running balance to 2^32 or beyond before the fold stops. Exactly then does the source's `balance +=` stay within u32. The model does not describe the panic or wrap-around when it would not.
- Ledger.Blockchain.BalanceOf: the source's error kind is `InvalidData`, with a text message. The model names it `InsufficientFunds` and keeps no message.
- Ledger.Blockchain.Mine: the mined block is a ghost out-parameter. The pass extends by exactly that block only on a clean log, and only when the mined block's transaction count fits the count word (`Encodable`). On other logs, only the appended bytes are stated.
- Transactions.Sign: modelled on values, as a function returning the updated transaction. It is not an in-place update of a field.
- Ledger.Blockchain.Len: `len` is a plain read of the log's counter and carries no contract of its own. `Open` and `Push` state the counter.
- Decoding the coinbase flag reads any non-zero byte as true. The source reinterprets the byte as a Rust `bool`, which is undefined behaviour for values other than 0 and 1.
- The transaction count word read from the file is an unbounded natural here. The model does not reproduce the source's `Vec::with_capacity` allocation for a huge count.
