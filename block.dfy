/**
 * Blocks: the header and transaction list, their serialisation and hash
 * preimage, proof-of-work sealing, and the block's transaction policy.
 */
module Blocks {
  import opened Outcomes
  import opened Encode
  import opened Keys
  import opened Transactions

  /** The value of the coinbase transaction that rewards a block's miner. */
  const MINING_REWARD: Val := 50

  /** The most leading zero digits the 64-digit hex of a digest can have. */
  const MAX_DIFFICULTY: nat := 2 * SHA256_HASH_SIZE

  /**
   * The fixed part of a block. The field `height` holds the mining
   * difficulty, not the block's position in the chain.
   */
  datatype Header = Header(
    prevHash: Digest,
    timestamp: u128,
    hash: Digest,
    height: usize,
    nonce: u128)

  datatype Block = Block(header: Header, transactions: seq<Transaction>)

  // ---------------------------------------------------------------------
  // Serialisation
  // ---------------------------------------------------------------------

  /** Header record layout: previous hash, timestamp, hash, height, nonce. */
  const TIMESTAMP_AT: nat := SHA256_HASH_SIZE
  const HASH_AT: nat := TIMESTAMP_AT + U128_SIZE
  const HEIGHT_AT: nat := HASH_AT + SHA256_HASH_SIZE
  const NONCE_AT: nat := HEIGHT_AT + WORD_SIZE
  const HEADER_SIZE: nat := NONCE_AT + U128_SIZE

  function EncodeHeader(h: Header): (bs: seq<byte>)
    ensures |bs| == HEADER_SIZE
  {
    h.prevHash + ToLE(h.timestamp, U128_SIZE) + h.hash + ToLE(h.height, WORD_SIZE) + ToLE(h.nonce, U128_SIZE)
  }

  /** The header a header record holds; every record is the encoding of the header it decodes to. */
  function DecodeHeader(bs: seq<byte>): (h: Header)
    requires |bs| == HEADER_SIZE
    ensures EncodeHeader(h) == bs
  {
    HeaderFields(bs);
    HeaderOf(bs)
  }

  /** The five fields of a header record, each decoded at its offset. */
  function HeaderOf(bs: seq<byte>): Header
    requires |bs| == HEADER_SIZE
  {
    WidthBounds();
    Header(
      bs[..TIMESTAMP_AT],
      FromLE(bs[TIMESTAMP_AT..HASH_AT]),
      bs[HASH_AT..HEIGHT_AT],
      FromLE(bs[HEIGHT_AT..NONCE_AT]),
      FromLE(bs[NONCE_AT..HEADER_SIZE]))
  }

  /** A header record is its five fields re-encoded, back to back. */
  lemma HeaderFields(bs: seq<byte>)
    requires |bs| == HEADER_SIZE
    ensures EncodeHeader(HeaderOf(bs)) == bs
  {
    ToFromLE(bs[TIMESTAMP_AT..HASH_AT]);
    ToFromLE(bs[HEIGHT_AT..NONCE_AT]);
    ToFromLE(bs[NONCE_AT..HEADER_SIZE]);
    SplitFive(bs, TIMESTAMP_AT, HASH_AT, HEIGHT_AT, NONCE_AT);
  }

  /** A sequence is the concatenation of its five pieces between four cut points. */
  lemma SplitFive(s: seq<byte>, a: nat, b: nat, c: nat, d: nat)
    requires a <= b <= c <= d <= |s|
    ensures s == s[..a] + s[a..b] + s[b..c] + s[c..d] + s[d..|s|]
  {
    assert s[..b] == s[..a] + s[a..b];
    assert s[..c] == s[..b] + s[b..c];
    assert s[..d] == s[..c] + s[c..d];
    assert s == s[..d] + s[d..|s|];
  }

  /** Decoding an encoded header record reproduces all five fields. */
  lemma DecodeEncodeHeader(h: Header)
    ensures DecodeHeader(EncodeHeader(h)) == h
  {
    var bs := EncodeHeader(h);
    WidthBounds();
    assert bs[..TIMESTAMP_AT] == h.prevHash;
    assert bs[TIMESTAMP_AT..HASH_AT] == ToLE(h.timestamp, U128_SIZE);
    assert bs[HASH_AT..HEIGHT_AT] == h.hash;
    assert bs[HEIGHT_AT..NONCE_AT] == ToLE(h.height, WORD_SIZE);
    assert bs[NONCE_AT..HEADER_SIZE] == ToLE(h.nonce, U128_SIZE);
    FromToLE(h.timestamp, U128_SIZE);
    FromToLE(h.height, WORD_SIZE);
    FromToLE(h.nonce, U128_SIZE);
  }

  /** The stored form of a block: header record, transaction count, transaction records. */
  function Serialized(b: Block): (bs: seq<byte>)
    ensures |bs| == HEADER_SIZE + WORD_SIZE + |b.transactions| * TX_SIZE
  {
    EncodeHeader(b.header) + ToLE(|b.transactions|, WORD_SIZE) + EncodeTxs(b.transactions)
  }

  /** Into<Vec<u8>>: header and count first, then each transaction's record in order. */
  method Serialize(b: Block) returns (bytes: seq<byte>)
    ensures bytes == Serialized(b)
    ensures |bytes| == HEADER_SIZE + WORD_SIZE + |b.transactions| * TX_SIZE
  {
    var txs := b.transactions;
    var count := EncodeInt(|txs|, WORD_SIZE);
    bytes := EncodeHeader(b.header) + count;
    for i := 0 to |txs|
      invariant bytes == EncodeHeader(b.header) + count + EncodeTxs(txs[..i])
    {
      EncodeTxsSnoc(EncodeHeader(b.header) + count, txs, i);
      bytes := bytes + EncodeTx(txs[i]);
    }
    assert txs[..|txs|] == txs;
  }

  /** A block whose transaction count fits the count word of its record. */
  predicate Encodable(b: Block)
  {
    |b.transactions| < Pow256(WORD_SIZE)
  }

  /** Reading back the stored form of a block gives the header, count and records. */
  lemma SerializedParts(b: Block)
    requires Encodable(b)
    ensures DecodeHeader(Serialized(b)[..HEADER_SIZE]) == b.header
    ensures FromLE(Serialized(b)[HEADER_SIZE .. HEADER_SIZE + WORD_SIZE]) == |b.transactions|
    ensures Serialized(b)[HEADER_SIZE + WORD_SIZE ..] == EncodeTxs(b.transactions)
  {
    var bs := Serialized(b);
    assert bs[..HEADER_SIZE] == EncodeHeader(b.header);
    assert bs[HEADER_SIZE .. HEADER_SIZE + WORD_SIZE] == ToLE(|b.transactions|, WORD_SIZE);
    DecodeEncodeHeader(b.header);
    FromToLE(|b.transactions|, WORD_SIZE);
  }

  // ---------------------------------------------------------------------
  // Hash
  // ---------------------------------------------------------------------

  /** Hash preimage header layout: nonce, height, timestamp, previous hash, count. */
  const HASH_HEADER_SIZE: nat := U128_SIZE + WORD_SIZE + U128_SIZE + SHA256_HASH_SIZE + WORD_SIZE

  function HashHeader(b: Block): (bs: seq<byte>)
    ensures |bs| == HASH_HEADER_SIZE
  {
    ToLE(b.header.nonce, U128_SIZE) + ToLE(b.header.height, WORD_SIZE) + ToLE(b.header.timestamp, U128_SIZE)
      + b.header.prevHash + ToLE(|b.transactions|, WORD_SIZE)
  }

  /** The bytes the block's hash is taken over: every field but the stored hash. */
  function HashPreimage(b: Block): (bs: seq<byte>)
    ensures |bs| == HASH_HEADER_SIZE + |b.transactions| * TX_SIZE
  {
    HashHeader(b) + EncodeTxs(b.transactions)
  }

  /** The stored hash is not part of the preimage. */
  lemma PreimageIgnoresHash(b: Block, h: Digest)
    ensures HashPreimage(b.(header := b.header.(hash := h))) == HashPreimage(b)
  {
  }

  /** The preimage determines the nonce, and so the hash search tries a new preimage per nonce. */
  lemma {:induction false} PreimageDeterminesNonce(b: Block, n: u128, m: u128)
    requires HashPreimage(WithNonce(b, n)) == HashPreimage(WithNonce(b, m))
    ensures n == m
  {
    var p, q := HashPreimage(WithNonce(b, n)), HashPreimage(WithNonce(b, m));
    assert p[..U128_SIZE] == ToLE(n, U128_SIZE);
    assert q[..U128_SIZE] == ToLE(m, U128_SIZE);
    WidthBounds();
    FromToLE(n, U128_SIZE);
    FromToLE(m, U128_SIZE);
  }

  /** hash_data: the preimage, built by appending each transaction's record. */
  method HashData(b: Block) returns (bytes: seq<byte>)
    ensures bytes == HashPreimage(b)
  {
    var txs := b.transactions;
    bytes := HashHeader(b);
    for i := 0 to |txs|
      invariant bytes == HashHeader(b) + EncodeTxs(txs[..i])
    {
      EncodeTxsSnoc(HashHeader(b), txs, i);
      bytes := bytes + EncodeTx(txs[i]);
    }
    assert txs[..|txs|] == txs;
  }

  /** The block's own hash; it is the same whatever hash the block stores. */
  function BlockHash(c: Crypto, b: Block): (h: Digest)
    ensures h == c.sha256(HashPreimage(b.(header := b.header.(hash := ZERO_DIGEST))))
  {
    PreimageIgnoresHash(b, ZERO_DIGEST);
    c.sha256(HashPreimage(b))
  }

  /** create_hash: the digest of the block's preimage. */
  method CreateHash(c: Crypto, b: Block) returns (h: Digest)
    ensures h == BlockHash(c, b)
  {
    var data := HashData(b);
    h := c.sha256(data);
  }

  // ---------------------------------------------------------------------
  // Proof of work
  // ---------------------------------------------------------------------

  function WithNonce(b: Block, n: u128): Block
  {
    b.(header := b.header.(nonce := n))
  }

  /** With nonce `n`, the block's hash renders with `height` leading zero digits. */
  predicate Seals(c: Crypto, b: Block, n: u128)
    requires b.header.height <= MAX_DIFFICULTY
  {
    HasLeadingZeros(HexOf(BlockHash(c, WithNonce(b, n))), b.header.height)
  }

  /** Some nonce from the current one on seals the block, so the search ends. */
  ghost predicate Sealable(c: Crypto, b: Block)
  {
    b.header.height <= MAX_DIFFICULTY &&
    exists n: u128 :: b.header.nonce <= n && Seals(c, b, n)
  }

  /** The hash primitive lets every fresh block mined at difficulty `d` be sealed. */
  ghost predicate PowTerminates(c: Crypto, d: usize)
  {
    forall b: Block :: b.header.nonce == 0 && b.header.height == d ==> Sealable(c, b)
  }

  /**
   * The difficulty condition is met by a hash primitive whose digests
   * start with a zero byte: every fresh block of difficulty 2 seals at nonce 0.
   */
  lemma ZeroLeadByteSeals(c: Crypto)
    requires forall m :: c.sha256(m)[0] == 0
    ensures PowTerminates(c, 2)
  {
    forall b: Block | b.header.nonce == 0 && b.header.height == 2
      ensures Sealable(c, b)
    {
      var h := BlockHash(c, WithNonce(b, 0));
      LeadingZeroBytes(h, 1);
      assert Seals(c, b, 0);
    }
  }

  /** The stored hash is the block's own hash and has `height` leading zero digits. */
  predicate IsSealed(c: Crypto, b: Block)
  {
    b.header.hash == BlockHash(c, b) && HasLeadingZeros(HexOf(b.header.hash), b.header.height)
  }

  /** A sealed block's hash starts with height/2 zero bytes. */
  lemma SealedHashZeroBytes(c: Crypto, b: Block, i: nat)
    requires IsSealed(c, b) && b.header.height <= MAX_DIFFICULTY
    requires i < b.header.height / 2
    ensures b.header.hash[i] == 0
  {
    LeadingZeroDigits(b.header.hash, b.header.height);
  }

  /** validate: the block's hash if its hex starts with `height` zeros. */
  method Validate(c: Crypto, b: Block) returns (r: Option<Digest>)
    requires b.header.height <= MAX_DIFFICULTY
    ensures r.Some? <==> HasLeadingZeros(HexOf(BlockHash(c, b)), b.header.height)
    ensures r.Some? ==> r.value == BlockHash(c, b)
  {
    var hash := CreateHash(c, b);
    var d := b.header.height;
    var zeroes: string := "";
    for i := 0 to d
      invariant |zeroes| == i && forall k :: 0 <= k < i ==> zeroes[k] == '0'
    {
      zeroes := zeroes + ['0'];
    }
    var hex := Hex(hash);
    if HasLeadingZeros(hex, d) {
      assert hex[..d] == zeroes;
    }
    if hex[..d] == zeroes {
      assert forall k :: 0 <= k < d ==> hex[k] == hex[..d][k];
      return Some(hash);
    }
    return None;
  }

  /** A failed attempt at nonce `m` extends the run of nonces known not to seal. */
  lemma NoSealExtends(c: Crypto, b: Block, m: u128, goal: u128)
    requires b.header.height <= MAX_DIFFICULTY && m <= goal
    requires forall n: u128 :: b.header.nonce <= n < m ==> !Seals(c, b, n)
    requires !Seals(c, b, m) && Seals(c, b, goal)
    ensures m < goal
    ensures forall n: u128 :: b.header.nonce <= n < m + 1 ==> !Seals(c, b, n)
  {
  }

  /**
   * pow: tries nonces upwards from the current one and stores the hash of
   * the first nonce that passes `Validate`.
   */
  method Pow(c: Crypto, b: Block) returns (sealed: Block)
    requires Sealable(c, b)
    ensures sealed.transactions == b.transactions
    ensures sealed.header.prevHash == b.header.prevHash
    ensures sealed.header.timestamp == b.header.timestamp
    ensures sealed.header.height == b.header.height
    ensures b.header.nonce <= sealed.header.nonce && Seals(c, b, sealed.header.nonce)
    ensures forall n: u128 :: b.header.nonce <= n < sealed.header.nonce ==> !Seals(c, b, n)
    ensures IsSealed(c, sealed)
  {
    ghost var goal: u128 :| b.header.nonce <= goal && Seals(c, b, goal);
    var blk := b;
    while true
      invariant blk == WithNonce(b, blk.header.nonce)
      invariant b.header.nonce <= blk.header.nonce <= goal
      invariant forall n: u128 :: b.header.nonce <= n < blk.header.nonce ==> !Seals(c, b, n)
      decreases goal - blk.header.nonce
    {
      var valid := Validate(c, blk);
      assert WithNonce(b, blk.header.nonce) == blk;
      if valid.Some? {
        sealed := blk.(header := blk.header.(hash := valid.value));
        PreimageIgnoresHash(blk, valid.value);
        return;
      }
      var tried := blk.header.nonce;
      assert !Seals(c, b, tried);
      NoSealExtends(c, b, tried, goal);
      blk := WithNonce(blk, tried + 1);
    }
  }

  // ---------------------------------------------------------------------
  // Construction
  // ---------------------------------------------------------------------

  /** The block new_with_tx builds before sealing: zero hash, nonce 0. */
  function Unsealed(txs: seq<Transaction>, prevHash: Digest, height: usize, timestamp: u128): Block
  {
    Block(Header(prevHash, timestamp, ZERO_DIGEST, height, 0), txs)
  }

  /** new_with_tx: the given transactions and previous hash, sealed at the least nonce. */
  method NewWithTx(c: Crypto, txs: seq<Transaction>, prevHash: Digest, height: usize, timestamp: u128)
    returns (b: Block)
    requires Sealable(c, Unsealed(txs, prevHash, height, timestamp))
    ensures b.transactions == txs
    ensures b.header.prevHash == prevHash && b.header.timestamp == timestamp && b.header.height == height
    ensures IsSealed(c, b)
    ensures forall n: u128 :: n < b.header.nonce ==> !Seals(c, Unsealed(txs, prevHash, height, timestamp), n)
  {
    b := Pow(c, Unsealed(txs, prevHash, height, timestamp));
  }

  /** new_genesis: no transactions, an all-zero previous hash, sealed. */
  method NewGenesis(c: Crypto, height: usize, timestamp: u128) returns (b: Block)
    requires PowTerminates(c, height)
    ensures b.transactions == [] && b.header.prevHash == ZERO_DIGEST
    ensures b.header.height == height && b.header.timestamp == timestamp
    ensures IsSealed(c, b)
    ensures forall n: u128 :: n < b.header.nonce ==> !Seals(c, Unsealed([], ZERO_DIGEST, height, timestamp), n)
  {
    assert Sealable(c, Unsealed([], ZERO_DIGEST, height, timestamp));
    b := NewWithTx(c, [], ZERO_DIGEST, height, timestamp);
  }

  /** new: the miner's coinbase goes first, then the given transactions in order; sealed. */
  method New(c: Crypto, miner: Wallet, txs: seq<Transaction>, prevHash: Digest, height: usize, timestamp: u128)
    returns (b: Block)
    requires PowTerminates(c, height)
    ensures |b.transactions| == |txs| + 1
    ensures b.transactions[0] == NewCoinbase(miner, MINING_REWARD)
    ensures b.transactions[1..] == txs
    ensures b.header.prevHash == prevHash && b.header.timestamp == timestamp && b.header.height == height
    ensures IsSealed(c, b)
    ensures forall n: u128 :: n < b.header.nonce ==>
      !Seals(c, Unsealed([NewCoinbase(miner, MINING_REWARD)] + txs, prevHash, height, timestamp), n)
  {
    var reward := NewCoinbase(miner, MINING_REWARD);
    var all := [reward] + txs;
    assert Sealable(c, Unsealed(all, prevHash, height, timestamp));
    b := NewWithTx(c, all, prevHash, height, timestamp);
  }

  // ---------------------------------------------------------------------
  // Transaction policy
  // ---------------------------------------------------------------------

  /**
   * has_valid_transactions: an empty list passes; otherwise the first
   * transaction is a coinbase worth the reward, and each later one is not
   * a coinbase and is valid. The first violation decides.
   */
  predicate HasValidTransactions(c: Crypto, txs: seq<Transaction>): (ok: bool)
    ensures ok <==>
      |txs| == 0 ||
      (txs[0].isCoinbase && txs[0].value == MINING_REWARD &&
       forall i :: 1 <= i < |txs| ==> !txs[i].isCoinbase && IsValid(c, txs[i]))
  {
    if |txs| == 0 then true
    else if !txs[0].isCoinbase then false
    else if txs[0].value != MINING_REWARD then false
    else
      OthersValidAll(c, txs[1..]);
      assert forall i :: 1 <= i < |txs| ==> txs[i] == txs[1..][i - 1];
      OthersValid(c, txs[1..])
  }

  predicate OthersValid(c: Crypto, rest: seq<Transaction>)
  {
    if |rest| == 0 then true
    else if rest[0].isCoinbase then false
    else if !IsValid(c, rest[0]) then false
    else OthersValid(c, rest[1..])
  }

  lemma {:induction false} OthersValidAll(c: Crypto, rest: seq<Transaction>)
    ensures OthersValid(c, rest) <==> forall i :: 0 <= i < |rest| ==> !rest[i].isCoinbase && IsValid(c, rest[i])
  {
    if |rest| > 0 {
      OthersValidAll(c, rest[1..]);
      assert forall i :: 1 <= i < |rest| ==> rest[i] == rest[1..][i - 1];
    }
  }

  /** A newly mined block passes the policy when the transactions it carries are valid transfers. */
  lemma NewBlockPolicy(c: Crypto, miner: Wallet, txs: seq<Transaction>)
    requires forall i :: 0 <= i < |txs| ==> !txs[i].isCoinbase && IsValid(c, txs[i])
    ensures HasValidTransactions(c, [NewCoinbase(miner, MINING_REWARD)] + txs)
  {
    var all := [NewCoinbase(miner, MINING_REWARD)] + txs;
    assert all[1..] == txs;
    OthersValidAll(c, txs);
  }
}
