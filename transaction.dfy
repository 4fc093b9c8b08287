/** Value-transfer records: construction, signing, validity and the fixed-size record codec. */
module Transactions {
  import opened Outcomes
  import opened Encode
  import opened Keys

  type Val = u32

  datatype Transaction = Transaction(
    value: Val,
    sender: PKey,
    receiver: PKey,
    signature: Signature,
    isCoinbase: bool)

  /** Record layout: value, sender, receiver, signature, coinbase flag. */
  const SENDER_AT: nat := U32_SIZE
  const RECEIVER_AT: nat := SENDER_AT + PKEY_SIZE
  const SIGNATURE_AT: nat := RECEIVER_AT + PKEY_SIZE
  const COINBASE_AT: nat := SIGNATURE_AT + SIGN_SIZE
  const TX_SIZE: nat := 133  // COINBASE_AT + BOOL_SIZE, written out so that `k * TX_SIZE` stays linear

  function BoolByte(b: bool): byte
  {
    if b then 1 else 0
  }

  /** The fixed-size record of a transaction. */
  function EncodeTx(t: Transaction): (bs: seq<byte>)
    ensures |bs| == TX_SIZE
  {
    ToLE(t.value, U32_SIZE) + t.sender + t.receiver + t.signature + [BoolByte(t.isCoinbase)]
  }

  /** The transaction a fixed-size record holds; any non-zero flag byte reads as true. */
  function DecodeTx(bs: seq<byte>): (t: Transaction)
    requires |bs| == TX_SIZE
    ensures bs[COINBASE_AT] <= 1 ==> EncodeTx(t) == bs
  {
    WidthBounds();
    ToFromLE(bs[..SENDER_AT]);
    var t := Transaction(
      FromLE(bs[..SENDER_AT]),
      bs[SENDER_AT..RECEIVER_AT],
      bs[RECEIVER_AT..SIGNATURE_AT],
      bs[SIGNATURE_AT..COINBASE_AT],
      bs[COINBASE_AT] != 0);
    assert bs == bs[..SENDER_AT] + bs[SENDER_AT..RECEIVER_AT] + bs[RECEIVER_AT..SIGNATURE_AT]
      + bs[SIGNATURE_AT..COINBASE_AT] + [bs[COINBASE_AT]];
    t
  }

  /** Decoding an encoded record reproduces all five fields. */
  lemma DecodeEncodeTx(t: Transaction)
    ensures DecodeTx(EncodeTx(t)) == t
  {
    var bs := EncodeTx(t);
    WidthBounds();
    assert bs[..SENDER_AT] == ToLE(t.value, U32_SIZE);
    FromToLE(t.value, U32_SIZE);
    assert bs[SENDER_AT..RECEIVER_AT] == t.sender;
    assert bs[RECEIVER_AT..SIGNATURE_AT] == t.receiver;
    assert bs[SIGNATURE_AT..COINBASE_AT] == t.signature;
  }

  // ---------------------------------------------------------------------
  // Construction and signatures
  // ---------------------------------------------------------------------

  /** new_coinbase: the block reward to `receiver`, with no sender and no signature. */
  function NewCoinbase(receiver: Wallet, value: Val): (t: Transaction)
    ensures t.isCoinbase && t.value == value && t.receiver == receiver.pk
    ensures t.sender == ZERO_PKEY && t.signature == ZERO_SIGNATURE
  {
    Transaction(value, ZERO_PKEY, receiver.pk, ZERO_SIGNATURE, true)
  }

  /** The bytes of the signed message: every field but the signature. */
  function SignBytes(t: Transaction): seq<byte>
  {
    ToLE(t.value, U32_SIZE) + t.sender + t.receiver + [BoolByte(t.isCoinbase)]
  }

  /** sign_message: the digest of the signed bytes. */
  function SignMessage(c: Crypto, t: Transaction): (m: seq<byte>)
    ensures |m| == SHA256_HASH_SIZE
  {
    Sha256Hash(c.sha256, SignBytes(t))
  }

  /** The signed message does not depend on the signature field. */
  lemma SignMessageIgnoresSignature(c: Crypto, t: Transaction, s: Signature)
    ensures SignMessage(c, t.(signature := s)) == SignMessage(c, t)
  {
    assert SignBytes(t.(signature := s)) == SignBytes(t);
  }

  /** Signing with the sender's own key pair makes a transfer valid. */
  lemma SignedIsValid(c: Crypto, t: Transaction, w: Wallet)
    requires KeyPair(c, w) && t.sender == w.pk
    ensures IsValid(c, Sign(c, t, w))
  {
    var m := SignMessage(c, t);
    assert c.verify(m, w.pk, c.sign(m, w.sk));
  }

  /** The signed message determines value, sender, receiver and flag, and nothing else. */
  lemma SignBytesInjective(t: Transaction, u: Transaction)
    ensures SignBytes(t) == SignBytes(u) <==> t.(signature := u.signature) == u
  {
    if SignBytes(t) == SignBytes(u) {
      var a, b := SignBytes(t), SignBytes(u);
      WidthBounds();
      assert a[..SENDER_AT] == ToLE(t.value, U32_SIZE) && b[..SENDER_AT] == ToLE(u.value, U32_SIZE);
      FromToLE(t.value, U32_SIZE);
      FromToLE(u.value, U32_SIZE);
      assert a[SENDER_AT..RECEIVER_AT] == t.sender && b[SENDER_AT..RECEIVER_AT] == u.sender;
      assert a[RECEIVER_AT..SIGNATURE_AT] == t.receiver && b[RECEIVER_AT..SIGNATURE_AT] == u.receiver;
      assert a[SIGNATURE_AT] == BoolByte(t.isCoinbase) && b[SIGNATURE_AT] == BoolByte(u.isCoinbase);
    }
  }

  /** sign: stores the sender's signature over the message; the message itself is unaffected. */
  function Sign(c: Crypto, t: Transaction, sender: Wallet): (r: Transaction)
    ensures r.signature == c.sign(SignMessage(c, t), sender.sk)
    ensures r.(signature := t.signature) == t
    ensures SignMessage(c, r) == SignMessage(c, t)
  {
    t.(signature := c.sign(SignMessage(c, t), sender.sk))
  }

  /** new: a transfer from `sender` to `receiver`, signed by the sender. */
  function New(c: Crypto, sender: Wallet, receiver: Wallet, value: Val): (t: Transaction)
    ensures !t.isCoinbase && t.value == value
    ensures t.sender == sender.pk && t.receiver == receiver.pk
    ensures KeyPair(c, sender) ==> IsValid(c, t)
  {
    Sign(c, Transaction(value, sender.pk, receiver.pk, ZERO_SIGNATURE, false), sender)
  }

  /** is_valid: a coinbase is exempt; otherwise the signature must verify under the sender's key. */
  predicate IsValid(c: Crypto, t: Transaction): (ok: bool)
    ensures t.isCoinbase ==> ok
  {
    t.isCoinbase || c.verify(SignMessage(c, t), t.sender, t.signature)
  }

  /** A coinbase is valid whatever its signature and sender. */
  lemma CoinbaseValid(c: Crypto, t: Transaction, s: Signature, k: PKey)
    requires t.isCoinbase
    ensures IsValid(c, t.(signature := s, sender := k))
  {
  }

  /** is_receiver: exact equality with the wallet's public key. */
  predicate IsReceiver(t: Transaction, w: Wallet): (r: bool)
    ensures r <==> forall i :: 0 <= i < PKEY_SIZE ==> t.receiver[i] == w.pk[i]
  {
    t.receiver == w.pk
  }

  /** is_sender: exact equality with the wallet's public key. */
  predicate IsSender(t: Transaction, w: Wallet): (r: bool)
    ensures r <==> forall i :: 0 <= i < PKEY_SIZE ==> t.sender[i] == w.pk[i]
  {
    t.sender == w.pk
  }

  // ---------------------------------------------------------------------
  // Reading records from the block log
  // ---------------------------------------------------------------------

  /** The `n` records stored back to back from offset `pos`. */
  function RecordsAt(data: seq<byte>, pos: nat, n: nat): (txs: seq<Transaction>)
    requires pos + n * TX_SIZE <= |data|
    ensures |txs| == n
  {
    if n == 0 then []
    else RecordsAt(data, pos, n - 1) + [DecodeTx(data[pos + (n - 1) * TX_SIZE .. pos + n * TX_SIZE])]
  }

  /**
   * What from_file yields when reading `count` records from offset `pos`,
   * and the file offset afterwards. `failAt` is the index of the record
   * whose read reports an I/O error, if any. A read error or a short read
   * gives no transactions at all; otherwise all `count` of them.
   */
  function ReadRecords(data: seq<byte>, pos: nat, count: nat, failAt: Option<nat>): (r: (seq<Transaction>, nat))
    requires pos <= |data|
    ensures pos <= r.1 <= |data|
    ensures r.0 == [] || |r.0| == count
    ensures r.0 != [] ==> r.1 == pos + count * TX_SIZE
    ensures failAt.Some? && failAt.value < count ==> r.0 == []
    ensures pos + count * TX_SIZE > |data| ==> r.0 == []
    ensures count == 0 ==> r == ([], pos)
  {
    if failAt.Some? && failAt.value < count && pos + failAt.value * TX_SIZE <= |data| then
      ([], pos + failAt.value * TX_SIZE)
    else if pos + count * TX_SIZE <= |data| then
      (RecordsAt(data, pos, count), pos + count * TX_SIZE)
    else
      ([], |data|)
  }

  /** Records that were written by encoding `txs` are read back as `txs`. */
  lemma {:induction false} RecordsAtEncoded(data: seq<byte>, pos: nat, txs: seq<Transaction>)
    requires pos + |txs| * TX_SIZE <= |data|
    requires data[pos .. pos + |txs| * TX_SIZE] == EncodeTxs(txs)
    ensures RecordsAt(data, pos, |txs|) == txs
  {
    var n := |txs|;
    if n > 0 {
      var front, last := txs[..n - 1], txs[n - 1];
      assert txs == front + [last];
      var a, b := EncodeTxs(front), EncodeTx(last);
      assert |a| == |front| * TX_SIZE;
      SliceSplit(data, pos, a, b);
      RecordsAtEncoded(data, pos, front);
      RecordsAtSnoc(data, pos, front, last);
    }
  }

  /** One more record after the records of `front` is read back as one more transaction. */
  lemma RecordsAtSnoc(data: seq<byte>, pos: nat, front: seq<Transaction>, last: Transaction)
    requires pos + |front| * TX_SIZE + TX_SIZE <= |data|
    requires RecordsAt(data, pos, |front|) == front
    requires data[pos + |front| * TX_SIZE .. pos + |front| * TX_SIZE + TX_SIZE] == EncodeTx(last)
    ensures RecordsAt(data, pos, |front| + 1) == front + [last]
  {
    assert (|front| + 1) * TX_SIZE == |front| * TX_SIZE + TX_SIZE;
    DecodeEncodeTx(last);
  }

  /** A slice holding `a + b` holds `a` and then `b`. */
  lemma SliceSplit(data: seq<byte>, pos: nat, a: seq<byte>, b: seq<byte>)
    requires pos + |a| + |b| <= |data| && data[pos .. pos + |a| + |b|] == a + b
    ensures data[pos .. pos + |a|] == a
    ensures data[pos + |a| .. pos + |a| + |b|] == b
  {
    assert data[pos .. pos + |a|] == (a + b)[..|a|];
    assert data[pos + |a| .. pos + |a| + |b|] == (a + b)[|a|..];
  }

  /** The records of `txs` back to back, in order. */
  function EncodeTxs(txs: seq<Transaction>): (bs: seq<byte>)
    ensures |bs| == |txs| * TX_SIZE
  {
    if |txs| == 0 then [] else EncodeTxs(txs[..|txs| - 1]) + EncodeTx(txs[|txs| - 1])
  }

  /** Appending one more record after the records of a prefix. */
  lemma EncodeTxsSnoc(head: seq<byte>, txs: seq<Transaction>, i: nat)
    requires i < |txs|
    ensures head + EncodeTxs(txs[..i + 1]) == head + EncodeTxs(txs[..i]) + EncodeTx(txs[i])
  {
    assert txs[..i + 1][..i] == txs[..i];
  }

  /**
   * from_file: reads `count` records one at a time from offset `pos` of the
   * file, returning them with the new offset; the first failed or short read
   * abandons the records read so far.
   */
  method FromFile(file: seq<byte>, pos: nat, count: nat, failAt: Option<nat>)
    returns (txs: seq<Transaction>, cursor: nat)
    requires pos <= |file|
    ensures (txs, cursor) == ReadRecords(file, pos, count, failAt)
  {
    txs := [];
    cursor := pos;
    for i := 0 to count
      invariant cursor == pos + i * TX_SIZE <= |file|
      invariant txs == RecordsAt(file, pos, i)
      invariant failAt.Some? ==> failAt.value >= i
    {
      if failAt == Some(i) {
        return [], cursor;
      }
      var got := if |file| - cursor < TX_SIZE then |file| - cursor else TX_SIZE;
      var batch := file[cursor .. cursor + got];
      cursor := cursor + got;
      if got != TX_SIZE {
        ShortReadIsFinal(|file|, pos, i, count, failAt);
        return [], cursor;
      }
      assert cursor == pos + (i + 1) * TX_SIZE;
      txs := txs + [DecodeTx(batch)];
    }
  }

  /** Once record i is short, no later record is reached, whatever fails afterwards. */
  lemma ShortReadIsFinal(size: nat, pos: nat, i: nat, count: nat, failAt: Option<nat>)
    requires i < count && pos + i * TX_SIZE <= size < pos + (i + 1) * TX_SIZE
    requires failAt.Some? ==> failAt.value > i
    ensures size < pos + count * TX_SIZE
    ensures failAt.Some? && failAt.value < count ==> size < pos + failAt.value * TX_SIZE
  {
    assert (i + 1) * TX_SIZE <= count * TX_SIZE;
    if failAt.Some? && failAt.value < count {
      assert (i + 1) * TX_SIZE <= failAt.value * TX_SIZE;
    }
  }
}
