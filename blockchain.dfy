/**
 * The ledger: a view over one block log that bootstraps a genesis block,
 * mines blocks on top of the tip, computes balances and validates the
 * whole chain by streaming the log.
 */
module Ledger {
  import opened Outcomes
  import opened Encode
  import opened Keys
  import opened Transactions
  import opened Blocks
  import opened BlockStore

  /** The difficulty every block is mined at (stored in the `height` field). */
  const DIFFICULTY: usize := 2

  datatype LedgerError =
    | NotFound           // mining found no tip: the log holds no genesis block
    | InsufficientFunds  // a transfer exceeds the balance accumulated before it

  // ---------------------------------------------------------------------
  // Balances
  // ---------------------------------------------------------------------

  /** Every transaction of the blocks, in log order. */
  function AllTxs(bs: seq<Block>): seq<Transaction>
  {
    if |bs| == 0 then [] else bs[0].transactions + AllTxs(bs[1..])
  }

  /**
   * The effect of one transaction on the balance of `pk`: a receipt adds
   * its value, a payment subtracts it, and a transfer to oneself counts as
   * a receipt only.
   */
  function Delta(t: Transaction, pk: PKey): int
  {
    if t.receiver == pk then t.value else if t.sender == pk then -(t.value as int) else 0
  }

  function Net(txs: seq<Transaction>, pk: PKey): int
  {
    if |txs| == 0 then 0 else Delta(txs[0], pk) + Net(txs[1..], pk)
  }

  /** Total value received by `pk`. */
  function Received(txs: seq<Transaction>, pk: PKey): nat
  {
    if |txs| == 0 then 0
    else (if txs[0].receiver == pk then txs[0].value else 0) + Received(txs[1..], pk)
  }

  /** Total value `pk` paid to others. */
  function Sent(txs: seq<Transaction>, pk: PKey): nat
  {
    if |txs| == 0 then 0
    else (if txs[0].sender == pk && txs[0].receiver != pk then txs[0].value else 0) + Sent(txs[1..], pk)
  }

  lemma {:induction false} NetIsReceivedMinusSent(txs: seq<Transaction>, pk: PKey)
    ensures Net(txs, pk) == Received(txs, pk) - Sent(txs, pk)
  {
    if |txs| > 0 {
      NetIsReceivedMinusSent(txs[1..], pk);
    }
  }

  /**
   * The running balance of `pk` from `acc` through `txs`, or None at the
   * first payment that exceeds the balance accumulated before it.
   */
  function BalanceFold(txs: seq<Transaction>, pk: PKey, acc: nat): Option<nat>
  {
    if |txs| == 0 then Some(acc)
    else
      var t := txs[0];
      if t.receiver == pk then BalanceFold(txs[1..], pk, acc + t.value)
      else if t.sender == pk then
        if t.value > acc then None else BalanceFold(txs[1..], pk, acc - t.value)
      else BalanceFold(txs[1..], pk, acc)
  }

  /** The size of `Val`: a running balance must stay below it. */
  const VAL_LIMIT: nat := 0x1_0000_0000

  /**
   * No receipt takes the running balance of `pk` to VAL_LIMIT or beyond
   * before the fold stops: the exact condition under which balance_of's
   * `+=` never overflows. A failing payment ends the check.
   */
  predicate NoOverflow(txs: seq<Transaction>, pk: PKey, acc: nat)
  {
    if |txs| == 0 then true
    else
      var t := txs[0];
      if t.receiver == pk then acc + t.value < VAL_LIMIT && NoOverflow(txs[1..], pk, acc + t.value)
      else if t.sender == pk then t.value > acc || NoOverflow(txs[1..], pk, acc - t.value)
      else NoOverflow(txs[1..], pk, acc)
  }

  /** Receipts that total less than VAL_LIMIT on top of the start never overflow. */
  lemma {:induction false} ReceivedBoundNoOverflow(txs: seq<Transaction>, pk: PKey, acc: nat)
    requires acc + Received(txs, pk) < VAL_LIMIT
    ensures NoOverflow(txs, pk, acc)
  {
    if |txs| > 0 {
      var t := txs[0];
      if t.receiver == pk {
        ReceivedBoundNoOverflow(txs[1..], pk, acc + t.value);
      } else if t.sender == pk {
        if t.value <= acc {
          ReceivedBoundNoOverflow(txs[1..], pk, acc - t.value);
        }
      } else {
        ReceivedBoundNoOverflow(txs[1..], pk, acc);
      }
    }
  }

  /**
   * The condition is weaker than a bound on total receipts: receiving
   * 0xFFFF_FFFF, paying it all, then receiving 1 never overflows.
   */
  lemma NoOverflowBeyondReceived(pk: PKey, other: PKey, s: Signature)
    requires pk != other
    ensures var txs := [Transaction(0xFFFF_FFFF, other, pk, s, false),
                        Transaction(0xFFFF_FFFF, pk, other, s, false),
                        Transaction(1, other, pk, s, false)];
      NoOverflow(txs, pk, 0) && Received(txs, pk) == VAL_LIMIT && BalanceFold(txs, pk, 0) == Some(1)
  {
    var txs := [Transaction(0xFFFF_FFFF, other, pk, s, false),
                Transaction(0xFFFF_FFFF, pk, other, s, false),
                Transaction(1, other, pk, s, false)];
    var t1, t2, t3 := txs[0], txs[1], txs[2];
    assert txs[1..] == [t2, t3] && txs[1..][1..] == [t3] && [t3][1..] == [];
    assert NoOverflow([t3], pk, 0) && Received([t3], pk) == 1 && BalanceFold([t3], pk, 0) == Some(1);
    assert NoOverflow([t2, t3], pk, 0xFFFF_FFFF) && Received([t2, t3], pk) == 1;
    assert BalanceFold([t2, t3], pk, 0xFFFF_FFFF) == Some(1);
  }

  /** The condition splits over a concatenation the way the fold does. */
  lemma {:induction false} NoOverflowAppend(a: seq<Transaction>, b: seq<Transaction>, pk: PKey, acc: nat)
    ensures NoOverflow(a + b, pk, acc) <==>
      NoOverflow(a, pk, acc) && (BalanceFold(a, pk, acc).Some? ==> NoOverflow(b, pk, BalanceFold(a, pk, acc).value))
  {
    if |a| == 0 {
      assert a + b == b;
    } else {
      assert (a + b)[0] == a[0] && (a + b)[1..] == a[1..] + b;
      var t := a[0];
      if t.receiver == pk {
        NoOverflowAppend(a[1..], b, pk, acc + t.value);
      } else if t.sender == pk {
        if t.value <= acc {
          NoOverflowAppend(a[1..], b, pk, acc - t.value);
        }
      } else {
        NoOverflowAppend(a[1..], b, pk, acc);
      }
    }
  }

  /** No prefix of `txs` takes the balance below zero. */
  ghost predicate NeverNegative(txs: seq<Transaction>, pk: PKey, acc: nat)
  {
    forall k :: 0 <= k <= |txs| ==> acc + Net(txs[..k], pk) >= 0
  }

  /**
   * The fold fails exactly when some prefix would go negative; otherwise it
   * is the starting balance plus everything received minus everything sent.
   */
  lemma {:induction false} BalanceFoldSpec(txs: seq<Transaction>, pk: PKey, acc: nat)
    ensures BalanceFold(txs, pk, acc).Some? <==> NeverNegative(txs, pk, acc)
    ensures BalanceFold(txs, pk, acc).Some? ==>
      BalanceFold(txs, pk, acc).value == acc + Received(txs, pk) - Sent(txs, pk)
  {
    NetIsReceivedMinusSent(txs, pk);
    if |txs| == 0 {
      assert txs[..0] == [];
    } else {
      var d := Delta(txs[0], pk);
      NetPrefix(txs, 1, pk);
      assert txs[1..][..0] == [];
      if acc + d >= 0 {
        var rest := txs[1..];
        BalanceFoldSpec(rest, pk, acc + d);
        NetIsReceivedMinusSent(rest, pk);
        if NeverNegative(rest, pk, acc + d) {
          forall k | 0 <= k <= |txs| ensures acc + Net(txs[..k], pk) >= 0 {
            if k == 0 {
              assert txs[..0] == [];
            } else {
              NetPrefix(txs, k, pk);
            }
          }
        } else {
          var j :| 0 <= j <= |rest| && acc + d + Net(rest[..j], pk) < 0;
          NetPrefix(txs, j + 1, pk);
        }
      }
    }
  }

  /** A non-empty prefix nets its first transaction plus the rest of the prefix. */
  lemma NetPrefix(txs: seq<Transaction>, k: nat, pk: PKey)
    requires 1 <= k <= |txs|
    ensures Net(txs[..k], pk) == Delta(txs[0], pk) + Net(txs[1..][..k - 1], pk)
  {
    assert txs[..k][0] == txs[0];
    assert txs[..k][1..] == txs[1..][..k - 1];
  }

  /** Folding a concatenation folds the first part, then the second from its result. */
  lemma {:induction false} BalanceFoldAppend(a: seq<Transaction>, b: seq<Transaction>, pk: PKey, acc: nat)
    ensures BalanceFold(a + b, pk, acc) ==
      match BalanceFold(a, pk, acc)
      case None => None
      case Some(x) => BalanceFold(b, pk, x)
  {
    if |a| == 0 {
      assert a + b == b;
    } else {
      assert (a + b)[0] == a[0] && (a + b)[1..] == a[1..] + b;
      var t := a[0];
      if t.receiver == pk {
        BalanceFoldAppend(a[1..], b, pk, acc + t.value);
      } else if t.sender == pk {
        if t.value <= acc {
          BalanceFoldAppend(a[1..], b, pk, acc - t.value);
        }
      } else {
        BalanceFoldAppend(a[1..], b, pk, acc);
      }
    }
  }

  // ---------------------------------------------------------------------
  // Chain validity
  // ---------------------------------------------------------------------

  /** A block passes the transaction policy and stores its own hash. */
  predicate BlockIntact(c: Crypto, b: Block)
  {
    HasValidTransactions(c, b.transactions) && b.header.hash == BlockHash(c, b)
  }

  predicate AllIntact(c: Crypto, bs: seq<Block>)
  {
    forall i :: 0 <= i < |bs| ==> BlockIntact(c, bs[i])
  }

  /** Each block names its predecessor's hash as its previous hash. */
  predicate Linked(bs: seq<Block>)
  {
    forall i :: 0 < i < |bs| ==> bs[i].header.prevHash == bs[i - 1].header.hash
  }

  /** The whole-chain condition: a genesis block exists, every block is intact, the hashes link. */
  predicate ChainValid(c: Crypto, bs: seq<Block>)
  {
    |bs| > 0 && AllIntact(c, bs) && Linked(bs)
  }

  /** Changing the stored hash of any block of a valid chain makes it invalid. */
  lemma TamperedHashDetected(c: Crypto, bs: seq<Block>, i: nat, h: Digest)
    requires ChainValid(c, bs) && i < |bs| && h != bs[i].header.hash
    ensures !ChainValid(c, bs[i := bs[i].(header := bs[i].header.(hash := h))])
  {
    var t := bs[i].(header := bs[i].header.(hash := h));
    PreimageIgnoresHash(bs[i], h);
    assert !BlockIntact(c, t);
    assert bs[i := t][i] == t;
  }

  /** Appending a block that does not name the tip's hash makes the chain invalid. */
  lemma BrokenLinkDetected(c: Crypto, bs: seq<Block>, b: Block)
    requires |bs| > 0 && b.header.prevHash != bs[|bs| - 1].header.hash
    ensures !ChainValid(c, bs + [b])
  {
    var all := bs + [b];
    assert all[|bs|] == b && all[|bs| - 1] == bs[|bs| - 1];
  }

  /** A sealed block with valid transactions that names the tip keeps a valid chain valid. */
  lemma ExtendValidChain(c: Crypto, bs: seq<Block>, b: Block)
    requires ChainValid(c, bs)
    requires IsSealed(c, b) && HasValidTransactions(c, b.transactions)
    requires b.header.prevHash == bs[|bs| - 1].header.hash
    ensures ChainValid(c, bs + [b])
  {
    var all := bs + [b];
    forall i | 0 <= i < |all| ensures BlockIntact(c, all[i]) {
      if i < |bs| {
        assert all[i] == bs[i];
      }
    }
    forall i | 0 < i < |all| ensures all[i].header.prevHash == all[i - 1].header.hash {
      if i < |bs| {
        assert all[i] == bs[i] && all[i - 1] == bs[i - 1];
      }
    }
  }

  lemma AllIntactCons(c: Crypto, b: Block, rest: seq<Block>)
    ensures AllIntact(c, [b] + rest) <==> BlockIntact(c, b) && AllIntact(c, rest)
  {
    var all := [b] + rest;
    assert all[0] == b;
    assert forall i :: 0 <= i < |rest| ==> all[i + 1] == rest[i];
  }

  lemma LinkedCons(p: Block, b: Block, rest: seq<Block>)
    ensures Linked([p] + ([b] + rest)) <==> b.header.prevHash == p.header.hash && Linked([b] + rest)
  {
    var tail := [b] + rest;
    var all := [p] + tail;
    assert all[1] == b && all[0] == p;
    assert forall i :: 0 <= i < |tail| ==> all[i + 1] == tail[i];
  }

  /** A single sealed genesis block is a valid chain. */
  lemma GenesisChainValid(c: Crypto, g: Block)
    requires IsSealed(c, g) && g.transactions == []
    ensures ChainValid(c, [g])
  {
  }

  /** The ledger: a view over one block log. */
  class Blockchain {
    const db: BlockDB

    ghost predicate Valid()
      reads this, db
    {
      db.Valid()
    }

    /** len: the block count kept by the log. */
    function Len(): nat
      reads this, db
    {
      db.len
    }

    /**
     * load: opens the log with the given contents; when it holds no block,
     * appends a genesis block mined at `timestamp`.
     */
    constructor Load(c: Crypto, contents: seq<byte>, timestamp: u128)
      requires PowTerminates(c, DIFFICULTY)
      ensures Valid() && fresh(db) && db.cursor == 0 && db.len >= 1
      ensures contents != [] ==> db.file == contents && db.len == |Scan(contents, 0)|
      ensures contents == [] ==>
        |Scan(db.file, 0)| == 1 && db.len == 1 &&
        Scan(db.file, 0)[0].transactions == [] &&
        Scan(db.file, 0)[0].header.prevHash == ZERO_DIGEST &&
        Scan(db.file, 0)[0].header.height == DIFFICULTY &&
        IsSealed(c, Scan(db.file, 0)[0])
      ensures contents == [] ==> Clean(db.file) && Scan(db.file, 0)[0].header.timestamp == timestamp
    {
      db := new BlockDB.Open(contents);
      new;
      ScanEmpty(contents);
      if db.len < 1 {
        var genesis := NewGenesis(c, DIFFICULTY, timestamp);
        db.Push(genesis);
        assert Clean([]) by {
          assert Scan([], 0) == [];
        }
        AppendRoundTrip([], genesis);
        assert [] + Serialized(genesis) == Serialized(genesis);
      }
    }

    /**
     * mine: fails with NotFound when a pass from the cursor finds no tip;
     * otherwise appends one sealed block that names the tip's hash and
     * rewards the miner ahead of the given transactions.
     */
    method Mine(c: Crypto, miner: Wallet, txs: seq<Transaction>, timestamp: u128)
      returns (r: Result<(), LedgerError>, ghost mined: Block)
      requires Valid() && PowTerminates(c, DIFFICULTY)
      modifies db
      ensures Valid() && db.cursor == 0
      ensures Scan(old(db.file), old(db.cursor)) == [] ==>
        r == Err(NotFound) && db.file == old(db.file) && db.len == old(db.len)
      ensures Scan(old(db.file), old(db.cursor)) != [] ==>
        r == Ok(()) &&
        db.file == old(db.file) + Serialized(mined) && db.len == old(db.len) + 1 &&
        mined.header.prevHash == Last(Scan(old(db.file), old(db.cursor))).value.header.hash &&
        mined.transactions == [NewCoinbase(miner, MINING_REWARD)] + txs &&
        mined.header.height == DIFFICULTY && IsSealed(c, mined) &&
        mined.header.timestamp == timestamp &&
        (forall n: u128 :: n < mined.header.nonce ==>
          !Seals(c, Unsealed(mined.transactions, mined.header.prevHash, DIFFICULTY, timestamp), n))
      ensures Scan(old(db.file), old(db.cursor)) != [] && Clean(old(db.file)) && Encodable(mined) ==>
        Clean(db.file) && Scan(db.file, 0) == Scan(old(db.file), 0) + [mined]
    {
      var last := db.LastBlock();
      if last.None? {
        mined := Block(Header(ZERO_DIGEST, 0, ZERO_DIGEST, 0, 0), []);
        return Err(NotFound), mined;
      }
      var prevHash := last.value.header.hash;
      var block := Blocks.New(c, miner, txs, prevHash, DIFFICULTY, timestamp);
      assert block.transactions == [NewCoinbase(miner, MINING_REWARD)] + txs;
      mined := block;
      ghost var before := db.file;
      db.Push(block);
      if Clean(before) && Encodable(block) {
        AppendRoundTrip(before, block);
      }
      r := Ok(());
    }

    /**
     * balance_of: one pass from the cursor accumulating the wallet's
     * receipts and payments; a payment larger than the balance so far
     * rewinds and reports InsufficientFunds.
     */
    method BalanceOf(w: Wallet) returns (r: Result<Val, LedgerError>)
      requires Valid()
      requires NoOverflow(AllTxs(Scan(db.file, db.cursor)), w.pk, 0)
      modifies db
      ensures Valid() && db.cursor == 0 && db.file == old(db.file) && db.len == old(db.len)
      ensures r.Err? <==> BalanceFold(AllTxs(Scan(db.file, old(db.cursor))), w.pk, 0).None?
      ensures r.Err? ==> r.error == InsufficientFunds
      ensures r.Ok? ==> Some(r.value as nat) == BalanceFold(AllTxs(Scan(db.file, old(db.cursor))), w.pk, 0)
    {
      ghost var whole := AllTxs(Scan(db.file, db.cursor));
      var balance: Val := 0;
      var done := false;
      while !done
        invariant Valid() && db.file == old(db.file) && db.len == old(db.len)
        invariant !done ==> BalanceFold(whole, w.pk, 0) == BalanceFold(AllTxs(Scan(db.file, db.cursor)), w.pk, balance)
        invariant !done ==> NoOverflow(AllTxs(Scan(db.file, db.cursor)), w.pk, balance)
        invariant done ==> db.cursor == 0 && BalanceFold(whole, w.pk, 0) == Some(balance)
        decreases if done then 0 else |db.file| - db.cursor + 1
      {
        ScanStep(db.file, db.cursor);
        ghost var rest := Scan(db.file, db.cursor);
        var next := Next();
        if next.None? {
          done := true;
        } else {
          var txs := next.value.transactions;
          assert rest == [next.value] + Scan(db.file, db.cursor);
          assert AllTxs(rest) == txs + AllTxs(Scan(db.file, db.cursor));
          BalanceFoldAppend(txs, AllTxs(Scan(db.file, db.cursor)), w.pk, balance);
          NoOverflowAppend(txs, AllTxs(Scan(db.file, db.cursor)), w.pk, balance);
          var after := Accumulate(txs, w, balance);
          if after.None? {
            db.Reset();
            return Err(InsufficientFunds);
          }
          balance := after.value;
        }
      }
      r := Ok(balance);
    }

    /**
     * is_valid: a first pass from the cursor stops at the first block that
     * fails the transaction policy or does not store its own hash; a second
     * pass from the start checks that the log is non-empty and that every
     * block names its predecessor's hash. Every answer rewinds the cursor.
     */
    method IsValid(c: Crypto) returns (r: bool)
      requires Valid()
      modifies db
      ensures Valid() && db.cursor == 0 && db.file == old(db.file) && db.len == old(db.len)
      ensures r == (AllIntact(c, Scan(db.file, old(db.cursor))) && |Scan(db.file, 0)| > 0 && Linked(Scan(db.file, 0)))
      ensures old(db.cursor) == 0 ==> r == ChainValid(c, Scan(db.file, 0))
    {
      ghost var all := Scan(db.file, db.cursor);
      var done := false;
      while !done
        invariant Valid() && db.file == old(db.file) && db.len == old(db.len)
        invariant !done ==> (AllIntact(c, all) <==> AllIntact(c, Scan(db.file, db.cursor)))
        invariant done ==> db.cursor == 0 && AllIntact(c, all)
        decreases if done then 0 else |db.file| - db.cursor + 1
      {
        ScanStep(db.file, db.cursor);
        ghost var rest := Scan(db.file, db.cursor);
        var next := Next();
        if next.None? {
          done := true;
        } else {
          var block := next.value;
          AllIntactCons(c, block, Scan(db.file, db.cursor));
          if !HasValidTransactions(c, block.transactions) {
            db.Reset();
            return false;
          }
          var expected := CreateHash(c, block);
          if block.header.hash != expected {
            db.Reset();
            return false;
          }
        }
      }
      r := Linkage();
    }

    /** The second pass of is_valid, from the start of the log. */
    method Linkage() returns (r: bool)
      requires Valid() && db.cursor == 0
      modifies db
      ensures Valid() && db.cursor == 0 && db.file == old(db.file) && db.len == old(db.len)
      ensures r == (|Scan(db.file, 0)| > 0 && Linked(Scan(db.file, 0)))
    {
      ghost var all := Scan(db.file, 0);
      ScanStep(db.file, 0);
      var first := Next();
      if first.None? {
        db.Reset();
        return false;
      }
      var prev := first.value;
      var done := false;
      while !done
        invariant Valid() && db.file == old(db.file) && db.len == old(db.len)
        invariant !done ==> (Linked(all) <==> Linked([prev] + Scan(db.file, db.cursor)))
        invariant done ==> db.cursor == 0 && Linked(all)
        decreases if done then 0 else |db.file| - db.cursor + 1
      {
        ScanStep(db.file, db.cursor);
        var next := Next();
        if next.None? {
          assert [prev] + [] == [prev];
          done := true;
        } else {
          var current := next.value;
          LinkedCons(prev, current, Scan(db.file, db.cursor));
          if current.header.prevHash != prev.header.hash {
            db.Reset();
            return false;
          }
          prev := current;
        }
      }
      return true;
    }

    /** Iterator::next: the log's step, with every read succeeding. */
    method Next() returns (r: Option<Block>)
      requires Valid()
      modifies db
      ensures Valid() && db.file == old(db.file) && db.len == old(db.len)
      ensures (r, db.cursor) == Step(db.file, old(db.cursor), NoFault)
    {
      r := db.Next(NoFault);
    }
  }

  /**
   * Validation leaves the cursor at the start and the log unchanged, so
   * asking twice gives the same answer, and the second answer is always
   * the whole-chain condition.
   */
  method ValidateTwice(chain: Blockchain, c: Crypto) returns (first: bool, second: bool)
    requires chain.Valid() && chain.db.cursor == 0
    modifies chain.db
    ensures first == second
    ensures second == ChainValid(c, Scan(chain.db.file, 0))
  {
    first := chain.IsValid(c);
    second := chain.IsValid(c);
  }

  /**
   * The loop over one block's transactions in balance_of: returns the
   * running balance after them, or None at the first payment larger than
   * the balance so far.
   */
  method Accumulate(txs: seq<Transaction>, w: Wallet, start: Val) returns (r: Option<Val>)
    requires NoOverflow(txs, w.pk, start)
    ensures r.None? <==> BalanceFold(txs, w.pk, start).None?
    ensures r.Some? ==> BalanceFold(txs, w.pk, start) == Some(r.value as nat)
    ensures r.Some? ==> r.value <= start + Received(txs, w.pk)
  {
    var balance: Val := start;
    for i := 0 to |txs|
      invariant BalanceFold(txs, w.pk, start) == BalanceFold(txs[i..], w.pk, balance)
      invariant balance + Received(txs[i..], w.pk) <= start + Received(txs, w.pk)
      invariant NoOverflow(txs[i..], w.pk, balance)
    {
      var t := txs[i];
      assert txs[i..][0] == t && txs[i..][1..] == txs[i + 1..];
      if IsReceiver(t, w) {
        balance := balance + t.value;
      } else if IsSender(t, w) {
        if t.value > balance {
          return None;
        }
        balance := balance - t.value;
      }
    }
    assert txs[|txs|..] == [];
    return Some(balance);
  }
}
