/**
 * The block log: an append-only byte file of serialised blocks, read
 * forward through a cursor. Reaching the end of the file rewinds the
 * cursor, so each exhausted pass leaves the log ready for the next one.
 */
module BlockStore {
  import opened Outcomes
  import opened Encode
  import opened Transactions
  import opened Blocks

  /** The outcome of the operating system's reads during one call of `next`. */
  datatype ReadFault =
    | NoFault
    | HeaderReadError            // reading the header record reports an error
    | RecordReadError(index: nat) // reading transaction record `index` reports an error

  /** `next` reads a header record and the transaction count in one batch. */
  const BATCH_SIZE: nat := HEADER_SIZE + WORD_SIZE

  function RecordFault(fault: ReadFault): Option<nat>
  {
    if fault.RecordReadError? then Some(fault.index) else None
  }

  /** How many bytes `next` reads into its batch buffer at `pos`. */
  function Got(data: seq<byte>, pos: nat): (got: nat)
    requires pos <= |data|
    ensures got <= BATCH_SIZE && pos + got <= |data|
    ensures got == 0 <==> pos == |data|
  {
    if |data| - pos < BATCH_SIZE then |data| - pos else BATCH_SIZE
  }

  /** The batch buffer: the bytes read, then the zeros the buffer was initialised with. */
  function Batch(data: seq<byte>, pos: nat, got: nat): (batch: seq<byte>)
    requires got <= BATCH_SIZE && pos + got <= |data|
    ensures |batch| == BATCH_SIZE
  {
    data[pos .. pos + got] + Zeros(BATCH_SIZE - got)
  }

  /** The block decoded from a batch of `got` bytes at `pos`, and the cursor after its records. */
  function ReadBlock(data: seq<byte>, pos: nat, got: nat, fault: ReadFault): (r: (Option<Block>, nat))
    requires got <= BATCH_SIZE && pos + got <= |data|
    ensures r.0.Some? && pos + got <= r.1 <= |data|
    ensures Encodable(r.0.value)
  {
    var batch := Batch(data, pos, got);
    var records := ReadRecords(data, pos + got, FromLE(batch[HEADER_SIZE .. BATCH_SIZE]), RecordFault(fault));
    (Some(Block(DecodeHeader(batch[..HEADER_SIZE]), records.0)), records.1)
  }

  /** `ReadBlock` in terms of the records read after the batch. */
  lemma ReadBlockFrom(data: seq<byte>, pos: nat, got: nat, fault: ReadFault,
                      count: nat, txs: seq<Transaction>, next: nat)
    requires got <= BATCH_SIZE && pos + got <= |data|
    requires count == FromLE(Batch(data, pos, got)[HEADER_SIZE .. BATCH_SIZE])
    requires (txs, next) == ReadRecords(data, pos + got, count, RecordFault(fault))
    ensures ReadBlock(data, pos, got, fault) ==
      (Some(Block(DecodeHeader(Batch(data, pos, got)[..HEADER_SIZE]), txs)), next)
  {
  }

  /**
   * One call of `next` on the file `data` with the cursor at `pos`: the
   * block it yields and the cursor afterwards. A header read error yields
   * nothing and leaves the cursor; reading no bytes yields nothing and
   * rewinds; a short header is padded with zeros and decoded anyway; a
   * failed or short transaction read still yields the block, with no
   * transactions.
   */
  function Step(data: seq<byte>, pos: nat, fault: ReadFault): (r: (Option<Block>, nat))
    requires pos <= |data|
    ensures r.1 <= |data|
    ensures fault == NoFault && pos < |data| ==> r.0.Some? && pos < r.1
    ensures r.0.Some? ==> Encodable(r.0.value)
  {
    if fault == HeaderReadError then (None, pos)
    else if Got(data, pos) == 0 then (None, 0)
    else ReadBlock(data, pos, Got(data, pos), fault)
  }

  /**
   * The outcomes of `next`: a header read error keeps the cursor, the end
   * of the file rewinds it, and otherwise a block is yielded; when its
   * transactions were read, the cursor moves past header, count and records.
   */
  lemma StepOutcomes(data: seq<byte>, pos: nat, fault: ReadFault)
    requires pos <= |data|
    ensures fault == HeaderReadError ==> Step(data, pos, fault) == (None, pos)
    ensures fault != HeaderReadError && pos == |data| ==> Step(data, pos, fault) == (None, 0)
    ensures fault != HeaderReadError && pos < |data| ==> Step(data, pos, fault).0.Some?
    ensures fault != HeaderReadError && pos + BATCH_SIZE <= |data| && Step(data, pos, fault).0.value.transactions != [] ==>
      Step(data, pos, fault).1 == pos + BATCH_SIZE + |Step(data, pos, fault).0.value.transactions| * TX_SIZE
  {
  }

  /** The blocks a fault-free pass yields from `pos` to the end of the file. */
  function Scan(data: seq<byte>, pos: nat): (bs: seq<Block>)
    requires pos <= |data|
    ensures forall i :: 0 <= i < |bs| ==> Encodable(bs[i])
    ensures |bs| <= |data| - pos
    decreases |data| - pos
  {
    if pos == |data| then []
    else
      var (b, next) := Step(data, pos, NoFault);
      [b.value] + Scan(data, next)
  }

  /** The file that stores exactly the blocks `bs`, back to back. */
  function Flatten(bs: seq<Block>): seq<byte>
  {
    if |bs| == 0 then [] else Serialized(bs[0]) + Flatten(bs[1..])
  }

  lemma {:induction false} FlattenAppend(bs: seq<Block>, b: Block)
    ensures Flatten(bs + [b]) == Flatten(bs) + Serialized(b)
  {
    if |bs| == 0 {
      assert bs + [b] == [b];
    } else {
      assert (bs + [b])[1..] == bs[1..] + [b];
      FlattenAppend(bs[1..], b);
    }
  }

  /** The file holds exactly the blocks a pass reads from it: no torn or garbage tail. */
  ghost predicate Clean(data: seq<byte>)
  {
    Flatten(Scan(data, 0)) == data
  }

  /** `next` on a stored block yields that block and moves past its record. */
  lemma StepSerialized(data: seq<byte>, pos: nat, b: Block)
    requires Encodable(b)
    requires pos + |Serialized(b)| <= |data|
    requires data[pos .. pos + |Serialized(b)|] == Serialized(b)
    ensures Step(data, pos, NoFault) == (Some(b), pos + |Serialized(b)|)
  {
    var s := Serialized(b);
    var n := |b.transactions|;
    var next := pos + |s|;
    SerializedParts(b);
    var batch := BatchOf(data, pos, s);
    assert FromLE(batch[HEADER_SIZE .. BATCH_SIZE]) == n;
    assert DecodeHeader(batch[..HEADER_SIZE]) == b.header;
    assert next == pos + BATCH_SIZE + n * TX_SIZE;
    RecordsAfterBatch(data, pos + BATCH_SIZE, b.transactions);
    StepFullBatch(data, pos, b.header, b.transactions, next);
  }

  /** A fault-free step over a full batch yields its header with the records read after it. */
  lemma StepFullBatch(data: seq<byte>, pos: nat, h: Header, txs: seq<Transaction>, next: nat)
    requires pos + BATCH_SIZE <= |data|
    requires DecodeHeader(Batch(data, pos, BATCH_SIZE)[..HEADER_SIZE]) == h
    requires FromLE(Batch(data, pos, BATCH_SIZE)[HEADER_SIZE .. BATCH_SIZE]) == |txs|
    requires ReadRecords(data, pos + BATCH_SIZE, |txs|, None) == (txs, next)
    ensures Step(data, pos, NoFault) == (Some(Block(h, txs)), next)
  {
    assert Got(data, pos) == BATCH_SIZE;
    assert RecordFault(NoFault) == None;
    ReadBlockFrom(data, pos, BATCH_SIZE, NoFault, |txs|, txs, next);
  }

  /** The records stored after a block's batch are all read back, and the cursor moves past them. */
  lemma RecordsAfterBatch(data: seq<byte>, start: nat, txs: seq<Transaction>)
    requires start + |txs| * TX_SIZE <= |data|
    requires data[start .. start + |txs| * TX_SIZE] == EncodeTxs(txs)
    ensures ReadRecords(data, start, |txs|, None) == (txs, start + |txs| * TX_SIZE)
  {
    RecordsAtEncoded(data, start, txs);
  }

  /**
   * Where the stored record `s` starts at `pos`, the batch `next` reads is
   * the record's header and count words, and the rest is its transactions.
   */
  lemma BatchOf(data: seq<byte>, pos: nat, s: seq<byte>) returns (batch: seq<byte>)
    requires BATCH_SIZE <= |s| && pos + |s| <= |data| && data[pos .. pos + |s|] == s
    ensures batch == Batch(data, pos, BATCH_SIZE)
    ensures batch[..HEADER_SIZE] == s[..HEADER_SIZE]
    ensures batch[HEADER_SIZE .. BATCH_SIZE] == s[HEADER_SIZE .. HEADER_SIZE + WORD_SIZE]
    ensures data[pos + BATCH_SIZE .. pos + |s|] == s[HEADER_SIZE + WORD_SIZE ..]
  {
    batch := Batch(data, pos, BATCH_SIZE);
    assert batch == s[..BATCH_SIZE];
  }

  /** A pass over a file written as the blocks `bs` reads back exactly `bs`. */
  lemma {:induction false} ScanFlatten(data: seq<byte>, pos: nat, bs: seq<Block>)
    requires pos <= |data|
    requires data[pos..] == Flatten(bs)
    requires forall i :: 0 <= i < |bs| ==> Encodable(bs[i])
    ensures Scan(data, pos) == bs
    decreases |bs|
  {
    if |bs| > 0 {
      var next := FirstRecord(data, pos, bs);
      ScanStep(data, pos);
      assert Scan(data, pos) == [bs[0]] + Scan(data, next);
      ScanFlatten(data, next, bs[1..]);
      assert bs == [bs[0]] + bs[1..];
    } else {
      assert |data[pos..]| == 0;
    }
  }

  /** The first stored block of a flattened file is read by one step. */
  lemma FirstRecord(data: seq<byte>, pos: nat, bs: seq<Block>) returns (next: nat)
    requires pos <= |data| && |bs| > 0
    requires data[pos..] == Flatten(bs)
    requires Encodable(bs[0])
    ensures next <= |data| && Step(data, pos, NoFault) == (Some(bs[0]), next)
    ensures data[next..] == Flatten(bs[1..])
  {
    var s := Serialized(bs[0]);
    next := pos + |s|;
    assert data[pos .. next] == s by {
      assert data[pos..][..|s|] == s;
    }
    StepSerialized(data, pos, bs[0]);
    assert data[next..] == Flatten(bs[1..]) by {
      assert data[next..] == data[pos..][|s|..];
    }
  }

  /** Appending a block's record to a clean file adds exactly that block to a pass. */
  lemma AppendRoundTrip(data: seq<byte>, b: Block)
    requires Clean(data) && Encodable(b)
    ensures Scan(data + Serialized(b), 0) == Scan(data, 0) + [b]
    ensures Clean(data + Serialized(b))
  {
    var bs := Scan(data, 0) + [b];
    FlattenAppend(Scan(data, 0), b);
    var d := data + Serialized(b);
    assert d[0..] == d;
    ScanFlatten(d, 0, bs);
  }

  /** One fault-free step peels the first block off a pass, or ends it and rewinds. */
  lemma ScanStep(data: seq<byte>, pos: nat)
    requires pos <= |data|
    ensures Step(data, pos, NoFault).0.None? <==> pos == |data|
    ensures pos == |data| ==> Scan(data, pos) == [] && Step(data, pos, NoFault).1 == 0
    ensures pos < |data| ==>
      Scan(data, pos) == [Step(data, pos, NoFault).0.value] + Scan(data, Step(data, pos, NoFault).1)
  {
  }

  /** A pass over a non-empty file yields at least one block. */
  lemma ScanEmpty(data: seq<byte>)
    ensures Scan(data, 0) == [] <==> data == []
  {
  }

  /** A torn header at the end of the file is not detected: it still yields a block. */
  lemma ShortHeaderYieldsBlock(data: seq<byte>, pos: nat)
    requires pos < |data| < pos + BATCH_SIZE
    ensures Step(data, pos, NoFault).0.Some?
    ensures Step(data, pos, NoFault).0.value.transactions == []
    ensures Step(data, pos, NoFault).1 == |data|
  {
    var batch := Batch(data, pos, Got(data, pos));
    var count := FromLE(batch[HEADER_SIZE .. BATCH_SIZE]);
    if count > 0 {
      assert TX_SIZE <= count * TX_SIZE;
    }
  }

  /**
   * A failed transaction read still yields a block; when the failing record
   * lies within the count, the block has no transactions.
   */
  lemma RecordErrorYieldsEmptyBlock(data: seq<byte>, pos: nat, k: nat)
    requires pos < |data|
    ensures Step(data, pos, RecordReadError(k)).0.Some?
    ensures Step(data, pos, RecordReadError(k)).0.value.transactions == [] ||
            k >= |Step(data, pos, RecordReadError(k)).0.value.transactions|
  {
  }

  /** The last block of `bs`, or `r` when `bs` is empty. */
  function LastAfter(r: Option<Block>, bs: seq<Block>): Option<Block>
  {
    if |bs| == 0 then r else Last(bs)
  }

  lemma LastAfterCons(r: Option<Block>, b: Block, bs: seq<Block>)
    ensures LastAfter(r, [b] + bs) == LastAfter(Some(b), bs)
  {
  }

  function Last(bs: seq<Block>): Option<Block>
  {
    if |bs| == 0 then None else Some(bs[|bs| - 1])
  }

  /** The block log and its read cursor. */
  class BlockDB {
    var file: seq<byte>
    var cursor: nat
    var len: nat

    ghost predicate Valid()
      reads this
    {
      cursor <= |file|
    }

    /** open: the log with the given contents; `len` counts the blocks of a full pass. */
    constructor Open(contents: seq<byte>)
      ensures Valid() && file == contents && cursor == 0
      ensures len == |Scan(contents, 0)|
    {
      file, cursor, len := contents, 0, 0;
      new;
      var n := 0;
      var done := false;
      while !done
        invariant Valid() && file == contents
        invariant !done ==> n + |Scan(file, cursor)| == |Scan(file, 0)|
        invariant done ==> cursor == 0 && n == |Scan(file, 0)|
        decreases if done then 0 else |file| - cursor + 1
      {
        ScanStep(file, cursor);
        var r := Next(NoFault);
        if r.None? {
          done := true;
        } else {
          n := n + 1;
        }
      }
      len := n;
    }

    /** next: decodes the block at the cursor; see `Step`. */
    method Next(fault: ReadFault) returns (r: Option<Block>)
      requires Valid()
      modifies this
      ensures Valid() && file == old(file) && len == old(len)
      ensures (r, cursor) == Step(file, old(cursor), fault)
    {
      if fault == HeaderReadError {
        return None;
      }
      var data, pos := file, cursor;
      var got := Got(data, pos);
      if got == 0 {
        Reset();
        return None;
      }
      var batch := Batch(data, pos, got);
      var header := DecodeHeader(batch[..HEADER_SIZE]);
      var count := FromLE(batch[HEADER_SIZE .. BATCH_SIZE]);
      var txs, next := FromFile(data, pos + got, count, RecordFault(fault));
      ReadBlockFrom(data, pos, got, fault, count, txs, next);
      cursor := next;
      r := Some(Block(header, txs));
    }

    /** push: appends the block's record after every existing byte and rewinds. */
    method Push(b: Block)
      requires Valid()
      modifies this
      ensures Valid()
      ensures file == old(file) + Serialized(b)
      ensures cursor == 0 && len == old(len) + 1
    {
      var bytes := Serialize(b);
      file := file + bytes;
      cursor := 0;
      len := len + 1;
    }

    /** last_block: drains the pass from the cursor and returns its final block. */
    method LastBlock() returns (r: Option<Block>)
      requires Valid()
      modifies this
      ensures Valid() && file == old(file) && len == old(len) && cursor == 0
      ensures r == Last(Scan(file, old(cursor)))
    {
      ghost var start := cursor;
      r := None;
      var done := false;
      while !done
        invariant Valid() && file == old(file) && len == old(len)
        invariant !done ==> Last(Scan(file, start)) == LastAfter(r, Scan(file, cursor))
        invariant done ==> cursor == 0 && r == Last(Scan(file, start))
        decreases if done then 0 else |file| - cursor + 1
      {
        ScanStep(file, cursor);
        var b := Next(NoFault);
        if b.None? {
          done := true;
        } else {
          LastAfterCons(r, b.value, Scan(file, cursor));
          r := b;
        }
      }
    }

    /** reset: moves the cursor to the start and changes nothing else. */
    method Reset()
      requires Valid()
      modifies this
      ensures Valid() && cursor == 0 && file == old(file) && len == old(len)
    {
      cursor := 0;
    }
  }
}
