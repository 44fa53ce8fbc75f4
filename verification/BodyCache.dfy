/** The bounded block-body cache with its receipt index, as one single-threaded object.

    Main results: in every reachable state the order queue lists the cached bodies once
    each, never more than the limit, and every indexed receipt occurs in the cached body
    that its block hash names; and the exact condition under which the index is complete. */
module BodyCache {
  import opened Bytes
  import opened Wrappers

  const MAX_GLOBAL_BLOCK_BODIES: nat := 50_000
  const BODY_VERSION: nat := 1

  type Id = Digest

  datatype Tx = Tx(txId: Id, payload: Bytes)
  datatype Receipt = Receipt(txId: Id, blockHash: Id, payload: Bytes)
  datatype Body = Body(version: nat, transactions: seq<Tx>, receipts: seq<Receipt>)
  datatype Record = Record(number: nat, blockHash: Id, body: Body)
  datatype Block = Block(number: nat, hash: Id, transactionsRoot: Id, receiptsRoot: Id, body: Option<Body>)

  /** `commitment_roots` is a parameter. */
  type Roots = Body -> (Id, Id)

  datatype CacheError =
    | UnsupportedVersion
    | LengthMismatch
    | IdMismatch(index: nat)
    | BlockHashMismatch(index: nat)
    | TransactionsRootMismatch
    | ReceiptsRootMismatch
    | InvalidBody
    | ConflictingHeight
    | AlreadyMapped
    | PersistFailed
    | MissingCanonicalBlock

  /** The global tables; canonical blocks in key order. */
  datatype Cache = Cache(bodies: map<Id, Record>, order: seq<Id>, receipts: map<Id, Receipt>, blocks: seq<Block>)

  // ----- canonical blocks -----

  function ZeroId(): Id {
    seq(32, _ => 0)
  }

  lemma ZeroIdExact(id: Id)
    ensures id == ZeroId() <==> forall i :: 0 <= i < 32 ==> id[i] == 0
  {
  }

  /** The position of the first block with this hash, or |blocks|. */
  function FindHash(blocks: seq<Block>, hash: Id): (i: nat)
    ensures i <= |blocks|
    ensures i < |blocks| ==> blocks[i].hash == hash
    ensures forall j :: 0 <= j < i ==> blocks[j].hash != hash
  {
    if blocks == [] || blocks[0].hash == hash then 0 else 1 + FindHash(blocks[1..], hash)
  }

  function FindNumber(blocks: seq<Block>, number: nat): (i: nat)
    ensures i <= |blocks|
    ensures i < |blocks| ==> blocks[i].number == number
    ensures forall j :: 0 <= j < i ==> blocks[j].number != number
  {
    if blocks == [] || blocks[0].number == number then 0 else 1 + FindNumber(blocks[1..], number)
  }

  /** `apply_body_commitments`. */
  function Commit(block: Block, body: Body, roots: Roots): Block {
    block.(transactionsRoot := roots(body).0, receiptsRoot := roots(body).1)
  }

  /** The commitments of a body replace both roots of a block and nothing else. */
  lemma CommitIs(block: Block, body: Body, roots: Roots)
    ensures Commit(block, body, roots) ==
            Block(block.number, block.hash, roots(body).0, roots(body).1, block.body)
  {
  }

  /** `reconcile_body_commitments`: the error, if a non-zero root differs. */
  function ReconcileError(block: Block, body: Body, roots: Roots): Option<CacheError> {
    if block.transactionsRoot != ZeroId() && block.transactionsRoot != roots(body).0 then Some(TransactionsRootMismatch)
    else if block.receiptsRoot != ZeroId() && block.receiptsRoot != roots(body).1 then Some(ReceiptsRootMismatch)
    else None
  }

  /** `validate_against_header`. */
  function HeaderError(block: Block, body: Body, roots: Roots): Option<CacheError> {
    if |body.transactions| != |body.receipts| then Some(InvalidBody)
    else if exists i :: 0 <= i < |body.receipts| &&
                        (body.transactions[i].txId != body.receipts[i].txId || body.receipts[i].blockHash != block.hash)
    then Some(InvalidBody)
    else if block.transactionsRoot != roots(body).0 then Some(TransactionsRootMismatch)
    else if block.receiptsRoot != roots(body).1 then Some(ReceiptsRootMismatch)
    else None
  }

  // ----- validation -----

  /** The first transaction and receipt from position i on that do not belong together. */
  function PairError(record: Record, i: nat): Option<CacheError>
    requires |record.body.transactions| == |record.body.receipts| && i <= |record.body.receipts|
    decreases |record.body.receipts| - i
  {
    if i == |record.body.receipts| then None
    else if record.body.transactions[i].txId != record.body.receipts[i].txId then Some(IdMismatch(i))
    else if record.body.receipts[i].blockHash != record.blockHash then Some(BlockHashMismatch(i))
    else PairError(record, i + 1)
  }

  function ChainError(blocks: seq<Block>, record: Record, roots: Roots): Option<CacheError> {
    var k := FindHash(blocks, record.blockHash);
    var reconcile := if k < |blocks| then ReconcileError(blocks[k], record.body, roots) else None;
    if reconcile.Some? then reconcile
    else
      var validate :=
        if k < |blocks| then HeaderError(Commit(blocks[k], record.body, roots), record.body, roots) else None;
      if validate.Some? then validate
      else
        var n := FindNumber(blocks, record.number);
        if n < |blocks| && blocks[n].hash != record.blockHash then Some(ConflictingHeight)
        else if k < |blocks| && blocks[k].number != record.number then Some(AlreadyMapped)
        else None
  }

  /** `validate_global_block_body_insert`. */
  function InsertError(blocks: seq<Block>, record: Record, roots: Roots): Option<CacheError> {
    if record.body.version != BODY_VERSION then Some(UnsupportedVersion)
    else if |record.body.transactions| != |record.body.receipts| then Some(LengthMismatch)
    else if PairError(record, 0).Some? then PairError(record, 0)
    else ChainError(blocks, record, roots)
  }

  /** The receipts of a record belong to its transactions and to its block. */
  ghost predicate Belongs(record: Record) {
    && |record.body.transactions| == |record.body.receipts|
    && forall i :: 0 <= i < |record.body.receipts| ==>
         record.body.transactions[i].txId == record.body.receipts[i].txId &&
         record.body.receipts[i].blockHash == record.blockHash
  }

  lemma {:induction false} PairsExact(record: Record, i: nat)
    requires |record.body.transactions| == |record.body.receipts| && i <= |record.body.receipts|
    ensures PairError(record, i) == None <==>
            forall j :: i <= j < |record.body.receipts| ==>
              record.body.transactions[j].txId == record.body.receipts[j].txId &&
              record.body.receipts[j].blockHash == record.blockHash
    decreases |record.body.receipts| - i
  {
    if i < |record.body.receipts| {
      PairsExact(record, i + 1);
    }
  }

  /** A root that is not set, or is this one. */
  ghost predicate OpenOrEqual(root: Id, expected: Id) {
    (forall i :: 0 <= i < 32 ==> root[i] == 0) || root == expected
  }

  /** The canonical chain agrees with the record: the first block with its hash has its height
      and no other roots, and the first block at its height has its hash. */
  ghost predicate ChainAgrees(blocks: seq<Block>, record: Record, roots: Roots) {
    && (forall k :: 0 <= k < |blocks| && blocks[k].hash == record.blockHash &&
                    (forall j :: 0 <= j < k ==> blocks[j].hash != record.blockHash) ==>
          && blocks[k].number == record.number
          && OpenOrEqual(blocks[k].transactionsRoot, roots(record.body).0)
          && OpenOrEqual(blocks[k].receiptsRoot, roots(record.body).1))
    && (forall n :: 0 <= n < |blocks| && blocks[n].number == record.number &&
                    (forall j :: 0 <= j < n ==> blocks[j].number != record.number) ==>
          blocks[n].hash == record.blockHash)
  }

  lemma FirstHash(blocks: seq<Block>, hash: Id, k: nat)
    requires k < |blocks| && blocks[k].hash == hash && forall j :: 0 <= j < k ==> blocks[j].hash != hash
    ensures FindHash(blocks, hash) == k
  {
    hide FindHash;
    assert blocks[k].hash == hash;
  }

  lemma FirstNumber(blocks: seq<Block>, number: nat, n: nat)
    requires n < |blocks| && blocks[n].number == number && forall j :: 0 <= j < n ==> blocks[j].number != number
    ensures FindNumber(blocks, number) == n
  {
    hide FindNumber;
    assert blocks[n].number == number;
  }

  /** What the two searches find is what the list itself says. */
  lemma AgreesAtFound(blocks: seq<Block>, record: Record, roots: Roots)
    ensures var k, n := FindHash(blocks, record.blockHash), FindNumber(blocks, record.number);
            ChainAgrees(blocks, record, roots) <==>
            && (k < |blocks| ==>
                  && blocks[k].number == record.number
                  && OpenOrEqual(blocks[k].transactionsRoot, roots(record.body).0)
                  && OpenOrEqual(blocks[k].receiptsRoot, roots(record.body).1))
            && (n < |blocks| ==> blocks[n].hash == record.blockHash)
  {
    hide FindHash, FindNumber, OpenOrEqual;
    forall k | 0 <= k < |blocks| && blocks[k].hash == record.blockHash &&
               (forall j :: 0 <= j < k ==> blocks[j].hash != record.blockHash)
      ensures FindHash(blocks, record.blockHash) == k
    {
      FirstHash(blocks, record.blockHash, k);
    }
    forall n | 0 <= n < |blocks| && blocks[n].number == record.number &&
               (forall j :: 0 <= j < n ==> blocks[j].number != record.number)
      ensures FindNumber(blocks, record.number) == n
    {
      FirstNumber(blocks, record.number, n);
    }
  }

  lemma ReconcileExact(block: Block, body: Body, roots: Roots)
    ensures ReconcileError(block, body, roots) == None <==>
            OpenOrEqual(block.transactionsRoot, roots(body).0) && OpenOrEqual(block.receiptsRoot, roots(body).1)
    ensures !OpenOrEqual(block.transactionsRoot, roots(body).0) ==>
              ReconcileError(block, body, roots) == Some(TransactionsRootMismatch)
    ensures OpenOrEqual(block.transactionsRoot, roots(body).0) && !OpenOrEqual(block.receiptsRoot, roots(body).1) ==>
              ReconcileError(block, body, roots) == Some(ReceiptsRootMismatch)
  {
    hide ZeroId;
    ZeroIdExact(block.transactionsRoot);
    ZeroIdExact(block.receiptsRoot);
  }

  /** The heights of a canonical chain differ; then no block at the record's height may have
      another hash, and no block with its hash another height or other roots. */
  lemma ChainAgreesOnMap(blocks: seq<Block>, record: Record, roots: Roots)
    requires forall i, j :: 0 <= i < j < |blocks| ==> blocks[i].number != blocks[j].number
    requires forall i, j :: 0 <= i < j < |blocks| ==> blocks[i].hash != blocks[j].hash
    ensures ChainAgrees(blocks, record, roots) <==>
            forall i :: 0 <= i < |blocks| ==>
              && (blocks[i].number == record.number <==> blocks[i].hash == record.blockHash)
              && (blocks[i].hash == record.blockHash ==>
                    OpenOrEqual(blocks[i].transactionsRoot, roots(record.body).0) &&
                    OpenOrEqual(blocks[i].receiptsRoot, roots(record.body).1))
  {
    hide FindHash, FindNumber, OpenOrEqual, ChainAgrees;
    AgreesAtFound(blocks, record, roots);
    var k, n := FindHash(blocks, record.blockHash), FindNumber(blocks, record.number);
    forall i | 0 <= i < |blocks|
      ensures blocks[i].hash == record.blockHash <==> i == k
      ensures blocks[i].number == record.number <==> i == n
    {
    }
  }

  lemma ChainExact(blocks: seq<Block>, record: Record, roots: Roots)
    requires Belongs(record)
    ensures ChainError(blocks, record, roots) == None <==> ChainAgrees(blocks, record, roots)
  {
    hide Belongs, HeaderError, ReconcileError, OpenOrEqual, ChainAgrees, FindHash, FindNumber;
    var k := FindHash(blocks, record.blockHash);
    AgreesAtFound(blocks, record, roots);
    if k < |blocks| {
      ReconcileExact(blocks[k], record.body, roots);
      SecondCheckNeverFails(blocks[k], record, roots);
    }
  }

  /** A record is accepted iff it has the version, its receipts belong to it, and the chain
      agrees with it. */
  lemma InsertExact(blocks: seq<Block>, record: Record, roots: Roots)
    ensures InsertError(blocks, record, roots) == None <==>
            record.body.version == 1 && Belongs(record) && ChainAgrees(blocks, record, roots)
  {
    hide ChainError, ChainAgrees, PairError;
    if |record.body.transactions| == |record.body.receipts| {
      PairsExact(record, 0);
      if Belongs(record) {
        ChainExact(blocks, record, roots);
      }
    }
  }

  /** Validation against a header: the pairs of the block, and both roots. */
  lemma HeaderExact(block: Block, body: Body, roots: Roots)
    ensures HeaderError(block, body, roots) == None <==>
            && |body.transactions| == |body.receipts|
            && (forall i :: 0 <= i < |body.receipts| ==>
                  body.transactions[i].txId == body.receipts[i].txId && body.receipts[i].blockHash == block.hash)
            && block.transactionsRoot == roots(body).0 && block.receiptsRoot == roots(body).1
    ensures HeaderError(block, body, roots) == Some(TransactionsRootMismatch) ==> block.transactionsRoot != roots(body).0
    ensures HeaderError(block, body, roots) == Some(ReceiptsRootMismatch) ==>
              block.transactionsRoot == roots(body).0 && block.receiptsRoot != roots(body).1
  {
  }

  /** The first transaction and receipt that do not belong together decide the error. */
  lemma {:induction false} PairErrorExact(record: Record, i: nat, j: nat)
    requires |record.body.transactions| == |record.body.receipts| && i <= j < |record.body.receipts|
    requires forall h :: i <= h < j ==>
               record.body.transactions[h].txId == record.body.receipts[h].txId &&
               record.body.receipts[h].blockHash == record.blockHash
    ensures record.body.transactions[j].txId != record.body.receipts[j].txId ==>
              PairError(record, i) == Some(IdMismatch(j))
    ensures record.body.transactions[j].txId == record.body.receipts[j].txId &&
            record.body.receipts[j].blockHash != record.blockHash ==>
              PairError(record, i) == Some(BlockHashMismatch(j))
    decreases j - i
  {
    if i < j {
      PairErrorExact(record, i + 1, j);
    }
  }

  /** The errors of a record with the right version and matching pairs, in their order. */
  lemma ChainErrorExact(blocks: seq<Block>, record: Record, roots: Roots)
    requires Belongs(record)
    ensures var k, n := FindHash(blocks, record.blockHash), FindNumber(blocks, record.number);
            ChainError(blocks, record, roots) ==
            if k < |blocks| && !OpenOrEqual(blocks[k].transactionsRoot, roots(record.body).0)
            then Some(TransactionsRootMismatch)
            else if k < |blocks| && !OpenOrEqual(blocks[k].receiptsRoot, roots(record.body).1)
            then Some(ReceiptsRootMismatch)
            else if n < |blocks| && blocks[n].hash != record.blockHash then Some(ConflictingHeight)
            else if k < |blocks| && blocks[k].number != record.number then Some(AlreadyMapped)
            else None
  {
    hide Belongs, HeaderError, ReconcileError, OpenOrEqual, FindHash, FindNumber;
    var k := FindHash(blocks, record.blockHash);
    if k < |blocks| {
      ReconcileExact(blocks[k], record.body, roots);
      SecondCheckNeverFails(blocks[k], record, roots);
    }
  }

  /** The errors of a record before the chain is consulted. */
  lemma RecordErrorExact(blocks: seq<Block>, record: Record, roots: Roots)
    ensures record.body.version != 1 ==> InsertError(blocks, record, roots) == Some(UnsupportedVersion)
    ensures record.body.version == 1 && |record.body.transactions| != |record.body.receipts| ==>
              InsertError(blocks, record, roots) == Some(LengthMismatch)
    ensures record.body.version == 1 && |record.body.transactions| == |record.body.receipts| && !Belongs(record) ==>
              InsertError(blocks, record, roots) == PairError(record, 0) != None
    ensures record.body.version == 1 && Belongs(record) ==>
              InsertError(blocks, record, roots) == ChainError(blocks, record, roots)
  {
    hide ChainError, PairError;
    if |record.body.transactions| == |record.body.receipts| {
      PairsExact(record, 0);
    }
  }

  /** Once the pairs match and the roots are reconciled, validation against the header
      cannot fail. */
  lemma SecondCheckNeverFails(block: Block, record: Record, roots: Roots)
    requires Belongs(record) && block.hash == record.blockHash
    ensures HeaderError(Commit(block, record.body, roots), record.body, roots) == None
  {
  }

  // ----- updates of the tables -----

  ghost function TxIds(rs: seq<Receipt>): set<Id> {
    set i | 0 <= i < |rs| :: rs[i].txId
  }

  /** The index after entering receipts in order. */
  function Indexed(index: map<Id, Receipt>, rs: seq<Receipt>): map<Id, Receipt> {
    if rs == [] then index else Indexed(index, rs[..|rs| - 1])[rs[|rs| - 1].txId := rs[|rs| - 1]]
  }

  /** `retain`: the hashes not in the set. */
  function Without(order: seq<Id>, gone: set<Id>): seq<Id> {
    if order == [] then []
    else Without(order[..|order| - 1], gone) + if order[|order| - 1] in gone then [] else [order[|order| - 1]]
  }

  /** The receipts of the cached bodies among the hashes. */
  function ReceiptsOf(bodies: map<Id, Record>, hashes: seq<Id>): seq<Receipt> {
    if hashes == [] then []
    else
      var last := hashes[|hashes| - 1];
      ReceiptsOf(bodies, hashes[..|hashes| - 1]) + if last in bodies then bodies[last].body.receipts else []
  }

  function SetOf(hashes: seq<Id>): (s: set<Id>)
    ensures forall h :: h in s <==> h in hashes
  {
    set h | h in hashes
  }

  /** `remove_block_bodies`. */
  ghost function Removed(c: Cache, hashes: seq<Id>): Cache {
    c.(bodies := c.bodies - SetOf(hashes),
       order := Without(c.order, SetOf(hashes)),
       receipts := c.receipts - TxIds(ReceiptsOf(c.bodies, hashes)))
  }

  /** The queue with the hash moved to the back. */
  function Requeued(order: seq<Id>, hash: Id): seq<Id> {
    Without(order, {hash}) + [hash]
  }

  function Excess(order: seq<Id>): (k: nat)
    ensures k <= |order| && |order| - k <= MAX_GLOBAL_BLOCK_BODIES
    ensures |order| <= MAX_GLOBAL_BLOCK_BODIES ==> k == 0
  {
    if |order| > MAX_GLOBAL_BLOCK_BODIES then |order| - MAX_GLOBAL_BLOCK_BODIES else 0
  }

  /** Inserting the body, dropping the index entries of a body it replaces. */
  ghost function Inserted(c: Cache, record: Record): Cache {
    var h := record.blockHash;
    c.(bodies := c.bodies[h := record],
       receipts := if h in c.bodies then c.receipts - TxIds(c.bodies[h].body.receipts) else c.receipts,
       order := Requeued(c.order, h))
  }

  /** Evicting the oldest bodies beyond the limit. */
  ghost function Evicted(c: Cache): Cache {
    var k := Excess(c.order);
    if k == 0 then c else Removed(c.(order := c.order[k..]), c.order[..k])
  }

  /** `update_global_block_body_commitments`, where the chain knows the block. */
  ghost function Committed(blocks: seq<Block>, record: Record, roots: Roots): seq<Block> {
    var k := FindHash(blocks, record.blockHash);
    if k < |blocks| then blocks[k := Commit(blocks[k], record.body, roots).(body := Some(record.body))] else blocks
  }

  /** A successful `store_block_body`. */
  ghost function Stored(c: Cache, record: Record, roots: Roots): Cache {
    var e := Evicted(Inserted(c, record));
    e.(receipts := Indexed(e.receipts, record.body.receipts), blocks := Committed(e.blocks, record, roots))
  }

  // ----- the invariant -----

  ghost predicate Distinct(order: seq<Id>) {
    forall i, j :: 0 <= i < j < |order| ==> order[i] != order[j]
  }

  ghost predicate QueueMatches(c: Cache) {
    && Distinct(c.order)
    && (forall h :: h in c.order <==> h in c.bodies)
  }

  ghost predicate RecordsMatch(c: Cache) {
    forall h :: h in c.bodies ==> c.bodies[h].blockHash == h && Belongs(c.bodies[h])
  }

  /** Every indexed receipt occurs in the cached body named by its block hash. */
  ghost predicate IndexSound(c: Cache) {
    forall t :: t in c.receipts ==>
      var r := c.receipts[t];
      r.txId == t && r.blockHash in c.bodies && r in c.bodies[r.blockHash].body.receipts
  }

  ghost predicate Valid(c: Cache) {
    && QueueMatches(c)
    && |c.order| <= MAX_GLOBAL_BLOCK_BODIES
    && RecordsMatch(c)
    && IndexSound(c)
  }

  lemma {:induction false} WithoutLaws(order: seq<Id>, gone: set<Id>)
    ensures forall h :: h in Without(order, gone) <==> h in order && h !in gone
    ensures |Without(order, gone)| <= |order|
    ensures Distinct(order) ==> Distinct(Without(order, gone))
    ensures (forall h :: h in order ==> h !in gone) ==> Without(order, gone) == order
  {
    if order != [] {
      hide Distinct;
      var front, last := order[..|order| - 1], order[|order| - 1];
      assert order == front + [last];
      WithoutLaws(front, gone);
      if Distinct(order) {
        DistinctSplit(front, last);
        if last !in gone {
          DistinctAppend(Without(front, gone), last);
        }
      }
    }
  }

  lemma DistinctSplit(front: seq<Id>, last: Id)
    requires Distinct(front + [last])
    ensures Distinct(front) && last !in front
  {
    var all := front + [last];
    assert all[|front|] == last;
    forall i | 0 <= i < |front|
      ensures front[i] == all[i] && front[i] != last
    {
    }
  }

  lemma DistinctAppend(front: seq<Id>, last: Id)
    requires Distinct(front) && last !in front
    ensures Distinct(front + [last])
  {
  }

  /** Removing a present hash shortens a duplicate-free queue by one. */
  lemma {:induction false} WithoutOne(order: seq<Id>, h: Id)
    requires Distinct(order)
    ensures |Without(order, {h})| == |order| - if h in order then 1 else 0
  {
    if order != [] {
      var front, last := order[..|order| - 1], order[|order| - 1];
      assert order == front + [last];
      WithoutOne(front, h);
    }
  }

  lemma {:induction false} IndexedLaws(index: map<Id, Receipt>, rs: seq<Receipt>)
    ensures forall t :: t in Indexed(index, rs) <==> t in index || t in TxIds(rs)
    ensures forall t :: t in index && t !in TxIds(rs) ==> Indexed(index, rs)[t] == index[t]
    ensures forall t :: t in TxIds(rs) ==> Indexed(index, rs)[t] in rs && Indexed(index, rs)[t].txId == t
  {
    if rs != [] {
      var front, last := rs[..|rs| - 1], rs[|rs| - 1];
      IndexedLaws(index, front);
      assert rs == front + [last];
      assert TxIds(rs) == TxIds(front) + {last.txId} by {
        assert rs[|front|].txId == last.txId;
        assert forall i :: 0 <= i < |front| ==> rs[i].txId == front[i].txId;
      }
    }
  }

  lemma {:induction false} ReceiptsOfLaws(bodies: map<Id, Record>, hashes: seq<Id>, h: Id)
    ensures h in hashes && h in bodies ==>
              forall r :: r in bodies[h].body.receipts ==> r in ReceiptsOf(bodies, hashes)
    ensures forall r :: r in ReceiptsOf(bodies, hashes) ==>
              exists g :: g in hashes && g in bodies && r in bodies[g].body.receipts
  {
    if hashes != [] {
      var front, last := hashes[..|hashes| - 1], hashes[|hashes| - 1];
      assert hashes == front + [last];
      ReceiptsOfLaws(bodies, front, h);
      forall r | r in ReceiptsOf(bodies, hashes)
        ensures exists g :: g in hashes && g in bodies && r in bodies[g].body.receipts
      {
        if r in ReceiptsOf(bodies, front) {
          var g :| g in front && g in bodies && r in bodies[g].body.receipts;
          assert g in hashes;
        } else {
          assert last in hashes && last in bodies;
        }
      }
    }
  }

  lemma TxIdsMember(rs: seq<Receipt>, r: Receipt)
    requires r in rs
    ensures r.txId in TxIds(rs)
  {
    var i :| 0 <= i < |rs| && rs[i] == r;
    assert rs[i].txId in TxIds(rs);
  }

  /** Removing bodies keeps the invariant, whatever the queue's length. */
  lemma RemovedKeeps(c: Cache, hashes: seq<Id>)
    requires Distinct(c.order)
    requires forall h :: h in c.bodies && h !in hashes ==> h in c.order
    requires forall h :: h in c.order ==> h in c.bodies
    requires RecordsMatch(c) && IndexSound(c)
    ensures var r := Removed(c, hashes);
            && QueueMatches(r) && |r.order| <= |c.order| && RecordsMatch(r) && IndexSound(r)
  {
    hide Belongs;
    var gone, c' := SetOf(hashes), Removed(c, hashes);
    WithoutLaws(c.order, gone);
    forall t | t in c'.receipts
      ensures var r := c'.receipts[t];
              r.txId == t && r.blockHash in c'.bodies && r in c'.bodies[r.blockHash].body.receipts
    {
      var r := c.receipts[t];
      ReceiptsOfLaws(c.bodies, hashes, r.blockHash);
      if r.blockHash in hashes {
        TxIdsMember(ReceiptsOf(c.bodies, hashes), r);
      }
    }
  }

  lemma RequeuedLaws(order: seq<Id>, h: Id)
    requires Distinct(order)
    ensures var q := Requeued(order, h);
            && Distinct(q)
            && (forall g :: g in q <==> g in order || g == h)
            && |q| == |order| + (if h in order then 0 else 1)
            && q[|q| - 1] == h
            && (h !in order && order != [] ==> q[0] == order[0])
  {
    hide Without;
    WithoutLaws(order, {h});
    WithoutOne(order, h);
  }

  lemma InsertedIndex(c: Cache, record: Record)
    requires IndexSound(c)
    ensures IndexSound(Inserted(c, record))
  {
    hide Belongs, Requeued;
    var h, i := record.blockHash, Inserted(c, record);
    forall t | t in i.receipts
      ensures var r := i.receipts[t];
              r.txId == t && r.blockHash in i.bodies && r in i.bodies[r.blockHash].body.receipts
    {
      var r := c.receipts[t];
      if r.blockHash == h {
        TxIdsMember(c.bodies[h].body.receipts, r);
      }
    }
  }

  /** Inserting keeps everything but the limit, which it exceeds by at most one. */
  lemma InsertedKeeps(c: Cache, record: Record)
    requires Valid(c) && Belongs(record)
    ensures var i := Inserted(c, record);
            && QueueMatches(i) && |i.order| <= MAX_GLOBAL_BLOCK_BODIES + 1 && RecordsMatch(i) && IndexSound(i)
            && i.order[|i.order| - 1] == record.blockHash
            && |i.order| == |c.order| + if record.blockHash in c.bodies then 0 else 1
  {
    hide Belongs, IndexSound, Requeued, Distinct;
    RequeuedLaws(c.order, record.blockHash);
    InsertedIndex(c, record);
  }

  /** The evicted hash, if any, is the oldest one and not the one just stored. */
  lemma EvictedKeeps(c: Cache, h: Id)
    requires QueueMatches(c) && |c.order| <= MAX_GLOBAL_BLOCK_BODIES + 1 && RecordsMatch(c) && IndexSound(c)
    requires |c.order| > 0 && c.order[|c.order| - 1] == h
    ensures var e := Evicted(c);
            && Valid(e) && h in e.bodies && e.bodies[h] == c.bodies[h] && e.blocks == c.blocks
            && e.order == c.order[Excess(c.order)..]
            && forall g :: g in e.bodies <==> g in c.bodies && (Excess(c.order) == 0 || g != c.order[0])
  {
    hide Belongs;
    var k := Excess(c.order);
    if k > 0 {
      var popped, stale := c.(order := c.order[k..]), c.order[..k];
      assert k == 1 && stale == [c.order[0]];
      assert c.order[|c.order| - 1] in popped.order;
      RemovedKeeps(popped, stale);
      forall g | g in popped.order
        ensures g !in SetOf(stale)
      {
        var i :| 0 <= i < |popped.order| && popped.order[i] == g;
        assert c.order[i + 1] == g;
      }
      WithoutLaws(popped.order, SetOf(stale));
    } else {
      assert c.order[0..] == c.order;
    }
  }

  lemma IndexingKeeps(c: Cache, record: Record)
    requires Valid(c) && Belongs(record)
    requires record.blockHash in c.bodies && c.bodies[record.blockHash] == record
    ensures Valid(c.(receipts := Indexed(c.receipts, record.body.receipts)))
  {
    var rs := record.body.receipts;
    IndexedLaws(c.receipts, rs);
    var index := Indexed(c.receipts, rs);
    forall t | t in index
      ensures index[t].txId == t && index[t].blockHash in c.bodies
      ensures index[t] in c.bodies[index[t].blockHash].body.receipts
    {
      if t in TxIds(rs) {
        var i :| 0 <= i < |rs| && rs[i] == index[t];
      }
    }
  }

  /** Storing keeps the invariant; the stored body is the newest, and every receipt of the
      record is indexed under its block. */
  lemma StoredKeeps(c: Cache, record: Record, roots: Roots)
    requires Valid(c) && Belongs(record)
    ensures var s := Stored(c, record, roots);
            && Valid(s)
            && record.blockHash in s.bodies && s.bodies[record.blockHash] == record
            && s.order[|s.order| - 1] == record.blockHash
            && (forall t :: t in TxIds(record.body.receipts) ==>
                  t in s.receipts && s.receipts[t].blockHash == record.blockHash)
  {
    hide Belongs, Evicted, Committed, Indexed, Requeued, IndexSound, RecordsMatch, Distinct, TxIds;
    var i := Inserted(c, record);
    var e := Evicted(i);
    InsertedKeeps(c, record);
    EvictedKeeps(i, record.blockHash);
    IndexingKeeps(e, record);
    ChainDoesNotMatter(e.(receipts := Indexed(e.receipts, record.body.receipts)), Committed(e.blocks, record, roots));
    IndexedLaws(e.receipts, record.body.receipts);
    ReceiptsBelong(record);
  }

  lemma ChainDoesNotMatter(c: Cache, blocks: seq<Block>)
    requires Valid(c)
    ensures Valid(c.(blocks := blocks))
  {
  }

  lemma ChainUntouched(c: Cache, record: Record)
    ensures Evicted(Inserted(c, record)).blocks == c.blocks
  {
    hide Requeued, TxIds, Without, ReceiptsOf;
  }

  /** Storing drops at most one body: the oldest, and only for a new hash in a full cache. */
  lemma OnlyOldestEvicted(c: Cache, record: Record, roots: Roots, g: Id)
    requires Valid(c) && Belongs(record) && g in c.bodies
    ensures g !in Stored(c, record, roots).bodies <==>
            record.blockHash !in c.bodies && |c.order| == MAX_GLOBAL_BLOCK_BODIES && g == c.order[0]
    ensures g in Stored(c, record, roots).bodies && g != record.blockHash ==>
            Stored(c, record, roots).bodies[g] == c.bodies[g]
  {
    hide Belongs, Committed, Indexed, Requeued, IndexSound, RecordsMatch, Distinct, TxIds, Without, ReceiptsOf;
    InsertedKeeps(c, record);
    RequeuedLaws(c.order, record.blockHash);
    EvictedKeeps(Inserted(c, record), record.blockHash);
  }

  lemma ReceiptsBelong(record: Record)
    requires Belongs(record)
    ensures forall r :: r in record.body.receipts ==> r.blockHash == record.blockHash
  {
  }

  /** The number of cached bodies is the length of the queue. */
  lemma {:induction false} SizeIsQueueLength(order: seq<Id>, keys: set<Id>)
    requires Distinct(order) && forall h :: h in order <==> h in keys
    ensures |keys| == |order|
  {
    if order == [] {
      assert keys == {};
    } else {
      var front, last := order[..|order| - 1], order[|order| - 1];
      assert order == front + [last];
      SizeIsQueueLength(front, keys - {last});
    }
  }

  lemma CacheBounded(c: Cache)
    requires Valid(c)
    ensures |c.bodies| <= MAX_GLOBAL_BLOCK_BODIES
  {
    SizeIsQueueLength(c.order, c.bodies.Keys);
  }

  // ----- what a store and a removal change, exactly -----

  /** `retain` works through the queue from front to back. */
  lemma {:induction false} WithoutConcat(a: seq<Id>, b: seq<Id>, gone: set<Id>)
    ensures Without(a + b, gone) == Without(a, gone) + Without(b, gone)
    decreases |b|
  {
    if b == [] {
      assert a + b == a;
    } else {
      var n := |b| - 1;
      WithoutConcat(a, b[..n], gone);
      assert (a + b)[..|a + b| - 1] == a + b[..n];
    }
  }

  /** Of receipts of one transaction the last one is indexed. */
  lemma {:induction false} LastReceiptWins(index: map<Id, Receipt>, rs: seq<Receipt>, j: nat)
    requires j < |rs| && forall i :: j < i < |rs| ==> rs[i].txId != rs[j].txId
    ensures rs[j].txId in Indexed(index, rs) && Indexed(index, rs)[rs[j].txId] == rs[j]
    decreases |rs|
  {
    if j < |rs| - 1 {
      LastReceiptWins(index, rs[..|rs| - 1], j);
    }
  }

  /** The receipts that leave with the bodies under the hashes. */
  ghost predicate Leaves(c: Cache, hashes: seq<Id>, t: Id) {
    exists h :: h in hashes && h in c.bodies && t in TxIds(c.bodies[h].body.receipts)
  }

  lemma {:induction false} LeavesExact(c: Cache, hashes: seq<Id>, t: Id)
    ensures t in TxIds(ReceiptsOf(c.bodies, hashes)) <==> Leaves(c, hashes, t)
  {
    hide TxIds;
    if hashes == [] {
      NoTxIds();
    } else {
      var n := |hashes| - 1;
      var front, last := ReceiptsOf(c.bodies, hashes[..n]), hashes[n];
      LeavesExact(c, hashes[..n], t);
      TxIdsConcat(front, if last in c.bodies then c.bodies[last].body.receipts else []);
      NoTxIds();
      assert hashes == hashes[..n] + [last];
    }
  }

  lemma TxIdsConcat(a: seq<Receipt>, b: seq<Receipt>)
    ensures TxIds(a + b) == TxIds(a) + TxIds(b)
  {
    forall t | t in TxIds(a) + TxIds(b)
      ensures t in TxIds(a + b)
    {
      if t in TxIds(a) {
        var i :| 0 <= i < |a| && a[i].txId == t;
        assert (a + b)[i].txId == t;
      } else {
        var i :| 0 <= i < |b| && b[i].txId == t;
        assert (a + b)[|a| + i].txId == t;
      }
    }
  }

  /** Removal drops the bodies, their places in the queue and every receipt index entry for one
      of their transactions, and nothing else. */
  lemma RemovedExact(c: Cache, hashes: seq<Id>)
    ensures var r := Removed(c, hashes);
            && (forall h :: h in r.bodies <==> h in c.bodies && h !in hashes)
            && (forall h :: h in r.bodies ==> r.bodies[h] == c.bodies[h])
            && r.order == Without(c.order, SetOf(hashes))
            && (forall t :: t in r.receipts <==> t in c.receipts && !Leaves(c, hashes, t))
            && (forall t :: t in r.receipts ==> r.receipts[t] == c.receipts[t])
            && r.blocks == c.blocks
  {
    hide Without, ReceiptsOf, TxIds, Leaves;
    forall t
      ensures t in TxIds(ReceiptsOf(c.bodies, hashes)) <==> Leaves(c, hashes, t)
    {
      LeavesExact(c, hashes, t);
    }
  }

  /** A store pushes out the oldest body iff its hash is new and the cache is full. */
  ghost predicate Evicts(c: Cache, record: Record) {
    record.blockHash !in c.bodies && |c.order| == 50_000
  }

  lemma InsertedQueue(c: Cache, record: Record)
    requires Valid(c) && Belongs(record)
    ensures var q := Inserted(c, record).order;
            && q == Without(c.order, {record.blockHash}) + [record.blockHash]
            && Excess(q) == (if Evicts(c, record) then 1 else 0)
            && (Evicts(c, record) ==> c.order != [] && q == c.order + [record.blockHash])
  {
    hide Belongs, IndexSound, RecordsMatch, Distinct, Without, TxIds;
    InsertedKeeps(c, record);
    WithoutLaws(c.order, {record.blockHash});
  }

  /** The queue after a store: the hash moves to the back, the oldest one leaves a full queue. */
  lemma StoredQueue(c: Cache, record: Record, roots: Roots)
    requires Valid(c) && Belongs(record)
    ensures Evicts(c, record) ==> c.order != []
    ensures Stored(c, record, roots).order ==
            (if Evicts(c, record) then c.order[1..] else Without(c.order, {record.blockHash})) + [record.blockHash]
  {
    hide Belongs, Valid, Evicts, Inserted, Evicted, Committed, Indexed, Excess, Without, Requeued;
    var q := Inserted(c, record).order;
    InsertedKeeps(c, record);
    ValidParts(c);
    InsertedQueue(c, record);
    EvictedKeeps(Inserted(c, record), record.blockHash);
    if Evicts(c, record) {
      assert q[1..] == c.order[1..] + [record.blockHash];
    } else {
      assert q[0..] == q;
    }
  }

  lemma ValidParts(c: Cache)
    requires Valid(c)
    ensures QueueMatches(c) && |c.order| <= MAX_GLOBAL_BLOCK_BODIES && RecordsMatch(c) && IndexSound(c)
  {
    hide QueueMatches, RecordsMatch, IndexSound;
  }

  /** The hashes whose receipts a store drops from the index. */
  ghost function DroppedBy(c: Cache, record: Record): seq<Id> {
    [record.blockHash] + if Evicts(c, record) && c.order != [] then [c.order[0]] else []
  }

  lemma LeavesOne(c: Cache, h: Id, t: Id)
    ensures Leaves(c, [h], t) <==> h in c.bodies && t in TxIds(c.bodies[h].body.receipts)
  {
  }

  lemma LeavesTwo(c: Cache, h: Id, g: Id, t: Id)
    ensures Leaves(c, [h] + [g], t) <==> Leaves(c, [h], t) || Leaves(c, [g], t)
  {
    hide TxIds;
  }

  lemma InsertedReceipts(c: Cache, record: Record, t: Id)
    ensures var i := Inserted(c, record);
            && (t in i.receipts <==> t in c.receipts && !Leaves(c, [record.blockHash], t))
            && (t in i.receipts ==> i.receipts[t] == c.receipts[t])
  {
    hide TxIds, Leaves, Requeued;
    LeavesOne(c, record.blockHash, t);
  }

  lemma EvictedIs(c: Cache)
    ensures Excess(c.order) == 0 ==> Evicted(c) == c
    ensures Excess(c.order) == 1 ==> Evicted(c) == Removed(c.(order := c.order[1..]), c.order[..1])
  {
    hide Removed, Excess;
  }

  /** The index before the record's own receipts are entered. */
  lemma IndexAfterEviction(c: Cache, record: Record, t: Id)
    requires Valid(c) && Belongs(record)
    ensures var e := Evicted(Inserted(c, record));
            && (t in e.receipts <==> t in c.receipts && !Leaves(c, DroppedBy(c, record), t))
            && (t in e.receipts ==> e.receipts[t] == c.receipts[t])
  {
    hide Belongs, Valid, Evicts, TxIds, Without, Removed, Leaves, Inserted, Evicted, Excess;
    var h, i := record.blockHash, Inserted(c, record);
    InsertedQueue(c, record);
    InsertedReceipts(c, record, t);
    InsertedBodies(c, record);
    EvictedIs(i);
    if Evicts(c, record) {
      var oldest := c.order[0];
      assert oldest in c.order;
      NewHash(c, record, oldest);
      assert i.order[..1] == [oldest];
      RemovedExact(i.(order := i.order[1..]), [oldest]);
      LeavesOne(i.(order := i.order[1..]), oldest, t);
      LeavesOne(c, oldest, t);
      LeavesTwo(c, h, oldest, t);
      assert DroppedBy(c, record) == [h] + [oldest];
    } else {
      assert DroppedBy(c, record) == [h];
    }
  }

  lemma NewHash(c: Cache, record: Record, oldest: Id)
    requires Valid(c) && Evicts(c, record) && oldest in c.order
    ensures oldest != record.blockHash
  {
  }

  /** The index after a store: the record's own receipts, the last one for each transaction,
      and what was there before for transactions of neither the replaced nor the evicted body. */
  lemma StoredReceipts(c: Cache, record: Record, roots: Roots, t: Id)
    requires Valid(c) && Belongs(record)
    ensures var s, rs := Stored(c, record, roots), record.body.receipts;
            && (t in s.receipts <==> t in TxIds(rs) || (t in c.receipts && !Leaves(c, DroppedBy(c, record), t)))
            && (t in s.receipts && t !in TxIds(rs) ==> s.receipts[t] == c.receipts[t])
            && (forall j :: 0 <= j < |rs| && rs[j].txId == t && (forall i :: j < i < |rs| ==> rs[i].txId != t) ==>
                  t in s.receipts && s.receipts[t] == rs[j])
  {
    hide Belongs, Valid, Evicted, Inserted, Committed, Indexed, TxIds, Leaves, DroppedBy;
    var e, rs := Evicted(Inserted(c, record)), record.body.receipts;
    IndexAfterEviction(c, record, t);
    IndexedLaws(e.receipts, rs);
    forall j | 0 <= j < |rs| && rs[j].txId == t && (forall i :: j < i < |rs| ==> rs[i].txId != t)
      ensures t in Indexed(e.receipts, rs) && Indexed(e.receipts, rs)[t] == rs[j]
    {
      LastReceiptWins(e.receipts, rs, j);
    }
  }

  /** The canonical chain after a store: the first block with the hash gets the two roots and
      the body, every other block stays. */
  lemma StoredBlocks(c: Cache, record: Record, roots: Roots, i: nat)
    requires i < |c.blocks|
    ensures var s, b := Stored(c, record, roots), c.blocks[i];
            && |s.blocks| == |c.blocks|
            && s.blocks[i] ==
               if b.hash == record.blockHash && (forall j :: 0 <= j < i ==> c.blocks[j].hash != record.blockHash)
               then Block(b.number, b.hash, roots(record.body).0, roots(record.body).1, Some(record.body))
               else b
  {
    hide Evicted, Inserted, Indexed, FindHash;
    ChainUntouched(c, record);
  }

  /** A refused store changes nothing and says why; an accepted one has no error. */
  lemma StoreResultExact(c: Cache, record: Record, persistFails: bool, roots: Roots)
    ensures var (s, error) := StoreResult(c, record, persistFails, roots);
            && (InsertError(c.blocks, record, roots) != None ==> error == InsertError(c.blocks, record, roots))
            && (InsertError(c.blocks, record, roots) == None && persistFails ==> error == Some(PersistFailed))
            && (InsertError(c.blocks, record, roots) == None && !persistFails ==>
                  error == None && s == Stored(c, record, roots))
            && (error != None ==> s == c)
  {
    hide InsertError, Stored;
  }

  // ----- runs -----

  datatype Op =
    | Store(record: Record, persistFails: bool)
    | Remove(hashes: seq<Id>)
    | Reset
    | SetChain(blocks: seq<Block>) // any change of the canonical chain by other code

  const EMPTY: Cache := Cache(map[], [], map[], [])

  /** `store_block_body`: the new tables and the error, if any. */
  ghost function StoreResult(c: Cache, record: Record, persistFails: bool, roots: Roots): (Cache, Option<CacheError>) {
    var error := InsertError(c.blocks, record, roots);
    if error.Some? then (c, error)
    else if persistFails then (c, Some(PersistFailed))
    else (Stored(c, record, roots), None)
  }

  ghost function Apply(c: Cache, op: Op, roots: Roots): Cache {
    match op
    case Store(record, persistFails) => StoreResult(c, record, persistFails, roots).0
    case Remove(hashes) => Removed(c, hashes)
    case Reset => EMPTY
    case SetChain(blocks) => c.(blocks := blocks)
  }

  ghost function RunOps(c: Cache, ops: seq<Op>, roots: Roots): Cache {
    if ops == [] then c else Apply(RunOps(c, ops[..|ops| - 1], roots), ops[|ops| - 1], roots)
  }

  /** Every reachable state satisfies the invariant. */
  lemma {:induction false} ReachableIsValid(ops: seq<Op>, roots: Roots)
    ensures Valid(RunOps(EMPTY, ops, roots))
  {
    hide Stored, Removed, InsertError;
    if ops == [] {
      EmptyIsValid();
    } else {
      var c, op := RunOps(EMPTY, ops[..|ops| - 1], roots), ops[|ops| - 1];
      ReachableIsValid(ops[..|ops| - 1], roots);
      EmptyIsValid();
      match op
      case Store(record, _) =>
        InsertExact(c.blocks, record, roots);
        if InsertError(c.blocks, record, roots) == None {
          StoredKeeps(c, record, roots);
        }
      case Remove(hashes) => RemovedKeeps(c, hashes);
      case Reset =>
      case SetChain(_) =>
    }
  }

  lemma EmptyIsValid()
    ensures Valid(EMPTY)
  {
  }

  // ----- completeness of the index -----

  /** Every receipt of the cached bodies among the keys is found under its transaction. */
  ghost predicate IndexCompleteFor(c: Cache, keys: set<Id>) {
    forall h, r :: h in keys && h in c.bodies && r in c.bodies[h].body.receipts ==>
      r.txId in c.receipts && c.receipts[r.txId] == r
  }

  ghost predicate IndexComplete(c: Cache) {
    IndexCompleteFor(c, c.bodies.Keys)
  }

  /** No two receipts of the record share a transaction. */
  ghost predicate OwnTxsDistinct(record: Record) {
    forall r, r' :: r in record.body.receipts && r' in record.body.receipts && r.txId == r'.txId ==> r == r'
  }

  /** None of the bodies under the keys mentions one of the record's transactions. */
  ghost predicate TxsAreNew(c: Cache, keys: set<Id>, record: Record) {
    forall h, r :: h in keys && h in c.bodies && r in c.bodies[h].body.receipts ==> r.txId !in TxIds(record.body.receipts)
  }

  /** Two cached bodies that share a transaction cannot both be indexed. */
  lemma CompleteMeansDisjoint(c: Cache, keys: set<Id>, h: Id, h': Id, r: Receipt, r': Receipt)
    requires RecordsMatch(c) && IndexCompleteFor(c, keys)
    requires h in keys && h in c.bodies && h' in keys && h' in c.bodies && h != h'
    requires r in c.bodies[h].body.receipts && r' in c.bodies[h'].body.receipts
    ensures r.txId != r'.txId
  {
    hide Belongs;
    ReceiptsBelong(c.bodies[h]);
    ReceiptsBelong(c.bodies[h']);
  }

  /** Removing completely indexed bodies leaves the others completely indexed. */
  lemma RemovalKeepsComplete(c: Cache, hashes: seq<Id>, keys: set<Id>)
    requires RecordsMatch(c) && IndexCompleteFor(c, keys)
    requires forall h :: h in hashes && h in c.bodies ==> h in keys
    ensures IndexCompleteFor(Removed(c, hashes), keys)
  {
    hide Belongs, Without, ReceiptsOf;
    var c' := Removed(c, hashes);
    forall h, r | h in keys && h in c'.bodies && r in c'.bodies[h].body.receipts
      ensures r.txId in c'.receipts && c'.receipts[r.txId] == r
    {
      var rs := ReceiptsOf(c.bodies, hashes);
      ReceiptsOfLaws(c.bodies, hashes, h);
      if r.txId in TxIds(rs) {
        var i :| 0 <= i < |rs| && rs[i].txId == r.txId;
        assert rs[i] in rs;
        var g :| g in hashes && g in c.bodies && rs[i] in c.bodies[g].body.receipts;
        CompleteMeansDisjoint(c, keys, h, g, r, rs[i]);
      }
    }
  }

  lemma InsertedOthersComplete(c: Cache, record: Record)
    requires RecordsMatch(c) && IndexComplete(c)
    ensures var i := Inserted(c, record); IndexCompleteFor(i, i.bodies.Keys - {record.blockHash})
  {
    hide Belongs, Requeued;
    var i, own := Inserted(c, record), record.blockHash;
    forall h, r | h in i.bodies && h != own && r in i.bodies[h].body.receipts
      ensures r.txId in i.receipts && i.receipts[r.txId] == r
    {
      if own in c.bodies && r.txId in TxIds(c.bodies[own].body.receipts) {
        var rs := c.bodies[own].body.receipts;
        var j :| 0 <= j < |rs| && rs[j].txId == r.txId;
        assert rs[j] in rs;
        CompleteMeansDisjoint(c, c.bodies.Keys, h, own, r, rs[j]);
      }
    }
  }

  lemma EvictionKeepsComplete(c: Cache, own: Id)
    requires QueueMatches(c) && |c.order| <= MAX_GLOBAL_BLOCK_BODIES + 1 && RecordsMatch(c)
    requires |c.order| > 0 && c.order[|c.order| - 1] == own
    requires IndexCompleteFor(c, c.bodies.Keys - {own})
    ensures IndexCompleteFor(Evicted(c), c.bodies.Keys - {own})
  {
    hide IndexCompleteFor, Belongs, Removed;
    var k := Excess(c.order);
    if k > 0 {
      var popped := c.(order := c.order[k..]);
      assert c.order[..k] == [c.order[0]];
      SameTables(c, popped, c.bodies.Keys - {own});
      RemovalKeepsComplete(popped, c.order[..k], c.bodies.Keys - {own});
    }
  }

  lemma SameTables(c: Cache, d: Cache, keys: set<Id>)
    requires c.bodies == d.bodies && c.receipts == d.receipts && IndexCompleteFor(c, keys)
    ensures IndexCompleteFor(d, keys)
  {
  }

  /** Indexing the record completes the index iff its transactions are its own. */
  lemma IndexingCompletes(e: Cache, record: Record, keys: set<Id>)
    requires RecordsMatch(e) && record.blockHash in e.bodies && e.bodies[record.blockHash] == record
    requires keys == e.bodies.Keys - {record.blockHash} && IndexCompleteFor(e, keys)
    ensures IndexComplete(e.(receipts := Indexed(e.receipts, record.body.receipts))) <==>
            OwnTxsDistinct(record) && TxsAreNew(e, keys, record)
  {
    hide Belongs, Indexed, TxIds;
    var own, rs := record.blockHash, record.body.receipts;
    var index := Indexed(e.receipts, rs);
    var s := e.(receipts := index);
    IndexedLaws(e.receipts, rs);
    forall r | r in rs
      ensures r.txId in TxIds(rs)
    {
      TxIdsMember(rs, r);
    }
    if IndexComplete(s) {
      forall h, r | h in keys && r in e.bodies[h].body.receipts
        ensures r.txId !in TxIds(rs)
      {
        if r.txId in TxIds(rs) {
          assert index[r.txId] in rs;
          CompleteMeansDisjoint(s, s.bodies.Keys, h, own, r, index[r.txId]);
        }
      }
    }
  }

  lemma IndexAfterStore(c: Cache, record: Record, roots: Roots)
    requires Valid(c) && Belongs(record) && IndexComplete(c)
    ensures var s := Stored(c, record, roots);
            IndexComplete(s) <==> OwnTxsDistinct(record) && TxsAreNew(s, s.bodies.Keys - {record.blockHash}, record)
  {
    hide Belongs, Evicted, Inserted, Committed, Indexed, IndexSound, Distinct, TxIds, OwnTxsDistinct;
    var i, own := Inserted(c, record), record.blockHash;
    var e := Evicted(i);
    InsertedKeeps(c, record);
    InsertedBodies(c, record);
    InsertedOthersComplete(c, record);
    EvictionKeepsComplete(i, own);
    EvictedKeeps(i, own);
    IndexingCompletes(e, record, e.bodies.Keys - {own});
  }

  /** The cached hashes that a store of the record leaves untouched: not the one it
      overwrites, and not the oldest one if it needs the place. */
  ghost function Staying(c: Cache, record: Record): set<Id> {
    var evicts := record.blockHash !in c.bodies && |c.order| == MAX_GLOBAL_BLOCK_BODIES;
    c.bodies.Keys - {record.blockHash} - if evicts then {c.order[0]} else {}
  }

  lemma NothingElseStored(c: Cache, record: Record, roots: Roots, g: Id)
    requires Valid(c) && Belongs(record) && g in Stored(c, record, roots).bodies
    ensures g in c.bodies || g == record.blockHash
  {
    hide Belongs, Committed, Indexed, Requeued, IndexSound, RecordsMatch, Distinct, TxIds, Without, ReceiptsOf;
    InsertedKeeps(c, record);
    InsertedBodies(c, record);
    EvictedKeeps(Inserted(c, record), record.blockHash);
  }

  lemma StayingBodies(c: Cache, record: Record, roots: Roots)
    requires Valid(c) && Belongs(record)
    ensures var s := Stored(c, record, roots);
            && s.bodies.Keys - {record.blockHash} == Staying(c, record)
            && forall g :: g in Staying(c, record) ==> g in c.bodies && s.bodies[g] == c.bodies[g]
  {
    hide Belongs, Valid, Stored;
    var s := Stored(c, record, roots);
    forall g | g in c.bodies
      ensures g !in s.bodies <==>
              record.blockHash !in c.bodies && |c.order| == MAX_GLOBAL_BLOCK_BODIES && g == c.order[0]
      ensures g in s.bodies && g != record.blockHash ==> s.bodies[g] == c.bodies[g]
    {
      OnlyOldestEvicted(c, record, roots, g);
    }
    forall g | g in s.bodies
      ensures g in c.bodies || g == record.blockHash
    {
      NothingElseStored(c, record, roots, g);
    }
  }

  lemma SameBodiesSameTxs(c: Cache, d: Cache, keys: set<Id>, record: Record)
    requires forall g :: g in keys ==> g in c.bodies && g in d.bodies && c.bodies[g] == d.bodies[g]
    ensures TxsAreNew(c, keys, record) <==> TxsAreNew(d, keys, record)
  {
    hide TxIds;
  }

  /** Storing into a completely indexed cache leaves it completely indexed iff the record's
      transactions differ from each other and from those of every cached body that stays. */
  lemma StoredIndexExact(c: Cache, record: Record, roots: Roots)
    requires Valid(c) && Belongs(record) && IndexComplete(c)
    ensures IndexComplete(Stored(c, record, roots)) <==>
            OwnTxsDistinct(record) && TxsAreNew(c, Staying(c, record), record)
  {
    hide Belongs, Valid, Stored, IndexComplete, OwnTxsDistinct, TxsAreNew, Staying;
    IndexAfterStore(c, record, roots);
    StayingBodies(c, record, roots);
    SameBodiesSameTxs(c, Stored(c, record, roots), Staying(c, record), record);
  }

  lemma InsertedBodies(c: Cache, record: Record)
    ensures Inserted(c, record).bodies == c.bodies[record.blockHash := record]
  {
    hide Requeued, TxIds;
  }

  /** A record with one transaction and its receipt. */
  function Single(hash: Id, tx: Id): Record {
    Record(0, hash, Body(BODY_VERSION, [Tx(tx, [])], [Receipt(tx, hash, [])]))
  }

  lemma SingleAccepted(hash: Id, tx: Id, roots: Roots)
    ensures Belongs(Single(hash, tx)) && OwnTxsDistinct(Single(hash, tx))
    ensures InsertError([], Single(hash, tx), roots) == None
  {
    InsertExact([], Single(hash, tx), roots);
  }

  lemma StoreFirst(hash: Id, tx: Id, roots: Roots)
    ensures var c := Stored(EMPTY, Single(hash, tx), roots);
            && Valid(c) && IndexComplete(c) && c.blocks == [] && |c.order| == 1
            && hash in c.bodies && c.bodies[hash] == Single(hash, tx)
            && forall h :: h in c.bodies ==> h == hash
  {
    hide Belongs, Evicted, Inserted, Indexed, IndexSound, Distinct, TxIds, OwnTxsDistinct;
    SingleAccepted(hash, tx, roots);
    EmptyIsValid();
    StoredKeeps(EMPTY, Single(hash, tx), roots);
    StoredIndexExact(EMPTY, Single(hash, tx), roots);
    FirstTables(hash, tx, roots);
  }

  lemma FirstTables(hash: Id, tx: Id, roots: Roots)
    ensures var c := Stored(EMPTY, Single(hash, tx), roots);
            c.blocks == [] && c.order == [hash] && c.bodies == map[hash := Single(hash, tx)]
  {
  }

  /** Two accepted records with different hashes and one shared transaction: both bodies are
      cached, and the first one's receipt can no longer be found. */
  lemma SharedTransactionIsLost(first: Id, second: Id, tx: Id, roots: Roots)
    requires first != second
    ensures var c := RunOps(EMPTY, [Store(Single(first, tx), false), Store(Single(second, tx), false)], roots);
            first in c.bodies && second in c.bodies && !IndexComplete(c)
  {
    hide Belongs, Stored, InsertError, Valid, IndexComplete, TxsAreNew, OwnTxsDistinct;
    var c, r := Stored(EMPTY, Single(first, tx), roots), Single(second, tx);
    SingleAccepted(first, tx, roots);
    SingleAccepted(second, tx, roots);
    StoreFirst(first, tx, roots);
    TwoStores(Store(Single(first, tx), false), Store(r, false), roots);
    var s := Stored(c, r, roots);
    StoredKeeps(c, r, roots);
    OnlyOldestEvicted(c, r, roots, first);
    IndexAfterStore(c, r, roots);
    NotNew(s, s.bodies.Keys - {second}, r, first);
  }

  lemma TwoStores(op: Op, op': Op, roots: Roots)
    ensures RunOps(EMPTY, [op, op'], roots) == Apply(Apply(EMPTY, op, roots), op', roots)
  {
    hide Apply;
    assert [op][..0] == [];
    assert RunOps(EMPTY, [op], roots) == Apply(RunOps(EMPTY, [], roots), op, roots);
    assert [op, op'][..1] == [op];
  }

  lemma NotNew(c: Cache, keys: set<Id>, record: Record, h: Id)
    requires h in keys && h in c.bodies && c.bodies[h].body.receipts != [] && record.body.receipts != []
    requires c.bodies[h].body.receipts[0].txId == record.body.receipts[0].txId
    ensures !TxsAreNew(c, keys, record)
  {
    TxIdsMember(record.body.receipts, record.body.receipts[0]);
    assert c.bodies[h].body.receipts[0] in c.bodies[h].body.receipts;
  }

  // ----- the tables as an object -----

  /** The loop of `retain`. */
  method RetainLoop(order: seq<Id>, gone: set<Id>) returns (kept: seq<Id>)
    ensures kept == Without(order, gone)
  {
    kept := [];
    for i := 0 to |order|
      invariant kept == Without(order[..i], gone)
    {
      assert order[..i + 1][..i] == order[..i];
      if order[i] !in gone {
        kept := kept + [order[i]];
      }
    }
    assert order[..|order|] == order;
  }

  /** The loop over transactions and receipts. */
  method CheckPairs(record: Record) returns (error: Option<CacheError>)
    requires |record.body.transactions| == |record.body.receipts|
    ensures error == PairError(record, 0)
  {
    for i := 0 to |record.body.receipts|
      invariant PairError(record, 0) == PairError(record, i)
    {
      if record.body.transactions[i].txId != record.body.receipts[i].txId {
        return Some(IdMismatch(i));
      }
      if record.body.receipts[i].blockHash != record.blockHash {
        return Some(BlockHashMismatch(i));
      }
    }
    error := None;
  }

  class GlobalBodies {
    var bodies: map<Id, Record>
    var order: seq<Id>
    var receipts: map<Id, Receipt>
    var blocks: seq<Block>

    ghost function State(): Cache
      reads this
    {
      Cache(bodies, order, receipts, blocks)
    }

    constructor ()
      ensures State() == EMPTY
    {
      bodies, order, receipts, blocks := map[], [], map[], [];
    }

    /** `validate_global_block_body_insert`. */
    method ValidateInsert(record: Record, roots: Roots) returns (error: Option<CacheError>)
      ensures error == InsertError(blocks, record, roots)
    {
      if record.body.version != BODY_VERSION {
        return Some(UnsupportedVersion);
      }
      if |record.body.transactions| != |record.body.receipts| {
        return Some(LengthMismatch);
      }
      error := CheckPairs(record);
      if error.Some? {
        return;
      }
      error := ChainError(blocks, record, roots);
    }

    /** `remove_block_receipts`. */
    method RemoveBlockReceipts(rs: seq<Receipt>)
      modifies this`receipts
      ensures receipts == old(receipts) - TxIds(rs)
    {
      for i := 0 to |rs|
        invariant receipts == old(receipts) - TxIds(rs[..i])
      {
        TxIdsStep(rs, i);
        receipts := receipts - {rs[i].txId};
      }
      assert rs[..|rs|] == rs;
    }

    /** `index_block_receipts`. */
    method IndexBlockReceipts(rs: seq<Receipt>)
      modifies this`receipts
      ensures receipts == Indexed(old(receipts), rs)
    {
      for i := 0 to |rs|
        invariant receipts == Indexed(old(receipts), rs[..i])
      {
        assert rs[..i + 1][..i] == rs[..i];
        receipts := receipts[rs[i].txId := rs[i]];
      }
      assert rs[..|rs|] == rs;
    }

    /** `remove_block_bodies`. */
    method RemoveBlockBodies(hashes: seq<Id>)
      modifies this
      ensures State() == Removed(old(State()), hashes)
    {
      hide TxIds, Indexed;
      var removed: seq<Receipt> := [];
      for i := 0 to |hashes|
        invariant unchanged(this)
        invariant removed == ReceiptsOf(bodies, hashes[..i])
      {
        assert hashes[..i + 1][..i] == hashes[..i];
        if hashes[i] in bodies {
          removed := removed + bodies[hashes[i]].body.receipts;
        }
      }
      assert hashes[..|hashes|] == hashes;
      for i := 0 to |hashes|
        invariant bodies == old(bodies) - SetOf(hashes[..i])
        invariant order == old(order) && receipts == old(receipts) && blocks == old(blocks)
      {
        assert SetOf(hashes[..i + 1]) == SetOf(hashes[..i]) + {hashes[i]};
        bodies := bodies - {hashes[i]};
      }
      order := RetainLoop(order, SetOf(hashes));
      RemoveBlockReceipts(removed);
    }

    /** `update_global_block_body_commitments`. */
    method UpdateCommitments(record: Record, roots: Roots) returns (error: Option<CacheError>)
      modifies this`blocks
      ensures blocks == Committed(old(blocks), record, roots)
      ensures error == None <==> FindHash(old(blocks), record.blockHash) < |old(blocks)|
    {
      var k := FindHash(blocks, record.blockHash);
      if k == |blocks| {
        return Some(MissingCanonicalBlock);
      }
      blocks := blocks[k := Commit(blocks[k], record.body, roots).(body := Some(record.body))];
      error := None;
    }

    /** The queue update: pop the oldest hashes beyond the limit. */
    method PushHash(hash: Id) returns (stale: seq<Id>)
      modifies this`order
      ensures var q := Requeued(old(order), hash);
              stale == q[..Excess(q)] && order == q[Excess(q)..]
    {
      hide Without;
      order := RetainLoop(order, {hash});
      order := order + [hash];
      ghost var q := order;
      stale := [];
      while |order| > MAX_GLOBAL_BLOCK_BODIES
        invariant |stale| <= Excess(q) && stale == q[..|stale|] && order == q[|stale|..]
      {
        stale := stale + [order[0]];
        order := order[1..];
      }
    }

    /** The part of `store_block_body` that inserts the body and evicts the oldest ones. */
    method InsertBody(record: Record)
      modifies this
      ensures State() == Evicted(Inserted(old(State()), record))
    {
      hide TxIds, Requeued, Removed, Inserted, Excess;
      ghost var i := Inserted(State(), record);
      var replaced := if record.blockHash in bodies then bodies[record.blockHash].body.receipts else [];
      InsertedTables(State(), record, replaced);
      bodies := bodies[record.blockHash := record];
      RemoveBlockReceipts(replaced);
      var stale := PushHash(record.blockHash);
      QueueParts(i.order);
      assert State() == i.(order := i.order[Excess(i.order)..]);
      if stale != [] {
        RemoveBlockBodies(stale);
      }
    }

    /** `store_block_body`. */
    method StoreBlockBody(record: Record, persistFails: bool, roots: Roots) returns (error: Option<CacheError>)
      modifies this
      ensures (State(), error) == StoreResult(old(State()), record, persistFails, roots)
      ensures Valid(old(State())) ==> Valid(State())
    {
      hide Valid, InsertError, Indexed, Inserted, Evicted, Committed;
      ghost var c := State();
      error := ValidateInsert(record, roots);
      if error.Some? {
        return;
      }
      if persistFails {
        return Some(PersistFailed);
      }
      InsertBody(record);
      IndexBlockReceipts(record.body.receipts);
      ChainUntouched(c, record);
      NotCommitted(c.blocks, record, roots);
      if FindHash(blocks, record.blockHash) < |blocks| {
        error := UpdateCommitments(record, roots);
      }
      StoreKeepsValid(c, record, roots);
    }
  }

  lemma InsertedTables(c: Cache, record: Record, replaced: seq<Receipt>)
    requires replaced == if record.blockHash in c.bodies then c.bodies[record.blockHash].body.receipts else []
    ensures Inserted(c, record) ==
            Cache(c.bodies[record.blockHash := record], Requeued(c.order, record.blockHash),
                  c.receipts - TxIds(replaced), c.blocks)
  {
    hide Requeued;
    NoTxIds();
  }

  lemma QueueParts(order: seq<Id>)
    ensures Excess(order) <= |order|
    ensures order[..Excess(order)] == [] <==> Excess(order) == 0
    ensures order[0..] == order
  {
  }

  lemma TxIdsStep(rs: seq<Receipt>, i: nat)
    requires i < |rs|
    ensures TxIds(rs[..i + 1]) == TxIds(rs[..i]) + {rs[i].txId}
  {
    assert rs[..i + 1] == rs[..i] + [rs[i]];
    assert rs[..i + 1][i].txId in TxIds(rs[..i + 1]);
    forall k | 0 <= k < i
      ensures rs[..i][k].txId in TxIds(rs[..i + 1])
    {
      assert rs[..i + 1][k].txId == rs[..i][k].txId;
    }
  }

  lemma NoTxIds()
    ensures TxIds([]) == {}
  {
  }

  lemma NotCommitted(blocks: seq<Block>, record: Record, roots: Roots)
    ensures FindHash(blocks, record.blockHash) == |blocks| ==> Committed(blocks, record, roots) == blocks
  {
  }

  lemma StoreKeepsValid(c: Cache, record: Record, roots: Roots)
    requires InsertError(c.blocks, record, roots) == None
    ensures Valid(c) ==> Valid(Stored(c, record, roots))
  {
    hide Valid, Stored, InsertError;
    InsertExact(c.blocks, record, roots);
    if Valid(c) {
      StoredKeeps(c, record, roots);
    }
  }
}
