/** Data availability: blobs, XOR parity and zero-padded Merkle trees (da/data_availability.h).

    The hash of bytes and the clock are parameters.  The second tree of the repository differs from
    `Merkle`'s in that it fills the leaves up to a power of two, so that no level is ever odd.
 */
module DataAvailability {
  import opened Bits
  import opened Blocks
  import opened Bytes
  import opened Codec
  import opened Hex
  import opened Merkle
  import opened Text

  const BLOB_SIZE: nat := 4096

  datatype DataBlob = DataBlob(data: seq<u8>, hash: Hash, index: nat)

  datatype DACommitment = DACommitment(
    batchId: string, dataRoot: Hash, erasureRoot: Hash, blobCount: nat, totalSize: nat, timestamp: u64)

  /* ---- the serialized batch, in blobs ---- */

  function TransactionText(tx: Transaction): string
  {
    tx.sender + "," + tx.receiver + "," + Print(tx.amount, 10) + ";"
  }

  function TransactionsText(txs: seq<Transaction>): string
  {
    if txs == [] then "" else TransactionsText(txs[..|txs| - 1]) + TransactionText(txs[|txs| - 1])
  }

  function BlockText(b: Block): string
  {
    Print(b.header.height, 10) + "|" + HexText(b.header.stateRoot) + "|" + HexText(b.header.previousHash) + "|"
    + Print(|b.transactions|, 10) + "|" + TransactionsText(b.transactions)
  }

  function BatchBytes(blocks: seq<Block>): seq<u8>
  {
    if blocks == [] then [] else BatchBytes(blocks[..|blocks| - 1]) + TextBytes(BlockText(blocks[|blocks| - 1]))
  }

  function BlobCount(size: nat): nat
  {
    (size + BLOB_SIZE - 1) / BLOB_SIZE
  }

  function End(size: nat, i: nat): nat
  {
    if BLOB_SIZE * (i + 1) < size then BLOB_SIZE * (i + 1) else size
  }

  function BlobAt(h: HashFunction, buffer: seq<u8>, i: nat): DataBlob
    requires i < BlobCount(|buffer|)
  {
    var data := buffer[BLOB_SIZE * i..End(|buffer|, i)];
    DataBlob(data, h(data), i)
  }

  function Blobs(h: HashFunction, buffer: seq<u8>): (blobs: seq<DataBlob>)
    ensures |blobs| == BlobCount(|buffer|)
    ensures forall i :: 0 <= i < |blobs| ==> blobs[i] == BlobAt(h, buffer, i)
  {
    seq(BlobCount(|buffer|), i requires 0 <= i < BlobCount(|buffer|) => BlobAt(h, buffer, i))
  }

  /** The contents of blobs, one after the other. */
  function Contents(blobs: seq<DataBlob>): seq<u8>
  {
    if blobs == [] then [] else Contents(blobs[..|blobs| - 1]) + blobs[|blobs| - 1].data
  }

  lemma {:induction false} FirstBlobs(h: HashFunction, buffer: seq<u8>, n: nat)
    requires n <= BlobCount(|buffer|)
    ensures Contents(Blobs(h, buffer)[..n]) == buffer[..if n == 0 then 0 else End(|buffer|, n - 1)]
  {
    if n > 0 {
      FirstBlobs(h, buffer, n - 1);
      var blobs := Blobs(h, buffer)[..n];
      assert blobs[..n - 1] == Blobs(h, buffer)[..n - 1];
      assert blobs[n - 1] == BlobAt(h, buffer, n - 1);
    }
  }

  /** The blobs of a buffer hold the buffer. */
  lemma NothingLost(h: HashFunction, buffer: seq<u8>)
    ensures Contents(Blobs(h, buffer)) == buffer
    ensures forall i :: 0 <= i < BlobCount(|buffer|) ==> 0 < |Blobs(h, buffer)[i].data| <= BLOB_SIZE
  {
    var n := BlobCount(|buffer|);
    FirstBlobs(h, buffer, n);
    assert Blobs(h, buffer)[..n] == Blobs(h, buffer);
  }

  /* ---- parity ---- */

  /** Byte j of a blob, zero behind its end. */
  function ByteOrZero(data: seq<u8>, j: nat): u8
  {
    if j < |data| then data[j] else 0
  }

  function XorByte(a: u8, b: u8): u8
  {
    ByteRange(a, b);
    Bitwise(Xor, a, b)
  }

  lemma ByteRange(a: u8, b: u8)
    ensures 0 <= Bitwise(Xor, a, b) < 256
  {
    hide Pow2, Bitwise;
    Pow2Values();
    BitwiseSplit(Xor, 8, a, 0, b, 0);
  }

  /** Two blobs, filled up with zeros, XORed byte by byte. */
  function XorBlobs(x: seq<u8>, y: seq<u8>): (p: seq<u8>)
    ensures |p| == BLOB_SIZE
    ensures forall j :: 0 <= j < BLOB_SIZE ==> p[j] == XorByte(ByteOrZero(x, j), ByteOrZero(y, j))
  {
    seq(BLOB_SIZE, j requires 0 <= j < BLOB_SIZE => XorByte(ByteOrZero(x, j), ByteOrZero(y, j)))
  }

  /** The data of a blob, nothing if there is no such blob. */
  function DataAt(blobs: seq<DataBlob>, i: nat): seq<u8>
  {
    if i < |blobs| then blobs[i].data else []
  }

  function ParityAt(h: HashFunction, original: seq<DataBlob>, k: nat): DataBlob
  {
    var data := XorBlobs(DataAt(original, 2 * k), DataAt(original, 2 * k + 1));
    DataBlob(data, h(data), |original| + k)
  }

  function Parity(h: HashFunction, original: seq<DataBlob>): (parity: seq<DataBlob>)
    ensures |parity| == (|original| + 1) / 2
    ensures forall k :: 0 <= k < |parity| ==> parity[k] == ParityAt(h, original, k)
  {
    seq((|original| + 1) / 2, k requires 0 <= k < (|original| + 1) / 2 => ParityAt(h, original, k))
  }

  /** What is stored for a buffer: its blobs and their parity. */
  function Layout(h: HashFunction, buffer: seq<u8>): seq<DataBlob>
  {
    Blobs(h, buffer) + Parity(h, Blobs(h, buffer))
  }

  /** XOR with one blob of a pair takes its parity to the other blob of the pair. */
  lemma ParityCancels(x: seq<u8>, y: seq<u8>)
    ensures forall j :: 0 <= j < BLOB_SIZE ==> XorBlobs(XorBlobs(x, y), x)[j] == ByteOrZero(y, j)
    ensures forall j :: 0 <= j < BLOB_SIZE ==> XorBlobs(XorBlobs(x, y), y)[j] == ByteOrZero(x, j)
  {
    hide Bitwise;
    forall j | 0 <= j < BLOB_SIZE
      ensures XorBlobs(XorBlobs(x, y), x)[j] == ByteOrZero(y, j) && XorBlobs(XorBlobs(x, y), y)[j] == ByteOrZero(x, j)
    {
      XorCancels(ByteOrZero(x, j), ByteOrZero(y, j));
    }
  }

  /** Cut to the length of the blob that is looked for. */
  lemma Recovers(x: seq<u8>, y: seq<u8>)
    requires |x| <= BLOB_SIZE
    ensures XorBlobs(XorBlobs(x, y), y)[..|x|] == x
    ensures XorBlobs(XorBlobs(y, x), y)[..|x|] == x
  {
    hide XorBlobs;
    ParityCancels(x, y);
    ParityCancels(y, x);
    XorLength(XorBlobs(x, y), y);
    XorLength(XorBlobs(y, x), y);
  }

  lemma XorLength(x: seq<u8>, y: seq<u8>)
    ensures |XorBlobs(x, y)| == BLOB_SIZE
  {
  }

  /** The data of the other blob of a pair, nothing if the blob is alone. */
  function Partner(stored: seq<DataBlob>, n: nat, i: nat): seq<u8>
    requires n <= |stored|
  {
    if i % 2 == 1 then DataAt(stored[..n], i - 1) else DataAt(stored[..n], i + 1)
  }

  /** Any one blob is what its partner and their parity blob give, cut to its length; the last blob
      of an odd number has no partner and is its own parity. */
  lemma Recoverable(h: HashFunction, buffer: seq<u8>, i: nat)
    requires i < BlobCount(|buffer|)
    ensures BlobCount(|buffer|) + i / 2 < |Layout(h, buffer)|
    ensures var stored, n := Layout(h, buffer), BlobCount(|buffer|);
            stored[i].data
            == XorBlobs(stored[n + i / 2].data, Partner(stored, n, i))[..End(|buffer|, i) - BLOB_SIZE * i]
  {
    hide XorBlobs, Blobs, Layout, DataAt, Partner, BlobCount, End;
    StoredParts(h, buffer, i / 2);
    BlobLength(h, buffer, i);
    PartnerIs(Layout(h, buffer), BlobCount(|buffer|), i);
    Recovers(DataAt(Blobs(h, buffer), i), Partner(Layout(h, buffer), BlobCount(|buffer|), i));
  }

  lemma PartnerIs(stored: seq<DataBlob>, n: nat, i: nat)
    requires i < n <= |stored|
    ensures DataAt(stored[..n], i) == stored[i].data
    ensures DataAt(stored[..n], 2 * (i / 2)) == if i % 2 == 0 then stored[i].data else Partner(stored, n, i)
    ensures DataAt(stored[..n], 2 * (i / 2) + 1) == if i % 2 == 0 then Partner(stored, n, i) else stored[i].data
  {
  }

  lemma BlobLength(h: HashFunction, buffer: seq<u8>, i: nat)
    requires i < BlobCount(|buffer|)
    ensures |Blobs(h, buffer)| == BlobCount(|buffer|)
    ensures |Blobs(h, buffer)[i].data| == End(|buffer|, i) - BLOB_SIZE * i <= BLOB_SIZE
  {
  }

  lemma StoredParts(h: HashFunction, buffer: seq<u8>, k: nat)
    requires k < (BlobCount(|buffer|) + 1) / 2
    ensures var stored, n, blobs := Layout(h, buffer), BlobCount(|buffer|), Blobs(h, buffer);
            && n + k < |stored| && stored[..n] == blobs
            && stored[n + k].data == XorBlobs(DataAt(blobs, 2 * k), DataAt(blobs, 2 * k + 1))
  {
    hide XorBlobs, BlobAt, DataAt, BlobCount;
    assert Layout(h, buffer)[|Blobs(h, buffer)| + k] == Parity(h, Blobs(h, buffer))[k];
  }

  /* ---- the padded tree ---- */

  function Hashes(blobs: seq<DataBlob>): (hashes: seq<Hash>)
    ensures |hashes| == |blobs|
    ensures forall i :: 0 <= i < |blobs| ==> hashes[i] == blobs[i].hash
  {
    seq(|blobs|, i requires 0 <= i < |blobs| => blobs[i].hash)
  }

  /** Filled up with `Hash{}` to a power of two. */
  function Filled(hashes: seq<Hash>): (f: seq<Hash>)
    ensures |f| == Pow2(Depth(|hashes|)) >= |hashes|
    ensures forall i :: 0 <= i < |hashes| ==> f[i] == hashes[i]
    ensures forall i :: |hashes| <= i < |f| ==> f[i] == NO_HASH
  {
    if hashes == [] then [NO_HASH]
    else
      DepthIsLog(|hashes|);
      hashes + seq(Pow2(Depth(|hashes|)) - |hashes|, _ => NO_HASH)
  }

  function PaddedRoot(h: HashFunction, hashes: seq<Hash>): Hash
  {
    if hashes == [] then NO_HASH else Root(h, Filled(hashes))
  }

  function PaddedPath(h: HashFunction, hashes: seq<Hash>, index: nat): seq<Hash>
  {
    if index < |Filled(hashes)| then Path(h, Filled(hashes), index) else []
  }

  lemma {:induction false} DepthOfPow2(k: nat)
    ensures Depth(Pow2(k)) == k
  {
    if k > 0 {
      DepthOfPow2(k - 1);
    }
  }

  /** On a power of two the two trees of the repository have the same root. */
  lemma RootsAgree(h: HashFunction, hashes: seq<Hash>, k: nat)
    requires |hashes| == Pow2(k)
    ensures PaddedRoot(h, hashes) == Root(h, hashes)
  {
    DepthOfPow2(k);
    assert Filled(hashes) == hashes;
  }

  /** A proof from the padded tree leads to the padded root by the rule of the other tree's verifier. */
  lemma PaddedPathLeadsToRoot(h: HashFunction, hashes: seq<Hash>, index: nat)
    requires index < |hashes|
    ensures Climb(h, hashes[index], PaddedPath(h, hashes, index), index) == PaddedRoot(h, hashes)
    ensures |PaddedPath(h, hashes, index)| == Depth(|hashes|)
  {
    PathLeadsToRoot(h, Filled(hashes), index);
    DepthOfPow2(Depth(|hashes|));
  }

  /* ---- the loops of the source ---- */

  method ComputeHash(h: HashFunction, data: seq<u8>, index: nat) returns (blob: DataBlob)
    ensures blob == DataBlob(data, h(data), index)
  {
    blob := DataBlob(data, h(data), index);
  }

  method SerializeBlock(b: Block) returns (text: string)
    ensures text == BlockText(b)
  {
    hide HexText, Print;
    var stateRoot := ToHex(b.header.stateRoot);
    var previousHash := ToHex(b.header.previousHash);
    text := Print(b.header.height, 10) + "|";
    text := text + stateRoot + "|";
    text := text + previousHash + "|";
    text := text + Print(|b.transactions|, 10) + "|";
    ghost var head := text;
    for i := 0 to |b.transactions|
      invariant text == head + TransactionsText(b.transactions[..i])
    {
      var tx := b.transactions[i];
      assert b.transactions[..i + 1][..i] == b.transactions[..i];
      ghost var before := text;
      text := text + tx.sender + "," + tx.receiver + "," + Print(tx.amount, 10) + ";";
      assert text == before + TransactionText(tx);
    }
    assert b.transactions[..|b.transactions|] == b.transactions;
  }

  method SerializeBlocks(blocks: seq<Block>) returns (buffer: seq<u8>)
    ensures buffer == BatchBytes(blocks)
  {
    hide BlockText, TextBytes;
    buffer := [];
    for i := 0 to |blocks|
      invariant buffer == BatchBytes(blocks[..i])
    {
      assert blocks[..i + 1][..i] == blocks[..i];
      var text := SerializeBlock(blocks[i]);
      buffer := buffer + TextBytes(text);
    }
    assert blocks[..|blocks|] == blocks;
  }

  method SplitIntoBlobs(h: HashFunction, buffer: seq<u8>) returns (blobs: seq<DataBlob>)
    ensures blobs == Blobs(h, buffer)
  {
    blobs := [];
    var i := 0;
    while i < |buffer|
      invariant i == BLOB_SIZE * |blobs| && |blobs| <= BlobCount(|buffer|)
      invariant forall k :: 0 <= k < |blobs| ==> blobs[k] == BlobAt(h, buffer, k)
    {
      var end := if i + BLOB_SIZE < |buffer| then i + BLOB_SIZE else |buffer|;
      var blob := ComputeHash(h, buffer[i..end], |blobs|);
      blobs := blobs + [blob];
      i := i + BLOB_SIZE;
    }
  }

  method GenerateErasureCodes(h: HashFunction, original: seq<DataBlob>) returns (parity: seq<DataBlob>)
    ensures parity == Parity(h, original)
  {
    parity := [];
    var i := 0;
    while i < |original|
      invariant 0 <= i == 2 * |parity| <= |original| + 1
      invariant forall k :: 0 <= k < |parity| ==> parity[k] == ParityAt(h, original, k)
    {
      var data := XorPair(original, i);
      var blob := ComputeHash(h, data, |original| + i / 2);
      parity := parity + [blob];
      i := i + 2;
    }
  }

  method XorPair(original: seq<DataBlob>, i: nat) returns (data: seq<u8>)
    requires i < |original|
    ensures data == XorBlobs(DataAt(original, i), DataAt(original, i + 1))
  {
    hide XorByte;
    data := [];
    for j := 0 to BLOB_SIZE
      invariant |data| == j
      invariant forall k :: 0 <= k < j ==>
                  data[k] == XorByte(ByteOrZero(DataAt(original, i), k), ByteOrZero(DataAt(original, i + 1), k))
    {
      var b1: u8 := if i < |original| && j < |original[i].data| then original[i].data[j] else 0;
      var b2: u8 := if i + 1 < |original| && j < |original[i + 1].data| then original[i + 1].data[j] else 0;
      data := data + [XorByte(b1, b2)];
    }
  }

  /** The hashes of blobs, filled up to a power of two. */
  method PadHashes(blobs: seq<DataBlob>) returns (hashes: seq<Hash>)
    ensures hashes == Filled(Hashes(blobs))
  {
    hashes := [];
    for i := 0 to |blobs|
      invariant |hashes| == i && forall k :: 0 <= k < i ==> hashes[k] == blobs[k].hash
    {
      hashes := hashes + [blobs[i].hash];
    }
    assert hashes == Hashes(blobs);
    var n := 1;
    ghost var k := 0;
    while n < |hashes|
      invariant n == Pow2(k) && k <= Depth(|hashes|)
      decreases |hashes| - n
    {
      NotYet(|hashes|, k);
      n := n * 2;
      k := k + 1;
    }
    Enough(|hashes|, k);
    while |hashes| < n
      invariant |blobs| <= |hashes| <= n
      invariant forall i :: 0 <= i < |blobs| ==> hashes[i] == blobs[i].hash
      invariant forall i :: |blobs| <= i < |hashes| ==> hashes[i] == NO_HASH
    {
      hashes := hashes + [NO_HASH];
    }
  }

  lemma NotYet(n: nat, k: nat)
    requires Pow2(k) < n
    ensures k < Depth(n)
  {
    DepthIsLog(n);
    if Depth(n) <= k {
      Pow2Monotone(Depth(n), k);
    }
  }

  lemma Enough(n: nat, k: nat)
    requires n <= Pow2(k) && k <= Depth(n)
    ensures k == Depth(n)
  {
    if k < Depth(n) {
      Pow2Monotone(k, Depth(n) - 1);
      DepthIsLog(n);
    }
  }

  /** One level up, on an even level. */
  method Halve(h: HashFunction, hashes: seq<Hash>) returns (next: seq<Hash>)
    requires |hashes| % 2 == 0
    ensures next == NextLevel(h, hashes)
  {
    next := [];
    var i := 0;
    while i < |hashes|
      invariant 0 <= i <= |hashes| && i % 2 == 0
      invariant next == NextLevel(h, hashes)[..i / 2]
    {
      assert PairBytes(hashes, i / 2) == Join(hashes[i], hashes[i + 1]);
      next := next + [h(Join(hashes[i], hashes[i + 1]))];
      i := i + 2;
    }
  }

  method BuildMerkleRoot(h: HashFunction, blobs: seq<DataBlob>) returns (root: Hash)
    ensures root == PaddedRoot(h, Hashes(blobs))
  {
    hide NextLevel, Filled;
    if blobs == [] {
      return NO_HASH;
    }
    var hashes := PadHashes(blobs);
    ghost var k := Depth(|blobs|);
    while |hashes| > 1
      invariant |hashes| == Pow2(k) && Root(h, hashes) == Root(h, Filled(Hashes(blobs)))
      decreases |hashes|
    {
      HalfOfPow2(k);
      hashes := Halve(h, hashes);
      k := k - 1;
    }
    return hashes[0];
  }

  lemma HalfOfPow2(k: nat)
    requires Pow2(k) > 1
    ensures k > 0
    ensures forall j: nat :: j + 1 == k ==> Pow2(k) == 2 * Pow2(j)
  {
  }

  /** One level up, noting the hash next to idx on the way; there is none if idx is past the level. */
  method HalveAndProve(h: HashFunction, hashes: seq<Hash>, idx: nat, proof: seq<Hash>)
    returns (next: seq<Hash>, proof': seq<Hash>)
    requires |hashes| % 2 == 0
    ensures next == NextLevel(h, hashes)
    ensures proof' == if idx < |hashes| then proof + [Sibling(hashes, idx)] else proof
  {
    next := [];
    proof' := proof;
    var i := 0;
    while i < |hashes|
      invariant 0 <= i <= |hashes| && i % 2 == 0
      invariant next == NextLevel(h, hashes)[..i / 2]
      invariant proof' == if idx < i then proof + [Sibling(hashes, idx)] else proof
    {
      if i == idx / 2 * 2 {
        proof' := proof' + [hashes[i + if idx % 2 == 0 then 1 else 0]];
      }
      assert PairBytes(hashes, i / 2) == Join(hashes[i], hashes[i + 1]);
      next := next + [h(Join(hashes[i], hashes[i + 1]))];
      i := i + 2;
    }
  }

  method ClimbAndProve(h: HashFunction, blobs: seq<DataBlob>, index: nat) returns (proof: seq<Hash>)
    ensures proof == PaddedPath(h, Hashes(blobs), index)
  {
    hide NextLevel, Sibling, Path, Filled;
    var hashes := PadHashes(blobs);
    ghost var k, inside := Depth(|blobs|), index < |hashes|;
    proof := [];
    var idx: nat := index;
    while |hashes| > 1
      invariant |hashes| == Pow2(k) && (inside <==> idx < |hashes|)
      invariant if inside then proof + Path(h, hashes, idx) == Path(h, Filled(Hashes(blobs)), index) else proof == []
      decreases |hashes|
    {
      HalfOfPow2(k);
      if inside {
        PathStep(h, hashes, idx);
        ghost var rest := Path(h, NextLevel(h, hashes), idx / 2);
        assert proof + ([Sibling(hashes, idx)] + rest) == (proof + [Sibling(hashes, idx)]) + rest;
      }
      hashes, proof := HalveAndProve(h, hashes, idx, proof);
      idx := idx / 2;
      k := k - 1;
    }
    if inside {
      PathStep(h, hashes, idx);
    }
  }

  class DataAvailabilityLayer {
    const h: HashFunction
    var batchBlobs: map<string, seq<DataBlob>>
    var commitments: map<string, DACommitment>

    /** Every batch is stored as the layout of some buffer, under the commitment to it. */
    ghost predicate Valid()
      reads this
    {
      && batchBlobs.Keys == commitments.Keys
      && (forall id :: id in batchBlobs ==> Committed(h, id, batchBlobs[id], commitments[id]))
    }

    constructor (h: HashFunction)
      ensures this.h == h && Valid() && batchBlobs == map[]
    {
      this.h := h;
      batchBlobs, commitments := map[], map[];
    }

    /** now is the clock. */
    method StoreData(batchId: string, blocks: seq<Block>, now: u64) returns (commitment: DACommitment)
      requires Valid()
      modifies this
      ensures Valid()
      ensures batchBlobs == old(batchBlobs)[batchId := Layout(h, BatchBytes(blocks))]
      ensures commitments == old(commitments)[batchId := commitment]
      ensures commitment == CommitmentTo(h, batchId, BatchBytes(blocks), now)
    {
      hide Layout, PaddedRoot, Blobs, Parity, Committed;
      var buffer := SerializeBlocks(blocks);
      var blobs := SplitIntoBlobs(h, buffer);
      var parityBlobs := GenerateErasureCodes(h, blobs);
      var allBlobs := blobs + parityBlobs;
      LayoutIs(h, buffer);
      batchBlobs := batchBlobs[batchId := allBlobs];
      var dataRoot := BuildMerkleRoot(h, blobs);
      var erasureRoot := BuildMerkleRoot(h, allBlobs);
      commitment := DACommitment(batchId, dataRoot, erasureRoot, |allBlobs|, |buffer|, now);
      StoredIs(h, batchId, buffer, allBlobs, commitment);
      commitments := commitments[batchId := commitment];
    }

    /** Every proof for a stored blob is accepted against the erasure root that was committed to. */
    method GenerateProof(batchId: string, index: nat) returns (proof: seq<Hash>)
      requires Valid()
      ensures batchId !in batchBlobs ==> proof == []
      ensures batchId in batchBlobs ==> proof == PaddedPath(h, Hashes(batchBlobs[batchId]), index)
      ensures batchId in batchBlobs ==> commitments[batchId].blobCount == |batchBlobs[batchId]|
      ensures batchId in batchBlobs && index < commitments[batchId].blobCount ==>
                Climb(h, batchBlobs[batchId][index].hash, proof, index) == commitments[batchId].erasureRoot
    {
      hide Layout, PaddedPath, PaddedRoot;
      if batchId !in batchBlobs {
        return [];
      }
      var blobs := batchBlobs[batchId];
      proof := ClimbAndProve(h, blobs, index);
      if index < |blobs| {
        PaddedPathLeadsToRoot(h, Hashes(blobs), index);
      }
    }
  }

  /** The commitment to a buffer. */
  function CommitmentTo(h: HashFunction, batchId: string, buffer: seq<u8>, timestamp: u64): DACommitment
  {
    var all := Layout(h, buffer);
    DACommitment(
      batchId, PaddedRoot(h, Hashes(Blobs(h, buffer))), PaddedRoot(h, Hashes(all)), |all|, |buffer|, timestamp)
  }

  /** Blobs that are the layout of some buffer, and the commitment to it. */
  ghost predicate Committed(h: HashFunction, batchId: string, blobs: seq<DataBlob>, c: DACommitment)
  {
    exists buffer: seq<u8> :: blobs == Layout(h, buffer) && c == CommitmentTo(h, batchId, buffer, c.timestamp)
  }

  lemma StoredIs(h: HashFunction, batchId: string, buffer: seq<u8>, blobs: seq<DataBlob>, c: DACommitment)
    requires blobs == Layout(h, buffer) && c == CommitmentTo(h, batchId, buffer, c.timestamp)
    ensures Committed(h, batchId, blobs, c)
  {
  }

  /** Every blob that is stored carries the hash of its data and its position, and the blobs of a buffer are
      the least number that holds it in pieces of 4096 bytes, all of them full but the last. */
  lemma StoredBlobs(h: HashFunction, buffer: seq<u8>, i: nat)
    requires i < |Layout(h, buffer)|
    ensures Layout(h, buffer)[i].hash == h(Layout(h, buffer)[i].data) && Layout(h, buffer)[i].index == i
    ensures var n := |Blobs(h, buffer)|;
            && |buffer| <= 4096 * n < |buffer| + 4096 && |Layout(h, buffer)| == n + (n + 1) / 2
            && (i < n - 1 || i >= n ==> |Layout(h, buffer)[i].data| == 4096)
  {
    hide XorBlobs;
    var n := |Blobs(h, buffer)|;
    if i >= n {
      StoredParts(h, buffer, i - n);
      XorLength(DataAt(Blobs(h, buffer), 2 * (i - n)), DataAt(Blobs(h, buffer), 2 * (i - n) + 1));
      assert Layout(h, buffer)[i] == Parity(h, Blobs(h, buffer))[i - n];
    } else {
      assert Layout(h, buffer)[i] == Blobs(h, buffer)[i];
    }
  }

  /** The commitment: its data root proves every blob of the buffer and its erasure root every blob that is
      stored, and it counts these and the bytes of the buffer. */
  lemma CommitmentProves(h: HashFunction, batchId: string, buffer: seq<u8>, timestamp: u64, i: nat)
    ensures var c, blobs, all := CommitmentTo(h, batchId, buffer, timestamp), Blobs(h, buffer), Layout(h, buffer);
            && c.batchId == batchId && c.timestamp == timestamp && c.blobCount == |all| && c.totalSize == |buffer|
            && (i < |blobs| ==> Climb(h, blobs[i].hash, PaddedPath(h, Hashes(blobs), i), i) == c.dataRoot)
            && (i < |all| ==> Climb(h, all[i].hash, PaddedPath(h, Hashes(all), i), i) == c.erasureRoot)
            && (buffer == [] ==> c.dataRoot == NO_HASH && c.erasureRoot == NO_HASH)
  {
    hide PaddedPath, PaddedRoot, Climb;
    var blobs, all := Blobs(h, buffer), Layout(h, buffer);
    if i < |blobs| {
      PaddedPathLeadsToRoot(h, Hashes(blobs), i);
    }
    if i < |all| {
      PaddedPathLeadsToRoot(h, Hashes(all), i);
    }
    if buffer == [] {
      NothingStored(h);
    }
  }

  lemma NothingStored(h: HashFunction)
    ensures Blobs(h, []) == [] && Layout(h, []) == [] && PaddedRoot(h, Hashes([])) == NO_HASH
  {
    hide XorBlobs;
    assert Hashes([]) == [];
  }

  /** A block with one transaction, in full. */
  lemma BlockInFull(b: Block, tx: Transaction)
    requires b.header.height == 7 && b.transactions == [tx.(sender := "a", receiver := "b", amount := 5)]
    ensures BlockText(b) ==
            "7|" + HexText(b.header.stateRoot) + "|" + HexText(b.header.previousHash) + "|1|" + "a,b,5;"
  {
    hide HexText;
    var sent := b.transactions[0];
    assert [sent][..0] == [] && TransactionsText([]) == "";
    PrintStep(1, 10);
    PrintStep(5, 10);
    PrintStep(7, 10);
    hide Print;
    assert TransactionsText(b.transactions) == "" + TransactionText(sent);
  }

  lemma LayoutIs(h: HashFunction, buffer: seq<u8>)
    ensures Layout(h, buffer) == Blobs(h, buffer) + Parity(h, Blobs(h, buffer))
  {
  }
}
