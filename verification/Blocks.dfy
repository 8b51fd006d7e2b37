/** Blocks and their hash (core/block.h, core/block.cpp). */
module Blocks {
  import opened Bits
  import opened Bytes
  import opened Codec
  import opened Hex
  import opened Merkle
  import opened Text

  datatype BlockHeader = BlockHeader(
    height: u64, timestamp: u64, previousHash: Hash, stateRoot: Hash, txRoot: Hash, producer: ByteString,
    signature: seq<u8>)

  datatype Block = Block(header: BlockHeader, transactions: seq<Transaction>)

  /** The text that is hashed: the fields one after the other, without separators. */
  function HeaderText(b: BlockHeader): string
  {
    Print(b.height, 10) + Print(b.timestamp, 10)
    + HexText(b.previousHash) + HexText(b.stateRoot) + HexText(b.txRoot) + b.producer
  }

  /** The signature is not hashed. */
  lemma UnsignedText(b: BlockHeader, signature: seq<u8>)
    ensures HeaderText(b.(signature := signature)) == HeaderText(b)
  {
  }

  function HeaderBytes(b: BlockHeader): seq<u8>
  {
    TextBytes(HeaderText(b))
  }

  function BlockHash(h: HashFunction, b: Block): Hash
  {
    h(HeaderBytes(b.header))
  }

  /** The text does not show where the height ends. */
  lemma AmbiguousHeader(b: BlockHeader)
    ensures HeaderText(b.(height := 1, timestamp := 12)) == HeaderText(b.(height := 11, timestamp := 2))
  {
    hide HexText;
    PrintStep(1, 10);
    PrintStep(2, 10);
    PrintStep(11, 10);
    PrintStep(12, 10);
  }

  /** Headers with one text agree in all that is hashed exactly if heights and times are equally long. */
  lemma HeaderTextBinds(a: BlockHeader, b: BlockHeader)
    requires HeaderBytes(a) == HeaderBytes(b)
    ensures a.(signature := []) == b.(signature := []) <==>
            |Print(a.height, 10)| == |Print(b.height, 10)| && |Print(a.timestamp, 10)| == |Print(b.timestamp, 10)|
  {
    if |Print(a.height, 10)| == |Print(b.height, 10)| && |Print(a.timestamp, 10)| == |Print(b.timestamp, 10)| {
      HeaderIsByteString(a);
      HeaderIsByteString(b);
      SameText(HeaderText(a), HeaderText(b));
      HeaderParts(a);
      HeaderParts(b);
      hide Print, HexText, HeaderText;
      PrintInjective(a.height, b.height, 10);
      PrintInjective(a.timestamp, b.timestamp, 10);
      HexTextInjective(a.previousHash, b.previousHash);
      HexTextInjective(a.stateRoot, b.stateRoot);
      HexTextInjective(a.txRoot, b.txRoot);
    }
  }

  lemma HeaderIsByteString(b: BlockHeader)
    ensures forall i :: 0 <= i < |HeaderText(b)| ==> HeaderText(b)[i] as int < 256
  {
    PrintIsBytes(b.height);
    PrintIsBytes(b.timestamp);
    HexTextDigits(b.previousHash);
    HexTextDigits(b.stateRoot);
    HexTextDigits(b.txRoot);
    DigitsAreBytes(HexText(b.previousHash));
    DigitsAreBytes(HexText(b.stateRoot));
    DigitsAreBytes(HexText(b.txRoot));
    hide Print, HexText, AllDigits;
  }

  lemma HeaderParts(b: BlockHeader)
    ensures var s, n, m := HeaderText(b), |Print(b.height, 10)|, |Print(b.timestamp, 10)|;
            && |s| >= n + m + 192 && s[..n] == Print(b.height, 10) && s[n..n + m] == Print(b.timestamp, 10)
            && s[n + m..n + m + 64] == HexText(b.previousHash) && s[n + m + 64..n + m + 128] == HexText(b.stateRoot)
            && s[n + m + 128..n + m + 192] == HexText(b.txRoot) && s[n + m + 192..] == b.producer
  {
    hide Print, HexText;
  }

  /** Blocks with one hash have one text, or their texts collide. */
  lemma BlockHashBinds(h: HashFunction, a: Block, b: Block)
    requires BlockHash(h, a) == BlockHash(h, b)
    ensures HeaderBytes(a.header) == HeaderBytes(b.header)
         || Collision(h, (HeaderBytes(a.header), HeaderBytes(b.header)))
  {
    hide HeaderBytes;
  }

  /** `Block::calculateHash`. */
  method CalculateHash(h: HashFunction, b: Block) returns (hash: Hash)
    ensures hash == BlockHash(h, b)
  {
    hide HexText, Print;
    var previousHash := ToHex(b.header.previousHash);
    var stateRoot := ToHex(b.header.stateRoot);
    var txRoot := ToHex(b.header.txRoot);
    var data := Print(b.header.height, 10) + Print(b.header.timestamp, 10);
    data := data + previousHash + stateRoot + txRoot + b.header.producer;
    hash := h(TextBytes(data));
  }
}
