/** Transactions and their byte format (core/transaction.cpp, core/transaction.h).

    `std::string` holds bytes, so the strings of a transaction are strings of byte-sized characters.
    Offsets are unbounded: the source's 64-bit sums do not wrap on buffers that fit in memory.
 */
module Codec {
  import opened Bits
  import opened Bytes
  import opened Merkle
  import Sha256
  import opened Wrappers

  datatype Transaction = Transaction(
    sender: ByteString, receiver: ByteString, amount: u64, nonce: u64, gasLimit: u64, gasPrice: u64,
    data: seq<u8>, signature: seq<u8>, hash: Hash)

  /* ---- fields ---- */

  /** The length as the source writes it: four bytes, little-endian, cut to 32 bits. */
  function Length(n: nat): (f: seq<u8>)
    ensures |f| == 4
  {
    LittleEndianDigits(n % TWO32, 4)
  }

  /** A string field: no more characters than the written length says. */
  function StringField(s: string): seq<u8>
  {
    Length(|s|) + TextBytes(s)[..|s| % TWO32]
  }

  /** A byte field: all bytes, whatever the written length says. */
  function BytesField(b: seq<u8>): seq<u8>
  {
    Length(|b|) + b
  }

  function Number(v: u64): (f: seq<u8>)
    ensures |f| == 8
  {
    LittleEndianDigits(v, 8)
  }

  /** Takes a number of eight bytes off the front. */
  function TakeNumber(d: seq<u8>): Option<(u64, seq<u8>)>
  {
    if |d| < 8 then None
    else
      NumberRange(d[..8]);
      Some((LittleEndian(d[..8]), d[8..]))
  }

  /** Takes a length and that many bytes off the front. */
  function TakeField(d: seq<u8>): Option<(seq<u8>, seq<u8>)>
  {
    if |d| < 4 then None
    else
      var len := LittleEndian(d[..4]);
      if 4 + len > |d| then None else Some((d[4..4 + len], d[4 + len..]))
  }

  lemma NumberRange(s: seq<u8>)
    requires |s| == 8 || |s| == 4
    ensures LittleEndianDigits(LittleEndian(s), |s|) == s
    ensures |s| == 8 ==> LittleEndian(s) < TWO64
    ensures |s| == 4 ==> LittleEndian(s) < TWO32
  {
    DigitsOfLittleEndian(s);
    Pow2Values();
  }

  lemma NumberBack(v: u64, rest: seq<u8>)
    ensures TakeNumber(Number(v) + rest) == Some((v, rest))
  {
    hide LittleEndian, LittleEndianDigits, Pow2;
    Pow2Values();
    LittleEndianOfDigits(v, 8);
    var d := Number(v) + rest;
    assert d[..8] == Number(v) && d[8..] == rest;
  }

  lemma NumberTaken(d: seq<u8>)
    requires TakeNumber(d).Some?
    ensures d == Number(TakeNumber(d).value.0) + TakeNumber(d).value.1
  {
    hide LittleEndian, LittleEndianDigits;
    NumberRange(d[..8]);
    assert d == d[..8] + d[8..];
  }

  lemma FieldBack(b: seq<u8>, rest: seq<u8>)
    requires |b| < TWO32
    ensures TakeField(BytesField(b) + rest) == Some((b, rest))
  {
    hide LittleEndian, LittleEndianDigits, Pow2;
    Pow2Values();
    LittleEndianOfDigits(|b|, 4);
    var d := BytesField(b) + rest;
    assert d[..4] == Length(|b|);
    assert d[4..4 + |b|] == b && d[4 + |b|..] == rest;
  }

  lemma FieldTaken(d: seq<u8>)
    requires TakeField(d).Some?
    ensures |TakeField(d).value.0| < TWO32
    ensures d == BytesField(TakeField(d).value.0) + TakeField(d).value.1
  {
    hide LittleEndian, LittleEndianDigits;
    NumberRange(d[..4]);
    var len := LittleEndian(d[..4]);
    assert d == d[..4] + d[4..4 + len] + d[4 + len..];
  }

  /** A short string is written as its bytes are. */
  lemma ShortString(s: string)
    requires |s| < TWO32
    ensures StringField(s) == BytesField(TextBytes(s))
  {
    assert TextBytes(s)[..|s|] == TextBytes(s);
  }

  /* ---- transactions ---- */

  /** The bytes of a transaction followed by rest. */
  function Encoded(tx: Transaction, rest: seq<u8>): seq<u8>
  {
    StringField(tx.sender) + (StringField(tx.receiver) + (Number(tx.amount) + (Number(tx.nonce)
    + (Number(tx.gasLimit) + (Number(tx.gasPrice) + (BytesField(tx.data) + (BytesField(tx.signature) + rest)))))))
  }

  function Serialized(tx: Transaction): seq<u8>
  {
    Encoded(tx, [])
  }

  /** Every length fits the four bytes it is written in. */
  predicate Fits(tx: Transaction)
  {
    |tx.sender| < TWO32 && |tx.receiver| < TWO32 && |tx.data| < TWO32 && |tx.signature| < TWO32
  }

  /** A transaction taken off the front of some bytes, with its hash left out; None is an exception. */
  function Parse(d: seq<u8>): Option<(Transaction, seq<u8>)>
  {
    var sender := TakeField(d);
    if sender.None? then None else
    var receiver := TakeField(sender.value.1);
    if receiver.None? then None else
    var amount := TakeNumber(receiver.value.1);
    if amount.None? then None else
    var nonce := TakeNumber(amount.value.1);
    if nonce.None? then None else
    var gasLimit := TakeNumber(nonce.value.1);
    if gasLimit.None? then None else
    var gasPrice := TakeNumber(gasLimit.value.1);
    if gasPrice.None? then None else
    var data := TakeField(gasPrice.value.1);
    if data.None? then None else
    var signature := TakeField(data.value.1);
    if signature.None? then None else
    Some((
      Transaction(Characters(sender.value.0), Characters(receiver.value.0), amount.value.0, nonce.value.0,
                  gasLimit.value.0, gasPrice.value.0, data.value.0, signature.value.0, NO_HASH),
      signature.value.1))
  }

  /** A field at a place: the low 32 bits of a length in four bytes, and then so many of the given bytes. */
  predicate FieldAt(d: seq<u8>, from: nat, length: nat, bytes: seq<u8>)
  {
    && SpellsBackwards(length % TWO32, 4, d, from)
    && from + 4 + |bytes| <= |d| && d[from + 4..from + 4 + |bytes|] == bytes
  }

  /** Where every field of a transaction is in its bytes.  Strings are cut to the length that is written, data
      and signature are not. */
  lemma FieldsAt(tx: Transaction)
    ensures var d, s, r := Serialized(tx), |tx.sender| % TWO32, |tx.receiver| % TWO32;
            var n := 8 + s + r;
            && |d| == n + 40 + |tx.data| + |tx.signature|
            && FieldAt(d, 0, |tx.sender|, TextBytes(tx.sender)[..s])
            && FieldAt(d, 4 + s, |tx.receiver|, TextBytes(tx.receiver)[..r])
            && SpellsBackwards(tx.amount, 8, d, n) && SpellsBackwards(tx.nonce, 8, d, n + 8)
            && SpellsBackwards(tx.gasLimit, 8, d, n + 16) && SpellsBackwards(tx.gasPrice, 8, d, n + 24)
            && FieldAt(d, n + 32, |tx.data|, tx.data)
            && FieldAt(d, n + 36 + |tx.data|, |tx.signature|, tx.signature)
  {
    hide TextBytes, SpellsBackwards, FieldAt, Number, StringField, BytesField;
    var s, r := StringField(tx.sender), StringField(tx.receiver);
    var a, b := BytesField(tx.data), BytesField(tx.signature);
    FieldLength(tx);
    var d8: seq<u8> := [];
    var d7 := b + d8;
    var d6 := a + d7;
    var d5 := Number(tx.gasPrice) + d6;
    var d4 := Number(tx.gasLimit) + d5;
    var d3 := Number(tx.nonce) + d4;
    var d2 := Number(tx.amount) + d3;
    var d1 := r + d2;
    var n := |s| + |r|;
    StringPlaced([], tx.sender, d1);
    StringPlaced(s, tx.receiver, d2);
    NumberPlaced(s + r, tx.amount, d3);
    NumberPlaced(s + r + Number(tx.amount), tx.nonce, d4);
    NumberPlaced(s + r + Number(tx.amount) + Number(tx.nonce), tx.gasLimit, d5);
    NumberPlaced(s + r + Number(tx.amount) + Number(tx.nonce) + Number(tx.gasLimit), tx.gasPrice, d6);
    var head := s + r + Number(tx.amount) + Number(tx.nonce) + Number(tx.gasLimit) + Number(tx.gasPrice);
    BytesPlaced(head, tx.data, d7);
    BytesPlaced(head + a, tx.signature, d8);
    Joined(tx);
  }

  lemma FieldLength(tx: Transaction)
    ensures |StringField(tx.sender)| == 4 + |tx.sender| % TWO32
    ensures |StringField(tx.receiver)| == 4 + |tx.receiver| % TWO32
    ensures |BytesField(tx.data)| == 4 + |tx.data| && |BytesField(tx.signature)| == 4 + |tx.signature|
  {
    hide LittleEndianDigits;
  }

  /** However the parts are grouped. */
  lemma Joined(tx: Transaction)
    ensures var s, r := StringField(tx.sender), StringField(tx.receiver);
            var a, b := BytesField(tx.data), BytesField(tx.signature);
            var v, w, x, y := Number(tx.amount), Number(tx.nonce), Number(tx.gasLimit), Number(tx.gasPrice);
            && Serialized(tx) == [] + (s + (r + (v + (w + (x + (y + (a + (b + []))))))))
            && Serialized(tx) == s + (r + (v + (w + (x + (y + (a + (b + [])))))))
            && Serialized(tx) == s + r + (v + (w + (x + (y + (a + (b + []))))))
            && Serialized(tx) == s + r + v + (w + (x + (y + (a + (b + [])))))
            && Serialized(tx) == s + r + v + w + (x + (y + (a + (b + []))))
            && Serialized(tx) == s + r + v + w + x + (y + (a + (b + [])))
            && Serialized(tx) == s + r + v + w + x + y + (a + (b + []))
            && Serialized(tx) == s + r + v + w + x + y + a + (b + [])
  {
    hide StringField, BytesField, Number;
  }

  lemma StringPlaced(before: seq<u8>, s: string, after: seq<u8>)
    ensures FieldAt(before + (StringField(s) + after), |before|, |s|, TextBytes(s)[..|s| % TWO32])
  {
    hide SpellsBackwards, LittleEndianDigits;
    var d := before + (StringField(s) + after);
    assert d[|before|..|before| + 4] == Length(|s|);
    LittleDigitsSpell(|s| % TWO32, 4, d, |before|);
    assert d[|before| + 4..|before| + 4 + |s| % TWO32] == TextBytes(s)[..|s| % TWO32];
  }

  lemma BytesPlaced(before: seq<u8>, b: seq<u8>, after: seq<u8>)
    ensures FieldAt(before + (BytesField(b) + after), |before|, |b|, b)
  {
    hide SpellsBackwards, LittleEndianDigits;
    var d := before + (BytesField(b) + after);
    assert d[|before|..|before| + 4] == Length(|b|);
    LittleDigitsSpell(|b| % TWO32, 4, d, |before|);
    assert d[|before| + 4..|before| + 4 + |b|] == b;
  }

  lemma NumberPlaced(before: seq<u8>, v: u64, after: seq<u8>)
    ensures SpellsBackwards(v, 8, before + (Number(v) + after), |before|)
  {
    hide SpellsBackwards, LittleEndianDigits;
    var d := before + (Number(v) + after);
    assert d[|before|..|before| + 8] == Number(v);
    LittleDigitsSpell(v, 8, d, |before|);
  }

  /** The serialized fields agree; the hash is not serialized. */
  predicate SameFields(a: Transaction, b: Transaction)
  {
    a.(hash := NO_HASH) == b.(hash := NO_HASH)
  }

  /** Parsing gives back the fields and the bytes behind them. */
  lemma ParseEncoded(tx: Transaction, rest: seq<u8>)
    requires Fits(tx)
    ensures Parse(Encoded(tx, rest)) == Some((tx.(hash := NO_HASH), rest))
  {
    hide TakeField, TakeNumber, BytesField, StringField, Number, TextBytes, Characters;
    var d7 := BytesField(tx.signature) + rest;
    var d6 := BytesField(tx.data) + d7;
    var d5 := Number(tx.gasPrice) + d6;
    var d4 := Number(tx.gasLimit) + d5;
    var d3 := Number(tx.nonce) + d4;
    var d2 := Number(tx.amount) + d3;
    var d1 := StringField(tx.receiver) + d2;
    ShortString(tx.sender);
    ShortString(tx.receiver);
    TextIsBytes(tx.sender);
    TextIsBytes(tx.receiver);
    FieldBack(TextBytes(tx.sender), d1);
    FieldBack(TextBytes(tx.receiver), d2);
    NumberBack(tx.amount, d3);
    NumberBack(tx.nonce, d4);
    NumberBack(tx.gasLimit, d5);
    NumberBack(tx.gasPrice, d6);
    FieldBack(tx.data, d7);
    FieldBack(tx.signature, rest);
  }

  /** Accepted bytes are the encoding of what they parse as, followed by what was not consumed. */
  lemma EncodedParse(d: seq<u8>)
    requires Parse(d).Some?
    ensures Fits(Parse(d).value.0)
    ensures Encoded(Parse(d).value.0, Parse(d).value.1) == d
  {
    hide TakeField, TakeNumber, BytesField, StringField, Number, TextBytes, Characters;
    var (tx, rest) := Parse(d).value;
    FieldTaken(d);
    var d1 := TakeField(d).value.1;
    FieldTaken(d1);
    var d2 := TakeField(d1).value.1;
    NumberTaken(d2);
    var d3 := TakeNumber(d2).value.1;
    NumberTaken(d3);
    var d4 := TakeNumber(d3).value.1;
    NumberTaken(d4);
    var d5 := TakeNumber(d4).value.1;
    NumberTaken(d5);
    var d6 := TakeNumber(d5).value.1;
    FieldTaken(d6);
    FieldTaken(TakeField(d6).value.1);
    BytesAreText(TakeField(d).value.0);
    BytesAreText(TakeField(d1).value.0);
    ShortString(tx.sender);
    ShortString(tx.receiver);
  }

  lemma EncodedAppend(tx: Transaction, rest: seq<u8>)
    ensures Encoded(tx, rest) == Serialized(tx) + rest
  {
    hide BytesField, StringField, Number, TextBytes;
  }

  /** Deserializing what was serialized gives back the transaction exactly when its lengths fit. */
  lemma RoundTrip(tx: Transaction)
    ensures (Parse(Serialized(tx)).Some? && SameFields(Parse(Serialized(tx)).value.0, tx)) <==> Fits(tx)
  {
    hide Parse, Encoded;
    if Fits(tx) {
      ParseEncoded(tx, []);
    }
    if Parse(Serialized(tx)).Some? {
      EncodedParse(Serialized(tx));
    }
  }

  /** No encoding is a prefix of another one's: bytes determine the transaction they start with. */
  lemma PrefixFree(a: Transaction, b: Transaction, d: seq<u8>)
    requires Fits(a) && Fits(b) && Serialized(a) <= d && Serialized(b) <= d
    ensures SameFields(a, b)
  {
    hide Parse, Encoded;
    var s, t := d[|Serialized(a)|..], d[|Serialized(b)|..];
    EncodedAppend(a, s);
    EncodedAppend(b, t);
    assert Serialized(a) + s == d && Serialized(b) + t == d;
    ParseEncoded(a, s);
    ParseEncoded(b, t);
  }

  /** Bytes are accepted exactly when they start with the encoding of some transaction. */
  lemma AcceptsEncodings(d: seq<u8>)
    ensures Parse(d).Some? <==> exists tx: Transaction :: Fits(tx) && Serialized(tx) <= d
  {
    hide Parse, Encoded;
    if Parse(d).Some? {
      EncodedParse(d);
      EncodedAppend(Parse(d).value.0, Parse(d).value.1);
    } else if tx: Transaction :| Fits(tx) && Serialized(tx) <= d {
      var rest := d[|Serialized(tx)|..];
      EncodedAppend(tx, rest);
      assert Serialized(tx) + rest == d;
      ParseEncoded(tx, rest);
      assert false;
    }
  }

  /* ---- the source's buffers and offsets ---- */

  method AppendStr(buffer: seq<u8>, s: string) returns (longer: seq<u8>)
    ensures longer == buffer + StringField(s)
  {
    var len: u32 := |s| % TWO32;
    longer := buffer + LittleEndianDigits(len, 4);
    longer := longer + TextBytes(s)[..len];
  }

  method AppendBytes(buffer: seq<u8>, b: seq<u8>) returns (longer: seq<u8>)
    ensures longer == buffer + BytesField(b)
  {
    var len: u32 := |b| % TWO32;
    longer := buffer + LittleEndianDigits(len, 4);
    longer := longer + b;
  }

  method Serialize(tx: Transaction) returns (buffer: seq<u8>)
    ensures buffer == Serialized(tx)
  {
    hide BytesField, StringField, TextBytes, LittleEndianDigits;
    buffer := AppendStr([], tx.sender);
    buffer := AppendStr(buffer, tx.receiver);
    buffer := buffer + LittleEndianDigits(tx.amount, 8);
    buffer := buffer + LittleEndianDigits(tx.nonce, 8);
    buffer := buffer + LittleEndianDigits(tx.gasLimit, 8);
    buffer := buffer + LittleEndianDigits(tx.gasPrice, 8);
    buffer := AppendBytes(buffer, tx.data);
    buffer := AppendBytes(buffer, tx.signature);
  }

  /** `read` of a 64-bit number. */
  method ReadNumber(data: seq<u8>, offset: nat) returns (r: Option<(u64, nat)>)
    requires offset <= |data|
    ensures r.None? <==> TakeNumber(data[offset..]).None?
    ensures r.Some? ==> offset <= r.value.1 <= |data|
    ensures r.Some? ==> TakeNumber(data[offset..]) == Some((r.value.0, data[r.value.1..]))
  {
    hide LittleEndian;
    if offset + 8 > |data| {
      return None;
    }
    assert data[offset..][..8] == data[offset..offset + 8] && data[offset..][8..] == data[offset + 8..];
    NumberRange(data[offset..offset + 8]);
    return Some((LittleEndian(data[offset..offset + 8]), offset + 8));
  }

  /** `readStr` and `readBytes`. */
  method ReadBytes(data: seq<u8>, offset: nat) returns (r: Option<(seq<u8>, nat)>)
    requires offset <= |data|
    ensures r.None? <==> TakeField(data[offset..]).None?
    ensures r.Some? ==> offset <= r.value.1 <= |data|
    ensures r.Some? ==> TakeField(data[offset..]) == Some((r.value.0, data[r.value.1..]))
  {
    hide LittleEndian;
    if offset + 4 > |data| {
      return None;
    }
    assert data[offset..][..4] == data[offset..offset + 4];
    var len: nat := LittleEndian(data[offset..offset + 4]);
    var start := offset + 4;
    if start + len > |data| {
      return None;
    }
    assert data[offset..][4..4 + len] == data[start..start + len];
    assert data[offset..][4 + len..] == data[start + len..];
    return Some((data[start..start + len], start + len));
  }

  /** What `deserialize` reads, before it computes the hash. */
  method ReadTransaction(data: seq<u8>) returns (r: Option<(Transaction, nat)>)
    ensures r.None? <==> Parse(data).None?
    ensures r.Some? ==> r.value.1 <= |data| && Parse(data) == Some((r.value.0, data[r.value.1..]))
  {
    hide TakeField, TakeNumber;
    assert data[0..] == data;
    var sender :- ReadBytes(data, 0);
    var receiver :- ReadBytes(data, sender.1);
    var amount :- ReadNumber(data, receiver.1);
    var nonce :- ReadNumber(data, amount.1);
    var gasLimit :- ReadNumber(data, nonce.1);
    var gasPrice :- ReadNumber(data, gasLimit.1);
    var payload :- ReadBytes(data, gasPrice.1);
    var signature :- ReadBytes(data, payload.1);
    var tx := Transaction(Characters(sender.0), Characters(receiver.0), amount.0, nonce.0, gasLimit.0, gasPrice.0,
                          payload.0, signature.0, NO_HASH);
    return Some((tx, signature.1));
  }

  method CalculateHash(tx: Transaction) returns (hashed: Transaction)
    ensures SameFields(hashed, tx)
    ensures hashed.hash == Sha256.Hash(Serialized(tx))
  {
    hide Serialized, Sha256.Hash;
    var serialized := Serialize(tx);
    var h := Sha256.Sha256Bytes(serialized);
    hashed := tx.(hash := h);
  }

  /** The accepted inputs are those that start with an encoding; what comes back is the transaction
      encoded there, with its hash. */
  method Deserialize(data: seq<u8>) returns (tx: Option<Transaction>)
    ensures tx.None? <==> forall t: Transaction :: Fits(t) ==> !(Serialized(t) <= data)
    ensures tx.Some? ==> Fits(tx.value) && Serialized(tx.value) <= data
    ensures tx.Some? ==> tx.value.hash == Sha256.Hash(Serialized(tx.value))
  {
    hide Parse, Sha256.Hash;
    AcceptsEncodings(data);
    var r := ReadTransaction(data);
    if r.None? {
      return None;
    }
    EncodedParse(data);
    EncodedAppend(r.value.0, data[r.value.1..]);
    var hashed := CalculateHash(r.value.0);
    SameEncoding(hashed, r.value.0);
    return Some(hashed);
  }

  lemma SameEncoding(a: Transaction, b: Transaction)
    requires SameFields(a, b)
    ensures Serialized(a) == Serialized(b)
  {
  }
}
