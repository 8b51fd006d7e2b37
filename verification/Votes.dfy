/** Consensus votes and the file that they are persisted in (consensus/pbft.h, consensus/pbft.cpp). */
module Votes {
  import opened Bits
  import opened Hex
  import opened Merkle
  import opened StoreFormat
  import opened Wrappers

  /** The signature of a vote is not modelled. */
  datatype Vote = Vote(voterId: string, blockHash: Hash, approve: bool)

  type VoteTable = map<Hash, seq<Vote>>

  /** The votes for a block. */
  function VotesFor(t: VoteTable, k: Hash): seq<Vote>
  {
    if k in t then t[k] else []
  }

  function Push(t: VoteTable, v: Vote): VoteTable
  {
    t[v.blockHash := VotesFor(t, v.blockHash) + [v]]
  }

  /** Every vote is listed under the block that it is for. */
  ghost predicate Filed(t: VoteTable)
  {
    forall k, v :: k in t && v in t[k] ==> v.blockHash == k
  }

  /** The votes for prepare and for commit. */
  datatype Tables = Tables(prepare: VoteTable, commit: VoteTable)

  function Enter(t: Tables, kind: string, v: Vote): Tables
  {
    if kind == "PREPARE" then t.(prepare := Push(t.prepare, v))
    else if kind == "COMMIT" then t.(commit := Push(t.commit, v))
    else t
  }

  /* ---- the file ---- */

  function VoteLine(kind: string, v: Vote): string
  {
    kind + "|" + (v.voterId + "|" + (HexText(v.blockHash) + "|" + (if v.approve then "1" else "0")))
  }

  /** `std::getline(ss, s, '|')`: the text up to the next bar, and what follows it. */
  function NextField(s: string): (string, string)
  {
    if s == "" then ("", "")
    else if s[0] == '|' then ("", s[1..])
    else
      var (field, rest) := NextField(s[1..]);
      ([s[0]] + field, rest)
  }

  function LoadLine(t: Tables, line: string): Option<Tables>
  {
    var (kind, r1) := NextField(line);
    var (voterId, r2) := NextField(r1);
    var (blockHashHex, r3) := NextField(r2);
    var (approveStr, _) := NextField(r3);
    if |blockHashHex| != 64 then Some(t)
    else
      var bytes := Unhex(blockHashHex);
      if bytes.None? then None
      else
        UnhexLength(blockHashHex);
        Some(Enter(t, kind, Vote(voterId, bytes.value, approveStr == "1")))
  }

  function LoadLines(lines: seq<string>): Option<Tables>
  {
    if lines == [] then Some(Tables(map[], map[]))
    else
      var t := LoadLines(lines[..|lines| - 1]);
      if t.None? then None else LoadLine(t.value, lines[|lines| - 1])
  }

  /** What `loadPersistedVotes` makes of the file; None is an exception. */
  function LoadedVotes(file: string): Option<Tables>
  {
    LoadLines(Lines(file))
  }

  lemma {:induction false} UnhexLength(s: string)
    requires Unhex(s).Some?
    ensures |Unhex(s).value| == |s| / 2
  {
    hide ByteAt;
    if |s| >= 2 {
      UnhexLength(s[2..]);
    }
  }

  lemma {:induction false} FieldBack(field: string, rest: string)
    requires '|' !in field
    ensures NextField(field + "|" + rest) == (field, rest)
    ensures NextField(field) == (field, "")
  {
    var s := field + "|" + rest;
    if field == "" {
      assert s[1..] == rest;
    } else {
      assert s[1..] == field[1..] + "|" + rest && [field[0]] + field[1..] == field;
      FieldBack(field[1..], rest);
    }
  }

  /** Text that the line format can carry. */
  predicate Plain(s: string)
  {
    '|' !in s && '\n' !in s
  }

  /** A vote that was written is read back. */
  lemma LoadsVote(t: Tables, kind: string, v: Vote)
    requires Plain(kind) && Plain(v.voterId)
    ensures '\n' !in VoteLine(kind, v)
    ensures LoadLine(t, VoteLine(kind, v)) == Some(Enter(t, kind, v))
  {
    hide Unhex, Enter, HexText, NextField;
    var approve := if v.approve then "1" else "0";
    var r3 := HexText(v.blockHash) + "|" + approve;
    var r2 := v.voterId + "|" + r3;
    HexTextClean(v.blockHash, '|');
    HexTextClean(v.blockHash, '\n');
    HexLengthIs(v.blockHash);
    UnhexHexText(v.blockHash);
    assert VoteLine(kind, v) == kind + "|" + r2;
    FieldBack(kind, r2);
    FieldBack(v.voterId, r3);
    FieldBack(HexText(v.blockHash), approve);
    FieldBack(approve, "");
  }

  /** The line of a vote: its kind, the voter, the 64 digits of the hash, and 1 or 0, with bars between. */
  lemma VoteLineForm(kind: string, v: Vote)
    ensures var line, n := VoteLine(kind, v), |kind| + 1 + |v.voterId|;
            && |line| == n + 67 && line[..|kind|] == kind && line[|kind|] == line[n] == line[n + 65] == '|'
            && line[|kind| + 1..n] == v.voterId && line[n + 1..n + 65] == HexText(v.blockHash)
            && line[n + 66] == if v.approve then '1' else '0'
  {
    hide HexText;
  }

  lemma HexLengthIs(data: seq<u8>)
    ensures |HexText(data)| == 2 * |data|
  {
  }

  /** The file ends with a whole line. */
  predicate Whole(file: string)
  {
    file == "" || file[|file| - 1] == '\n'
  }

  /** One more vote in the file is one more vote that is loaded. */
  lemma LoadAppend(file: string, kind: string, v: Vote)
    requires Whole(file) && Plain(kind) && Plain(v.voterId) && LoadedVotes(file).Some?
    ensures Whole(file + (VoteLine(kind, v) + "\n"))
    ensures LoadedVotes(file + (VoteLine(kind, v) + "\n")) == Some(Enter(LoadedVotes(file).value, kind, v))
  {
    hide LoadLine, Enter, VoteLine, Lines;
    var line := VoteLine(kind, v);
    LoadsVote(LoadedVotes(file).value, kind, v);
    LinesAppend(file, line);
    assert (Lines(file) + [line])[..|Lines(file)|] == Lines(file);
  }

  lemma {:induction false} LoadStuck(lines: seq<string>, i: nat)
    requires i <= |lines| && LoadLines(lines[..i]).None?
    ensures LoadLines(lines).None?
    decreases |lines| - i
  {
    hide LoadLine;
    if i < |lines| {
      assert lines[..i + 1][..i] == lines[..i];
      LoadStuck(lines, i + 1);
    } else {
      assert lines[..i] == lines;
    }
  }

  /** Loaded votes are listed under their block. */
  lemma {:induction false} LoadedFiled(lines: seq<string>)
    requires LoadLines(lines).Some?
    ensures Filed(LoadLines(lines).value.prepare) && Filed(LoadLines(lines).value.commit)
  {
    hide NextField, Unhex;
    if lines != [] {
      LoadedFiled(lines[..|lines| - 1]);
    }
  }

  /** The bytes that `loadPersistedVotes` reads one by one. */
  method ReadHash(blockHashHex: string) returns (r: Option<Hash>)
    requires |blockHashHex| == 64
    ensures r.None? <==> Unhex(blockHashHex).None?
    ensures r.Some? ==> Unhex(blockHashHex) == Some(r.value)
  {
    hide Unhex, ByteAt;
    var blockHash: seq<u8> := [];
    assert blockHashHex[0..] == blockHashHex;
    for i := 0 to 32
      invariant |blockHash| == i
      invariant Unhex(blockHashHex[2 * i..]).None? <==> Unhex(blockHashHex).None?
      invariant Unhex(blockHashHex).Some? ==>
                  Unhex(blockHashHex).value == blockHash + Unhex(blockHashHex[2 * i..]).value
    {
      UnhexStep(blockHashHex, 2 * i);
      var b := ByteAt(blockHashHex, 2 * i);
      if b.None? {
        return None;
      }
      blockHash := blockHash + [b.value];
    }
    UnhexEnd(blockHashHex[64..]);
    assert blockHash + [] == blockHash;
    return Some(blockHash);
  }

  method LoadPersistedVotes(file: string) returns (r: Option<Tables>)
    ensures r == LoadedVotes(file)
    ensures r.Some? ==> Filed(r.value.prepare) && Filed(r.value.commit)
  {
    hide Unhex, Lines, NextField;
    var lines := Lines(file);
    var tables := Tables(map[], map[]);
    for i := 0 to |lines|
      invariant LoadLines(lines[..i]) == Some(tables)
    {
      assert lines[..i + 1][..i] == lines[..i];
      var (kind, r1) := NextField(lines[i]);
      var (voterId, r2) := NextField(r1);
      var (blockHashHex, r3) := NextField(r2);
      var (approveStr, r4) := NextField(r3);
      if |blockHashHex| == 64 {
        var blockHash := ReadHash(blockHashHex);
        if blockHash.None? {
          LoadStuck(lines, i + 1);
          return None;
        }
        tables := Enter(tables, kind, Vote(voterId, blockHash.value, approveStr == "1"));
      }
    }
    assert lines[..|lines|] == lines;
    LoadedFiled(lines);
    return Some(tables);
  }
}
