/** One node's consensus state machine (consensus/pbft.cpp), with the callbacks that main.cpp gives it.

    The broadcast callback hands every vote straight back to the handlers, so the handlers nest.
    `Handle` describes one message, `After` a whole run; the class is proved against them.
 */
module Pbft {
  import opened Bits
  import opened Blocks
  import opened Hex
  import opened Merkle
  import StoreFormat
  import opened Votes
  import opened Wrappers

  /** `PRE_PREPARE` is never entered. */
  datatype Phase = Idle | Prepare | Commit | Finalized

  /** A call of the finalisation callback, with the commit list at that moment. */
  datatype Decision = Decision(block: Block, commits: seq<Vote>)

  datatype Config = Config(h: HashFunction, nodeId: string, validators: seq<string>)

  /** The end of the chain: the height that is expected next, and hash and time of the last block. */
  datatype Tip = Tip(height: u64, prevHash: Hash, lastBlockTime: u64)

  /** The fields of a node, its vote file, the messages it sent, the callbacks it made, and the chain
      that the finalisation callback extends. */
  datatype Node = Node(
    phase: Phase, votes: Tables, pendingBlocks: map<Hash, Block>, file: string,
    sent: seq<(Vote, string)>, decisions: seq<Decision>, tip: Tip, chain: seq<Block>)

  datatype Event = Proposal(block: Block) | PrepareVote(vote: Vote) | CommitVote(vote: Vote)

  function QuorumSize(c: Config): nat
  {
    |c.validators| * 2 / 3 + 1
  }

  predicate HasQuorum(c: Config, t: VoteTable, k: Hash)
  {
    k in t && |t[k]| >= QuorumSize(c)
  }

  function Persist(n: Node, kind: string, v: Vote): Node
  {
    n.(file := n.file + (VoteLine(kind, v) + "\n"))
  }

  function PushPrepare(n: Node, v: Vote): Node
  {
    n.(votes := n.votes.(prepare := Push(n.votes.prepare, v)))
  }

  function PushCommit(n: Node, v: Vote): Node
  {
    n.(votes := n.votes.(commit := Push(n.votes.commit, v)))
  }

  /** The tip after a block. */
  function TipAfter(c: Config, b: Block): Tip
  {
    Tip((b.header.height + 1) % TWO64, BlockHash(c.h, b), b.header.timestamp)
  }

  /** The finalisation callback. */
  function Decide(c: Config, n: Node, d: Decision): Node
  {
    var n1 := n.(decisions := n.decisions + [d]);
    if d.block.header.height >= n.tip.height
    then n1.(chain := n.chain + [d.block], tip := TipAfter(c, d.block))
    else n1
  }

  function Finalize(c: Config, n: Node, k: Hash): Node
  {
    var n1 := if k !in n.pendingBlocks then n
              else Decide(c, n, Decision(n.pendingBlocks[k], VotesFor(n.votes.commit, k)));
    n1.(votes := Tables(n1.votes.prepare - {k}, n1.votes.commit - {k}),
        pendingBlocks := n1.pendingBlocks - {k},
        phase := Idle)
  }

  function HandleCommit(c: Config, n: Node, v: Vote): Node
  {
    var n1 := PushCommit(Persist(n, "COMMIT", v), v);
    if HasQuorum(c, n1.votes.commit, v.blockHash) && n1.phase == Commit then Finalize(c, n1, v.blockHash) else n1
  }

  function HandlePrepare(c: Config, n: Node, v: Vote): Node
  {
    var n1 := PushPrepare(Persist(n, "PREPARE", v), v);
    if HasQuorum(c, n1.votes.prepare, v.blockHash) && n1.phase == Prepare then
      var own := Vote(c.nodeId, v.blockHash, true);
      var n2 := PushCommit(Persist(n1.(phase := Commit), "COMMIT", own), own);
      HandleCommit(c, n2.(sent := n2.sent + [(own, "COMMIT")]), own)
    else n1
  }

  function HandleProposal(c: Config, n: Node, b: Block): Node
  {
    var own := Vote(c.nodeId, BlockHash(c.h, b), true);
    var n1 := PushPrepare(n.(phase := Prepare, pendingBlocks := n.pendingBlocks[own.blockHash := b]), own);
    HandlePrepare(c, n1.(sent := n1.sent + [(own, "PREPARE")]), own)
  }

  function Handle(c: Config, n: Node, e: Event): Node
  {
    match e
    case Proposal(b) => HandleProposal(c, n, b)
    case PrepareVote(v) => HandlePrepare(c, n, v)
    case CommitVote(v) => HandleCommit(c, n, v)
  }

  /* ---- runs ---- */

  function After(c: Config, n: Node, es: seq<Event>): Node
  {
    if es == [] then n else Handle(c, After(c, n, es[..|es| - 1]), es[|es| - 1])
  }

  /** The blocks pre-prepared in a run, in order. */
  function Proposed(es: seq<Event>): seq<Block>
  {
    if es == [] then []
    else
      var last := es[|es| - 1];
      Proposed(es[..|es| - 1]) + if last.Proposal? then [last.block] else []
  }

  /** A node after a start or restart, with the votes that it loaded. */
  ghost predicate Started(n: Node)
  {
    && n.phase == Idle && n.pendingBlocks == map[] && n.decisions == [] && n.chain == []
    && Filed(n.votes.commit)
  }

  /** The block of a decision was pre-prepared, and enough commit votes for it were listed. */
  ghost predicate Justified(c: Config, d: Decision, blocks: seq<Block>)
  {
    && d.block in blocks
    && |d.commits| >= QuorumSize(c)
    && forall v :: v in d.commits ==> v.blockHash == BlockHash(c.h, d.block)
  }

  ghost predicate Invariant(c: Config, n: Node, blocks: seq<Block>)
  {
    && n.phase != Finalized
    && |n.decisions| + (if n.phase == Idle then 0 else 1) <= |blocks|
    && (forall k :: k in n.pendingBlocks ==> n.pendingBlocks[k] in blocks && BlockHash(c.h, n.pendingBlocks[k]) == k)
    && (forall d :: d in n.decisions ==> Justified(c, d, blocks))
    && Filed(n.votes.commit)
  }

  lemma CommitKeeps(c: Config, n: Node, v: Vote, blocks: seq<Block>)
    requires Invariant(c, n, blocks)
    ensures Invariant(c, HandleCommit(c, n, v), blocks)
  {
    hide QuorumSize, VoteLine, BlockHash;
    var n1 := PushCommit(Persist(n, "COMMIT", v), v);
    assert Filed(n1.votes.commit);
    if HasQuorum(c, n1.votes.commit, v.blockHash) && n1.phase == Commit && v.blockHash in n.pendingBlocks {
      var d := Decision(n1.pendingBlocks[v.blockHash], n1.votes.commit[v.blockHash]);
      assert Justified(c, d, blocks);
    }
  }

  lemma PrepareKeeps(c: Config, n: Node, v: Vote, blocks: seq<Block>)
    requires Invariant(c, n, blocks)
    ensures Invariant(c, HandlePrepare(c, n, v), blocks)
  {
    hide QuorumSize, VoteLine, BlockHash, HandleCommit;
    var n1 := PushPrepare(Persist(n, "PREPARE", v), v);
    if HasQuorum(c, n1.votes.prepare, v.blockHash) && n1.phase == Prepare {
      var own := Vote(c.nodeId, v.blockHash, true);
      var n2 := PushCommit(Persist(n1.(phase := Commit), "COMMIT", own), own);
      CommitKeeps(c, n2.(sent := n2.sent + [(own, "COMMIT")]), own, blocks);
    }
  }

  lemma ProposalKeeps(c: Config, n: Node, b: Block, blocks: seq<Block>)
    requires Invariant(c, n, blocks)
    ensures Invariant(c, HandleProposal(c, n, b), blocks + [b])
  {
    hide QuorumSize, VoteLine, BlockHash, HandlePrepare;
    var own := Vote(c.nodeId, BlockHash(c.h, b), true);
    var n1 := PushPrepare(n.(phase := Prepare, pendingBlocks := n.pendingBlocks[own.blockHash := b]), own);
    PrepareKeeps(c, n1.(sent := n1.sent + [(own, "PREPARE")]), own, blocks + [b]);
  }

  /** After every run from a start: no more callbacks than pre-prepared blocks, and every callback was
      for a block pre-prepared before, under its own hash, with a quorum of listed commit votes. */
  lemma {:induction false} EveryRunSafe(c: Config, n: Node, es: seq<Event>)
    requires Started(n)
    ensures Invariant(c, After(c, n, es), Proposed(es))
    ensures |After(c, n, es).decisions| <= |Proposed(es)|
  {
    hide HandleProposal, HandlePrepare, HandleCommit;
    if es != [] {
      var front, last := es[..|es| - 1], es[|es| - 1];
      EveryRunSafe(c, n, front);
      var m := After(c, n, front);
      match last
      case Proposal(b) => ProposalKeeps(c, m, b, Proposed(front));
      case PrepareVote(v) => PrepareKeeps(c, m, v, Proposed(front));
      case CommitVote(v) => CommitKeeps(c, m, v, Proposed(front));
    }
  }

  /** What one message does to the list of decisions. */
  lemma DecisionsGrow(c: Config, n: Node, e: Event)
    ensures n.decisions <= Handle(c, n, e).decisions
    ensures |Handle(c, n, e).decisions| <= |n.decisions| + 1
  {
    hide QuorumSize, VoteLine, BlockHash, Push;
  }

  /** Exactly when a proposal is finalised before `onPrePrepare` returns: its own votes count twice. */
  lemma FinalisedAtOnce(c: Config, n: Node, b: Block)
    ensures var k := BlockHash(c.h, b);
            |HandleProposal(c, n, b).decisions| > |n.decisions| <==>
            (|VotesFor(n.votes.prepare, k)| + 2 >= QuorumSize(c) && |VotesFor(n.votes.commit, k)| + 2 >= QuorumSize(c))
  {
    hide QuorumSize, VoteLine, BlockHash;
  }

  /** Without earlier votes that means one or two validators. */
  lemma AloneFinalisesAtOnce(c: Config, n: Node, b: Block)
    requires VotesFor(n.votes.prepare, BlockHash(c.h, b)) == [] && VotesFor(n.votes.commit, BlockHash(c.h, b)) == []
    ensures |HandleProposal(c, n, b).decisions| > |n.decisions| <==> |c.validators| <= 2
  {
    hide HandleProposal, BlockHash, VotesFor;
    FinalisedAtOnce(c, n, b);
  }

  /* ---- quorums and steps in figures ---- */

  /** More than two thirds of the validators, counted in votes. */
  predicate TwoThirds(c: Config, votes: int)
  {
    3 * votes > 2 * |c.validators|
  }

  lemma QuorumIsTwoThirds(c: Config, t: VoteTable, k: Hash)
    ensures HasQuorum(c, t, k) <==> k in t && TwoThirds(c, |t[k]|)
  {
  }

  /** In every run, every decision was made with commit votes numbering more than two thirds of the
      validators, all of them for the hash of its block, which had been pre-prepared. */
  lemma EveryDecisionHasTwoThirds(c: Config, n: Node, es: seq<Event>, d: Decision)
    requires Started(n) && d in After(c, n, es).decisions
    ensures 3 * |d.commits| > 2 * |c.validators|
    ensures d.block in Proposed(es) && forall v :: v in d.commits ==> v.blockHash == BlockHash(c.h, d.block)
  {
    hide After, Proposed, BlockHash;
    EveryRunSafe(c, n, es);
    QuorumIsTwoThirds(c, map[BlockHash(c.h, d.block) := d.commits], BlockHash(c.h, d.block));
  }

  /** One vote more for one hash. */
  predicate OneMore(t: VoteTable, t': VoteTable, v: Vote)
  {
    && v.blockHash in t' && t'[v.blockHash] == VotesFor(t, v.blockHash) + [v]
    && t'.Keys == t.Keys + {v.blockHash}
    && forall k :: k in t && k != v.blockHash ==> t'[k] == t[k]
  }

  /** No votes for a hash are left. */
  predicate Dropped(t: VoteTable, t': VoteTable, k: Hash)
  {
    t'.Keys == t.Keys - {k} && forall j :: j in t' ==> t'[j] == t[j]
  }

  /** What a finalised block does to the chain: it extends it, unless it is lower than expected. */
  predicate Extends(c: Config, n: Node, m: Node, b: Block)
  {
    if b.header.height < n.tip.height then m.chain == n.chain && m.tip == n.tip
    else
      && m.chain == n.chain + [b]
      && m.tip.height == (if b.header.height < TWO64 - 1 then b.header.height + 1 else 0)
      && m.tip.prevHash == BlockHash(c.h, b) && m.tip.lastBlockTime == b.header.timestamp
  }

  /** A commit vote is persisted and counted.  In the commit phase, with more than two thirds, the block is
      decided if it is pending, whatever was there for its hash is dropped, and the node is idle. */
  lemma CommitEffect(c: Config, n: Node, v: Vote)
    ensures var m, k := HandleCommit(c, n, v), v.blockHash;
            var votes := VotesFor(n.votes.commit, k) + [v];
            && m.file == n.file + VoteLine("COMMIT", v) + "\n" && m.sent == n.sent
            && if n.phase == Commit && TwoThirds(c, |votes|) then
                 && m.phase == Idle && m.pendingBlocks == n.pendingBlocks - {k}
                 && Dropped(n.votes.prepare, m.votes.prepare, k) && Dropped(n.votes.commit, m.votes.commit, k)
                 && if k in n.pendingBlocks then
                      m.decisions == n.decisions + [Decision(n.pendingBlocks[k], votes)]
                      && Extends(c, n, m, n.pendingBlocks[k])
                    else m.decisions == n.decisions && m.chain == n.chain && m.tip == n.tip
               else
                 && OneMore(n.votes.commit, m.votes.commit, v) && m.votes.prepare == n.votes.prepare
                 && m == n.(file := m.file, votes := m.votes)
  {
    hide VoteLine, BlockHash, OneMore, TwoThirds;
    QuorumIsTwoThirds(c, Push(n.votes.commit, v), v.blockHash);
    PushedIs(n.votes.commit, v);
  }

  lemma PushedIs(t: VoteTable, v: Vote)
    ensures OneMore(t, Push(t, v), v)
  {
  }

  /** A prepare vote is persisted and counted, and nothing else unless that is a quorum in the prepare phase. */
  lemma PrepareEffect(c: Config, n: Node, v: Vote)
    requires n.phase != Prepare || !TwoThirds(c, |VotesFor(n.votes.prepare, v.blockHash)| + 1)
    ensures var m := HandlePrepare(c, n, v);
            && OneMore(n.votes.prepare, m.votes.prepare, v) && m.votes.commit == n.votes.commit
            && m.file == n.file + VoteLine("PREPARE", v) + "\n"
            && m == n.(file := m.file, votes := m.votes)
  {
    hide VoteLine, HandleCommit, OneMore;
    QuorumIsTwoThirds(c, Push(n.votes.prepare, v), v.blockHash);
    PushedIs(n.votes.prepare, v);
  }

  /** With more than two thirds the node enters the commit phase and sends a commit vote of its own, which it
      counts once itself and handles once more as a message. */
  lemma PrepareQuorumEffect(c: Config, n: Node, v: Vote) returns (n': Node)
    requires n.phase == Prepare && TwoThirds(c, |VotesFor(n.votes.prepare, v.blockHash)| + 1)
    ensures var own := Vote(c.nodeId, v.blockHash, true);
            && HandlePrepare(c, n, v) == HandleCommit(c, n', own)
            && OneMore(n.votes.prepare, n'.votes.prepare, v) && OneMore(n.votes.commit, n'.votes.commit, own)
            && n'.file == n.file + VoteLine("PREPARE", v) + "\n" + VoteLine("COMMIT", own) + "\n"
            && n'.sent == n.sent + [(own, "COMMIT")]
            && n' == n.(phase := Commit, votes := n'.votes, file := n'.file, sent := n'.sent)
  {
    hide VoteLine, HandleCommit, OneMore, Push;
    QuorumIsTwoThirds(c, Push(n.votes.prepare, v), v.blockHash);
    PushedIs(n.votes.prepare, v);
    var own := Vote(c.nodeId, v.blockHash, true);
    PushedIs(n.votes.commit, own);
    PushCounts(n.votes.prepare, v);
    var n1 := PushPrepare(Persist(n, "PREPARE", v), v);
    var n2 := PushCommit(Persist(n1.(phase := Commit), "COMMIT", own), own);
    n' := n2.(sent := n2.sent + [(own, "COMMIT")]);
  }

  lemma PushCounts(t: VoteTable, v: Vote)
    ensures v.blockHash in Push(t, v) && |Push(t, v)[v.blockHash]| == |VotesFor(t, v.blockHash)| + 1
  {
  }

  /** A proposal becomes pending under its hash in whatever phase the node is, which enters the prepare phase,
      and sends a prepare vote of its own, counted once itself and handled once more as a message. */
  lemma ProposalEffect(c: Config, n: Node, b: Block) returns (n': Node)
    ensures var own := Vote(c.nodeId, BlockHash(c.h, b), true);
            && HandleProposal(c, n, b) == HandlePrepare(c, n', own)
            && OneMore(n.votes.prepare, n'.votes.prepare, own) && n'.votes.commit == n.votes.commit
            && n' == n.(phase := Prepare, pendingBlocks := n.pendingBlocks[own.blockHash := b], votes := n'.votes,
                        sent := n.sent + [(own, "PREPARE")])
  {
    hide HandlePrepare, BlockHash, OneMore;
    var own := Vote(c.nodeId, BlockHash(c.h, b), true);
    PushedIs(n.votes.prepare, own);
    var n1 := PushPrepare(n.(phase := Prepare, pendingBlocks := n.pendingBlocks[own.blockHash := b]), own);
    n' := n1.(sent := n1.sent + [(own, "PREPARE")]);
  }

  /* ---- the chain ---- */

  /** Hash and time of the tip are those of the last block of the chain. */
  predicate AtTip(c: Config, n: Node)
  {
    n.chain != [] ==> n.tip == TipAfter(c, n.chain[|n.chain| - 1])
  }

  /** Heights grow along the chain, and stay below the height that is expected next. */
  ghost predicate Ascending(n: Node)
  {
    && (forall i, j :: 0 <= i < j < |n.chain| ==> n.chain[i].header.height < n.chain[j].header.height)
    && (forall i :: 0 <= i < |n.chain| ==> n.chain[i].header.height < n.tip.height)
  }

  ghost predicate BelowTop(n: Node)
  {
    forall k :: k in n.pendingBlocks ==> n.pendingBlocks[k].header.height < TWO64 - 1
  }

  lemma CommitAscends(c: Config, n: Node, v: Vote)
    requires Ascending(n) && BelowTop(n)
    ensures Ascending(HandleCommit(c, n, v)) && BelowTop(HandleCommit(c, n, v))
  {
    hide HasQuorum, VoteLine, Push, Finalize, Ascending, BelowTop;
    var n1 := PushCommit(Persist(n, "COMMIT", v), v);
    SameChain(n, n1);
    FinalizeAscends(c, n1, v.blockHash);
  }

  lemma SameChain(n: Node, m: Node)
    requires n.chain == m.chain && n.tip == m.tip && n.pendingBlocks == m.pendingBlocks
    ensures Ascending(n) == Ascending(m) && BelowTop(n) == BelowTop(m)
  {
  }

  lemma FinalizeAscends(c: Config, n: Node, k: Hash)
    ensures Ascending(n) && BelowTop(n) ==> Ascending(Finalize(c, n, k)) && BelowTop(Finalize(c, n, k))
  {
    hide VotesFor, BlockHash;
  }

  lemma PrepareAscends(c: Config, n: Node, v: Vote)
    requires Ascending(n) && BelowTop(n)
    ensures Ascending(HandlePrepare(c, n, v)) && BelowTop(HandlePrepare(c, n, v))
  {
    hide HasQuorum, VoteLine, Push, HandleCommit;
    var n1 := PushPrepare(Persist(n, "PREPARE", v), v);
    if HasQuorum(c, n1.votes.prepare, v.blockHash) && n1.phase == Prepare {
      var own := Vote(c.nodeId, v.blockHash, true);
      var n2 := PushCommit(Persist(n1.(phase := Commit), "COMMIT", own), own);
      CommitAscends(c, n2.(sent := n2.sent + [(own, "COMMIT")]), own);
    }
  }

  lemma HandleAscends(c: Config, n: Node, e: Event)
    requires Ascending(n) && BelowTop(n) && (e.Proposal? ==> e.block.header.height < TWO64 - 1)
    ensures Ascending(Handle(c, n, e)) && BelowTop(Handle(c, n, e))
  {
    hide BlockHash, Push, HandlePrepare, HandleCommit;
    match e
    case Proposal(b) =>
      var own := Vote(c.nodeId, BlockHash(c.h, b), true);
      var n1 := PushPrepare(n.(phase := Prepare, pendingBlocks := n.pendingBlocks[own.blockHash := b]), own);
      PrepareAscends(c, n1.(sent := n1.sent + [(own, "PREPARE")]), own);
    case PrepareVote(v) => PrepareAscends(c, n, v);
    case CommitVote(v) => CommitAscends(c, n, v);
  }

  /** The chain of every run ascends, unless a block has the largest height there is. */
  lemma {:induction false} ChainAscends(c: Config, n: Node, es: seq<Event>)
    requires Started(n) && forall b :: b in Proposed(es) ==> b.header.height < TWO64 - 1
    ensures Ascending(After(c, n, es)) && BelowTop(After(c, n, es))
  {
    hide Handle;
    if es != [] {
      ChainAscends(c, n, es[..|es| - 1]);
      HandleAscends(c, After(c, n, es[..|es| - 1]), es[|es| - 1]);
    }
  }

  /* ---- proposals from the network ---- */

  /** A block from the network is ignored unless it has the height that is expected next; the leader's own
      proposals have it. */
  function Receive(c: Config, n: Node, e: Event): Node
  {
    if e.Proposal? && e.block.header.height != n.tip.height then n else Handle(c, n, e)
  }

  function AfterReceiving(c: Config, n: Node, es: seq<Event>): Node
  {
    if es == [] then n else Receive(c, AfterReceiving(c, n, es[..|es| - 1]), es[|es| - 1])
  }

  /** The chain counts up from a height, pending blocks are not above the height expected next, and the
      tip is that of the last block. */
  ghost predicate CountsUp(c: Config, n: Node, start: nat)
  {
    && (forall i :: 0 <= i < |n.chain| ==> n.chain[i].header.height == start + i)
    && n.tip.height == start + |n.chain|
    && (forall k :: k in n.pendingBlocks ==> n.pendingBlocks[k].header.height <= n.tip.height)
    && AtTip(c, n)
  }

  lemma CommitCountsUp(c: Config, n: Node, v: Vote, start: nat)
    requires CountsUp(c, n, start) && n.tip.height < TWO64 - 1
    ensures CountsUp(c, HandleCommit(c, n, v), start)
    ensures |HandleCommit(c, n, v).chain| <= |n.chain| + 1
  {
    hide HasQuorum, VoteLine, Push, VotesFor, BlockHash;
  }

  lemma PrepareCountsUp(c: Config, n: Node, v: Vote, start: nat)
    requires CountsUp(c, n, start) && n.tip.height < TWO64 - 1
    ensures CountsUp(c, HandlePrepare(c, n, v), start)
    ensures |HandlePrepare(c, n, v).chain| <= |n.chain| + 1
  {
    hide HasQuorum, VoteLine, Push, HandleCommit, TipAfter;
    var n1 := PushPrepare(Persist(n, "PREPARE", v), v);
    if HasQuorum(c, n1.votes.prepare, v.blockHash) && n1.phase == Prepare {
      var own := Vote(c.nodeId, v.blockHash, true);
      var n2 := PushCommit(Persist(n1.(phase := Commit), "COMMIT", own), own);
      CommitCountsUp(c, n2.(sent := n2.sent + [(own, "COMMIT")]), own, start);
    }
  }

  lemma ReceiveCountsUp(c: Config, n: Node, e: Event, start: nat)
    requires CountsUp(c, n, start) && n.tip.height < TWO64 - 1
    ensures CountsUp(c, Receive(c, n, e), start)
    ensures |Receive(c, n, e).chain| <= |n.chain| + 1
  {
    hide BlockHash, Push, HandlePrepare, HandleCommit, TipAfter;
    match e
    case Proposal(b) =>
      if b.header.height == n.tip.height {
        var own := Vote(c.nodeId, BlockHash(c.h, b), true);
        var n1 := PushPrepare(n.(phase := Prepare, pendingBlocks := n.pendingBlocks[own.blockHash := b]), own);
        PrepareCountsUp(c, n1.(sent := n1.sent + [(own, "PREPARE")]), own, start);
      }
    case PrepareVote(v) => PrepareCountsUp(c, n, v, start);
    case CommitVote(v) => CommitCountsUp(c, n, v, start);
  }

  /** With proposals taken at the expected height only, the heights along the chain of every run are
      consecutive, and the tip is that of the last block. */
  lemma {:induction false} ChainCountsUp(c: Config, n: Node, es: seq<Event>)
    requires Started(n) && n.tip.height + |es| < TWO64
    ensures CountsUp(c, AfterReceiving(c, n, es), n.tip.height)
    ensures |AfterReceiving(c, n, es).chain| <= |es|
  {
    hide Receive, CountsUp;
    if es != [] {
      var m := AfterReceiving(c, n, es[..|es| - 1]);
      ChainCountsUp(c, n, es[..|es| - 1]);
      TipOf(c, m, n.tip.height);
      ReceiveCountsUp(c, m, es[|es| - 1], n.tip.height);
    } else {
      StartCountsUp(c, n);
    }
  }

  lemma TipOf(c: Config, n: Node, start: nat)
    requires CountsUp(c, n, start)
    ensures n.tip.height == start + |n.chain|
  {
  }

  lemma StartCountsUp(c: Config, n: Node)
    requires Started(n)
    ensures CountsUp(c, n, n.tip.height)
  {
  }

  /* ---- leaders ---- */

  /** The validator that leads a round. */
  function LeaderOf(validators: seq<string>, round: u64): string
  {
    if validators == [] then "" else validators[round % |validators|]
  }

  /** The leaders of n rounds from one on. */
  function Leaders(validators: seq<string>, start: u64, n: nat): (leaders: seq<string>)
    requires start + n <= TWO64
    ensures |leaders| == n
    ensures forall k :: 0 <= k < n ==> leaders[k] == LeaderOf(validators, start + k)
  {
    if n == 0 then [] else Leaders(validators, start, n - 1) + [LeaderOf(validators, start + n - 1)]
  }

  /** Validators lead in turn: over as many rounds as there are validators, as long as rounds do not wrap,
      the leaders are the list, begun at the position of the first round, so that each name leads as often
      as it is listed. */
  lemma LeadInTurn(validators: seq<string>, start: u64)
    requires validators != [] && start + |validators| <= TWO64
    ensures var s := start % |validators|;
            Leaders(validators, start, |validators|) == validators[s..] + validators[..s]
    ensures multiset(Leaders(validators, start, |validators|)) == multiset(validators)
  {
    var n, s := |validators|, start % |validators|;
    var leaders, turned := Leaders(validators, start, n), validators[s..] + validators[..s];
    forall k | 0 <= k < n
      ensures leaders[k] == turned[k]
    {
      OneTurn(n, start, k);
    }
    assert validators == validators[..s] + validators[s..];
    assert leaders == turned;
  }

  lemma OneTurn(n: nat, start: nat, k: nat)
    requires k < n
    ensures var s := start % n; (start + k) % n == if s + k < n then s + k else s + k - n
  {
    var q, s := start / n, start % n;
    DivModEq(start, n);
    assert start == n * q + s;
    AddMultiple(s + k, n, q);
    assert s + k + q * n == start + k;
    if s + k < n {
      DivModUnique(s + k, n, 0, s + k);
    } else {
      DivModUnique(s + k, n, 1, s + k - n);
    }
  }

  /* ---- restarts ---- */

  predicate Suffix(a: seq<Vote>, b: seq<Vote>)
  {
    |a| <= |b| && a == b[|b| - |a|..]
  }

  /** Reading the file back would give every commit vote that the node has, in the same order. */
  ghost predicate Recorded(n: Node)
  {
    && Whole(n.file) && LoadedVotes(n.file).Some?
    && forall k :: Suffix(VotesFor(n.votes.commit, k), VotesFor(LoadedVotes(n.file).value.commit, k))
  }

  lemma PersistPrepare(n: Node, v: Vote)
    requires Recorded(n) && Plain(v.voterId)
    ensures Recorded(PushPrepare(Persist(n, "PREPARE", v), v))
  {
    hide LoadedVotes, VoteLine;
    LoadAppend(n.file, "PREPARE", v);
  }

  lemma PersistCommit(n: Node, v: Vote)
    requires Recorded(n) && Plain(v.voterId)
    ensures Recorded(PushCommit(Persist(n, "COMMIT", v), v))
  {
    hide LoadedVotes, VoteLine;
    LoadAppend(n.file, "COMMIT", v);
    hide Suffix, VotesFor, Push, Whole;
    var m := PushCommit(Persist(n, "COMMIT", v), v);
    forall k
      ensures Suffix(VotesFor(m.votes.commit, k), VotesFor(LoadedVotes(m.file).value.commit, k))
    {
      assert Suffix(VotesFor(n.votes.commit, k), VotesFor(LoadedVotes(n.file).value.commit, k));
      PushedBoth(n.votes.commit, LoadedVotes(n.file).value.commit, v, k);
    }
  }

  lemma PushedBoth(a: VoteTable, b: VoteTable, v: Vote, k: Hash)
    requires Suffix(VotesFor(a, k), VotesFor(b, k))
    ensures Suffix(VotesFor(Push(a, v), k), VotesFor(Push(b, v), k))
  {
    var x, y := VotesFor(a, k), VotesFor(b, k);
    if k == v.blockHash {
      assert (y + [v])[|y| - |x|..] == y[|y| - |x|..] + [v];
    }
  }

  /** Forgetting votes loses none that the node still counts. */
  lemma FinalizeRecords(c: Config, n: Node, k: Hash)
    requires Recorded(n)
    ensures Recorded(Finalize(c, n, k))
  {
    hide LoadedVotes, Suffix, VotesFor, Whole;
    var m := Finalize(c, n, k);
    assert m.file == n.file && m.votes.commit == n.votes.commit - {k};
    forall j
      ensures Suffix(VotesFor(m.votes.commit, j), VotesFor(LoadedVotes(m.file).value.commit, j))
    {
      var recorded := VotesFor(LoadedVotes(n.file).value.commit, j);
      assert Suffix(VotesFor(n.votes.commit, j), recorded);
      Forgotten(n.votes.commit, k, j, recorded);
    }
  }

  lemma Forgotten(t: VoteTable, k: Hash, j: Hash, recorded: seq<Vote>)
    requires Suffix(VotesFor(t, j), recorded)
    ensures Suffix(VotesFor(t - {k}, j), recorded)
  {
  }

  lemma CommitRecords(c: Config, n: Node, v: Vote)
    requires Recorded(n) && Plain(v.voterId)
    ensures Recorded(HandleCommit(c, n, v))
  {
    hide LoadedVotes, VoteLine, HasQuorum, Finalize, Persist, PushCommit, Recorded;
    PersistCommit(n, v);
    FinalizeRecords(c, PushCommit(Persist(n, "COMMIT", v), v), v.blockHash);
  }

  lemma PrepareRecords(c: Config, n: Node, v: Vote)
    requires Recorded(n) && Plain(v.voterId) && Plain(c.nodeId)
    ensures Recorded(HandlePrepare(c, n, v))
  {
    hide LoadedVotes, VoteLine, HasQuorum, HandleCommit, Persist, PushPrepare, PushCommit;
    PersistPrepare(n, v);
    var n1 := PushPrepare(Persist(n, "PREPARE", v), v);
    if HasQuorum(c, n1.votes.prepare, v.blockHash) && n1.phase == Prepare {
      var own := Vote(c.nodeId, v.blockHash, true);
      PersistCommit(n1.(phase := Commit), own);
      var n2 := PushCommit(Persist(n1.(phase := Commit), "COMMIT", own), own);
      CommitRecords(c, n2.(sent := n2.sent + [(own, "COMMIT")]), own);
    }
  }

  ghost predicate PlainVoter(e: Event)
  {
    e.Proposal? || Plain(e.vote.voterId)
  }

  /** After every run, restarting would lose none of the commit votes that the node counts. */
  lemma {:induction false} RestartKeepsCommits(c: Config, n: Node, es: seq<Event>)
    requires Recorded(n) && Plain(c.nodeId) && forall e :: e in es ==> PlainVoter(e)
    ensures Recorded(After(c, n, es))
  {
    hide LoadedVotes, HandlePrepare, HandleCommit, Plain;
    if es != [] {
      var front, last := es[..|es| - 1], es[|es| - 1];
      RestartKeepsCommits(c, n, front);
      assert PlainVoter(last);
      var m := After(c, n, front);
      match last
      case Proposal(b) =>
        var own := Vote(c.nodeId, BlockHash(c.h, b), true);
        var n1 := PushPrepare(m.(phase := Prepare, pendingBlocks := m.pendingBlocks[own.blockHash := b]), own);
        PrepareRecords(c, n1.(sent := n1.sent + [(own, "PREPARE")]), own);
      case PrepareVote(v) => PrepareRecords(c, m, v);
      case CommitVote(v) => CommitRecords(c, m, v);
    }
  }

  /* ---- the object ---- */

  class PBFT {
    const config: Config
    var state: Phase
    var prepareVotes: VoteTable
    var commitVotes: VoteTable
    var pendingBlocks: map<Hash, Block>
    var consensusDb: string

    // Captured by the callbacks.
    var sent: seq<(Vote, string)>
    var height: u64
    var prevHash: Hash
    var lastBlockTime: u64
    var chain: seq<Block>
    ghost var decisions: seq<Decision>

    ghost function Value(): Node
      reads this
    {
      Node(state, Tables(prepareVotes, commitVotes), pendingBlocks, consensusDb, sent, decisions,
           Tip(height, prevHash, lastBlockTime), chain)
    }

    /** Starts from the votes loaded from a file and the end of the chain. */
    constructor (config: Config, file: string, loaded: Tables, tip: Tip)
      requires LoadedVotes(file) == Some(loaded)
      ensures this.config == config && Started(Value())
      ensures Value() == Node(Idle, loaded, map[], file, [], [], tip, [])
      ensures Whole(file) ==> Recorded(Value())
    {
      this.config := config;
      state, prepareVotes, commitVotes, pendingBlocks := Idle, loaded.prepare, loaded.commit, map[];
      consensusDb, sent, decisions, chain := file, [], [], [];
      height, prevHash, lastBlockTime := tip.height, tip.prevHash, tip.lastBlockTime;
      new;
      LoadedFiled(StoreFormat.Lines(file));
    }

    /** The validator at the position of the round. */
    method GetLeader(round: u64) returns (leader: string)
      ensures leader == LeaderOf(config.validators, round)
    {
      if config.validators == [] {
        return "";
      }
      return config.validators[round % |config.validators|];
    }

    method IsLeader(round: u64) returns (r: bool)
      ensures r <==> LeaderOf(config.validators, round) == config.nodeId
    {
      var leader := GetLeader(round);
      return leader == config.nodeId;
    }

    method PersistVote(voteType: string, vote: Vote)
      modifies this`consensusDb
      ensures Value() == Persist(old(Value()), voteType, vote)
    {
      hide HexText;
      var hex := ToHex(vote.blockHash);
      var approve := if vote.approve then "1" else "0";
      consensusDb := consensusDb + (voteType + "|" + (vote.voterId + "|" + (hex + "|" + approve)) + "\n");
    }

    method HasPrepareQuorum(blockHash: Hash) returns (r: bool)
      ensures r <==> HasQuorum(config, prepareVotes, blockHash)
      ensures r <==> blockHash in prepareVotes && 3 * |prepareVotes[blockHash]| > 2 * |config.validators|
    {
      QuorumIsTwoThirds(config, prepareVotes, blockHash);
      if blockHash !in prepareVotes {
        return false;
      }
      return |prepareVotes[blockHash]| >= |config.validators| * 2 / 3 + 1;
    }

    method HasCommitQuorum(blockHash: Hash) returns (r: bool)
      ensures r <==> HasQuorum(config, commitVotes, blockHash)
      ensures r <==> blockHash in commitVotes && 3 * |commitVotes[blockHash]| > 2 * |config.validators|
    {
      QuorumIsTwoThirds(config, commitVotes, blockHash);
      if blockHash !in commitVotes {
        return false;
      }
      return |commitVotes[blockHash]| >= |config.validators| * 2 / 3 + 1;
    }

    /** The broadcast callback: sends the vote and hands it back to this node. */
    method BroadcastVote(vote: Vote, voteType: string)
      modifies this
      ensures var n := old(Value()).(sent := old(sent) + [(vote, voteType)]);
              Value() == if voteType == "PREPARE" then HandlePrepare(config, n, vote)
                         else if voteType == "COMMIT" then HandleCommit(config, n, vote)
                         else n
      decreases if voteType == "PREPARE" then 3 else 1
    {
      hide HandlePrepare, HandleCommit;
      sent := sent + [(vote, voteType)];
      if voteType == "PREPARE" {
        OnPrepare(vote);
      } else if voteType == "COMMIT" {
        OnCommit(vote);
      }
    }

    /** The finalisation callback: extends the chain unless the block is too low. */
    method OnBlockFinalized(block: Block, ghost commits: seq<Vote>)
      modifies this`decisions, this`chain, this`height, this`prevHash, this`lastBlockTime
      ensures Value() == Decide(config, old(Value()), Decision(block, commits))
    {
      hide BlockHash;
      decisions := decisions + [Decision(block, commits)];
      if block.header.height >= height {
        chain := chain + [block];
        height := (block.header.height + 1) % TWO64;
        prevHash := CalculateHash(config.h, block);
        lastBlockTime := block.header.timestamp;
      }
    }

    /** A block from the network. */
    method OnBlockMessage(block: Block)
      modifies this
      ensures Value() == Receive(config, old(Value()), Proposal(block))
    {
      if block.header.height != height {
        return;
      }
      OnPrePrepare(block);
    }

    method OnPrePrepare(block: Block)
      modifies this
      ensures Value() == HandleProposal(config, old(Value()), block)
      decreases 4
    {
      hide HandlePrepare, HandleCommit, BlockHash;
      state := Prepare;
      var blockHash := CalculateHash(config.h, block);
      var vote := Vote(config.nodeId, blockHash, true);
      pendingBlocks := pendingBlocks[blockHash := block];
      prepareVotes := Push(prepareVotes, vote);
      BroadcastVote(vote, "PREPARE");
    }

    method OnPrepare(vote: Vote)
      modifies this
      ensures Value() == HandlePrepare(config, old(Value()), vote)
      decreases 2
    {
      hide HandleCommit, Push, HasQuorum, VoteLine;
      PersistVote("PREPARE", vote);
      prepareVotes := Push(prepareVotes, vote);
      var quorum := HasPrepareQuorum(vote.blockHash);
      if quorum && state == Prepare {
        state := Commit;
        var commitVote := Vote(config.nodeId, vote.blockHash, true);
        PersistVote("COMMIT", commitVote);
        commitVotes := Push(commitVotes, commitVote);
        BroadcastVote(commitVote, "COMMIT");
      }
    }

    method OnCommit(vote: Vote)
      modifies this
      ensures Value() == HandleCommit(config, old(Value()), vote)
      decreases 0
    {
      hide Push, HasQuorum, VoteLine;
      PersistVote("COMMIT", vote);
      commitVotes := Push(commitVotes, vote);
      var quorum := HasCommitQuorum(vote.blockHash);
      if quorum && state == Commit {
        state := Finalized;
        if vote.blockHash in pendingBlocks {
          OnBlockFinalized(pendingBlocks[vote.blockHash], VotesFor(commitVotes, vote.blockHash));
        }
        prepareVotes := prepareVotes - {vote.blockHash};
        commitVotes := commitVotes - {vote.blockHash};
        pendingBlocks := pendingBlocks - {vote.blockHash};
        state := Idle;
      }
    }
  }
}
