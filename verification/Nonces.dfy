/** Sender sequences: the ante handler counts messages, and contract creations write the sequence again. */
module Nonces {
  import opened EvmTypes

  type Sequences = map<Address, uint64>

  datatype Message = Message(sender: Address, nonce: uint64, create: bool)

  function Next(nonce: uint64): uint64 {
    (nonce + 1) % U64
  }

  /** The ante handler on one message: the account must exist and the nonce must be its sequence. */
  function Accept(seqs: Sequences, m: Message): Option<Sequences> {
    if m.sender in seqs && m.nonce == seqs[m.sender] then Some(seqs[m.sender := Next(m.nonce)]) else None
  }

  /** The ante handler on all messages of a transaction. */
  function Ante(seqs: Sequences, msgs: seq<Message>): Option<Sequences> {
    if msgs == [] then Some(seqs)
    else
      var front := Ante(seqs, msgs[..|msgs| - 1]);
      if front.Some? then Accept(front.value, msgs[|msgs| - 1]) else None
  }

  /**
   * Executing a message: a creation leaves the sender's sequence one above the message's nonce, a call leaves it.
   * `Creations.ExecutedIs` derives both from the calls on the StateDB and the commit.
   */
  function ExecuteOne(seqs: Sequences, m: Message): Sequences {
    if m.create then seqs[m.sender := Next(m.nonce)] else seqs
  }

  function Execute(seqs: Sequences, msgs: seq<Message>): Sequences {
    if msgs == [] then seqs else ExecuteOne(Execute(seqs, msgs[..|msgs| - 1]), msgs[|msgs| - 1])
  }

  /** A transaction, and whether all its messages are applied; a failing EVM run counts as applied. */
  datatype Tx = Tx(msgs: seq<Message>, applied: bool)

  /** Delivering a transaction: rejected as a whole by the ante handler, or counted, and then executed if it can be. */
  function Deliver(seqs: Sequences, tx: Tx): Sequences {
    var counted := Ante(seqs, tx.msgs);
    if counted.None? then seqs else if tx.applied then Execute(counted.value, tx.msgs) else counted.value
  }

  /** The sequences as the auth module stores them. */
  class SequenceStore {
    var sequences: Sequences

    constructor (sequences: Sequences)
      ensures this.sequences == sequences
    {
      this.sequences := sequences;
    }

    /** The decorator's loop; when it fails, what it wrote is discarded with the rejected transaction. */
    method IncrementSequences(msgs: seq<Message>) returns (ok: bool)
      modifies this
      ensures ok == Ante(old(sequences), msgs).Some?
      ensures ok ==> sequences == Ante(old(sequences), msgs).value
    {
      for k := 0 to |msgs|
        invariant Ante(old(sequences), msgs[..k]) == Some(sequences)
      {
        assert msgs[..k + 1][..k] == msgs[..k];
        var m := msgs[k];
        if m.sender !in sequences || m.nonce != sequences[m.sender] {
          Rejected(old(sequences), msgs, k + 1);
          return false;
        }
        sequences := sequences[m.sender := Next(m.nonce)];
      }
      assert msgs[..|msgs|] == msgs;
      ok := true;
    }
  }

  lemma {:induction false} Rejected(seqs: Sequences, msgs: seq<Message>, k: nat)
    requires k <= |msgs| && Ante(seqs, msgs[..k]).None?
    ensures Ante(seqs, msgs).None?
    decreases |msgs| - k
  {
    if k == |msgs| {
      assert msgs[..k] == msgs;
    } else {
      assert msgs[..k + 1][..k] == msgs[..k];
      Rejected(seqs, msgs, k + 1);
    }
  }

  // ---- counting a sender's messages ----

  function Count(msgs: seq<Message>, sender: Address): nat {
    if msgs == [] then 0
    else Count(msgs[..|msgs| - 1], sender) + if msgs[|msgs| - 1].sender == sender then 1 else 0
  }

  /** How many of a sender's messages there are up to and including the last creation; all of them without one. */
  function Covered(msgs: seq<Message>, sender: Address): nat {
    if LastCreation(msgs, sender) == 0 then Count(msgs, sender) else LastCreation(msgs, sender)
  }

  /** The number of a sender's messages up to and including the last creation, zero without a creation. */
  function LastCreation(msgs: seq<Message>, sender: Address): nat {
    if msgs == [] then 0
    else
      var m := msgs[|msgs| - 1];
      if m.sender == sender && m.create then Count(msgs, sender) else LastCreation(msgs[..|msgs| - 1], sender)
  }

  lemma {:induction false} LastCreationBounded(msgs: seq<Message>, sender: Address)
    ensures LastCreation(msgs, sender) <= Count(msgs, sender) <= |msgs|
  {
    if msgs != [] {
      LastCreationBounded(msgs[..|msgs| - 1], sender);
    }
  }

  lemma {:induction false} CountGrows(msgs: seq<Message>, sender: Address, k: nat)
    requires k <= |msgs|
    ensures Count(msgs[..k], sender) <= Count(msgs, sender)
  {
    if k == |msgs| {
      assert msgs[..k] == msgs;
    } else {
      CountGrows(msgs[..|msgs| - 1], sender, k);
      assert msgs[..|msgs| - 1][..k] == msgs[..k];
    }
  }

  // ---- what the ante handler does ----

  /** Every message carries its sender's old sequence plus the number of that sender's earlier messages. */
  ghost predicate InStep(seqs: Sequences, msgs: seq<Message>) {
    forall k :: 0 <= k < |msgs| ==> OneInStep(seqs, msgs, k)
  }

  predicate OneInStep(seqs: Sequences, msgs: seq<Message>, k: nat)
    requires k < |msgs|
  {
    var m := msgs[k];
    m.sender in seqs && m.nonce == seqs[m.sender] + Count(msgs[..k], m.sender)
  }

  lemma {:induction false} AnteCounts(seqs: Sequences, msgs: seq<Message>)
    requires forall a :: a in seqs ==> seqs[a] + |msgs| < U64
    requires Ante(seqs, msgs).Some?
    ensures var counted := Ante(seqs, msgs).value;
            && counted.Keys == seqs.Keys
            && (forall a :: a in seqs ==> counted[a] == seqs[a] + Count(msgs, a))
            && InStep(seqs, msgs)
  {
    if msgs != [] {
      var last := |msgs| - 1;
      var front, m := msgs[..last], msgs[last];
      AnteCounts(seqs, front);
      forall a ensures Count(msgs, a) <= |msgs| {
        LastCreationBounded(msgs, a);
      }
      assert m.sender in seqs && m.nonce == seqs[m.sender] + Count(front, m.sender);
      assert Count(msgs, m.sender) == Count(front, m.sender) + 1;
      assert Next(m.nonce) == m.nonce + 1;
      forall k | 0 <= k < |msgs|
        ensures OneInStep(seqs, msgs, k)
      {
        if k < last {
          assert OneInStep(seqs, front, k);
          assert front[k] == msgs[k] && front[..k] == msgs[..k];
        }
      }
    }
  }

  /** The ante handler accepts a transaction exactly when every message carries the next nonce of its sender. */
  lemma {:induction false} AnteIff(seqs: Sequences, msgs: seq<Message>)
    requires forall a :: a in seqs ==> seqs[a] + |msgs| < U64
    ensures Ante(seqs, msgs).Some? <==> InStep(seqs, msgs)
  {
    if Ante(seqs, msgs).Some? {
      AnteCounts(seqs, msgs);
    }
    if InStep(seqs, msgs) && msgs != [] {
      var last := |msgs| - 1;
      var front := msgs[..last];
      forall k | 0 <= k < last ensures OneInStep(seqs, front, k) {
        assert OneInStep(seqs, msgs, k);
        assert front[..k] == msgs[..k];
      }
      AnteIff(seqs, front);
      AnteCounts(seqs, front);
      assert OneInStep(seqs, msgs, last);
    }
  }

  /** Executing the messages takes a sender with a creation back to just behind its last one. */
  lemma {:induction false} ExecuteRewinds(seqs: Sequences, counted: Sequences, msgs: seq<Message>, k: nat, a: Address)
    requires k <= |msgs| && counted.Keys == seqs.Keys && a in seqs
    requires forall b :: b in seqs ==> seqs[b] + |msgs| < U64
    requires InStep(seqs, msgs)
    ensures var done := Execute(counted, msgs[..k]);
            && done.Keys == seqs.Keys
            && done[a] == if LastCreation(msgs[..k], a) == 0 then counted[a] else seqs[a] + LastCreation(msgs[..k], a)
  {
    if k > 0 {
      var m := msgs[k - 1];
      ExecuteRewinds(seqs, counted, msgs, k - 1, a);
      assert msgs[..k][..k - 1] == msgs[..k - 1];
      assert OneInStep(seqs, msgs, k - 1);
      LastCreationBounded(msgs[..k], m.sender);
      hide Count;
      Counted(msgs, k - 1);
    }
  }

  lemma Counted(msgs: seq<Message>, k: nat)
    requires k < |msgs|
    ensures Count(msgs[..k + 1], msgs[k].sender) == Count(msgs[..k], msgs[k].sender) + 1
  {
    assert msgs[..k + 1][..k] == msgs[..k];
  }

  lemma {:induction false} SameKeys(seqs: Sequences, counted: Sequences, msgs: seq<Message>)
    requires counted.Keys == seqs.Keys && forall k :: 0 <= k < |msgs| ==> msgs[k].sender in seqs
    ensures Execute(counted, msgs).Keys == seqs.Keys
  {
    if msgs != [] {
      SameKeys(seqs, counted, msgs[..|msgs| - 1]);
    }
  }

  /**
   * A delivered transaction takes every sender's sequence forward by the number of its messages covered: all of them
   * if it has no creation or is not applied, and those up to the last creation otherwise.
   */
  lemma DeliverEffect(seqs: Sequences, tx: Tx)
    requires forall a :: a in seqs ==> seqs[a] + |tx.msgs| < U64
    ensures var after := Deliver(seqs, tx);
            && after.Keys == seqs.Keys
            && forall a :: a in seqs ==>
                 after[a] == seqs[a] + if Ante(seqs, tx.msgs).None? then 0
                                       else if tx.applied then Covered(tx.msgs, a) else Count(tx.msgs, a)
  {
    if Ante(seqs, tx.msgs).Some? {
      var counted := Ante(seqs, tx.msgs).value;
      AnteCounts(seqs, tx.msgs);
      assert tx.msgs[..|tx.msgs|] == tx.msgs;
      forall a | a in seqs
        ensures a in Execute(counted, tx.msgs) && Execute(counted, tx.msgs)[a] == seqs[a] + Covered(tx.msgs, a)
      {
        ExecuteRewinds(seqs, counted, tx.msgs, |tx.msgs|, a);
      }
      forall k | 0 <= k < |tx.msgs| ensures tx.msgs[k].sender in seqs {
        assert OneInStep(seqs, tx.msgs, k);
      }
      SameKeys(seqs, counted, tx.msgs);
    }
  }

  /** The sender has no creation among the messages, or its last message is one. */
  ghost predicate EndsWell(msgs: seq<Message>, sender: Address) {
    || (forall k :: 0 <= k < |msgs| && msgs[k].sender == sender ==> !msgs[k].create)
    || (exists k :: 0 <= k < |msgs| && msgs[k].sender == sender && msgs[k].create
          && forall j :: k < j < |msgs| ==> msgs[j].sender != sender)
  }

  lemma {:induction false} NoCreation(msgs: seq<Message>, sender: Address)
    ensures LastCreation(msgs, sender) == 0 <==> forall k :: 0 <= k < |msgs| && msgs[k].sender == sender ==> !msgs[k].create
  {
    if msgs != [] {
      var last := |msgs| - 1;
      NoCreation(msgs[..last], sender);
      LastCreationBounded(msgs, sender);
      LastCreationBounded(msgs[..last], sender);
      if LastCreation(msgs, sender) == 0 {
        assert !(msgs[last].sender == sender && msgs[last].create);
        forall k | 0 <= k < |msgs| && msgs[k].sender == sender
          ensures !msgs[k].create
        {
          if k < last {
            assert msgs[..last][k] == msgs[k];
          }
        }
      } else if !(msgs[last].sender == sender && msgs[last].create) {
        var k :| 0 <= k < last && msgs[..last][k].sender == sender && msgs[..last][k].create;
        assert msgs[k].sender == sender && msgs[k].create;
      }
    }
  }

  lemma {:induction false} LastIsCreation(msgs: seq<Message>, sender: Address)
    requires LastCreation(msgs, sender) > 0
    ensures LastCreation(msgs, sender) == Count(msgs, sender)
       <==> exists k :: 0 <= k < |msgs| && msgs[k].sender == sender && msgs[k].create
              && forall j :: k < j < |msgs| ==> msgs[j].sender != sender
  {
    var last := |msgs| - 1;
    var front, m := msgs[..last], msgs[last];
    if m.sender == sender {
      LastCreationBounded(front, sender);
    } else {
      LastIsCreation(front, sender);
      if LastCreation(front, sender) == Count(front, sender) {
        var k :| 0 <= k < |front| && front[k].sender == sender && front[k].create
                 && forall j :: k < j < |front| ==> front[j].sender != sender;
        assert msgs[k].sender == sender && msgs[k].create;
        forall j | k < j < |msgs| ensures msgs[j].sender != sender {
          if j < last {
            assert front[j].sender != sender;
          }
        }
      }
      if k :| 0 <= k < |msgs| && msgs[k].sender == sender && msgs[k].create
              && forall j :: k < j < |msgs| ==> msgs[j].sender != sender {
        assert front[k].sender == sender && front[k].create;
      }
    }
  }

  /** All messages of a sender are covered exactly when it has no creation or ends with one. */
  lemma CoveredIff(msgs: seq<Message>, sender: Address)
    ensures Covered(msgs, sender) <= Count(msgs, sender)
    ensures Covered(msgs, sender) == Count(msgs, sender) <==> EndsWell(msgs, sender)
  {
    LastCreationBounded(msgs, sender);
    NoCreation(msgs, sender);
    if LastCreation(msgs, sender) > 0 {
      LastIsCreation(msgs, sender);
    }
  }

  /**
   * After an accepted and applied transaction, a sender's sequence has moved by the number of its messages if and
   * only if it sent no creation, or a creation as its last message.
   */
  lemma SequenceCounts(seqs: Sequences, tx: Tx, sender: Address)
    requires forall a :: a in seqs ==> seqs[a] + |tx.msgs| < U64
    requires Ante(seqs, tx.msgs).Some? && sender in seqs
    ensures sender in Deliver(seqs, tx)
    ensures Deliver(seqs, tx)[sender] == seqs[sender] + Count(tx.msgs, sender) <==> !tx.applied || EndsWell(tx.msgs, sender)
  {
    DeliverEffect(seqs, tx);
    CoveredIff(tx.msgs, sender);
  }

  /** A creation followed by a call leaves the call's nonce open, and the same call is accepted a second time. */
  lemma NonceAcceptedTwice(sender: Address)
    ensures var create, call := Message(sender, 0, true), Message(sender, 1, false);
            var seqs: Sequences := map[sender := 0];
            && Ante(seqs, [create, call]).Some?
            && Deliver(seqs, Tx([create, call], true)) == map[sender := 1]
            && Ante(map[sender := 1], [call]).Some?
  {
    var create, call := Message(sender, 0, true), Message(sender, 1, false);
    var seqs: Sequences := map[sender := 0];
    assert [create, call][..1] == [create] && [create][..0] == [] && [call][..0] == [];
    var one: Sequences := map[sender := 1];
    var two: Sequences := map[sender := 2];
    assert seqs[sender := 1] == one && one[sender := 2] == two && two[sender := 1] == one;
    assert Ante(seqs, []) == Some(seqs) && Ante(one, []) == Some(one) && Execute(two, []) == two;
    assert Ante(seqs, [create]) == Accept(seqs, create) == Some(one);
    assert Ante(seqs, [create, call]) == Accept(one, call) == Some(two);
    assert Execute(two, [create]) == one;
  }

  // ---- whole runs ----

  function Run(seqs: Sequences, txs: seq<Tx>): Sequences
    decreases |txs|
  {
    if txs == [] then seqs else Run(Deliver(seqs, txs[0]), txs[1..])
  }

  /** The (sender, nonce) pairs of the messages accepted in a run. */
  function Accepted(seqs: Sequences, txs: seq<Tx>): seq<(Address, uint64)>
    decreases |txs|
  {
    if txs == [] then []
    else (if Ante(seqs, txs[0].msgs).Some? then Pairs(txs[0].msgs) else []) + Accepted(Deliver(seqs, txs[0]), txs[1..])
  }

  function Pairs(msgs: seq<Message>): (pairs: seq<(Address, uint64)>)
    ensures |pairs| == |msgs| && forall k :: 0 <= k < |msgs| ==> pairs[k] == (msgs[k].sender, msgs[k].nonce)
  {
    if msgs == [] then [] else Pairs(msgs[..|msgs| - 1]) + [(msgs[|msgs| - 1].sender, msgs[|msgs| - 1].nonce)]
  }

  function Volume(txs: seq<Tx>): nat {
    if txs == [] then 0 else |txs[0].msgs| + Volume(txs[1..])
  }

  /** No transaction of the run that is accepted and applied has a sender with a creation before its last message. */
  ghost predicate Disciplined(seqs: Sequences, txs: seq<Tx>)
    decreases |txs|
  {
    txs != [] ==>
      && (Ante(seqs, txs[0].msgs).Some? && txs[0].applied ==> forall a :: EndsWell(txs[0].msgs, a))
      && Disciplined(Deliver(seqs, txs[0]), txs[1..])
  }

  ghost predicate NoRepeats(pairs: seq<(Address, uint64)>) {
    forall i, j :: 0 <= i < j < |pairs| ==> pairs[i] != pairs[j]
  }

  lemma PairsDiffer(seqs: Sequences, msgs: seq<Message>, i: nat, j: nat)
    requires InStep(seqs, msgs) && i < j < |msgs|
    ensures Pairs(msgs)[i] != Pairs(msgs)[j]
  {
    assert OneInStep(seqs, msgs, i) && OneInStep(seqs, msgs, j);
    if msgs[i].sender == msgs[j].sender {
      CountGrows(msgs[..j], msgs[i].sender, i + 1);
      assert msgs[..j][..i + 1] == msgs[..i + 1];
      Counted(msgs, i);
    }
  }

  lemma PairInWindow(seqs: Sequences, tx: Tx, k: nat)
    requires forall a :: a in seqs ==> seqs[a] + |tx.msgs| < U64
    requires Ante(seqs, tx.msgs).Some? && k < |tx.msgs|
    requires InStep(seqs, tx.msgs) && (tx.applied ==> EndsWell(tx.msgs, tx.msgs[k].sender))
    ensures var m := tx.msgs[k];
            m.sender in seqs && m.sender in Deliver(seqs, tx) && seqs[m.sender] <= m.nonce < Deliver(seqs, tx)[m.sender]
  {
    hide Ante, Deliver, Count, EndsWell;
    assert OneInStep(seqs, tx.msgs, k);
    SequenceCounts(seqs, tx, tx.msgs[k].sender);
    CountGrows(tx.msgs, tx.msgs[k].sender, k + 1);
    Counted(tx.msgs, k);
  }

  lemma AcceptedOnce(seqs: Sequences, tx: Tx)
    requires forall a :: a in seqs ==> seqs[a] + |tx.msgs| < U64
    requires Ante(seqs, tx.msgs).Some? && (tx.applied ==> forall a :: EndsWell(tx.msgs, a))
    ensures NoRepeats(Pairs(tx.msgs))
    ensures forall k :: 0 <= k < |tx.msgs| ==>
              var (a, n) := Pairs(tx.msgs)[k]; a in seqs && a in Deliver(seqs, tx) && seqs[a] <= n < Deliver(seqs, tx)[a]
  {
    var msgs := tx.msgs;
    AnteCounts(seqs, msgs);
    hide Ante, Deliver, InStep, EndsWell, Pairs;
    forall i, j | 0 <= i < j < |msgs|
      ensures Pairs(msgs)[i] != Pairs(msgs)[j]
    {
      PairsDiffer(seqs, msgs, i, j);
    }
    forall k | 0 <= k < |msgs|
      ensures var (a, n) := Pairs(msgs)[k]; a in seqs && a in Deliver(seqs, tx) && seqs[a] <= n < Deliver(seqs, tx)[a]
    {
      PairInWindow(seqs, tx, k);
    }
  }

  lemma DeliverBounded(seqs: Sequences, tx: Tx, rest: nat)
    requires forall a :: a in seqs ==> seqs[a] + |tx.msgs| + rest < U64
    ensures Deliver(seqs, tx).Keys == seqs.Keys
    ensures forall a :: a in seqs ==> seqs[a] <= Deliver(seqs, tx)[a] && Deliver(seqs, tx)[a] + rest < U64
  {
    DeliverEffect(seqs, tx);
    forall a | a in seqs ensures Deliver(seqs, tx)[a] + rest < U64 {
      LastCreationBounded(tx.msgs, a);
      CoveredIff(tx.msgs, a);
    }
  }

  /** Over every disciplined run, no (sender, nonce) pair is accepted twice and no sequence ever goes back. */
  lemma {:induction false} NoNonceTwice(seqs: Sequences, txs: seq<Tx>)
    requires Disciplined(seqs, txs) && forall a :: a in seqs ==> seqs[a] + Volume(txs) < U64
    ensures NoRepeats(Accepted(seqs, txs))
    ensures Run(seqs, txs).Keys == seqs.Keys && forall a :: a in seqs ==> Run(seqs, txs)[a] >= seqs[a]
    ensures forall k :: 0 <= k < |Accepted(seqs, txs)| ==>
              var (a, n) := Accepted(seqs, txs)[k]; a in seqs && seqs[a] <= n < Run(seqs, txs)[a]
    decreases |txs|
  {
    if txs != [] {
      var tx := txs[0];
      DeliverBounded(seqs, tx, Volume(txs[1..]));
      NoNonceTwice(Deliver(seqs, tx), txs[1..]);
      if Ante(seqs, tx.msgs).Some? {
        AcceptedOnce(seqs, tx);
      }
    }
  }

  // ---- when a pair can be accepted twice ----

  /** A sender's messages are counted one by one, so some message stands at every count. */
  lemma {:induction false} MessageAt(msgs: seq<Message>, sender: Address, count: nat) returns (k: nat)
    requires count < Count(msgs, sender)
    ensures k < |msgs| && msgs[k].sender == sender && Count(msgs[..k], sender) == count
  {
    var last := |msgs| - 1;
    if count < Count(msgs[..last], sender) {
      k := MessageAt(msgs[..last], sender, count);
      assert msgs[..last][..k] == msgs[..k];
    } else {
      k := last;
    }
  }

  /** A sender with a creation before its last message leaves the nonce of one of its messages to be used again. */
  lemma OpenNonce(seqs: Sequences, tx: Tx, sender: Address) returns (k: nat)
    requires forall a :: a in seqs ==> seqs[a] + |tx.msgs| < U64
    requires Ante(seqs, tx.msgs).Some? && tx.applied && !EndsWell(tx.msgs, sender)
    ensures k < |tx.msgs| && tx.msgs[k].sender == sender && Ante(Deliver(seqs, tx), [tx.msgs[k]]).Some?
  {
    CoveredIff(tx.msgs, sender);
    k := MessageAt(tx.msgs, sender, Covered(tx.msgs, sender));
    AnteCounts(seqs, tx.msgs);
    assert OneInStep(seqs, tx.msgs, k);
    DeliverEffect(seqs, tx);
    AnteOne(Deliver(seqs, tx), tx.msgs[k]);
  }

  lemma AnteOne(seqs: Sequences, m: Message)
    ensures Ante(seqs, [m]) == Accept(seqs, m)
  {
    assert [m][..0] == [];
    assert Ante(seqs, []) == Some(seqs);
  }

  /**
   * After an accepted and applied transaction one of its messages is accepted again if and only if one of its
   * senders has a creation before its last message.
   */
  lemma ReplayIff(seqs: Sequences, tx: Tx)
    requires forall a :: a in seqs ==> seqs[a] + |tx.msgs| < U64
    requires Ante(seqs, tx.msgs).Some? && tx.applied
    ensures (exists k :: 0 <= k < |tx.msgs| && Ante(Deliver(seqs, tx), [tx.msgs[k]]).Some?)
       <==> (exists k :: 0 <= k < |tx.msgs| && !EndsWell(tx.msgs, tx.msgs[k].sender))
  {
    hide Ante, Deliver, EndsWell;
    if k :| 0 <= k < |tx.msgs| && !EndsWell(tx.msgs, tx.msgs[k].sender) {
      var j := OpenNonce(seqs, tx, tx.msgs[k].sender);
    }
    if k :| 0 <= k < |tx.msgs| && Ante(Deliver(seqs, tx), [tx.msgs[k]]).Some? {
      AnteCounts(seqs, tx.msgs);
      AnteOne(Deliver(seqs, tx), tx.msgs[k]);
      if EndsWell(tx.msgs, tx.msgs[k].sender) {
        PairInWindow(seqs, tx, k);
      }
    }
  }

  /** A single message has no creation before its last message. */
  lemma SingleEndsWell(m: Message, sender: Address)
    ensures EndsWell([m], sender)
  {
    if m.sender == sender && m.create {
      assert [m][0].sender == sender && [m][0].create;
    }
  }

  lemma {:induction false} PrefixThenOne(seqs: Sequences, txs: seq<Tx>, n: nat, next: Tx)
    requires Disciplined(seqs, txs) && n <= |txs| && |next.msgs| == 1
    ensures Disciplined(seqs, txs[..n] + [next])
    ensures Volume(txs[..n] + [next]) <= Volume(txs) + 1
    decreases |txs|
  {
    hide Ante, Deliver, EndsWell;
    var run := txs[..n] + [next];
    if n == 0 {
      assert run == [next] && [next][1..] == [] && next.msgs == [next.msgs[0]];
      forall a ensures EndsWell(next.msgs, a) {
        SingleEndsWell(next.msgs[0], a);
      }
      assert Volume([next]) == 1 + Volume([]);
    } else {
      PrefixThenOne(Deliver(seqs, txs[0]), txs[1..], n - 1, next);
      assert run[0] == txs[0] && run[1..] == txs[1..][..n - 1] + [next];
    }
  }

  ghost predicate Repeats(seqs: Sequences, txs: seq<Tx>, n: nat, next: Tx)
    requires n <= |txs|
  {
    |next.msgs| == 1 && !NoRepeats(Accepted(seqs, txs[..n] + [next]))
  }

  /** A run that is not disciplined has a beginning after which a message is accepted a second time. */
  lemma {:induction false} UndisciplinedRepeats(seqs: Sequences, txs: seq<Tx>) returns (n: nat, next: Tx)
    requires !Disciplined(seqs, txs) && forall a :: a in seqs ==> seqs[a] + Volume(txs) < U64
    ensures n <= |txs| && Repeats(seqs, txs, n, next)
    decreases |txs|
  {
    hide Ante, Deliver, EndsWell;
    var tx := txs[0];
    var after := Deliver(seqs, tx);
    if Ante(seqs, tx.msgs).Some? && tx.applied && exists a :: !EndsWell(tx.msgs, a) {
      var a :| !EndsWell(tx.msgs, a);
      var k := OpenNonce(seqs, tx, a);
      n, next := 1, Tx([tx.msgs[k]], false);
      assert txs[..1] + [next] == [tx, next];
      AcceptedPair(seqs, tx, next);
      var all := Accepted(seqs, [tx, next]);
      assert all[k] == all[|tx.msgs|];
    } else {
      DeliverBounded(seqs, tx, Volume(txs[1..]));
      n, next := UndisciplinedRepeats(after, txs[1..]);
      AcceptedTail(seqs, txs, n, next);
      n := n + 1;
    }
  }

  lemma AcceptedPair(seqs: Sequences, tx: Tx, next: Tx)
    requires Ante(seqs, tx.msgs).Some? && Ante(Deliver(seqs, tx), next.msgs).Some?
    ensures Accepted(seqs, [tx, next]) == Pairs(tx.msgs) + Pairs(next.msgs)
  {
    hide Ante, Deliver;
    assert [tx, next][1..] == [next] && [next][1..] == [];
    var after := Deliver(seqs, tx);
    assert Accepted(Deliver(after, next), []) == [];
    assert Accepted(after, [next]) == Pairs(next.msgs);
  }

  /** A repetition in the later part of a run is one of the whole run. */
  lemma AcceptedTail(seqs: Sequences, txs: seq<Tx>, n: nat, next: Tx)
    requires txs != [] && n < |txs| && Repeats(Deliver(seqs, txs[0]), txs[1..], n, next)
    ensures Repeats(seqs, txs, n + 1, next)
  {
    hide Ante, Deliver, Pairs, NoRepeats;
    var run, tail := txs[..n + 1] + [next], txs[1..][..n] + [next];
    assert run[0] == txs[0] && run[1..] == tail;
    var first := if Ante(seqs, txs[0].msgs).Some? then Pairs(txs[0].msgs) else [];
    var late := Accepted(Deliver(seqs, txs[0]), tail);
    assert Accepted(seqs, run) == first + late;
    RepeatsKept(first, late);
  }

  lemma RepeatsKept(first: seq<(Address, uint64)>, late: seq<(Address, uint64)>)
    requires !NoRepeats(late)
    ensures !NoRepeats(first + late)
  {
    var i, j :| 0 <= i < j < |late| && late[i] == late[j];
    assert (first + late)[|first| + i] == (first + late)[|first| + j];
  }

  /**
   * The exact condition, for every run: it is disciplined if and only if no beginning of it can be followed by a
   * message whose (sender, nonce) pair is then accepted a second time.
   */
  lemma RepeatsIff(seqs: Sequences, txs: seq<Tx>)
    requires forall a :: a in seqs ==> seqs[a] + Volume(txs) + 1 < U64
    ensures Disciplined(seqs, txs) <==> forall n, next: Tx :: 0 <= n <= |txs| ==> !Repeats(seqs, txs, n, next)
  {
    hide Disciplined, Accepted;
    if Disciplined(seqs, txs) {
      forall n, next: Tx | 0 <= n <= |txs| && |next.msgs| == 1
        ensures !Repeats(seqs, txs, n, next)
      {
        PrefixThenOne(seqs, txs, n, next);
        NoNonceTwice(seqs, txs[..n] + [next]);
      }
    } else {
      var n, next := UndisciplinedRepeats(seqs, txs);
    }
  }
}
