/** The transactions of a block: their indices, the numbering of their logs and the block's bloom filter. */
module Blocks {
  import opened EvmTypes
  import opened Interfaces
  import opened Simulation
  import R = Reference
  import M = Machine
  import Theorems

  // ---- the logs of one transaction ----

  /** Logs carry their transaction, and are numbered one after the other from the transaction's first log on. */
  ghost predicate Numbered(tx: TxConfig, logs: seq<Log>) {
    forall i :: 0 <= i < |logs| ==> logs[i] == Stamp(tx, logs[i].body, i)
  }

  ghost predicate AllNumbered(env: Env, r: R.Ref) {
    && Numbered(env.tx, r.core.logs)
    && forall i :: 0 <= i < |r.copies| ==> Numbered(env.tx, r.copies[i].core.logs)
  }

  lemma StepNumbers(env: Env, r: R.Ref, call: Call)
    requires AllNumbered(env, r)
    ensures AllNumbered(env, R.Step(env, r, call).0)
  {
    hide R.Prepare, R.AddBalance, R.SetNonce, R.SetCode, R.SetState, R.CreateAccount, R.Suicide, R.Answers, Stamp;
    if call.AddLog? {
      var logs, tx := r.core.logs, env.tx;
      var added := Stamp(tx, call.body, |logs|);
      StampBody(tx, call.body, |logs|);
      assert (logs + [added])[|logs|] == added;
    } else {
      KeepsLogs(env, r.core, call);
    }
  }

  lemma StampBody(tx: TxConfig, body: LogData, count: nat)
    ensures Stamp(tx, body, count).body == body
  {
  }

  lemma KeepsLogs(env: Env, core: R.Core, call: Call)
    requires !call.AddLog?
    ensures R.Apply(env, core, call).logs == core.logs
  {
  }

  lemma {:induction false} RunNumbers(env: Env, r: R.Ref, calls: seq<Call>)
    requires AllNumbered(env, r)
    ensures AllNumbered(env, R.Run(env, r, calls).0)
    decreases |calls|
  {
    hide R.Step, AllNumbered;
    if calls != [] {
      StepNumbers(env, r, calls[0]);
      RunNumbers(env, R.Step(env, r, calls[0]).0, calls[1..]);
    }
  }

  /**
   * After every run, with any snapshots and reverts, the logs that survive are numbered contiguously from the
   * transaction's first log index on.
   */
  lemma LogsNumbered(env: Env, calls: seq<Call>)
    ensures Numbered(env.tx, M.Run(env, M.START, calls).0.logs)
  {
    hide M.Run, R.Run, Inv, RevisionsOk, Numbered;
    SimStart(env);
    Theorems.SimRun(env, M.START, R.Start(env), calls);
    StartNumbered(env);
    RunNumbers(env, R.Start(env), calls);
    assert Plain(env, M.Run(env, M.START, calls).0) == R.Run(env, R.Start(env), calls).0.core;
  }

  lemma StartNumbered(env: Env)
    ensures AllNumbered(env, R.Start(env))
  {
  }

  // ---- the block ----

  /** A bloom filter as the set of its bits. */
  type Bloom = set<nat>

  /** The bits a log sets, as `types.LogsBloom` computes them from its address and topics. */
  type Bits = LogData -> Bloom

  function LogsBloom(bits: Bits, logs: seq<Log>): Bloom {
    if logs == [] then {} else LogsBloom(bits, logs[..|logs| - 1]) + bits(logs[|logs| - 1].body)
  }

  /** The EVM module's transient counters of a block. */
  datatype Transient = Transient(txIndex: uint64, logSize: uint64, bloom: Bloom)

  const FRESH := Transient(0, 0, {})

  /** A transaction as far as the block is concerned: its hash, the world it runs in and the calls the EVM makes. */
  datatype Tx = Tx(hash: Hash, env: Env, calls: seq<Call>)

  function ConfigFor(t: Transient, blockHash: Hash, hash: Hash): TxConfig {
    TxConfig(blockHash, hash, t.txIndex, t.logSize)
  }

  /** The logs a transaction ends with when it starts from the given counters. */
  function LogsOf(t: Transient, blockHash: Hash, tx: Tx): seq<Log> {
    M.Run(tx.env.(tx := ConfigFor(t, blockHash, tx.hash)), M.START, tx.calls).0.logs
  }

  lemma {:induction false} RunThenLogs(env: Env, s: M.State, calls: seq<Call>)
    requires |M.Run(env, s, calls + [Logs]).1| == |calls| + 1
    ensures M.Run(env, s, calls + [Logs]).1[|calls|] == LogList(M.Run(env, s, calls).0.logs)
    decreases |calls|
  {
    hide M.Step;
    if calls == [] {
      assert calls + [Logs] == [Logs] && [Logs][1..] == [];
      assert M.Step(env, s, Logs) == (s, LogList(s.logs)) by { LogsStep(env, s); }
    } else {
      assert (calls + [Logs])[1..] == calls[1..] + [Logs];
      RunThenLogs(env, M.Step(env, s, calls[0]).0, calls[1..]);
    }
  }

  lemma LogsStep(env: Env, s: M.State)
    ensures M.Step(env, s, Logs) == (s, LogList(s.logs))
  {
  }

  /** The logs of a transaction that does not panic are what the plain machine answers when asked for them at the end. */
  lemma LogsAreAnswered(t: Transient, blockHash: Hash, tx: Tx)
    requires var env := tx.env.(tx := TxConfig(blockHash, tx.hash, t.txIndex, t.logSize));
             |R.Run(env, R.Start(env), tx.calls + [Logs]).1| == |tx.calls| + 1
    ensures var env := tx.env.(tx := TxConfig(blockHash, tx.hash, t.txIndex, t.logSize));
            R.Run(env, R.Start(env), tx.calls + [Logs]).1[|tx.calls|] == LogList(LogsOf(t, blockHash, tx))
  {
    hide M.Run, R.Run;
    var env := tx.env.(tx := TxConfig(blockHash, tx.hash, t.txIndex, t.logSize));
    Theorems.AnswersAgree(env, tx.calls + [Logs]);
    RunThenLogs(env, M.START, tx.calls);
  }

  /** What applying a transaction with these logs does to the counters. */
  function Advance(bits: Bits, t: Transient, logs: seq<Log>): Transient {
    Transient((t.txIndex + 1) % U64,
              if logs != [] then (t.logSize + |logs|) % U64 else t.logSize,
              if logs != [] then t.bloom + LogsBloom(bits, logs) else t.bloom)
  }

  /** The counters after the first transactions of a block. */
  function After(bits: Bits, blockHash: Hash, txs: seq<Tx>): Transient {
    if txs == [] then FRESH
    else
      var t := After(bits, blockHash, txs[..|txs| - 1]);
      Advance(bits, t, LogsOf(t, blockHash, txs[|txs| - 1]))
  }

  /** All logs of a block, in order. */
  function BlockLogs(bits: Bits, blockHash: Hash, txs: seq<Tx>): seq<Log> {
    if txs == [] then []
    else
      var front := txs[..|txs| - 1];
      BlockLogs(bits, blockHash, front) + LogsOf(After(bits, blockHash, front), blockHash, txs[|txs| - 1])
  }

  lemma {:induction false} BloomConcat(bits: Bits, a: seq<Log>, b: seq<Log>)
    ensures LogsBloom(bits, a + b) == LogsBloom(bits, a) + LogsBloom(bits, b)
    decreases |b|
  {
    if b == [] {
      assert a + b == a;
    } else {
      var last := |b| - 1;
      BloomConcat(bits, a, b[..last]);
      assert (a + b)[..|a + b| - 1] == a + b[..last];
    }
  }

  lemma {:induction false} BloomBits(bits: Bits, logs: seq<Log>, bit: nat)
    ensures bit in LogsBloom(bits, logs) <==> exists i :: 0 <= i < |logs| && bit in bits(logs[i].body)
  {
    if logs != [] {
      var last := |logs| - 1;
      BloomBits(bits, logs[..last], bit);
      if bit in LogsBloom(bits, logs[..last]) {
        var i :| 0 <= i < last && bit in bits(logs[..last][i].body);
        assert bit in bits(logs[i].body);
      }
      if i :| 0 <= i < last && bit in bits(logs[i].body) {
        assert bit in bits(logs[..last][i].body);
      }
    }
  }

  /**
   * Across every block of applied transactions the indices are 0, 1, 2 and so on, all surviving logs of the block are
   * numbered 0, 1, 2 and so on with the index of their own transaction, and the bloom filter is that of all logs.
   */
  lemma {:induction false} BlockCounts(bits: Bits, blockHash: Hash, txs: seq<Tx>)
    ensures var t, logs := After(bits, blockHash, txs), BlockLogs(bits, blockHash, txs);
            && t.txIndex == |txs| % U64
            && t.logSize == |logs| % U64
            && t.bloom == LogsBloom(bits, logs)
            && forall j :: 0 <= j < |logs| ==> logs[j].index == j % U64
  {
    hide LogsOf, LogsBloom;
    if txs == [] {
      EmptyBloom(bits);
    } else {
      var last := |txs| - 1;
      var front := txs[..last];
      BlockCounts(bits, blockHash, front);
      var t, logs := After(bits, blockHash, front), BlockLogs(bits, blockHash, front);
      var added := LogsOf(t, blockHash, txs[last]);
      WrapSum(last, 1);
      WrapSum(|logs|, |added|);
      BloomConcat(bits, logs, added);
      EmptyBloom(bits);
      forall j | 0 <= j < |logs + added|
        ensures (logs + added)[j].index == j % U64
      {
        if j >= |logs| {
          AddedNumbers(t, blockHash, txs[last], j - |logs|);
          WrapSum(|logs|, j - |logs|);
        }
      }
    }
  }

  lemma EmptyBloom(bits: Bits)
    ensures LogsBloom(bits, []) == {}
  {
  }

  lemma AddedNumbers(t: Transient, blockHash: Hash, tx: Tx, i: nat)
    requires i < |LogsOf(t, blockHash, tx)|
    ensures var log := LogsOf(t, blockHash, tx)[i];
            log.index == (t.logSize + i) % U64 && log.txIndex == t.txIndex && log.txHash == tx.hash && log.blockHash == blockHash
  {
    hide M.Run;
    LogsNumbered(tx.env.(tx := ConfigFor(t, blockHash, tx.hash)), tx.calls);
  }

  /** Every log of the k-th transaction carries its index and hash. */
  lemma LogsOfTransaction(bits: Bits, blockHash: Hash, txs: seq<Tx>, k: nat, i: nat)
    requires k < |txs| && i < |LogsOf(After(bits, blockHash, txs[..k]), blockHash, txs[k])|
    ensures var log := LogsOf(After(bits, blockHash, txs[..k]), blockHash, txs[k])[i];
            && log.txIndex == k % U64 && log.txHash == txs[k].hash && log.blockHash == blockHash
            && log.index == (|BlockLogs(bits, blockHash, txs[..k])| + i) % U64
  {
    hide LogsOf;
    BlockCounts(bits, blockHash, txs[..k]);
    AddedNumbers(After(bits, blockHash, txs[..k]), blockHash, txs[k], i);
    WrapSum(|BlockLogs(bits, blockHash, txs[..k])|, i);
  }

  /** A bit of the bloom filter that ends the block is set exactly when some surviving log of the block sets it. */
  lemma EndBlockBloom(bits: Bits, blockHash: Hash, txs: seq<Tx>, bit: nat)
    ensures bit in After(bits, blockHash, txs).bloom
       <==> exists j :: 0 <= j < |BlockLogs(bits, blockHash, txs)| && bit in bits(BlockLogs(bits, blockHash, txs)[j].body)
  {
    BlockCounts(bits, blockHash, txs);
    BloomBits(bits, BlockLogs(bits, blockHash, txs), bit);
  }

  // ---- the counters as the keeper updates them ----

  class BlockState {
    var txIndex: uint64
    var logSize: uint64
    var bloom: Bloom

    constructor ()
      ensures Counters() == FRESH
    {
      txIndex, logSize, bloom := 0, 0, {};
    }

    function Counters(): Transient
      reads this
    {
      Transient(txIndex, logSize, bloom)
    }

    /** The end of `ApplyTransaction`, given the logs the transaction ended with. */
    method Record(bits: Bits, logs: seq<Log>)
      modifies this
      ensures Counters() == Advance(bits, old(Counters()), logs)
    {
      var receiptBloom := {};
      if |logs| > 0 {
        receiptBloom := bloom + LogsBloom(bits, logs);
      }
      if |logs| > 0 {
        bloom := receiptBloom;
        logSize := (logSize + |logs|) % U64;
      }
      txIndex := (txIndex + 1) % U64;
    }

    /** A block from its first transaction to its bloom event; the counters are those the lemmas above speak about. */
    method Block(bits: Bits, blockHash: Hash, txs: seq<Tx>) returns (ghost logs: seq<Log>, blockBloom: Bloom)
      requires Counters() == FRESH
      modifies this
      ensures Counters() == After(bits, blockHash, txs) && logs == BlockLogs(bits, blockHash, txs)
      ensures blockBloom == LogsBloom(bits, logs)
    {
      logs := [];
      hide LogsOf, LogsBloom, Advance;
      for k := 0 to |txs|
        invariant Counters() == After(bits, blockHash, txs[..k]) && logs == BlockLogs(bits, blockHash, txs[..k])
      {
        assert txs[..k + 1][..k] == txs[..k];
        var added := LogsOf(Counters(), blockHash, txs[k]);
        logs := logs + added;
        Record(bits, added);
      }
      assert txs[..|txs|] == txs;
      BlockCounts(bits, blockHash, txs);
      blockBloom := bloom;
    }
  }
}
