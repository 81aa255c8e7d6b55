/** What executing a message does to sequences, from the calls on the StateDB to the accounts the keeper stores. */
module Creations {
  import opened EvmTypes
  import opened Interfaces
  import opened Store
  import opened Simulation
  import opened Commits
  import opened CommitTheorems
  import R = Reference
  import M = Machine
  import N = Nonces
  import Theorems

  /** The calls around an EVM creation: the nonce before it, whatever the EVM does, and the next nonce after it. */
  function CreationCalls(sender: Address, nonce: uint64, evm: seq<Call>): seq<Call> {
    [SetNonce(sender, nonce)] + evm + [SetNonce(sender, (nonce + 1) % U64)]
  }

  lemma {:induction false} RunLast(env: Env, s: M.State, calls: seq<Call>, last: Call)
    requires |M.Run(env, s, calls + [last]).1| == |calls| + 1
    ensures M.Run(env, s, calls + [last]).0 == M.Step(env, M.Run(env, s, calls).0, last).0
    decreases |calls|
  {
    hide M.Step;
    if calls == [] {
      assert calls + [last] == [last] && [last][1..] == [];
    } else {
      assert (calls + [last])[1..] == calls[1..] + [last];
      RunLast(env, M.Step(env, s, calls[0]).0, calls[1..], last);
    }
  }

  /** Once the nonce is set, the object is dirty and carries it. */
  lemma NonceIsSet(env: Env, s: M.State, r: R.Ref, sender: Address, nonce: uint64)
    requires Sim(env, s, r)
    ensures var s' := M.SetNonce(env, s, sender, nonce);
            && sender in s'.dirties && sender in s'.objects && s'.objects[sender].account.nonce == nonce
  {
  }

  /**
   * A creation that runs to its end leaves the sender's stored sequence one above the message's nonce, whatever
   * the EVM did in between and whether or not it failed, unless the EVM destroyed the sender's account.
   */
  lemma CreationSetsSequence(rules: Rules, w: World, tx: TxConfig, sender: Address, nonce: uint64, evm: seq<Call>,
                             r: R.Ref, addrs: seq<Address>, order: KeyOrder)
    requires var calls := CreationCalls(sender, nonce, evm);
             var run := M.Run(EnvOf(rules, w, tx), M.START, calls);
             && |run.1| == |calls|
             && Committed(rules, w, tx, run.0, r, addrs, order)
             && sender in run.0.objects && !run.0.objects[sender].suicided
    ensures var s := M.Run(EnvOf(rules, w, tx), M.START, CreationCalls(sender, nonce, evm)).0;
            var w' := Commit(rules, w, s, addrs, order).world;
            sender in w'.auth && w'.auth[sender].sequence == (nonce + 1) % U64
  {
    hide M.Run, Sim, Commit, Overlay, Store.GetState, M.SetNonce, EnvOf;
    var env := EnvOf(rules, w, tx);
    var calls := [SetNonce(sender, nonce)] + evm;
    var last := SetNonce(sender, (nonce + 1) % U64);
    var s0, s := M.Run(env, M.START, calls).0, M.Run(env, M.START, calls + [last]).0;
    RunLast(env, M.START, calls, last);
    assert Theorems.Reachable(env, s0);
    var r0 := Theorems.ReachableSim(env, s0);
    NonceIsSet(env, s0, r0, sender, (nonce + 1) % U64);
    CommittedEffect(rules, w, tx, s, r, addrs, order);
    ReadSequence(rules, Commit(rules, w, s, addrs, order).world, sender);
  }

  lemma ReadSequence(rules: Rules, w: World, addr: Address)
    ensures ReadsOf(rules, w, addr).account.Some? ==>
              addr in w.auth && w.auth[addr].sequence == ReadsOf(rules, w, addr).account.value.nonce
  {
  }

  // ---- calls ----

  /** The call neither sets the nonce of the account nor replaces or destroys the account. */
  predicate Spares(call: Call, a: Address) {
    (call.SetNonce? || call.CreateAccount? || call.Suicide?) ==> call.addr != a
  }

  predicate AllSpare(calls: seq<Call>, a: Address) {
    forall i :: 0 <= i < |calls| ==> Spares(calls[i], a)
  }

  predicate NoneDestroys(calls: seq<Call>, a: Address) {
    forall i :: 0 <= i < |calls| ==> calls[i] != Suicide(a)
  }

  ghost predicate Holds(core: R.Core, a: Address, nonce: uint64) {
    a in core.accts && core.accts[a].nonce == nonce && !core.accts[a].suicided
  }

  /** The account has the nonce and is not destroyed, now and in every state that can be reverted to. */
  ghost predicate Keeps(r: R.Ref, a: Address, nonce: uint64) {
    Holds(r.core, a, nonce) && forall i :: 0 <= i < |r.copies| ==> Holds(r.copies[i].core, a, nonce)
  }

  lemma ApplyHolds(env: Env, core: R.Core, call: Call, a: Address, nonce: uint64)
    requires Holds(core, a, nonce) && Spares(call, a)
    ensures Holds(R.Apply(env, core, call), a, nonce)
  {
  }

  lemma StepKeeps(env: Env, r: R.Ref, call: Call, a: Address, nonce: uint64)
    requires Keeps(r, a, nonce) && Spares(call, a)
    ensures Keeps(R.Step(env, r, call).0, a, nonce)
  {
    hide R.Answers, R.Apply, Holds;
    ApplyHolds(env, r.core, call, a, nonce);
  }

  lemma {:induction false} RunKeeps(env: Env, r: R.Ref, calls: seq<Call>, a: Address, nonce: uint64)
    requires Keeps(r, a, nonce) && AllSpare(calls, a)
    ensures Keeps(R.Run(env, r, calls).0, a, nonce)
    decreases |calls|
  {
    hide R.Step, Keeps;
    if calls != [] {
      StepKeeps(env, r, calls[0], a, nonce);
      RunKeeps(env, R.Step(env, r, calls[0]).0, calls[1..], a, nonce);
    }
  }

  ghost predicate NotDestroyed(core: R.Core, a: Address) {
    a in core.accts ==> !core.accts[a].suicided
  }

  ghost predicate Alive(r: R.Ref, a: Address) {
    NotDestroyed(r.core, a) && forall i :: 0 <= i < |r.copies| ==> NotDestroyed(r.copies[i].core, a)
  }

  lemma ApplyAlive(env: Env, core: R.Core, call: Call, a: Address)
    requires NotDestroyed(core, a) && call != Suicide(a)
    ensures NotDestroyed(R.Apply(env, core, call), a)
  {
  }

  lemma StepAlive(env: Env, r: R.Ref, call: Call, a: Address)
    requires Alive(r, a) && call != Suicide(a)
    ensures Alive(R.Step(env, r, call).0, a)
  {
    hide R.Answers, R.Apply, NotDestroyed;
    ApplyAlive(env, r.core, call, a);
  }

  lemma {:induction false} RunAlive(env: Env, r: R.Ref, calls: seq<Call>, a: Address)
    requires Alive(r, a) && NoneDestroys(calls, a)
    ensures Alive(R.Run(env, r, calls).0, a)
    decreases |calls|
  {
    hide R.Step, Alive;
    if calls != [] {
      StepAlive(env, r, calls[0], a);
      RunAlive(env, R.Step(env, r, calls[0]).0, calls[1..], a);
    }
  }

  lemma StartKeeps(rules: Rules, w: World, tx: TxConfig, a: Address)
    requires a in w.auth
    ensures Keeps(R.Start(EnvOf(rules, w, tx)), a, w.auth[a].sequence) && Alive(R.Start(EnvOf(rules, w, tx)), a)
  {
    hide Store.GetState, Store.GetCode;
  }

  /**
   * Over every run that does not set the account's nonce, replace it or destroy it, with any snapshots and reverts,
   * a successful commit leaves the account's stored sequence as it was.
   */
  lemma CallKeepsSequence(rules: Rules, w: World, tx: TxConfig, a: Address, calls: seq<Call>,
                          r: R.Ref, addrs: seq<Address>, order: KeyOrder)
    requires a in w.auth && AllSpare(calls, a)
    requires Committed(rules, w, tx, M.Run(EnvOf(rules, w, tx), M.START, calls).0, r, addrs, order)
    ensures var w' := Commit(rules, w, M.Run(EnvOf(rules, w, tx), M.START, calls).0, addrs, order).world;
            a in w'.auth && w'.auth[a].sequence == w.auth[a].sequence
  {
    hide M.Run, R.Run, Sim, Commit, Overlay, Store.GetState, EnvOf, Keeps, Alive, ReadsOf;
    var env := EnvOf(rules, w, tx);
    var s := M.Run(env, M.START, calls).0;
    var w' := Commit(rules, w, s, addrs, order).world;
    StartKeeps(rules, w, tx, a);
    RunKeeps(env, R.Start(env), calls, a, w.auth[a].sequence);
    KeepsNow(R.Run(env, R.Start(env), calls).0, a, w.auth[a].sequence);
    Theorems.RunCore(env, calls, r);
    CommittedEffect(rules, w, tx, s, r, addrs, order);
    if a in s.dirties {
      DirtyIsLive(env, s, r, a);
      ViewIs(env, a, s.objects[a]);
    } else {
      ReadSequence(rules, w, a);
      HasAccount(rules, w, a);
    }
    ReadSequence(rules, w', a);
  }

  lemma KeepsNow(r: R.Ref, a: Address, nonce: uint64)
    requires Keeps(r, a, nonce)
    ensures Holds(r.core, a, nonce)
  {
  }

  lemma ViewIs(env: Env, a: Address, o: Obj)
    ensures View(env, a, o).nonce == o.account.nonce && View(env, a, o).suicided == o.suicided
  {
  }

  lemma HasAccount(rules: Rules, w: World, a: Address)
    requires a in w.auth
    ensures ReadsOf(rules, w, a).account.Some?
  {
  }

  // ---- messages ----

  /** The calls of a message on the StateDB. */
  function MessageCalls(m: N.Message, evm: seq<Call>): seq<Call> {
    if m.create then CreationCalls(m.sender, m.nonce, evm) else evm
  }

  /**
   * What is assumed of the EVM: it changes no nonce of an account that sends transactions, replaces and destroys none,
   * except that a creation may set the nonce of its own sender.
   */
  ghost predicate EvmSpares(m: N.Message, evm: seq<Call>, senders: set<Address>) {
    && (forall a :: a in senders && !(m.create && a == m.sender) ==> AllSpare(evm, a))
    && (m.create ==> NoneDestroys(evm, m.sender))
  }

  /** The message was run to its end and committed; what follows does not touch accounts. */
  ghost predicate ExecutedBy(rules: Rules, w: World, m: N.Message, w': World, senders: set<Address>,
                             tx: TxConfig, evm: seq<Call>, r: R.Ref, addrs: seq<Address>, order: KeyOrder) {
    var calls := MessageCalls(m, evm);
    var run := M.Run(EnvOf(rules, w, tx), M.START, calls);
    && EvmSpares(m, evm, senders)
    && |run.1| == |calls|
    && Committed(rules, w, tx, run.0, r, addrs, order)
    && w'.auth == Commit(rules, w, run.0, addrs, order).world.auth
  }

  ghost predicate Executed(rules: Rules, w: World, m: N.Message, w': World, senders: set<Address>) {
    exists tx: TxConfig, evm: seq<Call>, r: R.Ref, addrs: seq<Address>, order: KeyOrder ::
      ExecutedBy(rules, w, m, w', senders, tx, evm, r, addrs, order)
  }

  function SequencesOf(w: World, senders: set<Address>): N.Sequences
    requires senders <= w.auth.Keys
  {
    map a | a in senders :: w.auth[a].sequence
  }

  lemma OthersKept(rules: Rules, w: World, m: N.Message, w': World, senders: set<Address>,
                   tx: TxConfig, evm: seq<Call>, r: R.Ref, addrs: seq<Address>, order: KeyOrder, a: Address)
    requires ExecutedBy(rules, w, m, w', senders, tx, evm, r, addrs, order)
    requires a in senders && a in w.auth && !(m.create && a == m.sender)
    ensures a in w'.auth && w'.auth[a].sequence == w.auth[a].sequence
  {
    hide M.Run, Sim, Commit, EnvOf, Committed;
    var calls := MessageCalls(m, evm);
    forall i | 0 <= i < |calls| ensures Spares(calls[i], a) {
      if m.create && 0 < i < |calls| - 1 {
        assert calls[i] == evm[i - 1];
      }
    }
    CallKeepsSequence(rules, w, tx, a, calls, r, addrs, order);
  }

  lemma SenderMoved(rules: Rules, w: World, m: N.Message, w': World, senders: set<Address>,
                    tx: TxConfig, evm: seq<Call>, r: R.Ref, addrs: seq<Address>, order: KeyOrder)
    requires ExecutedBy(rules, w, m, w', senders, tx, evm, r, addrs, order)
    requires m.create && m.sender in w.auth
    ensures m.sender in w'.auth && w'.auth[m.sender].sequence == N.Next(m.nonce)
  {
    hide M.Run, R.Run, Sim, Commit, EnvOf, Alive, M.SetNonce;
    var env, a := EnvOf(rules, w, tx), m.sender;
    var calls := CreationCalls(a, m.nonce, evm);
    var s := M.Run(env, M.START, calls).0;
    forall i | 0 <= i < |calls| ensures calls[i] != Suicide(a) {
      if 0 < i < |calls| - 1 {
        assert calls[i] == evm[i - 1];
      }
    }
    StartKeeps(rules, w, tx, a);
    RunAlive(env, R.Start(env), calls, a);
    Theorems.RunCore(env, calls, r);
    CreationDirties(env, a, m.nonce, evm);
    DirtyIsLive(env, s, r, a);
    ViewIs(env, a, s.objects[a]);
    AliveNow(R.Run(env, R.Start(env), calls).0, a);
    CreationSetsSequence(rules, w, tx, a, m.nonce, evm, r, addrs, order);
  }

  lemma AliveNow(r: R.Ref, a: Address)
    requires Alive(r, a) && a in r.core.accts
    ensures !r.core.accts[a].suicided
  {
  }

  lemma CreationDirties(env: Env, sender: Address, nonce: uint64, evm: seq<Call>)
    requires |M.Run(env, M.START, CreationCalls(sender, nonce, evm)).1| == |CreationCalls(sender, nonce, evm)|
    ensures sender in M.Run(env, M.START, CreationCalls(sender, nonce, evm)).0.dirties
  {
    hide M.Run, Sim, M.SetNonce;
    var calls, last := [SetNonce(sender, nonce)] + evm, SetNonce(sender, (nonce + 1) % U64);
    var s0 := M.Run(env, M.START, calls).0;
    RunLast(env, M.START, calls, last);
    assert Theorems.Reachable(env, s0);
    var r0 := Theorems.ReachableSim(env, s0);
    NonceIsSet(env, s0, r0, sender, (nonce + 1) % U64);
  }

  /** An executed message moves the stored sequences of the senders as the sequence model says. */
  lemma ExecutedIs(rules: Rules, w: World, m: N.Message, w': World, senders: set<Address>)
    requires Executed(rules, w, m, w', senders) && m.sender in senders && senders <= w.auth.Keys
    ensures senders <= w'.auth.Keys && SequencesOf(w', senders) == N.ExecuteOne(SequencesOf(w, senders), m)
  {
    hide ExecutedBy;
    var tx: TxConfig, evm: seq<Call>, r: R.Ref, addrs: seq<Address>, order: KeyOrder :|
      ExecutedBy(rules, w, m, w', senders, tx, evm, r, addrs, order);
    forall a | a in senders
      ensures a in w'.auth && w'.auth[a].sequence == N.ExecuteOne(SequencesOf(w, senders), m)[a]
    {
      if m.create && a == m.sender {
        SenderMoved(rules, w, m, w', senders, tx, evm, r, addrs, order);
      } else {
        OthersKept(rules, w, m, w', senders, tx, evm, r, addrs, order, a);
      }
    }
  }

  /** The same for the messages of a transaction, each run and committed on what the one before it left. */
  lemma {:induction false} AllExecuted(rules: Rules, ws: seq<World>, msgs: seq<N.Message>, senders: set<Address>)
    requires |ws| == |msgs| + 1 && senders <= ws[0].auth.Keys
    requires forall i :: 0 <= i < |msgs| ==> msgs[i].sender in senders && Executed(rules, ws[i], msgs[i], ws[i + 1], senders)
    ensures senders <= ws[|msgs|].auth.Keys
    ensures SequencesOf(ws[|msgs|], senders) == N.Execute(SequencesOf(ws[0], senders), msgs)
  {
    hide Executed, SequencesOf, N.ExecuteOne;
    if msgs != [] {
      var last := |msgs| - 1;
      AllExecuted(rules, ws[..last + 1], msgs[..last], senders);
      ExecutedIs(rules, ws[last], msgs[last], ws[last + 1], senders);
    }
  }
}
