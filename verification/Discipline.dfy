/** Which uses of `CreateAccount` let a commit keep everything: the condition on the calls, for whole runs. */
module Discipline {
  import opened EvmTypes
  import opened Interfaces
  import opened Store
  import opened Undo
  import opened Simulation
  import opened Commits
  import opened CommitTheorems
  import Theorems
  import R = Reference
  import M = Machine

  /** The account is absent, already dirty, or has nonce zero and no code. */
  predicate Allowed(env: Env, s: State, call: Call) {
    call.CreateAccount? ==>
      var s1 := M.Load(env, s, call.addr);
      || call.addr !in s1.objects
      || call.addr in s.dirties
      || AsNew(env, s1.objects[call.addr])
  }

  predicate AsNew(env: Env, o: Obj) {
    o.account.nonce == 0 && o.account.codeHash == env.EmptyCodeHash()
  }

  /** Every call of the run is allowed in the state it meets. */
  predicate RunAllowed(env: Env, s: State, calls: seq<Call>)
    decreases |calls|
  {
    calls != [] ==>
      && Allowed(env, s, calls[0])
      && (M.Step(env, s, calls[0]).1.Panic? || RunAllowed(env, M.Step(env, s, calls[0]).0, calls[1..]))
  }

  /** A reset comes after an entry that marks its address dirty, or replaced an account that was as good as new. */
  ghost predicate Excused(env: Env, es: seq<Change>, i: nat)
    requires i < |es| && es[i].ResetObjectChange?
  {
    (exists j :: 0 <= j < i && es[j].Dirties(es[i].account)) || AsNew(env, es[i].prevObject)
  }

  ghost predicate Disciplined(env: Env, es: seq<Change>) {
    forall i :: 0 <= i < |es| && es[i].ResetObjectChange? ==> Excused(env, es, i)
  }

  // ---- what calls do to the journal ----

  /** The journal only got longer, and no reset was added. */
  ghost predicate Grown(s: State, s': State) {
    s.entries <= s'.entries && forall i :: |s.entries| <= i < |s'.entries| ==> !s'.entries[i].ResetObjectChange?
  }

  lemma GrownDisciplined(env: Env, s: State, s': State)
    requires Disciplined(env, s.entries) && Grown(s, s')
    ensures Disciplined(env, s'.entries)
  {
    forall i | 0 <= i < |s'.entries| && s'.entries[i].ResetObjectChange?
      ensures Excused(env, s'.entries, i)
    {
      assert s'.entries[i] == s.entries[i];
      assert Excused(env, s.entries, i);
      if j :| 0 <= j < i && s.entries[j].Dirties(s.entries[i].account) {
        assert s'.entries[j] == s.entries[j];
      }
    }
  }

  lemma PrefixDisciplined(env: Env, es: seq<Change>, n: nat)
    requires Disciplined(env, es) && n <= |es|
    ensures Disciplined(env, es[..n])
  {
    forall i | 0 <= i < n && es[i].ResetObjectChange?
      ensures Excused(env, es[..n], i)
    {
      assert Excused(env, es, i);
      if j :| 0 <= j < i && es[j].Dirties(es[i].account) {
        assert es[..n][j] == es[j];
      }
    }
  }

  lemma {:induction false} UndoShortens(env: Env, s: State, n: nat)
    ensures exists k :: 0 <= k <= |s.entries| && M.UndoTo(env, s, n).entries == s.entries[..k]
    decreases |s.entries|
  {
    hide M.UndoEffect;
    if |s.entries| <= n {
      assert s.entries[..|s.entries|] == s.entries;
    } else {
      var last := |s.entries| - 1;
      var s1 := M.UndoLast(env, s);
      UndoShortens(env, s1, n);
      var k :| 0 <= k <= |s1.entries| && M.UndoTo(env, s1, n).entries == s1.entries[..k];
      assert s.entries[..last][..k] == s.entries[..k];
    }
  }

  lemma GrownTwice(s: State, s1: State, s2: State)
    requires Grown(s, s1) && Grown(s1, s2)
    ensures Grown(s, s2)
  {
  }

  lemma {:induction false} AddressesGrow(s: State, addrs: seq<Address>)
    ensures Grown(s, M.AddAddresses(s, addrs))
    decreases |addrs|
  {
    if addrs != [] {
      var s1 := M.AddAddress(s, addrs[0]);
      AddressesGrow(s1, addrs[1..]);
      GrownTwice(s, s1, M.AddAddresses(s1, addrs[1..]));
    }
  }

  lemma {:induction false} SlotsGrow(s: State, addr: Address, keys: seq<Hash>)
    ensures Grown(s, M.AddSlots(s, addr, keys))
    decreases |keys|
  {
    if keys != [] {
      var s1 := M.AddSlot(s, addr, keys[0]);
      SlotsGrow(s1, addr, keys[1..]);
      GrownTwice(s, s1, M.AddSlots(s1, addr, keys[1..]));
    }
  }

  lemma {:induction false} TuplesGrow(s: State, list: seq<AccessTuple>)
    ensures Grown(s, M.AddTuples(s, list))
    decreases |list|
  {
    if list != [] {
      var a := list[0].address;
      var s1 := M.AddAddress(s, a);
      var s2 := M.AddSlots(s1, a, list[0].storageKeys);
      SlotsGrow(s1, a, list[0].storageKeys);
      TuplesGrow(s2, list[1..]);
      GrownTwice(s, s1, s2);
      GrownTwice(s, s2, M.AddTuples(s2, list[1..]));
    }
  }

  lemma PrepareGrows(s: State, sender: Address, dst: Option<Address>, precompiles: seq<Address>, list: seq<AccessTuple>)
    ensures Grown(s, M.PrepareAccessList(s, sender, dst, precompiles, list))
  {
    hide M.AddAddresses, M.AddTuples;
    var s1 := M.AddAddress(s, sender);
    var s2 := if dst.Some? then M.AddAddress(s1, dst.value) else s1;
    var s3 := M.AddAddresses(s2, precompiles);
    AddressesGrow(s2, precompiles);
    TuplesGrow(s3, list);
    GrownTwice(s, s1, s2);
    GrownTwice(s, s2, s3);
    GrownTwice(s, s3, M.AddTuples(s3, list));
  }

  lemma GetOrNewGrows(env: Env, s: State, addr: Address)
    ensures Grown(s, M.GetOrNew(env, s, addr))
  {
    hide M.Mark;
  }

  lemma ChangeGrows(s: State, s1: State, e: Change, addr: Address, o: Obj)
    requires Grown(s, s1) && !e.ResetObjectChange?
    ensures Grown(s, M.Change(s1, e, addr, o))
  {
    hide M.Mark;
  }

  lemma AccountChangesGrow(env: Env, s: State, call: Call)
    requires Theorems.IsAccountChange(call) && !call.CreateAccount?
    ensures Grown(s, M.Step(env, s, call).0)
  {
    hide M.GetOrNew, M.Change, M.Credited, M.StoreState, Grown, M.FillCode;
    var a := call.addr;
    GetOrNewGrows(env, s, a);
    var s1 := M.GetOrNew(env, s, a);
    var o := s1.objects[a];
    match call
    case AddBalance(_, amount) =>
      ChangeGrows(s, s1, M.BalanceChange(a, o.account.balance), a, o.(account := M.Credited(o.account, amount)));
    case SubBalance(_, amount) =>
      ChangeGrows(s, s1, M.BalanceChange(a, o.account.balance), a, o.(account := M.Credited(o.account, -amount)));
    case SetNonce(_, nonce) =>
      ChangeGrows(s, s1, M.NonceChange(a, o.account.nonce), a, o.(account := o.account.(nonce := nonce)));
    case SetCode(_, code) =>
      var f := M.FillCode(env, o);
      ChangeGrows(s, s1, M.CodeChange(a, f.code, f.account.codeHash), a,
                  f.(code := code, account := f.account.(codeHash := env.keccak(CodeBytes(code))), dirtyCode := true));
    case SetState(_, key, value) => StoreGrows(env, s, s1, a, key, value);
    case Suicide(_) => SuicideGrows(env, s, a);
  }

  lemma StoreGrows(env: Env, s: State, s1: State, addr: Address, key: Hash, value: Hash)
    requires Grown(s, s1) && addr in s1.objects
    ensures Grown(s, M.StoreState(env, s1, addr, key, value))
  {
    hide M.Mark, M.FillState, M.CurrentState;
  }

  lemma SuicideGrows(env: Env, s: State, addr: Address)
    ensures Grown(s, M.Suicide(env, s, addr))
  {
    hide M.Mark;
  }

  lemma OthersGrow(env: Env, s: State, call: Call)
    requires !Theorems.IsAccountChange(call) && !call.RevertToSnapshot?
    ensures Grown(s, M.Step(env, s, call).0)
  {
    hide M.FillCode, M.FillState, M.CurrentState, M.Mark, M.PrepareAccessList;
    if call.PrepareAccessList? {
      PrepareGrows(s, call.sender, call.dst, call.precompiles, call.list);
    }
  }

  lemma CreationDisciplined(env: Env, s: State, addr: Address)
    requires CountsOk(s) && Disciplined(env, s.entries) && Allowed(env, s, CreateAccount(addr))
    ensures Disciplined(env, M.CreateAccount(env, s, addr).entries)
  {
    var s1, s' := M.Load(env, s, addr), M.CreateAccount(env, s, addr);
    var n := |s.entries|;
    if addr in s1.objects {
      assert s'.entries == s.entries + [M.ResetObjectChange(addr, s1.objects[addr])];
      if addr in s.dirties {
        Theorems.DirtyCountPositive(s.entries, addr);
        var j :| 0 <= j < n && s.entries[j].Dirties(addr);
        assert s'.entries[j] == s.entries[j];
      }
      assert Excused(env, s'.entries, n);
      forall i | 0 <= i < n && s'.entries[i].ResetObjectChange?
        ensures Excused(env, s'.entries, i)
      {
        PushedExcused(env, s.entries, s'.entries[n], i);
      }
    } else {
      GrownDisciplined(env, s, s');
    }
  }

  lemma PushedExcused(env: Env, es: seq<Change>, e: Change, i: nat)
    requires Disciplined(env, es) && i < |es| && es[i].ResetObjectChange?
    ensures (es + [e])[i] == es[i] && Excused(env, es + [e], i)
  {
    assert Excused(env, es, i);
    if j :| 0 <= j < i && es[j].Dirties(es[i].account) {
      assert (es + [e])[j] == es[j];
    }
  }

  lemma RevertDisciplined(env: Env, s: State, id: int)
    requires Disciplined(env, s.entries)
    ensures M.CanRevert(s, id) ==> Disciplined(env, M.RevertToSnapshot(env, s, id).entries)
  {
    hide Disciplined, M.UndoTo;
    if M.CanRevert(s, id) {
      var n := s.revisions[M.Find(s.revisions, id)].journalIndex;
      UndoShortens(env, s, n);
      var k :| 0 <= k <= |s.entries| && M.UndoTo(env, s, n).entries == s.entries[..k];
      PrefixDisciplined(env, s.entries, k);
    }
  }

  lemma StepDisciplined(env: Env, s: State, r: R.Ref, call: Call)
    requires Sim(env, s, r) && Disciplined(env, s.entries) && Allowed(env, s, call)
    ensures Disciplined(env, M.Step(env, s, call).0.entries)
  {
    SimParts(env, s, r);
    hide Sim, Disciplined, CountsOk, Grown, Allowed, M.CreateAccount, M.RevertToSnapshot, M.CanRevert;
    if call.CreateAccount? {
      CreationDisciplined(env, s, call.addr);
    } else if call.RevertToSnapshot? {
      RevertDisciplined(env, s, call.revid);
    } else {
      hide M.Step;
      if Theorems.IsAccountChange(call) {
        AccountChangesGrow(env, s, call);
      } else {
        OthersGrow(env, s, call);
      }
      GrownDisciplined(env, s, M.Step(env, s, call).0);
    }
  }

  lemma {:induction false} RunDisciplined(env: Env, s: State, r: R.Ref, calls: seq<Call>)
    requires Sim(env, s, r) && Disciplined(env, s.entries) && RunAllowed(env, s, calls)
    ensures Disciplined(env, M.Run(env, s, calls).0.entries)
    decreases |calls|
  {
    hide Sim, Disciplined, Allowed, M.Step, R.Step;
    if calls != [] {
      StepDisciplined(env, s, r, calls[0]);
      Theorems.SimStep(env, s, r, calls[0]);
      var (s1, answer) := M.Step(env, s, calls[0]);
      if !answer.Panic? {
        RunDisciplined(env, s1, R.Step(env, r, calls[0]).0, calls[1..]);
      }
    }
  }

  // ---- from the journal to the keeper ----

  /** Before the first entry about it, an account is as persisted. */
  lemma {:induction false} Untouched(env: Env, s: State, r: R.Ref, addr: Address, i: nat)
    requires Sim(env, s, r) && i <= |s.entries|
    requires forall j :: 0 <= j < i ==> !(s.entries[j].OnObject() && s.entries[j].account == addr)
    ensures addr in Before(env, s, i).accts <==> addr in R.Init(env).accts
    ensures addr in R.Init(env).accts ==> Before(env, s, i).accts[addr] == R.Init(env).accts[addr]
  {
    hide Sim, Before, UndoOne, PlainEntry, R.Init;
    if i == 0 {
      AtStart(env, s, r);
    } else {
      Untouched(env, s, r, addr, i - 1);
      BeforeStep(env, s, i - 1);
      UndoneElsewhere(env, Before(env, s, i), s.entries[i - 1], addr);
    }
  }

  lemma AtStart(env: Env, s: State, r: R.Ref)
    requires Sim(env, s, r)
    ensures Before(env, s, 0) == R.Init(env)
  {
    assert PlainEntries(env, s.entries)[0..] == PlainEntries(env, s.entries);
  }

  /** The first reset of an address that no entry marks dirty. */
  lemma FirstReset(s: State, addr: Address) returns (i: nat)
    requires CountsOk(s) && addr !in s.dirties && ResetFrom(s, addr, 0)
    ensures i < |s.entries| && s.entries[i].ResetObjectChange? && s.entries[i].account == addr
    ensures forall j :: 0 <= j < i ==> !(s.entries[j].OnObject() && s.entries[j].account == addr)
    ensures forall j :: 0 <= j < |s.entries| ==> !s.entries[j].Dirties(addr)
  {
    forall j | 0 <= j < |s.entries| ensures !s.entries[j].Dirties(addr) {
      OnlyResets(s, addr, j);
    }
    hide CountsOk;
    i := 0;
    while !(s.entries[i].ResetObjectChange? && s.entries[i].account == addr)
      invariant i < |s.entries|
      invariant forall j :: 0 <= j < i ==> !(s.entries[j].ResetObjectChange? && s.entries[j].account == addr)
      decreases |s.entries| - i
    {
      i := i + 1;
    }
    forall j | 0 <= j < i ensures !(s.entries[j].OnObject() && s.entries[j].account == addr) {
      DirtyOrReset(s.entries[j], addr);
    }
  }

  lemma DirtyOrReset(e: Change, addr: Address)
    requires !e.Dirties(addr) && !(e.ResetObjectChange? && e.account == addr)
    ensures !(e.OnObject() && e.account == addr)
  {
  }

  /** In a disciplined journal, an address that was reset without becoming dirty was as good as new in the keeper. */
  lemma ResetWasAsNew(env: Env, s: State, r: R.Ref, addr: Address)
    requires Sim(env, s, r) && Disciplined(env, s.entries) && addr !in s.dirties && ResetFrom(s, addr, 0)
    ensures addr in env.accounts ==> env.accounts[addr].nonce == 0 && env.accounts[addr].codeHash == env.EmptyCodeHash()
  {
    SimParts(env, s, r);
    hide Sim, CountsOk, Before, ResetFrom;
    var i := FirstReset(s, addr);
    assert Excused(env, s.entries, i);
    Untouched(env, s, r, addr, i);
    ResetBefore(env, s, r, i);
    ViewParts(env, addr, s.entries[i].prevObject);
    InitParts(env, addr);
  }

  lemma ViewParts(env: Env, addr: Address, o: Obj)
    ensures View(env, addr, o).nonce == o.account.nonce && View(env, addr, o).codeHash == o.account.codeHash
  {
  }

  lemma InitParts(env: Env, addr: Address)
    requires addr in env.accounts
    ensures addr in R.Init(env).accts
    ensures R.Init(env).accts[addr].nonce == env.accounts[addr].nonce && R.Init(env).accts[addr].codeHash == env.accounts[addr].codeHash
  {
  }

  lemma DisciplinedIsFaithful(rules: Rules, w: World, tx: TxConfig, s: State, r: R.Ref, addr: Address)
    requires Sim(EnvOf(rules, w, tx), s, r) && Disciplined(EnvOf(rules, w, tx), s.entries)
    requires addr in s.dirties && addr in w.auth && addr in s.objects && w.auth[addr].OtherAccount? ==>
               s.objects[addr].account.codeHash == rules.EmptyCodeHash()
    ensures Faithful(rules, w, s, addr)
  {
    hide Sim, Disciplined, ResetFrom;
    if addr !in s.dirties && ResetFrom(s, addr, 0) {
      ResetWasAsNew(EnvOf(rules, w, tx), s, r, addr);
    }
  }

  /**
   * Over every run whose `CreateAccount` calls meet an absent, already dirty, or zero-nonce and code-free account, a
   * successful commit leaves the keeper reading the live accounts, balances and storage of all addresses, and nothing
   * for suicided ones. Accounts of a type without code hash must not have been given code.
   */
  lemma CommitOfAllowedRun(rules: Rules, w: World, tx: TxConfig, calls: seq<Call>, r: R.Ref, addrs: seq<Address>, order: KeyOrder)
    requires RunAllowed(EnvOf(rules, w, tx), M.START, calls) && WorldOk(rules, w)
    requires Committed(rules, w, tx, M.Run(EnvOf(rules, w, tx), M.START, calls).0, r, addrs, order)
    requires var s := M.Run(EnvOf(rules, w, tx), M.START, calls).0;
             forall a :: a in s.dirties && a in s.objects && a in w.auth && w.auth[a].OtherAccount? ==>
               s.objects[a].account.codeHash == rules.EmptyCodeHash()
    ensures var w' := Commit(rules, w, M.Run(EnvOf(rules, w, tx), M.START, calls).0, addrs, order).world;
            forall a: Address :: ReadsOf(rules, w', a) == Live(r.core, a)
  {
    hide Sim, M.Run, Commit, ReadsOf, Live, Faithful, Disciplined, RunAllowed;
    var env := EnvOf(rules, w, tx);
    var s := M.Run(env, M.START, calls).0;
    SimStart(env);
    NoEntries(env);
    RunDisciplined(env, M.START, R.Start(env), calls);
    CommitAgrees(rules, w, tx, s, r, addrs, order);
    forall a: Address ensures Faithful(rules, w, s, a) {
      DisciplinedIsFaithful(rules, w, tx, s, r, a);
    }
  }

  lemma NoEntries(env: Env)
    ensures Disciplined(env, M.START.entries)
  {
  }
}
