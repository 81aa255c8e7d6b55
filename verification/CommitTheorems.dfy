/** After a successful `Commit` the keeper reads what the StateDB showed; when it does not, and why. */
module CommitTheorems {
  import opened EvmTypes
  import opened Interfaces
  import opened Store
  import opened Undo
  import opened Simulation
  import opened Commits
  import SimulationSteps
  import Theorems
  import R = Reference
  import M = Machine

  // ---- accounts no entry marks dirty ----

  /** The plain state before the i-th entry. */
  ghost function Before(env: Env, s: State, i: nat): R.Core
    requires i <= |s.entries|
  {
    UndoAll(Plain(env, s), PlainEntries(env, s.entries)[i..])
  }

  lemma BeforeStep(env: Env, s: State, i: nat)
    requires i < |s.entries|
    ensures Before(env, s, i) == UndoOne(Before(env, s, i + 1), PlainEntry(env, s.entries[i]))
  {
    hide Plain, PlainEntry, UndoOne;
    var es := PlainEntries(env, s.entries)[i..];
    UndoSplit(Plain(env, s), es, 1);
    assert es[1..] == PlainEntries(env, s.entries)[i + 1..];
    assert es[..1] == [PlainEntry(env, s.entries[i])];
    var core := Before(env, s, i + 1);
    assert UndoAll(core, [PlainEntry(env, s.entries[i])]) == UndoAll(UndoOne(core, PlainEntry(env, s.entries[i])), []);
  }

  ghost predicate ResetFrom(s: State, addr: Address, i: nat)
  {
    exists j :: i <= j < |s.entries| && s.entries[j].ResetObjectChange? && s.entries[j].account == addr
  }

  /** Entries about an address that is not dirty are resets. */
  lemma OnlyResets(s: State, addr: Address, i: nat)
    requires CountsOk(s) && addr !in s.dirties && i < |s.entries|
    ensures !s.entries[i].Dirties(addr)
  {
    Theorems.DirtyCountPositive(s.entries, addr);
  }

  /**
   * Going back over the entries, an account that is not dirty keeps its balance; unless a reset is
   * passed it stays the same altogether, and if one is passed it is now a fresh account.
   */
  lemma {:induction false} CleanAccount(env: Env, s: State, r: R.Ref, addr: Address, i: nat)
    requires Sim(env, s, r) && addr !in s.dirties && addr in r.core.accts && i <= |s.entries|
    ensures var core := Before(env, s, i);
            && addr in core.accts
            && core.accts[addr].balance == r.core.accts[addr].balance
            && (!ResetFrom(s, addr, i) ==> core.accts[addr] == r.core.accts[addr])
            && (ResetFrom(s, addr, i) ==> r.core.accts[addr] == AfterReset(env, addr, r.core.accts[addr]))
    decreases |s.entries| - i
  {
    hide Sim, CountsOk, Before, UndoOne, View, PlainEntry;
    SimParts(env, s, r);
    if i == |s.entries| {
      BeforeNothing(env, s);
    } else {
      CleanAccount(env, s, r, addr, i + 1);
      BeforeStep(env, s, i);
      OnlyResets(s, addr, i);
      var e := s.entries[i];
      if e.ResetObjectChange? && e.account == addr {
        ResetBefore(env, s, r, i);
      } else {
        assert ResetFrom(s, addr, i) <==> ResetFrom(s, addr, i + 1);
        UndoneElsewhere(env, Before(env, s, i + 1), e, addr);
      }
    }
  }

  lemma BeforeNothing(env: Env, s: State)
    ensures Before(env, s, |s.entries|) == Plain(env, s)
  {
    assert PlainEntries(env, s.entries)[|s.entries|..] == [];
  }

  lemma SimParts(env: Env, s: State, r: R.Ref)
    requires Sim(env, s, r)
    ensures CountsOk(s) && r.core == Plain(env, s)
  {
  }

  lemma ResetBefore(env: Env, s: State, r: R.Ref, i: nat)
    requires Sim(env, s, r) && i < |s.entries| && s.entries[i].ResetObjectChange?
    ensures var a := s.entries[i].account;
            var prev := View(env, a, s.entries[i].prevObject);
            && a in Before(env, s, i + 1).accts && Before(env, s, i + 1).accts[a] == AfterReset(env, a, prev)
            && a in Before(env, s, i).accts && Before(env, s, i).accts[a] == prev
  {
    assert ResetAt(env, s, i);
    hide Inv;
    BeforeStep(env, s, i);
  }

  lemma UndoneElsewhere(env: Env, core: R.Core, e: Change, addr: Address)
    requires !(e.OnObject() && e.account == addr)
    ensures addr in UndoOne(core, PlainEntry(env, e)).accts <==> addr in core.accts
    ensures addr in core.accts ==> UndoOne(core, PlainEntry(env, e)).accts[addr] == core.accts[addr]
  {
    hide View;
  }

  /** An account that is not dirty is as persisted, or a fresh one with the persisted balance if it was reset. */
  lemma CleanIsPersisted(env: Env, s: State, r: R.Ref, addr: Address)
    requires Sim(env, s, r) && addr !in s.dirties && addr in r.core.accts
    ensures addr in env.accounts
    ensures var persisted := R.FromAccount(env, addr, env.accounts[addr]);
            r.core.accts[addr] == if ResetFrom(s, addr, 0) then AfterReset(env, addr, persisted) else persisted
  {
    CleanAccount(env, s, r, addr, 0);
    assert PlainEntries(env, s.entries)[0..] == PlainEntries(env, s.entries);
    assert Before(env, s, 0) == R.Init(env);
  }

  // ---- accounts, balances and storage ----

  ghost function Nothing(): Reads {
    Reads(None, 0, imap k: Hash :: NoValue(k))
  }

  /** Addresses without an auth account have no coins and no storage. */
  ghost predicate WorldOk(rules: Rules, w: World) {
    forall a: Address :: a !in w.auth ==> ReadsOf(rules, w, a) == Nothing()
  }

  /** What the keeper should read once the state is committed: the live account, or nothing if it suicided. */
  ghost function Live(core: R.Core, addr: Address): Reads {
    if addr in core.accts && !core.accts[addr].suicided then
      var x := core.accts[addr];
      Reads(Some(Account(x.nonce, x.balance, x.codeHash)), if x.balance >= 0 then x.balance else 0, x.storage)
    else Nothing()
  }

  /**
   * A dirty account of a type without code hash has no code, and an account that was reset without
   * becoming dirty had nonce zero and no code to begin with.
   */
  ghost predicate Faithful(rules: Rules, w: World, s: State, addr: Address) {
    && (addr in s.dirties && addr in s.objects && !s.objects[addr].suicided && addr in w.auth && w.auth[addr].OtherAccount? ==>
          s.objects[addr].account.codeHash == rules.EmptyCodeHash())
    && (addr !in s.dirties && ResetFrom(s, addr, 0) && addr in w.auth ==>
          var account := ToAccount(rules.EmptyCodeHash(), w, addr);
          account.nonce == 0 && account.codeHash == rules.EmptyCodeHash())
  }

  /** What a successful commit is run on. */
  ghost predicate Committed(rules: Rules, w: World, tx: TxConfig, s: State, r: R.Ref, addrs: seq<Address>, order: KeyOrder) {
    && rules.Locked(rules.moduleAccount) == 0
    && Sim(EnvOf(rules, w, tx), s, r)
    && Lists(addrs, s.dirties.Keys)
    && OrdersSlots(s, order)
    && (forall a :: a in addrs ==> a in s.objects)
    && Commit(rules, w, s, addrs, order).Ok?
  }

  lemma CommittedEffect(rules: Rules, w: World, tx: TxConfig, s: State, r: R.Ref, addrs: seq<Address>, order: KeyOrder)
    requires Committed(rules, w, tx, s, r, addrs, order)
    ensures var env := EnvOf(rules, w, tx);
            var w' := Commit(rules, w, s, addrs, order).world;
            && (forall a :: a in addrs ==> ReadsOf(rules, w', a) == Wanted(rules, env, w, a, s.objects[a]))
            && (forall a: Address :: a !in addrs ==> ReadsOf(rules, w', a) == ReadsOf(rules, w, a))
            && w'.supply == w.supply + Gain(w, w', addrs)
            && (forall a :: a in addrs && !s.objects[a].suicided ==> s.objects[a].account.balance >= 0)
  {
    var env := EnvOf(rules, w, tx);
    hide JournalOk, StoresOk, CountsOk, AccessOk, Matches, Commit, Wanted, ReadsOf, Store.GetState;
    CommitEffect(rules, env, w, s, addrs, order);
  }

  /** A dirty address has a live object standing for its account. */
  lemma DirtyIsLive(env: Env, s: State, r: R.Ref, addr: Address)
    requires Sim(env, s, r) && addr in s.dirties
    ensures addr in s.objects && addr in r.core.accts && r.core.accts[addr] == View(env, addr, s.objects[addr])
  {
    Theorems.DirtyCountPositive(s.entries, addr);
    assert DirtyCount(s.entries, addr) > 0;
    SimulationSteps.LiveView(env, s, r, addr);
  }

  lemma AgreeDirty(rules: Rules, w: World, tx: TxConfig, s: State, r: R.Ref, addrs: seq<Address>, order: KeyOrder, addr: Address)
    requires Committed(rules, w, tx, s, r, addrs, order) && WorldOk(rules, w) && addr in s.dirties
    ensures ReadsOf(rules, Commit(rules, w, s, addrs, order).world, addr) == Live(r.core, addr) <==> Faithful(rules, w, s, addr)
  {
    hide Sim, Commit, ReadsOf, Overlay;
    CommittedEffect(rules, w, tx, s, r, addrs, order);
    DirtyIsLive(EnvOf(rules, w, tx), s, r, addr);
  }

  /** An address no one dirtied keeps its reads, and they are right unless a reset was lost. */
  lemma CleanReads(rules: Rules, w: World, tx: TxConfig, s: State, r: R.Ref, addr: Address)
    requires Sim(EnvOf(rules, w, tx), s, r) && WorldOk(rules, w) && addr !in s.dirties
    ensures ReadsOf(rules, w, addr) == Live(r.core, addr) <==> Faithful(rules, w, s, addr)
  {
    var env := EnvOf(rules, w, tx);
    if addr in r.core.accts {
      CleanIsPersisted(env, s, r, addr);
      PersistedReads(rules, w, tx, addr);
      hide Sim, Store.GetState, ReadsOf, R.Persisted;
    } else {
      AbsentEverywhere(env, s, r, addr);
      hide Sim, Store.GetState, ReadsOf;
    }
  }

  lemma PersistedReads(rules: Rules, w: World, tx: TxConfig, addr: Address)
    requires addr in w.auth
    ensures var account := ToAccount(rules.EmptyCodeHash(), w, addr);
            ReadsOf(rules, w, addr) == Reads(Some(account), account.balance, R.Persisted(EnvOf(rules, w, tx), addr))
  {
    hide Store.GetState;
    assert R.Persisted(EnvOf(rules, w, tx), addr) == ReadsOf(rules, w, addr).storage;
  }

  lemma AbsentEverywhere(env: Env, s: State, r: R.Ref, addr: Address)
    requires Sim(env, s, r) && addr !in r.core.accts
    ensures addr !in s.objects && addr !in env.accounts
    ensures forall i :: 0 <= i < |s.entries| && s.entries[i].OnObject() ==> s.entries[i].account != addr
  {
    assert addr !in Plain(env, s).accts;
  }

  lemma AgreeClean(rules: Rules, w: World, tx: TxConfig, s: State, r: R.Ref, addrs: seq<Address>, order: KeyOrder, addr: Address)
    requires Committed(rules, w, tx, s, r, addrs, order) && WorldOk(rules, w) && addr !in s.dirties
    ensures ReadsOf(rules, Commit(rules, w, s, addrs, order).world, addr) == Live(r.core, addr) <==> Faithful(rules, w, s, addr)
  {
    hide Sim, Commit, ReadsOf, Live, Faithful, WorldOk;
    CommittedEffect(rules, w, tx, s, r, addrs, order);
    CleanReads(rules, w, tx, s, r, addr);
  }

  /**
   * After a successful commit the keeper reads, for every address, exactly the live account, its
   * balance and its whole storage, or nothing for suicided and absent accounts, if and only if the
   * address is `Faithful`. The order in which addresses and slots are written does not matter.
   */
  lemma CommitAgrees(rules: Rules, w: World, tx: TxConfig, s: State, r: R.Ref, addrs: seq<Address>, order: KeyOrder)
    requires Committed(rules, w, tx, s, r, addrs, order) && WorldOk(rules, w)
    ensures forall a: Address ::
              ReadsOf(rules, Commit(rules, w, s, addrs, order).world, a) == Live(r.core, a) <==> Faithful(rules, w, s, a)
  {
    hide Sim, Commit, ReadsOf, Live, Faithful;
    forall a: Address
      ensures ReadsOf(rules, Commit(rules, w, s, addrs, order).world, a) == Live(r.core, a) <==> Faithful(rules, w, s, a)
    {
      if a in s.dirties {
        AgreeDirty(rules, w, tx, s, r, addrs, order, a);
      } else {
        AgreeClean(rules, w, tx, s, r, addrs, order, a);
      }
    }
  }

  /**
   * A successful commit moves the supply by exactly the balance changes, sets every surviving dirty
   * balance to its final, non-negative value, leaves all clean balances alone, the module account's
   * included, and keeps the world well formed.
   */
  lemma CommitConserves(rules: Rules, w: World, tx: TxConfig, s: State, r: R.Ref, addrs: seq<Address>, order: KeyOrder)
    requires Committed(rules, w, tx, s, r, addrs, order) && WorldOk(rules, w)
    ensures var w' := Commit(rules, w, s, addrs, order).world;
            && w'.supply == w.supply + Gain(w, w', addrs)
            && (forall a :: a in s.dirties && a in r.core.accts && !r.core.accts[a].suicided ==>
                  0 <= r.core.accts[a].balance == BankBalance(w', a))
            && (forall a :: a in s.dirties && a in r.core.accts && r.core.accts[a].suicided ==> BankBalance(w', a) == 0)
            && (forall a: Address :: a !in s.dirties ==> BankBalance(w', a) == BankBalance(w, a))
            && WorldOk(rules, w')
  {
    var env := EnvOf(rules, w, tx);
    var w' := Commit(rules, w, s, addrs, order).world;
    CommittedEffect(rules, w, tx, s, r, addrs, order);
    forall a | a in s.dirties && a in r.core.accts
      ensures r.core.accts[a].suicided ==> BankBalance(w', a) == 0
      ensures !r.core.accts[a].suicided ==> 0 <= r.core.accts[a].balance == BankBalance(w', a)
    {
      DirtyIsLive(env, s, r, a);
      ConservesAt(rules, env, w, w', s.objects[a], a);
    }
    hide Sim, Commit, Overlay, Wanted, Store.GetState;
    forall a: Address | a !in s.dirties ensures BankBalance(w', a) == BankBalance(w, a) {
      BalanceOfReads(rules, w, w', a);
    }
    forall a: Address | a !in w'.auth ensures ReadsOf(rules, w', a) == Nothing() {
      WorldOkAt(rules, env, w, w', s, addrs, a);
    }
  }

  lemma ConservesAt(rules: Rules, env: Env, w: World, w': World, o: Obj, addr: Address)
    requires ReadsOf(rules, w', addr) == Wanted(rules, env, w, addr, o)
    requires WorldOk(rules, w)
    requires !o.suicided ==> o.account.balance >= 0
    ensures BankBalance(w', addr) == if o.suicided then 0 else o.account.balance
  {
    assert ReadsOf(rules, w', addr).balance == BankBalance(w', addr);
    hide Overlay, Store.GetState;
  }

  lemma WorldOkAt(rules: Rules, env: Env, w: World, w': World, s: State, addrs: seq<Address>, addr: Address)
    requires WorldOk(rules, w) && addr !in w'.auth
    requires addr in addrs ==> addr in s.objects && ReadsOf(rules, w', addr) == Wanted(rules, env, w, addr, s.objects[addr])
    requires addr !in addrs ==> ReadsOf(rules, w', addr) == ReadsOf(rules, w, addr)
    ensures ReadsOf(rules, w', addr) == Nothing()
  {
    assert ReadsOf(rules, w', addr).account == None;
    assert addr in w.auth ==> ReadsOf(rules, w, addr).account.Some?;
    hide Overlay, Store.GetState;
  }

  // ---- the reset that is lost ----

  /**
   * Creating an account over an existing one and nothing more is lost by `Commit`: the live nonce is zero, but no
   * address is dirty, so the commit writes nothing and the keeper goes on reading the old nonce.
   */
  lemma ResetIsLost(rules: Rules, w: World, tx: TxConfig, addr: Address)
    requires addr in w.auth && w.auth[addr].sequence != 0
    ensures var env := EnvOf(rules, w, tx);
            var s := M.Run(env, M.START, [CreateAccount(addr)]).0;
            && R.Run(env, R.Start(env), [CreateAccount(addr), GetNonce(addr)]).1 == [Done, Number(0)]
            && !Faithful(rules, w, s, addr)
            && DirtyAddresses(s) == []
            && Commit(rules, w, s, DirtyAddresses(s), SlotOrder(s)) == Ok(w)
            && ReadsOf(rules, w, addr) != Live(R.Run(env, R.Start(env), [CreateAccount(addr)]).0.core, addr)
  {
    var env := EnvOf(rules, w, tx);
    RunOnce(env, CreateAccount(addr));
    LostReset(env, addr);
    LiveNonce(rules, w, env, addr);
    hide M.Run, R.Run, M.CreateAccount, EnvOf, R.CreateAccount, ReadsOf, Live, SlotOrder, DirtyAddresses;
    var s := M.CreateAccount(env, M.START, addr);
    assert s.entries[0].ResetObjectChange?;
    NothingDirty(s);
  }

  lemma ListedFrom(items: seq<Address>, all: set<Address>)
    requires Lists(items, all)
    ensures forall i :: 0 <= i < |items| ==> items[i] in all
  {
    forall i | 0 <= i < |items| ensures items[i] in all {
      assert items[i] in items;
    }
  }

  lemma NothingDirty(s: State)
    requires s.dirties == map[]
    ensures DirtyAddresses(s) == []
  {
    ListedFrom(DirtyAddresses(s), s.dirties.Keys);
  }

  lemma LiveNonce(rules: Rules, w: World, env: Env, addr: Address)
    requires addr in w.auth && w.auth[addr].sequence != 0
    ensures ReadsOf(rules, w, addr) != Live(R.CreateAccount(env, R.Init(env), addr), addr)
  {
    assert ReadsOf(rules, w, addr).account.value.nonce != 0;
    assert Live(R.CreateAccount(env, R.Init(env), addr), addr).account.value.nonce == 0;
  }

  lemma RunOnce(env: Env, call: Call)
    requires call.CreateAccount?
    ensures M.Run(env, M.START, [call]).0 == M.CreateAccount(env, M.START, call.addr)
    ensures R.Run(env, R.Start(env), [call]).0.core == R.CreateAccount(env, R.Init(env), call.addr)
    ensures R.Run(env, R.Start(env), [call, GetNonce(call.addr)]).1 == [Done, Number(0)]
  {
    hide M.CreateAccount;
    assert [call][1..] == [];
    assert M.Run(env, M.CreateAccount(env, M.START, call.addr), []) == (M.CreateAccount(env, M.START, call.addr), []);
    var r1 := R.Step(env, R.Start(env), call).0;
    assert R.Run(env, r1, []) == (r1, []);
    assert [call, GetNonce(call.addr)][1..] == [GetNonce(call.addr)];
    assert [GetNonce(call.addr)][1..] == [];
    assert R.Run(env, r1, [GetNonce(call.addr)]).1 == [Number(0)];
  }

  lemma LostReset(env: Env, addr: Address)
    requires addr in env.accounts
    ensures var s := M.CreateAccount(env, M.START, addr);
            && s.dirties == map[]
            && |s.entries| == 1 && s.entries[0].ResetObjectChange? && s.entries[0].account == addr
  {
  }
}
