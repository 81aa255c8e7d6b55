/** Every call of the machine keeps the simulation and answers as the reference machine does. */
module SimulationSteps {
  import opened EvmTypes
  import opened Interfaces
  import opened AccessLists
  import opened Undo
  import opened Simulation
  import R = Reference
  import M = Machine

  // ---- objects ----

  /** Replacing one object changes the plain state at that address only. */
  lemma PlainSetObj(env: Env, s: State, addr: Address, o: Obj)
    ensures Plain(env, M.SetObj(s, addr, o)) == R.Put(Plain(env, s), addr, View(env, addr, o))
  {
    hide View, R.FromAccount;
    assert Accounts(env, M.SetObj(s, addr, o).objects) == Accounts(env, s.objects)[addr := View(env, addr, o)];
  }

  lemma ViewNewObj(env: Env, addr: Address, account: Account)
    ensures View(env, addr, M.NewObj(account)) == R.FromAccount(env, addr, account)
    ensures ObjOk(env, addr, M.NewObj(account))
  {
    assert Overlay(env, addr, map[]) == R.Persisted(env, addr);
  }

  lemma InvSetObj(env: Env, s: State, addr: Address, o: Obj)
    requires Inv(env, s) && ObjOk(env, addr, o)
    requires addr in s.objects ==> s.objects[addr].dirty.Keys <= o.dirty.Keys
    ensures Inv(env, M.SetObj(s, addr, o))
  {
    StoresGrow(s, M.SetObj(s, addr, o));
    hide StoresOk, ObjOk;
  }

  lemma SimRecache(env: Env, s: State, r: R.Ref, addr: Address, o: Obj)
    requires Sim(env, s, r)
    requires ObjOk(env, addr, o)
    requires addr in s.objects ==> s.objects[addr].dirty.Keys <= o.dirty.Keys
    requires addr in r.core.accts && View(env, addr, o) == r.core.accts[addr]
    ensures Sim(env, M.SetObj(s, addr, o), r)
  {
    InvSetObj(env, s, addr, o);
    hide Inv;
    PlainSetObj(env, s, addr, o);
    PutSame(r.core, addr);
    Recached(env, s, r, M.SetObj(s, addr, o));
  }

  lemma SimLoad(env: Env, s: State, r: R.Ref, addr: Address)
    requires Sim(env, s, r)
    ensures Sim(env, M.Load(env, s, addr), r)
    ensures addr in M.Load(env, s, addr).objects <==> addr in r.core.accts
    ensures addr in r.core.accts ==> View(env, addr, M.Load(env, s, addr).objects[addr]) == r.core.accts[addr]
  {
    if addr !in s.objects && addr in env.accounts {
      var account := env.accounts[addr];
      ViewNewObj(env, addr, account);
      SimRecache(env, s, r, addr, M.NewObj(account));
    }
  }

  /** The entry records what replacing the object loses; dirty slots are lost by a reset only. */
  ghost predicate Replaces(env: Env, e: Change, prev: Obj, o: Obj) {
    && (if e.ResetObjectChange? then e.prevObject == prev else prev.dirty.Keys <= o.dirty.Keys)
    && (e.StorageChange? ==> e.key in o.dirty)
    && (e.CodeChange? ==> CodeKnown(env, e.prevCode, e.prevHash))
  }

  lemma JournalPush(env: Env, s: State, e: Change, o: Obj)
    requires JournalOk(env, s) && e.OnObject()
    requires e.CreateObjectChange? ==> e.account !in s.objects && e.account !in env.accounts
    ensures JournalOk(env, M.Change(s, e, e.account, o))
  {
  }

  /** Journalling a change of a live object keeps the machine's own invariant. */
  lemma InvChange(env: Env, s: State, e: Change, o: Obj)
    requires Inv(env, s)
    requires e.OnObject() && ObjOk(env, e.account, o)
    requires e.CreateObjectChange? ==> e.account !in s.objects && e.account !in env.accounts
    requires !e.CreateObjectChange? ==> e.account in s.objects && Replaces(env, e, s.objects[e.account], o)
    ensures Inv(env, M.Change(s, e, e.account, o))
  {
    CountsAppend(s, e);
    AccessAppend(s, e);
    StoresPush(s, e, o);
    JournalPush(env, s, e, o);
    hide CountsOk, AccessOk, StoresOk, JournalOk, ObjOk;
  }

  /** A journalled change of a live object, undone exactly by its entry. */
  lemma SimChange(env: Env, s: State, r: R.Ref, e: Change, o: Obj)
    requires Sim(env, s, r)
    requires e.OnObject() && !e.CreateObjectChange?
    requires e.account in s.objects && Replaces(env, e, s.objects[e.account], o)
    requires ObjOk(env, e.account, o)
    requires e.account in r.core.accts
    requires (if e.ResetObjectChange? then View(env, e.account, e.prevObject)
              else UndoAcct(PlainEntry(env, e), View(env, e.account, o))) == r.core.accts[e.account]
    requires e.ResetObjectChange? ==> View(env, e.account, o) == AfterReset(env, e.account, View(env, e.account, e.prevObject))
    ensures Sim(env, M.Change(s, e, e.account, o), r.(core := R.Put(r.core, e.account, View(env, e.account, o))))
  {
    InvChange(env, s, e, o);
    hide Inv;
    UndoPut(r.core, PlainEntry(env, e), View(env, e.account, o));
    PlainSetObj(env, M.Append(s, e), e.account, o);
    assert Plain(env, M.Append(s, e)) == Plain(env, s);
    Pushed(env, s, r, M.Change(s, e, e.account, o), e);
  }

  /** Creating an account nobody has. */
  lemma SimCreate(env: Env, s: State, r: R.Ref, addr: Address)
    requires Sim(env, s, r) && addr !in r.core.accts
    ensures Sim(env, M.Change(s, M.CreateObjectChange(addr), addr, M.EmptyObj(env)), r.(core := R.Put(r.core, addr, R.Fresh(env, addr))))
  {
    var e: Change := M.CreateObjectChange(addr);
    var o := M.EmptyObj(env);
    ViewNewObj(env, addr, o.account);
    InvChange(env, s, e, o);
    hide Inv;
    PlainSetObj(env, M.Append(s, e), addr, o);
    assert Plain(env, M.Append(s, e)) == Plain(env, s);
    PutFreshAndRemove(r.core, addr, R.Fresh(env, addr));
    Pushed(env, s, r, M.Change(s, e, addr, o), e);
  }

  lemma SimGetOrNew(env: Env, s: State, r: R.Ref, addr: Address)
    requires Sim(env, s, r)
    ensures Sim(env, M.GetOrNew(env, s, addr), r.(core := R.Touch(env, r.core, addr)))
  {
    hide Sim;
    SimLoad(env, s, r, addr);
    if addr !in r.core.accts {
      SimCreate(env, M.Load(env, s, addr), r, addr);
    }
  }

  /** The live object of an existing account stands for it. */
  lemma LiveView(env: Env, s: State, r: R.Ref, addr: Address)
    requires Sim(env, s, r) && addr in s.objects
    ensures addr in r.core.accts && r.core.accts[addr] == View(env, addr, s.objects[addr])
    ensures ObjOk(env, addr, s.objects[addr])
  {
  }

  // ---- account changes ----

  lemma SimAddBalance(env: Env, s: State, r: R.Ref, addr: Address, amount: int)
    requires Sim(env, s, r)
    ensures Sim(env, M.AddBalance(env, s, addr, amount), r.(core := R.AddBalance(env, r.core, addr, amount)))
  {
    hide Sim, M.GetOrNew, R.Touch, M.Change, Overlay, Plain;
    SimGetOrNew(env, s, r, addr);
    var s1 := M.GetOrNew(env, s, addr);
    var r1 := r.(core := R.Touch(env, r.core, addr));
    LiveView(env, s1, r1, addr);
    var o := s1.objects[addr];
    var x := r1.core.accts[addr];
    if amount == 0 {
      assert R.Put(r1.core, addr, x.(balance := x.balance + 0)) == r1.core;
    } else {
      var o' := o.(account := o.account.(balance := o.account.balance + amount));
      assert View(env, addr, o') == x.(balance := x.balance + amount);
      SimChange(env, s1, r1, M.BalanceChange(addr, o.account.balance), o');
    }
  }

  lemma SimSetNonce(env: Env, s: State, r: R.Ref, addr: Address, nonce: uint64)
    requires Sim(env, s, r)
    ensures Sim(env, M.SetNonce(env, s, addr, nonce), r.(core := R.SetNonce(env, r.core, addr, nonce)))
  {
    hide Sim, M.GetOrNew, R.Touch, M.Change, Overlay;
    SimGetOrNew(env, s, r, addr);
    var s1 := M.GetOrNew(env, s, addr);
    var r1 := r.(core := R.Touch(env, r.core, addr));
    LiveView(env, s1, r1, addr);
    var o := s1.objects[addr];
    var x := r1.core.accts[addr];
    var o' := o.(account := o.account.(nonce := nonce));
    assert View(env, addr, o') == x.(nonce := nonce);
    SimChange(env, s1, r1, M.NonceChange(addr, o.account.nonce), o');
  }

  lemma SimSetCode(env: Env, s: State, r: R.Ref, addr: Address, code: Option<Bytes>)
    requires Sim(env, s, r)
    ensures Sim(env, M.SetCode(env, s, addr, code), r.(core := R.SetCode(env, r.core, addr, code)))
  {
    hide Sim, M.GetOrNew, R.Touch, M.Change, Overlay;
    SimGetOrNew(env, s, r, addr);
    var s1 := M.GetOrNew(env, s, addr);
    var r1 := r.(core := R.Touch(env, r.core, addr));
    LiveView(env, s1, r1, addr);
    var o := M.FillCode(env, s1.objects[addr]);
    var x := r1.core.accts[addr];
    var o' := o.(code := code, account := o.account.(codeHash := env.keccak(CodeBytes(code))), dirtyCode := true);
    assert View(env, addr, o') == x.(codeHash := env.keccak(CodeBytes(code)), code := code);
    SimChange(env, s1, r1, M.CodeChange(addr, o.code, o.account.codeHash), o');
  }

  /** Reading a slot through the caches gives the plain storage and leaves the view alone. */
  lemma FilledState(env: Env, addr: Address, o: Obj, key: Hash)
    requires ObjOk(env, addr, o)
    ensures var o' := M.FillState(env, addr, o, key);
            && ObjOk(env, addr, o')
            && View(env, addr, o') == View(env, addr, o)
            && key in View(env, addr, o).storage
            && M.CurrentState(o', key) == View(env, addr, o).storage[key]
            && key in o'.origin
  {
  }

  lemma StorageSame(x: R.Acct, key: Hash)
    requires key in x.storage
    ensures x.(storage := x.storage[key := x.storage[key]]) == x
  {
    assert x.storage[key := x.storage[key]] == x.storage;
  }

  lemma OverlayUpdate(env: Env, addr: Address, dirty: map<Hash, Hash>, key: Hash, value: Hash)
    ensures Overlay(env, addr, dirty[key := value]) == Overlay(env, addr, dirty)[key := value]
    ensures Overlay(env, addr, dirty)[key := value][key := Overlay(env, addr, dirty)[key]] == Overlay(env, addr, dirty)
  {
  }

  /** Writing a dirty slot writes the plain storage, and writing the old value back restores it. */
  lemma DirtyState(env: Env, addr: Address, o: Obj, key: Hash, value: Hash)
    requires ObjOk(env, addr, o) && key in o.origin
    ensures var x := View(env, addr, o);
            var o' := o.(dirty := o.dirty[key := value]);
            && key in x.storage
            && View(env, addr, o') == x.(storage := x.storage[key := value])
            && ObjOk(env, addr, o')
            && UndoAcct(M.StorageChange(addr, key, x.storage[key]), View(env, addr, o')) == x
  {
    OverlayUpdate(env, addr, o.dirty, key, value);
    assert key in Overlay(env, addr, o.dirty);
    hide Overlay;
  }

  /** `SetState` on an object that is already live. */
  lemma SimStoreState(env: Env, s: State, r: R.Ref, addr: Address, key: Hash, value: Hash)
    requires Sim(env, s, r) && addr in s.objects
    ensures addr in r.core.accts
    ensures var x := r.core.accts[addr];
            Sim(env, M.StoreState(env, s, addr, key, value), r.(core := R.Put(r.core, addr, x.(storage := x.storage[key := value]))))
  {
    hide Sim, View, Overlay, M.Change, M.SetObj;
    LiveView(env, s, r, addr);
    FilledState(env, addr, s.objects[addr], key);
    var o := M.FillState(env, addr, s.objects[addr], key);
    var prev := M.CurrentState(o, key);
    if prev == value {
      StorageSame(r.core.accts[addr], key);
      PutSame(r.core, addr);
      SimRecache(env, s, r, addr, o);
    } else {
      DirtyState(env, addr, o, key, value);
      SimChange(env, s, r, M.StorageChange(addr, key, prev), o.(dirty := o.dirty[key := value]));
    }
  }

  lemma SimSetState(env: Env, s: State, r: R.Ref, addr: Address, key: Hash, value: Hash)
    requires Sim(env, s, r)
    ensures Sim(env, M.SetState(env, s, addr, key, value), r.(core := R.SetState(env, r.core, addr, key, value)))
  {
    hide Sim, M.GetOrNew, R.Touch, M.StoreState;
    SimGetOrNew(env, s, r, addr);
    SimStoreState(env, M.GetOrNew(env, s, addr), r.(core := R.Touch(env, r.core, addr)), addr, key, value);
  }

  lemma SimCreateAccount(env: Env, s: State, r: R.Ref, addr: Address)
    requires Sim(env, s, r)
    ensures Sim(env, M.CreateAccount(env, s, addr), r.(core := R.CreateAccount(env, r.core, addr)))
  {
    hide Sim;
    SimLoad(env, s, r, addr);
    var s1 := M.Load(env, s, addr);
    if addr in r.core.accts {
      LiveView(env, s1, r, addr);
      var prev := s1.objects[addr];
      var o := M.NewObj(Account(0, prev.account.balance, env.EmptyCodeHash()));
      ViewNewObj(env, addr, o.account);
      SimChange(env, s1, r, M.ResetObjectChange(addr, prev), o);
      assert M.CreateAccount(env, s, addr) == M.Change(s1, M.ResetObjectChange(addr, prev), addr, o);
    } else {
      SimCreate(env, s1, r, addr);
    }
  }

  lemma SimSuicide(env: Env, s: State, r: R.Ref, addr: Address)
    requires Sim(env, s, r)
    ensures Sim(env, M.Suicide(env, s, addr), r.(core := R.Suicide(r.core, addr)))
    ensures addr in M.Load(env, s, addr).objects <==> addr in r.core.accts
  {
    hide Sim, M.Load, M.Change, Overlay;
    SimLoad(env, s, r, addr);
    var s1 := M.Load(env, s, addr);
    if addr in r.core.accts {
      LiveView(env, s1, r, addr);
      var o := s1.objects[addr];
      var x := r.core.accts[addr];
      var o' := o.(suicided := true, account := o.account.(balance := 0));
      assert View(env, addr, o') == x.(suicided := true, balance := 0);
      SimChange(env, s1, r, M.SuicideChange(addr, o.suicided, o.account.balance), o');
    }
  }

  // ---- refund counter, logs ----

  lemma PlainParts(env: Env, s: State, s': State)
    requires s'.objects == s.objects && s'.refund == s.refund && s'.logs == s.logs && s'.al == s.al
    ensures Plain(env, s') == Plain(env, s)
  {
  }

  lemma InvParts(env: Env, s: State, s': State)
    requires Inv(env, s)
    requires s'.objects == s.objects && s'.entries == s.entries && s'.dirties == s.dirties && s'.al == s.al
    ensures Inv(env, s')
  {
    hide ObjOk, DirtyCount, Replay, Holder;
  }

  /** Journalling a change that is neither about an object nor about the access list. */
  lemma InvAppend(env: Env, s: State, e: Change)
    requires Inv(env, s) && (e.RefundChange? || e.AddLogChange?)
    ensures Inv(env, M.Append(s, e))
  {
    CountsAppend(s, e);
    AccessAppend(s, e);
    StoresAppend(s, e);
    hide CountsOk, AccessOk, StoresOk, ObjOk;
  }

  lemma SimRefund(env: Env, s: State, r: R.Ref, refund: uint64)
    requires Sim(env, s, r)
    ensures Sim(env, M.Append(s, M.RefundChange(s.refund)).(refund := refund), r.(core := r.core.(refund := refund)))
  {
    InvAppend(env, s, M.RefundChange(s.refund));
    var s' := M.Append(s, M.RefundChange(s.refund)).(refund := refund);
    hide Inv;
    InvParts(env, M.Append(s, M.RefundChange(s.refund)), s');
    Pushed(env, s, r, s', M.RefundChange(s.refund));
  }

  lemma SimAddLog(env: Env, s: State, r: R.Ref, log: Log)
    requires Sim(env, s, r)
    ensures Sim(env, M.Append(s, M.AddLogChange).(logs := s.logs + [log]), r.(core := r.core.(logs := r.core.logs + [log])))
  {
    InvAppend(env, s, M.AddLogChange);
    var s' := M.Append(s, M.AddLogChange).(logs := s.logs + [log]);
    hide Inv;
    InvParts(env, M.Append(s, M.AddLogChange), s');
    assert (s.logs + [log])[..|s.logs|] == s.logs;
    Pushed(env, s, r, s', M.AddLogChange);
  }

  // ---- access list ----

  /** The index built by the journal's additions is well formed. */
  lemma {:induction false} ReplayValid(es: seq<Change>)
    ensures Replay(es).Valid()
  {
    if es != [] {
      ReplayValid(es[..|es| - 1]);
      var al := Replay(es[..|es| - 1]);
      match es[|es| - 1]
      case AddAccountChange(a) => AddAddressRefines(al, a);
      case AddSlotChange(a, slot) => AddSlotRefines(al, a, slot);
      case _ =>
    }
  }

  lemma InvAddAddress(env: Env, s: State, addr: Address)
    requires Inv(env, s) && !s.al.ContainsAddress(addr)
    ensures Inv(env, M.AddAddress(s, addr))
  {
    CountsAppend(s, M.AddAccountChange(addr));
    StoresAppend(s, M.AddAccountChange(addr));
    hide CountsOk, StoresOk, ObjOk;
    assert M.AddAddress(s, addr).entries[..|s.entries|] == s.entries;
  }

  /** Touching an address for the first time. */
  lemma SimAddNewAddress(env: Env, s: State, r: R.Ref, addr: Address)
    requires Sim(env, s, r) && !s.al.ContainsAddress(addr)
    ensures Sim(env, M.AddAddress(s, addr), r.(core := r.core.(warm := r.core.warm + {addr})))
  {
    InvAddAddress(env, s, addr);
    ReplayValid(s.entries);
    AddAddressRefines(s.al, addr);
    hide Inv;
    assert r.core.warm + {addr} - {addr} == r.core.warm;
    assert forall slot: Hash :: (addr, slot) !in r.core.warmSlots;
    Pushed(env, s, r, M.AddAddress(s, addr), M.AddAccountChange(addr));
  }

  lemma SimAddAddress(env: Env, s: State, r: R.Ref, addr: Address)
    requires Sim(env, s, r)
    ensures Sim(env, M.AddAddress(s, addr), r.(core := r.core.(warm := r.core.warm + {addr})))
  {
    if s.al.ContainsAddress(addr) {
      assert addr in r.core.warm;
      assert r.core.warm + {addr} == r.core.warm;
    } else {
      SimAddNewAddress(env, s, r, addr);
    }
  }

  lemma InvAddNewSlot(env: Env, s: State, addr: Address, slot: Hash)
    requires Inv(env, s) && s.al.ContainsAddress(addr) && !s.al.ContainsSlot(addr, slot)
    ensures Inv(env, M.AddSlot(s, addr, slot))
  {
    CountsAppend(s, M.AddSlotChange(addr, slot));
    StoresAppend(s, M.AddSlotChange(addr, slot));
    hide CountsOk, StoresOk, ObjOk;
    assert M.AddSlot(s, addr, slot).entries[..|s.entries|] == s.entries;
  }

  /** A new slot of an address already in the list. */
  lemma SimAddNewSlot(env: Env, s: State, r: R.Ref, addr: Address, slot: Hash)
    requires Sim(env, s, r) && s.al.ContainsAddress(addr) && !s.al.ContainsSlot(addr, slot)
    ensures Sim(env, M.AddSlot(s, addr, slot), r.(core := R.AddSlot(r.core, addr, slot)))
  {
    InvAddNewSlot(env, s, addr, slot);
    ReplayValid(s.entries);
    AddSlotRefines(s.al, addr, slot);
    hide Inv;
    assert r.core.warm + {addr} == r.core.warm;
    assert (addr, slot) !in r.core.warmSlots;
    assert r.core.warmSlots + iset{(addr, slot)} - iset{(addr, slot)} == r.core.warmSlots;
    Pushed(env, s, r, M.AddSlot(s, addr, slot), M.AddSlotChange(addr, slot));
  }

  lemma SimAddListedSlot(env: Env, s: State, r: R.Ref, addr: Address, slot: Hash)
    requires Sim(env, s, r) && s.al.ContainsAddress(addr)
    ensures Sim(env, M.AddSlot(s, addr, slot), r.(core := R.AddSlot(r.core, addr, slot)))
  {
    if s.al.ContainsSlot(addr, slot) {
      assert r.core.warm + {addr} == r.core.warm;
      assert r.core.warmSlots + iset{(addr, slot)} == r.core.warmSlots;
      var i := s.al.addresses[addr];
      assert s.al.slots[i] + {slot} == s.al.slots[i];
      assert s.al.AddSlot(addr, slot) == s.al;
    } else {
      SimAddNewSlot(env, s, r, addr, slot);
    }
  }

  /** Adding a slot of an unlisted address is adding the address and then the slot. */
  lemma SimAddSlot(env: Env, s: State, r: R.Ref, addr: Address, slot: Hash)
    requires Sim(env, s, r)
    ensures Sim(env, M.AddSlot(s, addr, slot), r.(core := R.AddSlot(r.core, addr, slot)))
  {
    hide Sim, Plain;
    if s.al.ContainsAddress(addr) {
      SimAddListedSlot(env, s, r, addr, slot);
    } else {
      SimAddAddress(env, s, r, addr);
      var s1 := M.AddAddress(s, addr);
      var r1 := r.(core := r.core.(warm := r.core.warm + {addr}));
      SimAddListedSlot(env, s1, r1, addr, slot);
      assert s.al.addresses[addr := -1][addr := |s.al.slots|] == s.al.addresses[addr := |s.al.slots|];
      assert M.AddSlot(s1, addr, slot) == M.AddSlot(s, addr, slot);
      assert r.core.warm + {addr} + {addr} == r.core.warm + {addr};
    }
  }

  lemma {:induction false} SimAddAddresses(env: Env, s: State, r: R.Ref, addrs: seq<Address>)
    requires Sim(env, s, r)
    ensures Sim(env, M.AddAddresses(s, addrs), r.(core := r.core.(warm := r.core.warm + set a | a in addrs)))
    decreases |addrs|
  {
    hide Sim;
    if addrs == [] {
      assert r.core.warm + (set a | a in addrs) == r.core.warm;
    } else {
      SimAddAddress(env, s, r, addrs[0]);
      var r1 := r.(core := r.core.(warm := r.core.warm + {addrs[0]}));
      SimAddAddresses(env, M.AddAddress(s, addrs[0]), r1, addrs[1..]);
      assert r.core.warm + {addrs[0]} + (set a | a in addrs[1..]) == r.core.warm + set a | a in addrs;
    }
  }

  ghost function SlotsOf(addr: Address, keys: seq<Hash>): iset<(Address, Hash)> {
    iset j | 0 <= j < |keys| :: (addr, keys[j])
  }

  lemma {:induction false} SimAddSlots(env: Env, s: State, r: R.Ref, addr: Address, keys: seq<Hash>)
    requires Sim(env, s, r) && addr in r.core.warm
    ensures Sim(env, M.AddSlots(s, addr, keys), r.(core := r.core.(warmSlots := r.core.warmSlots + SlotsOf(addr, keys))))
    decreases |keys|
  {
    hide Sim;
    var slots := r.core.warmSlots;
    if keys == [] {
      assert slots + SlotsOf(addr, keys) == slots;
    } else {
      SimAddSlot(env, s, r, addr, keys[0]);
      assert r.core.warm + {addr} == r.core.warm;
      var r1 := r.(core := R.AddSlot(r.core, addr, keys[0]));
      SimAddSlots(env, M.AddSlot(s, addr, keys[0]), r1, addr, keys[1..]);
      SlotsOfCons(addr, keys);
      assert slots + iset{(addr, keys[0])} + SlotsOf(addr, keys[1..]) == slots + SlotsOf(addr, keys);
    }
  }

  lemma SlotsOfCons(addr: Address, keys: seq<Hash>)
    requires keys != []
    ensures SlotsOf(addr, keys) == iset{(addr, keys[0])} + SlotsOf(addr, keys[1..])
  {
    forall p ensures p in SlotsOf(addr, keys) <==> p in iset{(addr, keys[0])} + SlotsOf(addr, keys[1..]) {
      if p in SlotsOf(addr, keys) {
        var j :| 0 <= j < |keys| && p == (addr, keys[j]);
        assert j > 0 ==> keys[j] == keys[1..][j - 1];
      }
      if p in SlotsOf(addr, keys[1..]) {
        var j :| 0 <= j < |keys[1..]| && p == (addr, keys[1..][j]);
        assert keys[1..][j] == keys[j + 1];
      }
    }
  }

  ghost function ListAddresses(list: seq<AccessTuple>): set<Address> {
    set i | 0 <= i < |list| :: list[i].address
  }

  lemma PreparedCons(list: seq<AccessTuple>)
    requires list != []
    ensures ListAddresses(list) == {list[0].address} + ListAddresses(list[1..])
    ensures R.PreparedSlots(list) == SlotsOf(list[0].address, list[0].storageKeys) + R.PreparedSlots(list[1..])
  {
    forall a ensures a in ListAddresses(list) <==> a in {list[0].address} + ListAddresses(list[1..]) {
      if a in ListAddresses(list) {
        var i :| 0 <= i < |list| && a == list[i].address;
        assert i > 0 ==> list[i] == list[1..][i - 1];
      }
      if a in ListAddresses(list[1..]) {
        var i :| 0 <= i < |list[1..]| && a == list[1..][i].address;
        assert list[1..][i] == list[i + 1];
      }
    }
    forall p
      ensures p in R.PreparedSlots(list) <==> p in SlotsOf(list[0].address, list[0].storageKeys) + R.PreparedSlots(list[1..])
    {
      if p in R.PreparedSlots(list) {
        var i, j :| 0 <= i < |list| && 0 <= j < |list[i].storageKeys| && p == (list[i].address, list[i].storageKeys[j]);
        if i > 0 {
          assert list[1..][i - 1] == list[i];
          assert p == (list[1..][i - 1].address, list[1..][i - 1].storageKeys[j]);
        }
      }
      if p in R.PreparedSlots(list[1..]) {
        var i, j :| 0 <= i < |list[1..]| && 0 <= j < |list[1..][i].storageKeys| && p == (list[1..][i].address, list[1..][i].storageKeys[j]);
        assert list[1..][i] == list[i + 1];
        assert p == (list[i + 1].address, list[i + 1].storageKeys[j]);
      }
    }
  }

  lemma {:induction false} SimAddTuples(env: Env, s: State, r: R.Ref, list: seq<AccessTuple>)
    requires Sim(env, s, r)
    ensures Sim(env, M.AddTuples(s, list), r.(core := r.core.(warm := r.core.warm + ListAddresses(list),
                                                             warmSlots := r.core.warmSlots + R.PreparedSlots(list))))
    decreases |list|
  {
    hide Sim;
    if list == [] {
      assert r.core.warm + ListAddresses(list) == r.core.warm;
      assert r.core.warmSlots + R.PreparedSlots(list) == r.core.warmSlots;
    } else {
      var el := list[0];
      SimAddAddress(env, s, r, el.address);
      var s1 := M.AddAddress(s, el.address);
      var r1 := r.(core := r.core.(warm := r.core.warm + {el.address}));
      SimAddSlots(env, s1, r1, el.address, el.storageKeys);
      var s2 := M.AddSlots(s1, el.address, el.storageKeys);
      var r2 := r1.(core := r1.core.(warmSlots := r1.core.warmSlots + SlotsOf(el.address, el.storageKeys)));
      SimAddTuples(env, s2, r2, list[1..]);
      PreparedCons(list);
      assert r2.core.warm + ListAddresses(list[1..]) == r.core.warm + ListAddresses(list);
      assert r2.core.warmSlots + R.PreparedSlots(list[1..]) == r.core.warmSlots + R.PreparedSlots(list);
    }
  }

  /** `PrepareAccessList` makes warm exactly the addresses and slots of EIP-2929 and EIP-2930. */
  lemma SimPrepare(env: Env, s: State, r: R.Ref, sender: Address, dst: Option<Address>, precompiles: seq<Address>, list: seq<AccessTuple>)
    requires Sim(env, s, r)
    ensures Sim(env, M.PrepareAccessList(s, sender, dst, precompiles, list),
                r.(core := R.Prepare(r.core, sender, dst, precompiles, list)))
  {
    hide Sim, M.AddAddress, M.AddAddresses, M.AddTuples;
    SimAddAddress(env, s, r, sender);
    var s1 := M.AddAddress(s, sender);
    var r1 := r.(core := r.core.(warm := r.core.warm + {sender}));
    var to: set<Address> := if dst.Some? then {dst.value} else {};
    var s2 := if dst.Some? then M.AddAddress(s1, dst.value) else s1;
    var r2 := r.(core := r.core.(warm := r.core.warm + {sender} + to));
    if dst.Some? {
      SimAddAddress(env, s1, r1, dst.value);
    } else {
      assert r.core.warm + {sender} + to == r.core.warm + {sender};
    }
    SimAddAddresses(env, s2, r2, precompiles);
    var s3 := M.AddAddresses(s2, precompiles);
    var r3 := r.(core := r.core.(warm := r.core.warm + {sender} + to + set a | a in precompiles));
    SimAddTuples(env, s3, r3, list);
    var r4 := r3.(core := r3.core.(warm := r3.core.warm + ListAddresses(list), warmSlots := r3.core.warmSlots + R.PreparedSlots(list)));
    assert r4.core.warm == r.core.warm + R.PreparedAddresses(sender, dst, precompiles, list);
    assert r4 == r.(core := R.Prepare(r.core, sender, dst, precompiles, list));
  }
}
