/** The StateDB as the program runs it: objects, journal and access list updated in place. */
module StateDBs {
  import opened EvmTypes
  import opened Interfaces
  import opened AccessLists
  import opened Keepers
  import Store
  import Simulation
  import SimulationSteps
  import opened Sorting
  import Commits
  import CommitCode
  import CommitTheorems
  import Theorems
  import R = Reference
  import M = Machine

  /** `accessList`: the index of `AccessLists.AccessList`, changed in place. */
  class AccessListIndex {
    var addresses: map<Address, int>
    var slots: seq<set<Hash>>

    constructor ()
      ensures Val() == EMPTY
    {
      addresses, slots := map[], [];
    }

    function Val(): AccessList
      reads this
    {
      AccessList(addresses, slots)
    }

    /** Whether the address, and the slot under it, are listed. */
    method Contains(addr: Address, slot: Hash) returns (addressPresent: bool, slotPresent: bool)
      requires Val().Valid()
      ensures addressPresent == Val().ContainsAddress(addr)
      ensures slotPresent == Val().ContainsSlot(addr, slot)
    {
      if addr !in addresses {
        return false, false;
      }
      var idx := addresses[addr];
      if idx == -1 {
        return true, false;
      }
      return true, slot in slots[idx];
    }

    method AddAddress(addr: Address) returns (added: bool)
      modifies this
      ensures Val() == old(Val()).AddAddress(addr)
      ensures added == !old(Val()).ContainsAddress(addr)
    {
      if addr in addresses {
        return false;
      }
      addresses := addresses[addr := -1];
      return true;
    }

    method AddSlot(addr: Address, slot: Hash) returns (addrChange: bool, slotChange: bool)
      requires Val().Valid()
      modifies this
      ensures Val() == old(Val()).AddSlot(addr, slot)
      ensures addrChange == !old(Val()).ContainsAddress(addr)
      ensures slotChange == !old(Val()).ContainsSlot(addr, slot)
    {
      if addr !in addresses || addresses[addr] == -1 {
        addrChange := addr !in addresses;
        addresses := addresses[addr := |slots|];
        slots := slots + [{slot}];
        return addrChange, true;
      }
      var idx := addresses[addr];
      if slot !in slots[idx] {
        slots := slots[idx := slots[idx] + {slot}];
        return false, true;
      }
      assert slots[idx] + {slot} == slots[idx];
      return false, false;
    }

    /** Called by the journal only, for the address and slot added last. */
    method DeleteSlot(addr: Address, slot: Hash)
      requires addr in addresses && 0 <= addresses[addr] < |slots|
      modifies this
      ensures Val() == old(Val()).DeleteSlot(addr, slot)
    {
      var idx := addresses[addr];
      slots := slots[idx := slots[idx] - {slot}];
      if slots[idx] == {} {
        slots := slots[..idx];
        addresses := addresses[addr := -1];
      }
    }

    method DeleteAddress(addr: Address)
      modifies this
      ensures Val() == old(Val()).DeleteAddress(addr)
    {
      addresses := addresses - {addr};
    }
  }

  class Journal {
    var entries: seq<M.Entry<StateObject>>
    var dirties: map<Address, nat>

    constructor ()
      ensures entries == [] && dirties == map[]
    {
      entries, dirties := [], map[];
    }

    /** Exactly this entry was appended and counted. */
    twostate predicate Appended(new e: M.Entry<StateObject>)
      reads this
    {
      entries == old(entries) + [e] && dirties == M.Mark(old(dirties), e)
    }

    method Append(e: M.Entry<StateObject>)
      modifies this
      ensures Appended(e)
    {
      entries := entries + [e];
      if e.OnObject() && !e.ResetObjectChange? {
        dirties := dirties[e.account := (if e.account in dirties then dirties[e.account] else 0) + 1];
      }
    }

    /** Takes the entry's change off the dirty counters. */
    method Unmark(e: M.Entry<StateObject>)
      modifies this`dirties
      ensures dirties == M.Undirty(old(dirties), e)
    {
      if e.OnObject() && !e.ResetObjectChange? && e.account in dirties {
        if dirties[e.account] <= 1 {
          dirties := dirties - {e.account};
        } else {
          dirties := dirties[e.account := dirties[e.account] - 1];
        }
      }
    }
  }

  /** An undoable state has a well-formed access list. */
  lemma UndoneAccess(env: Env, s: M.State)
    requires Theorems.Undoable(env, s)
    ensures s.al.Valid()
  {
    assert Simulation.AccessOk(s);
    SimulationSteps.ReplayValid(s.entries);
  }

  /** `stateObject`. */
  class StateObject {
    const address: Address
    var account: Account
    var code: Option<Bytes>
    var originStorage: map<Hash, Hash>
    var dirtyStorage: map<Hash, Hash>
    var dirtyCode: bool
    var suicided: bool

    constructor (address: Address, account: Account)
      ensures this.address == address && Val() == M.NewObj(account)
    {
      this.address, this.account := address, account;
      code, originStorage, dirtyStorage := None, map[], map[];
      dirtyCode, suicided := false, false;
    }

    function Val(): M.Obj
      reads this
    {
      M.Obj(account, code, originStorage, dirtyStorage, dirtyCode, suicided)
    }

    method GetCode(keeper: Keeper, ghost env: Env) returns (c: Option<Bytes>)
      requires env == keeper.EnvFor(env.tx)
      modifies this`code
      ensures Val() == M.FillCode(env, old(Val())) && c == Val().code
    {
      if code.Some? {
        return code;
      }
      if account.codeHash == keeper.rules.EmptyCodeHash() {
        return None;
      }
      code := Store.GetCode(keeper.Stored(), account.codeHash);
      return code;
    }

    method GetCommittedState(keeper: Keeper, key: Hash, ghost env: Env) returns (value: Hash)
      requires env == keeper.EnvFor(env.tx)
      modifies this`originStorage
      ensures Val() == M.FillOrigin(env, address, old(Val()), key) && value == Val().origin[key]
    {
      if key in originStorage {
        return originStorage[key];
      }
      value := Store.GetState(keeper.Stored(), address, key);
      originStorage := originStorage[key := value];
    }

    method GetState(keeper: Keeper, key: Hash, ghost env: Env) returns (value: Hash)
      requires env == keeper.EnvFor(env.tx)
      modifies this`originStorage
      ensures Val() == M.FillState(env, address, old(Val()), key) && value == M.CurrentState(Val(), key)
    {
      if key in dirtyStorage {
        return dirtyStorage[key];
      }
      value := GetCommittedState(keeper, key, env);
    }

    method SetBalance(journal: Journal, amount: int)
      modifies this`account, journal
      ensures Val() == old(Val()).(account := old(account).(balance := amount))
      ensures journal.Appended(M.BalanceChange(address, old(account).balance))
    {
      journal.Append(M.BalanceChange(address, account.balance));
      account := account.(balance := amount);
    }

    method SetNonce(journal: Journal, nonce: uint64)
      modifies this`account, journal
      ensures Val() == old(Val()).(account := old(account).(nonce := nonce))
      ensures journal.Appended(M.NonceChange(address, old(account).nonce))
    {
      journal.Append(M.NonceChange(address, account.nonce));
      account := account.(nonce := nonce);
    }

    method SetCode(keeper: Keeper, journal: Journal, codeHash: Hash, newCode: Option<Bytes>, ghost env: Env)
      requires env == keeper.EnvFor(env.tx)
      modifies this`code, this`account, this`dirtyCode, journal
      ensures var filled := M.FillCode(env, old(Val()));
              && Val() == filled.(code := newCode, account := filled.account.(codeHash := codeHash), dirtyCode := true)
              && journal.Appended(M.CodeChange(address, filled.code, filled.account.codeHash))
    {
      var prevcode := GetCode(keeper, env);
      journal.Append(M.CodeChange(address, prevcode, account.codeHash));
      code := newCode;
      account := account.(codeHash := codeHash);
      dirtyCode := true;
    }

    /** Writing the current value only fills caches. */
    method SetState(keeper: Keeper, journal: Journal, key: Hash, value: Hash, ghost env: Env) returns (changed: bool)
      requires env == keeper.EnvFor(env.tx)
      modifies this`originStorage, this`dirtyStorage, journal
      ensures var filled := M.FillState(env, address, old(Val()), key);
              var prev := M.CurrentState(filled, key);
              && changed == (prev != value)
              && (!changed ==> Val() == filled && journal.entries == old(journal.entries) && journal.dirties == old(journal.dirties))
              && (changed ==> Val() == filled.(dirty := filled.dirty[key := value]) && journal.Appended(M.StorageChange(address, key, prev)))
    {
      var prev := GetState(keeper, key, env);
      if prev == value {
        return false;
      }
      journal.Append(M.StorageChange(address, key, prev));
      dirtyStorage := dirtyStorage[key := value];
      return true;
    }
  }

  // ---- what the heap stands for ----

  function EntryVal(e: M.Entry<StateObject>): M.Entry<M.Obj>
    reads if e.ResetObjectChange? then {e.prevObject} else {}
  {
    match e
    case CreateObjectChange(a) => M.CreateObjectChange(a)
    case ResetObjectChange(a, prev) => M.ResetObjectChange(a, prev.Val())
    case SuicideChange(a, was, balance) => M.SuicideChange(a, was, balance)
    case BalanceChange(a, balance) => M.BalanceChange(a, balance)
    case NonceChange(a, nonce) => M.NonceChange(a, nonce)
    case StorageChange(a, key, value) => M.StorageChange(a, key, value)
    case CodeChange(a, code, hash) => M.CodeChange(a, code, hash)
    case RefundChange(refund) => M.RefundChange(refund)
    case AddLogChange => M.AddLogChange
    case AddAccountChange(a) => M.AddAccountChange(a)
    case AddSlotChange(a, slot) => M.AddSlotChange(a, slot)
  }

  /** The objects that resets have taken out of the live map. */
  ghost function Replaced(es: seq<M.Entry<StateObject>>): set<StateObject> {
    set i | 0 <= i < |es| && es[i].ResetObjectChange? :: es[i].prevObject
  }

  ghost function EntryVals(es: seq<M.Entry<StateObject>>): seq<M.Entry<M.Obj>>
    reads Replaced(es)
  {
    seq(|es|, i requires 0 <= i < |es| reads Replaced(es) => EntryVal(es[i]))
  }

  ghost function ObjectVals(objects: map<Address, StateObject>): map<Address, M.Obj>
    reads objects.Values
  {
    map a | a in objects :: objects[a].Val()
  }

  /** Each object sits under its own address, and no replaced object is live or replaced twice. */
  ghost predicate Separate(objects: map<Address, StateObject>, es: seq<M.Entry<StateObject>>) {
    && (forall a :: a in objects ==> objects[a].address == a)
    && (forall i :: 0 <= i < |es| && es[i].ResetObjectChange? ==> es[i].prevObject.address == es[i].account)
    && (forall i :: 0 <= i < |es| && es[i].ResetObjectChange? && es[i].account in objects ==> objects[es[i].account] != es[i].prevObject)
    && (forall i, j :: 0 <= i < j < |es| && es[i].ResetObjectChange? && es[j].ResetObjectChange? ==> es[i].prevObject != es[j].prevObject)
  }

  class StateDB {
    const keeper: Keeper
    const txConfig: TxConfig
    const journal: Journal
    const accessList: AccessListIndex
    var validRevisions: seq<M.Revision>
    var nextRevisionID: nat
    var stateObjects: map<Address, StateObject>
    var refund: uint64
    var logs: seq<Log>

    /** The reference machine that has served the same calls. */
    ghost var ref: R.Ref

    ghost function Objects(): set<object>
      reads this, journal
    {
      stateObjects.Values + Replaced(journal.entries)
    }

    ghost function Repr(): set<object>
      reads this, journal
    {
      {this, journal, accessList} + Objects()
    }

    ghost function Env(): Env
      reads keeper
    {
      keeper.EnvFor(txConfig)
    }

    ghost function Abs(): M.State
      reads this, journal, accessList, stateObjects.Values, Replaced(journal.entries)
    {
      M.State(ObjectVals(stateObjects), EntryVals(journal.entries), journal.dirties, validRevisions, nextRevisionID,
              refund, logs, accessList.Val())
    }

    ghost predicate Shape()
      reads this, journal, accessList
    {
      Separate(stateObjects, journal.entries) && accessList.Val().Valid()
    }

    ghost predicate IsLive(obj: StateObject)
      reads this
    {
      obj.address in stateObjects && stateObjects[obj.address] == obj
    }

    /** The value of a live object is the one the abstract state holds for its address. */
    lemma LiveVal(obj: StateObject)
      requires IsLive(obj)
      ensures obj.address in Abs().objects && Abs().objects[obj.address] == obj.Val()
    {
    }

    constructor (keeper: Keeper, txConfig: TxConfig)
      ensures this.keeper == keeper && this.txConfig == txConfig
      ensures Valid() && Abs() == M.START && ref == R.Start(Env()) && fresh(Repr())
    {
      hide Simulation.Sim, R.Start, Store.EnvOf;
      this.keeper, this.txConfig := keeper, txConfig;
      journal := new Journal();
      accessList := new AccessListIndex();
      validRevisions, nextRevisionID, stateObjects, refund, logs := [], 0, map[], 0, [];
      ref := R.Start(keeper.EnvFor(txConfig));
      new;
      assert Abs() == M.START;
      Simulation.SimStart(Env());
    }

    /** The keeper's answer is the account the StateDB's surroundings list. */
    lemma KeeperReads(addr: Address)
      ensures var account := Store.GetAccount(keeper.rules.EmptyCodeHash(), keeper.Stored(), addr);
              && (addr in Env().accounts <==> account.Some?)
              && (account.Some? ==> Env().accounts[addr] == account.value)
      ensures Env().EmptyCodeHash() == keeper.rules.EmptyCodeHash()
    {
    }

    // ---- loading and creating objects ----

    /** `getStateObject`: the live object, loaded from the keeper if need be. */
    method LoadObject(addr: Address) returns (obj: StateObject?)
      requires Shape()
      modifies this`stateObjects
      ensures Shape() && fresh(Repr() - old(Repr()))
      ensures Abs() == M.Load(Env(), old(Abs()), addr)
      ensures obj != null <==> addr in stateObjects
      ensures obj != null <==> addr in Abs().objects
      ensures obj != null ==> obj.address == addr && IsLive(obj) && Abs().objects[addr] == obj.Val()
    {
      KeeperReads(addr);
      hide Env, EntryVals, ObjectVals, Separate, AccessList.Valid, M.SetObj, Store.GetAccount;
      if addr in stateObjects {
        obj := stateObjects[addr];
        SeparateAt(addr);
        LiveVal(obj);
      } else {
        AbsentVal(addr);
        var account := Store.GetAccount(keeper.rules.EmptyCodeHash(), keeper.Stored(), addr);
        if account.None? {
          return null;
        }
        obj := new StateObject(addr, account.value);
        Adopt(obj);
        LiveVal(obj);
      }
    }

    lemma SeparateAt(addr: Address)
      requires Shape() && addr in stateObjects
      ensures stateObjects[addr].address == addr
    {
    }

    lemma AbsentVal(addr: Address)
      ensures addr in stateObjects <==> addr in Abs().objects
    {
    }

    /** Makes an object live under an address that has none, without a journal entry. */
    method Adopt(obj: StateObject)
      requires Shape() && obj !in Objects() && obj.address !in stateObjects
      modifies this`stateObjects
      ensures Shape() && Repr() - {obj} <= old(Repr()) && IsLive(obj)
      ensures Abs() == M.SetObj(old(Abs()), obj.address, obj.Val())
    {
      hide EntryVals, AccessList.Valid;
      stateObjects := stateObjects[obj.address := obj];
      ObjectValsAdd(obj);
      hide ObjectVals;
      forall i | 0 <= i < |journal.entries| && journal.entries[i].ResetObjectChange?
        ensures journal.entries[i].prevObject != obj
      {
        assert journal.entries[i].prevObject in Replaced(journal.entries);
      }
    }

    /** A journalled change of one live object, and of nothing else. */
    twostate lemma ObjectChanged(obj: StateObject, new e: M.Entry<StateObject>)
      requires old(Shape()) && !e.ResetObjectChange?
      requires old(IsLive(obj))
      requires forall o: StateObject :: o in old(Objects()) && o != obj ==> o.Val() == old(o.Val())
      requires journal.Appended(e)
      requires stateObjects == old(stateObjects) && accessList.Val() == old(accessList.Val())
      requires validRevisions == old(validRevisions) && nextRevisionID == old(nextRevisionID)
      requires refund == old(refund) && logs == old(logs)
      ensures Shape() && Repr() == old(Repr())
      ensures Abs() == M.Change(old(Abs()), EntryVal(e), obj.address, obj.Val())
    {
      hide AccessList.Valid, EntryVals, ObjectVals;
      var es := old(journal.entries);
      assert Replaced(journal.entries) == Replaced(es) by { ReplacedAppend(es, e); }
      ObjectValsSet(obj);
      EntryValsAppend(e);
    }

    /** One live object changed, none added or removed. */
    twostate lemma ObjectValsSet(obj: StateObject)
      requires old(Shape())
      requires old(IsLive(obj))
      requires forall o: StateObject :: o in old(Objects()) && o != obj ==> o.Val() == old(o.Val())
      requires stateObjects == old(stateObjects)
      ensures ObjectVals(stateObjects) == old(ObjectVals(stateObjects))[obj.address := obj.Val()]
    {
      hide AccessList.Valid;
      forall a | a in stateObjects && a != obj.address
        ensures stateObjects[a].Val() == old(stateObjects[a].Val())
      {
        assert stateObjects[a] in old(Objects());
      }
    }

    twostate lemma EntryValsAppend(new e: M.Entry<StateObject>)
      requires journal.entries == old(journal.entries) + [e]
      requires forall o: StateObject :: o in Replaced(old(journal.entries)) ==> o.Val() == old(o.Val())
      ensures EntryVals(journal.entries) == old(EntryVals(journal.entries)) + [EntryVal(e)]
    {
      var es := old(journal.entries);
      forall i | 0 <= i < |es| ensures EntryVal(es[i]) == old(EntryVal(es[i])) {
        if es[i].ResetObjectChange? {
          assert es[i].prevObject in Replaced(es);
        }
      }
    }

    /** Caches of one live object changed, and nothing else. */
    twostate lemma ObjectCached(obj: StateObject)
      requires old(Shape())
      requires old(IsLive(obj))
      requires forall o: StateObject :: o in old(Objects()) && o != obj ==> o.Val() == old(o.Val())
      requires journal.entries == old(journal.entries) && journal.dirties == old(journal.dirties)
      requires stateObjects == old(stateObjects) && accessList.Val() == old(accessList.Val())
      requires validRevisions == old(validRevisions) && nextRevisionID == old(nextRevisionID)
      requires refund == old(refund) && logs == old(logs)
      ensures Shape() && Repr() == old(Repr())
      ensures Abs() == M.SetObj(old(Abs()), obj.address, obj.Val())
    {
      hide AccessList.Valid;
      ObjectValsSet(obj);
      EntryValsSame();
    }

    twostate lemma EntryValsSame()
      requires journal.entries == old(journal.entries)
      requires forall o: StateObject :: o in Replaced(old(journal.entries)) ==> o.Val() == old(o.Val())
      ensures EntryVals(journal.entries) == old(EntryVals(journal.entries))
    {
      var es := journal.entries;
      forall i | 0 <= i < |es| ensures EntryVal(es[i]) == old(EntryVal(es[i])) {
        if es[i].ResetObjectChange? {
          assert es[i].prevObject in Replaced(es);
        }
      }
    }

    /** A new object installed under its address, with the object it replaces, if any, kept by the entry. */
    twostate lemma ObjectInstalled(obj: StateObject, new e: M.Entry<StateObject>)
      requires old(Shape()) && obj !in old(Objects()) && e.OnObject() && e.account == obj.address
      requires if obj.address in old(stateObjects) then e == M.ResetObjectChange(obj.address, old(stateObjects)[obj.address])
               else e == M.CreateObjectChange(obj.address)
      requires obj.Val() == old(obj.Val())
      requires forall o: StateObject :: o in old(Objects()) ==> o.Val() == old(o.Val())
      requires journal.Appended(e)
      requires stateObjects == old(stateObjects)[obj.address := obj] && accessList.Val() == old(accessList.Val())
      requires validRevisions == old(validRevisions) && nextRevisionID == old(nextRevisionID)
      requires refund == old(refund) && logs == old(logs)
      ensures Shape() && Repr() - {obj} <= old(Repr())
      ensures Abs() == M.Change(old(Abs()), EntryVal(e), obj.address, obj.Val())
    {
      hide AccessList.Valid, Separate;
      var es := old(journal.entries);
      ReplacedAppend(es, e);
      EntryValsAppend(e);
      ObjectValsAdd(obj);
      InstalledSeparate(old(stateObjects), es, obj, e);
      hide ObjectVals, EntryVals, EntryVal;
    }

    twostate lemma ObjectValsAdd(new obj: StateObject)
      requires stateObjects == old(stateObjects)[obj.address := obj]
      requires forall o: StateObject :: o in old(stateObjects).Values ==> o.Val() == old(o.Val())
      ensures ObjectVals(stateObjects) == old(ObjectVals(stateObjects))[obj.address := obj.Val()]
    {
      forall a | a in stateObjects && a != obj.address
        ensures stateObjects[a].Val() == old(stateObjects[a].Val())
      {
        assert stateObjects[a] in old(stateObjects).Values;
      }
    }

    /** `createObject`: a new object, with the one it replaces, if any, kept in the journal. */
    method CreateObject(addr: Address) returns (newobj: StateObject, prev: StateObject?)
      requires Shape()
      modifies this`stateObjects, journal
      ensures Shape() && fresh(Repr() - old(Repr()))
      ensures Abs() == M.CreateObject(Env(), old(Abs()), addr)
      ensures newobj.address == addr && IsLive(newobj) && fresh(newobj)
      ensures prev != null <==> addr in M.Load(Env(), old(Abs()), addr).objects
      ensures prev != null ==> prev.Val() == M.Load(Env(), old(Abs()), addr).objects[addr]
    {
      hide Separate, AccessList.Valid, M.Load, M.Change, EntryVals, ObjectVals, Store.GetAccount, Store.EnvOf;
      prev := LoadObject(addr);
      KeeperReads(addr);
      newobj := new StateObject(addr, Account(0, 0, keeper.rules.EmptyCodeHash()));
      Install(newobj, if prev == null then M.CreateObjectChange(addr) else M.ResetObjectChange(addr, prev));
    }

    /** Journals the entry and makes the new object live. */
    method Install(obj: StateObject, e: M.Entry<StateObject>)
      requires Shape() && obj !in Objects() && e.OnObject() && e.account == obj.address
      requires if obj.address in stateObjects then e == M.ResetObjectChange(obj.address, stateObjects[obj.address])
               else e == M.CreateObjectChange(obj.address)
      modifies this`stateObjects, journal
      ensures Shape() && Repr() - {obj} <= old(Repr()) && IsLive(obj)
      ensures Abs() == M.Change(old(Abs()), old(EntryVal(e)), obj.address, obj.Val())
    {
      hide Separate, AccessList.Valid, M.Change, EntryVals, ObjectVals;
      label Before:
      journal.Append(e);
      stateObjects := stateObjects[obj.address := obj];
      ObjectInstalled@Before(obj, e);
    }

    /** `getOrNewStateObject`. */
    method GetOrNewObject(addr: Address) returns (obj: StateObject)
      requires Shape()
      modifies this`stateObjects, journal
      ensures Shape() && fresh(Repr() - old(Repr()))
      ensures Abs() == M.GetOrNew(Env(), old(Abs()), addr)
      ensures obj.address == addr && IsLive(obj) && Abs().objects[addr] == obj.Val()
    {
      hide Shape, Abs, Store.EnvOf, M.Load, M.CreateObject;
      var loaded := LoadObject(addr);
      if loaded == null {
        var prev;
        obj, prev := CreateObject(addr);
        LiveVal(obj);
      } else {
        obj := loaded;
      }
    }

    // ---- account changes ----

    method AddObjectBalance(obj: StateObject, amount: int)
      requires Shape() && IsLive(obj)
      modifies obj`account, journal
      ensures Shape() && Repr() == old(Repr())
      ensures var o := old(obj.Val());
              Abs() == M.Change(old(Abs()), M.BalanceChange(obj.address, o.account.balance), obj.address, o.(account := M.Credited(o.account, amount)))
    {
      hide Separate, AccessList.Valid, M.Change, EntryVals;
      label Before:
      var prev := obj.account.balance;
      obj.SetBalance(journal, prev + amount);
      ghost var e: M.Entry<StateObject> := M.BalanceChange(obj.address, prev);
      ObjectChanged@Before(obj, e);
    }

    method AddBalance(addr: Address, amount: int)
      requires Shape()
      modifies Repr()
      ensures Shape() && fresh(Repr() - old(Repr()))
      ensures Abs() == M.AddBalance(Env(), old(Abs()), addr, amount)
    {
      hide Separate, AccessList.Valid, M.GetOrNew, M.Change, M.Credited, EntryVals, ObjectVals, Store.EnvOf;
      var obj := GetOrNewObject(addr);
      if amount == 0 {
        return;
      }
      AddObjectBalance(obj, amount);
    }

    method SetObjectNonce(obj: StateObject, nonce: uint64)
      requires Shape() && IsLive(obj)
      modifies obj`account, journal
      ensures Shape() && Repr() == old(Repr())
      ensures var o := old(obj.Val());
              Abs() == M.Change(old(Abs()), M.NonceChange(obj.address, o.account.nonce), obj.address, o.(account := o.account.(nonce := nonce)))
    {
      hide Separate, AccessList.Valid, M.Change, EntryVals;
      label Before:
      ghost var e: M.Entry<StateObject> := M.NonceChange(obj.address, obj.account.nonce);
      obj.SetNonce(journal, nonce);
      ObjectChanged@Before(obj, e);
    }

    method SetNonce(addr: Address, nonce: uint64)
      requires Shape()
      modifies Repr()
      ensures Shape() && fresh(Repr() - old(Repr()))
      ensures Abs() == M.SetNonce(Env(), old(Abs()), addr, nonce)
    {
      hide Separate, AccessList.Valid, M.GetOrNew, M.Change, EntryVals, ObjectVals, Store.EnvOf;
      var obj := GetOrNewObject(addr);
      SetObjectNonce(obj, nonce);
    }

    method SetObjectCode(obj: StateObject, code: Option<Bytes>)
      requires Shape() && IsLive(obj)
      modifies obj, journal
      ensures Shape() && Repr() == old(Repr())
      ensures var o := M.FillCode(Env(), old(obj.Val()));
              Abs() == M.Change(old(Abs()), M.CodeChange(obj.address, o.code, o.account.codeHash), obj.address,
                                o.(code := code, account := o.account.(codeHash := Env().keccak(CodeBytes(code))), dirtyCode := true))
    {
      hide Separate, AccessList.Valid, M.Change, M.FillCode, EntryVals, ObjectVals;
      label Before:
      ghost var o := M.FillCode(Env(), obj.Val());
      ghost var e: M.Entry<StateObject> := M.CodeChange(obj.address, o.code, o.account.codeHash);
      obj.SetCode(keeper, journal, keeper.rules.keccak(CodeBytes(code)), code, Env());
      ObjectChanged@Before(obj, e);
    }

    method SetCode(addr: Address, code: Option<Bytes>)
      requires Shape()
      modifies Repr()
      ensures Shape() && fresh(Repr() - old(Repr()))
      ensures Abs() == M.SetCode(Env(), old(Abs()), addr, code)
    {
      hide Separate, AccessList.Valid, M.GetOrNew, M.Change, M.FillCode, EntryVals, ObjectVals, Store.EnvOf;
      var obj := GetOrNewObject(addr);
      SetObjectCode(obj, code);
    }

    method SetObjectState(obj: StateObject, key: Hash, value: Hash)
      requires Shape() && IsLive(obj)
      modifies obj, journal
      ensures Shape() && Repr() == old(Repr())
      ensures Abs() == M.StoreState(Env(), old(Abs()), obj.address, key, value)
    {
      hide Separate, AccessList.Valid, M.Change, M.SetObj, M.FillState, M.CurrentState, EntryVals, ObjectVals;
      label Before:
      LiveVal(obj);
      ghost var o := M.FillState(Env(), obj.address, obj.Val(), key);
      ghost var e: M.Entry<StateObject> := M.StorageChange(obj.address, key, M.CurrentState(o, key));
      var changed := obj.SetState(keeper, journal, key, value, Env());
      if changed {
        ObjectChanged@Before(obj, e);
      } else {
        ObjectCached@Before(obj);
      }
    }

    method SetState(addr: Address, key: Hash, value: Hash)
      requires Shape()
      modifies Repr()
      ensures Shape() && fresh(Repr() - old(Repr()))
      ensures Abs() == M.SetState(Env(), old(Abs()), addr, key, value)
    {
      hide Separate, AccessList.Valid, M.GetOrNew, M.StoreState, EntryVals, ObjectVals, Store.EnvOf;
      var obj := GetOrNewObject(addr);
      SetObjectState(obj, key, value);
    }

    /** The balance of a replaced account is carried over, without a journal entry of its own. */
    method CreateAccount(addr: Address)
      requires Shape()
      modifies Repr()
      ensures Shape() && fresh(Repr() - old(Repr()))
      ensures Abs() == M.CreateAccount(Env(), old(Abs()), addr)
    {
      hide Separate, AccessList.Valid, M.Load, M.CreateObject, EntryVals, ObjectVals, Store.EnvOf;
      var newobj, prev := CreateObject(addr);
      label Created:
      if prev != null {
        LiveVal(newobj);
        newobj.account := newobj.account.(balance := prev.account.balance);
        ObjectCached@Created(newobj);
      }
    }

    method SuicideObject(obj: StateObject)
      requires Shape() && IsLive(obj)
      modifies obj, journal
      ensures Shape() && Repr() == old(Repr())
      ensures var o := old(obj.Val());
              Abs() == M.Change(old(Abs()), M.SuicideChange(obj.address, o.suicided, o.account.balance), obj.address,
                                o.(suicided := true, account := o.account.(balance := 0)))
    {
      hide Separate, AccessList.Valid, M.Change, EntryVals, ObjectVals;
      label Before:
      var e: M.Entry<StateObject> := M.SuicideChange(obj.address, obj.suicided, obj.account.balance);
      journal.Append(e);
      obj.suicided := true;
      obj.account := obj.account.(balance := 0);
      ObjectChanged@Before(obj, e);
    }

    method Suicide(addr: Address) returns (found: bool)
      requires Shape()
      modifies Repr()
      ensures Shape() && fresh(Repr() - old(Repr()))
      ensures Abs() == M.Suicide(Env(), old(Abs()), addr)
      ensures found == (addr in M.Load(Env(), old(Abs()), addr).objects)
    {
      hide Separate, AccessList.Valid, M.Load, M.Change, EntryVals, ObjectVals, Store.EnvOf;
      var obj := LoadObject(addr);
      if obj == null {
        return false;
      }
      SuicideObject(obj);
      return true;
    }

    // ---- refund counter, logs, access list ----

    /** Journals an entry that is not about objects. */
    method AppendSide(e: M.Entry<StateObject>)
      requires Shape() && !e.OnObject()
      modifies journal
      ensures Shape() && Repr() == old(Repr())
      ensures Abs() == M.Append(old(Abs()), old(EntryVal(e)))
    {
      label Before:
      journal.Append(e);
      hide AccessList.Valid;
      ReplacedAppend(old(journal.entries), e);
      EntryValsAppend@Before(e);
    }

    /** The access list changed and nothing else. */
    twostate lemma AccessChanged()
      requires old(Shape()) && accessList.Val().Valid()
      requires forall o: StateObject :: o in old(Objects()) ==> o.Val() == old(o.Val())
      requires journal.entries == old(journal.entries) && journal.dirties == old(journal.dirties)
      requires stateObjects == old(stateObjects) && validRevisions == old(validRevisions) && nextRevisionID == old(nextRevisionID)
      requires refund == old(refund) && logs == old(logs)
      ensures Shape() && Repr() == old(Repr())
      ensures Abs() == old(Abs()).(al := accessList.Val())
    {
      hide AccessList.Valid;
      EntryValsSame();
    }

    method AddRefund(gas: uint64)
      requires Shape()
      modifies this, journal
      ensures Shape() && Repr() == old(Repr())
      ensures Abs() == M.AddRefund(old(Abs()), gas)
    {
      hide Separate, AccessList.Valid, EntryVals, ObjectVals, M.Append;
      AppendSide(M.RefundChange(refund));
      refund := (refund + gas) % U64;
    }

    /** Answers false where the program panics because the counter would drop below zero. */
    method SubRefund(gas: uint64) returns (ok: bool)
      requires Shape()
      modifies this, journal
      ensures Shape() && Repr() == old(Repr())
      ensures Abs() == M.SubRefund(old(Abs()), gas) && ok == (gas <= old(refund))
    {
      hide Separate, AccessList.Valid, EntryVals, ObjectVals, M.Append;
      AppendSide(M.RefundChange(refund));
      ok := gas <= refund;
      if ok {
        refund := refund - gas;
      }
    }

    method AddLog(body: LogData)
      requires Shape()
      modifies this, journal
      ensures Shape() && Repr() == old(Repr())
      ensures Abs() == M.AddLog(Env(), old(Abs()), body)
    {
      hide Separate, AccessList.Valid, EntryVals, ObjectVals, M.Append;
      AppendSide(M.AddLogChange);
      logs := logs + [Log(body, txConfig.txHash, txConfig.blockHash, txConfig.txIndex, (txConfig.logIndex + |logs|) % U64)];
    }

    /** Lists the address, without the journal entry. */
    method ListAddress(addr: Address) returns (added: bool)
      requires Shape()
      modifies accessList
      ensures Shape() && Repr() == old(Repr())
      ensures Abs() == old(Abs()).(al := old(Abs()).al.AddAddress(addr))
      ensures added == !old(Abs()).al.ContainsAddress(addr)
    {
      AddAddressRefines(accessList.Val(), addr);
      hide Separate, AccessList.Valid, AccessList.AddAddress, EntryVals, ObjectVals;
      label Before:
      added := accessList.AddAddress(addr);
      AccessChanged@Before();
    }

    /** Lists the address and the slot, without the journal entries. */
    method ListSlot(addr: Address, slot: Hash) returns (addrMod: bool, slotMod: bool)
      requires Shape()
      modifies accessList
      ensures Shape() && Repr() == old(Repr())
      ensures Abs() == old(Abs()).(al := old(Abs()).al.AddSlot(addr, slot))
      ensures addrMod == !old(Abs()).al.ContainsAddress(addr) && slotMod == !old(Abs()).al.ContainsSlot(addr, slot)
    {
      AddSlotRefines(accessList.Val(), addr, slot);
      hide Separate, AccessList.Valid, AccessList.AddSlot, AccessList.ContainsSlot, EntryVals, ObjectVals;
      label Before:
      addrMod, slotMod := accessList.AddSlot(addr, slot);
      AccessChanged@Before();
    }

    method AddAddressToAccessList(addr: Address)
      requires Shape()
      modifies journal, accessList
      ensures Shape() && Repr() == old(Repr())
      ensures Abs() == M.AddAddress(old(Abs()), addr)
    {
      hide Shape, Abs, Repr;
      var added := ListAddress(addr);
      if added {
        AppendSide(M.AddAccountChange(addr));
      }
    }

    method AddSlotToAccessList(addr: Address, slot: Hash)
      requires Shape()
      modifies journal, accessList
      ensures Shape() && Repr() == old(Repr())
      ensures Abs() == M.AddSlot(old(Abs()), addr, slot)
    {
      hide Shape, Abs, Repr, AccessList.AddSlot, AccessList.ContainsSlot;
      var addrMod, slotMod := ListSlot(addr, slot);
      if addrMod {
        AppendSide(M.AddAccountChange(addr));
      }
      if slotMod {
        AppendSide(M.AddSlotChange(addr, slot));
      }
    }

    method PrepareAccessList(sender: Address, dst: Option<Address>, precompiles: seq<Address>, list: seq<AccessTuple>)
      requires Shape()
      modifies journal, accessList
      ensures Shape() && Repr() == old(Repr())
      ensures Abs() == M.PrepareAccessList(old(Abs()), sender, dst, precompiles, list)
    {
      hide Shape, Abs, Repr, M.AddAddress, M.AddSlots;
      AddAddressToAccessList(sender);
      if dst.Some? {
        AddAddressToAccessList(dst.value);
      }
      ghost var goal := M.AddAddresses(Abs(), precompiles);
      for i := 0 to |precompiles|
        invariant Shape() && Repr() == old(Repr())
        invariant M.AddAddresses(Abs(), precompiles[i..]) == goal
      {
        AddAddressToAccessList(precompiles[i]);
      }
      goal := M.AddTuples(Abs(), list);
      for i := 0 to |list|
        invariant Shape() && Repr() == old(Repr())
        invariant M.AddTuples(Abs(), list[i..]) == goal
      {
        AddAddressToAccessList(list[i].address);
        AddSlotsToAccessList(list[i].address, list[i].storageKeys);
      }
    }

    method AddSlotsToAccessList(addr: Address, keys: seq<Hash>)
      requires Shape()
      modifies journal, accessList
      ensures Shape() && Repr() == old(Repr())
      ensures Abs() == M.AddSlots(old(Abs()), addr, keys)
    {
      hide Shape, Abs, Repr, M.AddSlot;
      ghost var goal := M.AddSlots(Abs(), addr, keys);
      for i := 0 to |keys|
        invariant Shape() && Repr() == old(Repr())
        invariant M.AddSlots(Abs(), addr, keys[i..]) == goal
      {
        AddSlotToAccessList(addr, keys[i]);
      }
    }

    // ---- revisions ----

    method Snapshot() returns (id: nat)
      requires Shape()
      modifies this
      ensures Shape() && Repr() == old(Repr())
      ensures Abs() == M.TakeSnapshot(old(Abs())) && id == old(Abs()).nextId
    {
      hide Separate, AccessList.Valid, ObjectVals;
      id := nextRevisionID;
      nextRevisionID := nextRevisionID + 1;
      validRevisions := validRevisions + [M.Revision(id, |journal.entries|)];
    }

    /** The abstract state as if only the first `n` journal entries were left. */
    ghost function AbsUpTo(n: nat): M.State
      requires n <= |journal.entries|
      reads this, journal, accessList, stateObjects.Values, Replaced(journal.entries[..n])
    {
      M.State(ObjectVals(stateObjects), EntryVals(journal.entries[..n]), journal.dirties, validRevisions, nextRevisionID,
              refund, logs, accessList.Val())
    }

    ghost predicate ShapeUpTo(n: nat)
      requires n <= |journal.entries|
      reads this, journal, accessList
    {
      Separate(stateObjects, journal.entries[..n]) && accessList.Val().Valid()
    }

    twostate lemma EntryValsKept(es: seq<M.Entry<StateObject>>)
      requires forall o: StateObject :: o in Replaced(es) ==> o.Val() == old(o.Val())
      ensures EntryVals(es) == old(EntryVals(es))
    {
      forall i | 0 <= i < |es| ensures EntryVal(es[i]) == old(EntryVal(es[i])) {
        if es[i].ResetObjectChange? {
          assert es[i].prevObject in Replaced(es);
        }
      }
    }

    /** Puts an object's fields back, as the entry recorded them. */
    method UndoObjectFields(obj: StateObject, e: M.Entry<StateObject>)
      requires e.OnObject() && !e.CreateObjectChange? && !e.ResetObjectChange?
      modifies obj
      ensures obj.Val() == M.UndoObj(old(EntryVal(e)), old(obj.Val()))
    {
      match e
      case SuicideChange(_, was, balance) =>
        obj.suicided := was;
        obj.account := obj.account.(balance := balance);
      case BalanceChange(_, balance) => obj.account := obj.account.(balance := balance);
      case NonceChange(_, nonce) => obj.account := obj.account.(nonce := nonce);
      case StorageChange(_, key, value) => obj.dirtyStorage := obj.dirtyStorage[key := value];
      case CodeChange(_, prevCode, prevHash) =>
        obj.code := prevCode;
        obj.account := obj.account.(codeHash := prevHash);
        obj.dirtyCode := true;
    }

    /** `revert` of a creation: the object goes. */
    method UndoCreate(i: nat)
      requires i < |journal.entries| && ShapeUpTo(i + 1) && journal.entries[i].CreateObjectChange? && journal.entries[i].account in stateObjects
      modifies this`stateObjects
      ensures ShapeUpTo(i) && Objects() <= old(Objects())
      ensures AbsUpTo(i) == M.UndoEffect(Env(), old(AbsUpTo(i + 1)), old(EntryVal(journal.entries[i]))).(entries := old(EntryVals(journal.entries[..i])))
    {
      hide AccessList.Valid, Store.EnvOf;
      ghost var es := journal.entries[..i];
      assert journal.entries[..i + 1] == es + [journal.entries[i]];
      SeparateUndone(stateObjects, es, journal.entries[i]);
      hide Separate;
      label Before:
      stateObjects := stateObjects - {journal.entries[i].account};
      EntryValsKept@Before(es);
    }

    /** `revert` of a reset: the replaced object is live again. */
    method UndoReset(i: nat)
      requires i < |journal.entries| && ShapeUpTo(i + 1) && journal.entries[i].ResetObjectChange? && journal.entries[i].account in stateObjects
      modifies this`stateObjects
      ensures ShapeUpTo(i) && Objects() <= old(Objects())
      ensures AbsUpTo(i) == M.UndoEffect(Env(), old(AbsUpTo(i + 1)), old(EntryVal(journal.entries[i]))).(entries := old(EntryVals(journal.entries[..i])))
    {
      hide AccessList.Valid, Store.EnvOf;
      var e := journal.entries[i];
      ghost var es := journal.entries[..i];
      assert journal.entries[..i + 1] == es + [e];
      SeparateUndone(stateObjects, es, e);
      hide Separate;
      label Before:
      assert e.prevObject in Replaced(journal.entries);
      stateObjects := stateObjects[e.prevObject.address := e.prevObject];
      EntryValsKept@Before(es);
      ObjectValsAdd@Before(e.prevObject);
    }

    /** `revert` of a change of one object's fields. */
    method UndoFields(i: nat)
      requires i < |journal.entries| && ShapeUpTo(i + 1) && journal.entries[i].OnObject()
      requires !journal.entries[i].CreateObjectChange? && !journal.entries[i].ResetObjectChange?
      requires journal.entries[i].account in stateObjects
      modifies stateObjects[journal.entries[i].account]
      ensures ShapeUpTo(i) && Objects() <= old(Objects())
      ensures AbsUpTo(i) == M.UndoEffect(Env(), old(AbsUpTo(i + 1)), old(EntryVal(journal.entries[i]))).(entries := old(EntryVals(journal.entries[..i])))
    {
      hide AccessList.Valid, Store.EnvOf;
      var e := journal.entries[i];
      ghost var es := journal.entries[..i];
      var obj := stateObjects[e.account];
      assert journal.entries[..i + 1] == es + [e];
      SeparateUndone(stateObjects, es, e);
      NotReplaced(stateObjects, es, obj);
      label Before:
      UndoObjectFields(obj, e);
      EntryValsKept@Before(es);
      assert ObjectVals(stateObjects) == old(ObjectVals(stateObjects))[e.account := obj.Val()];
    }

    /** `revert` of an entry about the counter, the logs or the access list. */
    method UndoSide(i: nat)
      requires i < |journal.entries| && ShapeUpTo(i + 1) && !journal.entries[i].OnObject()
      requires journal.entries[i].AddLogChange? ==> logs != []
      requires journal.entries[i].AddSlotChange? ==> accessList.Val().ContainsSlot(journal.entries[i].account, journal.entries[i].slot)
      modifies this`refund, this`logs, accessList
      ensures Separate(stateObjects, journal.entries[..i])
      ensures AbsUpTo(i) == M.UndoEffect(Env(), old(AbsUpTo(i + 1)), old(EntryVal(journal.entries[i]))).(entries := old(EntryVals(journal.entries[..i])))
    {
      hide AccessList.Valid, ObjectVals, EntryVals, Store.EnvOf, M.Load, M.UndoObj;
      var e := journal.entries[i];
      ghost var es := journal.entries[..i];
      assert journal.entries[..i + 1] == es + [e];
      SeparateUndone(stateObjects, es, e);
      hide Separate;
      label Before:
      match e {
        case RefundChange(prev) => refund := prev;
        case AddLogChange => logs := logs[..|logs| - 1];
        case AddAccountChange(a) => accessList.DeleteAddress(a);
        case AddSlotChange(a, slot) => accessList.DeleteSlot(a, slot);
      }
      EntryValsKept@Before(es);
    }

    /** `revert` of one entry that finds what it needs. */
    method UndoOne(i: nat)
      requires i < |journal.entries| && ShapeUpTo(i + 1)
      requires journal.entries[i].OnObject() ==> journal.entries[i].account in stateObjects
      requires journal.entries[i].AddLogChange? ==> logs != []
      requires journal.entries[i].AddSlotChange? ==> accessList.Val().ContainsSlot(journal.entries[i].account, journal.entries[i].slot)
      modifies this`stateObjects, this`refund, this`logs, accessList, stateObjects.Values
      ensures Separate(stateObjects, journal.entries[..i]) && Objects() <= old(Objects())
      ensures AbsUpTo(i) == M.UndoEffect(Env(), old(AbsUpTo(i + 1)), old(EntryVal(journal.entries[i]))).(entries := old(EntryVals(journal.entries[..i])))
    {
      hide M.UndoEffect, Separate, AccessList.Valid, AccessList.ContainsSlot, Store.EnvOf, AbsUpTo, EntryVals, EntryVal;
      if journal.entries[i].CreateObjectChange? {
        UndoCreate(i);
      } else if journal.entries[i].ResetObjectChange? {
        UndoReset(i);
      } else if journal.entries[i].OnObject() {
        UndoFields(i);
      } else {
        UndoSide(i);
      }
    }

    /** `revert` of one entry, and its removal from the dirty counters. */
    method UndoEntry(i: nat)
      requires i < |journal.entries| && ShapeUpTo(i + 1) && Theorems.Undoable(Env(), AbsUpTo(i + 1))
      modifies this`stateObjects, this`refund, this`logs, journal`dirties, accessList, stateObjects.Values
      ensures ShapeUpTo(i) && Objects() <= old(Objects())
      ensures AbsUpTo(i) == M.UndoLast(Env(), old(AbsUpTo(i + 1))) && Theorems.Undoable(Env(), AbsUpTo(i))
    {
      hide Theorems.Undoable, M.UndoEffect, M.Undirty, Separate, AccessList.Valid, AccessList.ContainsSlot, Store.EnvOf, EntryVals, ObjectVals, EntryVal;
      SafeAt(i);
      LastEntry(i);
      UndirtyVal(journal.dirties, journal.entries[i]);
      UndoOne(i);
      UnmarkEntry(i);
      UndoneAccess(Env(), AbsUpTo(i));
    }

    /** The entry to be undone finds what it needs on the heap. */
    lemma SafeAt(i: nat)
      requires i < |journal.entries| && Theorems.Undoable(Env(), AbsUpTo(i + 1))
      ensures journal.entries[i].OnObject() ==> journal.entries[i].account in stateObjects
      ensures journal.entries[i].AddLogChange? ==> logs != []
      ensures journal.entries[i].AddSlotChange? ==> accessList.Val().ContainsSlot(journal.entries[i].account, journal.entries[i].slot)
      ensures AbsUpTo(i + 1).entries != [] && Theorems.Undoable(Env(), M.UndoLast(Env(), AbsUpTo(i + 1)))
    {
      hide Theorems.Undoable, EntryVals, Store.EnvOf, M.UndoLast;
      LastEntry(i);
      Theorems.UndoIsSafe(Env(), AbsUpTo(i + 1));
    }

    method UnmarkEntry(i: nat)
      requires i < |journal.entries|
      modifies journal`dirties
      ensures AbsUpTo(i) == old(AbsUpTo(i)).(dirties := M.Undirty(old(journal.dirties), journal.entries[i]))
    {
      hide M.Undirty;
      label Before:
      journal.Unmark(journal.entries[i]);
      EntryValsKept@Before(journal.entries[..i]);
    }

    lemma LastEntry(i: nat)
      requires i < |journal.entries|
      ensures var s := AbsUpTo(i + 1);
              s.entries != [] && s.entries[|s.entries| - 1] == EntryVal(journal.entries[i])
              && s.entries[..|s.entries| - 1] == EntryVals(journal.entries[..i])
    {
      var s := AbsUpTo(i + 1);
      assert journal.entries[..i + 1][i] == journal.entries[i];
      forall k | 0 <= k < i ensures s.entries[k] == EntryVals(journal.entries[..i])[k] {
        assert journal.entries[..i + 1][k] == journal.entries[..i][k];
      }
    }

    /** `journal.revert`: undoes entries from the back, then cuts the journal. */
    method RevertJournal(snapshot: nat)
      requires Shape() && Theorems.Undoable(Env(), Abs()) && snapshot <= |journal.entries|
      modifies Repr()
      ensures Shape() && Repr() <= old(Repr()) && validRevisions == old(validRevisions)
      ensures Abs() == M.UndoTo(Env(), old(Abs()), snapshot)
    {
      hide Theorems.Undoable, M.UndoLast, Separate, AccessList.Valid, Store.EnvOf, EntryVals, ObjectVals;
      var i := |journal.entries|;
      assert journal.entries[..i] == journal.entries;
      ghost var goal := M.UndoTo(Env(), Abs(), snapshot);
      while i > snapshot
        invariant snapshot <= i <= |journal.entries|
        invariant journal.entries == old(journal.entries) && Objects() <= old(Objects()) && validRevisions == old(validRevisions)
        invariant ShapeUpTo(i) && Theorems.Undoable(Env(), AbsUpTo(i))
        invariant M.UndoTo(Env(), AbsUpTo(i), snapshot) == goal
      {
        CountUpTo(i);
        i := i - 1;
        UndoEntry(i);
      }
      CountUpTo(snapshot);
      Cut(snapshot);
    }

    lemma CountUpTo(n: nat)
      requires n <= |journal.entries|
      ensures |AbsUpTo(n).entries| == n
    {
    }

    /** Drops the entries that were undone. */
    method Cut(n: nat)
      requires n <= |journal.entries| && ShapeUpTo(n)
      modifies journal`entries
      ensures Shape() && Repr() <= old(Repr())
      ensures Abs() == old(AbsUpTo(n))
    {
      label Before:
      journal.entries := journal.entries[..n];
      EntryValsKept@Before(journal.entries);
      hide AccessList.Valid, Separate, EntryVals, ObjectVals;
      forall o | o in Replaced(journal.entries) ensures o in Replaced(old(journal.entries)) {
        var i :| 0 <= i < |journal.entries| && journal.entries[i].ResetObjectChange? && journal.entries[i].prevObject == o;
        assert old(journal.entries)[i] == journal.entries[i];
      }
    }

    /** The state is in order on the heap and stands for the same state as the reference machine. */
    ghost predicate Valid()
      reads this, keeper, journal, accessList, stateObjects.Values, Replaced(journal.entries)
    {
      Shape() && Simulation.Sim(Env(), Abs(), ref)
    }

    /** Binary search for the first revision with at least the given id. */
    method Search(revid: int) returns (idx: nat)
      requires forall i, j :: 0 <= i < j < |validRevisions| ==> validRevisions[i].id < validRevisions[j].id
      ensures idx == M.Find(validRevisions, revid)
    {
      idx := 0;
      var hi := |validRevisions|;
      while idx < hi
        invariant 0 <= idx <= hi <= |validRevisions|
        invariant forall k :: 0 <= k < idx ==> validRevisions[k].id < revid
        invariant forall k :: hi <= k < |validRevisions| ==> validRevisions[k].id >= revid
      {
        var mid := (idx + hi) / 2;
        if validRevisions[mid].id >= revid {
          hi := mid;
        } else {
          idx := mid + 1;
        }
      }
      assert idx < |validRevisions| ==> validRevisions[idx].id >= revid;
    }

    /** Answers false where the program panics because the revision is not valid. */
    method RevertToSnapshot(revid: int) returns (ok: bool)
      requires Valid()
      modifies Repr()
      ensures Shape() && Repr() <= old(Repr())
      ensures ok == M.CanRevert(old(Abs()), revid)
      ensures Abs() == if ok then M.RevertToSnapshot(Env(), old(Abs()), revid) else old(Abs())
    {
      hide Theorems.Undoable, M.UndoTo, Separate, AccessList.Valid, Store.EnvOf, EntryVals, ObjectVals, Simulation.Sim;
      RevisionsSorted(Env(), Abs(), ref);
      Theorems.SimUndoable(Env(), Abs(), ref);
      CountAll();
      var idx := Search(revid);
      if idx == |validRevisions| || validRevisions[idx].id != revid {
        return false;
      }
      RevertJournal(validRevisions[idx].journalIndex);
      CutRevisions(idx);
      return true;
    }

    lemma CountAll()
      ensures |Abs().entries| == |journal.entries|
    {
    }

    method CutRevisions(idx: nat)
      requires Shape() && idx <= |validRevisions|
      modifies this`validRevisions
      ensures Shape() && Repr() == old(Repr())
      ensures Abs() == old(Abs()).(revisions := old(Abs()).revisions[..idx])
    {
      hide AccessList.Valid, Separate, EntryVals, ObjectVals;
      validRevisions := validRevisions[..idx];
    }

    // ---- queries ----

    /** The value of an object's caches changed as the given fill does. */
    method ReadCode(obj: StateObject) returns (code: Option<Bytes>)
      requires Shape() && IsLive(obj)
      modifies obj
      ensures Shape() && Repr() == old(Repr())
      ensures var o := M.FillCode(Env(), old(obj.Val()));
              Abs() == M.SetObj(old(Abs()), obj.address, o) && code == o.code
    {
      hide Separate, AccessList.Valid, M.FillCode, EntryVals, ObjectVals;
      label Before:
      code := obj.GetCode(keeper, Env());
      ObjectCached@Before(obj);
    }

    method ReadState(obj: StateObject, key: Hash) returns (value: Hash)
      requires Shape() && IsLive(obj)
      modifies obj
      ensures Shape() && Repr() == old(Repr())
      ensures var o := M.FillState(Env(), obj.address, old(obj.Val()), key);
              Abs() == M.SetObj(old(Abs()), obj.address, o) && value == M.CurrentState(o, key)
    {
      hide Separate, AccessList.Valid, M.FillState, M.CurrentState, EntryVals, ObjectVals;
      label Before:
      value := obj.GetState(keeper, key, Env());
      ObjectCached@Before(obj);
    }

    method ReadCommitted(obj: StateObject, key: Hash) returns (value: Hash)
      requires Shape() && IsLive(obj)
      modifies obj
      ensures Shape() && Repr() == old(Repr())
      ensures var o := M.FillOrigin(Env(), obj.address, old(obj.Val()), key);
              Abs() == M.SetObj(old(Abs()), obj.address, o) && value == o.origin[key]
    {
      hide Separate, AccessList.Valid, M.FillOrigin, EntryVals, ObjectVals;
      label Before:
      value := obj.GetCommittedState(keeper, key, Env());
      ObjectCached@Before(obj);
    }

    /** The account queries: `Exist`, `Empty`, `GetBalance` and the other getters of one address. */
    method Query(call: Call) returns (answer: Answer)
      requires Shape() && Theorems.IsQuery(call)
      modifies Repr()
      ensures Shape() && fresh(Repr() - old(Repr()))
      ensures (Abs(), answer) == M.Query(Env(), old(Abs()), call)
    {
      hide Shape, Abs, Store.EnvOf, M.Load, M.SetObj, M.FillCode, M.FillOrigin, M.FillState, M.CurrentState;
      KeeperReads(call.addr);
      var obj := LoadObject(call.addr);
      if obj == null {
        return match call
          case Exist(_) => Flag(false)
          case Empty(_) => Flag(true)
          case GetBalance(_) => Number(0)
          case GetNonce(_) => Number(0)
          case GetCode(_) => Code(None)
          case GetCodeSize(_) => Number(0)
          case HasSuicided(_) => Flag(false)
          case _ => Value(ZERO_HASH);
      }
      match call
      case Exist(_) => return Flag(true);
      case Empty(_) =>
        return Flag(obj.account.nonce == 0 && obj.account.balance == 0 && obj.account.codeHash == keeper.rules.EmptyCodeHash());
      case GetBalance(_) => return Number(obj.account.balance);
      case GetNonce(_) => return Number(obj.account.nonce);
      case GetCode(_) =>
        var code := ReadCode(obj);
        return Code(code);
      case GetCodeSize(_) =>
        var code := ReadCode(obj);
        return Number(|CodeBytes(code)|);
      case GetCodeHash(_) => return Value(obj.account.codeHash);
      case GetState(_, key) =>
        var value := ReadState(obj, key);
        return Value(value);
      case GetCommittedState(_, key) =>
        var value := ReadCommitted(obj, key);
        return Value(value);
      case HasSuicided(_) => return Flag(obj.suicided);
    }

    // ---- serving calls ----

    method ServeAccountChange(call: Call) returns (answer: Answer)
      requires Shape() && Theorems.IsAccountChange(call)
      modifies Repr()
      ensures Shape() && fresh(Repr() - old(Repr()))
      ensures (Abs(), answer) == M.Step(Env(), old(Abs()), call)
    {
      hide Shape, Abs, Env, Repr, Objects, M.Load, M.CreateAccount, M.AddBalance, M.SetNonce, M.SetCode, M.SetState, M.Suicide, M.Query;
      answer := Done;
      match call
      case CreateAccount(a) => CreateAccount(a);
      case AddBalance(a, amount) => AddBalance(a, amount);
      case SubBalance(a, amount) => AddBalance(a, -amount);
      case SetNonce(a, nonce) => SetNonce(a, nonce);
      case SetCode(a, code) => SetCode(a, code);
      case SetState(a, key, value) => SetState(a, key, value);
      case Suicide(a) =>
        var found := Suicide(a);
        answer := Flag(found);
    }

    predicate IsSide(call: Call) {
      !Theorems.IsQuery(call) && !Theorems.IsAccountChange(call) && !call.Snapshot? && !call.RevertToSnapshot?
    }

    method ServeSide(call: Call) returns (answer: Answer)
      requires Shape() && IsSide(call)
      modifies Repr()
      ensures Shape() && Repr() == old(Repr())
      ensures (Abs(), answer) == M.Step(Env(), old(Abs()), call)
    {
      hide Separate, Env, EntryVals, ObjectVals, M.AddLog, M.AddRefund, M.SubRefund, M.AddAddress, M.AddSlot, M.PrepareAccessList, M.Query;
      answer := Done;
      match call
      case GetRefund => answer := Number(refund);
      case Logs => answer := LogList(logs);
      case AddressInAccessList(a) => answer := Flag(a in accessList.addresses);
      case SlotInAccessList(a, slot) =>
        var addressPresent, slotPresent := accessList.Contains(a, slot);
        answer := Presence(addressPresent, slotPresent);
      case AddLog(body) => AddLog(body);
      case AddRefund(gas) => AddRefund(gas);
      case SubRefund(gas) =>
        var ok := SubRefund(gas);
        answer := if ok then Done else Panic;
      case AddAddressToAccessList(a) => AddAddressToAccessList(a);
      case AddSlotToAccessList(a, slot) => AddSlotToAccessList(a, slot);
      case PrepareAccessList(sender, dst, precompiles, list) => PrepareAccessList(sender, dst, precompiles, list);
    }

    /** Any call, answered by the machine. */
    method Step(call: Call) returns (answer: Answer)
      requires Valid()
      modifies Repr()
      ensures Shape() && fresh(Repr() - old(Repr()))
      ensures (Abs(), answer) == M.Step(Env(), old(Abs()), call)
    {
      hide Shape, Abs, Env, Simulation.Sim, M.Query, M.TakeSnapshot, M.CanRevert, M.RevertToSnapshot;
      if Theorems.IsQuery(call) {
        Theorems.QueryStep(Env(), Abs(), call);
        answer := Query(call);
      } else if Theorems.IsAccountChange(call) {
        answer := ServeAccountChange(call);
      } else if call.Snapshot? {
        var id := Snapshot();
        answer := Number(id);
      } else if call.RevertToSnapshot? {
        var ok := RevertToSnapshot(call.revid);
        answer := if ok then Done else Panic;
      } else {
        answer := ServeSide(call);
      }
    }

    /** Any call, answered as the reference machine answers it. */
    method Serve(call: Call) returns (answer: Answer)
      requires Valid()
      modifies Repr()
      ensures Valid() && fresh(Repr() - old(Repr()))
      ensures (ref, answer) == R.Step(Env(), old(ref), call)
    {
      hide Shape, Abs, Env, Simulation.Sim, M.Step, R.Step;
      ghost var s, r := Abs(), ref;
      KeeperApart();
      Theorems.SimStep(Env(), s, r, call);
      answer := Step(call);
      Advance(R.Step(Env(), r, call).0);
    }

    /** The keeper is not part of the StateDB: no call changes it. */
    lemma KeeperApart()
      ensures keeper !in Repr()
    {
    }

    ghost method Advance(next: R.Ref)
      modifies this`ref
      ensures ref == next && Shape() == old(Shape()) && Abs() == old(Abs()) && Repr() == old(Repr())
    {
      ref := next;
    }

    /** A whole run of calls, answered as the reference machine answers it; a panic ends the run. */
    method Run(calls: seq<Call>) returns (answers: seq<Answer>)
      requires Valid()
      modifies Repr()
      ensures Valid() && fresh(Repr() - old(Repr()))
      ensures (ref, answers) == R.Run(Env(), old(ref), calls)
    {
      hide Shape, Abs, Env, Simulation.Sim, R.Step;
      KeeperApart();
      answers := [];
      ghost var goal := R.Run(Env(), ref, calls);
      assert calls[0..] == calls;
      for i := 0 to |calls|
        invariant Valid() && fresh(Repr() - old(Repr())) && Env() == old(Env())
        invariant goal.0 == R.Run(Env(), ref, calls[i..]).0 && goal.1 == answers + R.Run(Env(), ref, calls[i..]).1
      {
        KeeperApart();
        assert calls[i..][0] == calls[i] && calls[i..][1..] == calls[i + 1..];
        ghost var rest := R.Run(Env(), R.Step(Env(), ref, calls[i]).0, calls[i + 1..]).1;
        ghost var before := answers;
        var answer := Serve(calls[i]);
        answers := answers + [answer];
        assert before + ([answer] + rest) == answers + rest;
        if answer.Panic? {
          return;
        }
      }
      assert calls[|calls|..] == [] && answers + [] == answers;
    }

    // ---- commit ----

    method SortedDirties() returns (addrs: seq<Address>)
      requires Valid()
      ensures Valid() && Abs() == old(Abs())
      ensures addrs == Commits.DirtyAddresses(Abs())
    {
      hide Simulation.Sim, Separate, AccessList.Valid, Store.EnvOf;
      ListedLength(journal.dirties.Keys, 20);
      var items := SortedKeys(journal.dirties.Keys);
      addrs := items;
      assert keeper.Stored() == old(keeper.Stored()) && Abs() == old(Abs());
    }

    /** Writes one object back. */
    method CommitObject(obj: StateObject) returns (ok: bool)
      requires keeper.Valid()
      modifies keeper
      ensures keeper.Valid()
      ensures var outcome := Commits.CommitObject(keeper.rules, old(keeper.Stored()), obj.address, obj.Val(), Commits.DirtySlots(obj.Val()));
              ok == outcome.Ok? && (ok ==> keeper.Stored() == outcome.world)
    {
      hide Store.DeleteAccount, Store.SetAccount, Store.SetCode, Store.SetState;
      if obj.suicided {
        ok := keeper.DeleteAccount(obj.address);
        return;
      }
      if obj.code.Some? && obj.dirtyCode {
        keeper.SetCode(obj.account.codeHash, obj.code.value);
      }
      ok := keeper.SetAccount(obj.address, obj.account);
      if !ok {
        return;
      }
      StoreSlots(obj);
    }

    method StoreSlots(obj: StateObject)
      requires keeper.Valid()
      modifies keeper
      ensures keeper.Valid()
      ensures keeper.Stored() == Commits.StoreSlots(old(keeper.Stored()), obj.address, obj.Val(), Commits.DirtySlots(obj.Val()))
    {
      hide Store.SetState;
      ListedLength(obj.dirtyStorage.Keys, 32);
      var items := SortedKeys(obj.dirtyStorage.Keys);
      var keys: seq<Hash> := items;
      ghost var goal := Commits.StoreSlots(keeper.Stored(), obj.address, obj.Val(), keys);
      for i := 0 to |keys|
        invariant keeper.Valid()
        invariant Commits.StoreSlots(keeper.Stored(), obj.address, obj.Val(), keys[i..]) == goal
      {
        var key := keys[i];
        var value := obj.dirtyStorage[key];
        var origin := if key in obj.originStorage then obj.originStorage[key] else ZERO_HASH;
        if value != origin {
          keeper.SetState(obj.address, key, value.bytes);
        }
      }
    }

    /**
     * Writes the dirty objects back, in ascending order of address. Afterwards the keeper reads,
     * for every address that is `Faithful`, what the reference machine shows, and finds the code of
     * every account that shows some exactly when no later deletion takes it away.
     */
    method Commit() returns (ok: bool)
      requires Valid() && keeper.Valid()
      modifies keeper
      ensures keeper.Valid()
      ensures var s := old(Abs());
              var addrs := Commits.DirtyAddresses(s);
              && (forall a :: a in addrs ==> a in s.objects)
              && var outcome := Commits.Commit(keeper.rules, old(keeper.Stored()), s, addrs, Commits.SlotOrder(s));
                 ok == outcome.Ok? && (ok ==> keeper.Stored() == outcome.world)
      ensures keeper.rules.Locked(keeper.rules.moduleAccount) == 0 ==>
                (ok <==> forall a :: a in old(Abs()).dirties && a in old(Abs()).objects ==>
                           Commits.Committable(keeper.rules, old(keeper.Stored()), a, old(Abs()).objects[a]))
      ensures ok && keeper.rules.Locked(keeper.rules.moduleAccount) == 0
              && CommitTheorems.WorldOk(keeper.rules, old(keeper.Stored())) ==>
                forall a: Address ::
                  Commits.ReadsOf(keeper.rules, keeper.Stored(), a) == CommitTheorems.Live(ref.core, a) <==>
                  CommitTheorems.Faithful(keeper.rules, old(keeper.Stored()), old(Abs()), a)
      ensures ok && keeper.rules.Locked(keeper.rules.moduleAccount) == 0 ==>
                forall a: Address :: CodeCommitted(keeper.rules, old(keeper.Stored()), keeper.Stored(), old(Abs()), ref.core, a)
    {
      hide CodeCommitted, Commits.Committable, Commits.Commit, Commits.DirtyAddresses, Commits.SlotOrder, Simulation.Sim, Shape, Abs,
        CommitTheorems.Committed, CommitTheorems.WorldOk, CommitTheorems.Faithful, CommitTheorems.Live, Commits.ReadsOf;
      ghost var w, s, order := keeper.Stored(), Abs(), Commits.SlotOrder(Abs());
      var addrs := SortedDirties();
      assert keeper.Stored() == w;
      DirtyLive();
      forall a | a in addrs ensures a in s.objects && Holds(a, s) {
        assert a in s.dirties.Keys;
      }
      ok := CommitAll(addrs, s);
      if keeper.rules.Locked(keeper.rules.moduleAccount) == 0 {
        Commits.CommitSucceedsIff(keeper.rules, w, s, addrs, order);
        forall a | a in s.dirties ensures a in addrs {
          assert a in s.dirties.Keys;
        }
      }
      if ok && keeper.rules.Locked(keeper.rules.moduleAccount) == 0 && CommitTheorems.WorldOk(keeper.rules, w) {
        IsCommitted(keeper.rules, w, txConfig, s, ref);
        CommitTheorems.CommitAgrees(keeper.rules, w, txConfig, s, ref, addrs, order);
      }
      if ok && keeper.rules.Locked(keeper.rules.moduleAccount) == 0 {
        IsCommitted(keeper.rules, w, txConfig, s, ref);
        forall a: Address
          ensures CodeCommitted(keeper.rules, w, keeper.Stored(), s, ref.core, a)
        {
          CommitsCode(keeper.rules, w, txConfig, s, ref, a);
        }
      }
    }

    ghost predicate Holds(addr: Address, s: M.State)
      reads this, stateObjects.Values
    {
      addr in stateObjects && addr in s.objects && stateObjects[addr].address == addr && stateObjects[addr].Val() == s.objects[addr]
    }

    /** Writes the objects of the listed addresses back, in that order. */
    method CommitAll(addrs: seq<Address>, ghost s: M.State) returns (ok: bool)
      requires keeper.Valid()
      requires forall a :: a in addrs ==> a in s.objects
      requires forall a :: a in addrs ==> Holds(a, s)
      modifies keeper
      ensures keeper.Valid()
      ensures var outcome := Commits.Commit(keeper.rules, old(keeper.Stored()), s, addrs, Commits.SlotOrder(s));
              ok == outcome.Ok? && (ok ==> keeper.Stored() == outcome.world)
    {
      hide Commits.CommitObject, Commits.DirtySlots, Repr;
      ghost var order := Commits.SlotOrder(s);
      ghost var goal := Commits.Commit(keeper.rules, keeper.Stored(), s, addrs, order);
      assert addrs[0..] == addrs;
      for i := 0 to |addrs|
        invariant keeper.Valid()
        invariant Commits.Commit(keeper.rules, keeper.Stored(), s, addrs[i..], order) == goal
      {
        assert addrs[i] in addrs && Holds(addrs[i], s);
        assert addrs[i..][0] == addrs[i] && addrs[i..][1..] == addrs[i + 1..];
        ok := CommitObject(stateObjects[addrs[i]]);
        if !ok {
          return;
        }
      }
      ok := true;
    }

    /** Every dirty address has a live object under its own address. */
    lemma DirtyLive()
      requires Valid()
      ensures forall a :: a in Abs().dirties ==> Holds(a, Abs())
    {
      hide Simulation.Sim, EntryVals;
      forall a | a in Abs().dirties ensures Holds(a, Abs()) {
        CommitTheorems.DirtyIsLive(Env(), Abs(), ref, a);
      }
    }
  }

  lemma IsCommitted(rules: Store.Rules, w: Store.World, tx: TxConfig, s: M.State, r: R.Ref)
    requires rules.Locked(rules.moduleAccount) == 0 && Simulation.Sim(Store.EnvOf(rules, w, tx), s, r)
    requires forall a :: a in Commits.DirtyAddresses(s) ==> a in s.objects
    requires Commits.Commit(rules, w, s, Commits.DirtyAddresses(s), Commits.SlotOrder(s)).Ok?
    ensures CommitTheorems.Committed(rules, w, tx, s, r, Commits.DirtyAddresses(s), Commits.SlotOrder(s))
  {
    hide Simulation.Sim, Commits.Commit, Commits.DirtyAddresses, Commits.SlotOrder;
  }

  /** Code an account shows is found by the committed keeper exactly when it survives the deletions of its hash. */
  ghost predicate CodeCommitted(rules: Store.Rules, w: Store.World, w': Store.World, s: M.State, core: R.Core, a: Address) {
    var addrs := Commits.DirtyAddresses(s);
    (forall b :: b in addrs ==> b in s.objects) && CommitCode.HasCode(rules, s, addrs, core, a) ==>
      (Store.GetCode(w', core.accts[a].codeHash) == core.accts[a].code <==> CommitCode.Survives(rules, w, s, addrs, core.accts[a].codeHash))
  }

  lemma CommitsCode(rules: Store.Rules, w: Store.World, tx: TxConfig, s: M.State, r: R.Ref, a: Address)
    requires CommitTheorems.Committed(rules, w, tx, s, r, Commits.DirtyAddresses(s), Commits.SlotOrder(s))
    ensures CodeCommitted(rules, w, Commits.Commit(rules, w, s, Commits.DirtyAddresses(s), Commits.SlotOrder(s)).world, s, r.core, a)
  {
    hide Simulation.Sim, Commits.Commit, Commits.DirtyAddresses, Commits.SlotOrder, CommitCode.HasCode, CommitCode.Survives, Store.GetCode;
    if CommitCode.HasCode(rules, s, Commits.DirtyAddresses(s), r.core, a) {
      CommitCode.CodeAgrees(rules, w, tx, s, r, Commits.DirtyAddresses(s), Commits.SlotOrder(s), a);
    }
  }

  lemma RevisionsSorted(env: Env, s: M.State, r: R.Ref)
    requires Simulation.Sim(env, s, r)
    ensures forall i, j :: 0 <= i < j < |s.revisions| ==> s.revisions[i].id < s.revisions[j].id
    ensures forall i :: 0 <= i < |s.revisions| ==> s.revisions[i].journalIndex <= |s.entries|
  {
  }

  lemma UndirtyVal(dirties: map<Address, nat>, e: M.Entry<StateObject>)
    ensures M.Undirty(dirties, EntryVal(e)) == M.Undirty(dirties, e)
  {
  }

  /** Undoing the last entry keeps the objects apart. */
  lemma SeparateUndone(objects: map<Address, StateObject>, es: seq<M.Entry<StateObject>>, e: M.Entry<StateObject>)
    requires Separate(objects, es + [e])
    ensures Separate(objects, es)
    ensures e.CreateObjectChange? ==> Separate(objects - {e.account}, es)
    ensures e.ResetObjectChange? ==> e.prevObject.address == e.account && Separate(objects[e.account := e.prevObject], es)
  {
    var all := es + [e];
    assert all[|es|] == e;
    assert forall i :: 0 <= i < |es| ==> all[i] == es[i];
  }

  /** A live object is not among the replaced ones. */
  lemma NotReplaced(objects: map<Address, StateObject>, es: seq<M.Entry<StateObject>>, obj: StateObject)
    requires Separate(objects, es) && obj in objects.Values
    ensures obj !in Replaced(es)
  {
  }

  lemma InstalledSeparate(objects: map<Address, StateObject>, es: seq<M.Entry<StateObject>>, obj: StateObject, e: M.Entry<StateObject>)
    requires Separate(objects, es)
    requires obj !in objects.Values && obj !in Replaced(es)
    requires if obj.address in objects then e == M.ResetObjectChange(obj.address, objects[obj.address])
             else e == M.CreateObjectChange(obj.address)
    ensures Separate(objects[obj.address := obj], es + [e])
  {
    forall i | 0 <= i < |es| && es[i].ResetObjectChange? ensures es[i].prevObject != obj {
      assert es[i].prevObject in Replaced(es);
    }
    if obj.address in objects {
      assert objects[obj.address] in objects.Values;
    }
  }

  lemma ReplacedAppend(es: seq<M.Entry<StateObject>>, e: M.Entry<StateObject>)
    ensures Replaced(es + [e]) == Replaced(es) + if e.ResetObjectChange? then {e.prevObject} else {}
  {
    var all := es + [e];
    forall o ensures o in Replaced(all) <==> o in Replaced(es) || (e.ResetObjectChange? && o == e.prevObject) {
      if o in Replaced(es) {
        var i :| 0 <= i < |es| && es[i].ResetObjectChange? && es[i].prevObject == o;
        assert all[i] == es[i];
      }
      if e.ResetObjectChange? && o == e.prevObject {
        assert all[|es|] == e;
      }
    }
  }
}
