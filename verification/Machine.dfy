/**
 * The StateDB as the program builds it: lazily loaded state objects with origin and dirty
 * storage, an undo journal with dirty counters, a stack of revisions and an indexed access list.
 */
module Machine {
  import opened EvmTypes
  import opened Interfaces
  import opened AccessLists

  /** `stateObject`; `origin` caches persisted slots and `dirty` holds the changed ones. */
  datatype Obj = Obj(
    account: Account,
    code: Option<Bytes>,
    origin: map<Hash, Hash>,
    dirty: map<Hash, Hash>,
    dirtyCode: bool,
    suicided: bool)

  /** The eleven journal entries. `O` is whatever stands for a replaced object. */
  datatype Entry<+O> =
    | CreateObjectChange(account: Address)
    | ResetObjectChange(account: Address, prevObject: O)
    | SuicideChange(account: Address, wasSuicided: bool, prevBalance: int)
    | BalanceChange(account: Address, prevBalance: int)
    | NonceChange(account: Address, prevNonce: uint64)
    | StorageChange(account: Address, key: Hash, prevValue: Hash)
    | CodeChange(account: Address, prevCode: Option<Bytes>, prevHash: Hash)
    | RefundChange(prevRefund: uint64)
    | AddLogChange
    | AddAccountChange(account: Address)
    | AddSlotChange(account: Address, slot: Hash)
  {
    /** Whether the entry works on a state object rather than on the other parts of the state. */
    predicate OnObject() {
      !RefundChange? && !AddLogChange? && !AddAccountChange? && !AddSlotChange?
    }

    /** Whether the entry marks the address dirty; resetting an object does not. */
    predicate Dirties(addr: Address) {
      OnObject() && !ResetObjectChange? && account == addr
    }
  }

  datatype Revision = Revision(id: int, journalIndex: nat)

  datatype State = State(
    objects: map<Address, Obj>,
    entries: seq<Entry<Obj>>,
    dirties: map<Address, nat>,
    revisions: seq<Revision>,
    nextId: nat,
    refund: uint64,
    logs: seq<Log>,
    al: AccessList)

  const START := State(map[], [], map[], [], 0, 0, [], EMPTY)

  /** `newObject`. */
  function NewObj(account: Account): Obj {
    Obj(account, None, map[], map[], false, false)
  }

  function EmptyObj(env: Env): Obj {
    NewObj(Account(0, 0, env.EmptyCodeHash()))
  }

  // ---- objects ----

  /** Leaves the object's code loaded. */
  function FillCode(env: Env, o: Obj): Obj {
    if o.code.Some? || o.account.codeHash == env.EmptyCodeHash() then o
    else o.(code := env.code(o.account.codeHash))
  }

  /** Leaves the persisted value of the slot cached. */
  function FillOrigin(env: Env, addr: Address, o: Obj, key: Hash): (r: Obj)
    ensures key in r.origin
  {
    if key in o.origin then o else o.(origin := o.origin[key := env.state(addr, key)])
  }

  /** Leaves the slot readable from the object alone. */
  function FillState(env: Env, addr: Address, o: Obj, key: Hash): (r: Obj)
    ensures key in r.dirty || key in r.origin
  {
    if key in o.dirty then o else FillOrigin(env, addr, o, key)
  }

  function CurrentState(o: Obj, key: Hash): Hash
    requires key in o.dirty || key in o.origin
  {
    if key in o.dirty then o.dirty[key] else o.origin[key]
  }

  // ---- journal ----

  /** The dirty counters with one more change of the entry's address. */
  function Mark<O>(dirties: map<Address, nat>, e: Entry<O>): map<Address, nat> {
    if e.OnObject() && e.Dirties(e.account)
    then dirties[e.account := (if e.account in dirties then dirties[e.account] else 0) + 1]
    else dirties
  }

  function Append(s: State, e: Entry<Obj>): State {
    s.(entries := s.entries + [e], dirties := Mark(s.dirties, e))
  }

  function SetObj(s: State, addr: Address, o: Obj): State {
    s.(objects := s.objects[addr := o])
  }

  /** Journals the entry and replaces the object it is about. */
  function Change(s: State, e: Entry<Obj>, addr: Address, o: Obj): State {
    SetObj(Append(s, e), addr, o)
  }

  // ---- loading and creating ----

  /** `getStateObject`: afterwards the object is live if the account exists at all. */
  function Load(env: Env, s: State, addr: Address): State {
    if addr in s.objects then s
    else if addr in env.accounts then SetObj(s, addr, NewObj(env.accounts[addr]))
    else s
  }

  /** `createObject`. */
  function CreateObject(env: Env, s: State, addr: Address): State {
    var s1 := Load(env, s, addr);
    if addr in s1.objects
    then Change(s1, ResetObjectChange(addr, s1.objects[addr]), addr, EmptyObj(env))
    else Change(s1, CreateObjectChange(addr), addr, EmptyObj(env))
  }

  /** `getOrNewStateObject`. */
  function GetOrNew(env: Env, s: State, addr: Address): (r: State)
    ensures addr in r.objects
  {
    var s1 := Load(env, s, addr);
    if addr in s1.objects then s1 else CreateObject(env, s1, addr)
  }

  // ---- account changes ----

  function Credited(account: Account, amount: int): Account {
    account.(balance := account.balance + amount)
  }

  function AddBalance(env: Env, s: State, addr: Address, amount: int): State {
    var s1 := GetOrNew(env, s, addr);
    var o := s1.objects[addr];
    if amount == 0 then s1
    else Change(s1, BalanceChange(addr, o.account.balance), addr, o.(account := Credited(o.account, amount)))
  }

  function SetNonce(env: Env, s: State, addr: Address, nonce: uint64): State {
    var s1 := GetOrNew(env, s, addr);
    var o := s1.objects[addr];
    Change(s1, NonceChange(addr, o.account.nonce), addr, o.(account := o.account.(nonce := nonce)))
  }

  function SetCode(env: Env, s: State, addr: Address, code: Option<Bytes>): State {
    var s1 := GetOrNew(env, s, addr);
    var o := FillCode(env, s1.objects[addr]);
    Change(s1, CodeChange(addr, o.code, o.account.codeHash), addr,
           o.(code := code, account := o.account.(codeHash := env.keccak(CodeBytes(code))), dirtyCode := true))
  }

  /** The object's own `SetState`: writing the current value changes nothing but the caches. */
  function StoreState(env: Env, s: State, addr: Address, key: Hash, value: Hash): State
    requires addr in s.objects
  {
    var o := FillState(env, addr, s.objects[addr], key);
    var prev := CurrentState(o, key);
    if prev == value then SetObj(s, addr, o)
    else Change(s, StorageChange(addr, key, prev), addr, o.(dirty := o.dirty[key := value]))
  }

  function SetState(env: Env, s: State, addr: Address, key: Hash, value: Hash): State {
    StoreState(env, GetOrNew(env, s, addr), addr, key, value)
  }

  function CreateAccount(env: Env, s: State, addr: Address): State {
    var s1 := Load(env, s, addr);
    var s2 := CreateObject(env, s, addr);
    if addr in s1.objects
    then SetObj(s2, addr, s2.objects[addr].(account := s2.objects[addr].account.(balance := s1.objects[addr].account.balance)))
    else s2
  }

  function Suicide(env: Env, s: State, addr: Address): State {
    var s1 := Load(env, s, addr);
    if addr !in s1.objects then s1
    else
      var o := s1.objects[addr];
      Change(s1, SuicideChange(addr, o.suicided, o.account.balance), addr,
             o.(suicided := true, account := o.account.(balance := 0)))
  }

  // ---- refund counter, logs, access list ----

  function AddRefund(s: State, gas: uint64): State {
    Append(s, RefundChange(s.refund)).(refund := (s.refund + gas) % U64)
  }

  /** The entry is journalled before the counter is checked. */
  function SubRefund(s: State, gas: uint64): State {
    Append(s, RefundChange(s.refund)).(refund := if gas <= s.refund then s.refund - gas else s.refund)
  }

  function AddLog(env: Env, s: State, body: LogData): State {
    Append(s, AddLogChange).(logs := s.logs + [Stamp(env.tx, body, |s.logs|)])
  }

  function AddAddress(s: State, addr: Address): State {
    if s.al.ContainsAddress(addr) then s
    else Append(s, AddAccountChange(addr)).(al := s.al.AddAddress(addr))
  }

  function AddSlot(s: State, addr: Address, slot: Hash): State {
    var s1 := if s.al.ContainsAddress(addr) then s else Append(s, AddAccountChange(addr));
    var s2 := if s.al.ContainsSlot(addr, slot) then s1 else Append(s1, AddSlotChange(addr, slot));
    s2.(al := s.al.AddSlot(addr, slot))
  }

  function AddAddresses(s: State, addrs: seq<Address>): State
    decreases |addrs|
  {
    if addrs == [] then s else AddAddresses(AddAddress(s, addrs[0]), addrs[1..])
  }

  function AddSlots(s: State, addr: Address, keys: seq<Hash>): State
    decreases |keys|
  {
    if keys == [] then s else AddSlots(AddSlot(s, addr, keys[0]), addr, keys[1..])
  }

  function AddTuples(s: State, list: seq<AccessTuple>): State
    decreases |list|
  {
    if list == [] then s
    else AddTuples(AddSlots(AddAddress(s, list[0].address), list[0].address, list[0].storageKeys), list[1..])
  }

  function PrepareAccessList(s: State, sender: Address, dst: Option<Address>, precompiles: seq<Address>, list: seq<AccessTuple>): State {
    var s1 := AddAddress(s, sender);
    var s2 := if dst.Some? then AddAddress(s1, dst.value) else s1;
    AddTuples(AddAddresses(s2, precompiles), list)
  }

  // ---- revisions ----

  /** Takes one change of the address off the dirty counters. */
  function Undirty<O>(dirties: map<Address, nat>, e: Entry<O>): map<Address, nat> {
    if e.OnObject() && e.Dirties(e.account) && e.account in dirties then
      if dirties[e.account] <= 1 then dirties - {e.account}
      else dirties[e.account := dirties[e.account] - 1]
    else dirties
  }

  /** The object an undone entry leaves behind. */
  function UndoObj(e: Entry<Obj>, o: Obj): Obj {
    match e
    case SuicideChange(_, was, balance) => o.(suicided := was, account := o.account.(balance := balance))
    case BalanceChange(_, balance) => o.(account := o.account.(balance := balance))
    case NonceChange(_, nonce) => o.(account := o.account.(nonce := nonce))
    case StorageChange(_, key, value) => o.(dirty := o.dirty[key := value])
    case CodeChange(_, code, hash) => o.(code := code, account := o.account.(codeHash := hash), dirtyCode := true)
    case _ => o
  }

  /** The effect of `revert` of one entry, without the journal's own bookkeeping. */
  function UndoEffect(env: Env, s: State, e: Entry<Obj>): State {
    match e
    case CreateObjectChange(a) => s.(objects := s.objects - {a})
    case ResetObjectChange(a, prev) => SetObj(s, a, prev)
    case RefundChange(prev) => s.(refund := prev)
    case AddLogChange => if s.logs == [] then s else s.(logs := s.logs[..|s.logs| - 1])
    case AddAccountChange(a) => s.(al := s.al.DeleteAddress(a))
    case AddSlotChange(a, slot) => if s.al.ContainsSlot(a, slot) then s.(al := s.al.DeleteSlot(a, slot)) else s
    case _ =>
      var s1 := Load(env, s, e.account);
      if e.account in s1.objects then SetObj(s1, e.account, UndoObj(e, s1.objects[e.account])) else s1
  }

  /** Undoes the last entry of the journal. */
  function UndoLast(env: Env, s: State): State
    requires s.entries != []
  {
    var e := s.entries[|s.entries| - 1];
    UndoEffect(env, s, e).(entries := s.entries[..|s.entries| - 1], dirties := Undirty(s.dirties, e))
  }

  /** `journal.revert`: undoes entries from the back until `snapshot` of them remain. */
  function UndoTo(env: Env, s: State, snapshot: nat): State
    decreases |s.entries|
  {
    if |s.entries| <= snapshot then s else UndoTo(env, UndoLast(env, s), snapshot)
  }

  /** The least position whose id is at least `id`, as `sort.Search` finds it. */
  function Find(revisions: seq<Revision>, id: int): (i: nat)
    ensures i <= |revisions|
    ensures i < |revisions| ==> revisions[i].id >= id
    ensures forall k :: 0 <= k < i ==> revisions[k].id < id
  {
    if revisions == [] then 0
    else if revisions[0].id >= id then 0
    else 1 + Find(revisions[1..], id)
  }

  function TakeSnapshot(s: State): State {
    s.(revisions := s.revisions + [Revision(s.nextId, |s.entries|)], nextId := s.nextId + 1)
  }

  predicate CanRevert(s: State, id: int) {
    var i := Find(s.revisions, id);
    i < |s.revisions| && s.revisions[i].id == id
  }

  function RevertToSnapshot(env: Env, s: State, id: int): State
    requires CanRevert(s, id)
  {
    var i := Find(s.revisions, id);
    UndoTo(env, s, s.revisions[i].journalIndex).(revisions := s.revisions[..i])
  }

  // ---- whole calls ----

  /** The query of one account: loads it, reads it, and leaves the caches the read fills. */
  function Query(env: Env, s: State, call: Call): (State, Answer)
    requires call.Exist? || call.Empty? || call.GetBalance? || call.GetNonce? || call.GetCode? || call.GetCodeSize?
          || call.GetCodeHash? || call.GetState? || call.GetCommittedState? || call.HasSuicided?
  {
    var s1 := Load(env, s, call.addr);
    if call.addr !in s1.objects then
      (s1, match call
           case Exist(_) => Flag(false)
           case Empty(_) => Flag(true)
           case GetBalance(_) => Number(0)
           case GetNonce(_) => Number(0)
           case GetCode(_) => Code(None)
           case GetCodeSize(_) => Number(0)
           case HasSuicided(_) => Flag(false)
           case _ => Value(ZERO_HASH))
    else
      var o := s1.objects[call.addr];
      match call
      case Exist(_) => (s1, Flag(true))
      case Empty(_) => (s1, Flag(o.account.nonce == 0 && o.account.balance == 0 && o.account.codeHash == env.EmptyCodeHash()))
      case GetBalance(_) => (s1, Number(o.account.balance))
      case GetNonce(_) => (s1, Number(o.account.nonce))
      case GetCode(a) => (SetObj(s1, a, FillCode(env, o)), Code(FillCode(env, o).code))
      case GetCodeSize(a) => (SetObj(s1, a, FillCode(env, o)), Number(|CodeBytes(FillCode(env, o).code)|))
      case GetCodeHash(_) => (s1, Value(o.account.codeHash))
      case GetState(a, k) => (SetObj(s1, a, FillState(env, a, o, k)), Value(CurrentState(FillState(env, a, o, k), k)))
      case GetCommittedState(a, k) => (SetObj(s1, a, FillOrigin(env, a, o, k)), Value(FillOrigin(env, a, o, k).origin[k]))
      case HasSuicided(_) => (s1, Flag(o.suicided))
  }

  function Step(env: Env, s: State, call: Call): (State, Answer) {
    match call
    case GetRefund => (s, Number(s.refund))
    case Logs => (s, LogList(s.logs))
    case AddressInAccessList(a) => (s, Flag(s.al.ContainsAddress(a)))
    case SlotInAccessList(a, slot) => (s, Presence(s.al.ContainsAddress(a), s.al.ContainsSlot(a, slot)))
    case CreateAccount(a) => (CreateAccount(env, s, a), Done)
    case AddBalance(a, amount) => (AddBalance(env, s, a, amount), Done)
    case SubBalance(a, amount) => (AddBalance(env, s, a, -amount), Done)
    case SetNonce(a, nonce) => (SetNonce(env, s, a, nonce), Done)
    case SetCode(a, code) => (SetCode(env, s, a, code), Done)
    case SetState(a, k, v) => (SetState(env, s, a, k, v), Done)
    case Suicide(a) => (Suicide(env, s, a), Flag(a in Load(env, s, a).objects))
    case AddLog(body) => (AddLog(env, s, body), Done)
    case AddRefund(gas) => (AddRefund(s, gas), Done)
    case SubRefund(gas) => (SubRefund(s, gas), if gas <= s.refund then Done else Panic)
    case AddAddressToAccessList(a) => (AddAddress(s, a), Done)
    case AddSlotToAccessList(a, slot) => (AddSlot(s, a, slot), Done)
    case PrepareAccessList(sender, dst, precompiles, list) => (PrepareAccessList(s, sender, dst, precompiles, list), Done)
    case Snapshot => (TakeSnapshot(s), Number(s.nextId))
    case RevertToSnapshot(id) => if CanRevert(s, id) then (RevertToSnapshot(env, s, id), Done) else (s, Panic)
    case _ => Query(env, s, call)
  }

  /** The final state and the answers of a sequence of calls; a panic ends the run. */
  function Run(env: Env, s: State, calls: seq<Call>): (State, seq<Answer>)
    decreases |calls|
  {
    if calls == [] then (s, [])
    else
      var (s1, answer) := Step(env, s, calls[0]);
      if answer.Panic? then (s1, [answer])
      else
        var (s2, answers) := Run(env, s1, calls[1..]);
        (s2, [answer] + answers)
  }
}
