/**
 * The reference machine: a plain map of accounts, plain access sets, and snapshots that are full
 * copies. It has no cache, no journal and no dirty tracking.
 */
module Reference {
  import opened EvmTypes
  import opened Interfaces

  /** An account with its whole storage. */
  datatype Acct = Acct(
    nonce: uint64,
    balance: int,
    codeHash: Hash,
    code: Option<Bytes>,
    storage: imap<Hash, Hash>,
    suicided: bool)

  datatype Core = Core(
    accts: map<Address, Acct>,
    refund: uint64,
    logs: seq<Log>,
    warm: set<Address>,
    warmSlots: iset<(Address, Hash)>)

  datatype Copy = Copy(id: int, core: Core)

  datatype Ref = Ref(core: Core, copies: seq<Copy>, nextId: nat)

  ghost function Persisted(env: Env, addr: Address): imap<Hash, Hash> {
    imap k: Hash :: env.state(addr, k)
  }

  ghost function CodeFor(env: Env, codeHash: Hash): Option<Bytes> {
    if codeHash == env.EmptyCodeHash() then None else env.code(codeHash)
  }

  ghost function FromAccount(env: Env, addr: Address, account: Account): Acct {
    Acct(account.nonce, account.balance, account.codeHash, CodeFor(env, account.codeHash), Persisted(env, addr), false)
  }

  /** A newly created account; it still reads the storage persisted under its address. */
  ghost function Fresh(env: Env, addr: Address): Acct {
    FromAccount(env, addr, Account(0, 0, env.EmptyCodeHash()))
  }

  ghost function Init(env: Env): Core {
    Core(
      map a | a in env.accounts :: FromAccount(env, a, env.accounts[a]),
      0, [], {}, iset{})
  }

  ghost function Start(env: Env): Ref {
    Ref(Init(env), [], 0)
  }

  ghost function Put(core: Core, addr: Address, acct: Acct): Core {
    core.(accts := core.accts[addr := acct])
  }

  /** Makes sure the account exists. */
  ghost function Touch(env: Env, core: Core, addr: Address): Core {
    if addr in core.accts then core else Put(core, addr, Fresh(env, addr))
  }

  ghost function AddBalance(env: Env, core: Core, addr: Address, amount: int): Core {
    var c := Touch(env, core, addr);
    Put(c, addr, c.accts[addr].(balance := c.accts[addr].balance + amount))
  }

  ghost function SetNonce(env: Env, core: Core, addr: Address, nonce: uint64): Core {
    var c := Touch(env, core, addr);
    Put(c, addr, c.accts[addr].(nonce := nonce))
  }

  ghost function SetCode(env: Env, core: Core, addr: Address, code: Option<Bytes>): Core {
    var c := Touch(env, core, addr);
    Put(c, addr, c.accts[addr].(codeHash := env.keccak(CodeBytes(code)), code := code))
  }

  ghost function SetState(env: Env, core: Core, addr: Address, key: Hash, value: Hash): Core {
    var c := Touch(env, core, addr);
    Put(c, addr, c.accts[addr].(storage := c.accts[addr].storage[key := value]))
  }

  /** The balance is carried over; everything else starts afresh. */
  ghost function CreateAccount(env: Env, core: Core, addr: Address): Core {
    Put(core, addr, Fresh(env, addr).(balance := if addr in core.accts then core.accts[addr].balance else 0))
  }

  ghost function Suicide(core: Core, addr: Address): Core {
    if addr !in core.accts then core
    else Put(core, addr, core.accts[addr].(suicided := true, balance := 0))
  }

  ghost function AddSlot(core: Core, addr: Address, slot: Hash): Core {
    core.(warm := core.warm + {addr}, warmSlots := core.warmSlots + iset{(addr, slot)})
  }

  /** The addresses EIP-2929 and EIP-2930 make warm before execution starts. */
  ghost function PreparedAddresses(sender: Address, dst: Option<Address>, precompiles: seq<Address>, list: seq<AccessTuple>): set<Address> {
    {sender}
    + (if dst.Some? then {dst.value} else {})
    + (set a | a in precompiles)
    + (set i | 0 <= i < |list| :: list[i].address)
  }

  /** The storage slots EIP-2930 makes warm: exactly the pairs the transaction lists. */
  ghost function PreparedSlots(list: seq<AccessTuple>): iset<(Address, Hash)> {
    iset i, j | 0 <= i < |list| && 0 <= j < |list[i].storageKeys| :: (list[i].address, list[i].storageKeys[j])
  }

  ghost function Prepare(core: Core, sender: Address, dst: Option<Address>, precompiles: seq<Address>, list: seq<AccessTuple>): Core {
    core.(warm := core.warm + PreparedAddresses(sender, dst, precompiles, list),
          warmSlots := core.warmSlots + PreparedSlots(list))
  }

  /** The state a call leaves behind, for the calls that change the state itself. */
  ghost function Apply(env: Env, core: Core, call: Call): Core {
    match call
    case CreateAccount(a) => CreateAccount(env, core, a)
    case AddBalance(a, amount) => AddBalance(env, core, a, amount)
    case SubBalance(a, amount) => AddBalance(env, core, a, -amount)
    case SetNonce(a, nonce) => SetNonce(env, core, a, nonce)
    case SetCode(a, code) => SetCode(env, core, a, code)
    case SetState(a, key, value) => SetState(env, core, a, key, value)
    case Suicide(a) => Suicide(core, a)
    case AddLog(body) => core.(logs := core.logs + [Stamp(env.tx, body, |core.logs|)])
    case AddRefund(gas) => core.(refund := (core.refund + gas) % U64)
    case SubRefund(gas) => core.(refund := if gas <= core.refund then core.refund - gas else core.refund)
    case AddAddressToAccessList(a) => core.(warm := core.warm + {a})
    case AddSlotToAccessList(a, s) => AddSlot(core, a, s)
    case PrepareAccessList(sender, dst, precompiles, list) =>
      Prepare(core, sender, dst, precompiles, list)
    case _ => core
  }

  /** What a call answers, read off the plain state. */
  ghost function Answers(env: Env, core: Core, call: Call): Answer {
    match call
    case Exist(a) => Flag(a in core.accts)
    case Empty(a) =>
      Flag(a in core.accts ==>
        core.accts[a].nonce == 0 && core.accts[a].balance == 0 && core.accts[a].codeHash == env.EmptyCodeHash())
    case GetBalance(a) => Number(if a in core.accts then core.accts[a].balance else 0)
    case GetNonce(a) => Number(if a in core.accts then core.accts[a].nonce else 0)
    case GetCode(a) => Code(if a in core.accts then core.accts[a].code else None)
    case GetCodeSize(a) => Number(if a in core.accts then |CodeBytes(core.accts[a].code)| else 0)
    case GetCodeHash(a) => Value(if a in core.accts then core.accts[a].codeHash else ZERO_HASH)
    case GetState(a, k) => Value(if a in core.accts && k in core.accts[a].storage then core.accts[a].storage[k] else ZERO_HASH)
    case GetCommittedState(a, k) => Value(if a in core.accts then env.state(a, k) else ZERO_HASH)
    case HasSuicided(a) => Flag(a in core.accts && core.accts[a].suicided)
    case GetRefund => Number(core.refund)
    case Logs => LogList(core.logs)
    case AddressInAccessList(a) => Flag(a in core.warm)
    case SlotInAccessList(a, s) => Presence(a in core.warm, (a, s) in core.warmSlots)
    case Suicide(a) => Flag(a in core.accts)
    case SubRefund(gas) => if gas <= core.refund then Done else Panic
    case _ => Done
  }

  /** The position of the copy with the given id, or the number of copies. */
  ghost function Find(copies: seq<Copy>, id: int): (i: nat)
    ensures i <= |copies|
    ensures i < |copies| ==> copies[i].id == id
    ensures i == |copies| ==> forall k :: 0 <= k < |copies| ==> copies[k].id != id
  {
    if copies == [] then 0
    else if copies[0].id == id then 0
    else 1 + Find(copies[1..], id)
  }

  ghost function Step(env: Env, r: Ref, call: Call): (Ref, Answer) {
    match call
    case Snapshot => (Ref(r.core, r.copies + [Copy(r.nextId, r.core)], r.nextId + 1), Number(r.nextId))
    case RevertToSnapshot(id) =>
      var i := Find(r.copies, id);
      if i == |r.copies| then (r, Panic) else (Ref(r.copies[i].core, r.copies[..i], r.nextId), Done)
    case _ => (r.(core := Apply(env, r.core, call)), Answers(env, r.core, call))
  }

  /** The final state and the answers of a sequence of calls; a panic ends the run. */
  ghost function Run(env: Env, r: Ref, calls: seq<Call>): (Ref, seq<Answer>)
    decreases |calls|
  {
    if calls == [] then (r, [])
    else
      var (r1, answer) := Step(env, r, calls[0]);
      if answer.Panic? then (r1, [answer])
      else
        var (r2, answers) := Run(env, r1, calls[1..]);
        (r2, [answer] + answers)
  }
}
