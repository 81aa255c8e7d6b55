/**
 * The persistent state behind the EVM keeper: auth accounts, the bank ledger of the EVM
 * denomination, and the EVM key-value store, with the keeper's reads and writes on them.
 */
module Store {
  import opened EvmTypes
  import opened Interfaces

  /** An account of the auth module; only Ethereum accounts carry a code hash. */
  datatype AuthAccount =
    | EthAccount(sequence: uint64, codeHash: Hash)
    | OtherAccount(sequence: uint64)

  datatype World = World(
    auth: map<Address, AuthAccount>,
    bank: map<Address, nat>,
    supply: int,
    kv: map<Bytes, Bytes>)

  /** The fixed surroundings of the keeper: the hash function, the EVM module account and the bank's restrictions. */
  datatype Rules = Rules(
    keccak: Bytes -> Hash,
    moduleAccount: Address,
    blocked: set<Address>,
    locked: map<Address, nat>)
  {
    function EmptyCodeHash(): Hash {
      keccak([])
    }

    function Locked(addr: Address): nat {
      if addr in locked then locked[addr] else 0
    }
  }

  datatype Outcome = Ok(world: World) | Err

  const PREFIX_CODE: byte := 1
  const PREFIX_STORAGE: byte := 2

  // ---- keys ----

  function AddressStoragePrefix(addr: Address): Bytes {
    [PREFIX_STORAGE] + addr.bytes
  }

  function StateKey(addr: Address, key: Hash): Bytes {
    AddressStoragePrefix(addr) + key.bytes
  }

  function CodeKey(codeHash: Hash): Bytes {
    [PREFIX_CODE] + codeHash.bytes
  }

  /** Every key of the store is a code key or a storage key. */
  predicate KeyShape(k: Bytes) {
    || (|k| == 33 && k[0] == PREFIX_CODE)
    || (|k| == 53 && k[0] == PREFIX_STORAGE)
  }

  ghost predicate KeysOk(kv: map<Bytes, Bytes>) {
    forall k :: k in kv ==> KeyShape(k)
  }

  // ---- reads ----

  function BankBalance(w: World, addr: Address): nat {
    if addr in w.bank then w.bank[addr] else 0
  }

  function ToAccount(emptyCodeHash: Hash, w: World, addr: Address): Account
    requires addr in w.auth
  {
    Account(w.auth[addr].sequence, BankBalance(w, addr),
            if w.auth[addr].EthAccount? then w.auth[addr].codeHash else emptyCodeHash)
  }

  function GetAccount(emptyCodeHash: Hash, w: World, addr: Address): Option<Account> {
    if addr in w.auth then Some(ToAccount(emptyCodeHash, w, addr)) else None
  }

  function GetState(w: World, addr: Address, key: Hash): Hash {
    var k := StateKey(addr, key);
    if k in w.kv && |w.kv[k]| > 0 then BytesToHash(w.kv[k]) else ZERO_HASH
  }

  function GetCode(w: World, codeHash: Hash): Option<Bytes> {
    var k := CodeKey(codeHash);
    if k in w.kv then Some(w.kv[k]) else None
  }

  /** The keeper as a StateDB reads it. */
  ghost function EnvOf(rules: Rules, w: World, tx: TxConfig): Env {
    Env(rules.keccak,
        map a | a in w.auth :: ToAccount(rules.EmptyCodeHash(), w, a),
        (a: Address, k: Hash) => GetState(w, a, k),
        (h: Hash) => GetCode(w, h),
        tx)
  }

  // ---- bank ----

  function Credit(w: World, addr: Address, amount: nat): World {
    w.(bank := w.bank[addr := BankBalance(w, addr) + amount])
  }

  function MintCoins(rules: Rules, w: World, amount: nat): World {
    Credit(w, rules.moduleAccount, amount).(supply := w.supply + amount)
  }

  function BurnCoins(rules: Rules, w: World, amount: nat): Outcome {
    var m := rules.moduleAccount;
    if BankBalance(w, m) < amount then Err
    else Ok(w.(bank := w.bank[m := BankBalance(w, m) - amount], supply := w.supply - amount))
  }

  /** Only what is not locked can be sent. */
  function SendCoins(rules: Rules, w: World, from: Address, to: Address, amount: nat): Outcome {
    if BankBalance(w, from) < amount + rules.Locked(from) then Err
    else Ok(Credit(w.(bank := w.bank[from := BankBalance(w, from) - amount]), to, amount))
  }

  function SendFromModule(rules: Rules, w: World, to: Address, amount: nat): Outcome {
    if to in rules.blocked then Err else SendCoins(rules, w, rules.moduleAccount, to, amount)
  }

  // ---- keeper writes ----

  /** Mints or burns the difference to the current balance through the module account. */
  function SetBalance(rules: Rules, w: World, addr: Address, amount: int): Outcome {
    var delta := amount - BankBalance(w, addr);
    if delta > 0 then
      SendFromModule(rules, MintCoins(rules, w, delta), addr, delta)
    else if delta < 0 then
      match SendCoins(rules, w, addr, rules.moduleAccount, -delta)
      case Err => Err
      case Ok(w1) => BurnCoins(rules, w1, -delta)
    else Ok(w)
  }

  /** Creates the auth account if needed; the code hash is recorded on Ethereum accounts only. */
  function WithAuth(w: World, addr: Address, account: Account): World {
    w.(auth := w.auth[addr :=
      if addr in w.auth && w.auth[addr].OtherAccount? then OtherAccount(account.nonce)
      else EthAccount(account.nonce, account.codeHash)])
  }

  function SetAccount(rules: Rules, w: World, addr: Address, account: Account): Outcome {
    SetBalance(rules, WithAuth(w, addr, account), addr, account.balance)
  }

  function SetKey(w: World, k: Bytes, value: Bytes): World {
    if |value| == 0 then w.(kv := w.kv - {k}) else w.(kv := w.kv[k := value])
  }

  function SetState(w: World, addr: Address, key: Hash, value: Bytes): World {
    SetKey(w, StateKey(addr, key), value)
  }

  function SetCode(w: World, codeHash: Hash, code: Bytes): World {
    SetKey(w, CodeKey(codeHash), code)
  }

  /** The keys `ForEachStorage` visits: those that start with the address's prefix. */
  function StorageKeys(w: World, addr: Address): set<Bytes> {
    set k | k in w.kv && AddressStoragePrefix(addr) <= k
  }

  /** What clearing the storage is meant to leave: no key of the address. */
  function WithoutStorage(w: World, addr: Address): World {
    w.(kv := w.kv - StorageKeys(w, addr))
  }

  function RemoveCode(rules: Rules, w: World, acct: AuthAccount): World {
    if acct.EthAccount? && acct.codeHash != rules.EmptyCodeHash() then SetCode(w, acct.codeHash, []) else w
  }

  /** Clears balance, code, storage and auth account; unknown accounts are left alone, other account types refused. */
  function DeleteAccount(rules: Rules, w: World, addr: Address): Outcome {
    if addr !in w.auth then Ok(w)
    else if w.auth[addr].OtherAccount? then Err
    else
      match SetBalance(rules, w, addr, 0)
      case Err => Err
      case Ok(w1) =>
        var w2 := WithoutStorage(RemoveCode(rules, w1, w.auth[addr]), addr);
        Ok(w2.(auth := w2.auth - {addr}))
  }

  // ---- key reasoning ----

  /** Storage keys of different addresses or slots differ, and none is a code key. */
  lemma KeysDistinct(a: Address, k: Hash, b: Address, l: Hash, h: Hash)
    ensures StateKey(a, k) == StateKey(b, l) ==> a == b && k == l
    ensures StateKey(a, k) != CodeKey(h)
    ensures AddressStoragePrefix(a) <= StateKey(b, l) <==> a == b
    ensures !(AddressStoragePrefix(a) <= CodeKey(h))
    ensures KeyShape(StateKey(a, k)) && KeyShape(CodeKey(h))
  {
    var x, y := StateKey(a, k), StateKey(b, l);
    assert x[1..21] == a.bytes && y[1..21] == b.bytes;
    assert x[21..] == k.bytes && y[21..] == l.bytes;
    if AddressStoragePrefix(a) <= y {
      assert AddressStoragePrefix(a)[1..] == y[..21][1..] == y[1..21];
    }
    assert x[0] == PREFIX_STORAGE && CodeKey(h)[0] == PREFIX_CODE;
    assert AddressStoragePrefix(a)[0] == PREFIX_STORAGE;
  }

  lemma CodeKeysDistinct(g: Hash, h: Hash)
    ensures CodeKey(g) == CodeKey(h) ==> g == h
  {
    assert CodeKey(g)[1..] == g.bytes && CodeKey(h)[1..] == h.bytes;
  }

  /** A visited key is the storage key of the slot in its last 32 bytes, which is what `BytesToHash` keeps. */
  lemma VisitedKey(addr: Address, k: Bytes)
    requires KeyShape(k) && AddressStoragePrefix(addr) <= k
    ensures StateKey(addr, BytesToHash(k)) == k
  {
    assert AddressStoragePrefix(addr)[0] == PREFIX_STORAGE == k[0];
    assert k == k[..21] + k[21..];
  }

  // ---- what the writes do, as the reads see it ----

  /**
   * A successful `SetBalance` sets exactly that balance, leaves every other balance alone, the
   * module account's included, and moves the supply by the difference. It fails exactly when coins
   * would have to go to a blocked address, or locked coins would have to leave.
   */
  lemma SetBalanceEffect(rules: Rules, w: World, addr: Address, amount: int)
    requires rules.Locked(rules.moduleAccount) == 0
    ensures SetBalance(rules, w, addr, amount).Ok? <==>
              (var old' := BankBalance(w, addr);
               amount == old' || (amount > old' && addr !in rules.blocked) || (rules.Locked(addr) <= amount < old'))
    ensures SetBalance(rules, w, addr, amount).Ok? ==>
              var w' := SetBalance(rules, w, addr, amount).world;
              && amount >= 0
              && (forall b: Address :: BankBalance(w', b) == if b == addr then amount else BankBalance(w, b))
              && w'.supply == w.supply + amount - BankBalance(w, addr)
              && w'.auth == w.auth && w'.kv == w.kv
  {
  }

  lemma SetKeyEffect(w: World, k: Bytes, value: Bytes)
    ensures var w' := SetKey(w, k, value);
            && (forall l :: l != k ==> (l in w'.kv <==> l in w.kv) && (l in w.kv ==> w'.kv[l] == w.kv[l]))
            && (k in w'.kv <==> value != [])
            && (value != [] ==> w'.kv[k] == value)
  {
  }

  /** Setting a slot is read back, and no other slot and no code changes. */
  lemma SetStateEffect(w: World, addr: Address, key: Hash, value: Hash)
    ensures var w' := SetState(w, addr, key, value.bytes);
            && (forall b: Address, k: Hash :: GetState(w', b, k) == if (b, k) == (addr, key) then value else GetState(w, b, k))
            && (forall h: Hash :: GetCode(w', h) == GetCode(w, h))
            && w'.auth == w.auth && w'.bank == w.bank && w'.supply == w.supply
  {
    var w' := SetState(w, addr, key, value.bytes);
    SetKeyEffect(w, StateKey(addr, key), value.bytes);
    forall b: Address, k: Hash
      ensures GetState(w', b, k) == if (b, k) == (addr, key) then value else GetState(w, b, k)
    {
      KeysDistinct(addr, key, b, k, ZERO_HASH);
      if (b, k) == (addr, key) {
        assert value.bytes[|value.bytes| - 32..] == value.bytes;
      }
    }
    forall h: Hash ensures GetCode(w', h) == GetCode(w, h) {
      KeysDistinct(addr, key, addr, key, h);
    }
  }

  lemma SetCodeEffect(w: World, codeHash: Hash, code: Bytes)
    ensures var w' := SetCode(w, codeHash, code);
            && (forall h: Hash :: GetCode(w', h) ==
                  if h == codeHash then (if code == [] then None else Some(code)) else GetCode(w, h))
            && (forall b: Address, k: Hash :: GetState(w', b, k) == GetState(w, b, k))
            && w'.auth == w.auth && w'.bank == w.bank && w'.supply == w.supply
  {
    var w' := SetCode(w, codeHash, code);
    SetKeyEffect(w, CodeKey(codeHash), code);
    forall h: Hash
      ensures GetCode(w', h) == if h == codeHash then (if code == [] then None else Some(code)) else GetCode(w, h)
    {
      CodeKeysDistinct(codeHash, h);
    }
    forall b: Address, k: Hash ensures GetState(w', b, k) == GetState(w, b, k) {
      KeysDistinct(b, k, b, k, codeHash);
    }
  }

  /** Clearing by prefix empties exactly the storage of the address. */
  lemma WithoutStorageEffect(w: World, addr: Address)
    ensures var w' := WithoutStorage(w, addr);
            && (forall b: Address, k: Hash :: GetState(w', b, k) == if b == addr then ZERO_HASH else GetState(w, b, k))
            && (forall h: Hash :: GetCode(w', h) == GetCode(w, h))
  {
    var w' := WithoutStorage(w, addr);
    forall b: Address, k: Hash
      ensures GetState(w', b, k) == if b == addr then ZERO_HASH else GetState(w, b, k)
    {
      KeysDistinct(addr, k, b, k, ZERO_HASH);
    }
    forall h: Hash ensures GetCode(w', h) == GetCode(w, h) {
      KeysDistinct(addr, ZERO_HASH, addr, ZERO_HASH, h);
    }
  }

  /**
   * A successful `DeleteAccount` of a known account leaves no account, no balance and no storage
   * under the address, removes its code, and touches nothing else.
   */
  lemma DeleteAccountEffect(rules: Rules, w: World, addr: Address)
    requires rules.Locked(rules.moduleAccount) == 0
    requires addr in w.auth && DeleteAccount(rules, w, addr).Ok?
    ensures w.auth[addr].EthAccount?
    ensures var w' := DeleteAccount(rules, w, addr).world;
            && w'.auth == w.auth - {addr}
            && (forall b: Address :: BankBalance(w', b) == if b == addr then 0 else BankBalance(w, b))
            && w'.supply == w.supply - BankBalance(w, addr)
            && (forall b: Address, k: Hash :: GetState(w', b, k) == if b == addr then ZERO_HASH else GetState(w, b, k))
            && (forall h: Hash :: GetCode(w', h) ==
                  if h == w.auth[addr].codeHash && h != rules.EmptyCodeHash() then None else GetCode(w, h))
  {
    SetBalanceEffect(rules, w, addr, 0);
    var w1 := SetBalance(rules, w, addr, 0).world;
    var w2 := RemoveCode(rules, w1, w.auth[addr]);
    SetCodeEffect(w1, w.auth[addr].codeHash, []);
    WithoutStorageEffect(w2, addr);
    hide SetBalance, SetCode, WithoutStorage;
    forall b: Address, k: Hash
      ensures GetState(w2, b, k) == GetState(w, b, k)
    {
      assert GetState(w1, b, k) == GetState(w, b, k);
    }
    forall h: Hash ensures GetCode(w1, h) == GetCode(w, h) {
    }
  }

  // ---- exactly when the writes succeed ----

  /** Coins may reach the address, and only coins that are not locked may leave it. */
  predicate MayBecome(rules: Rules, w: World, addr: Address, amount: int) {
    var balance := BankBalance(w, addr);
    || amount == balance
    || (amount > balance && addr !in rules.blocked)
    || rules.Locked(addr) <= amount < balance
  }

  /**
   * `SetAccount` succeeds exactly when the balance may become the new one, whatever the type of the account. The
   * account keeps its type and gets the sequence; only Ethereum accounts, new ones included, get the code hash.
   */
  lemma SetAccountLaw(rules: Rules, w: World, addr: Address, account: Account)
    requires rules.Locked(rules.moduleAccount) == 0
    ensures SetAccount(rules, w, addr, account).Ok? <==> MayBecome(rules, w, addr, account.balance)
    ensures SetAccount(rules, w, addr, account).Ok? ==>
              var w' := SetAccount(rules, w, addr, account).world;
              && addr in w'.auth && w'.auth[addr].sequence == account.nonce
              && (w'.auth[addr].OtherAccount? <==> addr in w.auth && w.auth[addr].OtherAccount?)
              && (w'.auth[addr].EthAccount? ==> w'.auth[addr].codeHash == account.codeHash)
              && w'.auth - {addr} == w.auth - {addr}
              && (forall b: Address :: BankBalance(w', b) == if b == addr then account.balance else BankBalance(w, b))
              && w'.kv == w.kv
  {
    var w1 := WithAuth(w, addr, account);
    SetBalanceEffect(rules, w1, addr, account.balance);
    hide SetBalance;
    assert forall b: Address :: BankBalance(w1, b) == BankBalance(w, b);
  }

  /** `DeleteAccount` succeeds exactly for absent accounts and for Ethereum accounts whose coins may all leave. */
  lemma DeleteAccountLaw(rules: Rules, w: World, addr: Address)
    requires rules.Locked(rules.moduleAccount) == 0
    ensures DeleteAccount(rules, w, addr).Ok? <==>
              addr !in w.auth || (w.auth[addr].EthAccount? && (BankBalance(w, addr) == 0 || rules.Locked(addr) == 0))
    ensures addr !in w.auth ==> DeleteAccount(rules, w, addr) == Ok(w)
  {
    if addr in w.auth {
      SetBalanceEffect(rules, w, addr, 0);
    }
  }
}
