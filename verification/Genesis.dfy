/** Exporting the EVM module's state and importing it again. */
module Genesis {
  import opened EvmTypes
  import Interfaces
  import opened Store
  import opened Keepers
  import opened Text

  datatype State = State(key: string, value: string)

  datatype GenesisAccount = GenesisAccount(address: Address, code: string, storage: seq<State>)

  predicate IsEth(w: World, addr: Address) {
    addr in w.auth && w.auth[addr].EthAccount?
  }

  /** The bytes stored under the account's code hash, none if there are none. */
  function CodeOf(w: World, addr: Address): Bytes
    requires IsEth(w, addr)
  {
    StoredCode(w, w.auth[addr].codeHash)
  }

  function StoredCode(w: World, codeHash: Hash): Bytes {
    var key := [1] + codeHash.bytes;
    if key in w.kv then w.kv[key] else []
  }

  lemma StoredCodeIs(w: World, codeHash: Hash)
    ensures StoredCode(w, codeHash) == Interfaces.CodeBytes(GetCode(w, codeHash))
  {
    assert CodeKey(codeHash) == [1] + codeHash.bytes;
  }

  // ---- what an export says ----

  ghost predicate Mentions(storage: seq<State>, key: Hash) {
    exists j :: 0 <= j < |storage| && HexToHash(storage[j].key) == key
  }

  /** Every listed value is the one that is read, and every slot that does not read as zero is listed. */
  ghost predicate ListsStorage(w: World, addr: Address, storage: seq<State>) {
    && (forall j :: 0 <= j < |storage| ==> HexToHash(storage[j].value) == GetState(w, addr, HexToHash(storage[j].key)))
    && (forall k: Hash :: GetState(w, addr, k) != ZERO_HASH ==> Mentions(storage, k))
  }

  ghost predicate ExportsAccount(w: World, account: GenesisAccount) {
    && IsEth(w, account.address)
    && DecodeHex(account.code) == CodeOf(w, account.address)
    && ListsStorage(w, account.address, account.storage)
  }

  ghost predicate Listed(accounts: seq<GenesisAccount>, addr: Address) {
    exists i :: 0 <= i < |accounts| && accounts[i].address == addr
  }

  /** The export holds each Ethereum account once, with its code and storage, and no other account. */
  ghost predicate Exports(w: World, accounts: seq<GenesisAccount>) {
    && (forall i :: 0 <= i < |accounts| ==> ExportsAccount(w, accounts[i]))
    && (forall i, j :: 0 <= i < j < |accounts| ==> accounts[i].address != accounts[j].address)
    && (forall a: Address :: IsEth(w, a) ==> Listed(accounts, a))
  }

  // ---- what an import does ----

  function ImportStates(w: World, addr: Address, storage: seq<State>): World {
    if storage == [] then w
    else
      var last := |storage| - 1;
      SetState(ImportStates(w, addr, storage[..last]), addr, HexToHash(storage[last].key), HexToHash(storage[last].value).bytes)
  }

  /** An account must be an Ethereum account whose code hash is that of the imported code. */
  predicate Importable(rules: Rules, w: World, account: GenesisAccount) {
    IsEth(w, account.address) && w.auth[account.address].codeHash == rules.keccak(DecodeHex(account.code))
  }

  function ImportAccount(rules: Rules, w: World, account: GenesisAccount): World {
    var code := DecodeHex(account.code);
    ImportStates(SetCode(w, rules.keccak(code), code), account.address, account.storage)
  }

  /** `InitGenesis` on the accounts; an account that does not fit is a panic. */
  function Import(rules: Rules, w: World, accounts: seq<GenesisAccount>): Outcome {
    if accounts == [] then Ok(w)
    else
      var last := |accounts| - 1;
      var front := Import(rules, w, accounts[..last]);
      if front.Err? || !Importable(rules, front.world, accounts[last]) then Err
      else Ok(ImportAccount(rules, front.world, accounts[last]))
  }

  /** Writing a list of values that all come from one source makes exactly the listed slots read as in the source. */
  lemma {:induction false} ImportStatesEffect(source: World, w: World, addr: Address, storage: seq<State>)
    requires forall j :: 0 <= j < |storage| ==> HexToHash(storage[j].value) == GetState(source, addr, HexToHash(storage[j].key))
    ensures var w' := ImportStates(w, addr, storage);
            && (forall k: Hash :: GetState(w', addr, k) == if Mentions(storage, k) then GetState(source, addr, k) else GetState(w, addr, k))
            && (forall b: Address, k: Hash :: b != addr ==> GetState(w', b, k) == GetState(w, b, k))
            && (forall h: Hash :: GetCode(w', h) == GetCode(w, h))
            && w'.auth == w.auth && w'.bank == w.bank && w'.supply == w.supply
  {
    hide HexToHash, Store.GetState, Store.GetCode, Store.SetState;
    if storage != [] {
      var last := |storage| - 1;
      var front := storage[..last];
      ImportStatesEffect(source, w, addr, front);
      var key, value := HexToHash(storage[last].key), HexToHash(storage[last].value);
      SetStateEffect(ImportStates(w, addr, front), addr, key, value);
      forall k: Hash ensures Mentions(storage, k) <==> Mentions(front, k) || k == key {
        MentionsPushed(storage, k);
      }
    }
  }

  lemma MentionsPushed(storage: seq<State>, key: Hash)
    requires storage != []
    ensures Mentions(storage, key) <==> Mentions(storage[..|storage| - 1], key) || key == HexToHash(storage[|storage| - 1].key)
  {
    hide HexToHash;
    var last := |storage| - 1;
    if j :| 0 <= j < last && HexToHash(storage[j].key) == key {
      assert storage[..last][j] == storage[j];
    }
  }

  ghost predicate CodeRestored(source: World, w: World, addr: Address) {
    IsEth(source, addr) && StoredCode(w, source.auth[addr].codeHash) == CodeOf(source, addr)
  }

  /** The accounts imported so far read as in the source, the others have no storage yet. */
  ghost predicate Restored(source: World, w: World, accounts: seq<GenesisAccount>) {
    && (forall a: Address, k: Hash :: Listed(accounts, a) ==> GetState(w, a, k) == GetState(source, a, k))
    && (forall a: Address, k: Hash :: !Listed(accounts, a) ==> GetState(w, a, k) == ZERO_HASH)
    && (forall i :: 0 <= i < |accounts| ==> CodeRestored(source, w, accounts[i].address))
    && w.auth == source.auth && w.bank == source.bank && w.supply == source.supply
  }

  /** The code hash of an exported account is that of its code. */
  predicate Consistent(rules: Rules, w: World, addr: Address)
    requires IsEth(w, addr)
  {
    rules.keccak(CodeOf(w, addr)) == w.auth[addr].codeHash
  }

  lemma ImportAccountRestores(rules: Rules, source: World, w: World, done: seq<GenesisAccount>, account: GenesisAccount)
    requires Restored(source, w, done) && ExportsAccount(source, account) && !Listed(done, account.address)
    requires Consistent(rules, source, account.address)
    ensures Restored(source, ImportAccount(rules, w, account), done + [account])
  {
    hide HexToHash, Store.GetState, Store.GetCode, Store.SetCode, DecodeHex, StoredCode;
    var a, code := account.address, DecodeHex(account.code);
    var hash := rules.keccak(code);
    var w1 := SetCode(w, hash, code);
    var w2 := ImportStates(w1, a, account.storage);
    SetCodeEffect(w, hash, code);
    ImportStatesEffect(source, w1, a, account.storage);
    var all := done + [account];
    forall b: Address ensures Listed(all, b) <==> Listed(done, b) || b == a {
      ListedPushed(done, account, b);
    }
    forall i | 0 <= i < |all|
      ensures CodeRestored(source, w2, all[i].address)
    {
      if i < |done| {
        assert all[i] == done[i] && CodeRestored(source, w, done[i].address);
      }
      StoredCodeIs(w, source.auth[all[i].address].codeHash);
      StoredCodeIs(w2, source.auth[all[i].address].codeHash);
    }
  }

  lemma ListedPushed(done: seq<GenesisAccount>, account: GenesisAccount, addr: Address)
    ensures Listed(done + [account], addr) <==> Listed(done, addr) || addr == account.address
  {
    var all := done + [account];
    assert all[|done|] == account;
    if i :| 0 <= i < |done| && done[i].address == addr {
      assert all[i].address == addr;
    }
  }

  lemma {:induction false} ImportRestores(rules: Rules, source: World, empty: World, accounts: seq<GenesisAccount>, n: nat)
    requires Exports(source, accounts) && n <= |accounts|
    requires empty == source.(kv := map[])
    ensures Import(rules, empty, accounts[..n]).Ok? <==> forall i :: 0 <= i < n ==> Consistent(rules, source, accounts[i].address)
    ensures Import(rules, empty, accounts[..n]).Ok? ==> Restored(source, Import(rules, empty, accounts[..n]).world, accounts[..n])
  {
    hide Restored, ExportsAccount, ImportAccount, ListsStorage;
    if n == 0 {
      NothingRestored(source, empty);
    } else {
      var last := n - 1;
      ImportRestores(rules, source, empty, accounts, last);
      assert accounts[..n][..last] == accounts[..last] && accounts[..n] == accounts[..last] + [accounts[last]];
      var front := Import(rules, empty, accounts[..last]);
      if front.Ok? {
        ExportedCode(source, accounts[last]);
        RestoredAuth(source, front.world, accounts[..last]);
        if Consistent(rules, source, accounts[last].address) {
          forall i | 0 <= i < last ensures accounts[..last][i].address != accounts[last].address {
          }
          ImportAccountRestores(rules, source, front.world, accounts[..last], accounts[last]);
        }
      }
    }
  }

  lemma NothingRestored(source: World, empty: World)
    requires empty == source.(kv := map[])
    ensures Restored(source, empty, [])
  {
  }

  lemma ExportedCode(source: World, account: GenesisAccount)
    requires ExportsAccount(source, account)
    ensures IsEth(source, account.address) && DecodeHex(account.code) == CodeOf(source, account.address)
  {
  }

  lemma RestoredAuth(source: World, w: World, accounts: seq<GenesisAccount>)
    requires Restored(source, w, accounts)
    ensures w.auth == source.auth
  {
  }

  /**
   * Importing an export onto the same accounts and an empty store succeeds if and only if every Ethereum account's
   * code hash is the hash of its code. All storage and code of Ethereum accounts then read as before, accounts of
   * other types have no storage, and balances and sequences are untouched.
   */
  lemma ImportOfExport(rules: Rules, source: World, accounts: seq<GenesisAccount>)
    requires Exports(source, accounts)
    ensures var r := Import(rules, source.(kv := map[]), accounts);
            && (r.Ok? <==> forall a :: IsEth(source, a) ==> Consistent(rules, source, a))
            && (r.Ok? ==>
                  && (forall a: Address, k: Hash :: IsEth(source, a) ==> GetState(r.world, a, k) == GetState(source, a, k))
                  && (forall a: Address, k: Hash :: !IsEth(source, a) ==> GetState(r.world, a, k) == ZERO_HASH)
                  && (forall a: Address :: IsEth(source, a) ==> StoredCode(r.world, source.auth[a].codeHash) == CodeOf(source, a))
                  && r.world.auth == source.auth && r.world.bank == source.bank && r.world.supply == source.supply)
  {
    hide Import, Store.GetState, Store.GetCode, CodeOf;
    ImportRestores(rules, source, source.(kv := map[]), accounts, |accounts|);
    assert accounts[..|accounts|] == accounts;
    forall a: Address ensures IsEth(source, a) <==> Listed(accounts, a) {
      if Listed(accounts, a) {
        var i :| 0 <= i < |accounts| && accounts[i].address == a;
        assert ExportsAccount(source, accounts[i]);
      }
    }
  }

  /**
   * An import of anything at all succeeds exactly when each account it names is an Ethereum account whose code hash is
   * the hash of the given code; it changes neither accounts nor coins.
   */
  lemma {:induction false} ImportSucceedsIff(rules: Rules, w: World, accounts: seq<GenesisAccount>)
    ensures Import(rules, w, accounts).Ok? <==>
              forall i :: 0 <= i < |accounts| ==>
                var a := accounts[i].address;
                a in w.auth && w.auth[a].EthAccount? && w.auth[a].codeHash == rules.keccak(DecodeHex(accounts[i].code))
    ensures Import(rules, w, accounts).Ok? ==>
              var w' := Import(rules, w, accounts).world; w'.auth == w.auth && w'.bank == w.bank && w'.supply == w.supply
  {
    hide DecodeHex, ImportStates, Store.SetCode;
    if accounts != [] {
      var last := |accounts| - 1;
      var front := accounts[..last];
      ImportSucceedsIff(rules, w, front);
      assert forall i :: 0 <= i < last ==> front[i] == accounts[i];
      if Import(rules, w, front).Ok? {
        LedgerKept(rules, Import(rules, w, front).world, accounts[last]);
      }
    }
  }

  lemma LedgerKept(rules: Rules, w: World, account: GenesisAccount)
    ensures var w' := ImportAccount(rules, w, account); w'.auth == w.auth && w'.bank == w.bank && w'.supply == w.supply
  {
    var code := DecodeHex(account.code);
    StatesKeepLedger(SetCode(w, rules.keccak(code), code), account.address, account.storage);
  }

  lemma {:induction false} StatesKeepLedger(w: World, addr: Address, storage: seq<State>)
    ensures var w' := ImportStates(w, addr, storage); w'.auth == w.auth && w'.bank == w.bank && w'.supply == w.supply
  {
    hide HexToHash;
    if storage != [] {
      StatesKeepLedger(w, addr, storage[..|storage| - 1]);
    }
  }

  // ---- the loops ----

  /** A visited key and its value in text form. */
  function StateOf(kv: map<Bytes, Bytes>, k: Bytes): State
    requires k in kv
  {
    State(HashHex(BytesToHash(k)), HashHex(BytesToHash(kv[k])))
  }

  /** `GetAccountStorage`: every slot the iteration visits, in text form. */
  method GetAccountStorage(keeper: Keeper, addr: Address) returns (storage: seq<State>)
    requires keeper.Valid()
    ensures ListsStorage(keeper.Stored(), addr, storage)
  {
    hide StateOf, ListsStorage;
    var keys := keeper.StorageIterator(addr);
    storage := [];
    for i := 0 to |keys|
      invariant |storage| == i
      invariant forall j :: 0 <= j < i ==> keys[j].bytes in keeper.kv && storage[j] == StateOf(keeper.kv, keys[j].bytes)
    {
      assert keys[i] in keys;
      storage := storage + [StateOf(keeper.kv, keys[i].bytes)];
    }
    VisitedAreListed(keeper.Stored(), addr, keys, storage);
  }

  lemma VisitedAreListed(w: World, addr: Address, keys: seq<Word>, storage: seq<State>)
    requires KeysOk(w.kv) && |storage| == |keys|
    requires forall k :: k in keys <==> k.bytes in StorageKeys(w, addr)
    requires forall j :: 0 <= j < |keys| ==> keys[j].bytes in w.kv && storage[j] == StateOf(w.kv, keys[j].bytes)
    ensures ListsStorage(w, addr, storage)
  {
    hide StateOf, HexToHash, Store.GetState;
    forall j | 0 <= j < |storage|
      ensures HexToHash(storage[j].value) == GetState(w, addr, HexToHash(storage[j].key))
    {
      assert keys[j] in keys;
      ReadState(w, addr, keys[j].bytes);
    }
    forall k: Hash | GetState(w, addr, k) != ZERO_HASH
      ensures Mentions(storage, k)
    {
      NonZeroIsVisited(w, addr, k);
      assert Word(StateKey(addr, k)) in keys;
      var j :| 0 <= j < |keys| && keys[j] == Word(StateKey(addr, k));
      ReadState(w, addr, keys[j].bytes);
      assert HexToHash(storage[j].key) == k;
    }
  }

  lemma ReadState(w: World, addr: Address, k: Bytes)
    requires KeysOk(w.kv) && k in StorageKeys(w, addr)
    ensures HexToHash(StateOf(w.kv, k).key) == BytesToHash(k)
    ensures HexToHash(StateOf(w.kv, k).value) == GetState(w, addr, BytesToHash(k))
  {
    hide HexToHash, HashHex, Store.GetState, BytesToHash;
    VisitedKey(addr, k);
    HexToHashOfHex(BytesToHash(k));
    HexToHashOfHex(BytesToHash(w.kv[k]));
    ReadVisited(w, addr, k);
  }

  lemma ReadVisited(w: World, addr: Address, k: Bytes)
    requires k in w.kv && StateKey(addr, BytesToHash(k)) == k
    ensures GetState(w, addr, BytesToHash(k)) == BytesToHash(w.kv[k])
  {
    if |w.kv[k]| == 0 {
      assert Zeros(32) + w.kv[k] == Zeros(32);
    }
  }

  lemma NonZeroIsVisited(w: World, addr: Address, k: Hash)
    requires GetState(w, addr, k) != ZERO_HASH
    ensures StateKey(addr, k) in StorageKeys(w, addr) && BytesToHash(StateKey(addr, k)) == k
  {
    var key := StateKey(addr, k);
    assert AddressStoragePrefix(addr) <= key;
    assert key[|key| - 32..] == k.bytes;
  }

  /** `ExportGenesis`: walks over the given accounts, which are those of the auth module, and skips other types. */
  method ExportGenesis(keeper: Keeper, addrs: seq<Address>) returns (accounts: seq<GenesisAccount>)
    requires keeper.Valid() && (forall a :: a in addrs <==> a in keeper.auth)
    requires forall i, j :: 0 <= i < j < |addrs| ==> addrs[i] != addrs[j]
    ensures Exports(keeper.Stored(), accounts)
  {
    hide ExportsAccount, Listed, DecodeHex, EncodeHex, Store.GetCode, ListsStorage, StoredCode;
    ghost var w := keeper.Stored();
    accounts := [];
    for i := 0 to |addrs|
      invariant forall j :: 0 <= j < |accounts| ==> ExportsAccount(w, accounts[j])
      invariant forall j :: 0 <= j < |accounts| ==> accounts[j].address in addrs[..i]
      invariant forall j, k :: 0 <= j < k < |accounts| ==> accounts[j].address != accounts[k].address
      invariant forall j :: 0 <= j < i && IsEth(w, addrs[j]) ==> Listed(accounts, addrs[j])
    {
      var addr := addrs[i];
      assert addrs[..i + 1] == addrs[..i] + [addr];
      assert addr in addrs;
      if keeper.auth[addr].EthAccount? {
        var storage := GetAccountStorage(keeper, addr);
        var code := Interfaces.CodeBytes(GetCode(keeper.Stored(), keeper.auth[addr].codeHash));
        DecodeOfEncode(code);
        StoredCodeIs(w, keeper.auth[addr].codeHash);
        var account := GenesisAccount(addr, EncodeHex(code), storage);
        IsExported(w, account);
        forall j | 0 <= j < i + 1 && IsEth(w, addrs[j]) ensures Listed(accounts + [account], addrs[j]) {
          ListedPushed(accounts, account, addrs[j]);
        }
        accounts := accounts + [account];
      }
    }
    assert addrs[..|addrs|] == addrs;
    forall a: Address | IsEth(w, a) ensures Listed(accounts, a) {
      assert a in addrs;
      var j :| 0 <= j < |addrs| && addrs[j] == a;
    }
  }

  lemma IsExported(w: World, account: GenesisAccount)
    requires IsEth(w, account.address) && DecodeHex(account.code) == CodeOf(w, account.address)
    requires ListsStorage(w, account.address, account.storage)
    ensures ExportsAccount(w, account)
  {
  }

  /** `InitGenesis`: false stands for the panic on an account that does not fit. */
  method InitGenesis(keeper: Keeper, accounts: seq<GenesisAccount>) returns (ok: bool)
    requires keeper.Valid()
    modifies keeper`kv
    ensures keeper.Valid()
    ensures ok == Import(keeper.rules, old(keeper.Stored()), accounts).Ok?
    ensures ok ==> keeper.Stored() == Import(keeper.rules, old(keeper.Stored()), accounts).world
  {
    hide ImportAccount, Importable;
    for i := 0 to |accounts|
      invariant keeper.Valid()
      invariant Import(keeper.rules, old(keeper.Stored()), accounts[..i]) == Ok(keeper.Stored())
    {
      assert accounts[..i + 1][..i] == accounts[..i];
      ok := InitAccount(keeper, accounts[i]);
      if !ok {
        ImportFails(keeper.rules, old(keeper.Stored()), accounts, i + 1);
        return;
      }
    }
    assert accounts[..|accounts|] == accounts;
    ok := true;
  }

  method InitAccount(keeper: Keeper, account: GenesisAccount) returns (ok: bool)
    requires keeper.Valid()
    modifies keeper`kv
    ensures keeper.Valid()
    ensures ok == Importable(keeper.rules, old(keeper.Stored()), account)
    ensures ok ==> keeper.Stored() == ImportAccount(keeper.rules, old(keeper.Stored()), account)
  {
    hide DecodeHex, HexToHash, Store.SetState, Store.SetCode;
    var addr := account.address;
    if addr !in keeper.auth || keeper.auth[addr].OtherAccount? {
      return false;
    }
    var code := DecodeHex(account.code);
    var codeHash := keeper.rules.keccak(code);
    if keeper.auth[addr].codeHash != codeHash {
      return false;
    }
    keeper.SetCode(codeHash, code);
    ghost var w := keeper.Stored();
    for j := 0 to |account.storage|
      invariant keeper.Valid()
      invariant keeper.Stored() == ImportStates(w, addr, account.storage[..j])
    {
      assert account.storage[..j + 1][..j] == account.storage[..j];
      keeper.SetState(addr, HexToHash(account.storage[j].key), HexToHash(account.storage[j].value).bytes);
    }
    assert account.storage[..|account.storage|] == account.storage;
    ok := true;
  }

  lemma {:induction false} ImportFails(rules: Rules, w: World, accounts: seq<GenesisAccount>, i: nat)
    requires i <= |accounts| && Import(rules, w, accounts[..i]).Err?
    ensures Import(rules, w, accounts).Err?
    decreases |accounts| - i
  {
    hide ImportAccount, Importable;
    if i == |accounts| {
      assert accounts[..i] == accounts;
    } else {
      assert accounts[..i + 1][..i] == accounts[..i];
      ImportFails(rules, w, accounts, i + 1);
    }
  }
}
