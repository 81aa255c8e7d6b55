/** The keeper as the program runs it: stores updated in place, step by step. */
module Keepers {
  import opened EvmTypes
  import opened Interfaces
  import opened Store
  import opened Sorting

  class Keeper {
    const rules: Rules
    var auth: map<Address, AuthAccount>
    var bank: map<Address, nat>
    var supply: int
    var kv: map<Bytes, Bytes>

    constructor (rules: Rules, w: World)
      requires KeysOk(w.kv)
      ensures Valid() && Stored() == w && this.rules == rules
    {
      this.rules := rules;
      auth, bank, supply, kv := w.auth, w.bank, w.supply, w.kv;
    }

    ghost predicate Valid()
      reads this
    {
      KeysOk(kv)
    }

    function Stored(): World
      reads this
    {
      World(auth, bank, supply, kv)
    }

    ghost function EnvFor(tx: TxConfig): Env
      reads this
    {
      EnvOf(rules, Stored(), tx)
    }

    // ---- bank ----

    method Mint(amount: nat)
      modifies this`bank, this`supply
      ensures Stored() == MintCoins(rules, old(Stored()), amount)
    {
      var m := rules.moduleAccount;
      bank := bank[m := (if m in bank then bank[m] else 0) + amount];
      supply := supply + amount;
    }

    method Send(from: Address, to: Address, amount: nat) returns (ok: bool)
      modifies this`bank
      ensures ok == SendCoins(rules, old(Stored()), from, to, amount).Ok?
      ensures ok ==> Stored() == SendCoins(rules, old(Stored()), from, to, amount).world
    {
      var balance := BankBalance(Stored(), from);
      if balance < amount + rules.Locked(from) {
        return false;
      }
      bank := bank[from := balance - amount];
      bank := bank[to := BankBalance(Stored(), to) + amount];
      ok := true;
    }

    method Burn(amount: nat) returns (ok: bool)
      modifies this`bank, this`supply
      ensures ok == BurnCoins(rules, old(Stored()), amount).Ok?
      ensures ok ==> Stored() == BurnCoins(rules, old(Stored()), amount).world
    {
      var m := rules.moduleAccount;
      if BankBalance(Stored(), m) < amount {
        return false;
      }
      bank := bank[m := BankBalance(Stored(), m) - amount];
      supply := supply - amount;
      ok := true;
    }

    // ---- writes called by Commit ----

    method SetBalance(addr: Address, amount: int) returns (ok: bool)
      modifies this`bank, this`supply
      ensures ok == Store.SetBalance(rules, old(Stored()), addr, amount).Ok?
      ensures ok ==> Stored() == Store.SetBalance(rules, old(Stored()), addr, amount).world
    {
      var delta := amount - BankBalance(Stored(), addr);
      if delta > 0 {
        Mint(delta);
        if addr in rules.blocked {
          return false;
        }
        ok := Send(rules.moduleAccount, addr, delta);
      } else if delta < 0 {
        ok := Send(addr, rules.moduleAccount, -delta);
        if ok {
          ok := Burn(-delta);
        }
      } else {
        ok := true;
      }
    }

    method SetAccount(addr: Address, account: Account) returns (ok: bool)
      modifies this`auth, this`bank, this`supply
      ensures ok == Store.SetAccount(rules, old(Stored()), addr, account).Ok?
      ensures ok ==> Stored() == Store.SetAccount(rules, old(Stored()), addr, account).world
    {
      if addr in auth && auth[addr].OtherAccount? {
        auth := auth[addr := OtherAccount(account.nonce)];
      } else {
        auth := auth[addr := EthAccount(account.nonce, account.codeHash)];
      }
      assert Stored() == WithAuth(old(Stored()), addr, account);
      ok := SetBalance(addr, account.balance);
    }

    method SetState(addr: Address, key: Hash, value: Bytes)
      requires Valid()
      modifies this`kv
      ensures Valid()
      ensures Stored() == Store.SetState(old(Stored()), addr, key, value)
    {
      KeysDistinct(addr, key, addr, key, ZERO_HASH);
      if |value| == 0 {
        kv := kv - {StateKey(addr, key)};
      } else {
        kv := kv[StateKey(addr, key) := value];
      }
    }

    method SetCode(codeHash: Hash, code: Bytes)
      requires Valid()
      modifies this`kv
      ensures Valid()
      ensures Stored() == Store.SetCode(old(Stored()), codeHash, code)
    {
      if |code| == 0 {
        kv := kv - {CodeKey(codeHash)};
      } else {
        kv := kv[CodeKey(codeHash) := code];
      }
    }

    /** The keys `ForEachStorage` walks over, in ascending order. */
    method StorageIterator(addr: Address) returns (keys: seq<Word>)
      ensures Sorted(keys)
      ensures forall k :: k in keys <==> k.bytes in StorageKeys(Stored(), addr)
    {
      var all := set k | k in StorageKeys(Stored(), addr) :: Word(k);
      keys := SortedKeys(all);
      forall k ensures k in all <==> k.bytes in StorageKeys(Stored(), addr) {
        assert k == Word(k.bytes);
      }
    }

    /** Deletes, slot by slot, what the iteration visits: afterwards no key of the address is left and no other is gone. */
    method ClearStorage(addr: Address)
      requires Valid()
      modifies this`kv
      ensures Valid()
      ensures Stored() == WithoutStorage(old(Stored()), addr)
    {
      var keys := StorageIterator(addr);
      ghost var visited: set<Bytes> := {};
      for i := 0 to |keys|
        invariant Valid()
        invariant visited == set j | 0 <= j < i :: keys[j].bytes
        invariant kv == old(kv) - visited
      {
        var k := keys[i].bytes;
        assert keys[i] in keys;
        VisitedKey(addr, k);
        SetState(addr, BytesToHash(k), []);
        visited := visited + {k};
        assert old(kv) - (visited - {k}) - {k} == old(kv) - visited;
      }
      forall k ensures k in visited <==> k in StorageKeys(old(Stored()), addr) {
        if k in StorageKeys(old(Stored()), addr) {
          assert Word(k) in keys;
          var j :| 0 <= j < |keys| && keys[j] == Word(k);
          assert keys[j].bytes == k;
        }
      }
      assert visited == StorageKeys(old(Stored()), addr);
    }

    method DeleteAccount(addr: Address) returns (ok: bool)
      requires Valid()
      modifies this`auth, this`bank, this`supply, this`kv
      ensures Valid()
      ensures ok == Store.DeleteAccount(rules, old(Stored()), addr).Ok?
      ensures ok ==> Stored() == Store.DeleteAccount(rules, old(Stored()), addr).world
    {
      if addr !in auth {
        return true;
      }
      var acct := auth[addr];
      if acct.OtherAccount? {
        return false;
      }
      ok := SetBalance(addr, 0);
      if !ok {
        return;
      }
      if acct.codeHash != rules.EmptyCodeHash() {
        SetCode(acct.codeHash, []);
      }
      assert Stored() == RemoveCode(rules, Store.SetBalance(rules, old(Stored()), addr, 0).world, acct);
      ClearStorage(addr);
      auth := auth - {addr};
    }
  }
}
