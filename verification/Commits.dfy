/** `Commit`: writing the dirty objects back to the keeper, and what the keeper reads afterwards. */
module Commits {
  import opened EvmTypes
  import opened Interfaces
  import opened Store
  import opened Simulation
  import opened Sorting

  // ---- the writes ----

  /** The slots of one object, in the given order; a slot equal to its cached origin is skipped. */
  function StoreSlots(w: World, addr: Address, o: Obj, keys: seq<Hash>): World
    requires forall k :: k in keys ==> k in o.dirty
    decreases |keys|
  {
    if keys == [] then w
    else
      var value := o.dirty[keys[0]];
      var origin := if keys[0] in o.origin then o.origin[keys[0]] else ZERO_HASH;
      StoreSlots(if value == origin then w else Store.SetState(w, addr, keys[0], value.bytes), addr, o, keys[1..])
  }

  function StoreCode(w: World, o: Obj): World {
    if o.code.Some? && o.dirtyCode then Store.SetCode(w, o.account.codeHash, o.code.value) else w
  }

  ghost predicate Lists<T(!new)>(items: seq<T>, all: set<T>) {
    && (forall x :: x in items <==> x in all)
    && (forall i, j :: 0 <= i < j < |items| ==> items[i] != items[j])
  }

  /** The order in which the slots of each object are written. */
  type KeyOrder = map<Address, seq<Hash>>

  ghost predicate OrdersSlots(s: State, order: KeyOrder) {
    forall a :: a in s.objects ==> a in order && Lists(order[a], s.objects[a].dirty.Keys)
  }

  function CommitObject(rules: Rules, w: World, addr: Address, o: Obj, keys: seq<Hash>): Outcome
    requires forall k :: k in keys ==> k in o.dirty
  {
    if o.suicided then Store.DeleteAccount(rules, w, addr)
    else
      match Store.SetAccount(rules, StoreCode(w, o), addr, o.account)
      case Err => Err
      case Ok(w1) => Ok(StoreSlots(w1, addr, o, keys))
  }

  ghost function Commit(rules: Rules, w: World, s: State, addrs: seq<Address>, order: KeyOrder): Outcome
    requires OrdersSlots(s, order)
    requires forall a :: a in addrs ==> a in s.objects
    decreases |addrs|
  {
    if addrs == [] then Ok(w)
    else
      match CommitObject(rules, w, addrs[0], s.objects[addrs[0]], order[addrs[0]])
      case Err => Err
      case Ok(w1) => Commit(rules, w1, s, addrs[1..], order)
  }

  // ---- in ascending order ----

  /** The dirty addresses, ascending (`sortedDirties`). */
  ghost function DirtyAddresses(s: State): (addrs: seq<Address>)
    ensures Lists(addrs, s.dirties.Keys)
  {
    var items := SortedOf(s.dirties.Keys);
    SortedDistinct(items);
    ListedLength(s.dirties.Keys, 20);
    items
  }

  /** The dirty slots of an object, ascending (`SortedKeys`). */
  ghost function DirtySlots(o: Obj): (keys: seq<Hash>)
    ensures Lists(keys, o.dirty.Keys)
  {
    var items := SortedOf(o.dirty.Keys);
    SortedDistinct(items);
    ListedLength(o.dirty.Keys, 32);
    items
  }

  ghost function SlotOrder(s: State): (order: KeyOrder)
    ensures OrdersSlots(s, order)
  {
    map a | a in s.objects :: DirtySlots(s.objects[a])
  }

  // ---- one object ----

  /** Writing the slots: each listed slot reads its dirty value, every other slot is as before. */
  lemma {:induction false} StoreSlotsEffect(w: World, addr: Address, o: Obj, keys: seq<Hash>)
    requires forall k :: k in keys ==> k in o.dirty && k in o.origin && o.origin[k] == Store.GetState(w, addr, k)
    requires forall i, j :: 0 <= i < j < |keys| ==> keys[i] != keys[j]
    ensures var w' := StoreSlots(w, addr, o, keys);
            && (forall b: Address, k: Hash :: Store.GetState(w', b, k) == if b == addr && k in keys then o.dirty[k] else Store.GetState(w, b, k))
            && (forall h: Hash :: Store.GetCode(w', h) == Store.GetCode(w, h))
            && w'.auth == w.auth && w'.bank == w.bank && w'.supply == w.supply
    decreases |keys|
  {
    if keys != [] {
      var value := o.dirty[keys[0]];
      var w1 := if value == o.origin[keys[0]] then w else Store.SetState(w, addr, keys[0], value.bytes);
      SetStateEffect(w, addr, keys[0], value);
      hide Store.SetState, Store.GetState, Store.GetCode;
      forall k | k in keys[1..]
        ensures k in o.dirty && k in o.origin && o.origin[k] == Store.GetState(w1, addr, k)
      {
        var i :| 0 <= i < |keys[1..]| && keys[1..][i] == k;
        assert keys[i + 1] == k;
      }
      forall i, j | 0 <= i < j < |keys[1..]| ensures keys[1..][i] != keys[1..][j] {
        assert keys[1..][i] == keys[i + 1] && keys[1..][j] == keys[j + 1];
      }
      StoreSlotsEffect(w1, addr, o, keys[1..]);
      forall k: Hash ensures k in keys <==> k == keys[0] || k in keys[1..] {
      }
    }
  }

  /** The keeper's reads of one address, apart from code. */
  datatype Reads = Reads(account: Option<Account>, balance: nat, storage: imap<Hash, Hash>)

  ghost function ReadsOf(rules: Rules, w: World, addr: Address): Reads {
    Reads(Store.GetAccount(rules.EmptyCodeHash(), w, addr), BankBalance(w, addr), imap k: Hash :: Store.GetState(w, addr, k))
  }

  /** The account as the keeper stores it: types other than Ethereum accounts have no code hash of their own. */
  function Recorded(rules: Rules, w: World, addr: Address, account: Account): Account {
    if addr in w.auth && w.auth[addr].OtherAccount? then account.(codeHash := rules.EmptyCodeHash()) else account
  }

  lemma SetAccountEffect(rules: Rules, w: World, addr: Address, account: Account)
    requires rules.Locked(rules.moduleAccount) == 0
    requires Store.SetAccount(rules, w, addr, account).Ok?
    ensures var w' := Store.SetAccount(rules, w, addr, account).world;
            && account.balance >= 0
            && Store.GetAccount(rules.EmptyCodeHash(), w', addr) == Some(Recorded(rules, w, addr, account))
            && w'.auth.Keys == w.auth.Keys + {addr}
            && (forall b :: b in w.auth && b != addr ==> w'.auth[b] == w.auth[b])
            && (forall b: Address :: BankBalance(w', b) == if b == addr then account.balance else BankBalance(w, b))
            && w'.supply == w.supply + account.balance - BankBalance(w, addr)
            && w'.kv == w.kv
  {
    SetBalanceEffect(rules, WithAuth(w, addr, account), addr, account.balance);
    hide Store.SetBalance;
    forall b: Address ensures BankBalance(WithAuth(w, addr, account), b) == BankBalance(w, b) {
    }
  }

  /** Accounts, balances and storage of every other address are untouched by committing one object. */
  lemma OthersUntouched(rules: Rules, w: World, w': World, addr: Address, b: Address)
    requires b != addr
    requires b in w'.auth <==> b in w.auth
    requires b in w.auth ==> w'.auth[b] == w.auth[b]
    requires BankBalance(w', b) == BankBalance(w, b)
    requires forall k: Hash :: Store.GetState(w', b, k) == Store.GetState(w, b, k)
    ensures ReadsOf(rules, w', b) == ReadsOf(rules, w, b)
  {
    assert (imap k: Hash :: Store.GetState(w', b, k)) == (imap k: Hash :: Store.GetState(w, b, k));
  }

  /** Every slot of an address without storage. */
  function NoValue(key: Hash): Hash {
    ZERO_HASH
  }

  /** What the keeper must read for an object once it is written back. */
  ghost function Wanted(rules: Rules, env: Env, w: World, addr: Address, o: Obj): Reads {
    if !o.suicided then Reads(Some(Recorded(rules, w, addr, o.account)), if o.account.balance >= 0 then o.account.balance else 0, Overlay(env, addr, o.dirty))
    else if addr in w.auth then Reads(None, 0, imap k: Hash :: NoValue(k))
    else ReadsOf(rules, w, addr)
  }

  ghost predicate SlotsCurrent(env: Env, w: World, addr: Address) {
    forall k: Hash :: Store.GetState(w, addr, k) == env.state(addr, k)
  }

  lemma CommitObjectEffect(rules: Rules, env: Env, w: World, addr: Address, o: Obj, keys: seq<Hash>)
    requires rules.Locked(rules.moduleAccount) == 0
    requires ObjOk(env, addr, o) && Lists(keys, o.dirty.Keys) && SlotsCurrent(env, w, addr)
    requires CommitObject(rules, w, addr, o, keys).Ok?
    ensures var w' := CommitObject(rules, w, addr, o, keys).world;
            && ReadsOf(rules, w', addr) == Wanted(rules, env, w, addr, o)
            && w'.supply == w.supply + BankBalance(w', addr) - BankBalance(w, addr)
            && (!o.suicided ==> o.account.balance >= 0)
    ensures forall b: Address :: b != addr ==>
              ReadsOf(rules, CommitObject(rules, w, addr, o, keys).world, b) == ReadsOf(rules, w, b)
    ensures forall b :: b != addr ==> (b in CommitObject(rules, w, addr, o, keys).world.auth <==> b in w.auth)
    ensures forall b :: b != addr && b in w.auth ==> CommitObject(rules, w, addr, o, keys).world.auth[b] == w.auth[b]
  {
    var w' := CommitObject(rules, w, addr, o, keys).world;
    if o.suicided {
      if addr in w.auth {
        DeleteAccountEffect(rules, w, addr);
        hide Store.DeleteAccount, Store.GetState;
        forall b: Address | b != addr ensures ReadsOf(rules, w', b) == ReadsOf(rules, w, b) {
          OthersUntouched(rules, w, w', addr, b);
        }
        assert ReadsOf(rules, w', addr).storage == imap k: Hash :: NoValue(k);
      }
    } else {
      CommitLiveEffect(rules, env, w, addr, o, keys);
      CommitLiveFacts(rules, env, w, addr, o, keys);
      hide CommitObject, Store.GetState;
      forall b: Address | b != addr ensures ReadsOf(rules, w', b) == ReadsOf(rules, w, b) {
        OthersUntouched(rules, w, w', addr, b);
      }
    }
  }

  lemma StoreCodeEffect(w: World, o: Obj)
    ensures var w' := StoreCode(w, o);
            && (forall b: Address, k: Hash :: Store.GetState(w', b, k) == Store.GetState(w, b, k))
            && (forall h: Hash :: Store.GetCode(w', h) ==
                  if o.code.Some? && o.dirtyCode && h == o.account.codeHash
                  then (if o.code.value == [] then None else o.code) else Store.GetCode(w, h))
            && w'.auth == w.auth && w'.bank == w.bank && w'.supply == w.supply
  {
    if o.code.Some? {
      SetCodeEffect(w, o.account.codeHash, o.code.value);
    }
    hide Store.SetCode;
  }

  lemma SameKv(w: World, w': World)
    requires w'.kv == w.kv
    ensures forall b: Address, k: Hash :: Store.GetState(w', b, k) == Store.GetState(w, b, k)
    ensures forall h: Hash :: Store.GetCode(w', h) == Store.GetCode(w, h)
  {
  }

  /** A live object is written as code, then account, then slots. */
  lemma CommitLiveFacts(rules: Rules, env: Env, w: World, addr: Address, o: Obj, keys: seq<Hash>)
    requires rules.Locked(rules.moduleAccount) == 0
    requires ObjOk(env, addr, o) && Lists(keys, o.dirty.Keys) && SlotsCurrent(env, w, addr)
    requires !o.suicided && CommitObject(rules, w, addr, o, keys).Ok?
    ensures var w' := CommitObject(rules, w, addr, o, keys).world;
            && Store.GetAccount(rules.EmptyCodeHash(), w', addr) == Some(Recorded(rules, w, addr, o.account))
            && o.account.balance >= 0
            && w'.supply == w.supply + o.account.balance - BankBalance(w, addr)
            && w'.auth.Keys == w.auth.Keys + {addr}
            && (forall b :: b in w.auth && b != addr ==> w'.auth[b] == w.auth[b])
            && (forall b: Address :: BankBalance(w', b) == if b == addr then o.account.balance else BankBalance(w, b))
            && (forall b: Address, k: Hash :: Store.GetState(w', b, k) == if b == addr && k in o.dirty then o.dirty[k] else Store.GetState(w, b, k))
            && (forall h: Hash :: Store.GetCode(w', h) == Store.GetCode(StoreCode(w, o), h))
  {
    var w0 := StoreCode(w, o);
    StoreCodeEffect(w, o);
    SetAccountEffect(rules, w0, addr, o.account);
    var w1 := Store.SetAccount(rules, w0, addr, o.account).world;
    SameKv(w0, w1);
    var w' := StoreSlots(w1, addr, o, keys);
    hide StoreCode, Store.SetAccount, Store.GetState, Store.GetCode, StoreSlots, ToAccount;
    StoreSlotsEffect(w1, addr, o, keys);
    forall b: Address ensures BankBalance(w', b) == if b == addr then o.account.balance else BankBalance(w, b) {
      assert BankBalance(w', b) == BankBalance(w1, b);
      assert BankBalance(w0, b) == BankBalance(w, b);
    }
    SameAccount(rules, w1, w', addr);
  }

  lemma SameAccount(rules: Rules, w: World, w': World, addr: Address)
    requires w'.auth == w.auth && w'.bank == w.bank
    ensures Store.GetAccount(rules.EmptyCodeHash(), w', addr) == Store.GetAccount(rules.EmptyCodeHash(), w, addr)
  {
  }

  lemma CommitLiveEffect(rules: Rules, env: Env, w: World, addr: Address, o: Obj, keys: seq<Hash>)
    requires rules.Locked(rules.moduleAccount) == 0
    requires ObjOk(env, addr, o) && Lists(keys, o.dirty.Keys) && SlotsCurrent(env, w, addr)
    requires !o.suicided && CommitObject(rules, w, addr, o, keys).Ok?
    ensures ReadsOf(rules, CommitObject(rules, w, addr, o, keys).world, addr) == Wanted(rules, env, w, addr, o)
  {
    CommitLiveFacts(rules, env, w, addr, o, keys);
    hide CommitObject, Store.GetState, Store.GetAccount;
    var w' := CommitObject(rules, w, addr, o, keys).world;
    assert ReadsOf(rules, w', addr).storage == Overlay(env, addr, o.dirty);
  }

  // ---- all dirty objects ----

  /** How much the balances of the addresses changed altogether. */
  function Gain(w: World, w': World, addrs: seq<Address>): int
    decreases |addrs|
  {
    if addrs == [] then 0 else BankBalance(w', addrs[0]) - BankBalance(w, addrs[0]) + Gain(w, w', addrs[1..])
  }

  lemma {:induction false} GainSame(w: World, w1: World, w': World, addrs: seq<Address>)
    requires forall a :: a in addrs ==> BankBalance(w1, a) == BankBalance(w, a)
    ensures Gain(w1, w', addrs) == Gain(w, w', addrs)
    decreases |addrs|
  {
    if addrs != [] {
      GainSame(w, w1, w', addrs[1..]);
    }
  }

  lemma WantedSame(rules: Rules, env: Env, w: World, w1: World, addr: Address, o: Obj)
    requires addr in w1.auth <==> addr in w.auth
    requires addr in w.auth ==> w1.auth[addr] == w.auth[addr]
    requires ReadsOf(rules, w1, addr) == ReadsOf(rules, w, addr)
    ensures Wanted(rules, env, w1, addr, o) == Wanted(rules, env, w, addr, o)
  {
    hide ReadsOf, Overlay;
  }

  lemma CurrentSame(rules: Rules, env: Env, w: World, w1: World, addr: Address)
    requires SlotsCurrent(env, w, addr) && ReadsOf(rules, w1, addr) == ReadsOf(rules, w, addr)
    ensures SlotsCurrent(env, w1, addr)
  {
    hide Store.GetState;
    forall k: Hash ensures Store.GetState(w1, addr, k) == env.state(addr, k) {
      assert ReadsOf(rules, w1, addr).storage[k] == ReadsOf(rules, w, addr).storage[k];
    }
  }

  /** Every committed address reads as wanted, every other address reads as before, and the supply follows the balances. */
  lemma {:induction false} CommitEffect(rules: Rules, env: Env, w: World, s: State, addrs: seq<Address>, order: KeyOrder)
    requires rules.Locked(rules.moduleAccount) == 0
    requires ObjectsOk(env, s) && OrdersSlots(s, order)
    requires forall a :: a in addrs ==> a in s.objects && SlotsCurrent(env, w, a)
    requires forall i, j :: 0 <= i < j < |addrs| ==> addrs[i] != addrs[j]
    requires Commit(rules, w, s, addrs, order).Ok?
    ensures var w' := Commit(rules, w, s, addrs, order).world;
            && (forall a :: a in addrs ==> ReadsOf(rules, w', a) == Wanted(rules, env, w, a, s.objects[a]))
            && (forall a: Address :: a !in addrs ==> ReadsOf(rules, w', a) == ReadsOf(rules, w, a))
            && w'.supply == w.supply + Gain(w, w', addrs)
            && (forall a :: a in addrs && !s.objects[a].suicided ==> s.objects[a].account.balance >= 0)
    decreases |addrs|
  {
    hide CommitObject, Wanted, ReadsOf, SlotsCurrent;
    if addrs != [] {
      var a0 := addrs[0];
      var w1 := CommitObject(rules, w, a0, s.objects[a0], order[a0]).world;
      CommitObjectEffect(rules, env, w, a0, s.objects[a0], order[a0]);
      forall a | a in addrs[1..]
        ensures a in s.objects && SlotsCurrent(env, w1, a) && a != a0
        ensures Wanted(rules, env, w1, a, s.objects[a]) == Wanted(rules, env, w, a, s.objects[a])
      {
        var i :| 0 <= i < |addrs[1..]| && addrs[1..][i] == a;
        assert addrs[i + 1] == a;
        CurrentSame(rules, env, w, w1, a);
        WantedSame(rules, env, w, w1, a, s.objects[a]);
      }
      forall i, j | 0 <= i < j < |addrs[1..]| ensures addrs[1..][i] != addrs[1..][j] {
        assert addrs[1..][i] == addrs[i + 1] && addrs[1..][j] == addrs[j + 1];
      }
      CommitEffect(rules, env, w1, s, addrs[1..], order);
      var w' := Commit(rules, w1, s, addrs[1..], order).world;
      forall a: Address ensures a in addrs <==> a == a0 || a in addrs[1..] {
      }
      BalanceOfReads(rules, w1, w', a0);
      forall a | a in addrs[1..] ensures BankBalance(w1, a) == BankBalance(w, a) {
        BalanceOfReads(rules, w, w1, a);
      }
      GainSame(w, w1, w', addrs[1..]);
    }
  }

  lemma BalanceOfReads(rules: Rules, w: World, w': World, addr: Address)
    requires ReadsOf(rules, w', addr) == ReadsOf(rules, w, addr)
    ensures BankBalance(w', addr) == BankBalance(w, addr)
  {
    assert ReadsOf(rules, w', addr).balance == ReadsOf(rules, w, addr).balance;
  }

  // ---- exactly when a commit succeeds ----

  /** A live object's balance may become its final one; a suicided one has no account, or one that may be deleted. */
  predicate Committable(rules: Rules, w: World, addr: Address, o: Obj) {
    if !o.suicided then MayBecome(rules, w, addr, o.account.balance)
    else addr !in w.auth || (w.auth[addr].EthAccount? && (BankBalance(w, addr) == 0 || rules.Locked(addr) == 0))
  }

  lemma {:induction false} SlotsLedger(w: World, addr: Address, o: Obj, keys: seq<Hash>)
    requires forall k :: k in keys ==> k in o.dirty
    ensures var w' := StoreSlots(w, addr, o, keys); w'.auth == w.auth && w'.bank == w.bank
    decreases |keys|
  {
    if keys != [] {
      var value := o.dirty[keys[0]];
      var origin := if keys[0] in o.origin then o.origin[keys[0]] else ZERO_HASH;
      SlotsLedger(if value == origin then w else Store.SetState(w, addr, keys[0], value.bytes), addr, o, keys[1..]);
    }
  }

  /** Writing one object succeeds exactly when it is committable, and leaves accounts and coins of others alone. */
  lemma CommitObjectLaw(rules: Rules, w: World, addr: Address, o: Obj, keys: seq<Hash>, b: Address)
    requires rules.Locked(rules.moduleAccount) == 0 && b != addr
    requires forall k :: k in keys ==> k in o.dirty
    ensures CommitObject(rules, w, addr, o, keys).Ok? <==> Committable(rules, w, addr, o)
    ensures CommitObject(rules, w, addr, o, keys).Ok? ==>
              var w' := CommitObject(rules, w, addr, o, keys).world;
              && (b in w'.auth <==> b in w.auth) && (b in w.auth ==> w'.auth[b] == w.auth[b])
              && BankBalance(w', b) == BankBalance(w, b)
  {
    if o.suicided {
      DeleteAccountLaw(rules, w, addr);
      if addr in w.auth && Store.DeleteAccount(rules, w, addr).Ok? {
        DeleteAccountEffect(rules, w, addr);
      }
      hide Store.DeleteAccount, Store.GetState, Store.GetCode;
    } else {
      var w0 := StoreCode(w, o);
      assert w0.auth == w.auth && w0.bank == w.bank;
      SetAccountLaw(rules, w0, addr, o.account);
      hide Store.SetAccount, StoreCode;
      if Store.SetAccount(rules, w0, addr, o.account).Ok? {
        var w1 := Store.SetAccount(rules, w0, addr, o.account).world;
        SlotsLedger(w1, addr, o, keys);
        assert b in w1.auth <==> b in w1.auth - {addr};
        assert b in w0.auth <==> b in w0.auth - {addr};
        assert b in w0.auth ==> (w1.auth - {addr})[b] == w1.auth[b] && (w0.auth - {addr})[b] == w0.auth[b];
      }
    }
  }

  lemma CommittableSame(rules: Rules, w: World, w': World, addr: Address, o: Obj)
    requires (addr in w'.auth <==> addr in w.auth) && (addr in w.auth ==> w'.auth[addr] == w.auth[addr])
    requires BankBalance(w', addr) == BankBalance(w, addr)
    ensures Committable(rules, w', addr, o) <==> Committable(rules, w, addr, o)
  {
  }

  /** A commit succeeds exactly when every object it writes is committable in the world it started from. */
  lemma {:induction false} CommitSucceedsIff(rules: Rules, w: World, s: State, addrs: seq<Address>, order: KeyOrder)
    requires rules.Locked(rules.moduleAccount) == 0 && OrdersSlots(s, order)
    requires forall a :: a in addrs ==> a in s.objects
    requires forall i, j :: 0 <= i < j < |addrs| ==> addrs[i] != addrs[j]
    ensures Commit(rules, w, s, addrs, order).Ok? <==> forall a :: a in addrs ==> Committable(rules, w, a, s.objects[a])
    decreases |addrs|
  {
    hide CommitObject, Committable;
    if addrs != [] {
      var a0, rest := addrs[0], addrs[1..];
      var outcome := CommitObject(rules, w, a0, s.objects[a0], order[a0]);
      OneCommits(rules, w, a0, s.objects[a0], order[a0]);
      if outcome.Ok? {
        forall a | a in rest
          ensures a in s.objects && (Committable(rules, outcome.world, a, s.objects[a]) <==> Committable(rules, w, a, s.objects[a]))
        {
          var i :| 0 <= i < |rest| && rest[i] == a;
          assert addrs[i + 1] == a;
          CommitObjectLaw(rules, w, a0, s.objects[a0], order[a0], a);
          CommittableSame(rules, w, outcome.world, a, s.objects[a]);
        }
        forall i, j | 0 <= i < j < |rest| ensures rest[i] != rest[j] {
          assert rest[i] == addrs[i + 1] && rest[j] == addrs[j + 1];
        }
        CommitSucceedsIff(rules, outcome.world, s, rest, order);
        forall a: Address ensures a in addrs <==> a == a0 || a in rest {
        }
      } else {
        assert a0 in addrs;
      }
    }
  }

  lemma OneCommits(rules: Rules, w: World, addr: Address, o: Obj, keys: seq<Hash>)
    requires rules.Locked(rules.moduleAccount) == 0 && forall k :: k in keys ==> k in o.dirty
    ensures CommitObject(rules, w, addr, o, keys).Ok? <==> Committable(rules, w, addr, o)
  {
    hide CommitObject, Committable;
    var other: Address := if addr.bytes[0] == 0 then Word([1] + addr.bytes[1..]) else Word([0] + addr.bytes[1..]);
    assert other.bytes[0] != addr.bytes[0];
    CommitObjectLaw(rules, w, addr, o, keys, other);
  }
}
