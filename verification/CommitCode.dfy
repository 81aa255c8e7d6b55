/** Contract code across `Commit`: code is stored by hash, so deleting one contract can take another's code away. */
module CommitCode {
  import opened EvmTypes
  import opened Interfaces
  import opened Store
  import opened Simulation
  import opened Commits
  import opened CommitTheorems
  import SimulationSteps
  import R = Reference
  import M = Machine

  /** Committing the object removes the code stored under the hash. */
  ghost predicate Deletes(rules: Rules, w: World, addr: Address, o: Obj, h: Hash) {
    o.suicided && addr in w.auth && w.auth[addr].EthAccount? && w.auth[addr].codeHash == h && h != rules.EmptyCodeHash()
  }

  /** Committing the object stores its code under the hash. */
  ghost predicate Writes(o: Obj, h: Hash) {
    !o.suicided && o.code.Some? && o.dirtyCode && o.account.codeHash == h
  }

  ghost function CodeAfterOne(rules: Rules, w: World, addr: Address, o: Obj, h: Hash, code: Option<Bytes>): Option<Bytes> {
    if Deletes(rules, w, addr, o, h) then None
    else if Writes(o, h) then (if o.code.value == [] then None else o.code)
    else code
  }

  /** The code left under the hash after the addresses are committed in order. */
  ghost function CodeAfter(rules: Rules, w: World, s: State, addrs: seq<Address>, h: Hash, code: Option<Bytes>): Option<Bytes>
    requires forall a :: a in addrs ==> a in s.objects
    decreases |addrs|
  {
    if addrs == [] then code
    else CodeAfter(rules, w, s, addrs[1..], h, CodeAfterOne(rules, w, addrs[0], s.objects[addrs[0]], h, code))
  }

  lemma CommitObjectCode(rules: Rules, env: Env, w: World, addr: Address, o: Obj, keys: seq<Hash>, h: Hash)
    requires rules.Locked(rules.moduleAccount) == 0
    requires ObjOk(env, addr, o) && Lists(keys, o.dirty.Keys) && SlotsCurrent(env, w, addr)
    requires CommitObject(rules, w, addr, o, keys).Ok?
    ensures Store.GetCode(CommitObject(rules, w, addr, o, keys).world, h) == CodeAfterOne(rules, w, addr, o, h, Store.GetCode(w, h))
  {
    if o.suicided {
      if addr in w.auth {
        DeleteAccountEffect(rules, w, addr);
      }
      hide Store.DeleteAccount, Store.GetCode;
    } else {
      CommitLiveFacts(rules, env, w, addr, o, keys);
      StoreCodeEffect(w, o);
      hide CommitObject, StoreCode, Store.GetCode;
    }
  }

  lemma {:induction false} DeletesSame(rules: Rules, w: World, w1: World, s: State, addrs: seq<Address>, h: Hash, code: Option<Bytes>)
    requires forall a :: a in addrs ==> a in s.objects && (a in w1.auth <==> a in w.auth) && (a in w.auth ==> w1.auth[a] == w.auth[a])
    ensures CodeAfter(rules, w1, s, addrs, h, code) == CodeAfter(rules, w, s, addrs, h, code)
    decreases |addrs|
  {
    if addrs != [] {
      DeletesSame(rules, w, w1, s, addrs[1..], h, CodeAfterOne(rules, w, addrs[0], s.objects[addrs[0]], h, code));
    }
  }

  /** The code store after a commit is what the writes and deletions leave, in order. */
  lemma {:induction false} CommitCodeEffect(rules: Rules, env: Env, w: World, s: State, addrs: seq<Address>, order: KeyOrder, h: Hash)
    requires rules.Locked(rules.moduleAccount) == 0
    requires ObjectsOk(env, s) && OrdersSlots(s, order)
    requires forall a :: a in addrs ==> a in s.objects && SlotsCurrent(env, w, a)
    requires forall i, j :: 0 <= i < j < |addrs| ==> addrs[i] != addrs[j]
    requires Commit(rules, w, s, addrs, order).Ok?
    ensures Store.GetCode(Commit(rules, w, s, addrs, order).world, h) == CodeAfter(rules, w, s, addrs, h, Store.GetCode(w, h))
    decreases |addrs|
  {
    if addrs != [] {
      var a0 := addrs[0];
      var w1 := CommitObject(rules, w, a0, s.objects[a0], order[a0]).world;
      CommitObjectEffect(rules, env, w, a0, s.objects[a0], order[a0]);
      CommitObjectCode(rules, env, w, a0, s.objects[a0], order[a0], h);
      hide CommitObject, Wanted, ReadsOf, SlotsCurrent, Store.GetCode, CodeAfterOne;
      forall a | a in addrs[1..]
        ensures a in s.objects && SlotsCurrent(env, w1, a) && a != a0
      {
        var i :| 0 <= i < |addrs[1..]| && addrs[1..][i] == a;
        assert addrs[i + 1] == a;
        CurrentSame(rules, env, w, w1, a);
      }
      forall i, j | 0 <= i < j < |addrs[1..]| ensures addrs[1..][i] != addrs[1..][j] {
        assert addrs[1..][i] == addrs[i + 1] && addrs[1..][j] == addrs[j + 1];
      }
      CommitCodeEffect(rules, env, w1, s, addrs[1..], order, h);
      DeletesSame(rules, w, w1, s, addrs[1..], h, Store.GetCode(w1, h));
    }
  }

  /** Every deletion of the hash is followed by a write of it. */
  ghost predicate Survives(rules: Rules, w: World, s: State, addrs: seq<Address>, h: Hash)
    requires forall a :: a in addrs ==> a in s.objects
  {
    forall i :: 0 <= i < |addrs| && Deletes(rules, w, addrs[i], s.objects[addrs[i]], h) ==>
      exists j :: i < j < |addrs| && Writes(s.objects[addrs[j]], h)
  }

  ghost predicate SomeWrite(s: State, addrs: seq<Address>, h: Hash)
    requires forall a :: a in addrs ==> a in s.objects
  {
    exists j :: 0 <= j < |addrs| && Writes(s.objects[addrs[j]], h)
  }

  lemma SurvivesStep(rules: Rules, w: World, s: State, addrs: seq<Address>, h: Hash)
    requires addrs != [] && forall a :: a in addrs ==> a in s.objects
    ensures SomeWrite(s, addrs, h) <==> Writes(s.objects[addrs[0]], h) || SomeWrite(s, addrs[1..], h)
    ensures Survives(rules, w, s, addrs, h) <==>
              Survives(rules, w, s, addrs[1..], h) &&
              (Deletes(rules, w, addrs[0], s.objects[addrs[0]], h) ==> SomeWrite(s, addrs[1..], h))
  {
    hide Deletes, Writes;
    var rest := addrs[1..];
    assert forall i :: 0 <= i < |rest| ==> rest[i] == addrs[i + 1];
    assert forall i :: 0 < i < |addrs| ==> addrs[i] == rest[i - 1];
    if Survives(rules, w, s, addrs, h) {
      forall i | 0 <= i < |rest| && Deletes(rules, w, rest[i], s.objects[rest[i]], h)
        ensures exists j :: i < j < |rest| && Writes(s.objects[rest[j]], h)
      {
        assert Deletes(rules, w, addrs[i + 1], s.objects[addrs[i + 1]], h);
        var j :| i + 1 < j < |addrs| && Writes(s.objects[addrs[j]], h);
        assert Writes(s.objects[rest[j - 1]], h);
      }
    }
    if Survives(rules, w, s, rest, h) && (Deletes(rules, w, addrs[0], s.objects[addrs[0]], h) ==> SomeWrite(s, rest, h)) {
      forall i | 0 <= i < |addrs| && Deletes(rules, w, addrs[i], s.objects[addrs[i]], h)
        ensures exists j :: i < j < |addrs| && Writes(s.objects[addrs[j]], h)
      {
        if i == 0 {
          var j :| 0 <= j < |rest| && Writes(s.objects[rest[j]], h);
          assert Writes(s.objects[addrs[j + 1]], h);
        } else {
          assert Deletes(rules, w, rest[i - 1], s.objects[rest[i - 1]], h);
          var j :| i - 1 < j < |rest| && Writes(s.objects[rest[j]], h);
          assert Writes(s.objects[addrs[j + 1]], h);
        }
      }
    }
  }

  /** When all writes of the hash agree, the code is there afterwards iff it was there or written, and no deletion came last. */
  lemma {:induction false} CodeAfterSurvives(rules: Rules, w: World, s: State, addrs: seq<Address>, h: Hash, code: Option<Bytes>, c: Bytes)
    requires c != [] && forall a :: a in addrs ==> a in s.objects && (Writes(s.objects[a], h) ==> s.objects[a].code.value == c)
    ensures CodeAfter(rules, w, s, addrs, h, code) == Some(c) <==>
              Survives(rules, w, s, addrs, h) && (code == Some(c) || SomeWrite(s, addrs, h))
    decreases |addrs|
  {
    if addrs != [] {
      SurvivesStep(rules, w, s, addrs, h);
      CodeAfterSurvives(rules, w, s, addrs[1..], h, CodeAfterOne(rules, w, addrs[0], s.objects[addrs[0]], h, code), c);
    }
  }

  /** The code a live account shows is in the store already or will be written. */
  lemma ShownCode(rules: Rules, w: World, tx: TxConfig, s: State, r: R.Ref, addrs: seq<Address>, order: KeyOrder, addr: Address)
    requires Committed(rules, w, tx, s, r, addrs, order)
    requires addr in r.core.accts && !r.core.accts[addr].suicided
    requires r.core.accts[addr].code.Some? && r.core.accts[addr].codeHash != rules.EmptyCodeHash()
    ensures var x := r.core.accts[addr];
            Store.GetCode(w, x.codeHash) == x.code || SomeWrite(s, addrs, x.codeHash)
  {
    var env := EnvOf(rules, w, tx);
    var x := r.core.accts[addr];
    if addr in s.dirties {
      DirtyIsLive(env, s, r, addr);
      SimulationSteps.LiveView(env, s, r, addr);
      hide Sim, Commit, Store.GetCode;
      var o := s.objects[addr];
      assert addr in addrs;
      var j :| 0 <= j < |addrs| && addrs[j] == addr;
      assert o.code.Some? && o.dirtyCode ==> Writes(s.objects[addrs[j]], x.codeHash);
    } else {
      CleanIsPersisted(env, s, r, addr);
      hide Sim, Commit, Store.GetCode;
    }
  }

  /** The account is live and shows code, and no other code with its hash is about to be written. */
  ghost predicate HasCode(rules: Rules, s: State, addrs: seq<Address>, core: R.Core, addr: Address)
    requires forall a :: a in addrs ==> a in s.objects
  {
    && addr in core.accts && !core.accts[addr].suicided
    && CodeBytes(core.accts[addr].code) != [] && core.accts[addr].codeHash != rules.EmptyCodeHash()
    && forall a :: a in addrs && Writes(s.objects[a], core.accts[addr].codeHash) ==> s.objects[a].code == core.accts[addr].code
  }

  /**
   * After a successful commit the code of a surviving contract is found under its hash if and only
   * if no deleted contract with the same hash is committed after the last write of that hash. The
   * codes involved must not collide, which is what keeps two different codes from one hash.
   */
  lemma CodeAgrees(rules: Rules, w: World, tx: TxConfig, s: State, r: R.Ref, addrs: seq<Address>, order: KeyOrder, addr: Address)
    requires Committed(rules, w, tx, s, r, addrs, order) && HasCode(rules, s, addrs, r.core, addr)
    ensures var x := r.core.accts[addr];
            Store.GetCode(Commit(rules, w, s, addrs, order).world, x.codeHash) == x.code <==> Survives(rules, w, s, addrs, x.codeHash)
  {
    var env := EnvOf(rules, w, tx);
    var x := r.core.accts[addr];
    ShownCode(rules, w, tx, s, r, addrs, order, addr);
    CodeOfCommitted(rules, w, tx, s, r, addrs, order, x.codeHash);
    hide Sim, Commit, Store.GetCode, Survives, SomeWrite, CodeAfter;
    CodeAfterSurvives(rules, w, s, addrs, x.codeHash, Store.GetCode(w, x.codeHash), x.code.value);
  }

  lemma CodeOfCommitted(rules: Rules, w: World, tx: TxConfig, s: State, r: R.Ref, addrs: seq<Address>, order: KeyOrder, h: Hash)
    requires Committed(rules, w, tx, s, r, addrs, order)
    ensures Store.GetCode(Commit(rules, w, s, addrs, order).world, h) == CodeAfter(rules, w, s, addrs, h, Store.GetCode(w, h))
  {
    hide JournalOk, StoresOk, CountsOk, AccessOk, Matches, Commit, Store.GetState, Store.GetCode, CodeAfter;
    CommitCodeEffect(rules, EnvOf(rules, w, tx), w, s, addrs, order, h);
  }

  /** In particular, with no deleted contract of the same hash the code always survives. */
  lemma UnsharedCodeSurvives(rules: Rules, w: World, s: State, addrs: seq<Address>, h: Hash)
    requires forall a :: a in addrs ==> a in s.objects && !Deletes(rules, w, a, s.objects[a], h)
    ensures Survives(rules, w, s, addrs, h)
  {
  }

  // ---- the code that is lost ----

  /**
   * Two contracts with the same code: destroying one and committing takes the code of the other away, while the
   * StateDB still showed it.
   */
  lemma SharedCodeIsLost(rules: Rules, w: World, tx: TxConfig, a: Address, b: Address, code: Bytes)
    requires a != b && rules.Locked(b) == 0 && rules.Locked(rules.moduleAccount) == 0
    requires a in w.auth && w.auth[a].EthAccount? && b in w.auth && w.auth[b].EthAccount?
    requires w.auth[a].codeHash == w.auth[b].codeHash != rules.EmptyCodeHash()
    requires Store.GetCode(w, w.auth[a].codeHash) == Some(code)
    ensures var env := EnvOf(rules, w, tx);
            var s := M.Run(env, M.START, [Suicide(b)]).0;
            && R.Run(env, R.Start(env), [Suicide(b), GetCode(a)]).1 == [Flag(true), Code(Some(code))]
            && DirtyAddresses(s) == [b] && b in s.objects
            && var outcome := Commit(rules, w, s, [b], SlotOrder(s));
               outcome.Ok? && Store.GetCode(outcome.world, w.auth[a].codeHash) == None
  {
    var env := EnvOf(rules, w, tx);
    Destroyed(env, b);
    StillShown(env, a, b);
    hide M.Run, R.Run, M.Suicide, SlotOrder, DirtyAddresses;
    var s := M.Run(env, M.START, [Suicide(b)]).0;
    OneDirty(s, b);
    SetBalanceEffect(rules, w, b, 0);
    DeleteAccountEffect(rules, w, b);
    hide Store.DeleteAccount, Store.GetCode;
    var w' := Store.DeleteAccount(rules, w, b).world;
    assert [b][1..] == [];
    assert Commit(rules, w', s, [], SlotOrder(s)) == Ok(w');
  }

  lemma OneDirty(s: State, b: Address)
    requires s.dirties.Keys == {b}
    ensures DirtyAddresses(s) == [b]
  {
    var addrs := DirtyAddresses(s);
    assert |addrs| < 2 || addrs[0] != addrs[1];
    assert b in addrs;
    ListedFrom(addrs, {b});
  }

  lemma Destroyed(env: Env, b: Address)
    requires b in env.accounts
    ensures var s := M.Run(env, M.START, [Suicide(b)]).0;
            s.dirties.Keys == {b} && b in s.objects && s.objects[b].suicided
  {
    assert [Suicide(b)][1..] == [];
    var s := M.Suicide(env, M.START, b);
    assert M.Run(env, s, []) == (s, []);
  }

  lemma StillShown(env: Env, a: Address, b: Address)
    requires a != b && a in env.accounts && b in env.accounts && env.accounts[a].codeHash != env.EmptyCodeHash()
    ensures R.Run(env, R.Start(env), [Suicide(b), GetCode(a)]).1 == [Flag(true), Code(env.code(env.accounts[a].codeHash))]
  {
    assert [Suicide(b), GetCode(a)][1..] == [GetCode(a)] && [GetCode(a)][1..] == [];
    var r := R.Step(env, R.Start(env), Suicide(b)).0;
    assert R.Run(env, r, [GetCode(a)]).1 == [Code(env.code(env.accounts[a].codeHash))];
  }
}
