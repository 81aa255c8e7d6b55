/** The StateDB answers every sequence of calls as the reference machine does. */
module Theorems {
  import opened EvmTypes
  import opened Interfaces
  import opened AccessLists
  import opened Undo
  import opened Simulation
  import opened SimulationSteps
  import opened Reverting
  import R = Reference
  import M = Machine

  // ---- queries ----

  predicate IsQuery(call: Call) {
    call.Exist? || call.Empty? || call.GetBalance? || call.GetNonce? || call.GetCode? || call.GetCodeSize?
    || call.GetCodeHash? || call.GetState? || call.GetCommittedState? || call.HasSuicided?
  }

  /** Loading the code into the object does not change what it stands for. */
  lemma FilledCode(env: Env, addr: Address, o: Obj)
    requires ObjOk(env, addr, o)
    ensures var o' := M.FillCode(env, o);
            && ObjOk(env, addr, o')
            && View(env, addr, o') == View(env, addr, o)
            && o'.code == View(env, addr, o).code
            && o'.dirty == o.dirty
  {
  }

  lemma FilledOrigin(env: Env, addr: Address, o: Obj, key: Hash)
    requires ObjOk(env, addr, o)
    ensures var o' := M.FillOrigin(env, addr, o, key);
            && ObjOk(env, addr, o')
            && View(env, addr, o') == View(env, addr, o)
            && o'.origin[key] == env.state(addr, key)
            && o'.dirty == o.dirty
  {
  }

  lemma SimQuery(env: Env, s: State, r: R.Ref, call: Call)
    requires Sim(env, s, r) && IsQuery(call)
    ensures Sim(env, M.Query(env, s, call).0, r)
    ensures M.Query(env, s, call).1 == R.Answers(env, r.core, call)
  {
    hide Sim, M.Load, M.SetObj, M.FillCode, M.FillOrigin, M.FillState, M.CurrentState, Overlay;
    var addr := call.addr;
    var s1 := M.Load(env, s, addr);
    SimLoad(env, s, r, addr);
    if addr in s1.objects {
      LiveView(env, s1, r, addr);
      var o := s1.objects[addr];
      if call.GetCode? || call.GetCodeSize? {
        FilledCode(env, addr, o);
        SimRecache(env, s1, r, addr, M.FillCode(env, o));
      } else if call.GetState? {
        FilledState(env, addr, o, call.key);
        DirtySame(env, addr, o, call.key);
        SimRecache(env, s1, r, addr, M.FillState(env, addr, o, call.key));
      } else if call.GetCommittedState? {
        FilledOrigin(env, addr, o, call.key);
        SimRecache(env, s1, r, addr, M.FillOrigin(env, addr, o, call.key));
      }
    }
  }

  lemma DirtySame(env: Env, addr: Address, o: Obj, key: Hash)
    ensures M.FillState(env, addr, o, key).dirty == o.dirty
  {
  }

  // ---- revisions ----

  lemma SimSnapshot(env: Env, s: State, r: R.Ref)
    requires Sim(env, s, r)
    ensures Sim(env, M.TakeSnapshot(s), R.Step(env, r, Snapshot).0)
  {
    var s' := M.TakeSnapshot(s);
    var r' := R.Step(env, r, Snapshot).0;
    hide Inv, Plain, PlainEntry, Enabled, UndoOne;
    InvParts(env, s, s');
    PlainParts(env, s, s');
    forall i | 0 <= i < |s'.revisions|
      ensures CopyAt(env, s', r', i)
    {
      if i < |s.revisions| {
        assert CopyAt(env, s, r, i);
      } else {
        assert PlainEntries(env, s.entries)[|s.entries|..] == [];
      }
    }
    forall i | 0 <= i < |s.entries| && s.entries[i].ResetObjectChange?
      ensures ResetAt(env, s', i)
    {
      assert ResetAt(env, s, i);
    }
  }

  /** With increasing ids, searching for the first id at least as large finds the id itself or nothing. */
  lemma FindAgrees(revisions: seq<M.Revision>, copies: seq<R.Copy>, id: int)
    requires |revisions| == |copies|
    requires forall i :: 0 <= i < |copies| ==> revisions[i].id == copies[i].id
    requires forall i, j :: 0 <= i < j < |revisions| ==> revisions[i].id < revisions[j].id
    ensures var i := M.Find(revisions, id);
            (i < |revisions| && revisions[i].id == id) == (R.Find(copies, id) < |copies|)
    ensures R.Find(copies, id) < |copies| ==> M.Find(revisions, id) == R.Find(copies, id)
  {
    var i, j := M.Find(revisions, id), R.Find(copies, id);
    if j < |copies| {
      assert revisions[j].id == id;
      assert i <= j;
    }
    if i < |revisions| && revisions[i].id == id {
      assert copies[i].id == id;
    }
  }

  lemma SimRevert(env: Env, s: State, r: R.Ref, id: int)
    requires Sim(env, s, r)
    ensures M.CanRevert(s, id) == (R.Find(r.copies, id) < |r.copies|)
    ensures M.CanRevert(s, id) ==> Sim(env, M.RevertToSnapshot(env, s, id), R.Step(env, r, RevertToSnapshot(id)).0)
  {
    hide Inv, Plain, UndoAll, AllEnabled, M.UndoTo;
    forall i | 0 <= i < |r.copies|
      ensures s.revisions[i].id == r.copies[i].id
    {
      assert CopyAt(env, s, r, i);
    }
    FindAgrees(s.revisions, r.copies, id);
    if M.CanRevert(s, id) {
      SimRevertAt(env, s, r, R.Find(r.copies, id));
    }
  }

  /** Going back to the i-th revision restores the i-th copy and keeps every earlier one reachable. */
  lemma SimRevertAt(env: Env, s: State, r: R.Ref, idx: nat)
    requires Sim(env, s, r) && idx < |s.revisions|
    ensures idx < |r.copies|
    ensures Sim(env, M.UndoTo(env, s, s.revisions[idx].journalIndex).(revisions := s.revisions[..idx]),
                R.Ref(r.copies[idx].core, r.copies[..idx], r.nextId))
  {
    hide Inv, Plain, PlainEntry, Enabled, UndoOne, UndoAll, M.UndoTo;
    var snapshot := s.revisions[idx].journalIndex;
    var es := PlainEntries(env, s.entries);
    var s1 := M.UndoTo(env, s, snapshot);
    var s' := s1.(revisions := s.revisions[..idx]);
    var r' := R.Ref(r.copies[idx].core, r.copies[..idx], r.nextId);
    UndoneTo(env, s, snapshot);
    PlainParts(env, s1, s');
    InvParts(env, s1, s');
    assert CopyAt(env, s, r, idx);
    assert PlainEntries(env, s'.entries) == es[..snapshot];
    UndoSplit(Plain(env, s), es, snapshot);
    forall i | 0 <= i < idx
      ensures CopyAt(env, s', r', i)
    {
      assert CopyAt(env, s, r, i);
      UndoBetween(Plain(env, s), es, s.revisions[i].journalIndex, snapshot);
    }
    forall i | 0 <= i < |s'.entries| && s'.entries[i].ResetObjectChange?
      ensures ResetAt(env, s', i)
    {
      assert ResetAt(env, s, i);
      UndoBetween(Plain(env, s), es, i + 1, snapshot);
    }
  }

  // ---- all calls ----

  /** One call: the same answer, and states that match again. */
  lemma SimStep(env: Env, s: State, r: R.Ref, call: Call)
    requires Sim(env, s, r)
    ensures Sim(env, M.Step(env, s, call).0, R.Step(env, r, call).0)
    ensures M.Step(env, s, call).1 == R.Step(env, r, call).1
  {
    if IsQuery(call) {
      SimQuery(env, s, r, call);
      QueryStep(env, s, call);
      PlainQueryStep(env, r, call);
    } else if call.Snapshot? {
      SimSnapshot(env, s, r);
    } else if call.RevertToSnapshot? {
      SimRevert(env, s, r, call.revid);
    } else if IsAccountChange(call) {
      SimAccountStep(env, s, r, call);
    } else {
      SimSideStep(env, s, r, call);
    }
  }

  lemma QueryStep(env: Env, s: State, call: Call)
    requires IsQuery(call)
    ensures M.Step(env, s, call) == M.Query(env, s, call)
  {
    hide M.Query;
  }

  lemma PlainQueryStep(env: Env, r: R.Ref, call: Call)
    requires IsQuery(call)
    ensures R.Step(env, r, call) == (r, R.Answers(env, r.core, call))
  {
    hide R.Answers;
  }

  predicate IsAccountChange(call: Call) {
    call.CreateAccount? || call.AddBalance? || call.SubBalance? || call.SetNonce? || call.SetCode? || call.SetState? || call.Suicide?
  }

  lemma SimAccountStep(env: Env, s: State, r: R.Ref, call: Call)
    requires Sim(env, s, r) && IsAccountChange(call)
    ensures Sim(env, M.Step(env, s, call).0, R.Step(env, r, call).0)
    ensures M.Step(env, s, call).1 == R.Step(env, r, call).1
  {
    hide Sim, M.Load, M.CreateAccount, M.AddBalance, M.SetNonce, M.SetCode, M.SetState, M.Suicide,
      R.CreateAccount, R.AddBalance, R.SetNonce, R.SetCode, R.SetState, R.Suicide;
    match call
    case CreateAccount(a) => SimCreateAccount(env, s, r, a);
    case AddBalance(a, amount) => SimAddBalance(env, s, r, a, amount);
    case SubBalance(a, amount) => SimAddBalance(env, s, r, a, -amount);
    case SetNonce(a, nonce) => SimSetNonce(env, s, r, a, nonce);
    case SetCode(a, code) => SimSetCode(env, s, r, a, code);
    case SetState(a, key, value) => SimSetState(env, s, r, a, key, value);
    case Suicide(a) => SimSuicide(env, s, r, a);
  }

  /** The counter, the logs and the access sets are the same in both machines. */
  lemma SameSideState(env: Env, s: State, r: R.Ref)
    requires Sim(env, s, r)
    ensures s.refund == r.core.refund && s.logs == r.core.logs
    ensures s.al.Warm() == r.core.warm && s.al.WarmSlots() == r.core.warmSlots
  {
  }

  lemma SimSideStep(env: Env, s: State, r: R.Ref, call: Call)
    requires Sim(env, s, r)
    requires !IsQuery(call) && !IsAccountChange(call) && !call.Snapshot? && !call.RevertToSnapshot?
    ensures Sim(env, M.Step(env, s, call).0, R.Step(env, r, call).0)
    ensures M.Step(env, s, call).1 == R.Step(env, r, call).1
  {
    hide Sim, M.Append, M.AddAddress, M.AddSlot, M.PrepareAccessList, R.Prepare, R.AddSlot, Stamp;
    SameSideState(env, s, r);
    match call
    case AddLog(body) => SimAddLog(env, s, r, Stamp(env.tx, body, |s.logs|));
    case AddRefund(gas) => SimRefund(env, s, r, (s.refund + gas) % U64);
    case SubRefund(gas) => SimRefund(env, s, r, if gas <= s.refund then s.refund - gas else s.refund);
    case AddAddressToAccessList(a) => SimAddAddress(env, s, r, a);
    case AddSlotToAccessList(a, slot) => SimAddSlot(env, s, r, a, slot);
    case PrepareAccessList(sender, dst, precompiles, list) => SimPrepare(env, s, r, sender, dst, precompiles, list);
    case SlotInAccessList(a, slot) => assert s.al.ContainsSlot(a, slot) <==> (a, slot) in s.al.WarmSlots();
    case _ =>
  }

  lemma {:induction false} SimRun(env: Env, s: State, r: R.Ref, calls: seq<Call>)
    requires Sim(env, s, r)
    ensures Sim(env, M.Run(env, s, calls).0, R.Run(env, r, calls).0)
    ensures M.Run(env, s, calls).1 == R.Run(env, r, calls).1
    decreases |calls|
  {
    hide Sim, M.Step, R.Step;
    if calls != [] {
      SimStep(env, s, r, calls[0]);
      SimRun(env, M.Step(env, s, calls[0]).0, R.Step(env, r, calls[0]).0, calls[1..]);
    }
  }

  /**
   * For every sequence of calls, with nested snapshots, reverts and repeated account creation, the
   * StateDB gives the answers of the reference machine, panics included.
   */
  lemma AnswersAgree(env: Env, calls: seq<Call>)
    ensures M.Run(env, M.START, calls).1 == R.Run(env, R.Start(env), calls).1
  {
    SimStart(env);
    SimRun(env, M.START, R.Start(env), calls);
  }

  /** A state the machine ends in stands for one plain state only, the one the reference ends in. */
  lemma RunCore(env: Env, calls: seq<Call>, r: R.Ref)
    requires Sim(env, M.Run(env, M.START, calls).0, r)
    ensures r.core == R.Run(env, R.Start(env), calls).0.core
  {
    hide M.Run, R.Run, Inv, Plain;
    SimStart(env);
    SimRun(env, M.START, R.Start(env), calls);
  }

  // ---- what holds in every reachable state ----

  ghost predicate Reachable(env: Env, s: State) {
    exists calls: seq<Call> :: M.Run(env, M.START, calls).0 == s
  }

  lemma ReachableSim(env: Env, s: State) returns (r: R.Ref)
    requires Reachable(env, s)
    ensures Sim(env, s, r)
  {
    hide Sim, M.Run, R.Run;
    var calls: seq<Call> :| M.Run(env, M.START, calls).0 == s;
    SimStart(env);
    SimRun(env, M.START, R.Start(env), calls);
    r := R.Run(env, R.Start(env), calls).0;
  }

  /**
   * In every reachable state the dirty counter of an address is the number of entries dirtying it,
   * a dirty address has a live object, and the creation of an account precedes every other entry
   * about it and happens once.
   */
  lemma JournalInvariant(env: Env, s: State)
    requires Reachable(env, s)
    ensures forall a: Address :: a in s.dirties <==> exists i :: 0 <= i < |s.entries| && s.entries[i].Dirties(a)
    ensures forall a :: a in s.dirties ==> s.dirties[a] == DirtyCount(s.entries, a) && a in s.objects
    ensures forall i, j :: 0 <= j < i < |s.entries| && s.entries[i].CreateObjectChange? && s.entries[j].OnObject() ==>
              s.entries[j].account != s.entries[i].account
  {
    var r := ReachableSim(env, s);
    assert JournalOk(env, s) && CountsOk(s);
    hide Sim;
    forall a: Address
      ensures a in s.dirties <==> exists i :: 0 <= i < |s.entries| && s.entries[i].Dirties(a)
      ensures a in s.dirties ==> s.dirties[a] == DirtyCount(s.entries, a) && a in s.objects
    {
      DirtyCountPositive(s.entries, a);
    }
  }

  lemma {:induction false} DirtyCountPositive(es: seq<Change>, addr: Address)
    ensures DirtyCount(es, addr) > 0 <==> exists i :: 0 <= i < |es| && es[i].Dirties(addr)
  {
    if es != [] {
      var n := |es| - 1;
      DirtyCountPositive(es[..n], addr);
      if i :| 0 <= i < |es| && es[i].Dirties(addr) {
        assert i < n ==> es[..n][i] == es[i];
      }
      if i :| 0 <= i < n && es[..n][i].Dirties(addr) {
        assert es[i] == es[..n][i];
      }
    }
  }

  /** Every dirty slot has its persisted value cached, through sets, reverts and object resets. */
  lemma DirtyWithinOrigin(env: Env, s: State, addr: Address, key: Hash)
    requires Reachable(env, s) && addr in s.objects && key in s.objects[addr].dirty
    ensures key in s.objects[addr].origin && s.objects[addr].origin[key] == env.state(addr, key)
  {
    var r := ReachableSim(env, s);
    assert ObjOk(env, addr, s.objects[addr]);
  }

  /** In every reachable state the access-list index is well formed and stands for the plain sets. */
  lemma AccessListInvariant(env: Env, calls: seq<Call>)
    ensures var s := M.Run(env, M.START, calls).0;
            var core := R.Run(env, R.Start(env), calls).0.core;
            && s.al.Valid()
            && (forall a: Address :: s.al.ContainsAddress(a) <==> a in core.warm)
            && (forall a: Address, slot: Hash :: s.al.ContainsSlot(a, slot) <==> (a, slot) in core.warmSlots)
  {
    SimStart(env);
    SimRun(env, M.START, R.Start(env), calls);
    var s := M.Run(env, M.START, calls).0;
    var r := R.Run(env, R.Start(env), calls).0;
    hide M.Run, R.Run;
    SameSideState(env, s, r);
    assert AccessOk(s);
    ReplayValid(s.entries);
    assert forall a: Address, slot: Hash :: s.al.ContainsSlot(a, slot) <==> (a, slot) in s.al.WarmSlots();
  }

  /**
   * Undoing the last entry never fails: the object exists, there is a log to drop, the slot's
   * address is listed and holds the slot, and an address to be removed holds no slots. The state
   * it leads to can be undone further.
   */
  ghost predicate Undoable(env: Env, s: State) {
    Inv(env, s) && AllEnabled(env, Plain(env, s), PlainEntries(env, s.entries))
  }

  lemma UndoIsSafe(env: Env, s: State)
    requires Undoable(env, s) && s.entries != []
    ensures var e := s.entries[|s.entries| - 1];
            && (e.OnObject() ==> e.account in s.objects)
            && (e.AddLogChange? ==> s.logs != [])
            && (e.AddAccountChange? ==> s.al.ContainsAddress(e.account) && s.al.addresses[e.account] == -1)
            && (e.AddSlotChange? ==> s.al.ContainsSlot(e.account, e.slot))
            && (e.AddSlotChange? && s.al.slots[s.al.addresses[e.account]] == {e.slot} ==> s.al.addresses[e.account] == |s.al.slots| - 1)
    ensures Undoable(env, M.UndoLast(env, s))
  {
    var n := |s.entries| - 1;
    var e := s.entries[n];
    var es := PlainEntries(env, s.entries);
    InvUndoLast(env, s);
    PlainUndoLast(env, s);
    UndoLastFrame(env, s);
    assert es[n] == PlainEntry(env, e);
    assert PlainEntries(env, M.UndoLast(env, s).entries) == es[..n];
    assert Enabled(env, Plain(env, s), PlainEntry(env, e));
    LastAddition(s);
  }

  lemma LastAddition(s: State)
    requires s.entries != [] && AccessOk(s)
    ensures var e := s.entries[|s.entries| - 1];
            && (e.AddAccountChange? ==> s.al.ContainsAddress(e.account) && s.al.addresses[e.account] == -1)
            && (e.AddSlotChange? ==> s.al.ContainsSlot(e.account, e.slot))
            && (e.AddSlotChange? && s.al.slots[s.al.addresses[e.account]] == {e.slot} ==> s.al.addresses[e.account] == |s.al.slots| - 1)
  {
    var e := s.entries[|s.entries| - 1];
    ReplayValid(s.entries[..|s.entries| - 1]);
    if e.AddSlotChange? {
      DeleteSlotUndoesAddSlot(AccessBefore(s), e.account, e.slot);
    }
  }

  lemma SimUndoable(env: Env, s: State, r: R.Ref)
    requires Sim(env, s, r)
    ensures Undoable(env, s)
  {
  }
}
