/** Undoing the machine's journal agrees, entry by entry, with undoing on the plain state. */
module Reverting {
  import opened EvmTypes
  import opened Interfaces
  import opened AccessLists
  import opened Undo
  import opened Simulation
  import SimulationSteps
  import R = Reference
  import M = Machine

  /** The state before the last entry, without that entry. */
  ghost function Popped(s: State): (r: State)
    requires s.entries != []
  {
    s.(entries := s.entries[..|s.entries| - 1], dirties := M.Undirty(s.dirties, s.entries[|s.entries| - 1]))
  }

  // ---- the plain state ----

  lemma ViewUndoObj(env: Env, e: Change, o: Obj)
    requires e.OnObject() && !e.CreateObjectChange? && !e.ResetObjectChange?
    requires e.CodeChange? ==> CodeKnown(env, e.prevCode, e.prevHash)
    ensures View(env, e.account, M.UndoObj(e, o)) == UndoAcct(PlainEntry(env, e), View(env, e.account, o))
  {
    if e.StorageChange? {
      assert Overlay(env, e.account, o.dirty[e.key := e.prevValue]) == Overlay(env, e.account, o.dirty)[e.key := e.prevValue];
    }
  }

  lemma PlainUndoObject(env: Env, s: State, e: Change)
    requires e.OnObject() && e.account in s.objects
    requires e.CreateObjectChange? ==> e.account !in env.accounts
    requires e.CodeChange? ==> CodeKnown(env, e.prevCode, e.prevHash)
    ensures Plain(env, M.UndoEffect(env, s, e)) == UndoOne(Plain(env, s), PlainEntry(env, e))
  {
    hide View, R.FromAccount, UndoAcct, M.UndoObj;
    if e.CreateObjectChange? {
      assert Accounts(env, s.objects - {e.account}) == Accounts(env, s.objects) - {e.account};
    } else if e.ResetObjectChange? {
      SimulationSteps.PlainSetObj(env, s, e.account, e.prevObject);
    } else {
      ViewUndoObj(env, e, s.objects[e.account]);
      SimulationSteps.PlainSetObj(env, s, e.account, M.UndoObj(e, s.objects[e.account]));
    }
  }

  /** The access list the last entry was added to. */
  ghost function AccessBefore(s: State): AccessList
    requires s.entries != []
  {
    Replay(s.entries[..|s.entries| - 1])
  }

  /** Undoing an addition to the access list gives back the index it was made on. */
  lemma UndoAccess(s: State)
    requires s.entries != [] && AccessOk(s)
    ensures var e := s.entries[|s.entries| - 1];
            && AccessBefore(s).Valid()
            && (e.AddAccountChange? ==> s.al.DeleteAddress(e.account) == AccessBefore(s))
            && (e.AddSlotChange? ==> s.al.ContainsSlot(e.account, e.slot) && s.al.DeleteSlot(e.account, e.slot) == AccessBefore(s))
            && (!e.AddAccountChange? && !e.AddSlotChange? ==> s.al == AccessBefore(s))
  {
    var e := s.entries[|s.entries| - 1];
    var al := AccessBefore(s);
    SimulationSteps.ReplayValid(s.entries[..|s.entries| - 1]);
    if e.AddAccountChange? {
      DeleteAddressUndoesAddAddress(al, e.account);
    } else if e.AddSlotChange? {
      DeleteSlotUndoesAddSlot(al, e.account, e.slot);
    }
  }

  /** What the plain sets lose when the last addition to the access list is undone. */
  lemma PlainUndoAccess(env: Env, s: State)
    requires s.entries != [] && AccessOk(s)
    requires s.entries[|s.entries| - 1].AddAccountChange? || s.entries[|s.entries| - 1].AddSlotChange?
    ensures var e := s.entries[|s.entries| - 1];
            Plain(env, M.UndoEffect(env, s, e)) == UndoOne(Plain(env, s), PlainEntry(env, e))
  {
    var e := s.entries[|s.entries| - 1];
    var al := AccessBefore(s);
    UndoAccess(s);
    if e.AddAccountChange? {
      AddAddressRefines(al, e.account);
      assert al.Warm() + {e.account} - {e.account} == al.Warm();
    } else {
      AddSlotRefines(al, e.account, e.slot);
      assert (e.account, e.slot) !in al.WarmSlots();
      assert al.WarmSlots() + iset{(e.account, e.slot)} - iset{(e.account, e.slot)} == al.WarmSlots();
      assert al.Warm() + {e.account} == al.Warm();
    }
  }

  lemma PlainUndoLast(env: Env, s: State)
    requires s.entries != [] && Inv(env, s)
    ensures Plain(env, M.UndoLast(env, s)) == UndoOne(Plain(env, s), PlainEntry(env, s.entries[|s.entries| - 1]))
  {
    var e := s.entries[|s.entries| - 1];
    if e.OnObject() {
      assert e.account in s.objects;
      PlainUndoObject(env, s, e);
    } else if e.AddAccountChange? || e.AddSlotChange? {
      PlainUndoAccess(env, s);
    }
  }

  // ---- the invariant ----

  lemma CountsUndo(s: State, s': State)
    requires s.entries != [] && CountsOk(s)
    requires s'.entries == Popped(s).entries && s'.dirties == Popped(s).dirties
    ensures CountsOk(s')
  {
    var e := s.entries[|s.entries| - 1];
    forall a: Address
      ensures (if a in s'.dirties then s'.dirties[a] else 0) == DirtyCount(s'.entries, a)
      ensures a in s'.dirties ==> s'.dirties[a] > 0
    {
      assert DirtyCount(s.entries, a) == DirtyCount(s'.entries, a) + if e.Dirties(a) then 1 else 0;
    }
  }

  /** The storage change being undone writes a slot that is already dirty in the live object. */
  lemma LastStore(s: State)
    requires s.entries != [] && StoresOk(s)
    ensures var e := s.entries[|s.entries| - 1];
            e.StorageChange? && e.account in s.objects ==> e.key in s.objects[e.account].dirty
  {
    var e := s.entries[|s.entries| - 1];
    if e.StorageChange? && e.account in s.objects {
      assert s.entries[|s.entries| - 1 + 1..] == [];
    }
  }

  /** The objects after undoing the last entry: at most one changes, and its dirty slots do not shrink. */
  lemma UndoneObjects(env: Env, s: State)
    requires s.entries != [] && Inv(env, s)
    ensures var e := s.entries[|s.entries| - 1];
            M.UndoLast(env, s).objects ==
              if !e.OnObject() then s.objects
              else if e.CreateObjectChange? then s.objects - {e.account}
              else s.objects[e.account := if e.ResetObjectChange? then e.prevObject else M.UndoObj(e, s.objects[e.account])]
  {
  }

  lemma ObjectsUndo(env: Env, s: State)
    requires s.entries != [] && Inv(env, s)
    ensures ObjectsOk(env, M.UndoLast(env, s))
  {
    UndoneObjects(env, s);
    LastStore(s);
    var e := s.entries[|s.entries| - 1];
    var s' := M.UndoLast(env, s);
    hide M.UndoLast, CountsOk, AccessOk, StoresOk;
    forall a | a in s'.objects
      ensures ObjOk(env, a, s'.objects[a])
    {
      assert e.OnObject() && !e.CreateObjectChange? && a == e.account ==> a in s.objects && ObjOk(env, a, s.objects[a]);
    }
  }

  lemma JournalUndo(env: Env, s: State)
    requires s.entries != [] && Inv(env, s)
    ensures JournalOk(env, M.UndoLast(env, s))
  {
    UndoneObjects(env, s);
    hide CountsOk, AccessOk, StoresOk, ObjectsOk;
  }

  lemma StoresUndo(env: Env, s: State)
    requires s.entries != [] && Inv(env, s)
    ensures StoresOk(M.UndoLast(env, s))
  {
    UndoneObjects(env, s);
    LastStore(s);
    var n := |s.entries| - 1;
    var e := s.entries[n];
    var s' := M.UndoLast(env, s);
    assert s'.entries == s.entries[..n];
    hide M.UndoLast, CountsOk, AccessOk, ObjectsOk;
    forall i | 0 <= i < n && s.entries[i].StorageChange? && s.entries[i].account in s'.objects
      ensures s.entries[i].key in Holder(s'.entries[i + 1..], s'.objects[s.entries[i].account], s.entries[i].account).dirty
    {
      var a := s.entries[i].account;
      var later := s.entries[..n][i + 1..];
      assert s.entries[i + 1..] == later + [e];
      HolderPushed(later, e, s.objects[a], a);
      HolderGrows(later, if e.ResetObjectChange? && e.account == a then e.prevObject else s.objects[a], s'.objects[a], a);
    }
  }

  lemma InvUndoLast(env: Env, s: State)
    requires s.entries != [] && Inv(env, s)
    ensures Inv(env, M.UndoLast(env, s))
  {
    var s' := M.UndoLast(env, s);
    ObjectsUndo(env, s);
    JournalUndo(env, s);
    StoresUndo(env, s);
    CountsUndo(s, s');
    UndoAccess(s);
    hide CountsOk, StoresOk, JournalOk, ObjectsOk;
  }

  // ---- the whole journal down to a revision ----

  lemma UndoLastFrame(env: Env, s: State)
    requires s.entries != []
    ensures var s' := M.UndoLast(env, s);
            s'.entries == s.entries[..|s.entries| - 1] && s'.revisions == s.revisions && s'.nextId == s.nextId
  {
  }

  lemma {:induction false} UndoneTo(env: Env, s: State, snapshot: nat)
    requires Inv(env, s) && snapshot <= |s.entries|
    requires AllEnabled(env, Plain(env, s), PlainEntries(env, s.entries))
    ensures var s' := M.UndoTo(env, s, snapshot);
            && Inv(env, s')
            && s'.entries == s.entries[..snapshot]
            && s'.revisions == s.revisions
            && s'.nextId == s.nextId
            && Plain(env, s') == UndoAll(Plain(env, s), PlainEntries(env, s.entries)[snapshot..])
            && AllEnabled(env, Plain(env, s'), PlainEntries(env, s'.entries))
    decreases |s.entries|
  {
    hide Inv, M.UndoLast, Plain, PlainEntry, UndoOne, Enabled;
    var n := |s.entries|;
    var es := PlainEntries(env, s.entries);
    if n == snapshot {
      assert s.entries[..snapshot] == s.entries;
      assert es[snapshot..] == [];
    } else {
      var s1 := M.UndoLast(env, s);
      InvUndoLast(env, s);
      PlainUndoLast(env, s);
      UndoLastFrame(env, s);
      assert PlainEntries(env, s1.entries) == es[..n - 1];
      UndoneTo(env, s1, snapshot);
      assert s1.entries[..snapshot] == s.entries[..snapshot];
      assert es[snapshot..][..n - 1 - snapshot] == es[..n - 1][snapshot..];
      assert es[snapshot..][n - 1 - snapshot] == es[n - 1];
    }
  }
}
