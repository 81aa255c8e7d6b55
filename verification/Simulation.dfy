/**
 * The machine with caches and journal simulates the reference machine with full copies: the
 * invariant that ties them together, and its preservation by every call.
 */
module Simulation {
  import opened EvmTypes
  import opened Interfaces
  import opened AccessLists
  import opened Undo
  import R = Reference
  import M = Machine

  type Obj = M.Obj
  type State = M.State
  type Change = M.Entry<Obj>
  type Undoing = M.Entry<R.Acct>

  // ---- what a machine state stands for ----

  /** The persisted storage of the address with the changed slots laid over it. */
  ghost function Overlay(env: Env, addr: Address, dirty: map<Hash, Hash>): imap<Hash, Hash> {
    imap k: Hash :: if k in dirty then dirty[k] else env.state(addr, k)
  }

  /** The plain account an object stands for; caches do not show. */
  ghost function View(env: Env, addr: Address, o: Obj): R.Acct {
    R.Acct(o.account.nonce, o.account.balance, o.account.codeHash, M.FillCode(env, o).code,
           Overlay(env, addr, o.dirty), o.suicided)
  }

  /** Live objects win; every other account is as persisted. */
  ghost function Accounts(env: Env, objects: map<Address, Obj>): map<Address, R.Acct> {
    map a | a in objects.Keys + env.accounts.Keys ::
      if a in objects then View(env, a, objects[a])
      else R.FromAccount(env, a, env.accounts[a])
  }

  ghost function Plain(env: Env, s: State): R.Core {
    R.Core(Accounts(env, s.objects), s.refund, s.logs, s.al.Warm(), s.al.WarmSlots())
  }

  ghost function PlainEntry(env: Env, e: Change): Undoing {
    match e
    case CreateObjectChange(a) => M.CreateObjectChange(a)
    case ResetObjectChange(a, prev) => M.ResetObjectChange(a, View(env, a, prev))
    case SuicideChange(a, was, balance) => M.SuicideChange(a, was, balance)
    case BalanceChange(a, balance) => M.BalanceChange(a, balance)
    case NonceChange(a, nonce) => M.NonceChange(a, nonce)
    case StorageChange(a, key, value) => M.StorageChange(a, key, value)
    case CodeChange(a, code, hash) => M.CodeChange(a, code, hash)
    case RefundChange(refund) => M.RefundChange(refund)
    case AddLogChange => M.AddLogChange
    case AddAccountChange(a) => M.AddAccountChange(a)
    case AddSlotChange(a, slot) => M.AddSlotChange(a, slot)
  }

  ghost function PlainEntries(env: Env, es: seq<Change>): seq<Undoing> {
    seq(|es|, i requires 0 <= i < |es| => PlainEntry(env, es[i]))
  }

  // ---- the invariant of the machine alone ----

  /** The origin cache agrees with the keeper and covers every dirty slot, and so does code that was only loaded. */
  ghost predicate ObjOk(env: Env, addr: Address, o: Obj) {
    && o.dirty.Keys <= o.origin.Keys
    && (o.code.Some? && !o.dirtyCode ==> env.code(o.account.codeHash) == o.code)
    && forall k :: k in o.origin ==> o.origin[k] == env.state(addr, k)
  }

  ghost predicate ObjectsOk(env: Env, s: State) {
    && (forall a :: a in s.objects ==> ObjOk(env, a, s.objects[a]))
    && (forall i :: 0 <= i < |s.entries| && s.entries[i].ResetObjectChange? ==>
          ObjOk(env, s.entries[i].account, s.entries[i].prevObject))
    && (forall i :: 0 <= i < |s.entries| && s.entries[i].CodeChange? ==>
          CodeKnown(env, s.entries[i].prevCode, s.entries[i].prevHash))
  }

  /** No code is recorded only where the keeper has none to load either. */
  ghost predicate CodeKnown(env: Env, code: Option<Bytes>, codeHash: Hash) {
    code.Some? || codeHash == env.EmptyCodeHash() || env.code(codeHash).None?
  }

  /** The object the account had before the given later entries: the one the first reset among them replaced. */
  ghost function Holder(later: seq<Change>, live: Obj, addr: Address): Obj {
    if later == [] then live
    else if later[0].ResetObjectChange? && later[0].account == addr then later[0].prevObject
    else Holder(later[1..], live, addr)
  }

  /** The slot of a storage change is dirty in the object its undoing will write to. */
  ghost predicate StoresOk(s: State) {
    forall i :: 0 <= i < |s.entries| && s.entries[i].StorageChange? && s.entries[i].account in s.objects ==>
      s.entries[i].key in Holder(s.entries[i + 1..], s.objects[s.entries[i].account], s.entries[i].account).dirty
  }

  /** Entries about accounts have live objects, and nothing about an account precedes its creation. */
  ghost predicate JournalOk(env: Env, s: State) {
    && (forall i :: 0 <= i < |s.entries| && s.entries[i].OnObject() ==> s.entries[i].account in s.objects)
    && (forall i :: 0 <= i < |s.entries| && s.entries[i].CreateObjectChange? ==> s.entries[i].account !in env.accounts)
    && (forall i, j :: 0 <= j < i < |s.entries| && s.entries[i].CreateObjectChange? && s.entries[j].OnObject() ==>
          s.entries[j].account != s.entries[i].account)
  }

  /** How many entries mark the address dirty. */
  ghost function DirtyCount(es: seq<Change>, addr: Address): nat {
    if es == [] then 0
    else DirtyCount(es[..|es| - 1], addr) + if es[|es| - 1].Dirties(addr) then 1 else 0
  }

  /** The counters hold exactly the addresses some entry dirties, with the number of such entries. */
  ghost predicate CountsOk(s: State) {
    forall a: Address ::
      (if a in s.dirties then s.dirties[a] else 0) == DirtyCount(s.entries, a) &&
      (a in s.dirties ==> s.dirties[a] > 0)
  }

  /** The access list that the journal's additions build from nothing. */
  ghost function Replay(es: seq<Change>): AccessList {
    if es == [] then EMPTY
    else
      var al := Replay(es[..|es| - 1]);
      match es[|es| - 1]
      case AddAccountChange(a) => al.AddAddress(a)
      case AddSlotChange(a, slot) => al.AddSlot(a, slot)
      case _ => al
  }

  /** Each access-list entry records a real addition: a new address, or a new slot of a listed address. */
  ghost predicate Additions(es: seq<Change>) {
    es == [] ||
    var al := Replay(es[..|es| - 1]);
    && Additions(es[..|es| - 1])
    && match es[|es| - 1]
       case AddAccountChange(a) => !al.ContainsAddress(a)
       case AddSlotChange(a, slot) => al.ContainsAddress(a) && !al.ContainsSlot(a, slot)
       case _ => true
  }

  ghost predicate AccessOk(s: State) {
    s.al == Replay(s.entries) && Additions(s.entries)
  }

  ghost predicate Inv(env: Env, s: State) {
    ObjectsOk(env, s) && JournalOk(env, s) && StoresOk(s) && CountsOk(s) && AccessOk(s)
  }

  // ---- the relation between the two machines ----

  ghost predicate RevisionsOk(s: State) {
    && (forall i :: 0 <= i < |s.revisions| ==> s.revisions[i].id < s.nextId && s.revisions[i].journalIndex <= |s.entries|)
    && (forall i, j :: 0 <= i < j < |s.revisions| ==>
          s.revisions[i].id < s.revisions[j].id && s.revisions[i].journalIndex <= s.revisions[j].journalIndex)
  }

  /** Undoing the journal down to the i-th revision gives the i-th copy. */
  ghost predicate CopyAt(env: Env, s: State, r: R.Ref, i: nat)
    requires RevisionsOk(s) && i < |s.revisions| == |r.copies|
  {
    && s.revisions[i].id == r.copies[i].id
    && UndoAll(Plain(env, s), PlainEntries(env, s.entries)[s.revisions[i].journalIndex..]) == r.copies[i].core
  }

  /** What a reset leaves in place of the given account. */
  ghost function AfterReset(env: Env, addr: Address, prev: R.Acct): R.Acct {
    R.Fresh(env, addr).(balance := prev.balance)
  }

  /** Right after the i-th entry, a reset, the account is a fresh one with the old balance. */
  ghost predicate ResetAt(env: Env, s: State, i: nat)
    requires i < |s.entries| && s.entries[i].ResetObjectChange?
  {
    var a := s.entries[i].account;
    var core := UndoAll(Plain(env, s), PlainEntries(env, s.entries)[i + 1..]);
    a in core.accts && core.accts[a] == AfterReset(env, a, View(env, a, s.entries[i].prevObject))
  }

  /** The machine state and the reference state are the same, and so are all states they can go back to. */
  ghost predicate Matches(env: Env, s: State, r: R.Ref) {
    && RevisionsOk(s)
    && |s.revisions| == |r.copies|
    && s.nextId == r.nextId
    && r.core == Plain(env, s)
    && (forall i :: 0 <= i < |s.revisions| ==> CopyAt(env, s, r, i))
    && (forall i :: 0 <= i < |s.entries| && s.entries[i].ResetObjectChange? ==> ResetAt(env, s, i))
    && UndoAll(Plain(env, s), PlainEntries(env, s.entries)) == R.Init(env)
    && AllEnabled(env, Plain(env, s), PlainEntries(env, s.entries))
  }

  ghost predicate Sim(env: Env, s: State, r: R.Ref) {
    Inv(env, s) && Matches(env, s, r)
  }

  lemma SimStart(env: Env)
    ensures Sim(env, M.START, R.Start(env))
  {
    var s := M.START;
    assert Accounts(env, s.objects) == R.Init(env).accts;
    assert s.al.WarmSlots() == iset{};
  }

  // ---- pushing one entry ----

  /** A state that differs by one journalled, exactly undoable change still matches. */
  lemma Pushed(env: Env, s: State, r: R.Ref, s': State, e: Change)
    requires Matches(env, s, r)
    requires s'.entries == s.entries + [e] && s'.revisions == s.revisions && s'.nextId == s.nextId
    requires UndoOne(Plain(env, s'), PlainEntry(env, e)) == Plain(env, s)
    requires Enabled(env, Plain(env, s'), PlainEntry(env, e))
    requires e.ResetObjectChange? ==>
               e.account in Plain(env, s').accts &&
               Plain(env, s').accts[e.account] == AfterReset(env, e.account, View(env, e.account, e.prevObject))
    ensures Matches(env, s', r.(core := Plain(env, s')))
  {
    hide Plain, PlainEntry, UndoOne, Enabled, AllEnabled, AfterReset;
    var r' := r.(core := Plain(env, s'));
    var es := PlainEntries(env, s.entries);
    assert PlainEntries(env, s'.entries) == es + [PlainEntry(env, e)];
    forall i | 0 <= i < |s.revisions|
      ensures CopyAt(env, s', r', i)
    {
      assert CopyAt(env, s, r, i);
      UndoPushed(Plain(env, s), Plain(env, s'), es, PlainEntry(env, e), s.revisions[i].journalIndex);
    }
    forall i | 0 <= i < |s'.entries| && s'.entries[i].ResetObjectChange?
      ensures ResetAt(env, s', i)
    {
      if i < |s.entries| {
        assert ResetAt(env, s, i);
        UndoPushed(Plain(env, s), Plain(env, s'), es, PlainEntry(env, e), i + 1);
      } else {
        assert (es + [PlainEntry(env, e)])[i + 1..] == [];
      }
    }
    UndoPushed(Plain(env, s), Plain(env, s'), es, PlainEntry(env, e), 0);
    assert (es + [PlainEntry(env, e)])[0..] == es + [PlainEntry(env, e)];
    assert es[0..] == es;
    EnabledPushed(env, Plain(env, s), Plain(env, s'), es, PlainEntry(env, e));
  }

  /** Changing caches only: same plain state, same journal. */
  lemma Recached(env: Env, s: State, r: R.Ref, s': State)
    requires Matches(env, s, r)
    requires s'.entries == s.entries && s'.revisions == s.revisions && s'.nextId == s.nextId
    requires Plain(env, s') == Plain(env, s)
    ensures Matches(env, s', r)
  {
    hide Plain;
    forall i | 0 <= i < |s.revisions|
      ensures CopyAt(env, s', r, i)
    {
      assert CopyAt(env, s, r, i);
    }
    forall i | 0 <= i < |s.entries| && s.entries[i].ResetObjectChange?
      ensures ResetAt(env, s', i)
    {
      assert ResetAt(env, s, i);
    }
  }

  /** The counters after `journal.append`. */
  lemma CountsAppend(s: State, e: Change)
    requires CountsOk(s)
    ensures CountsOk(M.Append(s, e))
  {
    var s' := M.Append(s, e);
    assert s'.entries[..|s.entries|] == s.entries;
    forall a: Address
      ensures (if a in s'.dirties then s'.dirties[a] else 0) == DirtyCount(s'.entries, a)
      ensures a in s'.dirties ==> s'.dirties[a] > 0
    {
      assert DirtyCount(s'.entries, a) == DirtyCount(s.entries, a) + if e.Dirties(a) then 1 else 0;
    }
  }

  /** The access-list side of the invariant after appending an entry that is not about the access list. */
  lemma AccessAppend(s: State, e: Change)
    requires AccessOk(s) && !e.AddAccountChange? && !e.AddSlotChange?
    ensures AccessOk(M.Append(s, e))
  {
    assert (s.entries + [e])[..|s.entries|] == s.entries;
  }

  // ---- which object an undone storage change writes to ----

  lemma {:induction false} HolderPushed(later: seq<Change>, e: Change, live: Obj, addr: Address)
    ensures Holder(later + [e], live, addr)
         == Holder(later, if e.ResetObjectChange? && e.account == addr then e.prevObject else live, addr)
  {
    if later != [] && !(later[0].ResetObjectChange? && later[0].account == addr) {
      assert (later + [e])[1..] == later[1..] + [e];
      HolderPushed(later[1..], e, live, addr);
    }
  }

  lemma {:induction false} HolderGrows(later: seq<Change>, live: Obj, live': Obj, addr: Address)
    requires live.dirty.Keys <= live'.dirty.Keys
    ensures Holder(later, live, addr).dirty.Keys <= Holder(later, live', addr).dirty.Keys
  {
    if later != [] && !(later[0].ResetObjectChange? && later[0].account == addr) {
      HolderGrows(later[1..], live, live', addr);
    }
  }

  /** Objects whose dirty slots only grow keep serving the storage changes. */
  lemma StoresGrow(s: State, s': State)
    requires StoresOk(s) && s'.entries == s.entries
    requires forall a :: a in s.objects && a in s'.objects ==> s.objects[a].dirty.Keys <= s'.objects[a].dirty.Keys
    requires forall i :: 0 <= i < |s.entries| && s.entries[i].OnObject() ==> s.entries[i].account in s.objects
    ensures StoresOk(s')
  {
    forall i | 0 <= i < |s.entries| && s.entries[i].StorageChange? && s.entries[i].account in s'.objects
      ensures s.entries[i].key in Holder(s.entries[i + 1..], s'.objects[s.entries[i].account], s.entries[i].account).dirty
    {
      var a := s.entries[i].account;
      HolderGrows(s.entries[i + 1..], s.objects[a], s'.objects[a], a);
    }
  }

  /** An entry pushed on the journal, together with the replacement of the object it is about. */
  lemma StoresPush(s: State, e: Change, o: Obj)
    requires StoresOk(s) && e.OnObject()
    requires forall i :: 0 <= i < |s.entries| && s.entries[i].OnObject() ==> s.entries[i].account in s.objects
    requires e.CreateObjectChange? ==> e.account !in s.objects
    requires e.ResetObjectChange? ==> e.account in s.objects && e.prevObject == s.objects[e.account]
    requires !e.ResetObjectChange? && e.account in s.objects ==> s.objects[e.account].dirty.Keys <= o.dirty.Keys
    requires e.StorageChange? ==> e.key in o.dirty
    ensures StoresOk(M.Change(s, e, e.account, o))
  {
    var s' := M.Change(s, e, e.account, o);
    forall i | 0 <= i < |s'.entries| && s'.entries[i].StorageChange? && s'.entries[i].account in s'.objects
      ensures s'.entries[i].key in Holder(s'.entries[i + 1..], s'.objects[s'.entries[i].account], s'.entries[i].account).dirty
    {
      if i < |s.entries| {
        var a := s.entries[i].account;
        assert s'.entries[i + 1..] == s.entries[i + 1..] + [e];
        HolderPushed(s.entries[i + 1..], e, s'.objects[a], a);
        if !(e.ResetObjectChange? && e.account == a) {
          HolderGrows(s.entries[i + 1..], s.objects[a], s'.objects[a], a);
        }
      }
    }
  }

  /** An entry that is not about objects leaves the holders alone. */
  lemma StoresAppend(s: State, e: Change)
    requires StoresOk(s) && !e.OnObject()
    ensures StoresOk(M.Append(s, e))
  {
    var s' := M.Append(s, e);
    forall i | 0 <= i < |s'.entries| && s'.entries[i].StorageChange? && s'.entries[i].account in s'.objects
      ensures s'.entries[i].key in Holder(s'.entries[i + 1..], s'.objects[s'.entries[i].account], s'.entries[i].account).dirty
    {
      var a := s.entries[i].account;
      assert s'.entries[i + 1..] == s.entries[i + 1..] + [e];
      HolderPushed(s.entries[i + 1..], e, s.objects[a], a);
    }
  }
}
