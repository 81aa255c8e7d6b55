/**
 * Undoing journal entries on the plain state: what each entry restores, when it can be undone,
 * and how undoing composes. Here an entry carries the account it replaced rather than an object.
 */
module Undo {
  import opened EvmTypes
  import opened Interfaces
  import opened Reference
  import opened Machine

  ghost function UndoAcct(e: Entry<Acct>, x: Acct): Acct {
    match e
    case SuicideChange(_, was, balance) => x.(suicided := was, balance := balance)
    case BalanceChange(_, balance) => x.(balance := balance)
    case NonceChange(_, nonce) => x.(nonce := nonce)
    case StorageChange(_, key, value) => x.(storage := x.storage[key := value])
    case CodeChange(_, code, hash) => x.(code := code, codeHash := hash)
    case _ => x
  }

  /** The plain state before the change the entry records. */
  ghost function UndoOne(core: Core, e: Entry<Acct>): Core {
    match e
    case CreateObjectChange(a) => core.(accts := core.accts - {a})
    case ResetObjectChange(a, prev) => Put(core, a, prev)
    case RefundChange(prev) => core.(refund := prev)
    case AddLogChange => if core.logs == [] then core else core.(logs := core.logs[..|core.logs| - 1])
    case AddAccountChange(a) => core.(warm := core.warm - {a})
    case AddSlotChange(a, slot) => core.(warmSlots := core.warmSlots - iset{(a, slot)})
    case _ => if e.account in core.accts then Put(core, e.account, UndoAcct(e, core.accts[e.account])) else core
  }

  /** Undoes a whole list of entries, last one first. */
  ghost function UndoAll(core: Core, es: seq<Entry<Acct>>): Core
    decreases |es|
  {
    if es == [] then core else UndoAll(UndoOne(core, es[|es| - 1]), es[..|es| - 1])
  }

  /**
   * The entry finds what it needs: its account, a log to drop, an address without slots, a slot
   * of a listed address. A created account is one the keeper does not have.
   */
  ghost predicate Enabled(env: Env, core: Core, e: Entry<Acct>) {
    match e
    case CreateObjectChange(a) => a in core.accts && a !in env.accounts
    case RefundChange(_) => true
    case AddLogChange => core.logs != []
    case AddAccountChange(a) => a in core.warm && forall s: Hash :: (a, s) !in core.warmSlots
    case AddSlotChange(a, slot) => a in core.warm && (a, slot) in core.warmSlots
    case _ => e.account in core.accts
  }

  /** Every entry of the list is enabled when its turn to be undone comes. */
  ghost predicate AllEnabled(env: Env, core: Core, es: seq<Entry<Acct>>)
    decreases |es|
  {
    es == [] ||
    (Enabled(env, core, es[|es| - 1]) && AllEnabled(env, UndoOne(core, es[|es| - 1]), es[..|es| - 1]))
  }

  /** Undoing a list undoes its back part and then its front part. */
  lemma {:induction false} UndoSplit(core: Core, es: seq<Entry<Acct>>, i: nat)
    requires i <= |es|
    ensures UndoAll(core, es) == UndoAll(UndoAll(core, es[i..]), es[..i])
    decreases |es|
  {
    if i == |es| {
      assert es[..i] == es;
    } else {
      var n := |es| - 1;
      UndoSplit(UndoOne(core, es[n]), es[..n], i);
      assert es[i..][..n - i] == es[..n][i..];
      assert es[..n][..i] == es[..i];
    }
  }

  /** Undoing down to one position passes through every later position. */
  lemma UndoBetween(core: Core, es: seq<Entry<Acct>>, from: nat, to: nat)
    requires from <= to <= |es|
    ensures UndoAll(core, es[from..]) == UndoAll(UndoAll(core, es[to..]), es[..to][from..])
  {
    UndoSplit(core, es[from..], to - from);
    assert es[from..][to - from..] == es[to..];
    assert es[from..][..to - from] == es[..to][from..];
  }

  /** A change pushed on the journal is undone exactly, so everything below it is reached as before. */
  lemma UndoPushed(core: Core, core': Core, es: seq<Entry<Acct>>, e: Entry<Acct>, i: nat)
    requires UndoOne(core', e) == core
    requires i <= |es|
    ensures UndoAll(core', (es + [e])[i..]) == UndoAll(core, es[i..])
  {
    var pushed := (es + [e])[i..];
    assert pushed == es[i..] + [e];
    assert pushed[..|pushed| - 1] == es[i..];
  }

  lemma EnabledPushed(env: Env, core: Core, core': Core, es: seq<Entry<Acct>>, e: Entry<Acct>)
    requires UndoOne(core', e) == core && Enabled(env, core', e)
    requires AllEnabled(env, core, es)
    ensures AllEnabled(env, core', es + [e])
  {
    assert (es + [e])[..|es|] == es;
  }

  /** An entry about a live account is undone by restoring that account. */
  lemma UndoPut(core: Core, e: Entry<Acct>, x: Acct)
    requires e.OnObject() && !e.CreateObjectChange? && e.account in core.accts
    requires (if e.ResetObjectChange? then e.prevObject else UndoAcct(e, x)) == core.accts[e.account]
    ensures UndoOne(Put(core, e.account, x), e) == core
  {
    assert core.accts[e.account := x][e.account := core.accts[e.account]] == core.accts;
  }

  lemma PutSame(core: Core, addr: Address)
    requires addr in core.accts
    ensures Put(core, addr, core.accts[addr]) == core
  {
    assert core.accts[addr := core.accts[addr]] == core.accts;
  }

  lemma PutFreshAndRemove(core: Core, addr: Address, x: Acct)
    requires addr !in core.accts
    ensures UndoOne(Put(core, addr, x), CreateObjectChange(addr)) == core
  {
    assert core.accts[addr := x] - {addr} == core.accts;
  }
}
