/** From one transaction to the next: what a StateDB opened on the committed world starts from. */
module Chains {
  import opened EvmTypes
  import opened Interfaces
  import opened Store
  import opened Simulation
  import opened Commits
  import opened CommitTheorems
  import opened CommitCode
  import R = Reference
  import M = Machine
  import Theorems

  /** The plain state after a transaction: destroyed accounts are gone, everything kept per transaction is cleared. */
  ghost function NextCore(core: R.Core): R.Core {
    R.Core(map a | a in core.accts && !core.accts[a].suicided :: core.accts[a], 0, [], {}, iset{})
  }

  /** The same account, where no code and empty code are the same. */
  ghost predicate SameAcct(x: R.Acct, y: R.Acct) {
    x.(code := None) == y.(code := None) && CodeBytes(x.code) == CodeBytes(y.code)
  }

  ghost predicate SameCore(c: R.Core, d: R.Core) {
    && c.accts.Keys == d.accts.Keys
    && (forall a :: a in c.accts ==> SameAcct(c.accts[a], d.accts[a]))
    && c.(accts := map[]) == d.(accts := map[])
  }

  /**
   * The account's code is still found under its hash after the commit: it has none, or no deletion of the hash comes
   * after the last write of it and all writes of the hash are of this code.
   */
  ghost predicate CodeKept(rules: Rules, w: World, s: State, addrs: seq<Address>, x: R.Acct)
    requires forall a :: a in addrs ==> a in s.objects
  {
    if x.codeHash == rules.EmptyCodeHash() then CodeBytes(x.code) == []
    else
      && CodeBytes(x.code) != []
      && Survives(rules, w, s, addrs, x.codeHash)
      && forall a :: a in addrs && Writes(s.objects[a], x.codeHash) ==> s.objects[a].code == x.code
  }

  /** What the next StateDB starts with at one address. */
  ghost predicate NextAt(env: Env, core: R.Core, a: Address) {
    if a in core.accts && !core.accts[a].suicided
    then a in env.accounts && SameAcct(R.FromAccount(env, a, env.accounts[a]), core.accts[a])
    else a !in env.accounts
  }

  lemma Assemble(env: Env, core: R.Core)
    requires forall a: Address :: NextAt(env, core, a)
    ensures SameCore(R.Init(env), NextCore(core))
  {
    hide SameAcct, R.FromAccount;
    var c, d := R.Init(env), NextCore(core);
    forall a: Address
      ensures a in c.accts <==> a in d.accts
      ensures a in c.accts ==> SameAcct(c.accts[a], d.accts[a])
    {
      assert NextAt(env, core, a);
    }
  }

  lemma CodeFound(rules: Rules, w: World, tx: TxConfig, s: State, r: R.Ref, addrs: seq<Address>, order: KeyOrder, a: Address)
    requires Committed(rules, w, tx, s, r, addrs, order)
    requires a in r.core.accts && !r.core.accts[a].suicided && CodeKept(rules, w, s, addrs, r.core.accts[a])
    ensures var x := r.core.accts[a];
            CodeBytes(x.code) == if x.codeHash == rules.EmptyCodeHash() then []
                                 else CodeBytes(Store.GetCode(Commit(rules, w, s, addrs, order).world, x.codeHash))
  {
    hide Sim, Commit, Survives, Writes, Store.GetCode;
    if r.core.accts[a].codeHash != rules.EmptyCodeHash() {
      CodeAgrees(rules, w, tx, s, r, addrs, order, a);
    }
  }

  lemma NextAccount(rules: Rules, w: World, next: TxConfig, core: R.Core, a: Address)
    requires ReadsOf(rules, w, a) == Live(core, a)
    requires a in core.accts && !core.accts[a].suicided ==>
      var x := core.accts[a];
      CodeBytes(x.code) == if x.codeHash == rules.EmptyCodeHash() then [] else CodeBytes(Store.GetCode(w, x.codeHash))
    ensures NextAt(EnvOf(rules, w, next), core, a)
  {
    AccountRead(rules, w, a);
    if a in w.auth {
      PersistedReads(rules, w, next, a);
    }
    hide Store.GetState, Store.GetCode, ReadsOf, R.Persisted;
  }

  lemma AccountRead(rules: Rules, w: World, a: Address)
    ensures a in w.auth <==> ReadsOf(rules, w, a).account.Some?
    ensures a in w.auth ==> ReadsOf(rules, w, a).account.value == ToAccount(rules.EmptyCodeHash(), w, a)
  {
  }

  /**
   * A StateDB opened on the committed world starts from exactly the plain state the last one ended with, without its
   * destroyed accounts, and the world is as well formed as before.
   */
  lemma CommitStartsNext(rules: Rules, w: World, tx: TxConfig, s: State, r: R.Ref, addrs: seq<Address>, order: KeyOrder, next: TxConfig)
    requires Committed(rules, w, tx, s, r, addrs, order) && WorldOk(rules, w)
    requires forall a: Address :: Faithful(rules, w, s, a)
    requires forall a :: a in r.core.accts && !r.core.accts[a].suicided ==> CodeKept(rules, w, s, addrs, r.core.accts[a])
    ensures var w' := Commit(rules, w, s, addrs, order).world;
            SameCore(R.Init(EnvOf(rules, w', next)), NextCore(r.core)) && WorldOk(rules, w')
  {
    hide Sim, Commit, ReadsOf, Live, Faithful, WorldOk, CodeKept, NextAt, SameCore, EnvOf, Store.GetCode;
    CommitAgrees(rules, w, tx, s, r, addrs, order);
    CommitConserves(rules, w, tx, s, r, addrs, order);
    var w' := Commit(rules, w, s, addrs, order).world;
    forall a: Address
      ensures NextAt(EnvOf(rules, w', next), r.core, a)
    {
      assert ReadsOf(rules, w', a) == Live(r.core, a) <==> Faithful(rules, w, s, a);
      if a in r.core.accts && !r.core.accts[a].suicided {
        CodeFound(rules, w, tx, s, r, addrs, order, a);
      }
      NextAccount(rules, w', next, r.core, a);
    }
    Assemble(EnvOf(rules, w', next), r.core);
  }

  // ---- many transactions ----

  ghost predicate SameRef(q: R.Ref, r: R.Ref) {
    && SameCore(q.core, r.core)
    && q.nextId == r.nextId && |q.copies| == |r.copies|
    && forall i :: 0 <= i < |q.copies| ==> q.copies[i].id == r.copies[i].id && SameCore(q.copies[i].core, r.copies[i].core)
  }

  /** The same answer, where no code and empty code are the same. */
  ghost predicate SameAnswer(a: Answer, b: Answer) {
    a == b || (a.Code? && b.Code? && CodeBytes(a.code) == CodeBytes(b.code))
  }

  ghost predicate SameAnswers(a: seq<Answer>, b: seq<Answer>) {
    |a| == |b| && forall i :: 0 <= i < |a| ==> SameAnswer(a[i], b[i])
  }

  lemma PutSame(c: R.Core, d: R.Core, a: Address, x: R.Acct, y: R.Acct)
    requires SameCore(c, d) && SameAcct(x, y)
    ensures SameCore(R.Put(c, a, x), R.Put(d, a, y))
  {
  }

  lemma TouchSame(env: Env, c: R.Core, d: R.Core, a: Address)
    requires SameCore(c, d)
    ensures SameCore(R.Touch(env, c, a), R.Touch(env, d, a))
    ensures a in R.Touch(env, c, a).accts && a in R.Touch(env, d, a).accts
    ensures SameAcct(R.Touch(env, c, a).accts[a], R.Touch(env, d, a).accts[a])
  {
    hide R.Fresh, SameAcct;
    SameAcctSelf(R.Fresh(env, a));
  }

  lemma SameAcctSelf(x: R.Acct)
    ensures SameAcct(x, x)
  {
  }

  /** Changing one account, made sure to exist, in the same way on both sides. */
  lemma ChangeSame(env: Env, c: R.Core, d: R.Core, call: Call)
    requires SameCore(c, d)
    requires call.AddBalance? || call.SubBalance? || call.SetNonce? || call.SetCode? || call.SetState?
    ensures SameCore(R.Apply(env, c, call), R.Apply(env, d, call))
  {
    hide SameCore, R.Touch, R.Put;
    var a := call.addr;
    TouchSame(env, c, d, a);
    var c1, d1 := R.Touch(env, c, a), R.Touch(env, d, a);
    var x, y := c1.accts[a], d1.accts[a];
    match call
    case AddBalance(_, amount) =>
      PutSame(c1, d1, a, x.(balance := x.balance + amount), y.(balance := y.balance + amount));
    case SubBalance(_, amount) =>
      PutSame(c1, d1, a, x.(balance := x.balance + -amount), y.(balance := y.balance + -amount));
    case SetNonce(_, nonce) => PutSame(c1, d1, a, x.(nonce := nonce), y.(nonce := nonce));
    case SetCode(_, code) =>
      var hash := env.keccak(CodeBytes(code));
      PutSame(c1, d1, a, x.(codeHash := hash, code := code), y.(codeHash := hash, code := code));
    case SetState(_, key, value) =>
      PutSame(c1, d1, a, x.(storage := x.storage[key := value]), y.(storage := y.storage[key := value]));
  }

  lemma ReplaceSame(env: Env, c: R.Core, d: R.Core, call: Call)
    requires SameCore(c, d) && (call.CreateAccount? || call.Suicide?)
    ensures SameCore(R.Apply(env, c, call), R.Apply(env, d, call))
  {
    hide R.Fresh;
  }

  lemma ApplySame(env: Env, c: R.Core, d: R.Core, call: Call)
    requires SameCore(c, d)
    ensures SameCore(R.Apply(env, c, call), R.Apply(env, d, call))
  {
    if call.AddBalance? || call.SubBalance? || call.SetNonce? || call.SetCode? || call.SetState? {
      hide R.Apply, SameCore;
      ChangeSame(env, c, d, call);
    } else if call.CreateAccount? || call.Suicide? {
      hide R.Apply, SameCore;
      ReplaceSame(env, c, d, call);
    } else {
      hide R.PreparedAddresses, R.PreparedSlots, Stamp, SameAcct;
    }
  }

  lemma AnswersSame(env: Env, c: R.Core, d: R.Core, call: Call)
    requires SameCore(c, d)
    ensures SameAnswer(R.Answers(env, c, call), R.Answers(env, d, call))
  {
  }

  lemma {:induction false} FindSame(q: seq<R.Copy>, r: seq<R.Copy>, id: int)
    requires |q| == |r| && forall i :: 0 <= i < |q| ==> q[i].id == r[i].id
    ensures R.Find(q, id) == R.Find(r, id)
    decreases |q|
  {
    if q != [] && q[0].id != id {
      FindSame(q[1..], r[1..], id);
    }
  }

  lemma StepSame(env: Env, q: R.Ref, r: R.Ref, call: Call)
    requires SameRef(q, r)
    ensures SameRef(R.Step(env, q, call).0, R.Step(env, r, call).0)
    ensures SameAnswer(R.Step(env, q, call).1, R.Step(env, r, call).1)
  {
    hide SameCore, R.Apply, R.Answers, R.Find;
    ApplySame(env, q.core, r.core, call);
    AnswersSame(env, q.core, r.core, call);
    if call.RevertToSnapshot? {
      FindSame(q.copies, r.copies, call.revid);
    }
  }

  lemma {:induction false} RunSame(env: Env, q: R.Ref, r: R.Ref, calls: seq<Call>)
    requires SameRef(q, r)
    ensures SameRef(R.Run(env, q, calls).0, R.Run(env, r, calls).0)
    ensures SameAnswers(R.Run(env, q, calls).1, R.Run(env, r, calls).1)
    decreases |calls|
  {
    hide R.Step, SameRef;
    if calls != [] {
      StepSame(env, q, r, calls[0]);
      var (q1, a) := R.Step(env, q, calls[0]);
      var (r1, b) := R.Step(env, r, calls[0]);
      RunSame(env, q1, r1, calls[1..]);
    }
  }

  lemma NextSame(c: R.Core, d: R.Core)
    requires SameCore(c, d)
    ensures SameCore(NextCore(c), NextCore(d))
  {
  }

  lemma SameTwice(b: R.Core, c: R.Core, d: R.Core)
    requires SameCore(b, c) && SameCore(c, d)
    ensures SameCore(b, d)
  {
  }

  /** One transaction: its calls, and how it was committed. */
  datatype Leg = Leg(tx: TxConfig, calls: seq<Call>, r: R.Ref, addrs: seq<Address>, order: KeyOrder)

  /** The transaction was run on the world and committed to the next one, losing nothing. */
  ghost predicate Linked(rules: Rules, w: World, leg: Leg, w': World) {
    var s := M.Run(EnvOf(rules, w, leg.tx), M.START, leg.calls).0;
    && Committed(rules, w, leg.tx, s, leg.r, leg.addrs, leg.order)
    && (forall a: Address :: Faithful(rules, w, s, a))
    && (forall a :: a in leg.r.core.accts && !leg.r.core.accts[a].suicided ==> CodeKept(rules, w, s, leg.addrs, leg.r.core.accts[a]))
    && w' == Commit(rules, w, s, leg.addrs, leg.order).world
  }

  /** The plain state before the i-th transaction, when the accounts of the first world are carried from run to run. */
  ghost function Chained(rules: Rules, ws: seq<World>, legs: seq<Leg>, i: nat): R.Core
    requires i <= |legs| < |ws|
  {
    if i == 0 then R.Init(EnvOf(rules, ws[0], TxConfig(ZERO_HASH, ZERO_HASH, 0, 0)))
    else
      var env := EnvOf(rules, ws[i - 1], legs[i - 1].tx);
      NextCore(R.Run(env, R.Ref(Chained(rules, ws, legs, i - 1), [], 0), legs[i - 1].calls).0.core)
  }

  lemma SameInit(rules: Rules, w: World, tx: TxConfig, tx': TxConfig)
    ensures R.Init(EnvOf(rules, w, tx)) == R.Init(EnvOf(rules, w, tx'))
  {
    hide Store.GetState, Store.GetCode, R.Init;
    InitOf(EnvOf(rules, w, tx), tx');
    assert EnvOf(rules, w, tx).(tx := tx') == EnvOf(rules, w, tx');
  }

  /** The start of a transaction does not depend on its configuration. */
  lemma InitOf(env: Env, tx: TxConfig)
    ensures R.Init(env.(tx := tx)) == R.Init(env)
  {
    var env' := env.(tx := tx);
    forall a | a in env.accounts
      ensures R.FromAccount(env', a, env.accounts[a]) == R.FromAccount(env, a, env.accounts[a])
    {
      assert R.Persisted(env', a) == R.Persisted(env, a);
    }
    hide R.FromAccount;
    assert R.Init(env').accts == R.Init(env).accts;
  }

  lemma SameStart(c: R.Core, d: R.Core)
    requires SameCore(c, d)
    ensures SameRef(R.Ref(c, [], 0), R.Ref(d, [], 0))
  {
  }

  lemma SameNow(q: R.Ref, r: R.Ref)
    requires SameRef(q, r)
    ensures SameCore(q.core, r.core)
  {
  }

  lemma {:induction false} ChainedStart(rules: Rules, ws: seq<World>, legs: seq<Leg>, i: nat, next: TxConfig)
    requires i <= |legs| < |ws| && WorldOk(rules, ws[0])
    requires forall j :: 0 <= j < i ==> Linked(rules, ws[j], legs[j], ws[j + 1])
    ensures SameCore(R.Init(EnvOf(rules, ws[i], next)), Chained(rules, ws, legs, i)) && WorldOk(rules, ws[i])
  {
    hide Sim, M.Run, R.Run, Commit, WorldOk, Faithful, CodeKept, SameCore, SameRef, NextCore, R.Init, EnvOf;
    if i == 0 {
      SameInit(rules, ws[0], next, TxConfig(ZERO_HASH, ZERO_HASH, 0, 0));
      SameSelf(R.Init(EnvOf(rules, ws[0], next)));
    } else {
      var w, leg := ws[i - 1], legs[i - 1];
      var env := EnvOf(rules, w, leg.tx);
      var s := M.Run(env, M.START, leg.calls).0;
      var before := Chained(rules, ws, legs, i - 1);
      ChainedStart(rules, ws, legs, i - 1, leg.tx);
      assert Linked(rules, w, leg, ws[i]);
      CommitStartsNext(rules, w, leg.tx, s, leg.r, leg.addrs, leg.order, next);
      Theorems.RunCore(env, leg.calls, leg.r);
      SameStart(R.Init(env), before);
      RunSame(env, R.Start(env), R.Ref(before, [], 0), leg.calls);
      SameNow(R.Run(env, R.Start(env), leg.calls).0, R.Run(env, R.Ref(before, [], 0), leg.calls).0);
      NextSame(leg.r.core, R.Run(env, R.Ref(before, [], 0), leg.calls).0.core);
      SameTwice(R.Init(EnvOf(rules, ws[i], next)), NextCore(leg.r.core), Chained(rules, ws, legs, i));
    }
  }

  lemma SameSelf(c: R.Core)
    ensures SameCore(c, c)
  {
  }

  /**
   * Over every sequence of transactions that are run and committed one after the other, each on a new StateDB over the
   * keeper the last one left, all answers are those of the one plain machine that keeps its accounts all along, drops
   * destroyed ones and clears refund, logs and access list after each transaction.
   */
  lemma ChainAgrees(rules: Rules, ws: seq<World>, legs: seq<Leg>, i: nat)
    requires i < |legs| < |ws| && WorldOk(rules, ws[0])
    requires forall j :: 0 <= j < i ==> Linked(rules, ws[j], legs[j], ws[j + 1])
    ensures var env := EnvOf(rules, ws[i], legs[i].tx);
            SameAnswers(M.Run(env, M.START, legs[i].calls).1, R.Run(env, R.Ref(Chained(rules, ws, legs, i), [], 0), legs[i].calls).1)
  {
    hide M.Run, R.Run, EnvOf, Linked, SameCore, SameRef, WorldOk, Chained, R.Init;
    var env := EnvOf(rules, ws[i], legs[i].tx);
    ChainedStart(rules, ws, legs, i, legs[i].tx);
    SameStart(R.Init(env), Chained(rules, ws, legs, i));
    Theorems.AnswersAgree(env, legs[i].calls);
    RunSame(env, R.Start(env), R.Ref(Chained(rules, ws, legs, i), [], 0), legs[i].calls);
  }
}
