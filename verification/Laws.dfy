/**
 * What the calls mean to the EVM, told by answers alone: what each write does to every getter, what
 * a new StateDB shows of the stores, and that going back restores what was shown.
 */
module Laws {
  import opened EvmTypes
  import opened Interfaces
  import opened Reference
  import Store

  // ---- what is shown ----

  ghost function Ask(env: Env, r: Ref, query: Call): Answer {
    Step(env, r, query).1
  }

  ghost function After(env: Env, r: Ref, call: Call): Ref {
    Step(env, r, call).0
  }

  function NumberOf(answer: Answer): int {
    if answer.Number? then answer.number else 0
  }

  function ValueOf(answer: Answer): Hash {
    if answer.Value? then answer.hash else ZERO_HASH
  }

  function CodeOf(answer: Answer): Option<Bytes> {
    if answer.Code? then answer.code else None
  }

  /** All the getters of one address. */
  datatype Face = Face(
    exists_: bool, nonce: int, balance: int, codeHash: Hash, code: Option<Bytes>, codeSize: int, suicided: bool,
    state: imap<Hash, Hash>, committed: imap<Hash, Hash>)

  ghost function FaceOf(env: Env, r: Ref, a: Address): Face {
    Face(Ask(env, r, Exist(a)) == Flag(true),
         NumberOf(Ask(env, r, Call.GetNonce(a))),
         NumberOf(Ask(env, r, Call.GetBalance(a))),
         ValueOf(Ask(env, r, GetCodeHash(a))),
         CodeOf(Ask(env, r, Call.GetCode(a))),
         NumberOf(Ask(env, r, GetCodeSize(a))),
         Ask(env, r, HasSuicided(a)) == Flag(true),
         imap k: Hash :: ValueOf(Ask(env, r, Call.GetState(a, k))),
         imap k: Hash :: ValueOf(Ask(env, r, GetCommittedState(a, k))))
  }

  function Nowhere(key: Hash): Hash {
    ZERO_HASH
  }

  /** What is shown of an address without account. */
  ghost function AbsentFace(): Face {
    Face(false, 0, 0, ZERO_HASH, None, 0, false, imap k: Hash :: Nowhere(k), imap k: Hash :: Nowhere(k))
  }

  /** What is shown of a new account: nothing but the storage persisted under its address. */
  ghost function NewFace(env: Env, a: Address): Face {
    Face(true, 0, 0, env.keccak([]), None, 0, false, StateOf(env, a), StateOf(env, a))
  }

  /** The storage persisted under an address. */
  ghost function StateOf(env: Env, a: Address): imap<Hash, Hash> {
    imap k: Hash :: env.state(a, k)
  }

  /** The account, made sure to exist. */
  ghost function Opened(env: Env, a: Address, face: Face): Face {
    if face.exists_ then face else NewFace(env, a)
  }

  /** The getters that are not about an address. */
  datatype Side = Side(refund: int, logs: seq<Log>, warm: iset<Address>, warmSlots: iset<(Address, Hash)>)

  ghost function SideOf(env: Env, r: Ref): Side {
    Side(NumberOf(Ask(env, r, GetRefund)),
         if Ask(env, r, Logs).LogList? then Ask(env, r, Logs).logs else [],
         iset a: Address | Ask(env, r, AddressInAccessList(a)) == Flag(true),
         iset a: Address, slot: Hash | SlotShown(env, r, a, slot) :: (a, slot))
  }

  ghost predicate SlotShown(env: Env, r: Ref, a: Address, slot: Hash) {
    Ask(env, r, SlotInAccessList(a, slot)).Presence? && Ask(env, r, SlotInAccessList(a, slot)).slot
  }

  // ---- answers, read off the plain state ----

  lemma AskIs(env: Env, r: Ref, query: Call)
    requires !query.Snapshot? && !query.RevertToSnapshot?
    ensures Ask(env, r, query) == Answers(env, r.core, query)
  {
    hide Answers, Apply;
  }

  ghost function Slots(storage: imap<Hash, Hash>): imap<Hash, Hash> {
    imap k: Hash :: if k in storage then storage[k] else ZERO_HASH
  }

  lemma SlotsOfState(env: Env, a: Address)
    ensures Slots(Persisted(env, a)) == StateOf(env, a)
  {
  }

  lemma SlotsUpdated(storage: imap<Hash, Hash>, key: Hash, value: Hash)
    ensures Slots(storage[key := value]) == Slots(storage)[key := value]
  {
  }

  ghost function AcctFace(env: Env, a: Address, x: Acct): Face {
    Face(true, x.nonce, x.balance, x.codeHash, x.code, |CodeBytes(x.code)|, x.suicided, Slots(x.storage), StateOf(env, a))
  }

  ghost function CoreFace(env: Env, core: Core, a: Address): Face {
    if a in core.accts then AcctFace(env, a, core.accts[a]) else AbsentFace()
  }

  lemma StateAnswer(env: Env, r: Ref, a: Address, k: Hash)
    ensures ValueOf(Ask(env, r, Call.GetState(a, k))) == CoreFace(env, r.core, a).state[k]
    ensures ValueOf(Ask(env, r, GetCommittedState(a, k))) == CoreFace(env, r.core, a).committed[k]
  {
    hide Step, Ask;
    AskIs(env, r, Call.GetState(a, k));
    AskIs(env, r, GetCommittedState(a, k));
  }

  lemma StateAnswers(env: Env, r: Ref, a: Address)
    ensures FaceOf(env, r, a).state == CoreFace(env, r.core, a).state
    ensures FaceOf(env, r, a).committed == CoreFace(env, r.core, a).committed
  {
    hide Step, Ask, Answers, ValueOf;
    forall k: Hash
      ensures ValueOf(Ask(env, r, Call.GetState(a, k))) == CoreFace(env, r.core, a).state[k]
      ensures ValueOf(Ask(env, r, GetCommittedState(a, k))) == CoreFace(env, r.core, a).committed[k]
    {
      StateAnswer(env, r, a, k);
    }
  }

  lemma FaceIs(env: Env, r: Ref, a: Address)
    ensures FaceOf(env, r, a) == CoreFace(env, r.core, a)
  {
    StateAnswers(env, r, a);
    hide Step, Ask;
    AskIs(env, r, Exist(a));
    AskIs(env, r, Call.GetNonce(a));
    AskIs(env, r, Call.GetBalance(a));
    AskIs(env, r, GetCodeHash(a));
    AskIs(env, r, Call.GetCode(a));
    AskIs(env, r, GetCodeSize(a));
    AskIs(env, r, HasSuicided(a));
  }

  /** An address that does not exist shows nothing. */
  lemma AbsentIs(env: Env, r: Ref, a: Address)
    ensures !FaceOf(env, r, a).exists_ ==> FaceOf(env, r, a) == AbsentFace()
    ensures FaceOf(env, r, a).exists_ <==> a in r.core.accts
  {
    hide FaceOf;
    FaceIs(env, r, a);
  }

  /** The remaining two queries say what the others say. */
  lemma DerivedQueries(env: Env, r: Ref, a: Address, slot: Hash)
    ensures var face, empty := FaceOf(env, r, a), Ask(env, r, Empty(a));
            empty == Flag(!face.exists_ || (face.nonce == 0 && face.balance == 0 && face.codeHash == env.keccak([])))
    ensures var side, listed := SideOf(env, r), Ask(env, r, SlotInAccessList(a, slot));
            listed == Presence(a in side.warm, (a, slot) in side.warmSlots)
  {
    hide FaceOf, SideOf, Ask;
    FaceIs(env, r, a);
    SideIs(env, r);
    AskIs(env, r, Empty(a));
    AskIs(env, r, SlotInAccessList(a, slot));
  }

  // ---- account changes ----

  /** What the account shows after a call that changes it. */
  ghost function Changed(env: Env, face: Face, call: Call): Face {
    match call
    case SetNonce(a, nonce) => Opened(env, a, face).(nonce := nonce)
    case AddBalance(a, amount) => Opened(env, a, face).(balance := face.balance + amount)
    case SubBalance(a, amount) => Opened(env, a, face).(balance := face.balance - amount)
    case SetCode(a, Some(code)) => Opened(env, a, face).(code := Some(code), codeHash := env.keccak(code), codeSize := |code|)
    case SetCode(a, None) => Opened(env, a, face).(code := None, codeHash := env.keccak([]), codeSize := 0)
    case SetState(a, key, value) => Opened(env, a, face).(state := Opened(env, a, face).state[key := value])
    case CreateAccount(a) => NewFace(env, a).(balance := face.balance)
    case Suicide(a) => if face.exists_ then face.(suicided := true, balance := 0) else face
    case _ => face
  }

  predicate ChangesAccount(call: Call) {
    call.SetNonce? || call.AddBalance? || call.SubBalance? || call.SetCode? || call.SetState? || call.CreateAccount? || call.Suicide?
  }

  lemma ChangedFace(env: Env, core: Core, call: Call)
    requires ChangesAccount(call) && !call.SetState?
    ensures CoreFace(env, Apply(env, core, call), call.addr) == Changed(env, CoreFace(env, core, call.addr), call)
  {
    hide Slots, StateOf, Persisted;
    SlotsOfState(env, call.addr);
  }

  lemma ChangedState(env: Env, core: Core, a: Address, key: Hash, value: Hash)
    ensures var call := Call.SetState(a, key, value);
            CoreFace(env, Apply(env, core, call), a) == Changed(env, CoreFace(env, core, a), call)
  {
    hide Slots, StateOf, Persisted;
    SlotsOfState(env, a);
    SlotsUpdated(if a in core.accts then core.accts[a].storage else Persisted(env, a), key, value);
  }

  lemma OtherFace(env: Env, r: Ref, call: Call, b: Address)
    requires !call.RevertToSnapshot? && (ChangesAccount(call) ==> b != call.addr)
    ensures FaceOf(env, After(env, r, call), b) == FaceOf(env, r, b)
  {
    hide FaceOf, After;
    SameAcct(env, r, call, b);
    FaceIs(env, r, b);
    FaceIs(env, After(env, r, call), b);
  }

  lemma SameAcct(env: Env, r: Ref, call: Call, b: Address)
    requires !call.RevertToSnapshot? && (ChangesAccount(call) ==> b != call.addr)
    ensures var core := After(env, r, call).core;
            (b in core.accts <==> b in r.core.accts) && (b in core.accts ==> core.accts[b] == r.core.accts[b])
  {
    hide Answers, Fresh, PreparedAddresses, PreparedSlots;
  }

  /** A call that changes an account changes what is said about that account as it should, and nothing else. */
  lemma AccountLaw(env: Env, r: Ref, call: Call, b: Address)
    requires ChangesAccount(call)
    ensures FaceOf(env, After(env, r, call), b)
         == if b == call.addr then Changed(env, FaceOf(env, r, b), call) else FaceOf(env, r, b)
    ensures SideOf(env, After(env, r, call)) == SideOf(env, r)
    ensures Ask(env, r, call) == if call.Suicide? then Flag(FaceOf(env, r, call.addr).exists_) else Done
  {
    hide FaceOf, SideOf, Changed, CoreFace, Apply, Answers;
    FaceIs(env, r, b);
    FaceIs(env, After(env, r, call), b);
    if b != call.addr {
      OtherFace(env, r, call, b);
    } else if call.SetState? {
      ChangedState(env, r.core, b, call.key, call.value);
    } else {
      ChangedFace(env, r.core, call);
    }
    AccountSide(env, r, call);
    AccountAnswer(env, r, call);
  }

  lemma AccountAnswer(env: Env, r: Ref, call: Call)
    requires ChangesAccount(call)
    ensures Ask(env, r, call) == if call.Suicide? then Flag(FaceOf(env, r, call.addr).exists_) else Done
  {
    hide FaceOf, Apply;
    AbsentIs(env, r, call.addr);
  }

  lemma AccountSide(env: Env, r: Ref, call: Call)
    requires ChangesAccount(call)
    ensures SideOf(env, After(env, r, call)) == SideOf(env, r)
  {
    hide SideOf, Answers;
    SideIs(env, r);
    SideIs(env, After(env, r, call));
    assert SideOf(env, After(env, r, call)).warm == SideOf(env, r).warm;
    SamePairs(SideOf(env, After(env, r, call)).warmSlots, SideOf(env, r).warmSlots);
  }

  lemma SamePairs(s: iset<(Address, Hash)>, t: iset<(Address, Hash)>)
    requires forall a: Address, slot: Hash :: (a, slot) in s <==> (a, slot) in t
    ensures s == t
  {
    forall p: (Address, Hash) ensures p in s <==> p in t {
      assert p == (p.0, p.1);
    }
  }

  // ---- other changes ----

  /** The addresses a transaction makes warm before it runs (EIP-2929, EIP-2930). */
  ghost predicate MadeWarm(call: Call, a: Address)
    requires call.PrepareAccessList?
  {
    || a == call.sender
    || call.dst == Some(a)
    || a in call.precompiles
    || exists i :: 0 <= i < |call.list| && call.list[i].address == a
  }

  ghost predicate SlotMadeWarm(call: Call, a: Address, slot: Hash)
    requires call.PrepareAccessList?
  {
    exists i :: 0 <= i < |call.list| && call.list[i].address == a && slot in call.list[i].storageKeys
  }

  predicate ChangesSide(call: Call) {
    call.AddLog? || call.AddRefund? || call.SubRefund? || call.AddAddressToAccessList? || call.AddSlotToAccessList? || call.PrepareAccessList?
  }

  ghost function ChangedSide(env: Env, side: Side, call: Call): Side {
    match call
    case AddLog(body) =>
      side.(logs := side.logs + [Log(body, env.tx.txHash, env.tx.blockHash, env.tx.txIndex, (env.tx.logIndex + |side.logs|) % U64)])
    case AddRefund(gas) => side.(refund := (side.refund + gas) % U64)
    case SubRefund(gas) => if gas <= side.refund then side.(refund := side.refund - gas) else side
    case AddAddressToAccessList(a) => side.(warm := side.warm + iset{a})
    case AddSlotToAccessList(a, slot) => side.(warm := side.warm + iset{a}, warmSlots := side.warmSlots + iset{(a, slot)})
    case PrepareAccessList(_, _, _, _) =>
      var addresses := iset a: Address | MadeWarm(call, a);
      var slots := iset a: Address, slot: Hash | SlotMadeWarm(call, a, slot) :: (a, slot);
      side.(warm := side.warm + addresses, warmSlots := side.warmSlots + slots)
    case _ => side
  }

  lemma SideIs(env: Env, r: Ref)
    ensures var side := SideOf(env, r);
            && side.refund == r.core.refund && side.logs == r.core.logs
            && (forall a: Address :: a in side.warm <==> a in r.core.warm)
            && (forall a: Address, slot: Hash :: (a, slot) in side.warmSlots <==> (a, slot) in r.core.warmSlots)
  {
    hide Step, Ask;
    AskIs(env, r, GetRefund);
    AskIs(env, r, Logs);
    forall a: Address ensures a in SideOf(env, r).warm <==> a in r.core.warm {
      AskIs(env, r, AddressInAccessList(a));
    }
    forall a: Address, slot: Hash ensures (a, slot) in SideOf(env, r).warmSlots <==> (a, slot) in r.core.warmSlots {
      AskIs(env, r, SlotInAccessList(a, slot));
      assert SlotShown(env, r, a, slot) <==> (a, slot) in r.core.warmSlots;
    }
  }

  lemma PreparedIs(call: Call)
    requires call.PrepareAccessList?
    ensures forall a: Address :: a in PreparedAddresses(call.sender, call.dst, call.precompiles, call.list) <==> MadeWarm(call, a)
    ensures forall a: Address, slot: Hash :: (a, slot) in PreparedSlots(call.list) <==> SlotMadeWarm(call, a, slot)
  {
    forall a: Address, slot: Hash ensures (a, slot) in PreparedSlots(call.list) <==> SlotMadeWarm(call, a, slot) {
      if SlotMadeWarm(call, a, slot) {
        var i :| 0 <= i < |call.list| && call.list[i].address == a && slot in call.list[i].storageKeys;
        var j :| 0 <= j < |call.list[i].storageKeys| && call.list[i].storageKeys[j] == slot;
        assert (call.list[i].address, call.list[i].storageKeys[j]) in PreparedSlots(call.list);
      }
    }
  }

  lemma SideChanges(env: Env, r: Ref, call: Call)
    requires ChangesSide(call)
    ensures SideOf(env, After(env, r, call)) == ChangedSide(env, SideOf(env, r), call)
  {
    var r' := After(env, r, call);
    hide SideOf, PreparedAddresses, PreparedSlots, MadeWarm, SlotMadeWarm, Answers;
    SideIs(env, r);
    SideIs(env, r');
    if call.PrepareAccessList? {
      PreparedIs(call);
    }
    var s, t := SideOf(env, r'), ChangedSide(env, SideOf(env, r), call);
    assert s.warm == t.warm;
    SamePairs(s.warmSlots, t.warmSlots);
  }

  /** Every other change does to refund, logs and access list what it should, and nothing to accounts. */
  lemma SideLaw(env: Env, r: Ref, call: Call, b: Address)
    requires ChangesSide(call)
    ensures SideOf(env, After(env, r, call)) == ChangedSide(env, SideOf(env, r), call)
    ensures FaceOf(env, After(env, r, call), b) == FaceOf(env, r, b)
    ensures Ask(env, r, call) == if call.SubRefund? && call.gas > SideOf(env, r).refund then Panic else Done
  {
    hide SideOf, FaceOf, ChangedSide, After, Ask;
    SideChanges(env, r, call);
    OtherFace(env, r, call, b);
    SideAnswer(env, r, call);
  }

  lemma SideAnswer(env: Env, r: Ref, call: Call)
    requires ChangesSide(call)
    ensures Ask(env, r, call) == if call.SubRefund? && call.gas > SideOf(env, r).refund then Panic else Done
  {
    hide SideOf, Ask;
    SideIs(env, r);
    AskIs(env, r, call);
  }

  /** Queries change nothing, and a snapshot nothing that is shown. */
  lemma QueryLaw(env: Env, r: Ref, call: Call)
    requires !ChangesAccount(call) && !ChangesSide(call) && !call.RevertToSnapshot?
    ensures After(env, r, call).core == r.core
    ensures !call.Snapshot? ==> After(env, r, call) == r
  {
    hide Answers;
  }

  // ---- what a new StateDB shows ----

  ghost function StoredValue(w: Store.World, a: Address, key: Hash): Hash {
    var k := [2] + a.bytes + key.bytes;
    if k in w.kv && |w.kv[k]| > 0 then BytesToHash(w.kv[k]) else ZERO_HASH
  }

  ghost function StoredCode(w: Store.World, codeHash: Hash): Option<Bytes> {
    var k := [1] + codeHash.bytes;
    if k in w.kv then Some(w.kv[k]) else None
  }

  ghost function StoredFace(rules: Store.Rules, w: Store.World, a: Address): Face {
    if a !in w.auth then AbsentFace()
    else
      var hash := if w.auth[a].EthAccount? then w.auth[a].codeHash else rules.keccak([]);
      var code := if hash == rules.keccak([]) then None else StoredCode(w, hash);
      var slots := imap k: Hash :: StoredValue(w, a, k);
      Face(true, w.auth[a].sequence, if a in w.bank then w.bank[a] else 0, hash,
           code, if code.Some? then |code.value| else 0, false, slots, slots)
  }

  /** A new StateDB shows the sequence, the coins and the code of the auth accounts, and the stored slots. */
  lemma StartLaw(rules: Store.Rules, w: Store.World, tx: TxConfig, a: Address)
    ensures var env := Store.EnvOf(rules, w, tx);
            FaceOf(env, Start(env), a) == StoredFace(rules, w, a) && SideOf(env, Start(env)) == Side(0, [], iset{}, iset{})
  {
    hide FaceOf, SideOf, Store.EnvOf;
    var env := Store.EnvOf(rules, w, tx);
    SideIs(env, Start(env));
    SamePairs(SideOf(env, Start(env)).warmSlots, iset{});
    FaceIs(env, Start(env), a);
    StartFace(rules, w, tx, a);
  }

  lemma StartFace(rules: Store.Rules, w: Store.World, tx: TxConfig, a: Address)
    ensures var env := Store.EnvOf(rules, w, tx); CoreFace(env, Init(env), a) == StoredFace(rules, w, a)
  {
    var env := Store.EnvOf(rules, w, tx);
    SlotsOfState(env, a);
    StoredSlots(rules, w, tx, a);
    hide Store.GetState, Store.GetCode, StoredValue, StoredCode, Slots, StateOf, Persisted;
    if a in w.auth {
      StoredCodeIs(w, env.accounts[a].codeHash);
    }
  }

  lemma StoredSlots(rules: Store.Rules, w: Store.World, tx: TxConfig, a: Address)
    ensures StateOf(Store.EnvOf(rules, w, tx), a) == imap k: Hash :: StoredValue(w, a, k)
  {
    forall k: Hash ensures Store.GetState(w, a, k) == StoredValue(w, a, k) {
      assert Store.StateKey(a, k) == [2] + a.bytes + k.bytes;
    }
  }

  lemma StoredCodeIs(w: Store.World, h: Hash)
    ensures Store.GetCode(w, h) == StoredCode(w, h)
  {
    assert Store.CodeKey(h) == [1] + h.bytes;
  }

  // ---- going back ----

  /** Copies carry increasing ids below the next one. */
  ghost predicate IdsOk(r: Ref) {
    && (forall i :: 0 <= i < |r.copies| ==> r.copies[i].id < r.nextId)
    && (forall i, j :: 0 <= i < j < |r.copies| ==> r.copies[i].id < r.copies[j].id)
  }

  lemma StepIds(env: Env, r: Ref, call: Call)
    requires IdsOk(r)
    ensures IdsOk(Step(env, r, call).0) && Step(env, r, call).0.nextId >= r.nextId
  {
    hide Apply, Answers;
  }

  lemma {:induction false} RunIds(env: Env, r: Ref, calls: seq<Call>)
    requires IdsOk(r)
    ensures IdsOk(Run(env, r, calls).0)
    decreases |calls|
  {
    hide Step, IdsOk;
    if calls != [] {
      StepIds(env, r, calls[0]);
      RunIds(env, Step(env, r, calls[0]).0, calls[1..]);
    }
  }

  lemma FindId(copies: seq<Copy>, n: nat, id: int)
    requires n < |copies| && copies[n].id == id
    requires forall i, j :: 0 <= i < j < |copies| ==> copies[i].id < copies[j].id
    ensures Find(copies, id) == n
  {
    var k := Find(copies, id);
    assert k < |copies|;
    assert !(k < n) && !(n < k);
  }

  /** Calls that do not go back to the given id or an earlier one leave its copy and all earlier ones in place. */
  lemma StepKeepsCopies(env: Env, r: Ref, call: Call, n: nat)
    requires IdsOk(r) && n < |r.copies| && (call.RevertToSnapshot? ==> call.revid > r.copies[n].id)
    ensures var r' := Step(env, r, call).0; n < |r'.copies| && r'.copies[..n + 1] == r.copies[..n + 1]
  {
    hide Apply, Answers;
    if call.RevertToSnapshot? {
      var i := Find(r.copies, call.revid);
      if i < |r.copies| {
        assert !(i < n) && i != n;
        assert r.copies[..i][..n + 1] == r.copies[..n + 1];
      }
    }
  }

  lemma {:induction false} RunKeepsCopies(env: Env, r: Ref, calls: seq<Call>, n: nat)
    requires IdsOk(r) && n < |r.copies|
    requires forall i :: 0 <= i < |calls| && calls[i].RevertToSnapshot? ==> calls[i].revid > r.copies[n].id
    ensures var r' := Run(env, r, calls).0; n < |r'.copies| && r'.copies[..n + 1] == r.copies[..n + 1]
    decreases |calls|
  {
    hide Step, IdsOk;
    if calls != [] {
      StepKeepsCopies(env, r, calls[0], n);
      StepIds(env, r, calls[0]);
      var r1 := Step(env, r, calls[0]).0;
      assert r1.copies[n] == r1.copies[..n + 1][n] == r.copies[..n + 1][n];
      RunKeepsCopies(env, r1, calls[1..], n);
    }
  }

  /**
   * Going back undoes everything: after a snapshot and any calls that do not go back to it or before it, reverting to
   * it is possible and leaves the state and the earlier snapshots as they were. Snapshot ids are never used twice.
   */
  lemma SnapshotRestores(env: Env, r: Ref, calls: seq<Call>)
    requires IdsOk(r)
    requires forall i :: 0 <= i < |calls| && calls[i].RevertToSnapshot? ==> calls[i].revid > r.nextId
    ensures var r2 := Run(env, After(env, r, Snapshot), calls).0;
            var (r3, answer) := Step(env, r2, RevertToSnapshot(r.nextId));
            && Ask(env, r, Snapshot) == Number(r.nextId)
            && answer == Done && r3.core == r.core && r3.copies == r.copies && r3.nextId > r.nextId
  {
    hide Run, Apply, Answers, IdsOk;
    var n := |r.copies|;
    var r1 := After(env, r, Snapshot);
    StepIds(env, r, Snapshot);
    assert r1.copies == r.copies + [Copy(r.nextId, r.core)];
    hide Step;
    RunKeepsCopies(env, r1, calls, n);
    RunIds(env, r1, calls);
    NextGrows(env, r1, calls);
    var r2 := Run(env, r1, calls).0;
    assert r2.copies[n] == r2.copies[..n + 1][n] == r1.copies[..n + 1][n];
    IdsIncrease(r2);
    FindId(r2.copies, n, r.nextId);
    assert r2.copies[..n] == r2.copies[..n + 1][..n] == r.copies;
    Reverts(env, r2, r.nextId, n);
  }

  /** A revision can be gone back to exactly when it is among the copies, and then all from it on are gone for good. */
  lemma RevertLaw(env: Env, r: Ref, id: int)
    requires IdsOk(r)
    ensures var (r', answer) := Step(env, r, RevertToSnapshot(id));
            && answer == (if exists i :: 0 <= i < |r.copies| && r.copies[i].id == id then Done else Panic)
            && (answer == Panic ==> r' == r)
            && (answer == Done ==> forall i :: 0 <= i < |r'.copies| ==> r'.copies[i].id < id < r'.nextId)
    ensures id >= r.nextId ==> Step(env, r, RevertToSnapshot(id)).1 == Panic
  {
    hide Apply, Answers;
    var n := Find(r.copies, id);
    if n < |r.copies| {
      assert r.copies[n].id == id;
    }
  }

  lemma Reverts(env: Env, r: Ref, id: int, n: nat)
    requires Find(r.copies, id) == n < |r.copies|
    ensures Step(env, r, RevertToSnapshot(id)) == (Ref(r.copies[n].core, r.copies[..n], r.nextId), Done)
  {
  }

  lemma IdsIncrease(r: Ref)
    requires IdsOk(r)
    ensures forall i, j :: 0 <= i < j < |r.copies| ==> r.copies[i].id < r.copies[j].id
  {
  }

  lemma {:induction false} NextGrows(env: Env, r: Ref, calls: seq<Call>)
    ensures Run(env, r, calls).0.nextId >= r.nextId
    decreases |calls|
  {
    hide Apply, Answers;
    if calls != [] {
      NextGrows(env, Step(env, r, calls[0]).0, calls[1..]);
    }
  }
}
