/** The life of a key-generation or signing request: admitted under a per-account nonce, kept in
    a pending database, moved to the general database once it is decided. */
module Lifecycle {
  import opened Common

  datatype Kind = KeyGen | Sign

  /** What the request key hashes: the kind, the account, the nonce, and the remaining fields. */
  datatype Key = Key(kind: Kind, account: string, nonce: nat, detail: string)

  datatype NodeReply = NodeReply(enode: string, status: string, time: int, initiator: string)

  /** The fields of a request record; `result` is the public key, or the signature. */
  datatype Record = Record(initiator: string, deal: string, accept: string, status: string, result: string,
                           tip: string, error: string, allReply: seq<NodeReply>, workID: int, sigs: string)

  /** Arguments of an update: an empty string, no replies or a negative worker keeps the old field. */
  datatype Update = Update(initiator: string, deal: string, accept: string, status: string, result: string,
                           tip: string, error: string, allReply: Option<seq<NodeReply>>, workID: int, sigs: string)

  datatype DbKey = Request(key: Key) | LatestNonce(kind: Kind, account: string)

  datatype Value = Rec(rec: Record) | NonceValue(nonce: nat)

  /** The pending databases, one per kind, and the general database. */
  datatype Db = Db(pending: map<Key, Record>, general: map<DbKey, Value>)

  const EMPTY: Db := Db(map[], map[])

  const PENDING := "Pending"

  /** Which database calls of a decision succeed. A failed read looks like a missing record. */
  datatype Faults = Faults(readGeneral: bool, readPending: bool, delete: bool, put: bool)

  const NO_FAULTS := Faults(true, true, true, true)

  /** Which reads of an admission succeed. */
  datatype Reads = Reads(pending: bool, nonce: bool)

  // ---------------------------------------------------------------- operations

  /** `GetReqAddrNonce`, `GetSignNonce`: the nonce the next request of an account must carry. */
  function NextNonce(db: Db, kind: Kind, account: string): (r: Option<nat>)
  {
    var k := LatestNonce(kind, account);
    if k !in db.general then Some(0)
    else if db.general[k].NonceValue? then Some(db.general[k].nonce + 1)
    else None
  }

  /** The nonce as an admission reads it: a failed read gives the first one. */
  function ReadNonce(db: Db, kind: Kind, account: string, ok: bool): Option<nat> {
    if ok then NextNonce(db, kind, account) else Some(0)
  }

  datatype StartResult = Started | AlreadyExists | BadNonce | NonceNotStored | NoGroupSigs | NotSaved

  datatype StartOutcome = StartOutcome(db: Db, result: StartResult)

  /** Admission of a request; the nonce is stored before the later failures can happen. */
  function Start(db: Db, key: Key, rec: Record, read: Reads, nonceStored: bool, sigsOk: bool, saved: bool): StartOutcome
  {
    if read.pending && key in db.pending then StartOutcome(db, AlreadyExists)
    else if ReadNonce(db, key.kind, key.account, read.nonce) != Some(key.nonce) then StartOutcome(db, BadNonce)
    else if !nonceStored then StartOutcome(db, NonceNotStored)
    else
      var db1 := db.(general := db.general[LatestNonce(key.kind, key.account) := NonceValue(key.nonce)]);
      if key.kind == KeyGen && !sigsOk then StartOutcome(db1, NoGroupSigs)
      else if !saved then StartOutcome(db1, NotSaved)
      else StartOutcome(db1.(pending := db1.pending[key := rec.(status := PENDING)]), Started)
  }

  function Merge(rec: Record, u: Update): Record {
    Record(
      if u.initiator != "" then u.initiator else rec.initiator,
      if u.deal != "" then u.deal else rec.deal,
      if u.accept != "" then u.accept else rec.accept,
      if u.status != "" then u.status else rec.status,
      if u.result != "" then u.result else rec.result,
      if u.tip != "" then u.tip else rec.tip,
      if u.error != "" then u.error else rec.error,
      if u.allReply.Some? then u.allReply.value else rec.allReply,
      if u.workID >= 0 then u.workID else rec.workID,
      if u.sigs != "" then u.sigs else rec.sigs)
  }

  const KEEP := Update("", "", "", "", "", "", "", None, -1, "")

  /** One update after another, as one. */
  function Then(u: Update, v: Update): Update {
    Update(
      if v.initiator != "" then v.initiator else u.initiator,
      if v.deal != "" then v.deal else u.deal,
      if v.accept != "" then v.accept else u.accept,
      if v.status != "" then v.status else u.status,
      if v.result != "" then v.result else u.result,
      if v.tip != "" then v.tip else u.tip,
      if v.error != "" then v.error else u.error,
      if v.allReply.Some? then v.allReply else u.allReply,
      if v.workID >= 0 then v.workID else u.workID,
      if v.sigs != "" then v.sigs else u.sigs)
  }

  /** A text that is given becomes the field; where none is given, the field is kept. */
  lemma MergeTakesGiven(rec: Record, u: Update)
    ensures var m := Merge(rec, u);
            && (m.initiator == if |u.initiator| > 0 then u.initiator else rec.initiator)
            && (m.deal == if |u.deal| > 0 then u.deal else rec.deal)
            && (m.accept == if |u.accept| > 0 then u.accept else rec.accept)
            && (m.status == if |u.status| > 0 then u.status else rec.status)
            && (m.result == if |u.result| > 0 then u.result else rec.result)
            && (m.tip == if |u.tip| > 0 then u.tip else rec.tip)
            && (m.error == if |u.error| > 0 then u.error else rec.error)
            && (u.allReply.Some? ==> m.allReply == u.allReply.value)
            && (u.allReply.None? ==> m.allReply == rec.allReply)
            && (m.workID == if u.workID >= 0 then u.workID else rec.workID)
            && (m.sigs == if |u.sigs| > 0 then u.sigs else rec.sigs)
  {
  }

  /** Updates can be combined, repeating one changes nothing, an empty one keeps the record, and a
      pending record is decided exactly by an update with another status. */
  lemma MergeLaws(rec: Record, u: Update, v: Update)
    ensures Merge(Merge(rec, u), v) == Merge(rec, Then(u, v))
    ensures Merge(Merge(rec, u), u) == Merge(rec, u)
    ensures Merge(rec, KEEP) == rec
    ensures rec.status == PENDING ==> (Merge(rec, u).status != PENDING <==> u.status != "" && u.status != PENDING)
  {
  }

  /** The record in the general database is final. */
  predicate Processed(db: Db, key: Key) {
    && Request(key) in db.general && db.general[Request(key)].Rec?
    && var rec := db.general[Request(key)].rec;
       rec.status != PENDING || (key.kind == Sign && rec.result != "")
  }

  datatype AcceptOutcome = AcceptOutcome(db: Db, ok: bool)

  /** `AcceptReqAddr`, `AcceptSign`. */
  function Accept(db: Db, key: Key, u: Update, faults: Faults): AcceptOutcome {
    if faults.readGeneral && Processed(db, key) then AcceptOutcome(db, true)
    else if !faults.readPending || key !in db.pending then AcceptOutcome(db, false)
    else
      var rec := Merge(db.pending[key], u);
      if rec.status != PENDING then
        if !faults.delete then AcceptOutcome(db, false)
        else if !faults.put then AcceptOutcome(db.(pending := db.pending - {key}), false)
        else AcceptOutcome(Db(db.pending - {key}, db.general[Request(key) := Rec(rec)]), true)
      else if !faults.put then AcceptOutcome(db, false)
      else AcceptOutcome(db.(pending := db.pending[key := rec]), true)
  }

  /** One record of `CleanUpAllReqAddrInfo`, `CleanUpAllSignInfo`. */
  function CleanUpOne(db: Db, key: Key, faults: Faults): Db {
    if key !in db.pending || !faults.readPending || !faults.delete then db
    else
      var rec := db.pending[key].(status := "Timeout");
      if !faults.put then db.(pending := db.pending - {key})
      else Db(db.pending - {key}, db.general[Request(key) := Rec(rec)])
  }

  /** The startup cleanup, visiting the keys of one pending database in the order `keys`. */
  function CleanUp(db: Db, keys: seq<Key>, faults: Key -> Faults): Db {
    if keys == [] then db
    else CleanUpOne(CleanUp(db, keys[..|keys| - 1], faults), keys[|keys| - 1], faults(keys[|keys| - 1]))
  }

  // ----------------------------------------------------------------------- runs

  datatype Step =
    | Begin(key: Key, rec: Record, read: Reads, nonceStored: bool, sigsOk: bool, saved: bool)
    | Decide(key: Key, update: Update, faults: Faults)
    | Restart(keys: seq<Key>, cleanupFaults: Key -> Faults)

  /** A database with what has happened to it: the requests whose nonce was accepted and the
      requests that were saved, in order. */
  datatype History = History(db: Db, accepted: seq<Key>, saved: seq<Key>)

  predicate NonceTaken(r: StartResult) {
    r == Started || r == NoGroupSigs || r == NotSaved
  }

  function Next(h: History, step: Step): History {
    match step
    case Begin(key, rec, read, nonceStored, sigsOk, saved) =>
      var out := Start(h.db, key, rec, read, nonceStored, sigsOk, saved);
      History(out.db,
              if NonceTaken(out.result) then h.accepted + [key] else h.accepted,
              if out.result == Started then h.saved + [key] else h.saved)
    case Decide(key, update, faults) => h.(db := Accept(h.db, key, update, faults).db)
    case Restart(keys, faults) => h.(db := CleanUp(h.db, keys, faults))
  }

  function Run(h: History, steps: seq<Step>): History {
    if steps == [] then h else Next(Run(h, steps[..|steps| - 1]), steps[|steps| - 1])
  }

  const START := History(EMPTY, [], [])

  /** The nonce of an account that has one cannot be read, and the request carries the first nonce:
      the nonce is accepted a second time. */
  predicate Replays(db: Db, step: Step) {
    && step.Begin? && !step.read.nonce && step.key.nonce == 0 && step.nonceStored
    && LatestNonce(step.key.kind, step.key.account) in db.general
    && !(step.read.pending && step.key in db.pending)
  }

  /** No admission of the run replays a nonce. */
  predicate NoReplay(h: History, steps: seq<Step>) {
    forall m :: 0 <= m < |steps| ==> !Replays(Run(h, steps[..m]).db, steps[m])
  }

  // ------------------------------------------------------------------ invariants

  predicate SameAccount(a: Key, b: Key) {
    a.kind == b.kind && a.account == b.account
  }

  /** How many requests of the account of `key` are in `keys`. */
  function CountAccount(keys: seq<Key>, key: Key): nat {
    if keys == [] then 0
    else CountAccount(keys[..|keys| - 1], key) + (if SameAccount(keys[|keys| - 1], key) then 1 else 0)
  }

  /** The accepted nonces of each account are 0, 1, 2, ... in this order. */
  ghost predicate Consecutive(accepted: seq<Key>) {
    forall i :: 0 <= i < |accepted| ==> accepted[i].nonce == CountAccount(accepted[..i], accepted[i])
  }

  /** The stored nonce is the last accepted one. */
  ghost predicate NoncesStored(general: map<DbKey, Value>, accepted: seq<Key>) {
    forall key: Key ::
      NextNonce(Db(map[], general), key.kind, key.account) == Some(CountAccount(accepted, key))
  }

  ghost predicate PendingIsPending(pending: map<Key, Record>) {
    forall k :: k in pending ==> pending[k].status == PENDING
  }

  ghost predicate GeneralIsFinal(general: map<DbKey, Value>) {
    forall k :: Request(k) in general ==>
      general[Request(k)].Rec? && general[Request(k)].rec.status != PENDING
  }

  ghost predicate NeverInBoth(pending: map<Key, Record>, general: map<DbKey, Value>) {
    forall k :: k in pending ==> Request(k) !in general
  }

  /** Only saved requests are in a database, and only accepted ones are saved. */
  ghost predicate Known(db: Db, accepted: seq<Key>, saved: seq<Key>) {
    && (forall k :: k in db.pending ==> k in saved)
    && (forall k :: Request(k) in db.general ==> k in saved)
    && (forall k :: k in saved ==> k in accepted)
  }

  ghost predicate NoRepeats(keys: seq<Key>) {
    forall i, j :: 0 <= i < j < |keys| ==> keys[i] != keys[j]
  }

  ghost predicate Inv(h: History) {
    && Consecutive(h.accepted)
    && NoncesStored(h.db.general, h.accepted)
    && PendingIsPending(h.db.pending)
    && GeneralIsFinal(h.db.general)
    && NeverInBoth(h.db.pending, h.db.general)
    && Known(h.db, h.accepted, h.saved)
    && NoRepeats(h.saved)
  }

  // --------------------------------------------------------------------- nonces

  /** A request with the next nonce has not been accepted before. */
  lemma {:induction false} NextNonceIsFresh(accepted: seq<Key>, key: Key)
    requires Consecutive(accepted) && key.nonce == CountAccount(accepted, key)
    ensures key !in accepted
  {
    if key in accepted {
      var i :| 0 <= i < |accepted| && accepted[i] == key;
      CountMonotone(accepted, key, i);
    }
  }

  lemma {:induction false} CountMonotone(keys: seq<Key>, key: Key, i: nat)
    requires i < |keys| && SameAccount(keys[i], key)
    ensures CountAccount(keys[..i], key) < CountAccount(keys, key)
  {
    var last := |keys| - 1;
    if i < last {
      CountMonotone(keys[..last], key, i);
      assert keys[..last][..i] == keys[..i];
    }
  }

  lemma AcceptNonce(general: map<DbKey, Value>, accepted: seq<Key>, key: Key)
    requires Consecutive(accepted) && NoncesStored(general, accepted)
    requires NextNonce(Db(map[], general), key.kind, key.account) == Some(key.nonce)
    ensures key !in accepted
    ensures Consecutive(accepted + [key])
    ensures NoncesStored(general[LatestNonce(key.kind, key.account) := NonceValue(key.nonce)], accepted + [key])
  {
    NextNonceIsFresh(accepted, key);
    var accepted' := accepted + [key];
    assert accepted'[..|accepted|] == accepted;
    forall i | 0 <= i < |accepted'|
      ensures accepted'[i].nonce == CountAccount(accepted'[..i], accepted'[i])
    {
      assert i < |accepted| ==> accepted'[..i] == accepted[..i];
    }
  }

  /** Changing request records leaves the stored nonces alone. */
  lemma RecordsKeepNonces(general: map<DbKey, Value>, accepted: seq<Key>, key: Key, rec: Record)
    requires NoncesStored(general, accepted)
    ensures NoncesStored(general[Request(key) := Rec(rec)], accepted)
  {
    var general' := general[Request(key) := Rec(rec)];
    forall k: Key
      ensures NextNonce(Db(map[], general'), k.kind, k.account) == Some(CountAccount(accepted, k))
    {
      assert NextNonce(Db(map[], general), k.kind, k.account) == Some(CountAccount(accepted, k));
    }
  }

  // ------------------------------------------------------------ one step at a time

  /** An admission that does not replay finds what a good read would have found. */
  lemma ReadsAsStored(h: History, step: Step)
    requires step.Begin? && !Replays(h.db, step)
    requires NonceTaken(Start(h.db, step.key, step.rec, step.read, step.nonceStored, step.sigsOk, step.saved).result)
    ensures NextNonce(h.db, step.key.kind, step.key.account) == Some(step.key.nonce)
  {
  }

  lemma BeginKeepsInv(h: History, step: Step)
    requires Inv(h) && step.Begin? && !Replays(h.db, step)
    ensures Inv(Next(h, step))
  {
    hide Consecutive, NoncesStored, Replays;
    var out := Start(h.db, step.key, step.rec, step.read, step.nonceStored, step.sigsOk, step.saved);
    if NonceTaken(out.result) {
      ReadsAsStored(h, step);
      AcceptNonce(h.db.general, h.accepted, step.key);
      assert step.key !in h.saved;
    }
  }

  /** A replayed nonce breaks the sequence. */
  lemma ReplayBreaksInv(h: History, step: Step)
    requires Inv(h) && Replays(h.db, step)
    ensures !Inv(Next(h, step))
  {
    hide PendingIsPending, GeneralIsFinal, NeverInBoth, Known, NoRepeats;
    var key := step.key;
    var accepted' := Next(h, step).accepted;
    assert accepted' == h.accepted + [key];
    assert accepted'[..|h.accepted|] == h.accepted;
    assert NextNonce(Db(map[], h.db.general), key.kind, key.account) == Some(CountAccount(h.accepted, key));
    assert CountAccount(accepted'[..|h.accepted|], accepted'[|h.accepted|]) > 0;
  }

  lemma MoveKeepsInv(h: History, key: Key, rec: Record, put: bool)
    requires Inv(h) && key in h.db.pending && rec.status != PENDING
    ensures var general := if put then h.db.general[Request(key) := Rec(rec)] else h.db.general;
            Inv(h.(db := Db(h.db.pending - {key}, general)))
  {
    hide Consecutive, NoncesStored, CountAccount;
    RecordsKeepNonces(h.db.general, h.accepted, key, rec);
  }

  lemma DecideKeepsInv(h: History, key: Key, u: Update, faults: Faults)
    requires Inv(h)
    ensures Inv(Next(h, Decide(key, u, faults)))
  {
    hide Consecutive, NoncesStored, CountAccount;
    if key in h.db.pending {
      var rec := Merge(h.db.pending[key], u);
      if rec.status != PENDING {
        MoveKeepsInv(h, key, rec, faults.put);
      }
    }
  }

  lemma {:induction false} CleanUpKeepsInv(h: History, keys: seq<Key>, faults: Key -> Faults)
    requires Inv(h)
    ensures Inv(h.(db := CleanUp(h.db, keys, faults)))
  {
    hide Inv;
    if keys != [] {
      var last := |keys| - 1;
      CleanUpKeepsInv(h, keys[..last], faults);
      CleanUpOneKeepsInv(h.(db := CleanUp(h.db, keys[..last], faults)), keys[last], faults(keys[last]));
    }
  }

  lemma CleanUpOneKeepsInv(h: History, key: Key, faults: Faults)
    requires Inv(h)
    ensures Inv(h.(db := CleanUpOne(h.db, key, faults)))
  {
    hide Inv;
    if key in h.db.pending && faults.readPending && faults.delete {
      MoveKeepsInv(h, key, h.db.pending[key].(status := "Timeout"), faults.put);
    }
  }

  /** Every step keeps the invariant, if and only if it does not replay a nonce. */
  lemma NextKeepsInv(h: History, step: Step)
    requires Inv(h)
    ensures Inv(Next(h, step)) <==> !Replays(h.db, step)
  {
    match step
    case Begin(_, _, _, _, _, _) =>
      if Replays(h.db, step) {
        ReplayBreaksInv(h, step);
      } else {
        BeginKeepsInv(h, step);
      }
    case Decide(key, u, faults) => DecideKeepsInv(h, key, u, faults);
    case Restart(keys, faults) => CleanUpKeepsInv(h, keys, faults);
  }

  /** The invariant holds at every time of the run. */
  ghost predicate AlwaysInv(h: History, steps: seq<Step>) {
    forall m :: 0 <= m <= |steps| ==> Inv(Run(h, steps[..m]))
  }

  lemma AlwaysInvSplit(h: History, steps: seq<Step>)
    requires steps != []
    ensures AlwaysInv(h, steps) <==> AlwaysInv(h, steps[..|steps| - 1]) && Inv(Run(h, steps))
  {
    hide Inv, Run;
    var n := |steps| - 1;
    var before := steps[..n];
    assert forall m :: 0 <= m <= n ==> before[..m] == steps[..m];
    assert steps[..|steps|] == steps;
  }

  lemma NoReplaySplit(h: History, steps: seq<Step>)
    requires steps != []
    ensures var before := steps[..|steps| - 1];
            NoReplay(h, steps) <==> NoReplay(h, before) && !Replays(Run(h, before).db, steps[|steps| - 1])
  {
    hide Replays, Run;
    var n := |steps| - 1;
    var before := steps[..n];
    assert forall m :: 0 <= m <= n ==> before[..m] == steps[..m];
  }

  lemma AlwaysAtEnd(h: History, steps: seq<Step>)
    requires AlwaysInv(h, steps)
    ensures Inv(Run(h, steps))
  {
    hide Inv, Run;
    assert steps[..|steps|] == steps;
  }

  lemma {:induction false} AlwaysInvIff(h: History, steps: seq<Step>)
    requires Inv(h)
    ensures AlwaysInv(h, steps) <==> NoReplay(h, steps)
  {
    hide Inv, Next, Replays;
    if steps == [] {
      assert forall m :: 0 <= m <= |steps| ==> steps[..m] == [];
    } else {
      hide AlwaysInv, NoReplay;
      var before := steps[..|steps| - 1];
      AlwaysInvIff(h, before);
      AlwaysInvSplit(h, steps);
      NoReplaySplit(h, steps);
      if NoReplay(h, before) {
        AlwaysAtEnd(h, before);
        NextKeepsInv(Run(h, before), steps[|steps| - 1]);
      }
    }
  }

  /** At every time of a run, with any storage failures: nonces are accepted consecutively from 0,
      each request is saved at most once, no key is in both databases, and exactly the pending
      records have status Pending, if and only if no admission replays a nonce. */
  lemma EveryRunKeepsInv(steps: seq<Step>)
    ensures AlwaysInv(START, steps) <==> NoReplay(START, steps)
  {
    assert Inv(START);
    AlwaysInvIff(START, steps);
  }

  /** A request with nonce 0 is decided; then its nonce cannot be read, and the same request is
      admitted again: it is saved twice, and is pending although it is decided. */
  lemma ReplayExample(account: string, detail: string, rec: Record)
    ensures var key := Key(KeyGen, account, 0, detail);
            var failed := KEEP.(status := "Failure");
            var steps := [Begin(key, rec, Reads(true, true), true, true, true), Decide(key, failed, NO_FAULTS),
                          Begin(key, rec, Reads(true, false), true, true, true)];
            var h := Run(START, steps);
            && h.saved == [key, key] && key in h.db.pending && Request(key) in h.db.general && !Inv(h)
  {
    hide Inv;
    var key := Key(KeyGen, account, 0, detail);
    var s1 := Begin(key, rec, Reads(true, true), true, true, true);
    var s2 := Decide(key, KEEP.(status := "Failure"), NO_FAULTS);
    var s3 := Begin(key, rec, Reads(true, false), true, true, true);
    var steps := [s1, s2, s3];
    assert steps[..2] == [s1, s2] && steps[..2][..1] == [s1] && [s1][..0] == [];
    var h1 := Next(START, s1);
    var h2 := Next(h1, s2);
    assert Run(START, [s1]) == h1 && Run(START, [s1, s2]) == h2;
    InBothIsBad(Next(h2, s3), key);
  }

  lemma InBothIsBad(h: History, key: Key)
    requires key in h.db.pending && Request(key) in h.db.general
    ensures !Inv(h)
  {
  }

  // ------------------------------------------------------------- decided is decided

  /** The request was saved once and has left the pending database. */
  ghost predicate Closed(h: History, key: Key) {
    key in h.saved && key !in h.db.pending
  }

  ghost predicate SameGeneral(before: Db, after: Db, key: Key) {
    && (Request(key) in after.general <==> Request(key) in before.general)
    && (Request(key) in before.general ==> after.general[Request(key)] == before.general[Request(key)])
  }

  lemma NextKeepsClosed(h: History, step: Step, key: Key)
    requires Inv(h) && Closed(h, key) && !Replays(h.db, step)
    ensures Closed(Next(h, step), key) && SameGeneral(h.db, Next(h, step).db, key)
  {
    hide CountAccount;
    if step.Begin? {
      BeginKeepsClosed(h, step, key);
    }
    if step.Restart? {
      CleanUpKeepsClosed(h.db, step.keys, step.cleanupFaults, key);
    }
  }

  /** A saved request cannot be admitted again. */
  lemma BeginKeepsClosed(h: History, step: Step, key: Key)
    requires Inv(h) && Closed(h, key) && step.Begin? && !Replays(h.db, step)
    ensures Closed(Next(h, step), key) && SameGeneral(h.db, Next(h, step).db, key)
  {
    hide Consecutive, NoncesStored, CountAccount, Replays;
    var out := Start(h.db, step.key, step.rec, step.read, step.nonceStored, step.sigsOk, step.saved);
    if NonceTaken(out.result) {
      ReadsAsStored(h, step);
      AcceptNonce(h.db.general, h.accepted, step.key);
    }
  }

  lemma {:induction false} CleanUpKeepsClosed(db: Db, keys: seq<Key>, faults: Key -> Faults, key: Key)
    requires key !in db.pending
    ensures var db' := CleanUp(db, keys, faults);
            key !in db'.pending && SameGeneral(db, db', key)
  {
    if keys != [] {
      CleanUpKeepsClosed(db, keys[..|keys| - 1], faults, key);
    }
  }

  lemma RunKeepsInv(h: History, steps: seq<Step>)
    requires Inv(h) && NoReplay(h, steps)
    ensures Inv(Run(h, steps))
  {
    hide Inv, NoReplay;
    AlwaysInvIff(h, steps);
    assert steps[..|steps|] == steps;
  }

  /** A request that has left the pending database stays as it is for ever: whatever follows in
      the run, no request, decision or restart brings it back or changes its record. */
  lemma {:induction false} ClosedForEver(h: History, steps: seq<Step>, key: Key)
    requires Inv(h) && Closed(h, key) && NoReplay(h, steps)
    ensures Closed(Run(h, steps), key) && SameGeneral(h.db, Run(h, steps).db, key)
  {
    if steps != [] {
      hide Inv, Next, Replays, NoReplay;
      var before := steps[..|steps| - 1];
      NoReplaySplit(h, steps);
      RunKeepsInv(h, before);
      ClosedForEver(h, before, key);
      NextKeepsClosed(Run(h, before), steps[|steps| - 1], key);
    }
  }

  lemma DecidedIsClosed(h: History, key: Key)
    requires Inv(h) && Request(key) in h.db.general
    ensures Closed(h, key)
  {
    hide Consecutive, NoncesStored, CountAccount;
  }

  /** A record in the general database never changes. */
  lemma DecidedNeverChanges(h: History, steps: seq<Step>, key: Key)
    requires Inv(h) && Request(key) in h.db.general && NoReplay(h, steps)
    ensures var h' := Run(h, steps);
            Request(key) in h'.db.general && h'.db.general[Request(key)] == h.db.general[Request(key)]
  {
    hide Inv, NoReplay;
    DecidedIsClosed(h, key);
    ClosedForEver(h, steps, key);
  }

  /** A decision on a request that is already decided changes nothing, and reports success unless
      the record cannot be read; on one that was never saved it is an error. */
  lemma LateDecision(h: History, key: Key, u: Update, faults: Faults)
    requires Inv(h)
    ensures Request(key) in h.db.general ==> Accept(h.db, key, u, faults) == AcceptOutcome(h.db, faults.readGeneral)
    ensures key !in h.saved ==> Accept(h.db, key, u, faults) == AcceptOutcome(h.db, false)
  {
    hide Consecutive, NoncesStored, CountAccount;
  }

  /** In any database: a request whose record in the general database can be read and is final, or carries a signature,
      is left as it is and success is reported; with a pending record there, or none, the decision goes on. */
  lemma AlreadyDecided(db: Db, key: Key, u: Update, faults: Faults, rec: Record)
    requires Request(key) in db.general && db.general[Request(key)] == Rec(rec) && faults.readGeneral
    ensures rec.status != "Pending" || (key.kind == Sign && |rec.result| > 0) ==>
              Accept(db, key, u, faults) == AcceptOutcome(db, true)
    ensures !(rec.status != "Pending" || (key.kind == Sign && |rec.result| > 0)) ==>
              Accept(db, key, u, faults) == Accept(db, key, u, faults.(readGeneral := false))
  {
  }

  // -------------------------------------------------------------------- restart

  function TimedOut(rec: Record): Record { rec.(status := "Timeout") }

  /** The record is read and deleted. */
  predicate Leaves(f: Faults) { f.readPending && f.delete }

  /** The record is read, deleted and stored again. */
  predicate Moves(f: Faults) { Leaves(f) && f.put }

  /** The cleanup stores a timeout under this key. */
  predicate Stored(db: Db, keys: seq<Key>, faults: Key -> Faults, d: DbKey) {
    d.Request? && d.key in keys && d.key in db.pending && Moves(faults(d.key))
  }

  predicate PendingAfter(db: Db, keys: seq<Key>, faults: Key -> Faults, pending: map<Key, Record>, k: Key) {
    && (k in pending <==> k in db.pending && !(k in keys && Leaves(faults(k))))
    && (k in pending ==> pending[k] == db.pending[k])
  }

  predicate GeneralAfter(db: Db, keys: seq<Key>, faults: Key -> Faults, general: map<DbKey, Value>, d: DbKey) {
    if Stored(db, keys, faults, d) then d in general && general[d] == Rec(TimedOut(db.pending[d.key]))
    else (d in general <==> d in db.general) && (d in general ==> general[d] == db.general[d])
  }

  /** What a cleanup does with failing calls: a visited pending request stays if it cannot be read
      or deleted, becomes a timeout with all other fields kept if all calls succeed, and is gone if
      only storing it fails; nothing else changes. */
  ghost predicate CleanedUp(db: Db, keys: seq<Key>, faults: Key -> Faults, db': Db) {
    && (forall k :: PendingAfter(db, keys, faults, db'.pending, k))
    && (forall d :: GeneralAfter(db, keys, faults, db'.general, d))
  }

  lemma CleanUpOneMore(db: Db, keys: seq<Key>, faults: Key -> Faults, db': Db, key: Key)
    requires CleanedUp(db, keys, faults, db')
    ensures CleanedUp(db, keys + [key], faults, CleanUpOne(db', key, faults(key)))
  {
    var all, db'' := keys + [key], CleanUpOne(db', key, faults(key));
    assert PendingAfter(db, keys, faults, db'.pending, key);
    forall k
      ensures PendingAfter(db, all, faults, db''.pending, k)
    {
      assert PendingAfter(db, keys, faults, db'.pending, k);
      assert k in all <==> k in keys || k == key;
    }
    forall d
      ensures GeneralAfter(db, all, faults, db''.general, d)
    {
      assert GeneralAfter(db, keys, faults, db'.general, d);
      if d.Request? {
        assert d.key in all <==> d.key in keys || d.key == key;
      }
    }
  }

  /** The effect of the startup cleanup, for every database and all storage failures. */
  lemma {:induction false} CleanUpEffect(db: Db, keys: seq<Key>, faults: Key -> Faults)
    ensures CleanedUp(db, keys, faults, CleanUp(db, keys, faults))
  {
    if keys != [] {
      hide CleanedUp;
      var last := |keys| - 1;
      CleanUpEffect(db, keys[..last], faults);
      CleanUpOneMore(db, keys[..last], faults, CleanUp(db, keys[..last], faults), keys[last]);
      assert keys == keys[..last] + [keys[last]];
    }
  }

  /** Exactly the visited pending requests have left the pending database; they are in the general
      database as timeouts, with all other fields kept, and nothing else has changed. */
  ghost predicate TimedOutExactly(db: Db, keys: seq<Key>, db': Db) {
    && (forall k :: k in db'.pending <==> k in db.pending && k !in keys)
    && (forall k :: k in db'.pending ==> db'.pending[k] == db.pending[k])
    && (forall d :: d in db'.general <==> d in db.general || (d.Request? && d.key in keys && d.key in db.pending))
    && (forall d :: d in db.general ==> db'.general[d] == db.general[d])
    && (forall k :: k in keys && k in db.pending ==> db'.general[Request(k)] == Rec(TimedOut(db.pending[k])))
  }

  lemma AllMoved(db: Db, keys: seq<Key>, faults: Key -> Faults, db': Db)
    requires NeverInBoth(db.pending, db.general) && CleanedUp(db, keys, faults, db')
    requires forall k :: k in keys && k in db.pending ==> Moves(faults(k))
    ensures TimedOutExactly(db, keys, db')
  {
    forall k: Key
      ensures k in db'.pending <==> k in db.pending && k !in keys
      ensures k in db'.pending ==> db'.pending[k] == db.pending[k]
    {
      assert PendingAfter(db, keys, faults, db'.pending, k);
    }
    forall d: DbKey
      ensures d in db'.general <==> d in db.general || (d.Request? && d.key in keys && d.key in db.pending)
      ensures d in db.general ==> db'.general[d] == db.general[d]
      ensures d.Request? && d.key in keys && d.key in db.pending ==> db'.general[d] == Rec(TimedOut(db.pending[d.key]))
    {
      assert GeneralAfter(db, keys, faults, db'.general, d);
    }
  }

  /** The startup cleanup turns exactly the pending requests it visits into timeouts, if and only if
      no call on one of them fails. */
  lemma CleanUpTimesOutPending(db: Db, keys: seq<Key>, faults: Key -> Faults)
    requires NeverInBoth(db.pending, db.general)
    ensures TimedOutExactly(db, keys, CleanUp(db, keys, faults))
            <==> forall k :: k in keys && k in db.pending ==> Moves(faults(k))
  {
    hide CleanUp;
    CleanUpEffect(db, keys, faults);
    var db' := CleanUp(db, keys, faults);
    forall k | k in keys && k in db.pending && !Moves(faults(k))
      ensures !TimedOutExactly(db, keys, db')
    {
      assert PendingAfter(db, keys, faults, db'.pending, k);
      assert GeneralAfter(db, keys, faults, db'.general, Request(k));
    }
    if forall k :: k in keys && k in db.pending ==> Moves(faults(k)) {
      AllMoved(db, keys, faults, db');
    }
  }

  /** One pending request: if it cannot be deleted it stays pending, and if only storing it fails
      it is in neither database. */
  lemma CleanUpFails(key: Key, rec: Record)
    ensures CleanUp(Db(map[key := rec], map[]), [key], _ => Faults(true, true, false, true))
            == Db(map[key := rec], map[])
    ensures CleanUp(Db(map[key := rec], map[]), [key], _ => Faults(true, true, true, false)) == EMPTY
  {
    assert [key][..0] == [];
    assert map[key := rec] - {key} == map[];
  }

  // ------------------------------------------------------------- lost requests

  /** Every saved request is in one of the two databases. */
  ghost predicate Conserved(db: Db, saved: seq<Key>) {
    forall k :: k in saved ==> k in db.pending || Request(k) in db.general
  }

  ghost predicate PendingIsSaved(db: Db, saved: seq<Key>) {
    forall k :: k in db.pending ==> k in saved
  }

  /** The record is deleted from the pending database, but storing it fails. */
  predicate Drops(f: Faults) { Leaves(f) && !f.put }

  /** A pending request is deleted by a decision, or by the cleanup of a restart, and cannot be
      stored in the general database, which does not have it. */
  ghost predicate Loses(db: Db, step: Step) {
    match step
    case Begin(_, _, _, _, _, _) => false
    case Decide(key, u, faults) =>
      && !(faults.readGeneral && Processed(db, key))
      && key in db.pending && Merge(db.pending[key], u).status != PENDING && Drops(faults)
      && Request(key) !in db.general
    case Restart(keys, faults) =>
      exists k :: k in keys && k in db.pending && Drops(faults(k)) && Request(k) !in db.general
  }

  lemma RestartConservesIff(h: History, step: Step)
    requires Conserved(h.db, h.saved) && PendingIsSaved(h.db, h.saved) && step.Restart?
    ensures Conserved(Next(h, step).db, h.saved) <==> !Loses(h.db, step)
    ensures PendingIsSaved(Next(h, step).db, h.saved)
  {
    hide CleanUp;
    CleanUpEffect(h.db, step.keys, step.cleanupFaults);
    var db' := Next(h, step).db;
    forall k | k in db'.pending
      ensures k in h.saved
    {
      assert PendingAfter(h.db, step.keys, step.cleanupFaults, db'.pending, k);
    }
    forall k | k in h.saved && k !in db'.pending && Request(k) !in db'.general
      ensures Loses(h.db, step)
    {
      assert PendingAfter(h.db, step.keys, step.cleanupFaults, db'.pending, k);
      assert GeneralAfter(h.db, step.keys, step.cleanupFaults, db'.general, Request(k));
    }
    if Loses(h.db, step) {
      var k :| k in step.keys && k in h.db.pending && Drops(step.cleanupFaults(k)) && Request(k) !in h.db.general;
      assert PendingAfter(h.db, step.keys, step.cleanupFaults, db'.pending, k);
      assert GeneralAfter(h.db, step.keys, step.cleanupFaults, db'.general, Request(k));
      assert k in h.saved && k !in db'.pending && Request(k) !in db'.general;
    }
  }

  /** A step keeps every saved request if and only if it does not lose one. */
  lemma NextConservesIff(h: History, step: Step)
    requires Conserved(h.db, h.saved) && PendingIsSaved(h.db, h.saved)
    ensures var h' := Next(h, step);
            && PendingIsSaved(h'.db, h'.saved)
            && (Conserved(h'.db, h'.saved) <==> !Loses(h.db, step))
  {
    match step
    case Begin(_, _, _, _, _, _) =>
    case Decide(key, _, _) =>
      if Loses(h.db, step) {
        assert key in h.saved && key !in Next(h, step).db.pending;
      }
    case Restart(_, _) => RestartConservesIff(h, step);
  }

  ghost predicate NothingLost(h: History) { Conserved(h.db, h.saved) }

  ghost predicate AlwaysConserved(h: History, steps: seq<Step>) {
    forall m :: 0 <= m <= |steps| ==> NothingLost(Run(h, steps[..m]))
  }

  ghost predicate NeverLoses(h: History, steps: seq<Step>) {
    forall m :: 0 <= m < |steps| ==> !Loses(Run(h, steps[..m]).db, steps[m])
  }

  lemma AlwaysConservedSplit(h: History, steps: seq<Step>)
    requires steps != []
    ensures AlwaysConserved(h, steps)
            <==> AlwaysConserved(h, steps[..|steps| - 1]) && NothingLost(Run(h, steps))
  {
    hide NothingLost, Run;
    var n := |steps| - 1;
    var before := steps[..n];
    assert forall m :: 0 <= m <= n ==> before[..m] == steps[..m];
    assert steps[..|steps|] == steps;
  }

  lemma NeverLosesSplit(h: History, steps: seq<Step>)
    requires steps != []
    ensures var before := steps[..|steps| - 1];
            NeverLoses(h, steps) <==> NeverLoses(h, before) && !Loses(Run(h, before).db, steps[|steps| - 1])
  {
    hide Loses, Run;
    var n := |steps| - 1;
    var before := steps[..n];
    assert forall m :: 0 <= m <= n ==> before[..m] == steps[..m];
  }

  lemma ConservedAtEnd(h: History, steps: seq<Step>)
    requires AlwaysConserved(h, steps)
    ensures NothingLost(Run(h, steps))
  {
    hide NothingLost, Run;
    assert steps[..|steps|] == steps;
  }

  lemma {:induction false} ConservedIff(h: History, steps: seq<Step>)
    requires Conserved(h.db, h.saved) && PendingIsSaved(h.db, h.saved)
    ensures AlwaysConserved(h, steps) <==> NeverLoses(h, steps)
    ensures NeverLoses(h, steps) ==> PendingIsSaved(Run(h, steps).db, Run(h, steps).saved)
  {
    hide Conserved, PendingIsSaved, Next, Loses;
    if steps == [] {
      assert forall m :: 0 <= m <= |steps| ==> steps[..m] == [];
    } else {
      hide AlwaysConserved, NeverLoses;
      var before := steps[..|steps| - 1];
      ConservedIff(h, before);
      AlwaysConservedSplit(h, steps);
      NeverLosesSplit(h, steps);
      if NeverLoses(h, before) {
        ConservedAtEnd(h, before);
        NextConservesIff(Run(h, before), steps[|steps| - 1]);
      }
    }
  }

  /** At every time of a run, with any storage failures, every saved request is pending or decided,
      if and only if no decision and no restart loses one. */
  lemma NoRequestIsLost(steps: seq<Step>)
    ensures AlwaysConserved(START, steps) <==> NeverLoses(START, steps)
  {
    ConservedIff(START, steps);
  }

  /** A request is saved and decided; the record is deleted from the pending database, and storing
      it in the general database fails. */
  lemma LostExample(account: string, detail: string, rec: Record)
    ensures var key := Key(KeyGen, account, 0, detail);
            var steps := [Begin(key, rec, Reads(true, true), true, true, true),
                          Decide(key, KEEP.(status := "Success"), Faults(true, true, true, false))];
            var h := Run(START, steps);
            && key in h.saved && key !in h.db.pending && Request(key) !in h.db.general
            && !Conserved(h.db, h.saved)
  {
    var key := Key(KeyGen, account, 0, detail);
    var s1 := Begin(key, rec, Reads(true, true), true, true, true);
    var s2 := Decide(key, KEEP.(status := "Success"), Faults(true, true, true, false));
    var steps := [s1, s2];
    assert steps[..1] == [s1] && [s1][..0] == [];
    var h1 := Next(START, s1);
    assert Run(START, [s1]) == h1;
    assert "Success"[0] != PENDING[0];
    assert key in Next(h1, s2).saved;
  }

  // ------------------------------------------------------------------ admission

  /** The nonce that a request must carry: one more than the last, or 0 if there is none or it cannot be
      read. */
  predicate NonceFits(db: Db, key: Key, ok: bool) {
    var k := LatestNonce(key.kind, key.account);
    if ok && k in db.general then db.general[k].NonceValue? && key.nonce == db.general[k].nonce + 1 else key.nonce == 0
  }

  /** Exactly the requests that are not pending, carry the right nonce, have their group signatures and can
      be stored are admitted; an admitted one is pending with the fields it came with, and its nonce is
      the last one. */
  lemma AdmittedIff(db: Db, key: Key, rec: Record, read: Reads, nonceStored: bool, sigsOk: bool, saved: bool)
    ensures var out := Start(db, key, rec, read, nonceStored, sigsOk, saved);
            && (out.result == Started <==>
                 && !(read.pending && key in db.pending) && NonceFits(db, key, read.nonce) && nonceStored
                 && (key.kind == KeyGen ==> sigsOk) && saved)
            && (out.result == Started ==>
                 && out.db.pending == db.pending[key := out.db.pending[key]]
                 && out.db.pending[key] == rec.(status := "Pending"))
            && (out.result != Started ==> out.db.pending == db.pending)
            && (if NonceTaken(out.result)
                then out.db.general == db.general[LatestNonce(key.kind, key.account) := NonceValue(key.nonce)]
                else out.db == db)
  {
  }

  /** In a run a request is saved exactly when it is admitted so, and it is then pending as it came. */
  lemma SavedIff(h: History, step: Step)
    requires step.Begin?
    ensures var key, h' := step.key, Next(h, step);
            var admitted :=
              && !(step.read.pending && key in h.db.pending) && NonceFits(h.db, key, step.read.nonce)
              && step.nonceStored && (key.kind == KeyGen ==> step.sigsOk) && step.saved;
            && h'.saved == (if admitted then h.saved + [key] else h.saved)
            && h'.db.pending == (if admitted then h.db.pending[key := step.rec.(status := "Pending")] else h.db.pending)
  {
    hide Start, NonceFits, NonceTaken;
    AdmittedIff(h.db, step.key, step.rec, step.read, step.nonceStored, step.sigsOk, step.saved);
  }

  // ------------------------------------------------------ what a record says

  /** The decision takes effect: the request is pending and found, and the calls it makes succeed. */
  predicate TakesEffect(db: Db, key: Key, u: Update, faults: Faults) {
    && key in db.pending && faults.readPending && faults.put
    && !(faults.readGeneral && Processed(db, key))
    && (Merge(db.pending[key], u).status != PENDING ==> faults.delete)
  }

  /** What a step does to the record of a pending request. */
  function UpdateBy(db: Db, step: Step, key: Key): Update {
    if step.Decide? && step.key == key && TakesEffect(db, key, step.update, step.faults) then step.update
    else if step.Restart? && key in step.keys && key in db.pending && Moves(step.cleanupFaults(key)) then
      KEEP.(status := "Timeout")
    else KEEP
  }

  /** All updates of a request in a run, as one: the later texts win. */
  function UpdatesIn(h: History, steps: seq<Step>, key: Key): Update {
    if steps == [] then KEEP
    else
      var before := steps[..|steps| - 1];
      Then(UpdatesIn(h, before, key), UpdateBy(Run(h, before).db, steps[|steps| - 1], key))
  }

  /** The record of the request, wherever it is, is `rec`. */
  ghost predicate Says(db: Db, key: Key, rec: Record) {
    && (key in db.pending ==> db.pending[key] == rec)
    && (Request(key) in db.general ==> db.general[Request(key)] == Rec(rec))
  }

  /** A decision that takes effect writes the merged record, into the general database if its status is
      final and back into the pending one if not. */
  lemma DecisionIsStored(h: History, key: Key, u: Update, faults: Faults)
    requires Inv(h) && TakesEffect(h.db, key, u, faults)
    ensures var rec, h' := Merge(h.db.pending[key], u), Next(h, Decide(key, u, faults));
            && (if rec.status == PENDING then key in h'.db.pending && h'.db.pending[key] == rec
                else key !in h'.db.pending && Request(key) in h'.db.general && h'.db.general[Request(key)] == Rec(rec))
            && Says(h'.db, key, rec)
  {
    hide Consecutive, NoncesStored, CountAccount, Merge;
  }

  /** A request decided with a final status and a result r is in the general database with that status
      and result; fields the decision does not name are those of the pending record. */
  lemma ResultIsStored(h: History, key: Key, u: Update, faults: Faults)
    requires Inv(h) && TakesEffect(h.db, key, u, faults) && u.status != "" && u.status != PENDING && u.result != ""
    ensures var rec, h' := h.db.pending[key], Next(h, Decide(key, u, faults));
            && Request(key) in h'.db.general && h'.db.general[Request(key)].Rec?
            && var stored := h'.db.general[Request(key)].rec;
            && stored.status == u.status && stored.result == u.result
            && (u.initiator == "" ==> stored.initiator == rec.initiator) && (u.sigs == "" ==> stored.sigs == rec.sigs)
            && (u.allReply.None? ==> stored.allReply == rec.allReply)
  {
    hide Inv, Next, Merge;
    DecisionIsStored(h, key, u, faults);
    MergeTakesGiven(h.db.pending[key], u);
  }

  /** Any other step leaves the record of a pending request alone, or loses it. */
  lemma StepUpdates(h: History, step: Step, key: Key)
    requires Inv(h) && key in h.db.pending && !Replays(h.db, step)
    ensures Says(Next(h, step).db, key, Merge(h.db.pending[key], UpdateBy(h.db, step, key)))
  {
    hide Consecutive, NoncesStored, CountAccount;
    MergeLaws(h.db.pending[key], KEEP, KEEP);
    match step
    case Begin(_, _, _, _, _, _) => BeginKeepsRecord(h, step, key);
    case Decide(k, u, faults) =>
      if k == key && TakesEffect(h.db, key, u, faults) {
        DecisionIsStored(h, key, u, faults);
      }
    case Restart(keys, faults) =>
      CleanUpEffect(h.db, keys, faults);
      assert PendingAfter(h.db, keys, faults, Next(h, step).db.pending, key);
      assert GeneralAfter(h.db, keys, faults, Next(h, step).db.general, Request(key));
  }

  lemma BeginKeepsRecord(h: History, step: Step, key: Key)
    requires Inv(h) && key in h.db.pending && step.Begin? && !Replays(h.db, step)
    ensures Says(Next(h, step).db, key, h.db.pending[key])
  {
    hide Consecutive, NoncesStored, CountAccount, Replays;
    var out := Start(h.db, step.key, step.rec, step.read, step.nonceStored, step.sigsOk, step.saved);
    if NonceTaken(out.result) {
      ReadsAsStored(h, step);
      AcceptNonce(h.db.general, h.accepted, step.key);
      assert key in h.saved && key in h.accepted && step.key != key;
    }
  }

  /** The record of a saved request, in whichever database it is, is at every time of a run the record it
      had with all its updates since merged in, in their order: a field that no update names is as it was, and
      one that is named has the text named last. */
  lemma {:induction false} RecordIsMerged(h: History, steps: seq<Step>, key: Key)
    requires Inv(h) && key in h.db.pending && NoReplay(h, steps)
    ensures Says(Run(h, steps).db, key, Merge(h.db.pending[key], UpdatesIn(h, steps, key)))
  {
    hide Inv, Next, Replays, NoReplay, Merge, Then, UpdateBy, Says;
    if steps == [] {
      PendingSays(h, key);
      MergeLaws(h.db.pending[key], KEEP, KEEP);
    } else {
      var before, last := steps[..|steps| - 1], steps[|steps| - 1];
      NoReplaySplit(h, steps);
      RunKeepsInv(h, before);
      RecordIsMerged(h, before, key);
      SavedPending(h, before, key);
      var h1, u1 := Run(h, before), UpdatesIn(h, before, key);
      var u2 := UpdateBy(h1.db, last, key);
      MergeLaws(h.db.pending[key], u1, u2);
      if key in h1.db.pending {
        PendingRecord(h1.db, key, Merge(h.db.pending[key], u1));
        StepUpdates(h1, last, key);
      } else {
        NextKeepsClosed(h1, last, key);
        NotPendingKeeps(h1, last, key, Merge(h.db.pending[key], u1));
        MergeLaws(Merge(h.db.pending[key], u1), KEEP, KEEP);
      }
    }
  }

  lemma PendingSays(h: History, key: Key)
    requires Inv(h) && key in h.db.pending
    ensures Says(h.db, key, h.db.pending[key])
  {
    hide Consecutive, NoncesStored;
  }

  lemma PendingRecord(db: Db, key: Key, rec: Record)
    requires Says(db, key, rec) && key in db.pending
    ensures db.pending[key] == rec
  {
  }

  lemma SavedPending(h: History, steps: seq<Step>, key: Key)
    requires Inv(h) && key in h.db.pending && NoReplay(h, steps)
    ensures key in Run(h, steps).saved
  {
    hide Consecutive, NoncesStored, NoReplay, Replays;
    assert key in h.saved;
    SavedStays(h, steps, key);
  }

  lemma {:induction false} SavedStays(h: History, steps: seq<Step>, key: Key)
    requires key in h.saved
    ensures key in Run(h, steps).saved
  {
    if steps != [] {
      SavedStays(h, steps[..|steps| - 1], key);
    }
  }

  lemma NotPendingKeeps(h: History, step: Step, key: Key, rec: Record)
    requires key !in h.db.pending && Says(h.db, key, rec) && Closed(Next(h, step), key)
    requires SameGeneral(h.db, Next(h, step).db, key)
    ensures UpdateBy(h.db, step, key) == KEEP && Says(Next(h, step).db, key, rec)
  {
  }

  // ------------------------------------------------------------ the databases in place

  /** The field-by-field merge of the accept functions. */
  method MergeFields(rec: Record, u: Update) returns (r: Record)
    ensures r == Merge(rec, u)
  {
    var initiator, deal, accept, status, result := rec.initiator, rec.deal, rec.accept, rec.status, rec.result;
    var tip, error, allReply, workID, sigs := rec.tip, rec.error, rec.allReply, rec.workID, rec.sigs;
    if u.initiator != "" { initiator := u.initiator; }
    if u.deal != "" { deal := u.deal; }
    if u.accept != "" { accept := u.accept; }
    if u.result != "" { result := u.result; }
    if u.tip != "" { tip := u.tip; }
    if u.error != "" { error := u.error; }
    if u.status != "" { status := u.status; }
    if u.allReply.Some? { allReply := u.allReply.value; }
    if u.workID >= 0 { workID := u.workID; }
    if u.sigs != "" { sigs := u.sigs; }
    r := Record(initiator, deal, accept, status, result, tip, error, allReply, workID, sigs);
  }

  class Store {
    var pending: map<Key, Record>
    var general: map<DbKey, Value>

    function Contents(): Db
      reads this
    {
      Db(pending, general)
    }

    constructor ()
      ensures Contents() == EMPTY
    {
      pending, general := map[], map[];
    }

    /** The keygen branch of `DoReq` and `DoSign`, up to the saved record. */
    method StartRequest(key: Key, rec: Record, read: Reads, nonceStored: bool, sigsOk: bool, saved: bool)
      returns (r: StartResult)
      modifies this
      ensures StartOutcome(Contents(), r) == Start(old(Contents()), key, rec, read, nonceStored, sigsOk, saved)
    {
      if read.pending && key in pending {
        return AlreadyExists;
      }
      var latest := LatestNonce(key.kind, key.account);
      var current := 0;
      if read.nonce && latest in general {
        if !general[latest].NonceValue? {
          return BadNonce;
        }
        current := general[latest].nonce + 1;
      }
      if current != key.nonce {
        return BadNonce;
      }
      if !nonceStored {
        return NonceNotStored;
      }
      general := general[latest := NonceValue(key.nonce)];
      if key.kind == KeyGen && !sigsOk {
        return NoGroupSigs;
      }
      if !saved {
        return NotSaved;
      }
      pending := pending[key := rec.(status := PENDING)];
      return Started;
    }

    /** Read the record, merge it field by field, and put it back or move it. */
    method AcceptRequest(key: Key, u: Update, faults: Faults) returns (ok: bool)
      modifies this
      ensures AcceptOutcome(Contents(), ok) == Accept(old(Contents()), key, u, faults)
    {
      if faults.readGeneral && Processed(Contents(), key) {
        return true;
      }
      if !faults.readPending || key !in pending {
        return false;
      }
      var rec := MergeFields(pending[key], u);
      if rec.status != PENDING {
        if !faults.delete {
          return false;
        }
        pending := pending - {key};
        if !faults.put {
          return false;
        }
        general := general[Request(key) := Rec(rec)];
      } else {
        if !faults.put {
          return false;
        }
        pending := pending[key := rec];
      }
      return true;
    }

    /** The startup cleanup of one pending database. */
    method CleanUpAll(keys: seq<Key>, faults: Key -> Faults)
      modifies this
      ensures Contents() == CleanUp(old(Contents()), keys, faults)
    {
      assert keys[..0] == [];
      var i := 0;
      while i < |keys|
        invariant 0 <= i <= |keys|
        invariant Contents() == CleanUp(old(Contents()), keys[..i], faults)
      {
        assert keys[..i + 1][..i] == keys[..i];
        var key := keys[i];
        if key in pending && faults(key).readPending && faults(key).delete {
          var rec := pending[key].(status := "Timeout");
          pending := pending - {key};
          if faults(key).put {
            general := general[Request(key) := Rec(rec)];
          }
        }
        i := i + 1;
      }
      assert keys[..i] == keys;
    }
  }
}
