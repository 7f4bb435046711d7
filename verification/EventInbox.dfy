/**
 * At-least-once deliveries, one effect: the inbox protocol as interleaved database transactions.
 *
 * A transaction claims the unique key of its delivery, advances the version row of the aggregate when
 * only the latest state matters, runs the effect and commits. What it wrote is invisible to the others
 * until it commits, and a row it wrote makes every other transaction that wants the same row wait.
 */
module EventInbox {
  import opened Results

  datatype Aggregate = Aggregate(kind: string, id: string, version: int)

  datatype Ordering = EveryEvent | LatestState

  datatype Delivery = Delivery(consumer: string, eventKey: string, aggregate: Option<Aggregate>, ordering: Ordering)

  datatype Outcome = Applied | Duplicate | Stale(lastVersion: int)

  /** Primary key of an inbox row. */
  datatype Key = Key(consumer: string, eventKey: string)

  /** Primary key of a row of aggregate versions. */
  datatype Row = Row(consumer: string, kind: string, id: string)

  /** A committed transaction. */
  datatype Entry = Entry(delivery: Delivery, outcome: Outcome)

  /** Committed tables, and the history of committed transactions; the effects are the applied entries. */
  datatype Store = Store(inbox: map<Key, Outcome>, versions: map<Row, int>, log: seq<Entry>)

  /** How far a transaction has come. */
  datatype Phase =
    | Begun
    | Claimed
    | Advanced
    | Finished(outcome: Outcome)
    | Failed(claimed: bool, advanced: bool)

  datatype Tx = Tx(delivery: Delivery, phase: Phase)

  datatype State = State(store: Store, txs: map<nat, Tx>)

  datatype Action =
    | Begin(id: nat, delivery: Delivery)
    | Reject(id: nat)
    | Claim(id: nat)
    | Advance(id: nat)
    | Effect(id: nat, succeeds: bool)
    | Commit(id: nat)
    | Abort(id: nat)

  const EMPTY := Store(map[], map[], [])

  function Idle(store: Store): State {
    State(store, map[])
  }

  function KeyOf(delivery: Delivery): Key {
    Key(delivery.consumer, delivery.eventKey)
  }

  /** The effect must see versions in order, and the delivery says of which aggregate. */
  predicate Ordered(delivery: Delivery) {
    delivery.ordering.LatestState? && delivery.aggregate.Some?
  }

  /** The call that throws before it touches any table. */
  predicate Malformed(delivery: Delivery) {
    delivery.ordering.LatestState? && delivery.aggregate.None?
  }

  function RowOf(delivery: Delivery): Row
    requires Ordered(delivery)
  {
    Row(delivery.consumer, delivery.aggregate.value.kind, delivery.aggregate.value.id)
  }

  function VersionOf(delivery: Delivery): int
    requires Ordered(delivery)
  {
    delivery.aggregate.value.version
  }

  /** The delivery is of an event to a consumer. */
  predicate HasKey(delivery: Delivery, key: Key) {
    delivery.consumer == key.consumer && delivery.eventKey == key.eventKey
  }

  /** The delivery is ordered and of an aggregate to a consumer. */
  predicate IsFor(delivery: Delivery, row: Row) {
    && delivery.ordering.LatestState? && delivery.aggregate.Some?
    && delivery.consumer == row.consumer
    && delivery.aggregate.value.kind == row.kind && delivery.aggregate.value.id == row.id
  }

  predicate SameEvent(a: Delivery, b: Delivery) {
    a.consumer == b.consumer && a.eventKey == b.eventKey
  }

  /** Deliveries share an inbox row exactly if they are of one event to one consumer. */
  lemma KeysByFields(a: Delivery, b: Delivery)
    ensures KeyOf(a) == KeyOf(b) <==> a.consumer == b.consumer && a.eventKey == b.eventKey
    ensures forall key :: HasKey(a, key) <==> KeyOf(a) == key
  {
  }

  /** Ordered deliveries share a version row exactly if they are of one aggregate to one consumer. */
  lemma RowsByFields(a: Delivery, b: Delivery)
    requires Ordered(a) && Ordered(b)
    ensures RowOf(a) == RowOf(b) <==>
            && a.consumer == b.consumer
            && a.aggregate.value.kind == b.aggregate.value.kind && a.aggregate.value.id == b.aggregate.value.id
  {
  }

  // ---- what a transaction holds until it ends ----

  predicate HoldsKey(tx: Tx) {
    match tx.phase
    case Begun => false
    case Claimed => true
    case Advanced => true
    case Finished(outcome) => !outcome.Duplicate?
    case Failed(claimed, _) => claimed
  }

  /** The conditional upsert locks the version row also when it does not change it. */
  predicate HoldsRow(tx: Tx) {
    && Ordered(tx.delivery)
    && match tx.phase
       case Begun => false
       case Claimed => false
       case Advanced => true
       case Finished(outcome) => !outcome.Duplicate?
       case Failed(_, advanced) => advanced
  }

  predicate KeyBusy(s: State, id: nat, key: Key) {
    exists other :: other in s.txs && other != id && HoldsKey(s.txs[other]) && KeyOf(s.txs[other].delivery) == key
  }

  predicate RowBusy(s: State, id: nat, row: Row) {
    exists other :: other in s.txs && other != id && HoldsRow(s.txs[other]) && RowOf(s.txs[other].delivery) == row
  }

  // ---- one step ----

  predicate Enabled(s: State, a: Action) {
    match a
    case Begin(id, _) => id !in s.txs
    case Reject(id) => id in s.txs && s.txs[id].phase.Begun? && Malformed(s.txs[id].delivery)
    case Claim(id) =>
      && id in s.txs
      && s.txs[id].phase.Begun?
      && !Malformed(s.txs[id].delivery)
      && !KeyBusy(s, id, KeyOf(s.txs[id].delivery))
    case Advance(id) =>
      && id in s.txs
      && s.txs[id].phase.Claimed?
      && Ordered(s.txs[id].delivery)
      && !RowBusy(s, id, RowOf(s.txs[id].delivery))
    case Effect(id, _) =>
      && id in s.txs
      && (s.txs[id].phase.Advanced? || (s.txs[id].phase.Claimed? && !Ordered(s.txs[id].delivery)))
    case Commit(id) => id in s.txs && s.txs[id].phase.Finished?
    case Abort(id) => id in s.txs
  }

  function Next(s: State, a: Action): State
    requires Enabled(s, a)
  {
    match a
    case Begin(id, delivery) => s.(txs := s.txs[id := Tx(delivery, Begun)])
    case Reject(id) => Moved(s, id, Failed(false, false))
    case Claim(id) => Moved(s, id, AfterClaim(s.store, s.txs[id].delivery))
    case Advance(id) => Moved(s, id, AfterAdvance(s.store, s.txs[id].delivery))
    case Effect(id, succeeds) =>
      Moved(s, id, if succeeds then Finished(Applied) else Failed(true, s.txs[id].phase.Advanced?))
    case Commit(id) => State(Published(s.store, s.txs[id].delivery, s.txs[id].phase.outcome), s.txs - {id})
    case Abort(id) => s.(txs := s.txs - {id})
  }

  function Moved(s: State, id: nat, phase: Phase): State
    requires id in s.txs
  {
    s.(txs := s.txs[id := s.txs[id].(phase := phase)])
  }

  function AfterClaim(store: Store, delivery: Delivery): Phase {
    if KeyOf(delivery) in store.inbox then Finished(Duplicate) else Claimed
  }

  function AfterAdvance(store: Store, delivery: Delivery): Phase
    requires Ordered(delivery)
  {
    var row := RowOf(delivery);
    if row in store.versions && VersionOf(delivery) <= store.versions[row]
    then Finished(Stale(store.versions[row]))
    else Advanced
  }

  /** The tables once the writes of a finished transaction are visible. */
  function Published(store: Store, delivery: Delivery, outcome: Outcome): Store {
    Store(
      if outcome.Duplicate? then store.inbox else store.inbox[KeyOf(delivery) := outcome],
      if outcome.Applied? && Ordered(delivery)
      then store.versions[RowOf(delivery) := VersionOf(delivery)] else store.versions,
      store.log + [Entry(delivery, outcome)])
  }

  /** The state after a list of actions, if each is enabled when its turn comes. */
  function Execute(s: State, actions: seq<Action>): Option<State>
    decreases |actions|
  {
    if actions == [] then Some(s)
    else if Enabled(s, actions[0]) then Execute(Next(s, actions[0]), actions[1..])
    else None
  }

  // ---- what a history says ----

  /** Committed effects of a key. */
  function Effects(log: seq<Entry>, key: Key): nat {
    if log == [] then 0
    else
      var last := log[|log| - 1];
      Effects(log[..|log| - 1], key) + if last.outcome.Applied? && HasKey(last.delivery, key) then 1 else 0
  }

  /** Versions of the committed effects on an aggregate, in the order in which they were committed. */
  function AppliedTo(log: seq<Entry>, row: Row): seq<Delivery> {
    if log == [] then []
    else
      var last := log[|log| - 1];
      AppliedTo(log[..|log| - 1], row) +
        if last.outcome.Applied? && IsFor(last.delivery, row) then [last.delivery] else []
  }

  /** Some delivery of the key was committed. */
  predicate Delivered(log: seq<Entry>, key: Key) {
    exists i :: 0 <= i < |log| && HasKey(log[i].delivery, key)
  }

  /** Every delivery of the key that was committed asked for each distinct event to be applied. */
  predicate CountsEvery(log: seq<Entry>, key: Key) {
    forall i :: 0 <= i < |log| && HasKey(log[i].delivery, key) ==> log[i].delivery.ordering.EveryEvent?
  }

  /** A repeated key repeats the same event. */
  predicate Faithful(log: seq<Entry>) {
    forall i, j :: 0 <= i < |log| && 0 <= j < |log| && SameEvent(log[i].delivery, log[j].delivery) ==>
      log[i].delivery == log[j].delivery
  }

  /** The events of an aggregate that were committed, whatever their outcome. */
  function Committed(log: seq<Entry>, row: Row): set<Delivery> {
    set i | 0 <= i < |log| && IsFor(log[i].delivery, row) :: log[i].delivery
  }

  /** Those of them that were not repetitions: applied or discarded as stale. */
  function FirstSeen(log: seq<Entry>, row: Row): set<Delivery> {
    set i | 0 <= i < |log| && IsFor(log[i].delivery, row) && !log[i].outcome.Duplicate? :: log[i].delivery
  }

  // ---- invariants ----

  /** At most one transaction writes an inbox row, and none of those rows is committed. */
  ghost predicate KeysExclusive(s: State) {
    && (forall i :: i in s.txs && HoldsKey(s.txs[i]) ==> KeyOf(s.txs[i].delivery) !in s.store.inbox)
    && (forall i, j :: i in s.txs && j in s.txs && i != j && HoldsKey(s.txs[i]) && HoldsKey(s.txs[j]) ==>
          KeyOf(s.txs[i].delivery) != KeyOf(s.txs[j].delivery))
  }

  /** At most one transaction locks a version row. */
  ghost predicate RowsExclusive(s: State) {
    forall i, j :: i in s.txs && j in s.txs && i != j && HoldsRow(s.txs[i]) && HoldsRow(s.txs[j]) ==>
      RowOf(s.txs[i].delivery) != RowOf(s.txs[j].delivery)
  }

  ghost predicate Ahead(store: Store, delivery: Delivery)
    requires Ordered(delivery)
  {
    RowOf(delivery) in store.versions ==> store.versions[RowOf(delivery)] < VersionOf(delivery)
  }

  ghost predicate Behind(store: Store, delivery: Delivery, last: int)
    requires Ordered(delivery)
  {
    && RowOf(delivery) in store.versions
    && store.versions[RowOf(delivery)] == last
    && VersionOf(delivery) <= last
  }

  /** What a transaction has seen of the committed tables is still so. */
  ghost predicate Fresh(store: Store, tx: Tx) {
    match tx.phase
    case Begun => true
    case Claimed => !Malformed(tx.delivery)
    case Advanced => Ordered(tx.delivery) && Ahead(store, tx.delivery)
    case Finished(outcome) =>
      (match outcome
       case Applied => !Malformed(tx.delivery) && (Ordered(tx.delivery) ==> Ahead(store, tx.delivery))
       case Duplicate => !Malformed(tx.delivery) && KeyOf(tx.delivery) in store.inbox
       case Stale(last) => Ordered(tx.delivery) && Behind(store, tx.delivery, last))
    case Failed(_, _) => true
  }

  ghost predicate AllFresh(s: State) {
    forall i :: i in s.txs ==> Fresh(s.store, s.txs[i])
  }

  /** The inbox rows are the first committed deliveries of their keys, and each counts its effect once. */
  ghost predicate InboxMatches(store: Store) {
    && (forall key :: key in store.inbox ==> Recorded(store.log, key, store.inbox[key]))
    && (forall i :: 0 <= i < |store.log| ==> KeyOf(store.log[i].delivery) in store.inbox)
    && (forall key :: Effects(store.log, key) == if key in store.inbox && store.inbox[key].Applied? then 1 else 0)
  }

  ghost predicate Recorded(log: seq<Entry>, key: Key, outcome: Outcome) {
    && !outcome.Duplicate?
    && exists i :: 0 <= i < |log| && log[i].outcome == outcome && HasKey(log[i].delivery, key)
  }

  /** An entry that is not a repetition was well formed, and only an ordered one can be stale. */
  ghost predicate EntryOk(store: Store, entry: Entry) {
    && !Malformed(entry.delivery)
    && (entry.outcome.Stale? ==> Ordered(entry.delivery))
    && (!entry.outcome.Duplicate? && Ordered(entry.delivery) ==>
          RowOf(entry.delivery) in store.versions && VersionOf(entry.delivery) <= store.versions[RowOf(entry.delivery)])
  }

  ghost predicate EntriesOk(store: Store) {
    forall i :: 0 <= i < |store.log| ==> EntryOk(store, store.log[i])
  }

  ghost predicate Increasing(applied: seq<Delivery>) {
    && (forall i :: 0 <= i < |applied| ==> Ordered(applied[i]))
    && (forall i, j :: 0 <= i < j < |applied| ==>
          applied[i].aggregate.value.version < applied[j].aggregate.value.version)
  }

  /** The version row of an aggregate is the last of its effects, whose versions only grow. */
  ghost predicate VersionMatches(store: Store, row: Row) {
    var applied := AppliedTo(store.log, row);
    && Increasing(applied)
    && (row in store.versions <==> applied != [])
    && (applied != [] ==> store.versions[row] == VersionOf(applied[|applied| - 1]))
  }

  ghost predicate VersionsMatch(store: Store) {
    forall row :: VersionMatches(store, row)
  }

  ghost predicate Consistent(store: Store) {
    InboxMatches(store) && EntriesOk(store) && VersionsMatch(store)
  }

  ghost predicate Inv(s: State) {
    KeysExclusive(s) && RowsExclusive(s) && AllFresh(s) && Consistent(s.store)
  }

  // ---- every step keeps the invariants ----

  lemma MovedKeepsKeys(s: State, id: nat, phase: Phase)
    requires KeysExclusive(s) && id in s.txs
    requires HoldsKey(s.txs[id].(phase := phase)) && !HoldsKey(s.txs[id]) ==>
      KeyOf(s.txs[id].delivery) !in s.store.inbox && !KeyBusy(s, id, KeyOf(s.txs[id].delivery))
    ensures KeysExclusive(Moved(s, id, phase))
  {
  }

  lemma MovedKeepsRows(s: State, id: nat, phase: Phase)
    requires RowsExclusive(s) && id in s.txs
    requires HoldsRow(s.txs[id].(phase := phase)) && !HoldsRow(s.txs[id]) ==>
      !RowBusy(s, id, RowOf(s.txs[id].delivery))
    ensures RowsExclusive(Moved(s, id, phase))
  {
  }

  /** A transaction that takes no lock that is held can move on as long as what it has seen is true. */
  lemma MovedKeepsInv(s: State, id: nat, phase: Phase)
    requires Inv(s) && id in s.txs
    requires Fresh(s.store, s.txs[id].(phase := phase))
    requires HoldsKey(s.txs[id].(phase := phase)) && !HoldsKey(s.txs[id]) ==>
      KeyOf(s.txs[id].delivery) !in s.store.inbox && !KeyBusy(s, id, KeyOf(s.txs[id].delivery))
    requires HoldsRow(s.txs[id].(phase := phase)) && !HoldsRow(s.txs[id]) ==>
      !RowBusy(s, id, RowOf(s.txs[id].delivery))
    ensures Inv(Moved(s, id, phase))
  {
    MovedKeepsKeys(s, id, phase);
    MovedKeepsRows(s, id, phase);
    assert AllFresh(Moved(s, id, phase));
  }

  lemma RemovedKeepsInv(s: State, id: nat)
    requires Inv(s) && id in s.txs
    ensures Inv(s.(txs := s.txs - {id}))
  {
  }

  lemma PublishedRecords(store: Store, delivery: Delivery, outcome: Outcome, key: Key)
    requires InboxMatches(store)
    requires key in Published(store, delivery, outcome).inbox
    ensures Recorded(Published(store, delivery, outcome).log, key, Published(store, delivery, outcome).inbox[key])
  {
    var after := Published(store, delivery, outcome);
    if !outcome.Duplicate? && key == KeyOf(delivery) {
      assert after.log[|store.log|] == Entry(delivery, outcome);
    } else {
      assert Recorded(store.log, key, store.inbox[key]);
      var i :| 0 <= i < |store.log| && store.log[i].outcome == store.inbox[key] && HasKey(store.log[i].delivery, key);
      assert after.log[i] == store.log[i];
    }
  }

  lemma PublishedEffects(store: Store, delivery: Delivery, outcome: Outcome, key: Key)
    ensures Effects(Published(store, delivery, outcome).log, key) ==
            Effects(store.log, key) + if outcome.Applied? && KeyOf(delivery) == key then 1 else 0
  {
    assert Published(store, delivery, outcome).log[..|store.log|] == store.log;
  }

  lemma PublishedInbox(store: Store, delivery: Delivery, outcome: Outcome)
    requires InboxMatches(store)
    requires if outcome.Duplicate? then KeyOf(delivery) in store.inbox else KeyOf(delivery) !in store.inbox
    ensures InboxMatches(Published(store, delivery, outcome))
  {
    var after := Published(store, delivery, outcome);
    forall key | key in after.inbox
      ensures Recorded(after.log, key, after.inbox[key])
    {
      PublishedRecords(store, delivery, outcome, key);
    }
    forall key
      ensures Effects(after.log, key) == if key in after.inbox && after.inbox[key].Applied? then 1 else 0
    {
      PublishedEffects(store, delivery, outcome, key);
    }
  }

  lemma PublishedEntries(store: Store, delivery: Delivery, outcome: Outcome)
    requires EntriesOk(store)
    requires Fresh(store, Tx(delivery, Finished(outcome)))
    ensures EntriesOk(Published(store, delivery, outcome))
  {
    var after := Published(store, delivery, outcome);
    forall i | 0 <= i < |after.log|
      ensures EntryOk(after, after.log[i])
    {
      if i < |store.log| {
        assert EntryOk(store, store.log[i]);
      }
    }
  }

  lemma PublishedVersions(store: Store, delivery: Delivery, outcome: Outcome, row: Row)
    requires VersionMatches(store, row)
    requires Fresh(store, Tx(delivery, Finished(outcome)))
    ensures VersionMatches(Published(store, delivery, outcome), row)
  {
    var after := Published(store, delivery, outcome);
    assert after.log[..|store.log|] == store.log;
  }

  /** Committing one transaction changes nothing of what the others have seen. */
  lemma CommitKeepsFresh(s: State, id: nat, other: nat)
    requires Inv(s) && Enabled(s, Commit(id)) && other in s.txs && other != id
    ensures Fresh(Published(s.store, s.txs[id].delivery, s.txs[id].phase.outcome), s.txs[other])
  {
    assert Fresh(s.store, s.txs[id]) && Fresh(s.store, s.txs[other]);
  }

  lemma CommitKeepsConsistent(s: State, id: nat)
    requires Inv(s) && Enabled(s, Commit(id))
    ensures Consistent(Published(s.store, s.txs[id].delivery, s.txs[id].phase.outcome))
  {
    var tx := s.txs[id];
    assert Fresh(s.store, tx);
    PublishedInbox(s.store, tx.delivery, tx.phase.outcome);
    PublishedEntries(s.store, tx.delivery, tx.phase.outcome);
    forall row
      ensures VersionMatches(Published(s.store, tx.delivery, tx.phase.outcome), row)
    {
      PublishedVersions(s.store, tx.delivery, tx.phase.outcome, row);
    }
  }

  lemma CommitKeepsInv(s: State, id: nat)
    requires Inv(s) && Enabled(s, Commit(id))
    ensures Inv(Next(s, Commit(id)))
  {
    CommitKeepsConsistent(s, id);
    forall i | i in s.txs && i != id
      ensures Fresh(Published(s.store, s.txs[id].delivery, s.txs[id].phase.outcome), s.txs[i])
    {
      CommitKeepsFresh(s, id, i);
    }
  }

  lemma NextKeepsInv(s: State, a: Action)
    requires Inv(s) && Enabled(s, a)
    ensures Inv(Next(s, a))
  {
    match a
    case Begin(_, _) =>
    case Reject(id) => MovedKeepsInv(s, id, Failed(false, false));
    case Claim(id) => MovedKeepsInv(s, id, AfterClaim(s.store, s.txs[id].delivery));
    case Advance(id) =>
      assert Fresh(s.store, s.txs[id]);
      MovedKeepsInv(s, id, AfterAdvance(s.store, s.txs[id].delivery));
    case Effect(id, succeeds) =>
      assert Fresh(s.store, s.txs[id]);
      MovedKeepsInv(s, id, if succeeds then Finished(Applied) else Failed(true, s.txs[id].phase.Advanced?));
    case Commit(id) => CommitKeepsInv(s, id);
    case Abort(id) => RemovedKeepsInv(s, id);
  }

  /** Every state that can be reached from an idle consistent store keeps the invariants. */
  lemma {:induction false} ExecuteKeepsInv(s: State, actions: seq<Action>)
    requires Inv(s) && Execute(s, actions).Some?
    ensures Inv(Execute(s, actions).value)
    decreases |actions|
  {
    if actions == [] {
    } else {
      NextKeepsInv(s, actions[0]);
      ExecuteKeepsInv(Next(s, actions[0]), actions[1..]);
    }
  }

  lemma EmptyInv()
    ensures Inv(Idle(EMPTY))
  {
    assert Consistent(EMPTY);
  }

  // ---- one effect per event ----

  /**
   * However deliveries, repetitions, failing effects and aborted transactions interleave, a key has at
   * most one committed effect, and exactly one as soon as one of its deliveries is committed, provided
   * that all of them ask for every event.
   */
  lemma SingleEffect(actions: seq<Action>, key: Key)
    requires Execute(Idle(EMPTY), actions).Some?
    ensures var log := Execute(Idle(EMPTY), actions).value.store.log;
            && Effects(log, key) <= 1
            && (CountsEvery(log, key) ==> Effects(log, key) == if Delivered(log, key) then 1 else 0)
  {
    EmptyInv();
    ExecuteKeepsInv(Idle(EMPTY), actions);
    var store := Execute(Idle(EMPTY), actions).value.store;
    if CountsEvery(store.log, key) && key in store.inbox {
      assert Recorded(store.log, key, store.inbox[key]);
      var i :| 0 <= i < |store.log| && store.log[i].outcome == store.inbox[key] && HasKey(store.log[i].delivery, key);
      assert EntryOk(store, store.log[i]);
    }
  }

  lemma {:induction false} OneOfCount(log: seq<Entry>, key: Key, i: nat)
    requires i < |log| && log[i].outcome.Applied? && HasKey(log[i].delivery, key)
    ensures Effects(log, key) >= 1
    ensures forall j :: 0 <= j < |log| && j != i && log[j].outcome.Applied? && HasKey(log[j].delivery, key) ==>
              Effects(log, key) >= 2
    decreases |log|
  {
    var n := |log| - 1;
    if i < n {
      OneOfCount(log[..n], key, i);
    }
    forall j | 0 <= j < |log| && j != i && log[j].outcome.Applied? && HasKey(log[j].delivery, key)
      ensures Effects(log, key) >= 2
    {
      if j < n {
        OneOfCount(log[..n], key, j);
      }
    }
  }

  lemma {:induction false} CountHasOne(log: seq<Entry>, key: Key) returns (i: nat)
    requires Effects(log, key) >= 1
    ensures i < |log| && log[i].outcome.Applied? && HasKey(log[i].delivery, key)
    decreases |log|
  {
    i := |log| - 1;
    if !(log[i].outcome.Applied? && HasKey(log[i].delivery, key)) {
      i := CountHasOne(log[..i], key);
    }
  }

  predicate IsOf(entry: Entry, consumer: string, eventKey: string) {
    entry.delivery.consumer == consumer && entry.delivery.eventKey == eventKey
  }

  predicate AppliedFor(entry: Entry, consumer: string, eventKey: string) {
    entry.outcome.Applied? && IsOf(entry, consumer, eventKey)
  }

  predicate AtMostOne(log: seq<Entry>, consumer: string, eventKey: string) {
    forall i, j :: 0 <= i < j < |log| ==>
      !(AppliedFor(log[i], consumer, eventKey) && AppliedFor(log[j], consumer, eventKey))
  }

  predicate SomeOf(log: seq<Entry>, consumer: string, eventKey: string) {
    exists i :: 0 <= i < |log| && IsOf(log[i], consumer, eventKey)
  }

  predicate AllEveryEvent(log: seq<Entry>, consumer: string, eventKey: string) {
    forall i :: 0 <= i < |log| && IsOf(log[i], consumer, eventKey) ==> log[i].delivery.ordering.EveryEvent?
  }

  /**
   * The same by entries: of those of an event to a consumer at most one is applied; and one is, once any is
   * committed and all asked for every event. What another consumer gets is not among them.
   */
  lemma OneAppliedEntry(actions: seq<Action>, consumer: string, eventKey: string)
    requires Execute(Idle(EMPTY), actions).Some?
    ensures var log := Execute(Idle(EMPTY), actions).value.store.log;
            && AtMostOne(log, consumer, eventKey)
            && (SomeOf(log, consumer, eventKey) && AllEveryEvent(log, consumer, eventKey) ==>
                  exists i :: 0 <= i < |log| && AppliedFor(log[i], consumer, eventKey))
  {
    var log := Execute(Idle(EMPTY), actions).value.store.log;
    var key := Key(consumer, eventKey);
    SingleEffect(actions, key);
    forall i, j | 0 <= i < j < |log|
      ensures !(AppliedFor(log[i], consumer, eventKey) && AppliedFor(log[j], consumer, eventKey))
    {
      if AppliedFor(log[i], consumer, eventKey) {
        OneOfCount(log, key, i);
      }
    }
    if SomeOf(log, consumer, eventKey) && AllEveryEvent(log, consumer, eventKey) {
      assert Delivered(log, key) && CountsEvery(log, key);
      var i := CountHasOne(log, key);
      assert AppliedFor(log[i], consumer, eventKey);
    }
  }

  // ---- the latest state of an aggregate ----

  lemma CommittedRecorded(store: Store, row: Row, delivery: Delivery)
    requires Consistent(store) && Faithful(store.log)
    requires delivery in Committed(store.log, row)
    ensures row in store.versions && VersionOf(delivery) <= store.versions[row]
  {
    var i :| 0 <= i < |store.log| && IsFor(store.log[i].delivery, row) && store.log[i].delivery == delivery;
    var key := KeyOf(delivery);
    assert Recorded(store.log, key, store.inbox[key]);
    var j :| 0 <= j < |store.log| && store.log[j].outcome == store.inbox[key] && HasKey(store.log[j].delivery, key);
    assert store.log[j].delivery == delivery;
    assert EntryOk(store, store.log[j]);
  }

  lemma {:induction false} AppliedFirstSeen(log: seq<Entry>, row: Row, k: nat)
    requires k < |AppliedTo(log, row)|
    ensures AppliedTo(log, row)[k] in FirstSeen(log, row) && AppliedTo(log, row)[k] in Committed(log, row)
    decreases |log|
  {
    var n := |log| - 1;
    if k < |AppliedTo(log[..n], row)| {
      AppliedFirstSeen(log[..n], row, k);
      var i :| 0 <= i < n && IsFor(log[..n][i].delivery, row) && !log[..n][i].outcome.Duplicate? &&
               log[..n][i].delivery == AppliedTo(log, row)[k];
      assert log[i].delivery == AppliedTo(log, row)[k];
    } else {
      assert log[n].delivery == AppliedTo(log, row)[k];
    }
  }

  lemma FirstSeenBounded(store: Store, row: Row, delivery: Delivery)
    requires Consistent(store) && delivery in FirstSeen(store.log, row)
    ensures row in store.versions && VersionOf(delivery) <= store.versions[row]
  {
    var i :| 0 <= i < |store.log| && IsFor(store.log[i].delivery, row) && !store.log[i].outcome.Duplicate? &&
             store.log[i].delivery == delivery;
    assert EntryOk(store, store.log[i]);
  }

  /** The version is the largest of some events, and there is one exactly when there are events. */
  ghost predicate IsLargest(versions: map<Row, int>, row: Row, events: set<Delivery>) {
    && (forall d :: d in events ==> IsFor(d, row))
    && (row in versions <==> events != {})
    && (row in versions ==>
          && (exists d :: d in events && d.aggregate.value.version == versions[row])
          && (forall d :: d in events ==> d.aggregate.value.version <= versions[row]))
  }

  /**
   * The effects on an aggregate are committed in order of version, and the version row holds the largest
   * version of all its events that were committed first, those discarded as stale included. If a repeated
   * key always repeats its event, it is the largest of all its committed events.
   */
  lemma LatestStateOrder(actions: seq<Action>, row: Row)
    requires Execute(Idle(EMPTY), actions).Some?
    ensures var store := Execute(Idle(EMPTY), actions).value.store;
            && Increasing(AppliedTo(store.log, row))
            && IsLargest(store.versions, row, FirstSeen(store.log, row))
            && (Faithful(store.log) ==> IsLargest(store.versions, row, Committed(store.log, row)))
  {
    EmptyInv();
    ExecuteKeepsInv(Idle(EMPTY), actions);
    var store := Execute(Idle(EMPTY), actions).value.store;
    LargestFirstSeen(store, row);
    if Faithful(store.log) {
      LargestCommitted(store, row);
    }
  }

  lemma LargestFirstSeen(store: Store, row: Row)
    requires Consistent(store)
    ensures Increasing(AppliedTo(store.log, row)) && IsLargest(store.versions, row, FirstSeen(store.log, row))
  {
    var applied := AppliedTo(store.log, row);
    assert VersionMatches(store, row);
    if applied != [] {
      AppliedFirstSeen(store.log, row, |applied| - 1);
    }
    forall d | d in FirstSeen(store.log, row)
      ensures row in store.versions && VersionOf(d) <= store.versions[row]
    {
      FirstSeenBounded(store, row, d);
    }
  }

  lemma LargestCommitted(store: Store, row: Row)
    requires Consistent(store) && Faithful(store.log)
    ensures IsLargest(store.versions, row, Committed(store.log, row))
  {
    var applied := AppliedTo(store.log, row);
    assert VersionMatches(store, row);
    if applied != [] {
      AppliedFirstSeen(store.log, row, |applied| - 1);
    }
    forall d | d in Committed(store.log, row)
      ensures row in store.versions && VersionOf(d) <= store.versions[row]
    {
      CommittedRecorded(store, row, d);
    }
  }

  /** Different events of one aggregate carry different versions. */
  ghost predicate DistinctVersions(events: set<Delivery>, row: Row) {
    && (forall d :: d in events ==> IsFor(d, row))
    && (forall d, e :: d in events && e in events && d.aggregate.value.version == e.aggregate.value.version ==>
          d == e)
  }

  /** The event whose effect an aggregate shows. */
  function Shown(log: seq<Entry>, row: Row): Option<Delivery> {
    var applied := AppliedTo(log, row);
    if applied == [] then None else Some(applied[|applied| - 1])
  }

  /** Two histories that committed the same events of an aggregate, in any order, show the same event. */
  lemma Convergence(first: seq<Action>, second: seq<Action>, row: Row)
    requires Execute(Idle(EMPTY), first).Some? && Execute(Idle(EMPTY), second).Some?
    requires var log := Execute(Idle(EMPTY), first).value.store.log;
             var other := Execute(Idle(EMPTY), second).value.store.log;
             && Faithful(log) && Faithful(other)
             && Committed(log, row) == Committed(other, row)
             && DistinctVersions(Committed(log, row), row)
    ensures Shown(Execute(Idle(EMPTY), first).value.store.log, row) ==
            Shown(Execute(Idle(EMPTY), second).value.store.log, row)
  {
    LatestStateOrder(first, row);
    LatestStateOrder(second, row);
    ShownIsLast(first, row);
    ShownIsLast(second, row);
  }

  lemma ShownIsLast(actions: seq<Action>, row: Row)
    requires Execute(Idle(EMPTY), actions).Some?
    ensures var store := Execute(Idle(EMPTY), actions).value.store;
            && (Shown(store.log, row).Some? <==> row in store.versions)
            && (row in store.versions ==>
                  && Shown(store.log, row).value in Committed(store.log, row)
                  && Ordered(Shown(store.log, row).value)
                  && VersionOf(Shown(store.log, row).value) == store.versions[row])
  {
    EmptyInv();
    ExecuteKeepsInv(Idle(EMPTY), actions);
    var store := Execute(Idle(EMPTY), actions).value.store;
    var applied := AppliedTo(store.log, row);
    assert VersionMatches(store, row);
    if applied != [] {
      AppliedFirstSeen(store.log, row, |applied| - 1);
    }
  }

  // ---- no deadlock ----

  /** The next statement of a transaction whose effect works. */
  function StepOf(s: State, id: nat): Action
    requires id in s.txs
  {
    var tx := s.txs[id];
    match tx.phase
    case Begun => if Malformed(tx.delivery) then Reject(id) else Claim(id)
    case Claimed => if Ordered(tx.delivery) then Advance(id) else Effect(id, true)
    case Advanced => Effect(id, true)
    case Finished(_) => Commit(id)
    case Failed(_, _) => Abort(id)
  }

  function StepsLeft(phase: Phase): nat {
    match phase
    case Begun => 4
    case Claimed => 3
    case Advanced => 2
    case Finished(_) => 1
    case Failed(_, _) => 1
  }

  /** Nobody holds what the transaction still has to take. */
  ghost predicate Clear(s: State, id: nat)
    requires id in s.txs
  {
    var tx := s.txs[id];
    && (tx.phase.Begun? ==> !KeyBusy(s, id, KeyOf(tx.delivery)))
    && ((tx.phase.Begun? || tx.phase.Claimed?) && Ordered(tx.delivery) ==> !RowBusy(s, id, RowOf(tx.delivery)))
  }

  lemma ClearSteps(s: State, id: nat)
    requires id in s.txs && Clear(s, id)
    ensures Enabled(s, StepOf(s, id))
    ensures var after := Next(s, StepOf(s, id));
            if StepsLeft(s.txs[id].phase) == 1 then after.txs == s.txs - {id}
            else
              && after.txs.Keys == s.txs.Keys
              && Clear(after, id)
              && StepsLeft(after.txs[id].phase) < StepsLeft(s.txs[id].phase)
  {
  }

  /**
   * Since a key is claimed before a version row, waiting goes from keys to rows and never in a circle:
   * a transaction that locks a row waits for nobody, and if there is none, neither does one that holds a key.
   */
  lemma SomeClear(s: State) returns (id: nat)
    requires Inv(s) && s.txs != map[]
    ensures id in s.txs && Clear(s, id)
  {
    if i :| i in s.txs && HoldsRow(s.txs[i]) {
      id := i;
    } else if i :| i in s.txs && HoldsKey(s.txs[i]) {
      id := i;
    } else {
      assert s.txs.Keys != {};
      id :| id in s.txs;
    }
  }

  /** Only a transaction that failed, or whose call throws, needs to be aborted. */
  predicate Doomed(tx: Tx) {
    tx.phase.Failed? || (tx.phase.Begun? && Malformed(tx.delivery))
  }

  ghost predicate Drains(s: State, actions: seq<Action>) {
    && (forall i :: 0 <= i < |actions| ==> !actions[i].Begin?)
    && (forall i :: 0 <= i < |actions| && actions[i].Abort? ==> actions[i].id in s.txs && Doomed(s.txs[actions[i].id]))
    && Execute(s, actions).Some?
    && Execute(s, actions).value.txs == map[]
  }

  /** From every reachable state all unfinished transactions can end, none aborted that did not fail. */
  lemma {:induction false} NeverStuck(s: State, focus: Option<nat>) returns (actions: seq<Action>)
    requires Inv(s)
    requires focus.Some? ==> focus.value in s.txs && Clear(s, focus.value)
    ensures Drains(s, actions)
    decreases |s.txs.Keys|, if focus.None? then 5 else StepsLeft(s.txs[focus.value].phase)
  {
    if s.txs == map[] {
      actions := [];
    } else if focus.None? {
      var id := SomeClear(s);
      actions := NeverStuck(s, Some(id));
    } else {
      var id := focus.value;
      var step := StepOf(s, id);
      ClearSteps(s, id);
      NextKeepsInv(s, step);
      var after := Next(s, step);
      assert StepsLeft(s.txs[id].phase) == 1 ==> after.txs.Keys == s.txs.Keys - {id};
      var rest := NeverStuck(after, if StepsLeft(s.txs[id].phase) == 1 then None else focus);
      DrainsAfter(s, id, rest);
      actions := [step] + rest;
    }
  }

  lemma DrainsAfter(s: State, id: nat, rest: seq<Action>)
    requires id in s.txs && Clear(s, id)
    requires Enabled(s, StepOf(s, id)) && Drains(Next(s, StepOf(s, id)), rest)
    ensures Drains(s, [StepOf(s, id)] + rest)
  {
    var step := StepOf(s, id);
    var actions := [step] + rest;
    assert actions[1..] == rest;
    forall i | 0 <= i < |actions| && actions[i].Abort?
      ensures actions[i].id in s.txs && Doomed(s.txs[actions[i].id])
    {
      if i > 0 {
        assert actions[i] == rest[i - 1];
      }
    }
  }

  // ---- the code, one delivery at a time ----

  /** The call inside a transaction: what it returns, or that it threw. */
  datatype Reply = Returned(outcome: Outcome) | Threw

  /** The database as the client of one connection sees it. */
  class Database {
    var committed: Store
    /** Tables as the open transaction sees them. */
    var inbox: map<Key, Outcome>
    var versions: map<Row, int>
    /** Effects of the open transaction. */
    var effects: nat

    constructor ()
      ensures committed == EMPTY
    {
      committed := EMPTY;
      inbox := map[];
      versions := map[];
      effects := 0;
    }

    /** The statements of one delivery; `effectWorks` stands for the caller's effect. */
    method ConsumeOnce(delivery: Delivery, effectWorks: bool) returns (reply: Reply)
      requires inbox == committed.inbox && versions == committed.versions && effects == 0
      modifies this`inbox, this`versions, this`effects
      ensures reply == Answer(committed, delivery, effectWorks)
      ensures reply.Returned? ==>
        && inbox == Published(committed, delivery, reply.outcome).inbox
        && versions == Published(committed, delivery, reply.outcome).versions
        && effects == if reply.outcome.Applied? then 1 else 0
    {
      if delivery.ordering.LatestState? && delivery.aggregate.None? {
        return Threw;
      }
      var key := KeyOf(delivery);
      if key in inbox {
        return Returned(Duplicate);
      }
      inbox := inbox[key := Applied];
      if delivery.ordering.LatestState? {
        var row := RowOf(delivery);
        if row !in versions || versions[row] < VersionOf(delivery) {
          versions := versions[row := VersionOf(delivery)];
        } else {
          inbox := inbox[key := Stale(versions[row])];
          return Returned(Stale(versions[row]));
        }
      }
      if !effectWorks {
        return Threw;
      }
      effects := effects + 1;
      return Returned(Applied);
    }

    /** BEGIN, the call, then COMMIT or ROLLBACK: the machine's run of that transaction alone. */
    method InPgTransaction(delivery: Delivery, effectWorks: bool) returns (reply: Reply)
      modifies this
      ensures reply == Answer(old(committed), delivery, effectWorks)
      ensures committed == if reply.Threw? then old(committed) else Published(old(committed), delivery, reply.outcome)
      ensures Execute(Idle(old(committed)), Serial(old(committed), delivery, effectWorks)) == Some(Idle(committed))
    {
      inbox, versions, effects := committed.inbox, committed.versions, 0;
      reply := ConsumeOnce(delivery, effectWorks);
      SerialRuns(committed, delivery, effectWorks);
      if reply.Returned? {
        committed := Store(inbox, versions, committed.log + [Entry(delivery, reply.outcome)]);
      } else {
        inbox, versions, effects := committed.inbox, committed.versions, 0;
      }
    }
  }

  /** What a delivery gets when no other transaction is open. */
  function Answer(store: Store, delivery: Delivery, effectWorks: bool): Reply {
    if Malformed(delivery) then Threw
    else if KeyOf(delivery) in store.inbox then Returned(Duplicate)
    else if Ordered(delivery) && AfterAdvance(store, delivery).Finished? then
      Returned(AfterAdvance(store, delivery).outcome)
    else if effectWorks then Returned(Applied)
    else Threw
  }

  /** The steps of a transaction that runs alone. */
  function Serial(store: Store, delivery: Delivery, effectWorks: bool): seq<Action> {
    [Begin(0, delivery)] +
    if Malformed(delivery) then [Reject(0), Abort(0)]
    else if KeyOf(delivery) in store.inbox then [Claim(0), Commit(0)]
    else
      [Claim(0)] +
      if Ordered(delivery) && AfterAdvance(store, delivery).Finished? then [Advance(0), Commit(0)]
      else
        (if Ordered(delivery) then [Advance(0)] else []) +
        [Effect(0, effectWorks), if effectWorks then Commit(0) else Abort(0)]
  }

  lemma ExecuteStep(s: State, a: Action, rest: seq<Action>)
    requires Enabled(s, a)
    ensures Execute(s, [a] + rest) == Execute(Next(s, a), rest)
  {
    assert ([a] + rest)[1..] == rest;
  }

  function Alone(store: Store, delivery: Delivery, phase: Phase): State {
    State(store, map[0 := Tx(delivery, phase)])
  }

  lemma AloneEnds(store: Store, delivery: Delivery, phase: Phase)
    ensures phase.Finished? ==>
      Execute(Alone(store, delivery, phase), [Commit(0)]) == Some(Idle(Published(store, delivery, phase.outcome)))
    ensures Execute(Alone(store, delivery, phase), [Abort(0)]) == Some(Idle(store))
  {
    var s := Alone(store, delivery, phase);
    assert s.txs - {0} == map[];
    if phase.Finished? {
      ExecuteStep(s, Commit(0), []);
    }
    ExecuteStep(s, Abort(0), []);
  }

  /** One step of a transaction that runs alone. */
  lemma AloneMoves(store: Store, delivery: Delivery, phase: Phase, a: Action, after: Phase, rest: seq<Action>)
    requires a.Reject? || a.Claim? || a.Advance? || a.Effect?
    requires a.id == 0 && Enabled(Alone(store, delivery, phase), a)
    requires Next(Alone(store, delivery, phase), a) == Alone(store, delivery, after)
    ensures Execute(Alone(store, delivery, phase), [a] + rest) == Execute(Alone(store, delivery, after), rest)
  {
    ExecuteStep(Alone(store, delivery, phase), a, rest);
  }

  lemma EffectRuns(store: Store, delivery: Delivery, phase: Phase, effectWorks: bool)
    requires phase == if Ordered(delivery) then Advanced else Claimed
    ensures Execute(Alone(store, delivery, phase),
              [Effect(0, effectWorks), if effectWorks then Commit(0) else Abort(0)]) ==
            Some(Idle(if effectWorks then Published(store, delivery, Applied) else store))
  {
    var after := if effectWorks then Finished(Applied) else Failed(true, phase.Advanced?);
    var last := if effectWorks then Commit(0) else Abort(0);
    assert [Effect(0, effectWorks)] + [last] == [Effect(0, effectWorks), last];
    AloneMoves(store, delivery, phase, Effect(0, effectWorks), after, [last]);
    AloneEnds(store, delivery, after);
  }

  lemma ClaimedRuns(store: Store, delivery: Delivery, effectWorks: bool)
    requires !Malformed(delivery) && KeyOf(delivery) !in store.inbox
    ensures var reply := Answer(store, delivery, effectWorks);
            Execute(Alone(store, delivery, Claimed), Serial(store, delivery, effectWorks)[2..]) ==
            Some(Idle(if reply.Threw? then store else Published(store, delivery, reply.outcome)))
  {
    var rest := Serial(store, delivery, effectWorks)[2..];
    if Ordered(delivery) {
      var after := AfterAdvance(store, delivery);
      assert rest == [Advance(0)] + rest[1..];
      AloneMoves(store, delivery, Claimed, Advance(0), after, rest[1..]);
      if after.Finished? {
        assert rest[1..] == [Commit(0)];
        AloneEnds(store, delivery, after);
      } else {
        assert rest[1..] == [Effect(0, effectWorks), if effectWorks then Commit(0) else Abort(0)];
        EffectRuns(store, delivery, Advanced, effectWorks);
      }
    } else {
      assert rest == [Effect(0, effectWorks), if effectWorks then Commit(0) else Abort(0)];
      EffectRuns(store, delivery, Claimed, effectWorks);
    }
  }

  lemma SerialRuns(store: Store, delivery: Delivery, effectWorks: bool)
    ensures var reply := Answer(store, delivery, effectWorks);
            Execute(Idle(store), Serial(store, delivery, effectWorks)) ==
            Some(Idle(if reply.Threw? then store else Published(store, delivery, reply.outcome)))
  {
    var actions := Serial(store, delivery, effectWorks);
    assert actions == [Begin(0, delivery)] + actions[1..];
    ExecuteStep(Idle(store), Begin(0, delivery), actions[1..]);
    assert actions[1..] == [actions[1]] + actions[2..];
    if Malformed(delivery) {
      AloneMoves(store, delivery, Begun, Reject(0), Failed(false, false), actions[2..]);
      AloneEnds(store, delivery, Failed(false, false));
    } else if KeyOf(delivery) in store.inbox {
      AloneMoves(store, delivery, Begun, Claim(0), Finished(Duplicate), actions[2..]);
      AloneEnds(store, delivery, Finished(Duplicate));
    } else {
      AloneMoves(store, delivery, Begun, Claim(0), Claimed, actions[2..]);
      ClaimedRuns(store, delivery, effectWorks);
    }
  }
}
