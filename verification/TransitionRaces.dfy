/** Transitions of documents as two steps: a call reads the row and decides, and a later transaction
    writes what was decided, whatever has happened to the row in between. */
module TransitionRaces {
  import opened Documents
  import opened ContentStore
  import opened Options

  /** What a call hands to its transaction, and the row and time it decided by (which the transaction
      does not look at). */
  datatype Decision = Decision(doc: DocId, action: Action, next: DocState, firstPublish: bool, publishAt: Option<Time>,
                               seen: Document, seenAt: Time)

  /** Every arrow of the transition table with one label leads to one state. */
  function Target(action: Action): DocState {
    match action case Publish => Published case Unlist => Unlisted case RevertToDraft => Draft case Schedule => Scheduled
  }

  /** The first half of TransitionDocument: the row is read and the action found legal, or not. */
  function Decided(doc: DocId, d: Document, action: Action, publishAt: Option<Time>, now: Time): Option<Decision> {
    match Next(EffectiveState(d, now), action)
    case None => None
    case Some(next) =>
      if action.Schedule? && (publishAt.None? || publishAt.value <= now) then None
      else Some(Decision(doc, action, next, next.Published? && d.publishedAt.None?,
                         if action.Schedule? then publishAt else None, d, now))
  }

  /** The row the transaction leaves where it finds d. */
  function Written(d: Document, k: Decision, now: Time, checkpoint: RevId): Document {
    d.(state := k.next, publishAt := k.publishAt,
       published := if Promotes(k.action) then Some(checkpoint) else d.published,
       publishedAt := if k.firstPublish then Some(now) else d.publishedAt)
  }

  ghost function CarriedOut(s: Store, k: Decision, now: Time, checkpoint: RevId): Store
    requires Readable(s) && k.doc in s.docs
  {
    Settled(s, k.doc, k.action, Written(s.docs[k.doc], k, now, checkpoint), checkpoint)
  }

  /** The same action as one step, at the time of the transaction. */
  function AtOnce(k: Decision, now: Time, checkpoint: RevId): Op {
    Transition(k.doc, k.action, k.publishAt, now, checkpoint)
  }

  datatype System = System(store: Store, history: History, pending: map<nat, Decision>)

  datatype Activity =
    | Edit(op: Op)
    | Decide(call: nat, doc: DocId, action: Action, publishAt: Option<Time>, now: Time)
    | CarryOut(call: nat, now: Time, checkpoint: RevId)
    | GiveUp(call: nat)

  ghost predicate Step(s: System, e: Activity, t: System) {
    && Readable(s.store)
    && match e
       case Edit(op) =>
         && !op.Transition? && Mints(s.store, op)
         && t == System(Apply(s.store, op), Remember(s.store, s.history, op), s.pending)
       case Decide(c, doc, action, publishAt, now) =>
         && c !in s.pending && doc in s.store.docs
         && var k := Decided(doc, s.store.docs[doc], action, publishAt, now);
            k.Some? && t == s.(pending := s.pending[c := k.value])
       case CarryOut(c, now, checkpoint) =>
         && c in s.pending && s.pending[c].doc in s.store.docs && checkpoint !in s.store.revs
         && t == System(CarriedOut(s.store, s.pending[c], now, checkpoint),
                        if Promotes(s.pending[c].action) then Promotion(s.store, s.history, s.pending[c].doc) else s.history,
                        s.pending - {c})
       case GiveUp(c) =>
         t == s.(pending := s.pending - {c})
  }

  // ---- what every interleaving keeps

  /** A decision can be written to the row as it now is: a document once promoted stays so, and one once
      stamped stays stamped. */
  predicate PendingOk(s: Store, k: Decision) {
    && k.doc in s.docs && k.next == Target(k.action)
    && Decided(k.doc, k.seen, k.action, k.publishAt, k.seenAt) == Some(k)
    && (k.action.Schedule? <==> k.publishAt.Some?)
    && (k.action.Unlist? ==> s.docs[k.doc].published.Some?)
    && (k.firstPublish ==> k.action.Publish?)
    && (k.action.Publish? && !k.firstPublish ==> s.docs[k.doc].publishedAt.Some?)
  }

  ghost predicate Inv(s: System) {
    && StoreOk(s.store) && Recorded(s.store, s.history)
    && forall c :: c in s.pending ==> PendingOk(s.store, s.pending[c])
  }

  /** A row's pointer and stamp, once set, stay set. */
  predicate Onwards(d: Document, d': Document) {
    d'.draft == d.draft && (d.published.Some? ==> d'.published.Some?) && (d.publishedAt.Some? ==> d'.publishedAt.Some?)
  }

  predicate AllOnwards(s: Store, t: Store) {
    forall x :: x in s.docs ==> x in t.docs && Onwards(s.docs[x], t.docs[x])
  }

  lemma PendingStaysOk(s: Store, t: Store, k: Decision)
    requires PendingOk(s, k) && AllOnwards(s, t)
    ensures PendingOk(t, k)
  {
    assert Onwards(s.docs[k.doc], t.docs[k.doc]);
  }

  lemma EditIsOnwards(s: Store, op: Op)
    requires Readable(s) && Mints(s, op) && !op.Transition?
    ensures AllOnwards(s, Apply(s, op))
  {}

  lemma DecidedIsOk(s: Store, doc: DocId, action: Action, publishAt: Option<Time>, now: Time)
    requires StoreOk(s) && doc in s.docs && Decided(doc, s.docs[doc], action, publishAt, now).Some?
    ensures PendingOk(s, Decided(doc, s.docs[doc], action, publishAt, now).value)
  {
    assert DocOk(s.revs, doc, s.docs[doc]);
  }

  lemma CarryOutKeepsOk(s: Store, k: Decision, now: Time, checkpoint: RevId)
    requires StoreOk(s) && Readable(s) && PendingOk(s, k) && checkpoint !in s.revs
    ensures StoreOk(CarriedOut(s, k, now, checkpoint))
  {
    var d := Written(s.docs[k.doc], k, now, checkpoint);
    if Promotes(k.action) {
      PromoteKeepsOk(s, k.doc, checkpoint, d);
    } else {
      FlipKeepsOk(s, k.doc, d);
    }
  }

  lemma CarryOutIsOnwards(s: Store, k: Decision, now: Time, checkpoint: RevId)
    requires Readable(s) && k.doc in s.docs
    ensures AllOnwards(s, CarriedOut(s, k, now, checkpoint))
  {
    assert Onwards(s.docs[k.doc], Written(s.docs[k.doc], k, now, checkpoint));
  }

  lemma CarryOutKeepsRecord(s: Store, h: History, k: Decision, now: Time, checkpoint: RevId)
    requires StoreOk(s) && Recorded(s, h) && Readable(s) && PendingOk(s, k) && checkpoint !in s.revs
    ensures Recorded(CarriedOut(s, k, now, checkpoint), if Promotes(k.action) then Promotion(s, h, k.doc) else h)
  {
    var d := Written(s.docs[k.doc], k, now, checkpoint);
    if Promotes(k.action) {
      PromoteKeepsRecord(s, h, k.doc, checkpoint, d);
    } else {
      FlipKeepsRecord(s, h, k.doc, d);
    }
  }

  lemma EditKeepsInv(s: System, op: Op, t: System)
    requires Inv(s) && Step(s, Edit(op), t)
    ensures Inv(t)
  {
    ApplyKeepsOk(s.store, op);
    ApplyKeepsRecord(s.store, s.history, op);
    EditIsOnwards(s.store, op);
    PendingStayOk(s, t);
  }

  lemma DecideKeepsInv(s: System, c: nat, doc: DocId, action: Action, publishAt: Option<Time>, now: Time, t: System)
    requires Inv(s) && Step(s, Decide(c, doc, action, publishAt, now), t)
    ensures Inv(t)
  {
    DecidedIsOk(s.store, doc, action, publishAt, now);
  }

  lemma CarryOutKeepsInv(s: System, c: nat, now: Time, checkpoint: RevId, t: System)
    requires Inv(s) && Step(s, CarryOut(c, now, checkpoint), t)
    ensures Inv(t)
  {
    var k := s.pending[c];
    assert PendingOk(s.store, k);
    CarryOutKeepsOk(s.store, k, now, checkpoint);
    CarryOutIsOnwards(s.store, k, now, checkpoint);
    CarryOutKeepsRecord(s.store, s.history, k, now, checkpoint);
    PendingStayOk(s, t);
  }

  lemma StepKeepsInv(s: System, e: Activity, t: System)
    requires Inv(s) && Step(s, e, t)
    ensures Inv(t)
  {
    match e
    case Edit(op) => EditKeepsInv(s, op, t);
    case Decide(c, doc, action, publishAt, now) => DecideKeepsInv(s, c, doc, action, publishAt, now, t);
    case CarryOut(c, now, checkpoint) => CarryOutKeepsInv(s, c, now, checkpoint, t);
    case GiveUp(c) =>
  }

  lemma PendingStayOk(s: System, t: System)
    requires Inv(s) && AllOnwards(s.store, t.store) && t.pending.Keys <= s.pending.Keys
    requires forall c :: c in t.pending ==> t.pending[c] == s.pending[c]
    ensures forall c :: c in t.pending ==> PendingOk(t.store, t.pending[c])
  {
    forall c | c in t.pending
      ensures PendingOk(t.store, t.pending[c])
    {
      PendingStaysOk(s.store, t.store, s.pending[c]);
    }
  }

  ghost predicate IsRun(states: seq<System>, activities: seq<Activity>) {
    && |states| == |activities| + 1
    && states[0] == System(Store(map[], map[], map[]), History(map[], map[]), map[])
    && forall n :: 0 <= n < |activities| ==> Step(states[n], activities[n], states[n+1])
  }

  /** However reads and writes of different calls fall, rows and revisions stay in order, */
  lemma {:induction false} RunKeepsInv(states: seq<System>, activities: seq<Activity>, n: nat)
    requires IsRun(states, activities) && n <= |activities|
    ensures Inv(states[n])
  {
    if n == 0 {
    } else {
      RunKeepsInv(states, activities, n - 1);
      assert Step(states[n-1], activities[n-1], states[n]);
      StepKeepsInv(states[n-1], activities[n-1], states[n]);
    }
  }

  /** and visitors read the draft as it stood at the latest publish or schedule that was written. */
  lemma RacesShowLastPromoted(states: seq<System>, activities: seq<Activity>, n: nat, doc: DocId, now: Time)
    requires IsRun(states, activities) && n <= |activities|
    requires doc in states[n].store.docs && IsPubliclyVisible(states[n].store.docs[doc], now)
    ensures doc in states[n].history.promoted
    ensures Public(states[n].store, doc, now) == Some(states[n].history.promoted[doc])
  {
    RunKeepsInv(states, activities, n);
    var s := states[n];
    assert DocOk(s.store.revs, doc, s.store.docs[doc]);
    assert DocRecorded(s.store.revs, doc, s.store.docs[doc], s.history);
  }

  // ---- when a write is what one step would have done

  /** What was decided would be decided again, and the stamp with it. */
  predicate StillStands(d: Document, k: Decision, now: Time) {
    && Next(EffectiveState(d, now), k.action).Some?
    && (k.action.Schedule? ==> k.publishAt.Some? && now < k.publishAt.value)
    && (k.firstPublish ==> d.publishedAt.None? || d.publishedAt == Some(now))
  }

  /** Another call has already unlisted or reverted the document. */
  predicate AlreadyDone(d: Document, k: Decision) {
    !Promotes(k.action) && d.state == k.next
  }

  /** Writing an earlier decision does what the transition as a whole would do now, if and only if the
      decision still stands, or is to unlist or revert a document that has been already. */
  lemma CarryOutIsAtOnceIff(s: System, c: nat, now: Time, checkpoint: RevId, t: System)
    requires Inv(s) && Step(s, CarryOut(c, now, checkpoint), t)
    ensures var k := s.pending[c];
            t.store == Apply(s.store, AtOnce(k, now, checkpoint)) <==>
              StillStands(s.store.docs[k.doc], k, now) || AlreadyDone(s.store.docs[k.doc], k)
  {
    var k := s.pending[c];
    var d := s.store.docs[k.doc];
    assert PendingOk(s.store, k) && DocOk(s.store.revs, k.doc, d);
    SettledIff(s.store, k, now, checkpoint);
    WrittenIff(d, k, now, checkpoint);
  }

  /** The stores agree exactly when the rows do. */
  lemma SettledIff(s: Store, k: Decision, now: Time, checkpoint: RevId)
    requires Readable(s) && k.doc in s.docs
    requires Promotes(k.action) ==> s.docs[k.doc].published != Some(checkpoint)
    ensures CarriedOut(s, k, now, checkpoint) == Apply(s, AtOnce(k, now, checkpoint)) <==>
              Kept(ActLazily(s.docs[k.doc], k.action, k.publishAt, now, checkpoint), s.docs[k.doc]) == Written(s.docs[k.doc], k, now, checkpoint)
  {
    var d, w := s.docs[k.doc], Written(s.docs[k.doc], k, now, checkpoint);
    var a := ActLazily(d, k.action, k.publishAt, now, checkpoint);
    assert s.docs[k.doc := d] == s.docs;
    assert CarriedOut(s, k, now, checkpoint).docs[k.doc] == w;
    assert Apply(s, AtOnce(k, now, checkpoint)) == if a.Now? then Settled(s, k.doc, k.action, a.doc, checkpoint) else s;
    if a.Now? {
      assert Settled(s, k.doc, k.action, a.doc, checkpoint).docs[k.doc] == a.doc;
    }
  }

  lemma WrittenIff(d: Document, k: Decision, now: Time, checkpoint: RevId)
    requires DateOk(d) && k.next == Target(k.action) && (k.action.Schedule? <==> k.publishAt.Some?)
    requires (k.firstPublish ==> k.action.Publish?) && (k.action.Publish? && !k.firstPublish ==> d.publishedAt.Some?)
    requires d.published != Some(checkpoint)
    ensures Kept(ActLazily(d, k.action, k.publishAt, now, checkpoint), d) == Written(d, k, now, checkpoint)
       <==> StillStands(d, k, now) || AlreadyDone(d, k)
    ensures StillStands(d, k, now) ==> ActLazily(d, k.action, k.publishAt, now, checkpoint).Now?
  {}

  /** Saves, restores and transitions of other documents leave a decision standing. It does while the
      document's effective state and stamp are as the call read them and a schedule's date is still to
      come: a condition the writing transaction could check. */
  lemma UndisturbedStands(s: System, c: nat, now: Time)
    requires Inv(s) && c in s.pending
    requires var k := s.pending[c];
             var d := s.store.docs[k.doc];
             && EffectiveState(d, now) == EffectiveState(k.seen, k.seenAt) && d.publishedAt == k.seen.publishedAt
             && (k.publishAt.Some? ==> now < k.publishAt.value)
    ensures StillStands(s.store.docs[s.pending[c].doc], s.pending[c], now)
  {
    assert PendingOk(s.store, s.pending[c]);
  }

  // ---- what races break

  ghost predicate Reachable(s: System) {
    exists states, activities :: IsRun(states, activities) && states[|activities|] == s
  }

  lemma Onward(s: System, e: Activity, t: System)
    requires Reachable(s) && Step(s, e, t)
    ensures Reachable(t)
  {
    var states, activities :| IsRun(states, activities) && states[|activities|] == s;
    var more, moreActivities := states + [t], activities + [e];
    forall n | 0 <= n < |moreActivities|
      ensures Step(more[n], moreActivities[n], more[n+1])
    {
      assert n < |activities| ==> more[n] == states[n] && more[n+1] == states[n+1] && moreActivities[n] == activities[n];
    }
    assert IsRun(more, moreActivities) && more[|moreActivities|] == t;
  }

  lemma ReachableInv(s: System)
    requires Reachable(s)
    ensures Inv(s) && Readable(s.store)
  {
    var states, activities :| IsRun(states, activities) && states[|activities|] == s;
    RunKeepsInv(states, activities, |activities|);
    OkIsReadable(s.store);
  }

  /** One new document. */
  lemma OneDocument(doc: DocId, rev: RevId) returns (s: System)
    ensures Reachable(s) && s.pending == map[] && s.store.docs == map[doc := Document(Draft, None, None, rev, None)]
    ensures s.store.revs.Keys == {rev}
  {
    var empty := System(Store(map[], map[], map[]), History(map[], map[]), map[]);
    assert IsRun([empty], []);
    var insert := Insert(doc, rev, Key(0, "", "", ""));
    s := System(Apply(empty.store, insert), Remember(empty.store, empty.history, insert), map[]);
    Onward(empty, Edit(insert), s);
  }

  lemma DecideOnward(s: System, c: nat, doc: DocId, action: Action, now: Time) returns (t: System)
    requires Reachable(s) && c !in s.pending && doc in s.store.docs && !action.Schedule?
    requires Next(EffectiveState(s.store.docs[doc], now), action).Some?
    ensures Reachable(t) && t.store == s.store
    ensures t.pending == s.pending[c := Decided(doc, s.store.docs[doc], action, None, now).value]
  {
    ReachableInv(s);
    t := s.(pending := s.pending[c := Decided(doc, s.store.docs[doc], action, None, now).value]);
    Onward(s, Decide(c, doc, action, None, now), t);
  }

  lemma CarryOutOnward(s: System, c: nat, now: Time, checkpoint: RevId) returns (t: System)
    requires Reachable(s) && c in s.pending && s.pending[c].doc in s.store.docs && checkpoint !in s.store.revs
    ensures Reachable(t) && t.pending == s.pending - {c} && Step(s, CarryOut(c, now, checkpoint), t)
    ensures t.store.docs == s.store.docs[s.pending[c].doc := Written(s.store.docs[s.pending[c].doc], s.pending[c], now, checkpoint)]
    ensures t.store.revs.Keys <= s.store.revs.Keys + {checkpoint}
  {
    ReachableInv(s);
    var k := s.pending[c];
    t := System(CarriedOut(s.store, k, now, checkpoint), if Promotes(k.action) then Promotion(s.store, s.history, k.doc) else s.history, s.pending - {c});
    Onward(s, CarryOut(c, now, checkpoint), t);
  }

  /** A published document, and two calls that have read that it is: one to unlist it, one to revert it. */
  lemma TwoFlipsDecided() returns (s: System)
    ensures Reachable(s) && s.store.docs == map[D(0) := Document(Published, None, Some(1), V(0), Some(V(1)))]
    ensures s.store.revs.Keys <= {V(0), V(1)} && s.pending.Keys == {1, 2}
    ensures s.pending[1] == Decided(D(0), s.store.docs[D(0)], Unlist, None, 2).value
    ensures s.pending[2] == Decided(D(0), s.store.docs[D(0)], RevertToDraft, None, 2).value
  {
    s := OneDocument(D(0), V(0));
    s := DecideOnward(s, 0, D(0), Publish, 1);
    s := CarryOutOnward(s, 0, 1, V(1));
    assert s.store.docs[D(0)] == Document(Published, None, Some(1), V(0), Some(V(1)));
    s := DecideOnward(s, 1, D(0), Unlist, 2);
    s := DecideOnward(s, 2, D(0), RevertToDraft, 2);
  }

  /** The transition table does not survive: after an unlisting and a reverting that both read PUBLISHED,
      the document goes from UNLISTED to DRAFT, which no action allows. */
  lemma RacedFlipLeavesTable() returns (s: System, c: nat, now: Time, t: System)
    ensures Reachable(s) && Step(s, CarryOut(c, now, V(9)), t) && D(0) in s.store.docs && D(0) in t.store.docs
    ensures s.store.docs[D(0)].state == Unlisted && t.store.docs[D(0)].state == Draft
    ensures forall action, at :: Next(EffectiveState(s.store.docs[D(0)], at), action) != Some(Draft)
  {
    s := TwoFlipsDecided();
    s := CarryOutOnward(s, 1, 3, V(2));
    c, now := 2, 4;
    t := CarryOutOnward(s, c, now, V(9));
  }

  /** Nor does the first publication's stamp: of two calls that both saw an unpublished draft, the later
      one overwrites it. */
  lemma RacedPublishMovesStamp() returns (s: System, c: nat, now: Time, t: System)
    ensures Reachable(s) && Step(s, CarryOut(c, now, V(9)), t) && D(0) in s.store.docs && D(0) in t.store.docs
    ensures s.store.docs[D(0)].publishedAt == Some(2) && t.store.docs[D(0)].publishedAt == Some(3)
  {
    s := OneDocument(D(0), V(0));
    s := DecideOnward(s, 0, D(0), Publish, 1);
    s := DecideOnward(s, 1, D(0), Publish, 1);
    s := CarryOutOnward(s, 0, 2, V(1));
    c, now := 1, 3;
    t := CarryOutOnward(s, c, now, V(9));
  }
}
