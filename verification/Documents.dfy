/** A content document's state machine, with scheduled publishing decided at read time. */
module Documents {
  import opened Options

  type Time = int

  datatype DocId = D(id: int)
  datatype RevId = V(id: int)

  datatype DocState = Draft | Published | Unlisted | Scheduled

  datatype Action = Publish | Unlist | RevertToDraft | Schedule

  datatype Document = Document(state: DocState, publishAt: Option<Time>, publishedAt: Option<Time>, draft: RevId, published: Option<RevId>)

  datatype Refusal = InvalidTransition | MissingPublishAt | PublishAtNotFuture

  datatype Acted = Now(doc: Document) | Refused(why: Refusal)

  /** The transition table. */
  function Next(state: DocState, action: Action): Option<DocState> {
    match (state, action)
    case (Draft, Publish) => Some(Published)
    case (Draft, Schedule) => Some(Scheduled)
    case (Published, RevertToDraft) => Some(Draft)
    case (Published, Unlist) => Some(Unlisted)
    case (Unlisted, Publish) => Some(Published)
    case (Unlisted, Schedule) => Some(Scheduled)
    case (Scheduled, Publish) => Some(Published)
    case (Scheduled, RevertToDraft) => Some(Draft)
    case _ => None
  }

  function EffectiveState(d: Document, now: Time): DocState {
    if d.state.Scheduled? && d.publishAt.Some? && d.publishAt.value <= now then Published else d.state
  }

  predicate IsPubliclyVisible(d: Document, now: Time) {
    EffectiveState(d, now).Published? || d.state.Unlisted?
  }

  /** The document row after action is taken in the given state; checkpoint is the id of the revision
      a publish or schedule snapshots the draft into. */
  function Act(d: Document, state: DocState, action: Action, publishAt: Option<Time>, now: Time, checkpoint: RevId): Acted {
    match Next(state, action)
    case None => Refused(InvalidTransition)
    case Some(next) =>
      if action.Schedule? then
        if publishAt.None? then Refused(MissingPublishAt)
        else if publishAt.value <= now then Refused(PublishAtNotFuture)
        else Now(d.(state := Scheduled, publishAt := publishAt, published := Some(checkpoint)))
      else if next.Published? then
        Now(d.(state := Published, publishAt := None, published := Some(checkpoint),
               publishedAt := if d.publishedAt.None? then Some(now) else d.publishedAt))
      else Now(d.(state := next, publishAt := None))
  }

  /** TransitionDocument on the row: legality is looked up by the effective state. */
  function ActLazily(d: Document, action: Action, publishAt: Option<Time>, now: Time, checkpoint: RevId): Acted {
    Act(d, EffectiveState(d, now), action, publishAt, now, checkpoint)
  }

  // ---- where visitors find a document

  /** ListPublicDocuments. */
  predicate InFeed(d: Document, t: Time) {
    d.state.Published? || d.state.Unlisted? || (d.state.Scheduled? && d.publishAt.Some? && d.publishAt.value <= t)
  }

  /** ListPublicNavItems, for an item whose target it is. */
  predicate InMenu(d: Document, t: Time) {
    IsPubliclyVisible(d, t)
  }

  /** ListSitemapEntries, for a page. */
  predicate InSitemap(d: Document, t: Time) {
    InFeed(d, t) && EffectiveState(d, t).Published?
  }

  /** resolvePublishedTranslations, for a document of its group. */
  predicate InTranslations(d: Document, t: Time) {
    EffectiveState(d, t).Published?
  }

  datatype Places = Places(address: bool, feed: bool, menu: bool, sitemap: bool, translations: bool)

  const EVERYWHERE := Places(true, true, true, true, true)
  const NOWHERE := Places(false, false, false, false, false)

  function PlacesOf(d: Document, t: Time): Places {
    Places(IsPubliclyVisible(d, t), InFeed(d, t), InMenu(d, t), InSitemap(d, t), InTranslations(d, t))
  }

  /** Where an action, once accepted, puts the document at each time t. */
  function PlacesAfter(action: Action, publishAt: Option<Time>, t: Time): Places {
    match action
    case Publish => EVERYWHERE
    case Unlist => EVERYWHERE.(sitemap := false, translations := false)
    case RevertToDraft => NOWHERE
    case Schedule => if publishAt.Some? && publishAt.value <= t then EVERYWHERE else NOWHERE
  }

  lemma AcceptedPlaces(d: Document, action: Action, publishAt: Option<Time>, now: Time, checkpoint: RevId, t: Time)
    requires ActLazily(d, action, publishAt, now, checkpoint).Now?
    ensures PlacesOf(ActLazily(d, action, publishAt, now, checkpoint).doc, t) == PlacesAfter(action, publishAt, t)
  {}

  /** Visitors find it everywhere at some time from now on, if nobody does anything. */
  ghost predicate ComesEverywhere(d: Document, now: Time) {
    exists t :: now <= t && PlacesOf(d, t) == EVERYWHERE
  }

  /** Which actions are accepted, in terms of where visitors find the document: publishing what is not
      found everywhere, unlisting what is, reverting what is or will be, and scheduling, for a future
      date, what is not and will not be. */
  lemma AcceptedIff(d: Document, action: Action, publishAt: Option<Time>, now: Time, checkpoint: RevId)
    requires DateOk(d)
    ensures ActLazily(d, action, publishAt, now, checkpoint).Now? <==>
              match action
              case Publish => PlacesOf(d, now) != EVERYWHERE
              case Unlist => PlacesOf(d, now) == EVERYWHERE
              case RevertToDraft => ComesEverywhere(d, now)
              case Schedule => !ComesEverywhere(d, now) && publishAt.Some? && now < publishAt.value
  {
    if d.state.Scheduled? {
      assert PlacesOf(d, if d.publishAt.value < now then now else d.publishAt.value) == EVERYWHERE;
    } else if d.state.Published? {
      assert PlacesOf(d, now) == EVERYWHERE;
    }
  }

  /** A document is never found in some but not all of these places, except that an UNLISTED one is kept
      from the sitemap and the translations alone. */
  lemma FoundAllOver(d: Document, t: Time)
    ensures PlacesOf(d, t) in {NOWHERE, EVERYWHERE, EVERYWHERE.(sitemap := false, translations := false)}
    ensures PlacesOf(d, t) == EVERYWHERE.(sitemap := false, translations := false) <==> d.state.Unlisted?
  {}

  /** The timeline's last row and its last accepted action. */
  function RowAfter(d: Document, now: Time, events: seq<Event>): Document
    decreases |events|
  {
    if events == [] then d
    else
      var t := TimeAfter(events[0], now);
      match events[0]
      case Wait(_) => RowAfter(d, t, events[1..])
      case Do(action, publishAt, checkpoint) => RowAfter(Kept(ActLazily(d, action, publishAt, t, checkpoint), d), t, events[1..])
  }

  function LastAccepted(d: Document, now: Time, events: seq<Event>): Option<(Action, Option<Time>)>
    decreases |events|
  {
    if events == [] then None
    else
      var t := TimeAfter(events[0], now);
      match events[0]
      case Wait(_) => LastAccepted(d, t, events[1..])
      case Do(action, publishAt, checkpoint) =>
        var a := ActLazily(d, action, publishAt, t, checkpoint);
        var later := LastAccepted(Kept(a, d), t, events[1..]);
        if later.Some? || a.Refused? then later else Some((action, publishAt))
  }

  /** After any timeline visitors find the document just where the last accepted action put it, whatever
      went before; if none was accepted, where they always did. */
  lemma {:induction false} LastAcceptedDecides(d: Document, now: Time, events: seq<Event>, t: Time)
    ensures PlacesOf(RowAfter(d, now, events), t) ==
              match LastAccepted(d, now, events)
              case None => PlacesOf(d, t)
              case Some((action, publishAt)) => PlacesAfter(action, publishAt, t)
    decreases |events|
  {
    if events == [] {
    } else {
      var at := TimeAfter(events[0], now);
      match events[0]
      case Wait(_) =>
        LastAcceptedDecides(d, at, events[1..], t);
      case Do(action, publishAt, checkpoint) =>
        var a := ActLazily(d, action, publishAt, at, checkpoint);
        LastAcceptedDecides(Kept(a, d), at, events[1..], t);
        if a.Now? {
          AcceptedPlaces(d, action, publishAt, at, checkpoint, t);
        }
    }
  }

  /** Which refusal is given: an action the state does not allow; else a schedule without a date; else a
      schedule for a date that is not to come. */
  lemma RefusedBecause(d: Document, action: Action, publishAt: Option<Time>, now: Time, checkpoint: RevId)
    requires DateOk(d)
    ensures var a := ActLazily(d, action, publishAt, now, checkpoint);
            var everywhere, later := PlacesOf(d, now) == EVERYWHERE, ComesEverywhere(d, now);
            var allowed := match action
                           case Publish => !everywhere
                           case Unlist => everywhere
                           case RevertToDraft => later
                           case Schedule => !later;
            && (a == Refused(InvalidTransition) <==> !allowed)
            && (a == Refused(MissingPublishAt) <==> allowed && action == Schedule && publishAt == None)
            && (a == Refused(PublishAtNotFuture) <==> allowed && action == Schedule && publishAt.Some? && publishAt.value <= now)
  {
    if d.state.Scheduled? {
      assert PlacesOf(d, if d.publishAt.value < now then now else d.publishAt.value) == EVERYWHERE;
    } else if d.state.Published? {
      assert PlacesOf(d, now) == EVERYWHERE;
    }
  }

  /** published_at is stamped by the first publish and never moves again. */
  lemma FirstPublicationStays(d: Document, action: Action, publishAt: Option<Time>, now: Time, checkpoint: RevId)
    ensures var after := Kept(ActLazily(d, action, publishAt, now, checkpoint), d).publishedAt;
            && (d.publishedAt.Some? ==> after == d.publishedAt)
            && (d.publishedAt.None? ==> after == if action.Publish? && ActLazily(d, action, publishAt, now, checkpoint).Now? then Some(now) else None)
  {}

  // ---- a timer, for comparison

  /** What a timer would do to the row at time now. */
  function Tick(d: Document, now: Time): Document {
    if d.state.Scheduled? && d.publishAt.Some? && d.publishAt.value <= now
    then d.(state := Published, publishAt := None) else d
  }

  /** With a timer at work, legality is looked up by the stored state. */
  function ActEagerly(d: Document, action: Action, publishAt: Option<Time>, now: Time, checkpoint: RevId): Acted {
    Act(d, d.state, action, publishAt, now, checkpoint)
  }

  /** Where visitors find it if stored states alone decide. */
  function EagerPlaces(d: Document): Places {
    var public, published := d.state.Published? || d.state.Unlisted?, d.state.Published?;
    Places(public, public, public, published, published)
  }

  /** The lazy row stands for the row a timer would have left by now. The time of first publication
      is not compared: nothing stamps it when a scheduled document merely falls due. */
  predicate StandsFor(lazy: Document, eager: Document, now: Time) {
    Tick(lazy, now).(publishedAt := None) == eager.(publishedAt := None)
  }

  datatype Event = Wait(until: Time) | Do(action: Action, publishAt: Option<Time>, checkpoint: RevId)

  /** What a visitor and an editor can see after an event. */
  datatype Observation = Observation(places: Places, effective: DocState, publishAt: Option<Time>, published: Option<RevId>, refused: Option<Refusal>)

  function Outcome(a: Acted): Option<Refusal> {
    if a.Refused? then Some(a.why) else None
  }

  function Kept(a: Acted, d: Document): Document {
    if a.Refused? then d else a.doc
  }

  function TimeAfter(e: Event, now: Time): Time {
    if e.Wait? && e.until > now then e.until else now
  }

  /** The timeline under the code's rule. */
  function LazyTrace(d: Document, now: Time, events: seq<Event>): seq<Observation>
    decreases |events|
  {
    if events == [] then []
    else
      var e, t := events[0], TimeAfter(events[0], now);
      match e
      case Wait(_) => [ObserveLazily(d, t, None)] + LazyTrace(d, t, events[1..])
      case Do(action, publishAt, checkpoint) =>
        var a := ActLazily(d, action, publishAt, t, checkpoint);
        var d' := Kept(a, d);
        [ObserveLazily(d', t, Outcome(a))] + LazyTrace(d', t, events[1..])
  }

  function ObserveLazily(d: Document, now: Time, refused: Option<Refusal>): Observation {
    var effective := EffectiveState(d, now);
    Observation(PlacesOf(d, now), effective, if effective.Scheduled? then d.publishAt else None, d.published, refused)
  }

  /** The timeline with a timer that flips a row the moment it falls due. */
  function EagerTrace(d: Document, now: Time, events: seq<Event>): seq<Observation>
    decreases |events|
  {
    if events == [] then []
    else
      var e, t := events[0], TimeAfter(events[0], now);
      match e
      case Wait(_) => [ObserveEagerly(Tick(d, t), None)] + EagerTrace(Tick(d, t), t, events[1..])
      case Do(action, publishAt, checkpoint) =>
        var a := ActEagerly(d, action, publishAt, t, checkpoint);
        var d' := Kept(a, d);
        [ObserveEagerly(d', Outcome(a))] + EagerTrace(d', t, events[1..])
  }

  function ObserveEagerly(d: Document, refused: Option<Refusal>): Observation {
    Observation(EagerPlaces(d), d.state, if d.state.Scheduled? then d.publishAt else None, d.published, refused)
  }

  /** publishAt is set exactly while the stored state is SCHEDULED. */
  predicate DateOk(d: Document) {
    d.state.Scheduled? <==> d.publishAt.Some?
  }

  lemma ActKeepsDateOk(d: Document, state: DocState, action: Action, publishAt: Option<Time>, now: Time, checkpoint: RevId)
    requires DateOk(d)
    ensures DateOk(Kept(Act(d, state, action, publishAt, now, checkpoint), d))
  {}

  /** An action is legal for one exactly when it is for the other, and leaves them in step. */
  lemma ActsAgree(lazy: Document, eager: Document, action: Action, publishAt: Option<Time>, now: Time, checkpoint: RevId)
    requires StandsFor(lazy, eager, now) && DateOk(lazy)
    ensures Outcome(ActLazily(lazy, action, publishAt, now, checkpoint)) == Outcome(ActEagerly(eager, action, publishAt, now, checkpoint))
    ensures StandsFor(Kept(ActLazily(lazy, action, publishAt, now, checkpoint), lazy),
                      Kept(ActEagerly(eager, action, publishAt, now, checkpoint), eager), now)
  {
    assert EffectiveState(lazy, now) == eager.state;
  }

  lemma ViewsAgree(lazy: Document, eager: Document, now: Time, refused: Option<Refusal>)
    requires StandsFor(lazy, eager, now) && DateOk(lazy)
    ensures ObserveLazily(lazy, now, refused) == ObserveEagerly(eager, refused)
  {}

  lemma WaitingAgrees(lazy: Document, eager: Document, now: Time, later: Time)
    requires StandsFor(lazy, eager, now) && now <= later
    ensures StandsFor(lazy, Tick(eager, later), later)
  {}

  /** Publish-on-read refines a timer: along every timeline of waits and actions, places,
      effective state, what is published, and every refusal are the same. */
  lemma {:induction false} PublishOnReadRefinesTimer(lazy: Document, eager: Document, now: Time, events: seq<Event>)
    requires StandsFor(lazy, eager, now) && DateOk(lazy)
    ensures LazyTrace(lazy, now, events) == EagerTrace(eager, now, events)
    decreases |events|
  {
    if events == [] {
    } else {
      var t := TimeAfter(events[0], now);
      match events[0]
      case Wait(_) =>
        WaitingAgrees(lazy, eager, now, t);
        ViewsAgree(lazy, Tick(eager, t), t, None);
        PublishOnReadRefinesTimer(lazy, Tick(eager, t), t, events[1..]);
      case Do(action, publishAt, checkpoint) =>
        var a, b := ActLazily(lazy, action, publishAt, t, checkpoint), ActEagerly(eager, action, publishAt, t, checkpoint);
        ActsAgree(lazy, eager, action, publishAt, t, checkpoint);
        ActKeepsDateOk(lazy, EffectiveState(lazy, t), action, publishAt, t, checkpoint);
        ViewsAgree(Kept(a, lazy), Kept(b, eager), t, Outcome(a));
        PublishOnReadRefinesTimer(Kept(a, lazy), Kept(b, eager), t, events[1..]);
    }
  }

  /** Why publishedAt is left out: a document that falls due by itself is public with no such stamp. */
  lemma DueIsUnstamped(d: Document, now: Time)
    requires DateOk(d) && d.state.Scheduled? && d.publishedAt.None? && d.publishAt.value <= now
    ensures IsPubliclyVisible(d, now)
    ensures forall action, at, checkpoint :: var a := ActLazily(d, action, at, now, checkpoint); a.Now? ==> a.doc.publishedAt.None?
  {}
}
