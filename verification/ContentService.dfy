/** The content tables and service, changed in place statement by statement. */
module ContentService {
  import opened Documents
  import opened ContentStore
  import opened Options

  datatype Reply =
    | Done
    | DocumentNotFound
    | RevisionNotFound
    | Illegal(why: Refusal)
    | DuplicatePosition(position: int)
    | BlockTypeNotFound
    | BlockDataInvalid(position: int)
    | SlugTaken

  lemma NewestIsUnique(revs: Revisions, ids: set<RevId>, m: RevId)
    requires ids <= revs.Keys && NumbersUnique(revs, ids) && IsNewest(revs, ids, m)
    ensures m == Newest(revs, ids)
  {}

  lemma KthIsOneFurther(revs: Revisions, ids: set<RevId>, k: nat, m: RevId)
    requires ids <= revs.Keys && NumbersUnique(revs, ids) && IsNewest(revs, ids, m) && k > 0
    ensures KthNewest(revs, ids, k) == KthNewest(revs, ids - {m}, k - 1)
  {
    NewestIsUnique(revs, ids, m);
  }

  lemma KthAtZero(revs: Revisions, ids: set<RevId>, m: RevId)
    requires ids <= revs.Keys && NumbersUnique(revs, ids) && IsNewest(revs, ids, m)
    ensures KthNewest(revs, ids, 0) == Some(m)
  {
    NewestIsUnique(revs, ids, m);
  }

  lemma MaxNoIs(revs: Revisions, doc: DocId, m: RevId)
    requires IsNewest(revs, RowsOf(revs, doc), m)
    ensures MaxNo(revs, doc) == revs[m].no
  {
    var n := Newest(revs, RowsOf(revs, doc));
    assert revs[m].no <= revs[n].no;
  }

  /** One more than the highest number of the document's rows, or 1 if it has none. */
  ghost predicate IsNextNo(revs: Revisions, doc: DocId, no: int) {
    && (forall r :: IsRow(revs, doc, r) ==> revs[r].no < no)
    && ((exists r :: IsRow(revs, doc, r) && revs[r].no == no - 1) || (no == 1 && forall r :: !IsRow(revs, doc, r)))
  }

  lemma MaxNoIsHighest(revs: Revisions, doc: DocId)
    ensures IsNextNo(revs, doc, MaxNo(revs, doc) + 1)
  {
    var rows := RowsOf(revs, doc);
    assert forall r :: IsRow(revs, doc, r) <==> r in rows;
    if rows != {} {
      assert IsRow(revs, doc, Newest(revs, rows));
    }
  }

  predicate FirstToRepeat(blocks: Blocks, catalogue: Catalogue, i: int, position: int) {
    && 0 <= i < |blocks| && Acceptable(blocks[..i], catalogue)
    && blocks[i].position == position && exists j :: 0 <= j < i && blocks[j].position == position
  }

  predicate FirstInvalid(blocks: Blocks, catalogue: Catalogue, i: int, position: int) {
    && 0 <= i < |blocks| && Acceptable(blocks[..i], catalogue)
    && PositionsDistinct(blocks[..i+1]) && blocks[i].typeCode in catalogue.active
    && catalogue.clean(blocks[i]).None? && blocks[i].position == position
  }

  predicate FirstUntyped(blocks: Blocks, catalogue: Catalogue, i: int) {
    && 0 <= i < |blocks| && Acceptable(blocks[..i], catalogue)
    && PositionsDistinct(blocks[..i+1]) && blocks[i].typeCode !in catalogue.active
  }

  lemma CleanedGrows(blocks: Blocks, i: nat, catalogue: Catalogue)
    requires i < |blocks| && Acceptable(blocks[..i], catalogue) && PositionsDistinct(blocks[..i+1])
    requires blocks[i].typeCode in catalogue.active && catalogue.clean(blocks[i]).Some?
    ensures Acceptable(blocks[..i+1], catalogue)
    ensures Cleaned(blocks[..i+1], catalogue) ==
              Cleaned(blocks[..i], catalogue) + [blocks[i].(data := catalogue.clean(blocks[i]).value)]
  {
    assert blocks[..i+1] == blocks[..i] + [blocks[i]];
  }

  /** The loop of PutBlocks: the blocks with their data normalised, or the first offence. */
  method CheckBlocks(blocks: Blocks, catalogue: Catalogue) returns (r: Reply, cleaned: Blocks)
    ensures r.Done? <==> Acceptable(blocks, catalogue)
    ensures r.Done? ==> cleaned == Cleaned(blocks, catalogue)
    ensures r.DuplicatePosition? ==> exists i :: FirstToRepeat(blocks, catalogue, i, r.position)
    ensures r.BlockTypeNotFound? ==> exists i :: FirstUntyped(blocks, catalogue, i)
    ensures r.BlockDataInvalid? ==> exists i :: FirstInvalid(blocks, catalogue, i, r.position)
    ensures r.Done? || r.DuplicatePosition? || r.BlockTypeNotFound? || r.BlockDataInvalid?
  {
    var seen: set<int> := {};
    cleaned := [];
    for i := 0 to |blocks|
      invariant Acceptable(blocks[..i], catalogue) && cleaned == Cleaned(blocks[..i], catalogue)
      invariant forall p :: p in seen <==> exists j :: 0 <= j < i && blocks[j].position == p
    {
      var b := blocks[i];
      if b.position in seen {
        assert FirstToRepeat(blocks, catalogue, i, b.position);
        return DuplicatePosition(b.position), [];
      }
      seen := seen + {b.position};
      assert PositionsDistinct(blocks[..i+1]);
      if b.typeCode !in catalogue.active {
        assert FirstUntyped(blocks, catalogue, i);
        return BlockTypeNotFound, [];
      }
      var data := catalogue.clean(b);
      if data.None? {
        assert FirstInvalid(blocks, catalogue, i, b.position);
        return BlockDataInvalid(b.position), [];
      }
      cleaned := cleaned + [b.(data := data.value)];
      CleanedGrows(blocks, i, catalogue);
    }
    assert blocks[..|blocks|] == blocks;
    r := Done;
  }

  lemma InsertedIsOk(s: Store, doc: DocId, rev: RevId, key: Key)
    requires StoreOk(s) && doc !in s.docs && rev !in s.revs
    ensures StoreOk(Inserted(s, doc, rev, key))
  {
    InsertKeepsDocs(s, doc, rev, key);
    InsertKeepsNumbers(s, doc, rev, key);
  }

  lemma InsertedIsReadable(s: Store, doc: DocId, rev: RevId, key: Key)
    requires Readable(s)
    ensures Readable(Inserted(s, doc, rev, key))
  {}

  lemma InsertedKeys(s: Store, doc: DocId, rev: RevId, key: Key)
    requires KeysOk(s) && doc !in s.docs && !IsKeyTaken(s, key)
    ensures KeysOk(Inserted(s, doc, rev, key))
  {}

  class Service {
    var docs: map<DocId, Document>
    var revs: Revisions
    var keys: map<DocId, Key>

    ghost function State(): Store
      reads this
    {
      Store(docs, revs, keys)
    }

    ghost predicate Valid()
      reads this
    {
      StoreOk(State()) && Readable(State()) && KeysOk(State())
    }

    constructor ()
      ensures Valid() && State() == Store(map[], map[], map[])
    {
      docs, revs, keys := map[], map[], map[];
    }

    method InsertRows(doc: DocId, rev: RevId, key: Key)
      modifies this
      ensures State() == Inserted(old(State()), doc, rev, key)
    {
      docs := docs[doc := Document(Draft, None, None, rev, None)];
      keys := keys[doc := key];
      revs := revs[rev := Revision(doc, 1, [])];
    }

    /** InsertDocument: row, first revision and draft pointer in one transaction, which the unique index
        refuses while another document has the key. */
    method InsertDocument(doc: DocId, rev: RevId, key: Key) returns (r: Reply)
      requires Valid() && Mints(State(), Insert(doc, rev, key))
      modifies this
      ensures Valid() && State() == Apply(old(State()), Insert(doc, rev, key))
      ensures r == if IsKeyTaken(old(State()), key) then SlugTaken else Done
      ensures r.SlugTaken? <==> exists d :: d in old(docs) && old(keys)[d] == key
    {
      ghost var before := State();
      var taken := exists d | d in keys :: keys[d] == key;
      if taken {
        return SlugTaken;
      }
      InsertRows(doc, rev, key);
      InsertedIsOk(before, doc, rev, key);
      InsertedIsReadable(before, doc, rev, key);
      InsertedKeys(before, doc, rev, key);
      r := Done;
    }

    /** COALESCE(MAX(revision_no), 0) + 1 over the document's rows. */
    method NextRevisionNo(doc: DocId) returns (no: int)
      ensures no == MaxNo(revs, doc) + 1
      ensures IsNextNo(revs, doc, no)
    {
      var rest := RowsOf(revs, doc);
      var top: Option<RevId> := None;
      while rest != {}
        invariant rest <= RowsOf(revs, doc)
        invariant top.None? ==> rest == RowsOf(revs, doc)
        invariant top.Some? ==> IsNewest(revs, RowsOf(revs, doc) - rest, top.value)
        decreases |rest|
      {
        var r :| r in rest;
        rest := rest - {r};
        if top.None? || revs[r].no > revs[top.value].no {
          top := Some(r);
        }
      }
      if top.Some? {
        assert RowsOf(revs, doc) - rest == RowsOf(revs, doc);
        MaxNoIs(revs, doc, top.value);
      }
      no := (if top.None? then 0 else revs[top.value].no) + 1;
      MaxNoIsHighest(revs, doc);
    }

    /** The first row in descending order of number. */
    method NewestOf(ids: set<RevId>) returns (m: RevId)
      requires ids != {} && ids <= revs.Keys
      ensures IsNewest(revs, ids, m)
    {
      m :| m in ids;
      var rest := ids - {m};
      while rest != {}
        invariant rest <= ids && IsNewest(revs, ids - rest, m)
        decreases |rest|
      {
        var r :| r in rest;
        rest := rest - {r};
        if revs[r].no > revs[m].no {
          m := r;
        }
      }
      assert ids - rest == ids;
    }

    /** ORDER BY revision_no DESC OFFSET skip LIMIT 1. */
    method Cutoff(doc: DocId, skip: nat) returns (cutoff: Option<RevId>)
      requires NumbersUnique(revs, RowsOf(revs, doc))
      ensures cutoff == KthNewest(revs, RowsOf(revs, doc), skip)
    {
      var rows := RowsOf(revs, doc);
      var k: nat := skip;
      while k > 0 && rows != {}
        invariant rows <= RowsOf(revs, doc)
        invariant KthNewest(revs, rows, k) == KthNewest(revs, RowsOf(revs, doc), skip)
        decreases |rows|
      {
        var m := NewestOf(rows);
        KthIsOneFurther(revs, rows, k, m);
        rows, k := rows - {m}, k - 1;
      }
      if rows == {} {
        return None;
      }
      var m := NewestOf(rows);
      KthAtZero(revs, rows, m);
      cutoff := Some(m);
    }

    /** Deletes old checkpoints of one document, never its draft or its published row. */
    method PruneCheckpointRevisions(doc: DocId, keepDraft: RevId, keepPublished: RevId)
      requires NumbersUnique(revs, RowsOf(revs, doc))
      modifies this`revs
      ensures revs == old(revs) - Prunable(old(revs), doc, keepDraft, keepPublished)
    {
      var rows := RowsOf(revs, doc);
      var cutoff := Cutoff(doc, KEEP_COUNT);
      var rest, gone := rows, {};
      while rest != {}
        invariant rest <= rows && gone <= rows - rest
        invariant forall r :: r in rows - rest ==>
          (r in gone <==> r != keepDraft && r != keepPublished && cutoff.Some? && revs[r].no <= revs[cutoff.value].no)
        decreases |rest|
      {
        var r :| r in rest;
        rest := rest - {r};
        if r != keepDraft && r != keepPublished && cutoff.Some? && revs[r].no <= revs[cutoff.value].no {
          gone := gone + {r};
        }
      }
      assert gone == Prunable(revs, doc, keepDraft, keepPublished);
      revs := revs - gone;
    }

    method UpdateDocumentState(doc: DocId, state: DocState, firstPublish: bool, publishAt: Option<Time>, now: Time)
      requires doc in docs
      modifies this`docs
      ensures docs == old(docs)[doc := old(docs)[doc].(state := state, publishAt := publishAt,
                publishedAt := if firstPublish then Some(now) else old(docs)[doc].publishedAt)]
    {
      var d := docs[doc];
      docs := docs[doc := d.(state := state, publishAt := publishAt, publishedAt := if firstPublish then Some(now) else d.publishedAt)];
    }

    /** The checkpoint row: the draft's data under the next number. */
    method InsertCheckpoint(doc: DocId, draft: RevId, checkpoint: RevId)
      requires doc in docs && draft == docs[doc].draft && draft in revs
      modifies this`revs
      ensures revs == WithCheckpoint(old(State()), doc, checkpoint)
    {
      var data := revs[draft].data;
      var nextNo := NextRevisionNo(doc);
      revs := revs[checkpoint := Revision(doc, nextNo, data)];
    }

    /** The document row's two updates: the published pointer, then the state. */
    method PointAtCheckpoint(doc: DocId, state: DocState, firstPublish: bool, publishAt: Option<Time>, now: Time,
                             checkpoint: RevId)
      requires doc in docs
      modifies this`docs
      ensures docs == old(docs)[doc := old(docs)[doc].(state := state, publishAt := publishAt, published := Some(checkpoint),
                publishedAt := if firstPublish then Some(now) else old(docs)[doc].publishedAt)]
    {
      docs := docs[doc := docs[doc].(published := Some(checkpoint))];
      UpdateDocumentState(doc, state, firstPublish, publishAt, now);
    }

    /** snapshotAndPromote: copy the draft, repoint the published row, flip the state, prune. */
    method SnapshotAndPromote(doc: DocId, draft: RevId, state: DocState, firstPublish: bool, publishAt: Option<Time>,
                              now: Time, checkpoint: RevId)
      requires Valid() && doc in docs && draft == docs[doc].draft && checkpoint !in revs
      modifies this
      ensures old(Readable(State()))
      ensures State() == Promoted(old(State()), doc, checkpoint,
                old(docs)[doc].(state := state, publishAt := publishAt, published := Some(checkpoint),
                                publishedAt := if firstPublish then Some(now) else old(docs)[doc].publishedAt))
    {
      CheckpointKeepsNumbers(State(), doc, checkpoint);
      InsertCheckpoint(doc, draft, checkpoint);
      PointAtCheckpoint(doc, state, firstPublish, publishAt, now, checkpoint);
      assert NumbersUnique(revs, RowsOf(revs, doc));
      PruneCheckpointRevisions(doc, draft, checkpoint);
    }

    /** TransitionDocument: refused exactly as the specification says, or carried out whole. */
    method TransitionDocument(doc: DocId, action: Action, publishAt: Option<Time>, now: Time, checkpoint: RevId)
      returns (r: Reply)
      requires Valid() && checkpoint !in revs
      modifies this
      ensures Valid() && State() == Apply(old(State()), Transition(doc, action, publishAt, now, checkpoint))
      ensures r.DocumentNotFound? <==> doc !in old(docs)
      ensures doc in old(docs) ==>
        var a := ActLazily(old(docs)[doc], action, publishAt, now, checkpoint);
        r == if a.Refused? then Illegal(a.why) else Done
      ensures !r.Done? ==> State() == old(State())
    {
      if doc !in docs {
        return DocumentNotFound;
      }
      ApplyKeepsOk(State(), Transition(doc, action, publishAt, now, checkpoint));
      ApplyKeepsKeys(State(), Transition(doc, action, publishAt, now, checkpoint));
      var d := docs[doc];
      var next := Next(EffectiveState(d, now), action);
      if next.None? {
        return Illegal(InvalidTransition);
      }
      if action.Schedule? {
        if publishAt.None? {
          return Illegal(MissingPublishAt);
        }
        if publishAt.value <= now {
          return Illegal(PublishAtNotFuture);
        }
      }
      CarryOut(doc, action, next.value, publishAt, now, checkpoint);
      OkIsReadable(State());
      r := Done;
    }

    /** What TransitionDocument does once the action is known to be legal. */
    method CarryOut(doc: DocId, action: Action, next: DocState, publishAt: Option<Time>, now: Time, checkpoint: RevId)
      requires Valid() && doc in docs && checkpoint !in revs
      requires ActLazily(docs[doc], action, publishAt, now, checkpoint).Now?
      requires Next(EffectiveState(docs[doc], now), action) == Some(next)
      modifies this
      ensures State() == Settled(old(State()), doc, action, ActLazily(old(docs)[doc], action, publishAt, now, checkpoint).doc, checkpoint)
    {
      var d := docs[doc];
      if action.Schedule? {
        SnapshotAndPromote(doc, d.draft, Scheduled, false, publishAt, now, checkpoint);
        return;
      }
      var firstPublish := next.Published? && d.publishedAt.None?;
      if next.Published? {
        SnapshotAndPromote(doc, d.draft, Published, firstPublish, None, now, checkpoint);
      } else {
        UpdateDocumentState(doc, next, firstPublish, None, now);
      }
    }

    method SaveDraftRevisionData(rev: RevId, data: Blocks) returns (found: bool)
      requires Valid()
      modifies this`revs
      ensures found <==> rev in old(revs)
      ensures Valid() && State() == if found then Saved(old(State()), rev, data) else old(State())
    {
      found := rev in revs;
      if found {
        SaveKeepsOk(State(), rev, data);
        revs := revs[rev := revs[rev].(data := data)];
        OkIsReadable(State());
      }
    }

    /** PutBlocks: refused at the first block that repeats a position, names no active type or does not
        pass its type's check; otherwise the blocks are saved with their data normalised. */
    method PutBlocks(doc: DocId, blocks: Blocks, catalogue: Catalogue) returns (r: Reply)
      requires Valid()
      modifies this`revs
      ensures Valid() && State() == Apply(old(State()), Put(doc, blocks, catalogue))
      ensures r.DocumentNotFound? <==> doc !in docs
      ensures r.Done? <==> doc in docs && Acceptable(blocks, catalogue)
      ensures r.Done? ==> docs == old(docs) && revs[docs[doc].draft].data == Cleaned(blocks, catalogue)
      ensures r.Done? ==> forall i, j :: 0 <= i < j < |blocks| ==> blocks[i].position != blocks[j].position
      ensures r.Done? ==> forall b :: b in blocks ==> b.typeCode in catalogue.active && catalogue.clean(b).Some?
      ensures !r.Done? ==> State() == old(State())
      ensures r.DuplicatePosition? ==> exists i :: FirstToRepeat(blocks, catalogue, i, r.position)
      ensures r.BlockTypeNotFound? ==> exists i :: FirstUntyped(blocks, catalogue, i)
      ensures r.BlockDataInvalid? ==> exists i :: FirstInvalid(blocks, catalogue, i, r.position)
      ensures r.Done? || r.DocumentNotFound? || r.DuplicatePosition? || r.BlockTypeNotFound? || r.BlockDataInvalid?
    {
      if doc !in docs {
        return DocumentNotFound;
      }
      var refusal, cleaned := CheckBlocks(blocks, catalogue);
      if !refusal.Done? {
        return refusal;
      }
      var found := SaveDraftRevisionData(docs[doc].draft, cleaned);
      r := Done;
    }

    /** RestoreRevision: only a revision of this very document is copied into the draft. */
    method RestoreRevision(doc: DocId, rev: RevId) returns (r: Reply)
      requires Valid()
      modifies this`revs
      ensures Valid() && State() == Apply(old(State()), Restore(doc, rev))
      ensures r == if doc !in docs then DocumentNotFound else if IsRow(old(revs), doc, rev) then Done else RevisionNotFound
      ensures r.Done? ==> docs == old(docs) && revs[docs[doc].draft].data == old(revs)[rev].data
      ensures !r.Done? ==> State() == old(State())
    {
      if doc !in docs {
        return DocumentNotFound;
      }
      if rev !in revs {
        return RevisionNotFound;
      }
      var target := revs[rev];
      if target.doc != doc {
        return RevisionNotFound;
      }
      var found := SaveDraftRevisionData(docs[doc].draft, target.data);
      r := Done;
    }

    /** GetPublicBlocks: the published row's blocks whenever the document is visible. */
    method GetPublicBlocks(doc: DocId, now: Time) returns (r: Option<Blocks>)
      requires Valid()
      ensures r == Public(State(), doc, now)
      ensures r.Some? <==> doc in docs && IsPubliclyVisible(docs[doc], now)
    {
      if doc !in docs {
        return None;
      }
      assert DocOk(revs, doc, docs[doc]);
      if !IsPubliclyVisible(docs[doc], now) || docs[doc].published.None? {
        return None;
      }
      r := Some(revs[docs[doc].published.value].data);
    }
  }
}
