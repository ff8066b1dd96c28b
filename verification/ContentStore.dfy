/** The document and revision tables, and what each content operation does to them. */
module ContentStore {
  import opened Documents
  import opened Options

  /** One element of a revision's blocks snapshot. */
  datatype Block = Block(typeCode: string, position: int, data: string)

  type Blocks = seq<Block>

  datatype Revision = Revision(doc: DocId, no: int, data: Blocks)

  type Revisions = map<RevId, Revision>

  /** The columns of the unique index over documents. */
  datatype Key = Key(site: int, kind: string, locale: string, slug: string)

  datatype Store = Store(docs: map<DocId, Document>, revs: Revisions, keys: map<DocId, Key>)

  const KEEP_COUNT := 50  // revisionKeepCount

  function RowsOf(revs: Revisions, doc: DocId): (ids: set<RevId>)
    ensures ids <= revs.Keys
  {
    set r | r in revs && revs[r].doc == doc
  }

  ghost predicate NumbersUnique(revs: Revisions, ids: set<RevId>)
    requires ids <= revs.Keys
  {
    forall r, q :: r in ids && q in ids && revs[r].no == revs[q].no ==> r == q
  }

  // ---- ORDER BY revision_no DESC OFFSET k LIMIT 1

  predicate IsNewest(revs: Revisions, ids: set<RevId>, m: RevId)
    requires ids <= revs.Keys
  {
    m in ids && forall r :: r in ids ==> revs[r].no <= revs[m].no
  }

  lemma {:induction false} NewestExists(revs: Revisions, ids: set<RevId>)
    requires ids <= revs.Keys && ids != {}
    ensures exists m :: IsNewest(revs, ids, m)
    decreases |ids|
  {
    var x :| x in ids;
    var rest := ids - {x};
    if rest != {} {
      NewestExists(revs, rest);
      var m :| IsNewest(revs, rest, m);
      assert IsNewest(revs, ids, if revs[x].no > revs[m].no then x else m);
    } else {
      assert ids == {x};
      assert IsNewest(revs, ids, x);
    }
  }

  ghost function Newest(revs: Revisions, ids: set<RevId>): (m: RevId)
    requires ids <= revs.Keys && ids != {}
    ensures IsNewest(revs, ids, m)
  {
    NewestExists(revs, ids);
    var m :| IsNewest(revs, ids, m);
    m
  }

  /** The (k+1)-th newest row, if there are that many. */
  ghost function KthNewest(revs: Revisions, ids: set<RevId>, k: nat): (r: Option<RevId>)
    requires ids <= revs.Keys
    ensures r.Some? ==> r.value in ids
    decreases |ids|
  {
    if ids == {} then None
    else if k == 0 then Some(Newest(revs, ids))
    else KthNewest(revs, ids - {Newest(revs, ids)}, k - 1)
  }

  function NewerThan(revs: Revisions, ids: set<RevId>, r: RevId): set<RevId>
    requires ids <= revs.Keys && r in revs
  {
    set q | q in ids && revs[q].no > revs[r].no
  }

  /** A row is at or below the cutoff exactly when at least k rows are newer. */
  lemma {:induction false} CutoffIsRank(revs: Revisions, ids: set<RevId>, k: nat, r: RevId)
    requires ids <= revs.Keys && NumbersUnique(revs, ids) && r in ids
    ensures |NewerThan(revs, ids, r)| >= k <==>
              KthNewest(revs, ids, k).Some? && revs[r].no <= revs[KthNewest(revs, ids, k).value].no
    decreases |ids|
  {
    var m := Newest(revs, ids);
    var rest := ids - {m};
    if k == 0 {
    } else {
      if r == m {
        assert NewerThan(revs, ids, r) == {};
        KthBelow(revs, rest, k - 1, m);
      } else {
        CutoffIsRank(revs, rest, k - 1, r);
        assert NewerThan(revs, ids, r) == NewerThan(revs, rest, r) + {m};
      }
    }
  }

  lemma {:induction false} KthBelow(revs: Revisions, ids: set<RevId>, k: nat, m: RevId)
    requires ids <= revs.Keys && m in revs && forall q :: q in ids ==> revs[q].no < revs[m].no
    ensures KthNewest(revs, ids, k).Some? ==> revs[KthNewest(revs, ids, k).value].no < revs[m].no
  {}

  // ---- the operations on the tables

  /** COALESCE(MAX(revision_no), 0). */
  ghost function MaxNo(revs: Revisions, doc: DocId): int {
    var rows := RowsOf(revs, doc);
    if rows == {} then 0 else revs[Newest(revs, rows)].no
  }

  /** The checkpoints PruneCheckpointRevisions deletes. */
  ghost function Prunable(revs: Revisions, doc: DocId, draft: RevId, published: RevId): (gone: set<RevId>)
    ensures gone <= revs.Keys
  {
    var rows := RowsOf(revs, doc);
    var cutoff := KthNewest(revs, rows, KEEP_COUNT);
    set r | r in rows && r != draft && r != published && cutoff.Some? && revs[r].no <= revs[cutoff.value].no
  }

  /** snapshotAndPromote's new checkpoint: the draft's data under the next number. */
  ghost function WithCheckpoint(s: Store, doc: DocId, checkpoint: RevId): Revisions
    requires doc in s.docs && s.docs[doc].draft in s.revs
  {
    s.revs[checkpoint := Revision(doc, MaxNo(s.revs, doc) + 1, s.revs[s.docs[doc].draft].data)]
  }

  /** The whole transaction of snapshotAndPromote, leaving the document row as d. */
  ghost function Promoted(s: Store, doc: DocId, checkpoint: RevId, d: Document): Store
    requires doc in s.docs && s.docs[doc].draft in s.revs
  {
    var revs := WithCheckpoint(s, doc, checkpoint);
    s.(docs := s.docs[doc := d], revs := revs - Prunable(revs, doc, d.draft, checkpoint))
  }

  /** InsertDocument: the row and its one draft revision. */
  function Inserted(s: Store, doc: DocId, rev: RevId, key: Key): Store {
    Store(s.docs[doc := Document(Draft, None, None, rev, None)], s.revs[rev := Revision(doc, 1, [])], s.keys[doc := key])
  }

  /** SaveDraftRevisionData. */
  function Saved(s: Store, rev: RevId, data: Blocks): Store
    requires rev in s.revs
  {
    s.(revs := s.revs[rev := s.revs[rev].(data := data)])
  }

  predicate PositionsDistinct(blocks: Blocks) {
    forall i, j :: 0 <= i < j < |blocks| ==> blocks[i].position != blocks[j].position
  }

  /** The block types at a time: the active codes, and what becomes of a block's data when it is
      normalised and checked against its type, if it passes. */
  datatype Catalogue = Catalogue(active: set<string>, clean: Block -> Option<string>)

  /** A save is accepted when no position repeats, every block type is an active one and all data pass. */
  predicate Acceptable(blocks: Blocks, catalogue: Catalogue) {
    && PositionsDistinct(blocks)
    && forall i :: 0 <= i < |blocks| ==> blocks[i].typeCode in catalogue.active && catalogue.clean(blocks[i]).Some?
  }

  /** What is saved: the same blocks in the same order with their data normalised. */
  function Cleaned(blocks: Blocks, catalogue: Catalogue): (r: Blocks)
    requires Acceptable(blocks, catalogue)
    ensures |r| == |blocks|
    ensures forall i :: 0 <= i < |r| ==> Some(r[i].data) == catalogue.clean(blocks[i])
    ensures forall i :: 0 <= i < |r| ==> r[i].typeCode == blocks[i].typeCode && r[i].position == blocks[i].position
  {
    seq(|blocks|, i requires 0 <= i < |blocks| => blocks[i].(data := catalogue.clean(blocks[i]).value))
  }

  predicate IsKeyTaken(s: Store, key: Key) {
    exists d :: d in s.keys && s.keys[d] == key
  }

  /** The operations that write. */
  datatype Op =
    | Insert(doc: DocId, rev: RevId, key: Key)
    | Put(doc: DocId, blocks: Blocks, catalogue: Catalogue)
    | Restore(doc: DocId, rev: RevId)
    | Transition(doc: DocId, action: Action, publishAt: Option<Time>, now: Time, checkpoint: RevId)

  /** Ids the database mints are new. */
  predicate Mints(s: Store, op: Op) {
    match op
    case Insert(doc, rev, key) => doc !in s.docs && rev !in s.revs
    case Transition(_, _, _, _, checkpoint) => checkpoint !in s.revs
    case _ => true
  }

  predicate Promotes(action: Action) {
    action.Publish? || action.Schedule?
  }

  ghost predicate Readable(s: Store) {
    forall d :: d in s.docs ==> s.docs[d].draft in s.revs
  }

  /** A legal transition carried out, leaving the document row as d. */
  ghost function Settled(s: Store, doc: DocId, action: Action, d: Document, checkpoint: RevId): Store
    requires doc in s.docs && s.docs[doc].draft in s.revs
  {
    if Promotes(action) then Promoted(s, doc, checkpoint, d) else s.(docs := s.docs[doc := d])
  }

  /** One operation; a refused one changes nothing. */
  ghost function Apply(s: Store, op: Op): Store
    requires Readable(s)
  {
    match op
    case Insert(doc, rev, key) =>
      if IsKeyTaken(s, key) then s else Inserted(s, doc, rev, key)
    case Put(doc, blocks, catalogue) =>
      if doc in s.docs && Acceptable(blocks, catalogue) then Saved(s, s.docs[doc].draft, Cleaned(blocks, catalogue)) else s
    case Restore(doc, rev) =>
      if doc in s.docs && rev in s.revs && s.revs[rev].doc == doc then Saved(s, s.docs[doc].draft, s.revs[rev].data) else s
    case Transition(doc, action, publishAt, now, checkpoint) =>
      if doc !in s.docs then s
      else match ActLazily(s.docs[doc], action, publishAt, now, checkpoint)
        case Refused(_) => s
        case Now(d) => Settled(s, doc, action, d, checkpoint)
  }

  /** GetPublicBlocks: what a visitor reads, or nothing. */
  function Public(s: Store, doc: DocId, now: Time): Option<Blocks> {
    if doc in s.docs && IsPubliclyVisible(s.docs[doc], now) && s.docs[doc].published.Some? && s.docs[doc].published.value in s.revs
    then Some(s.revs[s.docs[doc].published.value].data)
    else None
  }

  // ---- the invariant

  predicate IsRow(revs: Revisions, doc: DocId, r: RevId) {
    r in revs && revs[r].doc == doc
  }

  /** The row with the highest number a document has. */
  function Top(d: Document): RevId {
    if d.published.Some? then d.published.value else d.draft
  }

  ghost predicate TopIsNewest(revs: Revisions, doc: DocId, d: Document) {
    && IsRow(revs, doc, Top(d))
    && (forall r :: IsRow(revs, doc, r) ==> revs[r].no <= revs[Top(d)].no)
    && (d.published.None? ==> forall r :: IsRow(revs, doc, r) ==> r == d.draft)
  }

  predicate PointersOk(revs: Revisions, doc: DocId, d: Document) {
    && IsRow(revs, doc, d.draft) && revs[d.draft].no == 1
    && d.published != Some(d.draft)
    && (d.state != Draft ==> d.published.Some?)
    && DateOk(d)
  }

  ghost predicate DocOk(revs: Revisions, doc: DocId, d: Document) {
    PointersOk(revs, doc, d) && TopIsNewest(revs, doc, d)
  }

  ghost predicate AllDocsOk(s: Store) {
    forall d :: d in s.docs ==> DocOk(s.revs, d, s.docs[d])
  }

  ghost predicate NoneTwice(revs: Revisions) {
    forall r, q :: r in revs && q in revs && revs[r].doc == revs[q].doc && revs[r].no == revs[q].no ==> r == q
  }

  predicate Owned(s: Store, r: RevId) {
    r in s.revs ==> s.revs[r].doc in s.docs && s.revs[r].no >= 1
  }

  ghost predicate NoOrphans(s: Store) {
    forall r {:trigger Owned(s, r)} :: Owned(s, r)
  }

  ghost predicate StoreOk(s: Store) {
    AllDocsOk(s) && NoneTwice(s.revs) && NoOrphans(s)
  }

  /** History: the draft as it stood at each document's latest publish or schedule, and every
      revision number each document was ever given, in order. */
  datatype History = History(promoted: map<DocId, Blocks>, numbers: map<DocId, seq<int>>)

  predicate Increasing(nos: seq<int>) {
    forall i, j :: 0 <= i < j < |nos| ==> nos[i] < nos[j]
  }

  predicate DocRecorded(revs: Revisions, doc: DocId, d: Document, h: History)
    requires Top(d) in revs
  {
    && doc in h.numbers && |h.numbers[doc]| > 0 && Increasing(h.numbers[doc])
    && h.numbers[doc][|h.numbers[doc]| - 1] == revs[Top(d)].no
    && (d.published.Some? ==> doc in h.promoted && h.promoted[doc] == revs[d.published.value].data)
  }

  ghost predicate Recorded(s: Store, h: History) {
    forall d :: d in s.docs ==> Top(s.docs[d]) in s.revs && DocRecorded(s.revs, d, s.docs[d], h)
  }

  ghost function Remember(s: Store, h: History, op: Op): History
    requires Readable(s)
  {
    match op
    case Insert(doc, rev, key) => if IsKeyTaken(s, key) then h else h.(numbers := h.numbers[doc := [1]])
    case Transition(doc, action, publishAt, now, checkpoint) =>
      if doc in s.docs && Promotes(action) && ActLazily(s.docs[doc], action, publishAt, now, checkpoint).Now?
      then Promotion(s, h, doc) else h
    case _ => h
  }

  ghost function Promotion(s: Store, h: History, doc: DocId): History
    requires doc in s.docs && s.docs[doc].draft in s.revs
  {
    History(h.promoted[doc := s.revs[s.docs[doc].draft].data],
            h.numbers[doc := (if doc in h.numbers then h.numbers[doc] else []) + [MaxNo(s.revs, doc) + 1]])
  }

  lemma OkIsReadable(s: Store)
    requires StoreOk(s)
    ensures Readable(s)
  {
    forall d | d in s.docs
      ensures s.docs[d].draft in s.revs
    {
      assert DocOk(s.revs, d, s.docs[d]);
    }
  }

  /** The highest number of a document is the number of its published row, or else its draft's. */
  lemma MaxNoIsTop(s: Store, doc: DocId)
    requires AllDocsOk(s) && doc in s.docs
    ensures Top(s.docs[doc]) in s.revs && MaxNo(s.revs, doc) == s.revs[Top(s.docs[doc])].no
  {
    var top := Top(s.docs[doc]);
    assert DocOk(s.revs, doc, s.docs[doc]);
    var rows := RowsOf(s.revs, doc);
    assert top in rows;
    var m := Newest(s.revs, rows);
    assert s.revs[top].no <= s.revs[m].no;
    assert IsRow(s.revs, doc, m);
  }

  ghost predicate SameRows(revs: Revisions, after: Revisions, doc: DocId) {
    && (forall r :: IsRow(revs, doc, r) <==> IsRow(after, doc, r))
    && (forall r :: IsRow(revs, doc, r) ==> after[r].no == revs[r].no)
  }

  /** A document whose own rows keep their numbers stays in order. */
  lemma SameRowsKeepOk(revs: Revisions, after: Revisions, doc: DocId, d: Document)
    requires DocOk(revs, doc, d) && SameRows(revs, after, doc)
    ensures DocOk(after, doc, d)
  {
    assert IsRow(revs, doc, Top(d)) && IsRow(revs, doc, d.draft);
    assert IsRow(after, doc, Top(d)) && IsRow(after, doc, d.draft);
  }

  predicate NoNewRows(revs: Revisions, after: Revisions) {
    forall r :: r in after ==> r in revs && after[r].doc == revs[r].doc && after[r].no == revs[r].no
  }

  lemma FewerRowsNoneTwice(revs: Revisions, after: Revisions)
    requires NoneTwice(revs) && NoNewRows(revs, after)
    ensures NoneTwice(after)
  {}

  lemma FewerRowsNoOrphans(s: Store, t: Store)
    requires NoOrphans(s) && NoNewRows(s.revs, t.revs) && s.docs.Keys <= t.docs.Keys
    ensures NoOrphans(t)
  {
    forall r
      ensures Owned(t, r)
    {
      assert Owned(s, r);
    }
  }

  // ---- saves

  lemma SaveKeepsDocs(s: Store, rev: RevId, data: Blocks)
    requires AllDocsOk(s) && rev in s.revs
    ensures AllDocsOk(Saved(s, rev, data))
  {
    var t := Saved(s, rev, data);
    forall d | d in t.docs
      ensures DocOk(t.revs, d, t.docs[d])
    {
      assert SameRows(s.revs, t.revs, d);
      SameRowsKeepOk(s.revs, t.revs, d, s.docs[d]);
    }
  }

  lemma SaveKeepsOk(s: Store, rev: RevId, data: Blocks)
    requires StoreOk(s) && rev in s.revs
    ensures StoreOk(Saved(s, rev, data))
  {
    var t := Saved(s, rev, data);
    SaveKeepsDocs(s, rev, data);
    assert NoNewRows(s.revs, t.revs);
    FewerRowsNoneTwice(s.revs, t.revs);
    FewerRowsNoOrphans(s, t);
  }

  /** A document's public row is no document's draft. */
  lemma PublishedIsNoDraft(s: Store, doc: DocId, d: DocId)
    requires StoreOk(s) && doc in s.docs && d in s.docs && s.docs[d].published.Some?
    ensures s.docs[d].published.value in s.revs && s.docs[d].published.value != s.docs[doc].draft
  {
    assert DocOk(s.revs, doc, s.docs[doc]) && DocOk(s.revs, d, s.docs[d]);
  }

  lemma SaveIsUnseen(s: Store, doc: DocId, data: Blocks, d: DocId, now: Time)
    requires StoreOk(s) && doc in s.docs && s.docs[doc].draft in s.revs
    ensures Public(Saved(s, s.docs[doc].draft, data), d, now) == Public(s, d, now)
  {
    if d in s.docs && s.docs[d].published.Some? {
      PublishedIsNoDraft(s, doc, d);
    }
  }

  lemma SaveKeepsRecord(s: Store, h: History, doc: DocId, data: Blocks)
    requires StoreOk(s) && Recorded(s, h) && doc in s.docs && s.docs[doc].draft in s.revs
    ensures Recorded(Saved(s, s.docs[doc].draft, data), h)
  {
    var t := Saved(s, s.docs[doc].draft, data);
    forall d | d in t.docs
      ensures Top(t.docs[d]) in t.revs && DocRecorded(t.revs, d, t.docs[d], h)
    {
      assert DocRecorded(s.revs, d, s.docs[d], h);
      if s.docs[d].published.Some? {
        PublishedIsNoDraft(s, doc, d);
      }
    }
  }

  /** Where a document's public row is its draft row, saves show: the two rows being different is
      exactly what isolates visitors from editing. */
  lemma IsolationIff(s: Store, doc: DocId, now: Time)
    requires doc in s.docs && s.docs[doc].draft in s.revs && Public(s, doc, now).Some?
    ensures (forall data :: Public(Saved(s, s.docs[doc].draft, data), doc, now) == Public(s, doc, now))
       <==> s.docs[doc].published != Some(s.docs[doc].draft)
  {
    if s.docs[doc].published == Some(s.docs[doc].draft) {
      var other := Public(s, doc, now).value + [Block("", 0, "")];
      assert Public(Saved(s, s.docs[doc].draft, other), doc, now) == Some(other);
    }
  }

  // ---- inserts

  lemma InsertKeepsDocs(s: Store, doc: DocId, rev: RevId, key: Key)
    requires AllDocsOk(s) && NoOrphans(s) && doc !in s.docs && rev !in s.revs
    ensures AllDocsOk(Inserted(s, doc, rev, key))
  {
    var t := Inserted(s, doc, rev, key);
    forall d | d in t.docs
      ensures DocOk(t.revs, d, t.docs[d])
    {
      if d == doc {
        forall r | IsRow(t.revs, doc, r)
          ensures r == rev
        {
          assert Owned(s, r);
        }
      } else {
        assert SameRows(s.revs, t.revs, d);
        SameRowsKeepOk(s.revs, t.revs, d, s.docs[d]);
      }
    }
  }

  lemma InsertKeepsNumbers(s: Store, doc: DocId, rev: RevId, key: Key)
    requires NoneTwice(s.revs) && NoOrphans(s) && doc !in s.docs && rev !in s.revs
    ensures NoneTwice(Inserted(s, doc, rev, key).revs) && NoOrphans(Inserted(s, doc, rev, key))
  {
    var t := Inserted(s, doc, rev, key);
    forall r
      ensures Owned(t, r) && (r in s.revs ==> s.revs[r].doc != doc)
    {
      assert Owned(s, r);
    }
  }

  lemma InsertKeepsRecord(s: Store, h: History, doc: DocId, rev: RevId, key: Key)
    requires AllDocsOk(s) && Recorded(s, h) && doc !in s.docs && rev !in s.revs
    ensures Recorded(Inserted(s, doc, rev, key), h.(numbers := h.numbers[doc := [1]]))
  {
    var t, g := Inserted(s, doc, rev, key), h.(numbers := h.numbers[doc := [1]]);
    forall d | d in t.docs
      ensures Top(t.docs[d]) in t.revs && DocRecorded(t.revs, d, t.docs[d], g)
    {
      if d != doc {
        assert DocOk(s.revs, d, s.docs[d]) && DocRecorded(s.revs, d, s.docs[d], h);
      }
    }
  }

  // ---- publish and schedule

  /** The new checkpoint gets a number above every earlier one. */
  lemma CheckpointIsNewest(s: Store, doc: DocId, checkpoint: RevId, r: RevId)
    requires StoreOk(s) && Readable(s) && doc in s.docs && checkpoint !in s.revs && IsRow(s.revs, doc, r)
    ensures s.revs[r].no < WithCheckpoint(s, doc, checkpoint)[checkpoint].no
  {
    assert DocOk(s.revs, doc, s.docs[doc]);
    MaxNoIsTop(s, doc);
  }

  /** The number is the next one: one more than the highest in use. */
  lemma CheckpointIsNext(s: Store, doc: DocId, checkpoint: RevId)
    requires StoreOk(s) && Readable(s) && doc in s.docs && checkpoint !in s.revs
    ensures exists r :: IsRow(s.revs, doc, r) && WithCheckpoint(s, doc, checkpoint)[checkpoint].no == s.revs[r].no + 1
  {
    MaxNoIsTop(s, doc);
    assert DocOk(s.revs, doc, s.docs[doc]);
    assert IsRow(s.revs, doc, Top(s.docs[doc]));
  }

  lemma CheckpointKeepsNumbers(s: Store, doc: DocId, checkpoint: RevId)
    requires StoreOk(s) && Readable(s) && doc in s.docs && checkpoint !in s.revs
    ensures NoneTwice(WithCheckpoint(s, doc, checkpoint))
  {
    forall r | IsRow(s.revs, doc, r)
      ensures s.revs[r].no < WithCheckpoint(s, doc, checkpoint)[checkpoint].no
    {
      CheckpointIsNewest(s, doc, checkpoint, r);
    }
    assert forall r :: r in s.revs && s.revs[r].doc == doc ==> IsRow(s.revs, doc, r);
  }

  lemma CheckpointLeads(s: Store, doc: DocId, checkpoint: RevId)
    requires StoreOk(s) && Readable(s) && doc in s.docs && checkpoint !in s.revs
    ensures var revs := WithCheckpoint(s, doc, checkpoint); NewerThan(revs, RowsOf(revs, doc), checkpoint) == {}
  {
    var revs := WithCheckpoint(s, doc, checkpoint);
    forall r | r in RowsOf(revs, doc)
      ensures revs[r].no <= revs[checkpoint].no
    {
      if r != checkpoint {
        CheckpointIsNewest(s, doc, checkpoint, r);
      }
    }
  }

  /** Pruning keeps the draft and exactly those checkpoints that fewer than fifty are newer than;
      other documents' rows are not looked at. */
  lemma PruneKeepsFifty(s: Store, doc: DocId, checkpoint: RevId, d: Document, r: RevId)
    requires StoreOk(s) && Readable(s) && doc in s.docs && checkpoint !in s.revs && d.draft == s.docs[doc].draft
    requires r in WithCheckpoint(s, doc, checkpoint)
    ensures var revs := WithCheckpoint(s, doc, checkpoint);
            r in Promoted(s, doc, checkpoint, d).revs <==>
              revs[r].doc != doc || r == d.draft || |NewerThan(revs, RowsOf(revs, doc), r)| < 50
  {
    var revs := WithCheckpoint(s, doc, checkpoint);
    var rows := RowsOf(revs, doc);
    CheckpointKeepsNumbers(s, doc, checkpoint);
    CheckpointLeads(s, doc, checkpoint);
    if r in rows {
      assert NumbersUnique(revs, rows);
      CutoffIsRank(revs, rows, KEEP_COUNT, r);
    }
  }

  /** What the rest of the proof needs of a promotion: rows only go, and only rows of this document
      that are neither its draft nor the new checkpoint. */
  ghost predicate PromotesRows(s: Store, t: Store, doc: DocId, checkpoint: RevId)
    requires doc in s.docs && s.docs[doc].draft in s.revs
  {
    var revs := WithCheckpoint(s, doc, checkpoint);
    && (forall r :: r in t.revs ==> r in revs && t.revs[r] == revs[r])
    && (forall r :: r in revs && (revs[r].doc != doc || r == checkpoint || r == s.docs[doc].draft) ==> r in t.revs)
  }

  lemma PromotedRows(s: Store, doc: DocId, checkpoint: RevId, d: Document)
    requires doc in s.docs && s.docs[doc].draft in s.revs && d.draft == s.docs[doc].draft
    ensures PromotesRows(s, Promoted(s, doc, checkpoint, d), doc, checkpoint)
  {}

  lemma PromotedDocOk(s: Store, t: Store, doc: DocId, checkpoint: RevId, d: Document)
    requires StoreOk(s) && Readable(s) && doc in s.docs && checkpoint !in s.revs && PromotesRows(s, t, doc, checkpoint)
    requires d.draft == s.docs[doc].draft && d.published == Some(checkpoint) && DateOk(d)
    ensures DocOk(t.revs, doc, d)
  {
    assert DocOk(s.revs, doc, s.docs[doc]);
    forall r | IsRow(t.revs, doc, r)
      ensures t.revs[r].no <= t.revs[checkpoint].no
    {
      if r != checkpoint {
        assert IsRow(s.revs, doc, r);
        CheckpointIsNewest(s, doc, checkpoint, r);
      }
    }
  }

  lemma PromotedElsewhere(s: Store, t: Store, doc: DocId, checkpoint: RevId, x: DocId)
    requires doc in s.docs && s.docs[doc].draft in s.revs && checkpoint !in s.revs
    requires PromotesRows(s, t, doc, checkpoint) && x != doc
    ensures SameRows(s.revs, t.revs, x)
    ensures forall r :: IsRow(s.revs, x, r) ==> IsRow(t.revs, x, r) && t.revs[r] == s.revs[r]
  {
    var revs := WithCheckpoint(s, doc, checkpoint);
    forall r
      ensures IsRow(s.revs, x, r) <==> IsRow(t.revs, x, r)
    {
      if IsRow(s.revs, x, r) {
        assert r in revs && revs[r] == s.revs[r];
      }
    }
  }

  lemma PromoteKeepsDocs(s: Store, t: Store, doc: DocId, checkpoint: RevId, d: Document)
    requires StoreOk(s) && Readable(s) && doc in s.docs && checkpoint !in s.revs && PromotesRows(s, t, doc, checkpoint)
    requires d.draft == s.docs[doc].draft && d.published == Some(checkpoint) && DateOk(d) && t.docs == s.docs[doc := d]
    ensures AllDocsOk(t)
  {
    forall x | x in t.docs
      ensures DocOk(t.revs, x, t.docs[x])
    {
      if x == doc {
        PromotedDocOk(s, t, doc, checkpoint, d);
      } else {
        PromotedElsewhere(s, t, doc, checkpoint, x);
        SameRowsKeepOk(s.revs, t.revs, x, s.docs[x]);
      }
    }
  }

  lemma CheckpointIsOwned(s: Store, doc: DocId, checkpoint: RevId, d: Document)
    requires AllDocsOk(s) && NoOrphans(s) && Readable(s) && doc in s.docs && checkpoint !in s.revs
    ensures NoOrphans(s.(docs := s.docs[doc := d], revs := WithCheckpoint(s, doc, checkpoint)))
  {
    var t := s.(docs := s.docs[doc := d], revs := WithCheckpoint(s, doc, checkpoint));
    MaxNoIsTop(s, doc);
    forall r
      ensures Owned(t, r)
    {
      assert Owned(s, r) && Owned(s, Top(s.docs[doc]));
    }
  }

  lemma PromoteKeepsOk(s: Store, doc: DocId, checkpoint: RevId, d: Document)
    requires StoreOk(s) && Readable(s) && doc in s.docs && checkpoint !in s.revs
    requires d.draft == s.docs[doc].draft && d.published == Some(checkpoint) && DateOk(d)
    ensures StoreOk(Promoted(s, doc, checkpoint, d))
  {
    var t := Promoted(s, doc, checkpoint, d);
    var u := s.(docs := s.docs[doc := d], revs := WithCheckpoint(s, doc, checkpoint));
    PromotedRows(s, doc, checkpoint, d);
    PromoteKeepsDocs(s, t, doc, checkpoint, d);
    CheckpointKeepsNumbers(s, doc, checkpoint);
    CheckpointIsOwned(s, doc, checkpoint, d);
    assert NoNewRows(u.revs, t.revs);
    FewerRowsNoneTwice(u.revs, t.revs);
    FewerRowsNoOrphans(u, t);
  }

  lemma PromotedDocRecorded(s: Store, t: Store, h: History, doc: DocId, checkpoint: RevId, d: Document)
    requires AllDocsOk(s) && Recorded(s, h) && Readable(s) && doc in s.docs && checkpoint !in s.revs
    requires PromotesRows(s, t, doc, checkpoint)
    requires d.draft == s.docs[doc].draft && d.published == Some(checkpoint)
    ensures checkpoint in t.revs && DocRecorded(t.revs, doc, d, Promotion(s, h, doc))
  {
    MaxNoIsTop(s, doc);
    assert DocRecorded(s.revs, doc, s.docs[doc], h);
  }

  lemma PromoteKeepsRecord(s: Store, h: History, doc: DocId, checkpoint: RevId, d: Document)
    requires AllDocsOk(s) && Recorded(s, h) && Readable(s) && doc in s.docs && checkpoint !in s.revs
    requires d.draft == s.docs[doc].draft && d.published == Some(checkpoint)
    ensures Recorded(Promoted(s, doc, checkpoint, d), Promotion(s, h, doc))
  {
    PromotedRows(s, doc, checkpoint, d);
    PromotionIsRecorded(s, Promoted(s, doc, checkpoint, d), h, doc, checkpoint, d);
  }

  lemma PromotionIsRecorded(s: Store, t: Store, h: History, doc: DocId, checkpoint: RevId, d: Document)
    requires AllDocsOk(s) && Recorded(s, h) && Readable(s) && doc in s.docs && checkpoint !in s.revs
    requires PromotesRows(s, t, doc, checkpoint)
    requires d.draft == s.docs[doc].draft && d.published == Some(checkpoint) && t.docs == s.docs[doc := d]
    ensures Recorded(t, Promotion(s, h, doc))
  {
    var g := Promotion(s, h, doc);
    forall x | x in t.docs
      ensures Top(t.docs[x]) in t.revs && DocRecorded(t.revs, x, t.docs[x], g)
    {
      if x == doc {
        PromotedDocRecorded(s, t, h, doc, checkpoint, d);
      } else {
        assert DocOk(s.revs, x, s.docs[x]) && DocRecorded(s.revs, x, s.docs[x], h);
        assert IsRow(s.revs, x, Top(s.docs[x]));
        PromotedElsewhere(s, t, doc, checkpoint, x);
      }
    }
  }

  // ---- unlist and revert

  lemma FlipKeepsDocs(s: Store, doc: DocId, d: Document)
    requires AllDocsOk(s) && doc in s.docs
    requires d.draft == s.docs[doc].draft && d.published == s.docs[doc].published && DateOk(d)
    requires d.state != Draft ==> d.published.Some?
    ensures AllDocsOk(s.(docs := s.docs[doc := d]))
  {}

  lemma FlipKeepsRecord(s: Store, h: History, doc: DocId, d: Document)
    requires Recorded(s, h) && doc in s.docs
    requires d.draft == s.docs[doc].draft && d.published == s.docs[doc].published
    ensures Recorded(s.(docs := s.docs[doc := d]), h)
  {}

  lemma FlipKeepsOk(s: Store, doc: DocId, d: Document)
    requires StoreOk(s) && doc in s.docs
    requires d.draft == s.docs[doc].draft && d.published == s.docs[doc].published && DateOk(d)
    requires d.state != Draft ==> d.published.Some?
    ensures StoreOk(s.(docs := s.docs[doc := d]))
  {
    FlipKeepsDocs(s, doc, d);
    FewerRowsNoOrphans(s, s.(docs := s.docs[doc := d]));
  }

  // ---- runs

  /** Every transition that does not promote needs a document that was promoted before. */
  lemma FlipIsOfPromoted(d: Document, action: Action, publishAt: Option<Time>, now: Time, checkpoint: RevId)
    requires DateOk(d) && (d.state != Draft ==> d.published.Some?)
    ensures var a := ActLazily(d, action, publishAt, now, checkpoint);
            a.Now? ==>
              && a.doc.draft == d.draft && DateOk(a.doc)
              && a.doc.published == (if Promotes(action) then Some(checkpoint) else d.published)
              && a.doc.published.Some?
  {
    ActKeepsDateOk(d, EffectiveState(d, now), action, publishAt, now, checkpoint);
  }

  lemma TransitionKeepsOk(s: Store, op: Op)
    requires StoreOk(s) && Readable(s) && Mints(s, op) && op.Transition?
    ensures StoreOk(Apply(s, op))
  {
    var doc := op.doc;
    if doc in s.docs {
      var a := ActLazily(s.docs[doc], op.action, op.publishAt, op.now, op.checkpoint);
      assert DocOk(s.revs, doc, s.docs[doc]);
      FlipIsOfPromoted(s.docs[doc], op.action, op.publishAt, op.now, op.checkpoint);
      if a.Now? {
        if Promotes(op.action) {
          PromoteKeepsOk(s, doc, op.checkpoint, a.doc);
        } else {
          FlipKeepsOk(s, doc, a.doc);
        }
      }
    }
  }

  lemma TransitionKeepsRecord(s: Store, h: History, op: Op)
    requires StoreOk(s) && Recorded(s, h) && Readable(s) && Mints(s, op) && op.Transition?
    ensures Recorded(Apply(s, op), Remember(s, h, op))
  {
    var doc := op.doc;
    if doc in s.docs {
      var a := ActLazily(s.docs[doc], op.action, op.publishAt, op.now, op.checkpoint);
      assert DocOk(s.revs, doc, s.docs[doc]);
      FlipIsOfPromoted(s.docs[doc], op.action, op.publishAt, op.now, op.checkpoint);
      if a.Now? {
        if Promotes(op.action) {
          PromoteKeepsRecord(s, h, doc, op.checkpoint, a.doc);
        } else {
          FlipKeepsRecord(s, h, doc, a.doc);
        }
      }
    }
  }

  /** Every operation keeps the store in order. */
  lemma ApplyKeepsOk(s: Store, op: Op)
    requires StoreOk(s) && Readable(s) && Mints(s, op)
    ensures StoreOk(Apply(s, op))
  {
    match op
    case Insert(doc, rev, key) =>
      InsertKeepsDocs(s, doc, rev, key);
      InsertKeepsNumbers(s, doc, rev, key);
    case Put(doc, blocks, catalogue) =>
      if doc in s.docs && Acceptable(blocks, catalogue) { SaveKeepsOk(s, s.docs[doc].draft, Cleaned(blocks, catalogue)); }
    case Restore(doc, rev) =>
      if doc in s.docs && rev in s.revs { SaveKeepsOk(s, s.docs[doc].draft, s.revs[rev].data); }
    case Transition(_, _, _, _, _) =>
      TransitionKeepsOk(s, op);
  }

  lemma ApplyKeepsRecord(s: Store, h: History, op: Op)
    requires StoreOk(s) && Recorded(s, h) && Readable(s) && Mints(s, op)
    ensures Recorded(Apply(s, op), Remember(s, h, op))
  {
    match op
    case Insert(doc, rev, key) =>
      InsertKeepsRecord(s, h, doc, rev, key);
    case Put(doc, blocks, catalogue) =>
      if doc in s.docs && Acceptable(blocks, catalogue) { SaveKeepsRecord(s, h, doc, Cleaned(blocks, catalogue)); }
    case Restore(doc, rev) =>
      if doc in s.docs && rev in s.revs { SaveKeepsRecord(s, h, doc, s.revs[rev].data); }
    case Transition(_, _, _, _, _) =>
      TransitionKeepsRecord(s, h, op);
  }

  /** No two documents have one key, whatever is done. */
  ghost predicate KeysOk(s: Store) {
    s.keys.Keys == s.docs.Keys && forall d, e :: d in s.keys && e in s.keys && s.keys[d] == s.keys[e] ==> d == e
  }

  lemma ApplyKeepsKeys(s: Store, op: Op)
    requires Readable(s) && KeysOk(s) && Mints(s, op)
    ensures KeysOk(Apply(s, op))
  {
    match op
    case Insert(doc, rev, key) =>
    case Put(_, _, _) =>
    case Restore(_, _) =>
    case Transition(_, _, _, _, _) =>
  }

  ghost predicate IsRun(stores: seq<Store>, histories: seq<History>, ops: seq<Op>) {
    && |stores| == |histories| == |ops| + 1
    && stores[0] == Store(map[], map[], map[]) && histories[0] == History(map[], map[])
    && forall n :: 0 <= n < |ops| ==> Steps(stores[n], histories[n], ops[n], stores[n+1], histories[n+1])
  }

  ghost predicate Steps(s: Store, h: History, op: Op, t: Store, g: History) {
    Readable(s) && Mints(s, op) && t == Apply(s, op) && g == Remember(s, h, op)
  }

  /** In every reachable state: draft and published rows differ and exist, a visible document has a
      published row, publishAt is set iff SCHEDULED, and no revision number was ever given twice. */
  lemma {:induction false} RunKeepsOk(stores: seq<Store>, histories: seq<History>, ops: seq<Op>, n: nat)
    requires IsRun(stores, histories, ops) && n <= |ops|
    ensures StoreOk(stores[n]) && Recorded(stores[n], histories[n])
  {
    if n == 0 {
    } else {
      RunKeepsOk(stores, histories, ops, n - 1);
      assert Steps(stores[n-1], histories[n-1], ops[n-1], stores[n], histories[n]);
      ApplyKeepsOk(stores[n-1], ops[n-1]);
      ApplyKeepsRecord(stores[n-1], histories[n-1], ops[n-1]);
    }
  }

  /** Visitors read the draft as it stood at the latest publish or schedule, whatever was saved or
      restored since. */
  lemma PublicIsLastPromoted(stores: seq<Store>, histories: seq<History>, ops: seq<Op>, n: nat, doc: DocId, now: Time)
    requires IsRun(stores, histories, ops) && n <= |ops|
    requires doc in stores[n].docs && IsPubliclyVisible(stores[n].docs[doc], now)
    ensures doc in histories[n].promoted && Public(stores[n], doc, now) == Some(histories[n].promoted[doc])
  {
    RunKeepsOk(stores, histories, ops, n);
    assert DocOk(stores[n].revs, doc, stores[n].docs[doc]);
    assert DocRecorded(stores[n].revs, doc, stores[n].docs[doc], histories[n]);
  }

  /** No save or restore changes what any visitor reads, at any time. */
  lemma EditsAreInvisible(stores: seq<Store>, histories: seq<History>, ops: seq<Op>, n: nat, doc: DocId, now: Time)
    requires IsRun(stores, histories, ops) && n < |ops| && (ops[n].Put? || ops[n].Restore?)
    ensures Public(stores[n+1], doc, now) == Public(stores[n], doc, now)
  {
    RunKeepsOk(stores, histories, ops, n);
    var s := stores[n];
    assert Steps(s, histories[n], ops[n], stores[n+1], histories[n+1]);
    match ops[n]
    case Put(d, blocks, catalogue) =>
      if d in s.docs && Acceptable(blocks, catalogue) { SaveIsUnseen(s, d, Cleaned(blocks, catalogue), doc, now); }
    case Restore(d, rev) =>
      if d in s.docs && rev in s.revs { SaveIsUnseen(s, d, s.revs[rev].data, doc, now); }
  }

  /** Restoring a stored revision and publishing shows visitors that revision's blocks again. */
  lemma RestoreThenPublishShows(s: Store, doc: DocId, rev: RevId, now: Time, checkpoint: RevId, t: Time)
    requires StoreOk(s) && Readable(s) && doc in s.docs && IsRow(s.revs, doc, rev) && checkpoint !in s.revs
    requires EffectiveState(s.docs[doc], now) != Published
    ensures var restored := Apply(s, Restore(doc, rev));
            && Readable(restored)
            && Public(Apply(restored, Transition(doc, Publish, None, now, checkpoint)), doc, t) == Some(s.revs[rev].data)
  {
    PublishShowsDraft(Apply(s, Restore(doc, rev)), doc, now, checkpoint, t);
  }

  /** An accepted save is stored: publishing it shows visitors the saved blocks. */
  lemma PutThenPublishShows(s: Store, doc: DocId, blocks: Blocks, catalogue: Catalogue, now: Time, checkpoint: RevId, t: Time)
    requires StoreOk(s) && Readable(s) && doc in s.docs && Acceptable(blocks, catalogue) && checkpoint !in s.revs
    requires EffectiveState(s.docs[doc], now) != Published
    ensures var saved := Apply(s, Put(doc, blocks, catalogue));
            && Readable(saved)
            && Public(Apply(saved, Transition(doc, Publish, None, now, checkpoint)), doc, t) == Some(Cleaned(blocks, catalogue))
  {
    var saved := Apply(s, Put(doc, blocks, catalogue));
    PublishShowsDraft(saved, doc, now, checkpoint, t);
  }

  /** A new document has no blocks to show. */
  lemma InsertThenPublishShows(s: Store, doc: DocId, rev: RevId, key: Key, now: Time, checkpoint: RevId, t: Time)
    requires StoreOk(s) && Readable(s) && Mints(s, Insert(doc, rev, key)) && !IsKeyTaken(s, key) && checkpoint !in s.revs.Keys + {rev}
    ensures var inserted := Apply(s, Insert(doc, rev, key));
            && Readable(inserted) && Public(inserted, doc, t) == None
            && Public(Apply(inserted, Transition(doc, Publish, None, now, checkpoint)), doc, t) == Some([])
  {
    PublishShowsDraft(Apply(s, Insert(doc, rev, key)), doc, now, checkpoint, t);
  }

  lemma PublishShowsDraft(s: Store, doc: DocId, now: Time, checkpoint: RevId, t: Time)
    requires Readable(s) && doc in s.docs && checkpoint !in s.revs && EffectiveState(s.docs[doc], now) != Published
    ensures Public(Apply(s, Transition(doc, Publish, None, now, checkpoint)), doc, t) == Some(s.revs[s.docs[doc].draft].data)
  {
    var d := ActLazily(s.docs[doc], Publish, None, now, checkpoint).doc;
    PromotedRows(s, doc, checkpoint, d);
    assert WithCheckpoint(s, doc, checkpoint)[checkpoint].data == s.revs[s.docs[doc].draft].data;
  }

  /** What is saved is what is edited, and of the other documents nothing. */
  lemma PutIsStored(s: Store, doc: DocId, blocks: Blocks, catalogue: Catalogue)
    requires StoreOk(s) && Readable(s) && doc in s.docs && Acceptable(blocks, catalogue)
    ensures var t := Apply(s, Put(doc, blocks, catalogue));
            && t.docs == s.docs && t.keys == s.keys && t.revs.Keys == s.revs.Keys
            && t.revs[s.docs[doc].draft] == s.revs[s.docs[doc].draft].(data := Cleaned(blocks, catalogue))
            && forall r :: r in s.revs && r != s.docs[doc].draft ==> t.revs[r] == s.revs[r]
  {}

  /** A transition leaves every other document and its revisions alone. */
  lemma TransitionSparesOthers(s: Store, op: Op, x: DocId)
    requires Readable(s) && Mints(s, op) && op.Transition? && x in s.docs && x != op.doc
    ensures var t := Apply(s, op);
            && x in t.docs && t.docs[x] == s.docs[x] && t.keys == s.keys
            && forall r :: IsRow(s.revs, x, r) ==> IsRow(t.revs, x, r) && t.revs[r] == s.revs[r]
  {
    if op.doc in s.docs && Promotes(op.action) {
      var a := ActLazily(s.docs[op.doc], op.action, op.publishAt, op.now, op.checkpoint);
      if a.Now? {
        PromotedRows(s, op.doc, op.checkpoint, a.doc);
        PromotedElsewhere(s, Apply(s, op), op.doc, op.checkpoint, x);
      }
    }
  }

  /** An insert is refused exactly when a stored document has that very site, kind, locale and slug. */
  lemma InsertIsRefusedIff(s: Store, doc: DocId, rev: RevId, key: Key)
    requires Readable(s) && KeysOk(s) && Mints(s, Insert(doc, rev, key))
    ensures Apply(s, Insert(doc, rev, key)) == s <==>
              exists d :: d in s.docs && s.keys[d].site == key.site && s.keys[d].kind == key.kind
                          && s.keys[d].locale == key.locale && s.keys[d].slug == key.slug
    ensures Apply(s, Insert(doc, rev, key)) != s ==>
              var t := Apply(s, Insert(doc, rev, key)); t.docs.Keys == s.docs.Keys + {doc} && t.keys == s.keys[doc := key]
  {
    assert doc in Inserted(s, doc, rev, key).docs;
    if IsKeyTaken(s, key) {
      var d :| d in s.keys && s.keys[d] == key;
      assert d in s.docs;
    }
  }

  /** Every state a run reaches isolates visitors: the hypothesis of IsolationIff holds there. */
  lemma ReachedDraftsAreApart(stores: seq<Store>, histories: seq<History>, ops: seq<Op>, n: nat, doc: DocId)
    requires IsRun(stores, histories, ops) && n <= |ops| && doc in stores[n].docs
    ensures stores[n].docs[doc].draft in stores[n].revs && stores[n].docs[doc].published != Some(stores[n].docs[doc].draft)
    ensures forall now :: IsPubliclyVisible(stores[n].docs[doc], now) ==> stores[n].docs[doc].published.Some?
    ensures stores[n].docs[doc].published.Some? ==> stores[n].docs[doc].published.value in stores[n].revs
  {
    RunKeepsOk(stores, histories, ops, n);
    assert DocOk(stores[n].revs, doc, stores[n].docs[doc]);
  }
}
