/** Public page paths: the printer that builds an href and the resolver that follows one. */
module PublicPaths {
  import opened Documents
  import opened Options

  datatype Kind = Page | Post | Event

  /** A row as a request sees it; visible is what IsPubliclyVisible says at the time of the request. */
  datatype Entry = Entry(site: int, kind: Kind, locale: string, parent: Option<DocId>, slug: string, visible: bool)

  type Pages = map<DocId, Entry>

  // ---- what the database guarantees

  /** The unique index on (site, kind, locale, slug). */
  predicate KeysUnique(pages: Pages) {
    forall d, e :: d in pages && e in pages && SameKey(pages[d], pages[e]) ==> d == e
  }

  predicate SameKey(a: Entry, b: Entry) {
    a.site == b.site && a.kind == b.kind && a.locale == b.locale && a.slug == b.slug
  }

  /** The foreign key on parent_document_id. */
  predicate ParentsExist(pages: Pages) {
    forall d :: d in pages && pages[d].parent.Some? ==> pages[d].parent.value in pages
  }

  // ---- strings

  function Split(s: string): (parts: seq<string>)
    ensures |parts| >= 1
  {
    if s == "" then [""] else Before(s[0], Split(s[1..]))
  }

  /** The parts once one more character stands in front. */
  function Before(c: char, parts: seq<string>): (r: seq<string>)
    requires |parts| >= 1
    ensures |r| >= 1
  {
    if c == '/' then [""] + parts else [[c] + parts[0]] + parts[1..]
  }

  function NonEmpty(parts: seq<string>): (kept: seq<string>) {
    if parts == [] then []
    else Kept(parts[0]) + NonEmpty(parts[1..])
  }

  function Kept(part: string): seq<string> {
    if part == "" then [] else [part]
  }

  function Join(parts: seq<string>): string {
    if parts == [] then "" else if |parts| == 1 then parts[0] else parts[0] + "/" + Join(parts[1..])
  }

  function Segments(path: string): seq<string> {
    NonEmpty(Split(path))
  }

  predicate Plain(s: string) {
    s != "" && '/' !in s
  }

  predicate AllPlain(parts: seq<string>) {
    forall i :: 0 <= i < |parts| ==> Plain(parts[i])
  }

  lemma BeforeAppend(c: char, x: seq<string>, y: seq<string>)
    requires |x| >= 1
    ensures Before(c, x + y) == Before(c, x) + y
  {
    assert (x + y)[1..] == x[1..] + y;
  }

  lemma {:induction false} SplitAtSlash(a: string, b: string)
    ensures Split(a + "/" + b) == Split(a) + Split(b)
  {
    if a == "" {
      assert "" + "/" + b == "/" + b && ("/" + b)[1..] == b;
    } else {
      SplitAtSlash(a[1..], b);
      var c := a + "/" + b;
      assert c[0] == a[0] && c[1..] == a[1..] + "/" + b;
      BeforeAppend(a[0], Split(a[1..]), Split(b));
    }
  }

  lemma {:induction false} NonEmptyAppend(a: seq<string>, b: seq<string>)
    ensures NonEmpty(a + b) == NonEmpty(a) + NonEmpty(b)
  {
    if a == [] {
      assert [] + b == b;
    } else {
      NonEmptyAppend(a[1..], b);
      assert (a + b)[1..] == a[1..] + b && (a + b)[0] == a[0];
      KeepsGrouping(Kept(a[0]), NonEmpty(a[1..]), NonEmpty(b));
    }
  }

  lemma KeepsGrouping(x: seq<string>, y: seq<string>, z: seq<string>)
    ensures x + (y + z) == (x + y) + z
  {}

  /** Leading, trailing and doubled slashes make no difference. */
  lemma SegmentsAtSlash(a: string, b: string)
    ensures Segments(a + "/" + b) == Segments(a) + Segments(b)
  {
    SplitAtSlash(a, b);
    NonEmptyAppend(Split(a), Split(b));
  }

  lemma {:induction false} SplitPlain(s: string)
    requires '/' !in s
    ensures Split(s) == [s]
  {
    if s == "" {
    } else {
      SplitPlain(s[1..]);
      assert [s[0]] + s[1..] == s;
    }
  }

  lemma {:induction false} SplitLeavesNoSlash(s: string, i: nat)
    requires i < |Split(s)|
    ensures '/' !in Split(s)[i]
  {
    if s == "" {
    } else {
      if s[0] == '/' {
        if i > 0 { SplitLeavesNoSlash(s[1..], i - 1); }
      } else {
        SplitLeavesNoSlash(s[1..], i);
      }
    }
  }

  lemma {:induction false} NonEmptyIsFrom(parts: seq<string>, i: nat)
    requires i < |NonEmpty(parts)|
    ensures NonEmpty(parts)[i] in parts && NonEmpty(parts)[i] != ""
  {
    if parts[0] == "" {
      NonEmptyIsFrom(parts[1..], i);
    } else if i > 0 {
      NonEmptyIsFrom(parts[1..], i - 1);
    }
  }

  lemma SegmentsArePlain(path: string)
    ensures AllPlain(Segments(path))
  {
    forall i | 0 <= i < |Segments(path)|
      ensures Plain(Segments(path)[i])
    {
      NonEmptyIsFrom(Split(path), i);
      var j :| 0 <= j < |Split(path)| && Split(path)[j] == Segments(path)[i];
      SplitLeavesNoSlash(path, j);
    }
  }

  /** Splitting undoes joining for exactly the segments that could be told apart. */
  lemma SegmentsOfJoin(parts: seq<string>)
    ensures Segments(Join(parts)) == parts <==> AllPlain(parts)
  {
    SegmentsArePlain(Join(parts));
    if AllPlain(parts) {
      JoinThenSplit(parts);
    }
  }

  lemma {:induction false} JoinThenSplit(parts: seq<string>)
    requires AllPlain(parts)
    ensures Segments(Join(parts)) == parts
  {
    if parts == [] {
      assert NonEmpty([""]) == NonEmpty([""][1..]) == [];
    } else if |parts| == 1 {
      SplitPlain(parts[0]);
      assert NonEmpty([parts[0]]) == [parts[0]] + NonEmpty([parts[0]][1..]) == parts;
    } else {
      JoinThenSplit(parts[1..]);
      SegmentsAtSlash(parts[0], Join(parts[1..]));
      SplitPlain(parts[0]);
      assert NonEmpty([parts[0]]) == [parts[0]] + NonEmpty([parts[0]][1..]) == [parts[0]];
      assert parts == [parts[0]] + parts[1..];
    }
  }

  // ---- ancestors

  /** At most n pages upward from id, nearest first. */
  function Up(pages: Pages, id: Option<DocId>, n: nat): (chain: seq<DocId>)
    requires ParentsExist(pages) && (id.Some? ==> id.value in pages)
    ensures |chain| <= n && forall i :: 0 <= i < |chain| ==> chain[i] in pages
    decreases n
  {
    if id.None? || n == 0 then [] else [id.value] + Up(pages, pages[id.value].parent, n - 1)
  }

  function Reversed<T>(s: seq<T>): (r: seq<T>)
    ensures |r| == |s| && forall i :: 0 <= i < |s| ==> r[i] == s[|s|-1-i]
  {
    if s == [] then [] else Reversed(s[1..]) + [s[0]]
  }

  /** The bounded ancestor chain, root first. */
  function Ancestors(pages: Pages, d: DocId): (chain: seq<DocId>)
    requires ParentsExist(pages) && d in pages
    ensures |chain| <= 3 && forall i :: 0 <= i < |chain| ==> chain[i] in pages
  {
    Reversed(Up(pages, pages[d].parent, 3))
  }

  /** Each page in the chain is the next one's parent, and the last is d's. */
  predicate IsChainTo(pages: Pages, chain: seq<DocId>, d: DocId) {
    && d in pages && (forall i :: 0 <= i < |chain| ==> chain[i] in pages)
    && (forall i :: 0 < i < |chain| ==> pages[chain[i]].parent == Some(chain[i-1]))
    && (|chain| > 0 ==> pages[d].parent == Some(chain[|chain|-1]))
  }

  /** A chain from a page without a parent. */
  predicate IsWholeChainTo(pages: Pages, chain: seq<DocId>, d: DocId) {
    && IsChainTo(pages, chain, d)
    && (if chain == [] then pages[d].parent.None? else pages[chain[0]].parent.None?)
  }

  lemma {:induction false} UpIsChain(pages: Pages, id: Option<DocId>, n: nat, i: nat)
    requires ParentsExist(pages) && (id.Some? ==> id.value in pages)
    requires i < |Up(pages, id, n)|
    ensures i == 0 ==> id == Some(Up(pages, id, n)[0])
    ensures i > 0 ==> pages[Up(pages, id, n)[i-1]].parent == Some(Up(pages, id, n)[i])
    decreases n
  {
    if i == 0 {
    } else {
      UpIsChain(pages, pages[id.value].parent, n - 1, i - 1);
    }
  }

  /** A walk that stops early stops at a page without a parent. */
  lemma {:induction false} ShortUpEnds(pages: Pages, id: Option<DocId>, n: nat)
    requires ParentsExist(pages) && (id.Some? ==> id.value in pages)
    requires |Up(pages, id, n)| < n
    ensures var up := Up(pages, id, n); if up == [] then id.None? else pages[up[|up|-1]].parent.None?
    decreases n
  {
    if id.None? {
    } else {
      ShortUpEnds(pages, pages[id.value].parent, n - 1);
    }
  }

  lemma AncestorsAreChain(pages: Pages, d: DocId)
    requires ParentsExist(pages) && d in pages
    ensures IsChainTo(pages, Ancestors(pages, d), d)
    ensures |Ancestors(pages, d)| < 3 ==> IsWholeChainTo(pages, Ancestors(pages, d), d)
  {
    var up := Up(pages, pages[d].parent, 3);
    forall i | 0 < i < |up|
      ensures pages[up[i-1]].parent == Some(up[i])
    {
      UpIsChain(pages, pages[d].parent, 3, i);
    }
    if up != [] {
      UpIsChain(pages, pages[d].parent, 3, 0);
    }
    if |up| < 3 {
      ShortUpEnds(pages, pages[d].parent, 3);
    }
  }

  function Slugs(pages: Pages, chain: seq<DocId>): (slugs: seq<string>)
    requires forall i :: 0 <= i < |chain| ==> chain[i] in pages
    ensures |slugs| == |chain| && forall i :: 0 <= i < |chain| ==> slugs[i] == pages[chain[i]].slug
  {
    seq(|chain|, i requires 0 <= i < |chain| => pages[chain[i]].slug)
  }

  /** The slugs an href is made of. */
  function OwnSlugs(pages: Pages, d: DocId): seq<string>
    requires ParentsExist(pages) && d in pages
  {
    Slugs(pages, Ancestors(pages, d)) + [pages[d].slug]
  }

  /** What follows "/locale/" in an href. */
  function OwnPath(pages: Pages, d: DocId): string
    requires ParentsExist(pages) && d in pages
  {
    Join(OwnSlugs(pages, d))
  }

  // ---- what a path names

  /** d is the visible page whose whole chain of slugs the segments spell. */
  predicate Names(pages: Pages, site: int, locale: string, segments: seq<string>, d: DocId)
    requires ParentsExist(pages)
  {
    && d in pages && pages[d].visible
    && pages[d].site == site && pages[d].kind.Page? && pages[d].locale == locale
    && IsWholeChainTo(pages, Ancestors(pages, d), d)
    && segments == OwnSlugs(pages, d) && |segments| <= 3
  }

  lemma NamesAtMostOne(pages: Pages, site: int, locale: string, segments: seq<string>, d: DocId, e: DocId)
    requires ParentsExist(pages) && KeysUnique(pages)
    requires Names(pages, site, locale, segments, d) && Names(pages, site, locale, segments, e)
    ensures d == e
  {
    assert pages[d].slug == segments[|segments|-1] == pages[e].slug;
    assert SameKey(pages[d], pages[e]);
  }

  /** At most two ancestors, and slugs that are non-empty and free of slashes. */
  predicate InReach(pages: Pages, d: DocId)
    requires ParentsExist(pages) && d in pages
  {
    |Ancestors(pages, d)| <= 2 && AllPlain(OwnSlugs(pages, d))
  }

  predicate IsOwnPath(pages: Pages, site: int, locale: string, path: string, d: DocId)
    requires ParentsExist(pages)
  {
    && d in pages && pages[d].kind.Page? && pages[d].visible && pages[d].site == site && pages[d].locale == locale
    && path == OwnPath(pages, d)
  }

  /** Printer and resolver undo each other exactly for a visible page with at most two ancestors
      whose slugs, and its own, are non-empty and free of slashes. */
  lemma HrefResolvesIff(pages: Pages, d: DocId)
    requires ParentsExist(pages) && d in pages && pages[d].kind.Page? && pages[d].visible
    ensures Names(pages, pages[d].site, pages[d].locale, Segments(OwnPath(pages, d)), d)
       <==> InReach(pages, d)
  {
    SegmentsOfJoin(OwnSlugs(pages, d));
    AncestorsAreChain(pages, d);
  }

  /** Any path that resolves spells exactly the href of the page returned. */
  lemma ResolvedIsOwnHref(pages: Pages, site: int, locale: string, path: string, d: DocId)
    requires ParentsExist(pages) && Names(pages, site, locale, Segments(path), d)
    ensures Segments(path) == Segments(OwnPath(pages, d))
    ensures locale == pages[d].locale
    ensures Segments("/" + locale + "/" + OwnPath(pages, d)) == Segments(locale) + Segments(path)
  {
    SegmentsArePlain(path);
    SegmentsOfJoin(OwnSlugs(pages, d));
    assert "/" + locale + "/" + OwnPath(pages, d) == "" + "/" + (locale + "/" + OwnPath(pages, d));
    SegmentsAtSlash("", locale + "/" + OwnPath(pages, d));
    SegmentsAtSlash(locale, OwnPath(pages, d));
  }

  /** So a page no href leads to, no path leads to. */
  lemma ReachableIffOwnHref(pages: Pages, d: DocId)
    requires ParentsExist(pages) && d in pages && pages[d].kind.Page? && pages[d].visible
    ensures (exists path :: Names(pages, pages[d].site, pages[d].locale, Segments(path), d))
       <==> InReach(pages, d)
  {
    HrefResolvesIff(pages, d);
    if path :| Names(pages, pages[d].site, pages[d].locale, Segments(path), d) {
      ResolvedIsOwnHref(pages, pages[d].site, pages[d].locale, path, d);
    }
  }

  // ---- pages over time

  datatype PageRow = PageRow(site: int, kind: Kind, locale: string, parent: Option<DocId>, slug: string, document: Document)

  /** The rows as a request at time now sees them. */
  function PagesAt(rows: map<DocId, PageRow>, now: Time): (pages: Pages)
    ensures pages.Keys == rows.Keys
    ensures forall d :: d in rows ==> pages[d].visible == IsPubliclyVisible(rows[d].document, now)
  {
    map d | d in rows ::
      Entry(rows[d].site, rows[d].kind, rows[d].locale, rows[d].parent, rows[d].slug, IsPubliclyVisible(rows[d].document, now))
  }

  predicate Resolves(pages: Pages, d: DocId)
    requires ParentsExist(pages) && d in pages
  {
    Names(pages, pages[d].site, pages[d].locale, Segments(OwnPath(pages, d)), d)
  }

  /** Who sees a page under its path, and from when: after an accepted action the path of a page within
      reach leads to it at exactly the times the action made it public. */
  lemma PathAfterAction(rows: map<DocId, PageRow>, d: DocId, action: Action, publishAt: Option<Time>, now: Time, checkpoint: RevId, t: Time)
    requires d in rows && rows[d].kind.Page? && ActLazily(rows[d].document, action, publishAt, now, checkpoint).Now?
    requires ParentsExist(PagesAt(rows, t))
    ensures var pages := PagesAt(rows[d := rows[d].(document := ActLazily(rows[d].document, action, publishAt, now, checkpoint).doc)], t);
            && ParentsExist(pages)
            && (Resolves(pages, d) <==>
                  InReach(pages, d) && match action
                                       case Publish => true
                                       case Unlist => true
                                       case RevertToDraft => false
                                       case Schedule => publishAt.Some? && publishAt.value <= t)
  {
    var after := ActLazily(rows[d].document, action, publishAt, now, checkpoint).doc;
    var pages := PagesAt(rows[d := rows[d].(document := after)], t);
    AcceptedPlaces(rows[d].document, action, publishAt, now, checkpoint, t);
    assert pages[d].visible == PlacesOf(after, t).address;
    assert forall e :: e in rows ==> pages[e].parent == PagesAt(rows, t)[e].parent;
    if pages[d].visible {
      HrefResolvesIff(pages, d);
    }
  }

  // ---- the depth check

  /** checkParentDepth's verdict: the chain from the parent, itself included, ends within three. */
  predicate DepthAllowed(pages: Pages, parent: DocId)
    requires ParentsExist(pages) && parent in pages
  {
    |Up(pages, Some(parent), 4)| <= 3
  }

  /** Exactly the parents with at most two ancestors of their own are allowed. */
  lemma DepthAllowedIff(pages: Pages, parent: DocId)
    requires ParentsExist(pages) && parent in pages
    ensures DepthAllowed(pages, parent) <==> exists chain :: IsWholeChainTo(pages, chain, parent) && |chain| <= 2
  {
    var up := Up(pages, pages[parent].parent, 3);
    assert |Up(pages, Some(parent), 4)| == 1 + |up|;
    AncestorsAreChain(pages, parent);
    if chain :| IsWholeChainTo(pages, chain, parent) && |chain| <= 2 {
      ChainIsUp(pages, chain, parent, 3);
    }
  }

  /** Walking up meets the chain, last page first. */
  lemma {:induction false} ChainIsUp(pages: Pages, chain: seq<DocId>, d: DocId, n: nat)
    requires ParentsExist(pages) && IsWholeChainTo(pages, chain, d) && |chain| <= n
    ensures |Up(pages, pages[d].parent, n)| == |chain|
    decreases |chain|
  {
    if chain == [] {
    } else {
      var last := |chain| - 1;
      ChainIsUp(pages, chain[..last], chain[last], n - 1);
    }
  }

  /** Four pages, each under the one before. */
  function FourDeep(): Pages {
    var top := Entry(1, Page, "en", None, "a", true);
    map[D(1) := top, D(2) := top.(parent := Some(D(1)), slug := "b"),
        D(3) := top.(parent := Some(D(2)), slug := "c"), D(4) := top.(parent := Some(D(3)), slug := "d")]
  }

  lemma {:induction false} FourDeepUp(i: nat, n: nat)
    requires 1 <= i <= 4 && 1 <= n <= 4
    ensures ParentsExist(FourDeep()) && D(i) in FourDeep()
    ensures |Up(FourDeep(), Some(D(i)), n)| == if i < n then i else n
  {
    if i == 1 || n == 1 {
    } else {
      FourDeepUp(i - 1, n - 1);
      assert FourDeep()[D(i)].parent == Some(D(i - 1));
    }
  }

  /** The depth check lets a page have three ancestors, and then no path leads to it. */
  lemma ThreeAncestorsAreAdmitted()
    ensures exists pages, parent, d :: ParentsExist(pages) && KeysUnique(pages) && AdmittedOutOfReach(pages, parent, d)
  {
    FourDeepUp(3, 4);
    FourDeepUp(3, 3);
    assert FourDeep()[D(4)].parent == Some(D(3));
    ReachableIffOwnHref(FourDeep(), D(4));
    assert AdmittedOutOfReach(FourDeep(), D(3), D(4));
    assert KeysUnique(FourDeep());
  }

  ghost predicate AdmittedOutOfReach(pages: Pages, parent: DocId, d: DocId)
    requires ParentsExist(pages)
  {
    && parent in pages && DepthAllowed(pages, parent)
    && d in pages && pages[d].kind.Page? && pages[d].visible && pages[d].parent == Some(parent)
    && forall path :: !Names(pages, pages[d].site, pages[d].locale, Segments(path), d)
  }

  // ---- the service

  datatype Found = Found(leaf: DocId, ancestors: seq<DocId>) | NotFound

  /** checkParentDepth. */
  method CheckParentDepth(pages: Pages, parent: DocId) returns (ok: bool)
    requires ParentsExist(pages) && parent in pages
    ensures ok == DepthAllowed(pages, parent)
    ensures ok <==> exists chain :: IsWholeChainTo(pages, chain, parent) && |chain| <= 2
  {
    DepthAllowedIff(pages, parent);
    var id := parent;
    for depth := 0 to 3
      invariant id in pages
      invariant |Up(pages, Some(parent), 4)| == depth + |Up(pages, Some(id), 4 - depth)|
    {
      if pages[id].parent.None? {
        return true;
      }
      id := pages[id].parent.value;
    }
    ok := false;
  }

  /** resolveAncestorChain: append upward, then reverse in place. */
  method ResolveAncestorChain(pages: Pages, doc: DocId) returns (chain: seq<DocId>)
    requires ParentsExist(pages) && doc in pages
    ensures chain == Ancestors(pages, doc)
  {
    chain := [];
    var id := pages[doc].parent;
    var depth := 0;
    while id.Some? && depth < 3
      invariant 0 <= depth <= 3 && (id.Some? ==> id.value in pages)
      invariant chain + Up(pages, id, 3 - depth) == Up(pages, pages[doc].parent, 3)
      decreases 3 - depth
    {
      OneUp(pages, chain, id.value, 3 - depth);
      chain := chain + [id.value];
      id := pages[id.value].parent;
      depth := depth + 1;
    }
    assert chain == Up(pages, pages[doc].parent, 3);
    chain := SwapEnds(chain);
  }

  lemma OneUp(pages: Pages, chain: seq<DocId>, id: DocId, n: nat)
    requires ParentsExist(pages) && id in pages && n > 0
    ensures chain + Up(pages, Some(id), n) == (chain + [id]) + Up(pages, pages[id].parent, n - 1)
  {
    assert chain + ([id] + Up(pages, pages[id].parent, n - 1)) == (chain + [id]) + Up(pages, pages[id].parent, n - 1);
  }

  /** The loop that reverses the chain in place. */
  method SwapEnds(upward: seq<DocId>) returns (chain: seq<DocId>)
    ensures chain == Reversed(upward)
  {
    chain := upward;
    var i, j := 0, |chain| - 1;
    while i < j
      invariant 0 <= i && j < |chain| && i + j == |chain| - 1 && i <= j + 1 && |chain| == |upward|
      invariant forall k :: i <= k <= j ==> chain[k] == upward[k]
      invariant forall k :: 0 <= k < i ==> chain[k] == upward[|upward|-1-k]
      invariant forall k :: j < k < |upward| ==> chain[k] == upward[|upward|-1-k]
    {
      chain := chain[i := chain[j]][j := chain[i]];
      i, j := i + 1, j - 1;
    }
    assert chain == Reversed(upward);
  }

  /** buildPublicHref. */
  method BuildPublicHref(pages: Pages, doc: DocId, ancestors: seq<DocId>) returns (href: string)
    requires doc in pages && forall i :: 0 <= i < |ancestors| ==> ancestors[i] in pages
    ensures href == "/" + pages[doc].locale + "/" + Join(Slugs(pages, ancestors) + [pages[doc].slug])
  {
    var segments: seq<string> := [];
    for i := 0 to |ancestors|
      invariant segments == Slugs(pages, ancestors)[..i]
    {
      segments := segments + [pages[ancestors[i]].slug];
    }
    assert Slugs(pages, ancestors)[..|ancestors|] == Slugs(pages, ancestors);
    segments := segments + [pages[doc].slug];
    href := "/" + pages[doc].locale + "/" + Join(segments);
  }

  /** GetPublicDocumentByPath: the page the segments name, with its whole chain, or none. */
  method GetPublicDocumentByPath(pages: Pages, site: int, locale: string, segments: seq<string>) returns (r: Found)
    requires ParentsExist(pages) && KeysUnique(pages)
    ensures r.Found? ==> Names(pages, site, locale, segments, r.leaf) && r.ancestors == Ancestors(pages, r.leaf)
    ensures r.NotFound? ==> forall d :: !Names(pages, site, locale, segments, d)
    ensures r.Found? ==> r.leaf in pages && pages[r.leaf].visible && pages[r.leaf].kind == Page && pages[r.leaf].site == site
    ensures r.Found? ==> pages[r.leaf].locale == locale && IsWholeChainTo(pages, r.ancestors, r.leaf)
    ensures r.Found? ==> segments == Slugs(pages, r.ancestors) + [pages[r.leaf].slug]
  {
    if |segments| == 0 || |segments| > 3 {
      return NotFound;
    }
    var key := Entry(site, Page, locale, None, segments[|segments|-1], true);
    if leaf :| leaf in pages && SameKey(pages[leaf], key) {
      OnlyTheLeaf(pages, site, locale, segments, leaf);
      if !pages[leaf].visible {
        return NotFound;
      }
      var ancestors := ResolveAncestorChain(pages, leaf);
      if |ancestors| != |segments| - 1 {
        return NotFound;
      }
      var matches := SlugsMatch(pages, ancestors, segments);
      assert matches <==> segments == OwnSlugs(pages, leaf);
      if !matches {
        return NotFound;
      }
      AncestorsAreChain(pages, leaf);
      r := Found(leaf, ancestors);
    } else {
      forall d | d in pages
        ensures !Names(pages, site, locale, segments, d)
      {
        assert !SameKey(pages[d], key);
      }
      r := NotFound;
    }
  }

  /** The loop over the ancestors: each one's slug is the segment at its place. */
  method SlugsMatch(pages: Pages, ancestors: seq<DocId>, segments: seq<string>) returns (matches: bool)
    requires |segments| == |ancestors| + 1 && forall i :: 0 <= i < |ancestors| ==> ancestors[i] in pages
    ensures matches <==> segments[..|ancestors|] == Slugs(pages, ancestors)
  {
    for i := 0 to |ancestors|
      invariant forall k :: 0 <= k < i ==> pages[ancestors[k]].slug == segments[k]
    {
      if pages[ancestors[i]].slug != segments[i] {
        assert segments[..|ancestors|][i] != Slugs(pages, ancestors)[i];
        return false;
      }
    }
    matches := true;
  }

  lemma OnlyTheLeaf(pages: Pages, site: int, locale: string, segments: seq<string>, leaf: DocId)
    requires ParentsExist(pages) && KeysUnique(pages) && |segments| > 0
    requires leaf in pages && SameKey(pages[leaf], Entry(site, Page, locale, None, segments[|segments|-1], true))
    ensures forall d :: Names(pages, site, locale, segments, d) ==> d == leaf
  {
    forall d | Names(pages, site, locale, segments, d)
      ensures d == leaf
    {
      assert SameKey(pages[d], pages[leaf]);
    }
  }

  /** The transport's split: empty segments are dropped. */
  method SplitPath(path: string) returns (segments: seq<string>)
    ensures segments == Segments(path)
  {
    segments := [];
    var parts := Split(path);
    for i := 0 to |parts|
      invariant segments == NonEmpty(parts[..i])
    {
      NonEmptyAppend(parts[..i], [parts[i]]);
      assert parts[..i+1] == parts[..i] + [parts[i]];
      if parts[i] != "" {
        segments := segments + [parts[i]];
      }
    }
    assert parts[..|parts|] == parts;
  }

  /** The transport's GetPublicDocumentByPath: a page's own path finds it exactly when the resolver
      reaches that far, and whatever is found is found under its own path and with its whole chain. */
  method FollowPath(pages: Pages, site: int, locale: string, path: string) returns (r: Found)
    requires ParentsExist(pages) && KeysUnique(pages)
    ensures r.Found? ==> r.leaf in pages && Segments(path) == Segments(OwnPath(pages, r.leaf)) && IsWholeChainTo(pages, r.ancestors, r.leaf)
    ensures r.Found? ==> pages[r.leaf].visible && pages[r.leaf].kind == Page && pages[r.leaf].site == site && pages[r.leaf].locale == locale
    ensures forall d :: IsOwnPath(pages, site, locale, path, d) ==> (r == Found(d, Ancestors(pages, d)) <==> InReach(pages, d))
  {
    var segments := SplitPath(path);
    r := GetPublicDocumentByPath(pages, site, locale, segments);
    if r.Found? {
      ResolvedIsOwnHref(pages, site, locale, path, r.leaf);
    }
    forall d | IsOwnPath(pages, site, locale, path, d)
      ensures r == Found(d, Ancestors(pages, d)) <==> InReach(pages, d)
    {
      HrefResolvesIff(pages, d);
      if Names(pages, site, locale, segments, d) {
        NamesAtMostOne(pages, site, locale, segments, d, if r.Found? then r.leaf else d);
      }
    }
  }
}
