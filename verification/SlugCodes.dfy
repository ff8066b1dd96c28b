/** jurisdictionSlugCode: the stable code a synced unit is created under. */
module SlugCodes {

  const MAX_SLUG := 40

  predicate IsAlnum(c: char) {
    'a' <= c <= 'z' || '0' <= c <= '9'
  }

  /** strings.ToLower, character by character; its table is a parameter. */
  function Lower(table: char -> char, s: string): (r: string)
    ensures |r| == |s| && forall i :: 0 <= i < |s| ==> r[i] == table(s[i])
  {
    seq(|s|, i requires 0 <= i < |s| => table(s[i]))
  }

  /** No character but the hyphen itself lowers to a hyphen. */
  predicate SparesHyphen(table: char -> char, s: string) {
    forall i :: 0 <= i < |s| && table(s[i]) == '-' ==> s[i] == '-'
  }

  predicate SlugChars(s: string) {
    forall i :: 0 <= i < |s| ==> IsAlnum(s[i]) || s[i] == '-'
  }

  predicate SingleHyphens(s: string) {
    forall i :: 0 < i < |s| ==> s[i-1] != '-' || s[i] != '-'
  }

  /** Each run of other characters becomes one hyphen. */
  function Collapse(s: string, inRun: bool): (r: string)
    ensures SlugChars(r) && SingleHyphens(r)
    ensures inRun && r != "" ==> r[0] != '-'
    decreases |s|
  {
    if s == "" then ""
    else if IsAlnum(s[0]) then [s[0]] + Collapse(s[1..], false)
    else if inRun then Collapse(s[1..], true)
    else "-" + Collapse(s[1..], true)
  }

  function TrimLeft(s: string): (r: string)
    ensures r != "" ==> r[0] != '-'
    ensures SlugChars(s) && SingleHyphens(s) ==> SlugChars(r) && SingleHyphens(r)
    decreases |s|
  {
    if s != "" && s[0] == '-' then TrimLeft(s[1..]) else s
  }

  function TrimRight(s: string): (r: string)
    ensures r != "" ==> r[|r|-1] != '-'
    ensures SlugChars(s) && SingleHyphens(s) ==> SlugChars(r) && SingleHyphens(r)
    ensures |r| <= |s| && (r != "" ==> r[0] == s[0])
    decreases |s|
  {
    if s != "" && s[|s|-1] == '-' then TrimRight(s[..|s|-1]) else s
  }

  /** The part of the code that comes from the name. */
  function Slug(table: char -> char, name: string): (slug: string)
    ensures 0 < |slug| <= 40 && slug[0] != '-'
    ensures SlugChars(slug) && SingleHyphens(slug) && (|slug| < 40 ==> slug[|slug|-1] != '-')
  {
    var trimmed := TrimRight(TrimLeft(Collapse(Lower(table, name), false)));
    var slug := if trimmed == "" then "jurisdiction" else trimmed;
    Cut(slug)
  }

  function Cut(s: string): string {
    if |s| > MAX_SLUG then s[..MAX_SLUG] else s
  }

  function Code(table: char -> char, name: string, externalID: string): string {
    Slug(table, name) + "-" + Lower(table, externalID)
  }

  // ---- the slug in terms of the name's words

  /** The runs of letters and digits, in order. */
  function Words(s: string): (words: seq<string>)
    ensures s != "" && IsAlnum(s[0]) ==> |words| > 0
    ensures forall i :: 0 <= i < |words| ==> words[i] != "" && forall k :: 0 <= k < |words[i]| ==> IsAlnum(words[i][k])
    decreases |s|
  {
    if s == "" then []
    else if !IsAlnum(s[0]) then Words(s[1..])
    else if |s| > 1 && IsAlnum(s[1]) then WithFirst(s[0], Words(s[1..]))
    else [[s[0]]] + Words(s[1..])
  }

  /** The first word one character longer. */
  function WithFirst(c: char, words: seq<string>): seq<string>
    requires |words| > 0
  {
    [[c] + words[0]] + words[1..]
  }

  function Hyphenated(words: seq<string>): string {
    if words == [] then "" else if |words| == 1 then words[0] else words[0] + "-" + Hyphenated(words[1..])
  }

  /** What stands between two words keeps them apart, */
  lemma {:induction false} WordsAtGap(a: string, c: char, b: string)
    requires !IsAlnum(c)
    ensures Words(a + [c] + b) == Words(a) + Words(b)
    decreases |a|
  {
    var s := a + [c] + b;
    if a == "" {
      assert s == [c] + b && s[1..] == b;
    } else {
      WordsAtGap(a[1..], c, b);
      assert s[0] == a[0] && s[1..] == a[1..] + [c] + b;
      NextIsSame(a, c, b);
      if IsAlnum(a[0]) {
        if |a| > 1 && IsAlnum(a[1]) {
          WithFirstAppend(a[0], Words(a[1..]), Words(b));
        } else {
          assert [[a[0]]] + (Words(a[1..]) + Words(b)) == ([[a[0]]] + Words(a[1..])) + Words(b);
        }
      }
    }
  }

  lemma NextIsSame(a: string, c: char, b: string)
    requires a != "" && !IsAlnum(c)
    ensures |a + [c] + b| > 1 && (IsAlnum((a + [c] + b)[1]) <==> |a| > 1 && IsAlnum(a[1]))
  {}

  lemma WithFirstAppend(c: char, x: seq<string>, y: seq<string>)
    requires |x| > 0
    ensures WithFirst(c, x + y) == WithFirst(c, x) + y
  {
    assert (x + y)[1..] == x[1..] + y;
  }

  /** and an unbroken run is one word. */
  lemma {:induction false} OneWord(s: string)
    requires s != "" && forall i :: 0 <= i < |s| ==> IsAlnum(s[i])
    ensures Words(s) == [s]
    decreases |s|
  {
    if |s| == 1 {
      assert s[1..] == "" && [s[0]] == s;
    } else {
      OneWord(s[1..]);
      assert [s[0]] + s[1..] == s;
    }
  }

  function Tail(s: string): string {
    if Words(s) != [] && !IsAlnum(s[|s|-1]) then "-" else ""
  }

  lemma {:induction false} NoWords(s: string)
    ensures Words(s) == [] <==> forall i :: 0 <= i < |s| ==> !IsAlnum(s[i])
    decreases |s|
  {
    if s == "" {
    } else {
      NoWords(s[1..]);
      assert forall i :: 0 <= i < |s| - 1 ==> s[1..][i] == s[i+1];
    }
  }

  lemma HyphenatedWithFirst(c: char, words: seq<string>)
    requires |words| > 0
    ensures Hyphenated(WithFirst(c, words)) == [c] + Hyphenated(words)
  {
    var longer := WithFirst(c, words);
    if |words| == 1 {
      assert longer == [[c] + words[0]];
    } else {
      var rest := Hyphenated(words[1..]);
      assert longer[1..] == words[1..];
      assert Hyphenated(longer) == ([c] + words[0]) + "-" + rest;
      Grouping([c], words[0], "-");
      Grouping([c], words[0] + "-", rest);
    }
  }

  /** Collapsing leaves the words with single hyphens between them, and one after the last if more follows. */
  lemma {:induction false} CollapseIsWords(s: string)
    ensures Collapse(s, true) == Hyphenated(Words(s)) + Tail(s)
    decreases |s|
  {
    if s == "" {
    } else if !IsAlnum(s[0]) {
      CollapseIsWords(s[1..]);
    } else if |s| == 1 {
      assert s[1..] == "" && Collapse(s[1..], false) == "" && Words(s) == [[s[0]]];
    } else if IsAlnum(s[1]) {
      CollapseIsWords(s[1..]);
      HyphenatedWithFirst(s[0], Words(s[1..]));
      assert Collapse(s[1..], false) == Collapse(s[1..], true);
      assert [s[0]] + (Hyphenated(Words(s[1..])) + Tail(s[1..])) == ([s[0]] + Hyphenated(Words(s[1..]))) + Tail(s[1..]);
    } else {
      CollapseWordEnd(s);
    }
  }

  lemma {:induction false} CollapseWordEnd(s: string)
    requires |s| > 1 && IsAlnum(s[0]) && !IsAlnum(s[1])
    ensures Collapse(s, true) == Hyphenated(Words(s)) + Tail(s)
    decreases |s|, 0
  {
    var rest := s[2..];
    CollapseIsWords(rest);
    WordEnds(s);
    if Words(rest) == [] {
      LastWord(s);
    } else {
      HyphenatedWithWord([s[0]], Words(rest));
      Grouping("-", Hyphenated(Words(rest)), Tail(rest));
      Grouping([s[0]], "-" + Hyphenated(Words(rest)), Tail(rest));
      assert s[|s|-1] == rest[|rest|-1];
    }
  }

  lemma WordEnds(s: string)
    requires |s| > 1 && IsAlnum(s[0]) && !IsAlnum(s[1])
    ensures Words(s) == [[s[0]]] + Words(s[2..])
    ensures Collapse(s, true) == [s[0]] + ("-" + Collapse(s[2..], true))
  {
    assert s[1..][1..] == s[2..] && s[1..][0] == s[1];
    assert Collapse(s[1..], false) == "-" + Collapse(s[2..], true);
  }

  lemma LastWord(s: string)
    requires |s| > 1 && IsAlnum(s[0]) && !IsAlnum(s[1]) && Words(s[2..]) == []
    ensures Hyphenated(Words(s)) == [s[0]] && Tail(s) == "-" && Hyphenated(Words(s[2..])) + Tail(s[2..]) == ""
  {
    WordEnds(s);
    NoWords(s[2..]);
    assert |s| > 2 ==> s[|s|-1] == s[2..][|s|-3];
  }

  lemma HyphenatedWithWord(word: string, words: seq<string>)
    requires |words| > 0
    ensures Hyphenated([word] + words) == word + ("-" + Hyphenated(words))
  {
    assert ([word] + words)[1..] == words;
    Grouping(word, "-", Hyphenated(words));
  }

  lemma {:induction false} HyphenatedEnds(words: seq<string>)
    requires |words| > 0
    requires forall i :: 0 <= i < |words| ==> words[i] != "" && forall k :: 0 <= k < |words[i]| ==> IsAlnum(words[i][k])
    ensures Hyphenated(words) != "" && IsAlnum(Hyphenated(words)[0]) && IsAlnum(Hyphenated(words)[|Hyphenated(words)|-1])
    decreases |words|
  {
    assert IsAlnum(words[0][0]) && IsAlnum(words[0][|words[0]|-1]);
    if |words| > 1 {
      HyphenatedEnds(words[1..]);
    }
  }

  /** Trimming takes off what stands around the words. */
  lemma TrimmedIsWords(s: string)
    ensures TrimRight(TrimLeft(Collapse(s, false))) == Hyphenated(Words(s))
  {
    var h := Hyphenated(Words(s));
    CollapseIsWords(s);
    if Words(s) != [] { HyphenatedEnds(Words(s)); }
    var inner := h + Tail(s);
    LeadingHyphen(s);
    TrimLeftOff(inner);
    TrimRightOff(h);
    assert inner == h || inner == h + "-";
  }

  lemma LeadingHyphen(s: string)
    ensures Collapse(s, false) == Collapse(s, true) || Collapse(s, false) == "-" + Collapse(s, true)
  {}

  lemma TrimLeftOff(s: string)
    requires s == "" || s[0] != '-'
    ensures TrimLeft(s) == s && TrimLeft("-" + s) == s
  {
    assert ("-" + s)[1..] == s;
  }

  lemma TrimRightOff(s: string)
    requires s == "" || s[|s|-1] != '-'
    ensures TrimRight(s) == s && TrimRight(s + "-") == s
  {
    TrimRightStep(s);
  }

  lemma TrimRightStep(s: string)
    ensures TrimRight(s + "-") == TrimRight(s)
  {
    var longer := s + "-";
    assert longer != "" && longer[|longer|-1] == '-' && longer[..|longer|-1] == s;
  }

  /** The slug: the lowered name's words joined by hyphens, or the default, cut off at forty. */
  lemma SlugIsWords(table: char -> char, name: string)
    ensures var words := Words(Lower(table, name));
            var whole := if words == [] then "jurisdiction" else Hyphenated(words);
            Slug(table, name) == if |whole| > 40 then whole[..40] else whole
  {
    TrimmedIsWords(Lower(table, name));
    if Words(Lower(table, name)) != [] { HyphenatedEnds(Words(Lower(table, name))); }
  }

  /** The code: the slug, a hyphen, the lowered id. */
  lemma CodeIs(table: char -> char, name: string, externalID: string)
    ensures Code(table, name, externalID)[..|Slug(table, name)|] == Slug(table, name)
    ensures Code(table, name, externalID)[|Slug(table, name)|..] == "-" + Lower(table, externalID)
  {}

  // ---- what the slug keeps of the name

  function Letters(s: string): string {
    if s == "" then "" else Letter(s[0]) + Letters(s[1..])
  }

  function Letter(c: char): string {
    if IsAlnum(c) then [c] else ""
  }

  lemma Grouping(x: string, y: string, z: string)
    ensures x + (y + z) == (x + y) + z
  {}

  lemma {:induction false} LettersAppend(a: string, b: string)
    ensures Letters(a + b) == Letters(a) + Letters(b)
  {
    if a == "" {
      assert "" + b == b;
    } else {
      LettersAppend(a[1..], b);
      assert (a + b)[0] == a[0] && (a + b)[1..] == a[1..] + b;
      Grouping(Letter(a[0]), Letters(a[1..]), Letters(b));
    }
  }

  lemma {:induction false} LettersCollapse(s: string, inRun: bool)
    ensures Letters(Collapse(s, inRun)) == Letters(s)
    decreases |s|
  {
    if s == "" {
    } else {
      var kept := !IsAlnum(s[0]) && inRun;
      LettersCollapse(s[1..], !IsAlnum(s[0]));
      var r := Collapse(s, inRun);
      assert !kept ==> r[1..] == Collapse(s[1..], !IsAlnum(s[0]));
    }
  }

  lemma {:induction false} LettersTrimLeft(s: string)
    ensures Letters(TrimLeft(s)) == Letters(s)
    decreases |s|
  {
    if s == "" || s[0] != '-' {
    } else {
      LettersTrimLeft(s[1..]);
    }
  }

  lemma {:induction false} LettersTrimRight(s: string)
    ensures Letters(TrimRight(s)) == Letters(s)
    decreases |s|
  {
    if s == "" || s[|s|-1] != '-' {
    } else {
      LettersTrimRight(s[..|s|-1]);
      assert s == s[..|s|-1] + "-";
      LettersAppend(s[..|s|-1], "-");
    }
  }

  /** The slug's letters and digits are the lowered name's, in order, from the first on; a name
      without any gets the default. */
  lemma SlugSpellsName(table: char -> char, name: string)
    ensures Letters(Lower(table, name)) == "" ==> Slug(table, name) == "jurisdiction"
    ensures Letters(Lower(table, name)) != "" ==> Letters(Slug(table, name)) <= Letters(Lower(table, name))
  {
    var collapsed := Collapse(Lower(table, name), false);
    var trimmed := TrimRight(TrimLeft(collapsed));
    LettersCollapse(Lower(table, name), false);
    LettersTrimLeft(collapsed);
    LettersTrimRight(TrimLeft(collapsed));
    if trimmed != "" {
      assert IsAlnum(trimmed[0]);
      if |trimmed| > MAX_SLUG {
        assert trimmed == trimmed[..MAX_SLUG] + trimmed[MAX_SLUG..];
        LettersAppend(trimmed[..MAX_SLUG], trimmed[MAX_SLUG..]);
      }
    }
  }

  // ---- when two nodes can share a code

  /** The code of behind is the code of x with p, between hyphens, moved from the name to the id. */
  predicate IsBehind(x: string, behind: string, p: string) {
    behind == p + "-" + x
  }

  /** What a slug can hold after one of its hyphens: it may be empty and may end in a hyphen, because
      a slug cut off at its greatest length may. */
  predicate FitsInSlug(p: string) {
    SlugChars(p) && SingleHyphens("-" + p) && |p| <= MAX_SLUG - 2
  }

  /** The lowered ids are one, or one is the other behind a hyphen and something a slug can hold. */
  ghost predicate Confusable(x: string, y: string) {
    x == y || exists p :: FitsInSlug(p) && (IsBehind(x, y, p) || IsBehind(y, x, p))
  }

  /** Equal codes come from confusable ids, whatever the names and the letter table. */
  lemma SharedCodeIsConfusable(table: char -> char, name: string, id: string, other: string, id': string)
    requires Code(table, name, id) == Code(table, other, id')
    ensures Confusable(Lower(table, id), Lower(table, id'))
  {
    if |id| < |id'| {
      var p := CommonCode(Slug(table, name), Lower(table, id), Slug(table, other), Lower(table, id'));
    } else if |id'| < |id| {
      var p := CommonCode(Slug(table, other), Lower(table, id'), Slug(table, name), Lower(table, id));
    } else {
      SameLength(Slug(table, name), Lower(table, id), Slug(table, other), Lower(table, id'));
    }
  }

  lemma CommonCode(a: string, x: string, b: string, y: string) returns (p: string)
    requires |x| < |y| && a + "-" + x == b + "-" + y
    requires SlugChars(a) && SingleHyphens(a) && |a| <= MAX_SLUG && |b| > 0
    ensures IsBehind(x, y, p) && FitsInSlug(p)
  {
    var n := |y| - |x| - 1;
    p := y[..n];
    var c := a + "-" + x;
    assert c[|b|+1..] == y;
    assert c[|a|..] == "-" + x;
    assert y[n..] == c[|b|+1..][n..] == c[|a|..];
    assert y == p + y[n..];
    assert a == b + "-" + p by {
      assert c[..|a|] == a;
      assert (b + "-" + y)[..|a|] == b + "-" + y[..n];
    }
    TailOfSlug(a, b, p);
  }

  lemma TailOfSlug(a: string, b: string, p: string)
    requires a == b + "-" + p && SlugChars(a) && SingleHyphens(a)
    ensures SlugChars(p) && SingleHyphens("-" + p)
  {
    assert forall i :: 0 <= i < |p| ==> p[i] == a[|b| + 1 + i];
    assert forall i :: 0 <= i < |"-" + p| ==> ("-" + p)[i] == a[|b| + i];
  }

  lemma SameLength(a: string, x: string, b: string, y: string)
    requires |x| == |y| && a + "-" + x == b + "-" + y
    ensures x == y
  {
    var c := a + "-" + x;
    assert c[|c|-|x|..] == x && c[|c|-|y|..] == y;
  }

  /** Letters and digits in groups joined by single hyphens. */
  predicate IsHyphenated(s: string) {
    && s != "" && s[0] != '-' && s[|s|-1] != '-'
    && SlugChars(s) && SingleHyphens(s)
  }

  predicate FixesPlain(table: char -> char) {
    forall c :: IsAlnum(c) || c == '-' ==> table(c) == c
  }

  lemma {:induction false} CollapseFixes(s: string, inRun: bool)
    requires SlugChars(s) && SingleHyphens(s)
    requires inRun && s != "" ==> s[0] != '-'
    ensures Collapse(s, inRun) == s
    decreases |s|
  {
    if s == "" {
    } else {
      CollapseFixes(s[1..], !IsAlnum(s[0]));
      assert [s[0]] + s[1..] == s;
    }
  }

  /** A hyphenated lower-case name is its own slug, up to the cut. */
  lemma SlugFixes(table: char -> char, s: string)
    requires FixesPlain(table) && IsHyphenated(s)
    ensures Slug(table, s) == Cut(s)
  {
    assert Lower(table, s) == s;
    CollapseFixes(s, false);
    assert TrimLeft(s) == s && TrimRight(s) == s;
  }

  function As(n: nat): (s: string)
    ensures |s| == n && forall i :: 0 <= i < n ==> s[i] == 'a'
  {
    seq(n, _ => 'a')
  }

  /** A name whose slug is cut off right after p. */
  lemma CutAfter(table: char -> char, p: string) returns (b: string, name: string)
    requires FixesPlain(table) && FitsInSlug(p)
    ensures Slug(table, name) == b + "-" + p && Slug(table, b) == b
  {
    b := As(MAX_SLUG - 1 - |p|);
    name := b + ("-" + p) + "a";
    CutIsHyphenated(b, p);
    SlugFixes(table, b);
    SlugFixes(table, name);
    CutName(b, p);
  }

  lemma CutName(b: string, p: string)
    requires 0 < |b| && |b| + 1 + |p| == MAX_SLUG
    ensures Cut(b + ("-" + p) + "a") == b + "-" + p && Cut(b) == b
  {
    var name := b + ("-" + p) + "a";
    assert name[..MAX_SLUG] == b + ("-" + p);
  }

  lemma CutIsHyphenated(b: string, p: string)
    requires FitsInSlug(p) && b != "" && forall i :: 0 <= i < |b| ==> b[i] == 'a'
    ensures IsHyphenated(b) && IsHyphenated(b + ("-" + p) + "a")
  {
    var name, tail := b + ("-" + p) + "a", "-" + p;
    assert forall i :: |b| <= i < |b| + |tail| ==> name[i] == tail[i - |b|];
    assert forall i :: 0 < i < |tail| ==> tail[i] == p[i - 1];
    forall i | 0 < i < |name|
      ensures name[i-1] != '-' || name[i] != '-'
    {
      if |b| < i < |b| + |tail| {
        assert tail[i - 1 - |b|] != '-' || tail[i - |b|] != '-';
      }
    }
  }

  /** Confusable ids do share a code under some names. */
  lemma ConfusableShareACode(table: char -> char, id: string, id': string, p: string)
    requires FixesPlain(table) && FitsInSlug(p) && IsBehind(Lower(table, id), Lower(table, id'), p)
    ensures exists name, other :: Code(table, name, id) == Code(table, other, id')
  {
    var b, name := CutAfter(table, p);
    Regrouped(b, p, Lower(table, id));
    assert Code(table, name, id) == Code(table, b, id');
  }

  lemma Regrouped(b: string, p: string, x: string)
    ensures b + "-" + p + "-" + x == b + "-" + (p + "-" + x)
  {}

  ghost predicate CanShareACode(table: char -> char, id: string, id': string) {
    exists name, other :: Code(table, name, id) == Code(table, other, id')
  }

  /** When a code fails to tell two nodes apart: there are names under which they share one exactly
      when their lowered ids are equal, or one is the other behind a hyphen and something a slug can
      hold. */
  lemma CodesClashIff(table: char -> char, id: string, id': string)
    requires FixesPlain(table)
    ensures CanShareACode(table, id, id') <==> Confusable(Lower(table, id), Lower(table, id'))
  {
    var x, y := Lower(table, id), Lower(table, id');
    if name, other :| Code(table, name, id) == Code(table, other, id') {
      SharedCodeIsConfusable(table, name, id, other, id');
    }
    if x == y {
      assert Code(table, "", id) == Code(table, "", id');
    } else if p :| FitsInSlug(p) && (IsBehind(x, y, p) || IsBehind(y, x, p)) {
      if IsBehind(x, y, p) {
        ConfusableShareACode(table, id, id', p);
      } else {
        ConfusableShareACode(table, id', id, p);
      }
    }
  }

  /** Hyphen-free ids have different codes whenever they differ lowered, whatever the names. */
  lemma HyphenFreeCodesAreApart(table: char -> char, name: string, id: string, other: string, id': string)
    requires '-' !in id && '-' !in id' && SparesHyphen(table, id) && SparesHyphen(table, id')
    ensures Code(table, name, id) == Code(table, other, id') ==> Lower(table, id) == Lower(table, id')
  {
    if Code(table, name, id) == Code(table, other, id') {
      SharedCodeIsConfusable(table, name, id, other, id');
      forall p
        ensures !IsBehind(Lower(table, id), Lower(table, id'), p) && !IsBehind(Lower(table, id'), Lower(table, id), p)
      {
        NoHyphenInside(table, id, p, Lower(table, id'));
        NoHyphenInside(table, id', p, Lower(table, id));
      }
    }
  }

  lemma NoHyphenInside(table: char -> char, id: string, p: string, x: string)
    requires '-' !in id && SparesHyphen(table, id)
    ensures Lower(table, id) != p + "-" + x
  {
    var y := Lower(table, id);
    assert forall i :: 0 <= i < |y| ==> y[i] != '-';
    assert (p + "-" + x)[|p|] == '-';
  }
}
