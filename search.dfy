/** Search (src/features/search/index.ts): the three substring indexes built
    once at load time (by name, by keyword, by alias), `search` over them
    with its three scores, `getByCategory` and `getCategories`.

    An index maps a lower-cased substring to an insertion-ordered `Set` of
    owners, modelled as a duplicate-free sequence. The documents an index is
    built from form a table: each owner with the texts it is found by (a
    name by itself, a metadata entry by its keywords, a primary name by its
    aliases). */
module Search {
  import opened Text
  import opened Dataset
  import opened Sorting

  /** `Map<string, Set<string>>` */
  type Index = map<string, seq<string>>

  /** `index.get(s) || new Set()` */
  function Get(idx: Index, s: string): seq<string>
  {
    if s in idx then idx[s] else []
  }

  /** `set.add(x)` on an insertion-ordered set. */
  function AddIfAbsent(xs: seq<string>, x: string): seq<string>
  {
    if x in xs then xs else xs + [x]
  }

  /** The index after `owner` has been added under every string of `keys`. */
  function AddAll(idx: Index, keys: set<string>, owner: string): Index
  {
    map s | s in idx.Keys + keys :: if s in keys then AddIfAbsent(Get(idx, s), owner) else idx[s]
  }

  /** Every substring of the lower-cased texts. */
  function TextsSubs(texts: seq<string>): set<string>
  {
    if texts == [] then {}
    else TextsSubs(texts[..|texts| - 1]) + Subs(Lower(texts[|texts| - 1]))
  }

  /** The index built from `docs`, one document after the other. */
  function IndexOf(docs: Table<seq<string>>): Index
  {
    if docs == [] then map[]
    else
      var n := |docs| - 1;
      AddAll(IndexOf(docs[..n]), TextsSubs(docs[n].1), docs[n].0)
  }

  /** The owners, in table order, one of whose texts contains `s`. */
  function OwnersMatching(docs: Table<seq<string>>, s: string): seq<string>
  {
    if docs == [] then []
    else
      var n := |docs| - 1;
      OwnersMatching(docs[..n], s) + (if s in TextsSubs(docs[n].1) then [docs[n].0] else [])
  }

  /** `Object.keys(emojis)`, each name indexed by itself. */
  function NameDocs(emojis: Table<string>): (r: Table<seq<string>>)
    ensures |r| == |emojis|
    ensures forall k :: 0 <= k < |emojis| ==> r[k] == (emojis[k].0, [emojis[k].0])
  {
    seq(|emojis|, k requires 0 <= k < |emojis| => (emojis[k].0, [emojis[k].0]))
  }

  /** `Object.entries(metadata)`, each name indexed by its keywords. */
  function KeywordDocs(metadata: Table<Meta>): (r: Table<seq<string>>)
    ensures |r| == |metadata|
    ensures forall k :: 0 <= k < |metadata| ==> r[k] == (metadata[k].0, metadata[k].1.keywords)
  {
    seq(|metadata|, k requires 0 <= k < |metadata| => (metadata[k].0, metadata[k].1.keywords))
  }

  // ---------------------------------------------------------------------
  // Building an index

  /** The substrings `t[a..b]` with `a < i`. */
  ghost function Upto(t: string, i: int): set<string>
  {
    set a, b | 0 <= a < i && a < b <= |t| :: t[a..b]
  }

  /** The substrings `t[i..b]` with `b < j`. */
  ghost function Row(t: string, i: int, j: int): set<string>
  {
    set b | 0 <= i < b < j && b <= |t| :: t[i..b]
  }

  lemma RowStep(t: string, i: int, j: int)
    requires 0 <= i < j <= |t|
    ensures Row(t, i, j + 1) == Row(t, i, j) + {t[i..j]}
  {
    forall x | x in Row(t, i, j + 1) ensures x in Row(t, i, j) + {t[i..j]} {
      var b :| 0 <= i < b < j + 1 && b <= |t| && x == t[i..b];
      if b < j {
        assert x in Row(t, i, j);
      }
    }
    forall x | x in Row(t, i, j) + {t[i..j]} ensures x in Row(t, i, j + 1) {
      if x == t[i..j] {
        assert i < j < j + 1;
      } else {
        var b :| 0 <= i < b < j && b <= |t| && x == t[i..b];
      }
    }
  }

  lemma RowEmpty(t: string, i: int)
    ensures Row(t, i, i + 1) == {}
  {
  }

  lemma UptoStep(t: string, i: int)
    requires 0 <= i < |t|
    ensures Upto(t, i) + Row(t, i, |t| + 1) == Upto(t, i + 1)
  {
    forall a, b | 0 <= a < i + 1 && a < b <= |t| ensures t[a..b] in Upto(t, i) + Row(t, i, |t| + 1) {
      if a < i {
        assert t[a..b] in Upto(t, i);
      } else {
        assert t[a..b] in Row(t, i, |t| + 1);
      }
    }
    forall b | 0 <= i < b < |t| + 1 && b <= |t| ensures t[i..b] in Upto(t, i + 1) {
      assert 0 <= i < i + 1 && i < b <= |t|;
    }
  }

  lemma UptoAll(t: string)
    ensures Upto(t, 0) == {}
    ensures Upto(t, |t|) == Subs(t)
  {
    forall x | x in Subs(t) ensures x in Upto(t, |t|) {
      var a, b :| 0 <= a < b <= |t| && x == t[a..b];
      assert 0 <= a < |t| && a < b <= |t|;
    }
  }

  lemma AddIfAbsentTwice(xs: seq<string>, x: string)
    ensures AddIfAbsent(AddIfAbsent(xs, x), x) == AddIfAbsent(xs, x)
  {
  }

  /** Adding one more key is one `get(...).add(owner)`. */
  lemma AddAllStep(idx: Index, keys: set<string>, x: string, owner: string)
    ensures AddAll(idx, keys + {x}, owner)
              == AddAll(idx, keys, owner)[x := AddIfAbsent(Get(AddAll(idx, keys, owner), x), owner)]
  {
    var m := AddAll(idx, keys, owner);
    if x in keys {
      AddIfAbsentTwice(Get(idx, x), owner);
    }
    assert keys + {x} == keys || x !in keys;
  }

  /** Adding under two key sets in turn is adding under their union. */
  lemma AddAllUnion(idx: Index, a: set<string>, b: set<string>, owner: string)
    ensures AddAll(AddAll(idx, a, owner), b, owner) == AddAll(idx, a + b, owner)
  {
    forall s | s in a && s in b ensures AddIfAbsent(AddIfAbsent(Get(idx, s), owner), owner) == AddIfAbsent(Get(idx, s), owner) {
      AddIfAbsentTwice(Get(idx, s), owner);
    }
  }

  /** The two `for` loops over the substrings of one lower-cased text. */
  method IndexText(idx: Index, text: string, owner: string) returns (r: Index)
    ensures r == AddAll(idx, Subs(Lower(text)), owner)
  {
    var lower := Lower(text);
    r := idx;
    UptoAll(lower);
    assert r == AddAll(idx, {}, owner);
    for i := 0 to |lower|
      invariant r == AddAll(idx, Upto(lower, i), owner)
    {
      r := IndexRow(r, lower, i, owner);
      AddAllUnion(idx, Upto(lower, i), Row(lower, i, |lower| + 1), owner);
      UptoStep(lower, i);
    }
  }

  /** The inner loop: the owner under every substring starting at `i`. */
  method IndexRow(r0: Index, lower: string, i: int, owner: string) returns (r: Index)
    requires 0 <= i < |lower|
    ensures r == AddAll(r0, Row(lower, i, |lower| + 1), owner)
  {
    r := r0;
    ghost var done: set<string> := {};
    RowEmpty(lower, i);
    assert r == AddAll(r0, {}, owner);
    for j := i + 1 to |lower| + 1
      invariant done == Row(lower, i, j)
      invariant r == AddAll(r0, done, owner)
    {
      var sub := lower[i..j];
      RowStep(lower, i, j);
      AddAllStep(r0, done, sub, owner);
      r := r[sub := AddIfAbsent(Get(r, sub), owner)];
      done := done + {sub};
    }
  }

  /** `texts.forEach(...)` for one owner. */
  method IndexTexts(idx: Index, texts: seq<string>, owner: string) returns (r: Index)
    ensures r == AddAll(idx, TextsSubs(texts), owner)
  {
    r := idx;
    assert r == AddAll(idx, {}, owner);
    for k := 0 to |texts|
      invariant r == AddAll(idx, TextsSubs(texts[..k]), owner)
    {
      assert texts[..k + 1][..k] == texts[..k];
      r := IndexText(r, texts[k], owner);
      AddAllUnion(idx, TextsSubs(texts[..k]), Subs(Lower(texts[k])), owner);
    }
    assert texts[..|texts|] == texts;
  }

  /** `Object.entries(...).forEach(...)` over all documents. */
  method BuildIndex(docs: Table<seq<string>>) returns (idx: Index)
    ensures idx == IndexOf(docs)
  {
    idx := map[];
    for k := 0 to |docs|
      invariant idx == IndexOf(docs[..k])
    {
      assert docs[..k + 1][..k] == docs[..k];
      idx := IndexTexts(idx, docs[k].1, docs[k].0);
    }
    assert docs[..|docs|] == docs;
  }

  // ---------------------------------------------------------------------
  // What an index holds

  /** A substring of one of the lower-cased texts, in terms of `includes`. */
  lemma {:induction false} TextsSubsMember(texts: seq<string>, s: string)
    ensures s in TextsSubs(texts) <==> s != "" && exists i :: 0 <= i < |texts| && Contains(Lower(texts[i]), s)
  {
    if texts != [] {
      var n := |texts| - 1;
      TextsSubsMember(texts[..n], s);
      SubsIsContains(Lower(texts[n]), s);
      if exists i :: 0 <= i < |texts| && Contains(Lower(texts[i]), s) {
        var i :| 0 <= i < |texts| && Contains(Lower(texts[i]), s);
        if i < n {
          assert texts[..n][i] == texts[i];
        }
      }
      forall i | 0 <= i < n && Contains(Lower(texts[..n][i]), s)
        ensures exists i :: 0 <= i < |texts| && Contains(Lower(texts[i]), s)
      {
        assert texts[..n][i] == texts[i];
      }
    }
  }

  /** Every owner is stored at most once under a key. */
  lemma {:induction false} IndexOfDistinct(docs: Table<seq<string>>, s: string)
    ensures Distinct(Get(IndexOf(docs), s))
  {
    if docs != [] {
      IndexOfDistinct(docs[..|docs| - 1], s);
    }
  }

  /** With distinct owners (the keys of a JSON object), the set stored under
      `s` is exactly the owners, in table order, one of whose texts contains `s`. */
  lemma {:induction false} IndexOfOrder(docs: Table<seq<string>>, s: string)
    requires UniqueKeys(docs)
    ensures Get(IndexOf(docs), s) == OwnersMatching(docs, s)
  {
    if docs != [] {
      var n := |docs| - 1;
      var p := docs[..n];
      UniqueKeysPrefix(docs, n);
      IndexOfOrder(p, s);
      OwnersMatchingMember(p, s, docs[n].0);
      assert docs[n].0 !in OwnersMatching(p, s) by {
        forall k | 0 <= k < |p| ensures p[k].0 != docs[n].0 {
          assert p[k] == docs[k];
        }
      }
    }
  }

  /** An owner matches `s` exactly when one of its texts contains `s`. */
  lemma OwnersMatchingMember(docs: Table<seq<string>>, s: string, o: string)
    ensures o in OwnersMatching(docs, s) <==>
              exists k :: 0 <= k < |docs| && docs[k].0 == o && s in TextsSubs(docs[k].1)
  {
    if o in OwnersMatching(docs, s) {
      var k := OwnersMatchingSource(docs, s, o);
    }
    forall k | 0 <= k < |docs| && docs[k].0 == o && s in TextsSubs(docs[k].1)
      ensures o in OwnersMatching(docs, s)
    {
      OwnersMatchingHas(docs, s, k);
    }
  }

  lemma {:induction false} OwnersMatchingSource(docs: Table<seq<string>>, s: string, o: string) returns (k: int)
    requires o in OwnersMatching(docs, s)
    ensures 0 <= k < |docs| && docs[k].0 == o && s in TextsSubs(docs[k].1)
  {
    var n := |docs| - 1;
    var p := docs[..n];
    if s in TextsSubs(docs[n].1) && docs[n].0 == o {
      k := n;
    } else {
      assert o in OwnersMatching(p, s);
      k := OwnersMatchingSource(p, s, o);
      assert p[k] == docs[k];
    }
  }

  lemma {:induction false} OwnersMatchingHas(docs: Table<seq<string>>, s: string, k: int)
    requires 0 <= k < |docs| && s in TextsSubs(docs[k].1)
    ensures docs[k].0 in OwnersMatching(docs, s)
  {
    var n := |docs| - 1;
    var p := docs[..n];
    if k < n {
      assert p[k] == docs[k];
      OwnersMatchingHas(p, s, k);
    }
  }

  /** The matching owners keep the order of the table. */
  lemma {:induction false} OwnersMatchingOrder(docs: Table<seq<string>>, s: string)
    ensures IsSubsequence(OwnersMatching(docs, s), Keys(docs))
  {
    if docs != [] {
      var n := |docs| - 1;
      OwnersMatchingOrder(docs[..n], s);
      assert Keys(docs) == Keys(docs[..n]) + [docs[n].0];
      SubsequenceSnoc(OwnersMatching(docs[..n], s), Keys(docs[..n]), docs[n].0);
      if s !in TextsSubs(docs[n].1) {
        assert OwnersMatching(docs, s) == OwnersMatching(docs[..n], s);
      }
    }
  }

  /** Nothing is stored under the empty string. */
  lemma IndexOfEmptyKey(docs: Table<seq<string>>)
    requires UniqueKeys(docs)
    ensures Get(IndexOf(docs), "") == []
  {
    IndexOfOrder(docs, "");
    EmptyMatchesNothing(docs);
  }

  lemma {:induction false} EmptyMatchesNothing(docs: Table<seq<string>>)
    ensures OwnersMatching(docs, "") == []
  {
    if docs != [] {
      EmptyMatchesNothing(docs[..|docs| - 1]);
      TextsSubsMember(docs[|docs| - 1].1, "");
    }
  }

  // ---------------------------------------------------------------------
  // The indexes of the dataset

  /** `searchIndex.byName` */
  function NameIndex(d: Data): Index { IndexOf(NameDocs(d.emojis)) }

  /** `searchIndex.byKeyword` */
  function KeywordIndex(d: Data): Index { IndexOf(KeywordDocs(d.metadata)) }

  /** `searchIndex.byAlias`: every alias substring leads to the primary name. */
  function AliasIndex(d: Data): Index { IndexOf(d.aliases) }

  /** The name of an entry of `emojis.json` contains the term. */
  predicate NameHit(d: Data, n: string, term: string)
  {
    HasKey(d.emojis, n) && term in Subs(Lower(n))
  }

  /** A keyword in the metadata of `n` contains the term. */
  predicate KeywordHit(d: Data, n: string, term: string)
  {
    exists k :: 0 <= k < |d.metadata| && d.metadata[k].0 == n && term in TextsSubs(d.metadata[k].1.keywords)
  }

  /** `n` is a primary name one of whose aliases contains the term. */
  predicate AliasHit(d: Data, n: string, term: string)
  {
    exists k :: 0 <= k < |d.aliases| && d.aliases[k].0 == n && term in TextsSubs(d.aliases[k].1)
  }

  lemma TextsSubsSingle(t: string)
    ensures TextsSubs([t]) == Subs(Lower(t))
  {
    assert [t][..0] == [];
  }

  /** What each index holds under a term: exactly the hits, each once, in
      the order of the table it was built from. */
  lemma IndexesHold(d: Data, term: string, n: string)
    requires WellFormed(d)
    ensures n in Get(NameIndex(d), term) <==> NameHit(d, n, term)
    ensures n in Get(KeywordIndex(d), term) <==> KeywordHit(d, n, term)
    ensures n in Get(AliasIndex(d), term) <==> AliasHit(d, n, term)
    ensures Get(NameIndex(d), term) == OwnersMatching(NameDocs(d.emojis), term)
    ensures Distinct(Get(NameIndex(d), term)) && Distinct(Get(KeywordIndex(d), term))
    ensures Distinct(Get(AliasIndex(d), term))
  {
    NameIndexHolds(d, term, n);
    KeywordIndexHolds(d, term, n);
    AliasIndexHolds(d, term, n);
  }

  lemma NameIndexHolds(d: Data, term: string, n: string)
    requires UniqueKeys(d.emojis)
    ensures n in Get(NameIndex(d), term) <==> NameHit(d, n, term)
    ensures Get(NameIndex(d), term) == OwnersMatching(NameDocs(d.emojis), term)
    ensures Distinct(Get(NameIndex(d), term))
  {
    var nd := NameDocs(d.emojis);
    assert UniqueKeys(nd);
    IndexOfOrder(nd, term);
    OwnersMatchingMember(nd, term, n);
    IndexOfDistinct(nd, term);
    TextsSubsSingle(n);
    if NameHit(d, n, term) {
      var k :| 0 <= k < |d.emojis| && d.emojis[k].0 == n;
      assert nd[k].0 == n && term in TextsSubs(nd[k].1);
    }
    if exists k :: 0 <= k < |nd| && nd[k].0 == n && term in TextsSubs(nd[k].1) {
      var k :| 0 <= k < |nd| && nd[k].0 == n && term in TextsSubs(nd[k].1);
      assert d.emojis[k].0 == n;
    }
  }

  lemma KeywordIndexHolds(d: Data, term: string, n: string)
    requires UniqueKeys(d.metadata)
    ensures n in Get(KeywordIndex(d), term) <==> KeywordHit(d, n, term)
    ensures Distinct(Get(KeywordIndex(d), term))
  {
    var kd := KeywordDocs(d.metadata);
    assert UniqueKeys(kd);
    IndexOfOrder(kd, term);
    OwnersMatchingMember(kd, term, n);
    IndexOfDistinct(kd, term);
    if KeywordHit(d, n, term) {
      var k :| 0 <= k < |d.metadata| && d.metadata[k].0 == n && term in TextsSubs(d.metadata[k].1.keywords);
      assert kd[k].0 == n && term in TextsSubs(kd[k].1);
    }
    if exists k :: 0 <= k < |kd| && kd[k].0 == n && term in TextsSubs(kd[k].1) {
      var k :| 0 <= k < |kd| && kd[k].0 == n && term in TextsSubs(kd[k].1);
      assert d.metadata[k].0 == n && term in TextsSubs(d.metadata[k].1.keywords);
    }
  }

  lemma AliasIndexHolds(d: Data, term: string, n: string)
    requires UniqueKeys(d.aliases)
    ensures n in Get(AliasIndex(d), term) <==> AliasHit(d, n, term)
    ensures Distinct(Get(AliasIndex(d), term))
  {
    IndexOfOrder(d.aliases, term);
    OwnersMatchingMember(d.aliases, term, n);
    IndexOfDistinct(d.aliases, term);
  }

  // ---------------------------------------------------------------------
  // search

  /** The scores 1.0 (name), 0.8 (keyword) and 0.6 (alias). */
  datatype Score = NameMatch | KeywordMatch | AliasMatch

  /** `score || 0`, in fifths: only differences of scores are ever used. */
  function Rank(s: Option<Score>): int
  {
    match s
    case None => 0
    case Some(NameMatch) => 5
    case Some(KeywordMatch) => 4
    case Some(AliasMatch) => 3
  }

  /** `SearchResult`; `emoji` is `None` for a name missing from `emojis.json`
      and `score` is absent in the results of `getByCategory`. */
  datatype SearchResult = SearchResult(name: string, emoji: Option<string>, keywords: seq<string>,
                                       category: string, score: Option<Score>)

  /** The object built for `name` in each pass of `search`. */
  function MakeResult(d: Data, name: string, score: Score): SearchResult
  {
    SearchResult(name, Find(d.emojis, name), KeywordsOf(d, name), CategoryOr(d, name, "other"), Some(score))
  }

  /** `resultMap.has(n)` */
  predicate HasName(rs: seq<SearchResult>, n: string)
  {
    exists i :: 0 <= i < |rs| && rs[i].name == n
  }

  /** A result map holds each name at most once. */
  predicate UniqueNames(rs: seq<SearchResult>)
  {
    forall i, j :: 0 <= i < j < |rs| ==> rs[i].name != rs[j].name
  }

  /** `resultMap.set(r.name, r)`: a present name keeps its position. */
  function Put(rs: seq<SearchResult>, r: SearchResult): seq<SearchResult>
  {
    if rs == [] then [r]
    else if rs[0].name == r.name then [r] + rs[1..]
    else [rs[0]] + Put(rs[1..], r)
  }

  /** The first pass: every name match is `set`. */
  function NamePass(d: Data, names: seq<string>): seq<SearchResult>
  {
    if names == [] then []
    else Put(NamePass(d, names[..|names| - 1]), MakeResult(d, names[|names| - 1], NameMatch))
  }

  /** A later pass: a match is added only when its name is not there yet. */
  function LaterPass(rs: seq<SearchResult>, d: Data, names: seq<string>, score: Score): seq<SearchResult>
  {
    if names == [] then rs
    else
      var before := LaterPass(rs, d, names[..|names| - 1], score);
      var n := names[|names| - 1];
      if HasName(before, n) then before else before + [MakeResult(d, n, score)]
  }

  /** The result map after the three passes, in insertion order. */
  function Collected(d: Data, term: string): seq<SearchResult>
  {
    var byName := NamePass(d, Get(NameIndex(d), term));
    var byKeyword := LaterPass(byName, d, Get(KeywordIndex(d), term), KeywordMatch);
    LaterPass(byKeyword, d, Get(AliasIndex(d), term), AliasMatch)
  }

  /** The comparison `(b.score || 0) - (a.score || 0)` read as "`a` may stay
      before `b`": a higher score comes first. */
  predicate ByScore(a: SearchResult, b: SearchResult)
  {
    Rank(b.score) <= Rank(a.score)
  }

  lemma ByScoreOrder()
    ensures Total(ByScore) && Transitive(ByScore)
  {
  }

  /** What `search(keyword)` returns. */
  function SearchResults(d: Data, keyword: string): seq<SearchResult>
  {
    Sort(Collected(d, Lower(keyword)), ByScore)
  }

  /** The module-level `searchIndex`, built once from the dataset. */
  class SearchIndex {
    const data: Data
    const byName: Index
    const byKeyword: Index
    const byAlias: Index

    ghost predicate Valid()
    {
      byName == NameIndex(data) && byKeyword == KeywordIndex(data) && byAlias == AliasIndex(data)
    }

    /** `buildSearchIndex()` */
    constructor (d: Data)
      ensures data == d && Valid()
    {
      data := d;
      var names := BuildIndex(NameDocs(d.emojis));
      var keywords := BuildIndex(KeywordDocs(d.metadata));
      var aliases := BuildIndex(d.aliases);
      byName, byKeyword, byAlias := names, keywords, aliases;
    }

    /** `search` */
    method Search(keyword: string) returns (results: seq<SearchResult>)
      requires Valid()
      ensures results == SearchResults(data, keyword)
    {
      var term := Lower(keyword);
      var resultMap := SetNameMatches(data, Get(byName, term));
      resultMap := AddLaterMatches(resultMap, data, Get(byKeyword, term), KeywordMatch);
      resultMap := AddLaterMatches(resultMap, data, Get(byAlias, term), AliasMatch);
      results := Sort(resultMap, ByScore);
    }
  }

  /** The first `forEach` of `search`: `resultMap.set` for every name match. */
  method SetNameMatches(d: Data, nameMatches: seq<string>) returns (resultMap: seq<SearchResult>)
    ensures resultMap == NamePass(d, nameMatches)
  {
    resultMap := [];
    for i := 0 to |nameMatches|
      invariant resultMap == NamePass(d, nameMatches[..i])
    {
      assert nameMatches[..i + 1][..i] == nameMatches[..i];
      resultMap := Put(resultMap, MakeResult(d, nameMatches[i], NameMatch));
    }
    assert nameMatches[..|nameMatches|] == nameMatches;
  }

  /** The keyword and alias `forEach` of `search`: a match is `set` only when
      `resultMap.has` it not. */
  method AddLaterMatches(rs: seq<SearchResult>, d: Data, matches: seq<string>, score: Score)
    returns (resultMap: seq<SearchResult>)
    ensures resultMap == LaterPass(rs, d, matches, score)
  {
    resultMap := rs;
    for i := 0 to |matches|
      invariant resultMap == LaterPass(rs, d, matches[..i], score)
    {
      assert matches[..i + 1][..i] == matches[..i];
      if !HasName(resultMap, matches[i]) {
        resultMap := resultMap + [MakeResult(d, matches[i], score)];
      }
    }
    assert matches[..|matches|] == matches;
  }

  // ---------------------------------------------------------------------
  // What search returns

  /** A name found by one of the three indexes. */
  predicate Hit(d: Data, n: string, term: string)
  {
    NameHit(d, n, term) || KeywordHit(d, n, term) || AliasHit(d, n, term)
  }

  /** The score a found name gets: the first pass that finds it decides. */
  function ScoreOf(d: Data, n: string, term: string): Score
  {
    if NameHit(d, n, term) then NameMatch
    else if KeywordHit(d, n, term) then KeywordMatch
    else AliasMatch
  }

  lemma {:induction false} PutNew(rs: seq<SearchResult>, r: SearchResult)
    requires !HasName(rs, r.name)
    ensures Put(rs, r) == rs + [r]
  {
    if rs != [] {
      assert !HasName(rs[1..], r.name) by {
        forall i | 0 <= i < |rs[1..]| ensures rs[1..][i].name != r.name {
          assert rs[1..][i] == rs[i + 1];
        }
      }
      assert rs[0].name != r.name;
      PutNew(rs[1..], r);
    }
  }

  /** With distinct matches, the first pass holds one result per match, in order. */
  lemma {:induction false} NamePassShape(d: Data, names: seq<string>)
    requires Distinct(names)
    ensures |NamePass(d, names)| == |names|
    ensures forall i :: 0 <= i < |names| ==> NamePass(d, names)[i] == MakeResult(d, names[i], NameMatch)
  {
    if names != [] {
      var n := |names| - 1;
      var p := names[..n];
      assert Distinct(p) by {
        forall i, j | 0 <= i < j < |p| ensures p[i] != p[j] {
          assert p[i] == names[i] && p[j] == names[j];
        }
      }
      NamePassShape(d, p);
      var before := NamePass(d, p);
      assert !HasName(before, names[n]) by {
        forall i | 0 <= i < |before| ensures before[i].name != names[n] {
          assert before[i].name == p[i] == names[i];
        }
      }
      PutNew(before, MakeResult(d, names[n], NameMatch));
    }
  }

  /** A later pass only appends, and each result it appends carries that
      pass's score. */
  lemma {:induction false} LaterPassPrefix(rs: seq<SearchResult>, d: Data, names: seq<string>, score: Score)
    ensures var r := LaterPass(rs, d, names, score);
            && |rs| <= |r| && r[..|rs|] == rs
            && forall i :: |rs| <= i < |r| ==> r[i] == MakeResult(d, r[i].name, score)
  {
    if names != [] {
      var k := |names| - 1;
      LaterPassPrefix(rs, d, names[..k], score);
      var before := LaterPass(rs, d, names[..k], score);
      if !HasName(before, names[k]) {
        assert (before + [MakeResult(d, names[k], score)])[..|rs|] == before[..|rs|];
      }
    }
  }

  /** Each appended result is a match of that pass that was not present before it. */
  lemma {:induction false} LaterPassNew(rs: seq<SearchResult>, d: Data, names: seq<string>, score: Score)
    ensures var r := LaterPass(rs, d, names, score);
            forall i :: |rs| <= i < |r| ==> r[i].name in names && !HasName(rs, r[i].name)
  {
    if names != [] {
      var k := |names| - 1;
      LaterPassNew(rs, d, names[..k], score);
      LaterPassPrefix(rs, d, names[..k], score);
      var before := LaterPass(rs, d, names[..k], score);
      var r := LaterPass(rs, d, names, score);
      forall i | |rs| <= i < |r| ensures r[i].name in names && !HasName(rs, r[i].name) {
        if i < |before| {
          assert r[i] == before[i];
          assert names == names[..k] + [names[k]];
        } else {
          assert r[i].name == names[k];
          forall j | 0 <= j < |rs| ensures rs[j].name != names[k] {
            assert before[j] == rs[j];
          }
        }
      }
    }
  }

  /** After a later pass, a name is present exactly when it was before or is a match. */
  lemma {:induction false} LaterPassHas(rs: seq<SearchResult>, d: Data, names: seq<string>, score: Score, m: string)
    ensures HasName(LaterPass(rs, d, names, score), m) <==> HasName(rs, m) || m in names
  {
    if names != [] {
      var k := |names| - 1;
      LaterPassHas(rs, d, names[..k], score, m);
      var before := LaterPass(rs, d, names[..k], score);
      var r := LaterPass(rs, d, names, score);
      assert names == names[..k] + [names[k]];
      if !HasName(before, names[k]) {
        if HasName(r, m) && !HasName(before, m) {
          assert r[|r| - 1].name == m;
        }
        if HasName(before, m) {
          var i :| 0 <= i < |before| && before[i].name == m;
          assert r[i].name == m;
        }
        if m == names[k] {
          assert r[|r| - 1].name == m;
        }
      }
    }
  }

  /** A later pass keeps names unique. */
  lemma {:induction false} LaterPassUnique(rs: seq<SearchResult>, d: Data, names: seq<string>, score: Score)
    requires UniqueNames(rs)
    ensures UniqueNames(LaterPass(rs, d, names, score))
  {
    if names != [] {
      var k := |names| - 1;
      LaterPassUnique(rs, d, names[..k], score);
      var before := LaterPass(rs, d, names[..k], score);
      if !HasName(before, names[k]) {
        var r := before + [MakeResult(d, names[k], score)];
        forall i, j | 0 <= i < j < |r| ensures r[i].name != r[j].name {
          assert r[i] == before[i] || j < |before|;
          if j < |before| {
            assert r[i] == before[i] && r[j] == before[j];
          }
        }
      }
    }
  }

  /** The two passes after the first: results already present keep their
      place and score. */
  lemma CollectedPrefix(d: Data, term: string)
    ensures var byName := NamePass(d, Get(NameIndex(d), term));
            var byKeyword := LaterPass(byName, d, Get(KeywordIndex(d), term), KeywordMatch);
            var c := Collected(d, term);
            && |byName| <= |byKeyword| <= |c|
            && c[..|byKeyword|] == byKeyword && byKeyword[..|byName|] == byName
  {
    var byName := NamePass(d, Get(NameIndex(d), term));
    LaterPassPrefix(byName, d, Get(KeywordIndex(d), term), KeywordMatch);
    var byKeyword := LaterPass(byName, d, Get(KeywordIndex(d), term), KeywordMatch);
    LaterPassPrefix(byKeyword, d, Get(AliasIndex(d), term), AliasMatch);
  }

  /** The first pass: one result per name match, each scored as a name match. */
  lemma FirstPassSpec(d: Data, term: string)
    requires WellFormed(d)
    ensures var c1 := NamePass(d, Get(NameIndex(d), term));
            && UniqueNames(c1)
            && (forall n :: HasName(c1, n) <==> NameHit(d, n, term))
            && (forall i :: 0 <= i < |c1| ==> c1[i] == MakeResult(d, c1[i].name, NameMatch))
  {
    var names := Get(NameIndex(d), term);
    IndexesHold(d, term, "");
    var c1 := NamePass(d, names);
    NamePassShape(d, names);
    forall n ensures HasName(c1, n) <==> NameHit(d, n, term) {
      IndexesHold(d, term, n);
      if n in names {
        var i :| 0 <= i < |names| && names[i] == n;
        assert c1[i].name == n;
      }
    }
    assert UniqueNames(c1) by {
      forall i, j | 0 <= i < j < |c1| ensures c1[i].name != c1[j].name {
        assert c1[i].name == names[i] && c1[j].name == names[j];
      }
    }
  }

  /** The result map: one result per found name, each with the score of the
      first pass that finds it and the fields of that name. */
  lemma CollectedSpec(d: Data, term: string)
    requires WellFormed(d)
    ensures var c := Collected(d, term);
            && UniqueNames(c)
            && (forall n :: HasName(c, n) <==> Hit(d, n, term))
            && (forall i :: 0 <= i < |c| ==> c[i] == MakeResult(d, c[i].name, ScoreOf(d, c[i].name, term)))
  {
    var keywords := Get(KeywordIndex(d), term);
    var aliases := Get(AliasIndex(d), term);
    var c1 := NamePass(d, Get(NameIndex(d), term));
    var c2 := LaterPass(c1, d, keywords, KeywordMatch);
    var c3 := LaterPass(c2, d, aliases, AliasMatch);
    FirstPassSpec(d, term);
    LaterPassUnique(c1, d, keywords, KeywordMatch);
    LaterPassUnique(c2, d, aliases, AliasMatch);
    forall n ensures HasName(c3, n) <==> Hit(d, n, term) {
      IndexesHold(d, term, n);
      LaterPassHas(c1, d, keywords, KeywordMatch, n);
      LaterPassHas(c2, d, aliases, AliasMatch, n);
    }
    LaterPassPrefix(c1, d, keywords, KeywordMatch);
    LaterPassPrefix(c2, d, aliases, AliasMatch);
    LaterPassNew(c1, d, keywords, KeywordMatch);
    LaterPassNew(c2, d, aliases, AliasMatch);
    forall i | 0 <= i < |c3| ensures c3[i] == MakeResult(d, c3[i].name, ScoreOf(d, c3[i].name, term)) {
      var n := c3[i].name;
      IndexesHold(d, term, n);
      if i < |c1| {
        assert c3[i] == c2[i] == c1[i];
        assert HasName(c1, n);
      } else if i < |c2| {
        assert c3[i] == c2[i];
      } else {
        LaterPassHas(c1, d, keywords, KeywordMatch, n);
      }
    }
  }

  /** Sorting keeps one result per name. */
  lemma SortUniqueNames(rs: seq<SearchResult>, le: (SearchResult, SearchResult) -> bool)
    requires UniqueNames(rs)
    ensures UniqueNames(Sort(rs, le))
    ensures forall x :: x in Sort(rs, le) <==> x in rs
  {
    var o := Sort(rs, le);
    assert forall x :: x in o <==> x in multiset(o);
    assert forall x :: x in rs <==> x in multiset(rs);
    assert Distinct(rs);
    SortDistinct(rs, le);
    forall i, j | 0 <= i < j < |o| ensures o[i].name != o[j].name {
      assert o[i] in rs && o[j] in rs;
      var a :| 0 <= a < |rs| && rs[a] == o[i];
      var b :| 0 <= b < |rs| && rs[b] == o[j];
      if a != b {
        assert rs[a].name != rs[b].name || a > b;
        if a > b { assert rs[b].name != rs[a].name; }
      }
    }
  }

  /** `search`: each found name exactly once, with the score of the index
      that first finds it, the fields of that name, highest score first. */
  lemma SearchSpec(d: Data, keyword: string)
    requires WellFormed(d)
    ensures var term := Lower(keyword);
            var rs := SearchResults(d, keyword);
            && UniqueNames(rs)
            && (forall n :: HasName(rs, n) <==> Hit(d, n, term))
            && (forall i :: 0 <= i < |rs| ==> rs[i] == MakeResult(d, rs[i].name, ScoreOf(d, rs[i].name, term)))
            && Sorted(rs, ByScore)
  {
    var term := Lower(keyword);
    CollectedSpec(d, term);
    SortKeepsResults(Collected(d, term), d, term);
  }

  /** Sorting by score keeps the results and their properties. */
  lemma SortKeepsResults(c: seq<SearchResult>, d: Data, term: string)
    requires UniqueNames(c)
    requires forall n :: HasName(c, n) <==> Hit(d, n, term)
    requires forall i :: 0 <= i < |c| ==> c[i] == MakeResult(d, c[i].name, ScoreOf(d, c[i].name, term))
    ensures var rs := Sort(c, ByScore);
            && UniqueNames(rs)
            && (forall n :: HasName(rs, n) <==> Hit(d, n, term))
            && (forall i :: 0 <= i < |rs| ==> rs[i] == MakeResult(d, rs[i].name, ScoreOf(d, rs[i].name, term)))
            && Sorted(rs, ByScore)
  {
    var rs := Sort(c, ByScore);
    SortUniqueNames(c, ByScore);
    ByScoreOrder();
    SortSorted(c, ByScore);
    forall n ensures HasName(rs, n) <==> HasName(c, n) {
      if HasName(rs, n) {
        var i :| 0 <= i < |rs| && rs[i].name == n;
        assert rs[i] in c;
      }
      if HasName(c, n) {
        var i :| 0 <= i < |c| && c[i].name == n;
        assert c[i] in rs;
      }
    }
    forall i | 0 <= i < |rs| ensures rs[i] == MakeResult(d, rs[i].name, ScoreOf(d, rs[i].name, term)) {
      assert rs[i] in c;
    }
  }

  /** The search is case-insensitive (over the ASCII letters). */
  lemma SearchIgnoresCase(d: Data, keyword: string)
    ensures SearchResults(d, keyword) == SearchResults(d, Lower(keyword))
  {
    LowerIdempotent(keyword);
  }

  /** An empty search term finds nothing: no index holds the empty string. */
  lemma SearchEmptyTerm(d: Data)
    requires WellFormed(d)
    ensures SearchResults(d, "") == []
  {
    SearchSpec(d, "");
    var rs := SearchResults(d, "");
    if rs != [] {
      assert HasName(rs, rs[0].name);
      var n := rs[0].name;
      SubsIsContains(Lower(n), "");
      forall k | 0 <= k < |d.metadata| ensures "" !in TextsSubs(d.metadata[k].1.keywords) {
        TextsSubsMember(d.metadata[k].1.keywords, "");
      }
      forall k | 0 <= k < |d.aliases| ensures "" !in TextsSubs(d.aliases[k].1) {
        TextsSubsMember(d.aliases[k].1, "");
      }
      assert false;
    }
  }

  lemma {:induction false} SameRankAll<T>(s: seq<T>, p: T, le: (T, T) -> bool)
    requires forall i :: 0 <= i < |s| ==> le(s[i], p) && le(p, s[i])
    ensures SameRank(s, p, le) == s
  {
    if s != [] {
      SameRankAll(s[..|s| - 1], p, le);
    }
  }

  lemma {:induction false} SameRankNone<T>(s: seq<T>, p: T, le: (T, T) -> bool)
    requires forall i :: 0 <= i < |s| ==> !(le(s[i], p) && le(p, s[i]))
    ensures SameRank(s, p, le) == []
  {
    if s != [] {
      SameRankNone(s[..|s| - 1], p, le);
    }
  }

  /** The result map is the first pass followed by results of lower score. */
  lemma CollectedSplit(d: Data, term: string)
    ensures var c1 := NamePass(d, Get(NameIndex(d), term));
            var c := Collected(d, term);
            && |c1| <= |c| && c == c1 + c[|c1|..]
            && forall i :: |c1| <= i < |c| ==> c[i].score != Some(NameMatch)
  {
    var c1 := NamePass(d, Get(NameIndex(d), term));
    var c := Collected(d, term);
    CollectedPrefix(d, term);
    LaterPassPrefix(c1, d, Get(KeywordIndex(d), term), KeywordMatch);
    var c2 := LaterPass(c1, d, Get(KeywordIndex(d), term), KeywordMatch);
    LaterPassPrefix(c2, d, Get(AliasIndex(d), term), AliasMatch);
    assert c[..|c1|] == c2[..|c1|] == c1;
    assert c == c[..|c1|] + c[|c1|..];
    forall i | |c1| <= i < |c| ensures c[i].score != Some(NameMatch) {
      if i < |c2| {
        assert c[i] == c2[i];
      }
    }
  }

  /** The results of the highest score are the first pass itself. */
  lemma NameGroup(d: Data, term: string, top: SearchResult)
    requires top.score == Some(NameMatch)
    ensures SameRank(Collected(d, term), top, ByScore) == NamePass(d, Get(NameIndex(d), term))
  {
    var c := Collected(d, term);
    var c1 := NamePass(d, Get(NameIndex(d), term));
    CollectedSplit(d, term);
    NamePassScores(d, Get(NameIndex(d), term));
    var rest := c[|c1|..];
    forall i | 0 <= i < |rest| ensures rest[i].score != Some(NameMatch) {
      assert rest[i] == c[|c1| + i];
    }
    TopGroup(c1, rest, top);
  }

  lemma TopGroup(top1: seq<SearchResult>, rest: seq<SearchResult>, top: SearchResult)
    requires top.score == Some(NameMatch)
    requires forall i :: 0 <= i < |top1| ==> top1[i].score == Some(NameMatch)
    requires forall i :: 0 <= i < |rest| ==> rest[i].score != Some(NameMatch)
    ensures SameRank(top1 + rest, top, ByScore) == top1
  {
    SameRankAppend(top1, rest, top, ByScore);
    forall i | 0 <= i < |top1| ensures ByScore(top1[i], top) && ByScore(top, top1[i]) {
      assert Rank(top1[i].score) == 5;
    }
    SameRankAll(top1, top, ByScore);
    forall i | 0 <= i < |rest| ensures !(ByScore(rest[i], top) && ByScore(top, rest[i])) {
      assert Rank(rest[i].score) < 5;
    }
    SameRankNone(rest, top, ByScore);
    AppendEmpty(top1);
  }

  lemma {:induction false} NamePassScores(d: Data, names: seq<string>)
    ensures forall i :: 0 <= i < |NamePass(d, names)| ==> NamePass(d, names)[i].score == Some(NameMatch)
  {
    if names != [] {
      NamePassScores(d, names[..|names| - 1]);
      PutScores(NamePass(d, names[..|names| - 1]), MakeResult(d, names[|names| - 1], NameMatch));
    }
  }

  lemma {:induction false} PutScores(rs: seq<SearchResult>, r: SearchResult)
    requires forall i :: 0 <= i < |rs| ==> rs[i].score == r.score
    ensures forall i :: 0 <= i < |Put(rs, r)| ==> Put(rs, r)[i].score == r.score
  {
    if rs != [] && rs[0].name != r.name {
      PutScores(rs[1..], r);
    }
  }

  /** The name matches come first, in the order of `emojis.json`. */
  lemma SearchNameMatchesInOrder(d: Data, keyword: string)
    requires WellFormed(d)
    ensures var term := Lower(keyword);
            var names := OwnersMatching(NameDocs(d.emojis), term);
            var top := SearchResult("", None, [], "", Some(NameMatch));
            && SameRank(SearchResults(d, keyword), top, ByScore)
                 == seq(|names|, i requires 0 <= i < |names| => MakeResult(d, names[i], NameMatch))
            && IsSubsequence(names, Keys(d.emojis))
  {
    var term := Lower(keyword);
    var top := SearchResult("", None, [], "", Some(NameMatch));
    ByScoreOrder();
    SortStable(Collected(d, term), top, ByScore);
    NameGroup(d, term, top);
    NamePassIsMatches(d, term);
    NameMatchesOrder(d, term);
  }

  /** Results of equal score keep the insertion order of the result map:
      this holds for the 0.8 and 0.6 groups as for the 1.0 group. */
  lemma SearchStableGroups(d: Data, keyword: string)
    ensures forall p :: SameRank(SearchResults(d, keyword), p, ByScore)
                          == SameRank(Collected(d, Lower(keyword)), p, ByScore)
  {
    ByScoreOrder();
    forall p ensures SameRank(SearchResults(d, keyword), p, ByScore)
                       == SameRank(Collected(d, Lower(keyword)), p, ByScore) {
      SortStable(Collected(d, Lower(keyword)), p, ByScore);
    }
  }

  /** The first pass has one result per name match, in index order. */
  lemma NamePassIsMatches(d: Data, term: string)
    requires WellFormed(d)
    ensures var names := OwnersMatching(NameDocs(d.emojis), term);
            NamePass(d, Get(NameIndex(d), term))
              == seq(|names|, i requires 0 <= i < |names| => MakeResult(d, names[i], NameMatch))
  {
    NameIndexHolds(d, term, "");
    NamePassShape(d, Get(NameIndex(d), term));
  }

  /** The name matches keep the order of `emojis.json`. */
  lemma NameMatchesOrder(d: Data, term: string)
    ensures IsSubsequence(OwnersMatching(NameDocs(d.emojis), term), Keys(d.emojis))
  {
    OwnersMatchingOrder(NameDocs(d.emojis), term);
    assert Keys(NameDocs(d.emojis)) == Keys(d.emojis);
  }

  // ---------------------------------------------------------------------
  // getByCategory and getCategories

  /** `meta?.category === category`: strict equality, no defaulting. */
  predicate InCategory(d: Data, name: string, category: string)
  {
    match Find(d.metadata, name)
    case Some(m) => m.category == Some(category)
    case None => false
  }

  /** The object `getByCategory` maps an entry to; it has no score. */
  function CategoryResult(d: Data, name: string, emoji: string): SearchResult
  {
    SearchResult(name, Some(emoji), KeywordsOf(d, name), CategoryOr(d, name, "other"), None)
  }

  function EntriesInCategory(d: Data, entries: Table<string>, category: string): seq<SearchResult>
  {
    if entries == [] then []
    else
      var n := |entries| - 1;
      EntriesInCategory(d, entries[..n], category)
        + (if InCategory(d, entries[n].0, category) then [CategoryResult(d, entries[n].0, entries[n].1)] else [])
  }

  /** `getByCategory` */
  function GetByCategory(d: Data, category: string): seq<SearchResult>
  {
    EntriesInCategory(d, d.emojis, category)
  }

  lemma {:induction false} EntriesInCategoryMember(d: Data, entries: Table<string>, category: string, x: SearchResult)
    ensures x in EntriesInCategory(d, entries, category) <==>
              exists k :: 0 <= k < |entries| && InCategory(d, entries[k].0, category)
                          && x == CategoryResult(d, entries[k].0, entries[k].1)
  {
    if entries != [] {
      var n := |entries| - 1;
      var p := entries[..n];
      EntriesInCategoryMember(d, p, category, x);
      if x in EntriesInCategory(d, p, category) {
        var k :| 0 <= k < |p| && InCategory(d, p[k].0, category) && x == CategoryResult(d, p[k].0, p[k].1);
        assert entries[k] == p[k];
      }
      if exists k :: 0 <= k < |entries| && InCategory(d, entries[k].0, category)
                     && x == CategoryResult(d, entries[k].0, entries[k].1) {
        var k :| 0 <= k < |entries| && InCategory(d, entries[k].0, category)
                 && x == CategoryResult(d, entries[k].0, entries[k].1);
        if k < n {
          assert entries[k] == p[k];
        }
      }
    }
  }

  lemma {:induction false} EntriesInCategoryOrder(d: Data, entries: Table<string>, category: string)
    ensures IsSubsequence(Keys(Names(EntriesInCategory(d, entries, category))), Keys(entries))
  {
    if entries != [] {
      var n := |entries| - 1;
      var p := entries[..n];
      EntriesInCategoryOrder(d, p, category);
      var before := EntriesInCategory(d, p, category);
      KeysSnoc(p, entries[n]);
      assert p + [entries[n]] == entries;
      SubsequenceSnoc(Keys(Names(before)), Keys(p), entries[n].0);
      var r := EntriesInCategory(d, entries, category);
      if InCategory(d, entries[n].0, category) {
        var x := CategoryResult(d, entries[n].0, entries[n].1);
        assert r == before + [x];
        NamesSnoc(before, x);
      } else {
        assert r == before + [] == before;
      }
    }
  }

  lemma KeysSnoc<V>(t: Table<V>, e: (string, V))
    ensures Keys(t + [e]) == Keys(t) + [e.0]
  {
    assert forall i :: 0 <= i < |t| ==> (t + [e])[i] == t[i];
  }

  lemma NamesSnoc(rs: seq<SearchResult>, x: SearchResult)
    ensures Keys(Names(rs + [x])) == Keys(Names(rs)) + [x.name]
  {
    assert (rs + [x])[..|rs|] == rs;
    KeysSnoc(Names(rs), (x.name, ""));
  }

  /** No entry in the category: no result. */
  lemma {:induction false} EntriesInCategoryNone(d: Data, entries: Table<string>, category: string)
    requires forall j :: 0 <= j < |entries| ==> !InCategory(d, entries[j].0, category)
    ensures EntriesInCategory(d, entries, category) == []
  {
    if entries != [] {
      var n := |entries| - 1;
      assert forall j :: 0 <= j < n ==> entries[..n][j] == entries[j];
      EntriesInCategoryNone(d, entries[..n], category);
    }
  }

  /** The names of results, as a table so that `Keys` applies. */
  function Names(rs: seq<SearchResult>): (r: Table<string>)
    ensures |r| == |rs| && forall i :: 0 <= i < |rs| ==> r[i].0 == rs[i].name
  {
    if rs == [] then [] else Names(rs[..|rs| - 1]) + [(rs[|rs| - 1].name, "")]
  }

  /** `getByCategory`: the entries of `emojis.json` whose metadata names the
      category, in table order, each with its character, keywords and
      category. The category of a result is the one asked for, except that
      the empty category shows as 'other'. A category nobody has gives []. */
  lemma GetByCategorySpec(d: Data, category: string)
    ensures var r := GetByCategory(d, category);
            && (forall x :: x in r <==> exists k :: 0 <= k < |d.emojis| && InCategory(d, d.emojis[k].0, category)
                                                  && x == CategoryResult(d, d.emojis[k].0, d.emojis[k].1))
            && IsSubsequence(Keys(Names(r)), Keys(d.emojis))
            && (forall x :: x in r ==> x.score == None && x.category == (if category == "" then "other" else category))
            && ((forall k :: 0 <= k < |d.metadata| ==> d.metadata[k].1.category != Some(category)) ==> r == [])
  {
    var r := GetByCategory(d, category);
    forall x ensures x in r <==> exists k :: 0 <= k < |d.emojis| && InCategory(d, d.emojis[k].0, category)
                                             && x == CategoryResult(d, d.emojis[k].0, d.emojis[k].1) {
      EntriesInCategoryMember(d, d.emojis, category, x);
    }
    EntriesInCategoryOrder(d, d.emojis, category);
    forall x | x in r ensures x.score == None && x.category == (if category == "" then "other" else category) {
      var k :| 0 <= k < |d.emojis| && InCategory(d, d.emojis[k].0, category)
               && x == CategoryResult(d, d.emojis[k].0, d.emojis[k].1);
    }
    if forall k :: 0 <= k < |d.metadata| ==> d.metadata[k].1.category != Some(category) {
      forall j | 0 <= j < |d.emojis| ensures !InCategory(d, d.emojis[j].0, category) {
        FindSpec(d.metadata, d.emojis[j].0);
      }
      EntriesInCategoryNone(d, d.emojis, category);
    }
  }

  /** The insertion-ordered `Set` of the truthy categories of `metadata.json`. */
  function CategorySet(metadata: Table<Meta>): seq<string>
  {
    if metadata == [] then []
    else
      var n := |metadata| - 1;
      var before := CategorySet(metadata[..n]);
      if Truthy(metadata[n].1.category) then AddIfAbsent(before, metadata[n].1.category.value) else before
  }

  /** `getCategories` */
  method GetCategories(d: Data) returns (r: seq<string>)
    ensures r == Sort(CategorySet(d.metadata), LexLe)
  {
    var categories: seq<string> := [];
    for k := 0 to |d.metadata|
      invariant categories == CategorySet(d.metadata[..k])
    {
      assert d.metadata[..k + 1][..k] == d.metadata[..k];
      var meta := d.metadata[k].1;
      if meta.category.Some? && meta.category.value != "" {
        if meta.category.value !in categories {
          categories := categories + [meta.category.value];
        }
      }
    }
    assert d.metadata[..|d.metadata|] == d.metadata;
    r := Sort(categories, LexLe);
  }

  lemma {:induction false} CategorySetSpec(metadata: Table<Meta>)
    ensures Distinct(CategorySet(metadata))
    ensures forall c :: c in CategorySet(metadata) <==>
              c != "" && exists k :: 0 <= k < |metadata| && metadata[k].1.category == Some(c)
  {
    if metadata != [] {
      var n := |metadata| - 1;
      var p := metadata[..n];
      CategorySetSpec(p);
      forall c ensures c in CategorySet(metadata) <==>
                       c != "" && exists k :: 0 <= k < |metadata| && metadata[k].1.category == Some(c) {
        if c != "" && exists k :: 0 <= k < |metadata| && metadata[k].1.category == Some(c) {
          var k :| 0 <= k < |metadata| && metadata[k].1.category == Some(c);
          if k < n {
            assert p[k] == metadata[k];
          }
        }
        if c in CategorySet(p) {
          var k :| 0 <= k < |p| && p[k].1.category == Some(c);
          assert metadata[k] == p[k];
        }
      }
    }
  }

  /** `getCategories`: every truthy category of the metadata, each once, in
      increasing order. */
  lemma GetCategoriesSpec(d: Data)
    ensures var r := Sort(CategorySet(d.metadata), LexLe);
            && Distinct(r) && Sorted(r, LexLe)
            && (forall i, j :: 0 <= i < j < |r| ==> LexLe(r[i], r[j]) && r[i] != r[j])
            && (forall c :: c in r <==> c != "" && exists k :: 0 <= k < |d.metadata| && d.metadata[k].1.category == Some(c))
  {
    var s := CategorySet(d.metadata);
    var r := Sort(s, LexLe);
    CategorySetSpec(d.metadata);
    SortDistinct(s, LexLe);
    LexLeOrder();
    SortSorted(s, LexLe);
    forall i, j | 0 <= i < j < |r| ensures LexLe(r[i], r[j]) && r[i] != r[j] {
      LexSortedIncreasing(r, i, j);
    }
    assert forall c :: c in r <==> c in multiset(r);
    assert forall c :: c in s <==> c in multiset(s);
  }
}
