/** Filters (src/features/filters/index.ts): emojis of a category, of a
    Unicode version range or with a keyword, the list of Unicode versions,
    and the version comparison they use. */
module Filters {
  import opened Text
  import opened Dataset
  import opened Sorting

  /** `EmojiInfo`; `emoji` is `None` when the name is missing from `emojis.json`. */
  datatype EmojiInfo = EmojiInfo(name: string, emoji: Option<string>, category: string,
                                 keywords: seq<string>, unicodeVersion: string)

  /** The object `filterByVersion` and `filterByKeyword` build for an entry. */
  function Info(d: Data, name: string, emoji: string): EmojiInfo
  {
    EmojiInfo(name, Some(emoji), CategoryOr(d, name, "other"), KeywordsOf(d, name), VersionOf(d, name))
  }

  // ---------------------------------------------------------------------
  // filterByCategory

  /** The object `filterByCategory` builds: the category falls back to the
      one asked for, not to 'other'. */
  function CategoryInfo(d: Data, name: string, category: string): EmojiInfo
  {
    EmojiInfo(name, Find(d.emojis, name), CategoryOr(d, name, category), KeywordsOf(d, name), VersionOf(d, name))
  }

  /** `filterByCategory`: the list of `categories.json`, or `[]`. */
  function FilterByCategory(d: Data, category: string): (r: seq<EmojiInfo>)
  {
    var names := match Find(d.categories, category) case Some(l) => l case None => [];
    seq(|names|, i requires 0 <= i < |names| => CategoryInfo(d, names[i], category))
  }

  /** One result per listed name, in the order of the list, and nothing for
      an unknown category. */
  lemma FilterByCategorySpec(d: Data, category: string, k: int)
    requires UniqueKeys(d.categories) && 0 <= k < |d.categories| && d.categories[k].0 == category
    ensures var r := FilterByCategory(d, category);
            && |r| == |d.categories[k].1|
            && forall i :: 0 <= i < |r| ==>
                 r[i].name == d.categories[k].1[i] && r[i].emoji == Find(d.emojis, r[i].name)
                 && r[i].category == CategoryOr(d, r[i].name, category)
  {
    FindEntry(d.categories, k);
    var names := d.categories[k].1;
    assert FilterByCategory(d, category) == seq(|names|, i requires 0 <= i < |names| => CategoryInfo(d, names[i], category));
  }

  lemma FilterByUnknownCategory(d: Data, category: string)
    requires !HasKey(d.categories, category)
    ensures FilterByCategory(d, category) == []
  {
    FindSpec(d.categories, category);
  }

  // ---------------------------------------------------------------------
  // compareVersions

  /** `s.split('.')` */
  function Split(s: string): (r: seq<string>)
    ensures |r| >= 1
  {
    if s == [] then [[]]
    else
      var rest := Split(s[1..]);
      if s[0] == '.' then [[]] + rest else [[s[0]] + rest[0]] + rest[1..]
  }

  /** The decimal value of a string of digits. */
  function Decimal(p: string): nat
    requires forall i :: 0 <= i < |p| ==> IsDigit(p[i])
  {
    if p == [] then 0
    else
      assert IsDigit(p[|p| - 1]);
      10 * Decimal(p[..|p| - 1]) + (p[|p| - 1] as int - '0' as int)
  }

  /** `Number(part) || 0`: the value of a string of digits; anything else is
      `NaN` or `0`, both of which become `0`. */
  function PartValue(p: string): nat
  {
    if forall i :: 0 <= i < |p| ==> IsDigit(p[i]) then Decimal(p) else 0
  }

  /** `a.split('.').map(Number)` with `|| 0` applied. */
  function Parts(s: string): (r: seq<nat>)
    ensures |r| == |Split(s)|
  {
    var ps := Split(s);
    seq(|ps|, i requires 0 <= i < |ps| => PartValue(ps[i]))
  }

  /** `parts[i] || 0`: a missing part counts as `0`. */
  function At(ps: seq<nat>, i: nat): nat
  {
    if i < |ps| then ps[i] else 0
  }

  function Drop(ps: seq<nat>, i: nat): seq<nat>
  {
    if i < |ps| then ps[i..] else []
  }

  /** The difference of the first differing parts, or 0. */
  function CompareParts(pa: seq<nat>, pb: seq<nat>): int
    decreases |pa| + |pb|
  {
    if pa == [] && pb == [] then 0
    else if At(pa, 0) != At(pb, 0) then At(pa, 0) - At(pb, 0)
    else CompareParts(Drop(pa, 1), Drop(pb, 1))
  }

  /** What `compareVersions(a, b)` returns. */
  function Compare(a: string, b: string): int
  {
    CompareParts(Parts(a), Parts(b))
  }

  function Larger(x: int, y: int): int { if x < y then y else x }

  /** `compareVersions` */
  method CompareVersions(a: string, b: string) returns (r: int)
    ensures r == Compare(a, b)
  {
    var partsA := Parts(a);
    var partsB := Parts(b);
    var n := Larger(|partsA|, |partsB|);
    for i := 0 to n
      invariant Compare(a, b) == CompareParts(Drop(partsA, i), Drop(partsB, i))
    {
      var partA: int := At(partsA, i);
      var partB: int := At(partsB, i);
      assert At(Drop(partsA, i), 0) == partA && At(Drop(partsB, i), 0) == partB;
      if partA != partB {
        return partA - partB;
      }
      assert Drop(Drop(partsA, i), 1) == Drop(partsA, i + 1);
      assert Drop(Drop(partsB, i), 1) == Drop(partsB, i + 1);
    }
    assert Drop(partsA, n) == [] && Drop(partsB, n) == [];
    return 0;
  }

  lemma {:induction false} ComparePartsAntisymmetric(pa: seq<nat>, pb: seq<nat>)
    ensures CompareParts(pa, pb) == -CompareParts(pb, pa)
    decreases |pa| + |pb|
  {
    if !(pa == [] && pb == []) && At(pa, 0) == At(pb, 0) {
      ComparePartsAntisymmetric(Drop(pa, 1), Drop(pb, 1));
    }
  }

  /** Zero exactly when the parts agree once the shorter is padded with zeros. */
  lemma {:induction false} ComparePartsZero(pa: seq<nat>, pb: seq<nat>)
    ensures CompareParts(pa, pb) == 0 <==> forall i :: 0 <= i < Larger(|pa|, |pb|) ==> At(pa, i) == At(pb, i)
    decreases |pa| + |pb|
  {
    if !(pa == [] && pb == []) {
      ComparePartsZero(Drop(pa, 1), Drop(pb, 1));
      forall i | 1 <= i < Larger(|pa|, |pb|) ensures At(pa, i) == At(Drop(pa, 1), i - 1) && At(pb, i) == At(Drop(pb, 1), i - 1) {
      }
      if forall i :: 0 <= i < Larger(|pa|, |pb|) ==> At(pa, i) == At(pb, i) {
        assert At(pa, 0) == At(pb, 0);
        forall i | 0 <= i < Larger(|Drop(pa, 1)|, |Drop(pb, 1)|) ensures At(Drop(pa, 1), i) == At(Drop(pb, 1), i) {
          assert At(pa, i + 1) == At(pb, i + 1);
        }
      }
    }
  }

  /** Swapping the arguments negates the result. */
  lemma CompareAntisymmetric(a: string, b: string)
    ensures Compare(a, b) == -Compare(b, a)
  {
    ComparePartsAntisymmetric(Parts(a), Parts(b));
  }

  /** Two versions compare equal exactly when their numeric parts agree,
      missing parts counting as zero. */
  lemma CompareZero(a: string, b: string)
    ensures Compare(a, b) == 0 <==>
              forall i :: 0 <= i < Larger(|Parts(a)|, |Parts(b)|) ==> At(Parts(a), i) == At(Parts(b), i)
  {
    ComparePartsZero(Parts(a), Parts(b));
  }

  /** A lower first differing part makes the version older. */
  lemma {:induction false} ComparePartsFirstDifference(pa: seq<nat>, pb: seq<nat>, k: nat)
    requires forall i :: 0 <= i < k ==> At(pa, i) == At(pb, i)
    requires At(pa, k) < At(pb, k)
    ensures CompareParts(pa, pb) == At(pa, k) - At(pb, k) < 0
    decreases k
  {
    if k > 0 {
      assert At(pa, 0) == At(pb, 0);
      assert !(pa == [] && pb == []);
      forall i | 0 <= i < k - 1 ensures At(Drop(pa, 1), i) == At(Drop(pb, 1), i) {
        assert At(pa, i + 1) == At(pb, i + 1);
      }
      assert At(Drop(pa, 1), k - 1) == At(pa, k) && At(Drop(pb, 1), k - 1) == At(pb, k);
      ComparePartsFirstDifference(Drop(pa, 1), Drop(pb, 1), k - 1);
    }
  }

  lemma {:induction false} SplitPlain(s: string)
    requires forall i :: 0 <= i < |s| ==> s[i] != '.'
    ensures Split(s) == [s]
  {
    if s != [] {
      SplitPlain(s[1..]);
      assert [s[0]] + s[1..] == s;
    }
  }

  lemma {:induction false} SplitDot(a: string, b: string)
    requires forall i :: 0 <= i < |a| ==> a[i] != '.'
    ensures Split(a + "." + b) == [a] + Split(b)
  {
    if a == [] {
      assert a + "." + b == "." + b;
      assert ("." + b)[1..] == b;
    } else {
      assert (a + "." + b)[1..] == a[1..] + "." + b;
      SplitDot(a[1..], b);
      assert [a[0]] + a[1..] == a;
    }
  }

  lemma SplitExample(a: string, b: string)
    requires forall i :: 0 <= i < |a| ==> a[i] != '.'
    requires forall i :: 0 <= i < |b| ==> b[i] != '.'
    ensures Split(a + "." + b) == [a, b]
  {
    SplitDot(a, b);
    SplitPlain(b);
  }

  /** Versions compare numerically: 6.0 is older than 11.0 although "11.0"
      comes first as text, and 13 is the same version as 13.0. */
  lemma CompareExamples()
    ensures Compare("6.0", "11.0") < 0 && LexLe("11.0", "6.0")
    ensures Compare("13", "13.0") == 0
  {
    CompareSixEleven();
    CompareTrailingZero();
  }

  lemma CompareSixEleven()
    ensures Compare("6.0", "11.0") < 0 && LexLe("11.0", "6.0")
  {
    PartsDotted("6", "0");
    PartsDotted("11", "0");
    assert "6" + "." + "0" == "6.0" && "11" + "." + "0" == "11.0";
    assert Decimal("11") == 11 by { assert "11"[..1] == "1"; }
  }

  lemma CompareTrailingZero()
    ensures Compare("13", "13.0") == 0
  {
    PartsDotted("13", "0");
    assert "13" + "." + "0" == "13.0";
    SplitPlain("13");
    assert Decimal("13") == 13 by { assert "13"[..1] == "1"; }
    assert Parts("13") == [13];
    CompareZero("13", "13.0");
  }

  /** The parts of a version `a.b` written with digits only. */
  lemma PartsDotted(a: string, b: string)
    requires forall i :: 0 <= i < |a| ==> IsDigit(a[i])
    requires forall i :: 0 <= i < |b| ==> IsDigit(b[i])
    ensures Parts(a + "." + b) == [Decimal(a), Decimal(b)]
  {
    SplitExample(a, b);
  }

  /** "May stay before" for `sort(compareVersions)`. */
  predicate VersionLe(a: string, b: string)
  {
    Compare(a, b) <= 0
  }

  lemma VersionLeTotal()
    ensures Total(VersionLe)
  {
    forall a, b ensures VersionLe(a, b) || VersionLe(b, a) {
      CompareAntisymmetric(a, b);
    }
  }

  /** One step of the comparison: the first parts decide, or else the rest. */
  lemma ComparePartsStep(pa: seq<nat>, pb: seq<nat>)
    ensures CompareParts(pa, pb) ==
              if At(pa, 0) != At(pb, 0) then At(pa, 0) - At(pb, 0)
              else CompareParts(Drop(pa, 1), Drop(pb, 1))
  {
    if pa == [] && pb == [] {
      assert Drop(pa, 1) == [] && Drop(pb, 1) == [];
    }
  }

  lemma {:induction false} ComparePartsTransitive(pa: seq<nat>, pb: seq<nat>, pc: seq<nat>)
    requires CompareParts(pa, pb) <= 0 && CompareParts(pb, pc) <= 0
    ensures CompareParts(pa, pc) <= 0
    decreases |pa| + |pb| + |pc|
  {
    if !(pa == [] && pb == [] && pc == []) {
      ComparePartsStep(pa, pb);
      ComparePartsStep(pb, pc);
      ComparePartsStep(pa, pc);
      if At(pa, 0) == At(pb, 0) == At(pc, 0) {
        ComparePartsTransitive(Drop(pa, 1), Drop(pb, 1), Drop(pc, 1));
      }
    }
  }

  /** The order `sort(compareVersions)` uses is transitive. */
  lemma VersionLeTransitive()
    ensures Transitive(VersionLe)
  {
    forall a, b, c | VersionLe(a, b) && VersionLe(b, c) ensures VersionLe(a, c) {
      ComparePartsTransitive(Parts(a), Parts(b), Parts(c));
    }
  }

  // ---------------------------------------------------------------------
  // filterByVersion

  /** The `comparison` argument of `filterByVersion`. */
  datatype Comparison = Exact | Min | Max

  /** The `switch` of `filterByVersion`. */
  predicate Includes(emojiVersion: string, version: string, comparison: Comparison)
  {
    match comparison
    case Exact => emojiVersion == version
    case Min => Compare(emojiVersion, version) >= 0
    case Max => Compare(emojiVersion, version) <= 0
  }

  /** The `EmojiInfo` of every entry whose name `keep` accepts, in table
      order: what the pushing loops of `filterByVersion` and
      `filterByKeyword` return. */
  function Kept(d: Data, entries: Table<string>, keep: string -> bool): seq<EmojiInfo>
  {
    if entries == [] then []
    else
      var n := |entries| - 1;
      Kept(d, entries[..n], keep) + (if keep(entries[n].0) then [Info(d, entries[n].0, entries[n].1)] else [])
  }

  /** One more entry of the table, as either loop sees it. */
  lemma KeptPrefix(d: Data, entries: Table<string>, keep: string -> bool, k: int)
    requires 0 <= k < |entries|
    ensures Kept(d, entries[..k + 1], keep)
              == Kept(d, entries[..k], keep) + (if keep(entries[k].0) then [Info(d, entries[k].0, entries[k].1)] else [])
  {
    assert entries[..k + 1][..k] == entries[..k];
    assert entries[..k + 1][k] == entries[k];
  }

  /** The results for a prefix of the table are a prefix of the results. */
  lemma {:induction false} KeptGrows(d: Data, entries: Table<string>, keep: string -> bool, j: int)
    requires 0 <= j <= |entries|
    ensures Kept(d, entries[..j], keep) <= Kept(d, entries, keep)
    decreases |entries|
  {
    if j < |entries| {
      var n := |entries| - 1;
      var p := entries[..n];
      assert p[..j] == entries[..j];
      KeptGrows(d, p, keep, j);
    } else {
      assert entries[..j] == entries;
    }
  }

  /** An accepted entry is in the results. */
  lemma KeptHas(d: Data, entries: Table<string>, keep: string -> bool, k: int)
    requires 0 <= k < |entries| && keep(entries[k].0)
    ensures Info(d, entries[k].0, entries[k].1) in Kept(d, entries, keep)
  {
    KeptPrefix(d, entries, keep, k);
    KeptGrows(d, entries, keep, k + 1);
    var r := Kept(d, entries[..k + 1], keep);
    assert r[|r| - 1] == Info(d, entries[k].0, entries[k].1);
    assert Kept(d, entries, keep)[|r| - 1] == r[|r| - 1];
  }

  /** The accepted entry a result comes from. */
  lemma {:induction false} KeptSource(d: Data, entries: Table<string>, keep: string -> bool, x: EmojiInfo) returns (k: int)
    requires x in Kept(d, entries, keep)
    ensures 0 <= k < |entries| && keep(entries[k].0) && x == Info(d, entries[k].0, entries[k].1)
  {
    var n := |entries| - 1;
    if x in Kept(d, entries[..n], keep) {
      k := KeptSource(d, entries[..n], keep, x);
      assert entries[k] == entries[..n][k];
    } else {
      k := n;
    }
  }

  /** A result is exactly the `EmojiInfo` of an accepted entry. */
  lemma KeptMember(d: Data, entries: Table<string>, keep: string -> bool, x: EmojiInfo)
    ensures x in Kept(d, entries, keep) <==>
              exists k :: 0 <= k < |entries| && keep(entries[k].0) && x == Info(d, entries[k].0, entries[k].1)
  {
    if x in Kept(d, entries, keep) {
      var k := KeptSource(d, entries, keep, x);
    }
    if exists k :: 0 <= k < |entries| && keep(entries[k].0) && x == Info(d, entries[k].0, entries[k].1) {
      var k :| 0 <= k < |entries| && keep(entries[k].0) && x == Info(d, entries[k].0, entries[k].1);
      KeptHas(d, entries, keep, k);
    }
  }

  /** A stricter test keeps a subsequence of the results. */
  lemma {:induction false} KeptSubsequence(d: Data, entries: Table<string>, strict: string -> bool, loose: string -> bool)
    requires forall name :: strict(name) ==> loose(name)
    ensures IsSubsequence(Kept(d, entries, strict), Kept(d, entries, loose))
  {
    if entries != [] {
      var n := |entries| - 1;
      KeptSubsequence(d, entries[..n], strict, loose);
      var x := Info(d, entries[n].0, entries[n].1);
      var s := Kept(d, entries[..n], strict);
      var l := Kept(d, entries[..n], loose);
      SubsequenceSnoc(s, l, x);
      if strict(entries[n].0) {
        assert Kept(d, entries, strict) == s + [x];
        assert Kept(d, entries, loose) == l + [x];
      } else if loose(entries[n].0) {
        assert Kept(d, entries, strict) == s + [] == s;
        assert Kept(d, entries, loose) == l + [x];
      } else {
        assert Kept(d, entries, strict) == s + [] == s;
        assert Kept(d, entries, loose) == l + [] == l;
      }
    }
  }

  /** The `EmojiInfo` of every entry, in table order. */
  function All(d: Data, entries: Table<string>): (r: seq<EmojiInfo>)
    ensures |r| == |entries|
    ensures forall i :: 0 <= i < |entries| ==> r[i] == Info(d, entries[i].0, entries[i].1)
  {
    seq(|entries|, i requires 0 <= i < |entries| => Info(d, entries[i].0, entries[i].1))
  }

  /** A test that accepts every name keeps every entry. */
  lemma {:induction false} KeptAll(d: Data, entries: Table<string>)
    ensures Kept(d, entries, _ => true) == All(d, entries)
  {
    if entries != [] {
      var n := |entries| - 1;
      KeptAll(d, entries[..n]);
      assert All(d, entries) == All(d, entries[..n]) + [Info(d, entries[n].0, entries[n].1)];
    }
  }

  /** Whatever the test, the loop returns a subsequence of the dataset in
      dataset order. */
  lemma KeptInOrder(d: Data, entries: Table<string>, keep: string -> bool)
    ensures IsSubsequence(Kept(d, entries, keep), All(d, entries))
  {
    KeptSubsequence(d, entries, keep, _ => true);
    KeptAll(d, entries);
  }

  /** The test `filterByVersion` applies to the name of an entry. */
  function VersionTest(d: Data, version: string, comparison: Comparison): string -> bool
  {
    name => Includes(VersionOf(d, name), version, comparison)
  }

  /** The entries of `emojis` whose version the comparison accepts. */
  function ByVersion(d: Data, entries: Table<string>, version: string, comparison: Comparison): seq<EmojiInfo>
  {
    Kept(d, entries, VersionTest(d, version, comparison))
  }

  /** The `switch` on `comparison` inside the loop of `filterByVersion`. */
  method Accepts(d: Data, name: string, version: string, comparison: Comparison) returns (keep: bool)
    ensures keep == VersionTest(d, version, comparison)(name)
  {
    var emojiVersion := VersionOf(d, name);
    match comparison {
      case Exact => keep := emojiVersion == version;
      case Min =>
        var c := CompareVersions(emojiVersion, version);
        keep := c >= 0;
      case Max =>
        var c := CompareVersions(emojiVersion, version);
        keep := c <= 0;
    }
  }

  /** `filterByVersion`, with `comparison` defaulting to `Min`. */
  method FilterByVersion(d: Data, version: string, comparison: Comparison := Min) returns (results: seq<EmojiInfo>)
    ensures results == ByVersion(d, d.emojis, version, comparison)
  {
    var test := VersionTest(d, version, comparison);
    results := [];
    for k := 0 to |d.emojis|
      invariant results == Kept(d, d.emojis[..k], test)
    {
      var (name, emoji) := d.emojis[k];
      KeptPrefix(d, d.emojis, test, k);
      var keep := Accepts(d, name, version, comparison);
      if keep {
        results := results + [Info(d, name, emoji)];
      }
    }
    assert d.emojis[..|d.emojis|] == d.emojis;
  }

  /** Membership: an entry is kept exactly when its version is accepted. */
  lemma ByVersionMember(d: Data, entries: Table<string>, version: string, comparison: Comparison, x: EmojiInfo)
    ensures x in ByVersion(d, entries, version, comparison) <==>
              exists k :: 0 <= k < |entries| && Includes(VersionOf(d, entries[k].0), version, comparison)
                          && x == Info(d, entries[k].0, entries[k].1)
  {
    KeptMember(d, entries, VersionTest(d, version, comparison), x);
  }

  /** `filterByVersion` returns entries of `emojis.json` in its order. */
  lemma ByVersionInOrder(d: Data, version: string, comparison: Comparison)
    ensures IsSubsequence(ByVersion(d, d.emojis, version, comparison), All(d, d.emojis))
  {
    KeptInOrder(d, d.emojis, VersionTest(d, version, comparison));
  }

  /** An exact match is accepted by both bounds, and every version by one of them. */
  lemma ComparisonsCover(v: string, version: string)
    ensures Includes(v, version, Exact) ==> Includes(v, version, Min) && Includes(v, version, Max)
    ensures Includes(v, version, Min) || Includes(v, version, Max)
  {
    if v == version {
      CompareZero(v, version);
    }
  }

  /** The exact version is within either bound, in the same order. */
  lemma ExactWithinBound(d: Data, entries: Table<string>, version: string, bound: Comparison)
    requires bound != Exact
    ensures IsSubsequence(ByVersion(d, entries, version, Exact), ByVersion(d, entries, version, bound))
  {
    forall name | VersionTest(d, version, Exact)(name)
      ensures VersionTest(d, version, bound)(name)
    {
      ComparisonsCover(VersionOf(d, name), version);
    }
    KeptSubsequence(d, entries, VersionTest(d, version, Exact), VersionTest(d, version, bound));
  }

  /** `filterByVersion('13', 'exact')` misses an emoji of version '13.0',
      which 'min' and 'max' both accept: exact means the same text. */
  lemma ExactIsTextual()
    ensures !Includes("13.0", "13", Exact) && Includes("13.0", "13", Min) && Includes("13.0", "13", Max)
  {
    CompareExamples();
    CompareAntisymmetric("13", "13.0");
  }

  // ---------------------------------------------------------------------
  // filterByKeyword

  /** One keyword matches the lower-cased term. */
  predicate MatchesOne(keyword: string, term: string, exact: bool)
  {
    if exact then Lower(keyword) == term else Contains(Lower(keyword), term)
  }

  /** The `some` test of `filterByKeyword`. */
  predicate KeywordMatches(keywords: seq<string>, term: string, exact: bool)
  {
    exists i :: 0 <= i < |keywords| && MatchesOne(keywords[i], term, exact)
  }

  lemma KeywordMatchesSnoc(keywords: seq<string>, k: string, term: string, exact: bool)
    ensures KeywordMatches(keywords + [k], term, exact) <==> KeywordMatches(keywords, term, exact) || MatchesOne(k, term, exact)
  {
    var ks := keywords + [k];
    if KeywordMatches(ks, term, exact) {
      var i :| 0 <= i < |ks| && MatchesOne(ks[i], term, exact);
      if i < |keywords| {
        assert ks[i] == keywords[i];
      }
    }
    if KeywordMatches(keywords, term, exact) {
      var i :| 0 <= i < |keywords| && MatchesOne(keywords[i], term, exact);
      assert ks[i] == keywords[i];
    }
    if MatchesOne(k, term, exact) {
      assert ks[|keywords|] == k;
    }
  }

  /** The test `filterByKeyword` applies to the name of an entry. */
  function KeywordTest(d: Data, term: string, exact: bool): string -> bool
  {
    name => KeywordMatches(KeywordsOf(d, name), term, exact)
  }

  /** The entries of `emojis` with a matching keyword. */
  function ByKeyword(d: Data, entries: Table<string>, term: string, exact: bool): seq<EmojiInfo>
  {
    Kept(d, entries, KeywordTest(d, term, exact))
  }

  /** What `filterByKeyword(keyword, exact)` returns. */
  function KeywordFiltered(d: Data, keyword: string, exact: bool): seq<EmojiInfo>
  {
    ByKeyword(d, d.emojis, Lower(keyword), exact)
  }

  /** The `keywords.some(...)` test, scanning until a keyword matches. */
  method SomeKeywordMatches(keywords: seq<string>, term: string, exact: bool) returns (found: bool)
    ensures found <==> KeywordMatches(keywords, term, exact)
  {
    found := false;
    var i := 0;
    while i < |keywords| && !found
      invariant 0 <= i <= |keywords|
      invariant found <==> KeywordMatches(keywords[..i], term, exact)
    {
      if exact {
        found := Lower(keywords[i]) == term;
      } else {
        found := Contains(Lower(keywords[i]), term);
      }
      assert keywords[..i + 1] == keywords[..i] + [keywords[i]];
      KeywordMatchesSnoc(keywords[..i], keywords[i], term, exact);
      i := i + 1;
    }
    if found {
      var j :| 0 <= j < |keywords[..i]| && MatchesOne(keywords[..i][j], term, exact);
      assert keywords[..i][j] == keywords[j];
    } else {
      assert keywords[..i] == keywords;
    }
  }

  /** `filterByKeyword`, partial unless `exact` is passed. */
  method FilterByKeyword(d: Data, keyword: string, exact: bool := false) returns (results: seq<EmojiInfo>)
    ensures results == KeywordFiltered(d, keyword, exact)
  {
    var searchTerm := Lower(keyword);
    var test := KeywordTest(d, searchTerm, exact);
    results := [];
    for k := 0 to |d.emojis|
      invariant results == Kept(d, d.emojis[..k], test)
    {
      var (name, emoji) := d.emojis[k];
      var found := SomeKeywordMatches(KeywordsOf(d, name), searchTerm, exact);
      KeptPrefix(d, d.emojis, test, k);
      assert found == test(name);
      if found {
        results := results + [Info(d, name, emoji)];
      }
    }
    assert d.emojis[..|d.emojis|] == d.emojis;
  }

  /** Membership: an entry is kept exactly when one of its keywords matches. */
  lemma ByKeywordMember(d: Data, entries: Table<string>, term: string, exact: bool, x: EmojiInfo)
    ensures x in ByKeyword(d, entries, term, exact) <==>
              exists k :: 0 <= k < |entries| && KeywordMatches(KeywordsOf(d, entries[k].0), term, exact)
                          && x == Info(d, entries[k].0, entries[k].1)
  {
    KeptMember(d, entries, KeywordTest(d, term, exact), x);
  }

  /** `filterByKeyword` returns entries of `emojis.json` in its order. */
  lemma ByKeywordInOrder(d: Data, keyword: string, exact: bool)
    ensures IsSubsequence(KeywordFiltered(d, keyword, exact), All(d, d.emojis))
  {
    KeptInOrder(d, d.emojis, KeywordTest(d, Lower(keyword), exact));
  }

  /** Every exact match is a partial match, in the same order. */
  lemma ExactWithinPartial(d: Data, entries: Table<string>, term: string)
    ensures IsSubsequence(ByKeyword(d, entries, term, true), ByKeyword(d, entries, term, false))
  {
    forall name | KeywordTest(d, term, true)(name)
      ensures KeywordTest(d, term, false)(name)
    {
      var kws := KeywordsOf(d, name);
      var i :| 0 <= i < |kws| && MatchesOne(kws[i], term, true);
      ContainsSelf(term);
      assert MatchesOne(kws[i], term, false);
    }
    KeptSubsequence(d, entries, KeywordTest(d, term, true), KeywordTest(d, term, false));
  }

  /** Case-insensitive: the keyword is lower-cased first. */
  lemma KeywordFilterIgnoresCase(d: Data, keyword: string, exact: bool)
    ensures KeywordFiltered(d, keyword, exact) == KeywordFiltered(d, Lower(keyword), exact)
  {
    LowerIdempotent(keyword);
  }

  /** With a partial match, the empty keyword keeps every entry that has at
      least one keyword, since every string includes "". */
  lemma EmptyKeywordKeepsAll(d: Data, entries: Table<string>, k: int)
    requires 0 <= k < |entries| && KeywordsOf(d, entries[k].0) != []
    ensures Info(d, entries[k].0, entries[k].1) in ByKeyword(d, entries, "", false)
  {
    var kws := KeywordsOf(d, entries[k].0);
    ContainsEmpty(Lower(kws[0]));
    assert MatchesOne(kws[0], "", false);
    KeptHas(d, entries, KeywordTest(d, "", false), k);
  }

  // ---------------------------------------------------------------------
  // getUnicodeVersions

  /** The insertion-ordered `Set` of the truthy versions of `metadata.json`. */
  function VersionSet(metadata: Table<Meta>): seq<string>
  {
    if metadata == [] then []
    else
      var n := |metadata| - 1;
      var before := VersionSet(metadata[..n]);
      var v := metadata[n].1.unicodeVersion;
      if Truthy(v) && v.value !in before then before + [v.value] else before
  }

  /** `getUnicodeVersions` */
  method GetUnicodeVersions(d: Data) returns (r: seq<string>)
    ensures r == Sort(VersionSet(d.metadata), VersionLe)
  {
    var versions: seq<string> := [];
    for k := 0 to |d.metadata|
      invariant versions == VersionSet(d.metadata[..k])
    {
      assert d.metadata[..k + 1][..k] == d.metadata[..k];
      var meta := d.metadata[k].1;
      if meta.unicodeVersion.Some? && meta.unicodeVersion.value != "" {
        if meta.unicodeVersion.value !in versions {
          versions := versions + [meta.unicodeVersion.value];
        }
      }
    }
    assert d.metadata[..|d.metadata|] == d.metadata;
    r := Sort(versions, VersionLe);
  }

  lemma {:induction false} VersionSetSpec(metadata: Table<Meta>)
    ensures Distinct(VersionSet(metadata))
    ensures forall v :: v in VersionSet(metadata) <==>
              v != "" && exists k :: 0 <= k < |metadata| && metadata[k].1.unicodeVersion == Some(v)
  {
    if metadata != [] {
      var n := |metadata| - 1;
      var p := metadata[..n];
      VersionSetSpec(p);
      forall v ensures v in VersionSet(metadata) <==>
                       v != "" && exists k :: 0 <= k < |metadata| && metadata[k].1.unicodeVersion == Some(v) {
        if v != "" && exists k :: 0 <= k < |metadata| && metadata[k].1.unicodeVersion == Some(v) {
          var k :| 0 <= k < |metadata| && metadata[k].1.unicodeVersion == Some(v);
          if k < n {
            assert p[k] == metadata[k];
          }
        }
        if v in VersionSet(p) {
          var k :| 0 <= k < |p| && p[k].1.unicodeVersion == Some(v);
          assert metadata[k] == p[k];
        }
      }
    }
  }

  /** `getUnicodeVersions`: every truthy version of the metadata once, each
      not newer than the next. */
  lemma GetUnicodeVersionsSpec(d: Data)
    ensures var r := Sort(VersionSet(d.metadata), VersionLe);
            && Distinct(r)
            && (forall i :: 0 <= i < |r| - 1 ==> Compare(r[i], r[i + 1]) <= 0)
            && (forall v :: v in r <==> v != "" && exists k :: 0 <= k < |d.metadata| && d.metadata[k].1.unicodeVersion == Some(v))
  {
    var s := VersionSet(d.metadata);
    var r := Sort(s, VersionLe);
    VersionSetSpec(d.metadata);
    SortDistinct(s, VersionLe);
    VersionLeTotal();
    SortSorted(s, VersionLe);
    assert forall v :: v in r <==> v in multiset(r);
    assert forall v :: v in s <==> v in multiset(s);
  }

  /** Every earlier version of `getUnicodeVersions` is older than every later one. */
  lemma GetUnicodeVersionsOrdered(d: Data)
    ensures var r := Sort(VersionSet(d.metadata), VersionLe);
            forall i, j :: 0 <= i < j < |r| ==> Compare(r[i], r[j]) <= 0
  {
    var r := Sort(VersionSet(d.metadata), VersionLe);
    VersionLeTotal();
    VersionLeTransitive();
    SortSorted(VersionSet(d.metadata), VersionLe);
    forall i, j | 0 <= i < j < |r| ensures VersionLe(r[i], r[j]) {
      SortedPairs(r, VersionLe, i, j);
    }
  }
}
