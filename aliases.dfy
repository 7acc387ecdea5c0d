/** Alias resolution over `aliases.json`, a table from each primary name to
    its list of aliases (src/features/aliases/index.ts). */
module Aliases {
  import opened Dataset

  type AliasTable = Table<seq<string>>

  /** Index of the first alias list, in table order, that contains `name`. */
  function FirstListing(t: AliasTable, name: string): (r: Option<nat>)
    ensures r.Some? ==> r.value < |t| && name in t[r.value].1
    ensures r.Some? ==> forall k :: 0 <= k < r.value ==> name !in t[k].1
    ensures r.None? <==> forall k :: 0 <= k < |t| ==> name !in t[k].1
  {
    if t == [] then None
    else if name in t[0].1 then Some(0)
    else
      match FirstListing(t[1..], name)
      case Some(k) => Some(k + 1)
      case None => None
  }

  /** The value `getPrimaryName` returns; the pure operations use it. */
  function PrimaryName(t: AliasTable, name: string): string
  {
    if HasKey(t, name) then name
    else
      match FirstListing(t, name)
      case Some(k) => t[k].0
      case None => name
  }

  /** `getPrimaryName`: a primary key is returned unchanged; otherwise the
      first primary, in table order, whose list holds the name; otherwise the
      name itself. */
  method GetPrimaryName(t: AliasTable, name: string) returns (p: string)
    ensures HasKey(t, name) ==> p == name
    ensures !HasKey(t, name) && (forall k :: 0 <= k < |t| ==> name !in t[k].1) ==> p == name
    ensures !HasKey(t, name) && (exists k :: 0 <= k < |t| && name in t[k].1) ==>
              exists k :: 0 <= k < |t| && name in t[k].1 && p == t[k].0
                          && forall j :: 0 <= j < k ==> name !in t[j].1
    ensures p == PrimaryName(t, name)
  {
    FindSpec(t, name);
    if Find(t, name).Some? {
      return name;
    }
    for i := 0 to |t|
      invariant forall k :: 0 <= k < i ==> name !in t[k].1
    {
      if name in t[i].1 {
        return t[i].0;
      }
    }
    return name;
  }

  /** The primary name is always either the input or a primary key. */
  lemma PrimaryNameIsKeyOrSelf(t: AliasTable, name: string)
    ensures PrimaryName(t, name) == name || HasKey(t, PrimaryName(t, name))
  {
    match FirstListing(t, name)
    case Some(k) => assert t[k].0 == t[k].0;
    case None =>
  }

  /** Resolving a name twice gives what resolving it once gives. */
  lemma PrimaryNameIdempotent(t: AliasTable, name: string)
    ensures PrimaryName(t, PrimaryName(t, name)) == PrimaryName(t, name)
  {
    PrimaryNameIsKeyOrSelf(t, name);
  }

  /** `list.filter(a => a !== x)` */
  function Without(xs: seq<string>, x: string): (r: seq<string>)
    ensures x !in r
    ensures forall y :: y != x ==> (y in r <==> y in xs)
  {
    if xs == [] then []
    else (if xs[0] == x then [] else [xs[0]]) + Without(xs[1..], x)
  }

  /** `getAliases` */
  function GetAliases(t: AliasTable, name: string): seq<string>
  {
    match Find(t, name)
    case Some(list) => list
    case None =>
      var p := PrimaryName(t, name);
      match Find(t, p)
      case Some(list) => if p != name then [p] + Without(list, name) else []
      case None => []
  }

  /** For a primary key the stored list is returned verbatim. */
  lemma GetAliasesOfPrimary(t: AliasTable, k: int)
    requires UniqueKeys(t)
    requires 0 <= k < |t|
    ensures GetAliases(t, t[k].0) == t[k].1
  {
    FindEntry(t, k);
  }

  /** For an alias that is not itself a primary key: its primary first, then
      the siblings, never the alias itself. */
  lemma GetAliasesOfAlias(t: AliasTable, a: string, k: int)
    requires UniqueKeys(t)
    requires !HasKey(t, a)
    requires 0 <= k < |t| && a in t[k].1
    requires forall j :: 0 <= j < k ==> a !in t[j].1
    ensures GetAliases(t, a) == [t[k].0] + Without(t[k].1, a)
    ensures a !in GetAliases(t, a)
  {
    FindSpec(t, a);
    assert FirstListing(t, a) == Some(k) by {
      var r := FirstListing(t, a);
      assert r.Some?;
      if r.value < k { } else if r.value > k { }
    }
    FindEntry(t, k);
  }

  /** A name found in no key and no list has no aliases. */
  lemma GetAliasesUnknown(t: AliasTable, x: string)
    requires !HasKey(t, x)
    requires forall k :: 0 <= k < |t| ==> x !in t[k].1
    ensures GetAliases(t, x) == []
  {
    FindSpec(t, x);
  }

  /** `isSameEmoji` */
  predicate IsSameEmoji(t: AliasTable, a: string, b: string)
  {
    PrimaryName(t, a) == PrimaryName(t, b)
  }

  lemma IsSameEmojiReflexiveSymmetric(t: AliasTable, a: string, b: string)
    ensures IsSameEmoji(t, a, a)
    ensures IsSameEmoji(t, a, b) == IsSameEmoji(t, b, a)
  {
  }

  /** A primary and an alias it lists first are the same emoji. */
  lemma IsSameEmojiListed(t: AliasTable, k: int, a: string)
    requires 0 <= k < |t| && a in t[k].1
    requires !HasKey(t, a)
    requires forall j :: 0 <= j < k ==> a !in t[j].1
    ensures IsSameEmoji(t, t[k].0, a)
    ensures PrimaryName(t, a) == t[k].0
  {
    var r := FirstListing(t, a);
    assert r.Some?;
    if r.value < k { } else if r.value > k { }
  }

  /** The invariant the alias data is built to keep: keys are unique, no
      alias is also a primary key and no alias is listed under two keys. */
  predicate Partitioned(t: AliasTable)
  {
    && UniqueKeys(t)
    && (forall k, a :: 0 <= k < |t| && a in t[k].1 ==> !HasKey(t, a))
    && (forall k1, k2, a :: 0 <= k1 < |t| && 0 <= k2 < |t| && a in t[k1].1 && a in t[k2].1 ==> k1 == k2)
  }

  /** On partitioned data every alias resolves to the key listing it. */
  lemma PrimaryNameOfAlias(t: AliasTable, k: int, a: string)
    requires Partitioned(t)
    requires 0 <= k < |t| && a in t[k].1
    ensures PrimaryName(t, a) == t[k].0
  {
    IsSameEmojiListed(t, k, a);
  }

  /** Every name `getAliases` lists is the same emoji as the input. */
  lemma GetAliasesAreSame(t: AliasTable, x: string, y: string)
    requires Partitioned(t)
    requires y in GetAliases(t, x)
    ensures IsSameEmoji(t, x, y)
  {
    FindSpec(t, x);
    match Find(t, x)
    case Some(list) =>
      var k :| 0 <= k < |t| && t[k] == (x, list);
      PrimaryNameOfAlias(t, k, y);
    case None =>
      var p := PrimaryName(t, x);
      FindSpec(t, p);
      var list := Find(t, p).value;
      var k :| 0 <= k < |t| && t[k] == (p, list);
      if y != p {
        assert y in list;
        PrimaryNameOfAlias(t, k, y);
      }
      assert PrimaryName(t, p) == p;
  }

  /** `getAllNames` */
  function GetAllNames(t: AliasTable, name: string): (r: seq<string>)
    ensures |r| >= 1 && r[0] == PrimaryName(t, name)
  {
    var p := PrimaryName(t, name);
    [p] + GetAliases(t, p)
  }

  /** An unknown name is its own only name. */
  lemma GetAllNamesUnknown(t: AliasTable, x: string)
    requires !HasKey(t, x)
    requires forall k :: 0 <= k < |t| ==> x !in t[k].1
    ensures GetAllNames(t, x) == [x]
  {
    FindSpec(t, x);
  }

  /** Any name of a class gives the primary followed by the stored list. */
  lemma GetAllNamesOfClass(t: AliasTable, k: int, x: string)
    requires Partitioned(t)
    requires 0 <= k < |t| && (x == t[k].0 || x in t[k].1)
    ensures GetAllNames(t, x) == [t[k].0] + t[k].1
  {
    if x != t[k].0 {
      PrimaryNameOfAlias(t, k, x);
    }
    GetAliasesOfPrimary(t, k);
  }

  /** `resolveEmoji`: a direct hit with a truthy character first, else the
      character of the primary name. */
  function ResolveEmoji(d: Data, x: string): Option<string>
  {
    var direct := Find(d.emojis, x);
    if Truthy(direct) then direct else Find(d.emojis, PrimaryName(d.aliases, x))
  }

  /** An alias without a character of its own resolves to its primary's. */
  lemma ResolveEmojiAlias(d: Data, k: int, a: string)
    requires Partitioned(d.aliases)
    requires 0 <= k < |d.aliases| && a in d.aliases[k].1
    requires !Truthy(Find(d.emojis, a))
    ensures ResolveEmoji(d, a) == Find(d.emojis, d.aliases[k].0)
  {
    PrimaryNameOfAlias(d.aliases, k, a);
  }

  /** A name with a character resolves to it. */
  lemma ResolveEmojiDirect(d: Data, i: int)
    requires UniqueKeys(d.emojis)
    requires 0 <= i < |d.emojis| && d.emojis[i].1 != ""
    ensures ResolveEmoji(d, d.emojis[i].0) == Some(d.emojis[i].1)
  {
    FindEntry(d.emojis, i);
  }

  /** The `[alias, primary]` pairs of one table entry, in list order. */
  function EntryPairs(e: (string, seq<string>)): seq<(string, string)>
  {
    seq(|e.1|, i requires 0 <= i < |e.1| => (e.1[i], e.0))
  }

  /** Every `map[alias] = primary` write `getAliasMap` makes, in order. */
  function AliasPairs(t: AliasTable): seq<(string, string)>
  {
    if t == [] then [] else AliasPairs(t[..|t| - 1]) + EntryPairs(t[|t| - 1])
  }

  /** Every alias of the list mapped to the one primary. */
  function ConstMap(list: seq<string>, p: string): map<string, string>
  {
    map a | a in list :: p
  }

  /** `getAliasMap`: the nested `forEach` writing `map[alias] = primary`. */
  method GetAliasMap(t: AliasTable) returns (m: map<string, string>)
    ensures m == LastWins(AliasPairs(t))
  {
    m := map[];
    for k := 0 to |t|
      invariant m == LastWins(AliasPairs(t[..k]))
    {
      m := WriteAliases(m, t[k].0, t[k].1);
      AliasMapStep(t[..k + 1]);
      assert t[..k + 1][..k] == t[..k];
    }
    assert t[..|t|] == t;
  }

  /** The inner `forEach` of `getAliasMap`: every alias of one list now
      maps to its primary, and every other key is untouched. */
  method WriteAliases(m0: map<string, string>, primary: string, list: seq<string>)
    returns (m: map<string, string>)
    ensures m == m0 + ConstMap(list, primary)
  {
    m := m0;
    for i := 0 to |list|
      invariant m == m0 + ConstMap(list[..i], primary)
    {
      assert list[..i + 1] == list[..i] + [list[i]];
      m := m[list[i] := primary];
    }
    assert list[..|list|] == list;
  }

  lemma {:induction false} EntryPairsMap(e: (string, seq<string>))
    ensures LastWins(EntryPairs(e)) == ConstMap(e.1, e.0)
    decreases |e.1|
  {
    var n := |e.1|;
    if n > 0 {
      var e' := (e.0, e.1[..n - 1]);
      assert EntryPairs(e)[..n - 1] == EntryPairs(e');
      EntryPairsMap(e');
    }
  }

  /** The alias map of a longer table: the last entry's aliases overwrite. */
  lemma AliasMapStep(t: AliasTable)
    requires t != []
    ensures LastWins(AliasPairs(t)) ==
              LastWins(AliasPairs(t[..|t| - 1])) + ConstMap(t[|t| - 1].1, t[|t| - 1].0)
  {
    LastWinsAppend(AliasPairs(t[..|t| - 1]), EntryPairs(t[|t| - 1]));
    EntryPairsMap(t[|t| - 1]);
  }

  /** `getAliasMap` holds exactly the listed aliases, each mapped to the LAST
      primary whose list holds it. */
  lemma AliasMapLastPrimary(t: AliasTable, a: string)
    ensures a in LastWins(AliasPairs(t)) <==> exists k :: 0 <= k < |t| && a in t[k].1
    ensures a in LastWins(AliasPairs(t)) ==>
              exists k :: 0 <= k < |t| && a in t[k].1 && LastWins(AliasPairs(t))[a] == t[k].0
                          && forall j :: k < j < |t| ==> a !in t[j].1
  {
    AliasMapHas(t, a);
    if a in LastWins(AliasPairs(t)) {
      var k := AliasMapSource(t, a);
    }
  }

  lemma {:induction false} AliasMapHas(t: AliasTable, a: string)
    ensures a in LastWins(AliasPairs(t)) <==> exists k :: 0 <= k < |t| && a in t[k].1
  {
    if t != [] {
      var n := |t| - 1;
      AliasMapStep(t);
      AliasMapHas(t[..n], a);
      if exists k :: 0 <= k < |t| && a in t[k].1 {
        var k :| 0 <= k < |t| && a in t[k].1;
        if k < n {
          assert t[..n][k] == t[k];
        }
      }
      forall k | 0 <= k < n && a in t[..n][k].1 ensures exists k :: 0 <= k < |t| && a in t[k].1 {
        assert t[..n][k] == t[k];
      }
    }
  }

  lemma {:induction false} AliasMapSource(t: AliasTable, a: string) returns (k: int)
    requires a in LastWins(AliasPairs(t))
    ensures 0 <= k < |t| && a in t[k].1 && LastWins(AliasPairs(t))[a] == t[k].0
    ensures forall j :: k < j < |t| ==> a !in t[j].1
  {
    var n := |t| - 1;
    AliasMapStep(t);
    if a in t[n].1 {
      k := n;
    } else {
      assert a in LastWins(AliasPairs(t[..n]));
      k := AliasMapSource(t[..n], a);
      assert t[..n][k] == t[k];
      forall j | k < j < |t| ensures a !in t[j].1 {
        if j < n {
          assert t[..n][j] == t[j];
        }
      }
    }
  }

  /** On partitioned data the alias map agrees with `getPrimaryName`. */
  lemma AliasMapAgreesWithPrimary(t: AliasTable, a: string)
    requires Partitioned(t)
    requires a in LastWins(AliasPairs(t))
    ensures LastWins(AliasPairs(t))[a] == PrimaryName(t, a)
  {
    AliasMapLastPrimary(t, a);
    var k :| 0 <= k < |t| && a in t[k].1 && LastWins(AliasPairs(t))[a] == t[k].0;
    PrimaryNameOfAlias(t, k, a);
  }

  /** When two primaries list the same alias, `getPrimaryName` picks the
      first and `getAliasMap` the last. */
  lemma OverlappingListsDisagree()
    ensures var t := [("fire", ["lit"]), ("flame", ["lit"])];
            PrimaryName(t, "lit") == "fire" && LastWins(AliasPairs(t))["lit"] == "flame"
  {
    var t := [("fire", ["lit"]), ("flame", ["lit"])];
    assert !HasKey(t, "lit");
    assert FirstListing(t, "lit") == Some(0);
    AliasMapStep(t);
  }
}
