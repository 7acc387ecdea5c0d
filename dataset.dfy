/** The immutable data the library reads: `emojis.json` (name to character),
    `metadata.json` (name to keywords, category and Unicode version),
    `aliases.json` (primary name to alias list), `categories.json` (category
    to member names) and the skin-tone capable list of `skin-tones.json`.
    A JSON object is a table: the sequence of its entries in the order of
    `Object.entries`, so that "first match" and "last write wins" can be
    stated. Also holds the defaulting rules (`x || d`) the features share. */
module Dataset {

  datatype Option<T> = None | Some(value: T)

  /** An operation that may throw: `Err` carries the message of the Error. */
  datatype Result<T> = Ok(value: T) | Err(message: string)

  /** A JSON object, as the sequence of its `[key, value]` entries. */
  type Table<V> = seq<(string, V)>

  predicate HasKey<V>(t: Table<V>, k: string)
  {
    exists i :: 0 <= i < |t| && t[i].0 == k
  }

  /** A JSON object never has the same key twice. */
  predicate UniqueKeys<V>(t: Table<V>)
  {
    forall i, j :: 0 <= i < j < |t| ==> t[i].0 != t[j].0
  }

  /** Property access `t[k]`: `None` stands for `undefined`. */
  function Find<V>(t: Table<V>, k: string): Option<V>
  {
    if t == [] then None
    else if t[0].0 == k then Some(t[0].1)
    else Find(t[1..], k)
  }

  /** A key is found exactly when the table has it, and what it finds is
      the value of one of its entries. */
  lemma {:induction false} FindSpec<V>(t: Table<V>, k: string)
    ensures Find(t, k).Some? <==> HasKey(t, k)
    ensures Find(t, k).Some? ==> exists i :: 0 <= i < |t| && t[i] == (k, Find(t, k).value)
  {
    if t != [] && t[0].0 != k {
      FindSpec(t[1..], k);
      if HasKey(t, k) {
        var i :| 0 <= i < |t| && t[i].0 == k;
        assert t[1..][i - 1] == t[i];
      }
      if Find(t, k).Some? {
        var i :| 0 <= i < |t[1..]| && t[1..][i] == (k, Find(t, k).value);
        assert t[i + 1] == t[1..][i];
      }
    }
  }

  /** A prefix of a table with distinct keys has distinct keys. */
  lemma UniqueKeysPrefix<V>(t: Table<V>, n: int)
    requires UniqueKeys(t) && 0 <= n <= |t|
    ensures UniqueKeys(t[..n])
  {
    forall i, j | 0 <= i < j < n ensures t[..n][i].0 != t[..n][j].0 {
      assert t[..n][i] == t[i] && t[..n][j] == t[j];
    }
  }

  /** In a table without repeated keys, every entry is what its key finds. */
  lemma {:induction false} FindEntry<V>(t: Table<V>, i: int)
    requires UniqueKeys(t)
    requires 0 <= i < |t|
    ensures Find(t, t[i].0) == Some(t[i].1)
  {
    if i > 0 {
      assert t[0].0 != t[i].0;
      assert t[1..][i - 1] == t[i];
      FindEntry(t[1..], i - 1);
    }
  }

  /** `Object.keys(t)` */
  function Keys<V>(t: Table<V>): (r: seq<string>)
    ensures |r| == |t| && forall i :: 0 <= i < |t| ==> r[i] == t[i].0
  {
    seq(|t|, i requires 0 <= i < |t| => t[i].0)
  }

  /** `Object.values(t).includes(v)` */
  predicate HasValue<V(==)>(t: Table<V>, v: V)
  {
    exists i :: 0 <= i < |t| && t[i].1 == v
  }

  /** One entry of `metadata.json`. A missing `keywords` field behaves
      everywhere as `[]`, so it is stored as the empty sequence. */
  datatype Meta = Meta(keywords: seq<string>, category: Option<string>, unicodeVersion: Option<string>)

  /** The whole dataset. */
  datatype Data = Data(
    emojis: Table<string>,
    metadata: Table<Meta>,
    aliases: Table<seq<string>>,
    categories: Table<seq<string>>,
    capable: seq<string>)

  /** Every JSON object of the dataset has distinct keys, as JSON objects do. */
  predicate WellFormed(d: Data)
  {
    UniqueKeys(d.emojis) && UniqueKeys(d.metadata) && UniqueKeys(d.aliases) && UniqueKeys(d.categories)
  }

  /** JavaScript's `o || d` for an optional string: `undefined` and `""` are falsy. */
  function OrElse(o: Option<string>, d: string): string
  {
    if o.Some? && o.value != "" then o.value else d
  }

  /** A string value that is present and truthy. */
  predicate Truthy(o: Option<string>)
  {
    o.Some? && o.value != ""
  }

  /** `meta?.keywords || []` */
  function KeywordsOf(d: Data, name: string): seq<string>
  {
    match Find(d.metadata, name)
    case Some(m) => m.keywords
    case None => []
  }

  /** `meta?.category || dflt` */
  function CategoryOr(d: Data, name: string, dflt: string): string
  {
    match Find(d.metadata, name)
    case Some(m) => OrElse(m.category, dflt)
    case None => dflt
  }

  /** The version assumed for an emoji without one. */
  const DefaultVersion: string := "1.0"

  /** `meta?.unicodeVersion || '1.0'` */
  function VersionOf(d: Data, name: string): string
  {
    match Find(d.metadata, name)
    case Some(m) => OrElse(m.unicodeVersion, DefaultVersion)
    case None => DefaultVersion
  }

  /** The object produced by `obj[k] = v` for every pair in turn, starting
      from `{}`: a later write to a key replaces an earlier one. */
  function LastWins<K, V>(pairs: seq<(K, V)>): map<K, V>
  {
    if pairs == [] then map[]
    else LastWins(pairs[..|pairs| - 1])[pairs[|pairs| - 1].0 := pairs[|pairs| - 1].1]
  }

  /** The keys written are exactly the keys of the pairs. */
  lemma {:induction false} LastWinsKeys<K, V>(pairs: seq<(K, V)>, k: K)
    ensures k in LastWins(pairs) <==> exists i :: 0 <= i < |pairs| && pairs[i].0 == k
  {
    if pairs != [] {
      var n := |pairs| - 1;
      LastWinsKeys(pairs[..n], k);
      if exists i :: 0 <= i < |pairs| && pairs[i].0 == k {
        var i :| 0 <= i < |pairs| && pairs[i].0 == k;
        if i < n {
          assert pairs[..n][i] == pairs[i];
        }
      }
    }
  }

  /** The value of a key is the one of its last pair. */
  lemma {:induction false} LastWinsValue<K, V>(pairs: seq<(K, V)>, i: int)
    requires 0 <= i < |pairs|
    requires forall j :: i < j < |pairs| ==> pairs[j].0 != pairs[i].0
    ensures pairs[i].0 in LastWins(pairs) && LastWins(pairs)[pairs[i].0] == pairs[i].1
  {
    var n := |pairs| - 1;
    if i < n {
      assert pairs[..n][i] == pairs[i];
      forall j | i < j < n ensures pairs[..n][j].0 != pairs[..n][i].0 {
        assert pairs[..n][j] == pairs[j];
      }
      LastWinsValue(pairs[..n], i);
    }
  }

  /** Every value stored comes from a pair with that key and no later pair
      writes the key again. */
  lemma {:induction false} LastWinsSource<K, V>(pairs: seq<(K, V)>, k: K)
    requires k in LastWins(pairs)
    ensures exists i :: 0 <= i < |pairs| && pairs[i] == (k, LastWins(pairs)[k])
              && forall j :: i < j < |pairs| ==> pairs[j].0 != k
  {
    var n := |pairs| - 1;
    if pairs[n].0 == k {
      assert pairs[n] == (k, LastWins(pairs)[k]);
    } else {
      LastWinsSource(pairs[..n], k);
      var i :| 0 <= i < n && pairs[..n][i] == (k, LastWins(pairs[..n])[k])
                && forall j :: i < j < n ==> pairs[..n][j].0 != k;
      assert pairs[i] == (k, LastWins(pairs)[k]);
      forall j | i < j < |pairs| ensures pairs[j].0 != k {
        if j < n {
          assert pairs[..n][j] == pairs[j];
        }
      }
    }
  }

  /** Writing `p` and then `q` is the union with `q` winning. */
  lemma {:induction false} LastWinsAppend<K, V>(p: seq<(K, V)>, q: seq<(K, V)>)
    ensures LastWins(p + q) == LastWins(p) + LastWins(q)
  {
    if q == [] {
      assert p + q == p;
    } else {
      var n := |q| - 1;
      assert (p + q)[..|p + q| - 1] == p + q[..n];
      LastWinsAppend(p, q[..n]);
    }
  }

  /** `xs` is obtained from `ys` by deleting elements: the order is kept. */
  predicate IsSubsequence<T(==)>(xs: seq<T>, ys: seq<T>)
  {
    if xs == [] then true
    else if ys == [] then false
    else if xs[0] == ys[0] then IsSubsequence(xs[1..], ys[1..])
    else IsSubsequence(xs, ys[1..])
  }

  /** Putting one more element in front keeps a subsequence a subsequence. */
  lemma {:induction false} IsSubsequenceCons<T>(y: T, xs: seq<T>, ys: seq<T>)
    requires IsSubsequence(xs, ys)
    ensures IsSubsequence(xs, [y] + ys)
    decreases |ys|, 1
  {
    assert ([y] + ys)[1..] == ys;
    if xs != [] && xs[0] == y {
      SubsequenceTail(xs, ys);
    }
  }

  /** Dropping the first element of a subsequence keeps it a subsequence. */
  lemma {:induction false} SubsequenceTail<T>(xs: seq<T>, ys: seq<T>)
    requires xs != [] && IsSubsequence(xs, ys)
    ensures IsSubsequence(xs[1..], ys)
    decreases |ys|, 0
  {
    assert [ys[0]] + ys[1..] == ys;
    if xs[0] == ys[0] {
      IsSubsequenceCons(ys[0], xs[1..], ys[1..]);
    } else {
      SubsequenceTail(xs, ys[1..]);
      IsSubsequenceCons(ys[0], xs[1..], ys[1..]);
    }
  }

  /** Appending the same element to both keeps a subsequence a subsequence,
      and so does appending to the longer one only. */
  lemma {:induction false} SubsequenceSnoc<T>(xs: seq<T>, ys: seq<T>, y: T)
    requires IsSubsequence(xs, ys)
    ensures IsSubsequence(xs + [y], ys + [y]) && IsSubsequence(xs, ys + [y])
  {
    if ys == [] {
      assert xs == [];
      assert ([y] + [])[1..] == [];
    } else {
      assert (ys + [y])[1..] == ys[1..] + [y];
      if xs == [] {
        SubsequenceSnoc(xs, ys[1..], y);
        assert xs + [y] == [y];
      } else {
        assert (xs + [y])[1..] == xs[1..] + [y];
        if xs[0] == ys[0] {
          SubsequenceSnoc(xs[1..], ys[1..], y);
        } else {
          SubsequenceSnoc(xs, ys[1..], y);
        }
      }
    }
  }
}
