/** Reverse lookup (src/utils/reverse-mapping.ts): from an emoji character
    back to a name. The object is filled by writing `reverse[emoji] = name`
    for every entry in turn, so a character shared by several names maps
    to the LAST of them. */
module ReverseMapping {
  import opened Dataset
  import SkinTones

  /** The `[emoji, name]` writes, in entry order. */
  function Swapped(t: Table<string>): (r: seq<(string, string)>)
    ensures |r| == |t| && forall i :: 0 <= i < |t| ==> r[i] == (t[i].1, t[i].0)
  {
    seq(|t|, i requires 0 <= i < |t| => (t[i].1, t[i].0))
  }

  /** The object those writes produce. */
  function Reverse(t: Table<string>): map<string, string>
  {
    LastWins(Swapped(t))
  }

  /** `createReverseMapping` */
  method CreateReverseMapping(emojiObject: Table<string>) returns (reverse: map<string, string>)
    ensures reverse == Reverse(emojiObject)
  {
    reverse := map[];
    for k := 0 to |emojiObject|
      invariant reverse == LastWins(Swapped(emojiObject)[..k])
    {
      var (name, emoji) := emojiObject[k];
      assert Swapped(emojiObject)[..k + 1][..k] == Swapped(emojiObject)[..k];
      reverse := reverse[emoji := name];
    }
    assert Swapped(emojiObject)[..|emojiObject|] == Swapped(emojiObject);
  }

  /** The characters mapped are exactly the values of the table, and each
      maps to the name of its last entry. */
  lemma ReverseSpec(t: Table<string>, e: string)
    ensures e in Reverse(t) <==> HasValue(t, e)
    ensures e in Reverse(t) ==> exists k :: 0 <= k < |t| && t[k] == (Reverse(t)[e], e)
                                           && forall j :: k < j < |t| ==> t[j].1 != e
  {
    var w := Swapped(t);
    LastWinsKeys(w, e);
    if HasValue(t, e) {
      var k :| 0 <= k < |t| && t[k].1 == e;
      assert w[k].0 == e;
    }
    if e in Reverse(t) {
      LastWinsSource(w, e);
      var k :| 0 <= k < |w| && w[k] == (e, Reverse(t)[e]) && forall j :: k < j < |w| ==> w[j].0 != e;
      assert t[k] == (Reverse(t)[e], e);
    } else {
      forall k | 0 <= k < |t| ensures t[k].1 != e {
        assert w[k].0 == t[k].1;
      }
    }
  }

  /** The last entry carrying a character gives its name. */
  lemma ReverseLast(t: Table<string>, k: int)
    requires 0 <= k < |t|
    requires forall j :: k < j < |t| ==> t[j].1 != t[k].1
    ensures t[k].1 in Reverse(t) && Reverse(t)[t[k].1] == t[k].0
  {
    LastWinsValue(Swapped(t), k);
  }

  /** The name found is a name for that character: looking it up gives the
      character back. */
  lemma ReverseConsistent(t: Table<string>, e: string)
    requires UniqueKeys(t)
    requires e in Reverse(t)
    ensures Find(t, Reverse(t)[e]) == Some(e)
  {
    ReverseSpec(t, e);
    var k :| 0 <= k < |t| && t[k] == (Reverse(t)[e], e) && forall j :: k < j < |t| ==> t[j].1 != e;
    FindEntry(t, k);
  }

  lemma ReverseEmpty()
    ensures Reverse([]) == map[]
  {
  }

  /** Three names for one character: the reverse mapping keeps the last. */
  lemma ReverseDuplicates()
    ensures Reverse([("fire", "\U{1F525}"), ("flame", "\U{1F525}"), ("hot", "\U{1F525}")]) == map["\U{1F525}" := "hot"]
  {
    var t := [("fire", "\U{1F525}"), ("flame", "\U{1F525}"), ("hot", "\U{1F525}")];
    var w := Swapped(t);
    assert w[..|w| - 1] == [w[0], w[1]];
    assert [w[0], w[1]][..1] == [w[0]];
    assert [w[0]][..0] == [];
    assert LastWins([w[0]]) == map["\U{1F525}" := "fire"];
    assert LastWins([w[0], w[1]]) == map["\U{1F525}" := "flame"];
  }

  /** The helper of `supportsSkinTone` takes the FIRST name with a character,
      the reverse mapping the LAST; they agree when no character is shared. */
  lemma FirstAndLastDisagree()
    ensures var t := [("fire", "\U{1F525}"), ("flame", "\U{1F525}")];
            SkinTones.FirstNameOf(t, "\U{1F525}") == Some("fire") && Reverse(t)["\U{1F525}"] == "flame"
  {
    var t := [("fire", "\U{1F525}"), ("flame", "\U{1F525}")];
    ReverseLast(t, 1);
  }

  lemma FirstAndLastAgree(t: Table<string>, k: int)
    requires 0 <= k < |t|
    requires forall i, j :: 0 <= i < j < |t| ==> t[i].1 != t[j].1
    ensures t[k].1 in Reverse(t)
    ensures SkinTones.FirstNameOf(t, t[k].1) == Some(Reverse(t)[t[k].1]) == Some(t[k].0)
  {
    var e := t[k].1;
    assert HasValue(t, e);
    var r := SkinTones.FirstNameOf(t, e);
    var k' :| 0 <= k' < |t| && t[k'] == (r.value, e) && forall j :: 0 <= j < k' ==> t[j].1 != e;
    assert k' == k;
    ReverseLast(t, k);
  }

  /** The module-level `reverseMap`, filled once when the module loads and
      never written again; `emojis` is the table it was filled from. */
  class ReverseIndex {
    ghost const emojis: Table<string>
    const reverseMap: map<string, string>

    ghost predicate Valid()
    {
      reverseMap == Reverse(emojis)
    }

    /** The `forEach` that fills `reverseMap` from `emojis.json`. */
    constructor (emojis: Table<string>)
      ensures this.emojis == emojis && Valid()
    {
      this.emojis := emojis;
      var m := map[];
      for k := 0 to |emojis|
        invariant m == LastWins(Swapped(emojis)[..k])
      {
        var (name, emoji) := emojis[k];
        assert Swapped(emojis)[..k + 1][..k] == Swapped(emojis)[..k];
        m := m[emoji := name];
      }
      assert Swapped(emojis)[..|emojis|] == Swapped(emojis);
      reverseMap := m;
    }

    /** `getNameFromEmoji`: `undefined` for a character no entry carries,
        otherwise the name of the last entry carrying it. */
    function GetNameFromEmoji(emoji: string): (r: Option<string>)
      requires Valid()
      ensures r.Some? <==> HasValue(emojis, emoji)
      ensures r.Some? ==> exists k :: 0 <= k < |emojis| && emojis[k] == (r.value, emoji)
                                      && forall j :: k < j < |emojis| ==> emojis[j].1 != emoji
    {
      ReverseSpec(emojis, emoji);
      if emoji in reverseMap then Some(reverseMap[emoji]) else None
    }

    /** `isKnownEmoji`: some entry carries the character. */
    predicate IsKnownEmoji(str: string)
      requires Valid()
      ensures IsKnownEmoji(str) <==> HasValue(emojis, str)
    {
      ReverseSpec(emojis, str);
      str in reverseMap
    }

    /** `getReverseMapping`: a copy with the same contents. */
    method GetReverseMapping() returns (m: map<string, string>)
      requires Valid()
      ensures m == Reverse(emojis)
      ensures forall e :: e in m <==> HasValue(emojis, e)
    {
      m := reverseMap;
      forall e ensures e in m <==> HasValue(emojis, e) {
        ReverseSpec(emojis, e);
      }
    }
  }

  /** A character is known exactly when the lookup finds a name, and that
      name gives the character back. */
  lemma KnownEmojiSpec(r: ReverseIndex, e: string)
    requires r.Valid() && UniqueKeys(r.emojis)
    ensures r.IsKnownEmoji(e) <==> r.GetNameFromEmoji(e).Some?
    ensures r.IsKnownEmoji(e) ==> Find(r.emojis, r.GetNameFromEmoji(e).value) == Some(e)
  {
    if r.IsKnownEmoji(e) {
      ReverseConsistent(r.emojis, e);
    }
  }
}
