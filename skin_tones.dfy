/** Skin-tone transformation (src/features/skin-tones/index.ts): the five
    emoji modifiers of Unicode Technical Standard #51, section 1.4
    (U+1F3FB..U+1F3FF), the emoji presentation selector U+FE0F and the zero
    width joiner U+200D, over emoji strings as code-point sequences. */
module SkinTones {
  import opened Text
  import opened Dataset
  import Aliases

  /** The five named tones of `SkinTone`. */
  datatype Tone = Light | MediumLight | Medium | MediumDark | Dark

  function ToneName(t: Tone): string
  {
    match t
    case Light => "light"
    case MediumLight => "medium-light"
    case Medium => "medium"
    case MediumDark => "medium-dark"
    case Dark => "dark"
  }

  function ModifierOf(t: Tone): char
  {
    match t
    case Light => '\U{1F3FB}'
    case MediumLight => '\U{1F3FC}'
    case Medium => '\U{1F3FD}'
    case MediumDark => '\U{1F3FE}'
    case Dark => '\U{1F3FF}'
  }

  /** `skinToneData.modifiers` of `skin-tones.json`, in its entry order. */
  const Modifiers: Table<char> :=
    [ ("light", '\U{1F3FB}'), ("medium-light", '\U{1F3FC}'), ("medium", '\U{1F3FD}'),
      ("medium-dark", '\U{1F3FE}'), ("dark", '\U{1F3FF}') ]

  /** `SKIN_TONE_ALIASES`: the numeric tones, positionally onto the named ones. */
  const SkinToneAliases: Table<string> :=
    [ ("1", "light"), ("2", "medium-light"), ("3", "medium"), ("4", "medium-dark"), ("5", "dark") ]

  const VariationSelector: char := '\U{FE0F}'

  const Zwj: char := '\U{200D}'

  const ModifierChars: set<char> := {'\U{1F3FB}', '\U{1F3FC}', '\U{1F3FD}', '\U{1F3FE}', '\U{1F3FF}'}

  /** Everything `removeSkinTone` deletes. */
  const StrippedChars: set<char> := ModifierChars + {VariationSelector, Zwj}

  const NamedTones: set<string> := {"light", "medium-light", "medium", "medium-dark", "dark"}

  const NumericTones: set<string> := {"1", "2", "3", "4", "5"}

  /** The ten tone identifiers that have a modifier. */
  const ValidTones: set<string> := NamedTones + NumericTones

  /** The modifier `applySkinTone` looks up: through `SKIN_TONE_ALIASES` for a
      numeric tone, directly for a named one. */
  function ModifierFor(tone: string): Option<char>
  {
    if HasKey(SkinToneAliases, tone) then Find(Modifiers, Find(SkinToneAliases, tone).value)
    else Find(Modifiers, tone)
  }

  lemma NumericKeys(s: string)
    ensures HasKey(SkinToneAliases, s) <==> s in NumericTones
  {
    if s == "1" { assert SkinToneAliases[0].0 == s; }
    else if s == "2" { assert SkinToneAliases[1].0 == s; }
    else if s == "3" { assert SkinToneAliases[2].0 == s; }
    else if s == "4" { assert SkinToneAliases[3].0 == s; }
    else if s == "5" { assert SkinToneAliases[4].0 == s; }
  }

  lemma NamedKeys(s: string)
    ensures HasKey(Modifiers, s) <==> s in NamedTones
  {
    if s == "light" { assert Modifiers[0].0 == s; }
    else if s == "medium-light" { assert Modifiers[1].0 == s; }
    else if s == "medium" { assert Modifiers[2].0 == s; }
    else if s == "medium-dark" { assert Modifiers[3].0 == s; }
    else if s == "dark" { assert Modifiers[4].0 == s; }
  }

  lemma TablesUnique()
    ensures UniqueKeys(SkinToneAliases) && UniqueKeys(Modifiers)
    ensures forall k :: 0 <= k < |SkinToneAliases| ==> SkinToneAliases[k].1 in NamedTones
    ensures forall k :: 0 <= k < |Modifiers| ==> Modifiers[k].1 in ModifierChars
  {
  }

  function ToneIndex(t: Tone): (k: nat)
    ensures k < |Modifiers| && Modifiers[k] == (ToneName(t), ModifierOf(t))
  {
    match t
    case Light => 0
    case MediumLight => 1
    case Medium => 2
    case MediumDark => 3
    case Dark => 4
  }

  lemma ModifierForNamed(t: Tone)
    ensures ModifierFor(ToneName(t)) == Some(ModifierOf(t))
  {
    NumericKeys(ToneName(t));
    TablesUnique();
    FindEntry(Modifiers, ToneIndex(t));
  }

  lemma ModifierForNumeric(k: int)
    requires 0 <= k < |SkinToneAliases|
    ensures ModifierFor(SkinToneAliases[k].0) == ModifierFor(SkinToneAliases[k].1)
  {
    TablesUnique();
    NumericKeys(SkinToneAliases[k].0);
    NumericKeys(SkinToneAliases[k].1);
    FindEntry(SkinToneAliases, k);
  }

  /** A tone has a modifier exactly when it is one of the ten identifiers,
      and the modifier is one of the five. */
  lemma ModifierForValid(tone: string)
    ensures ModifierFor(tone).Some? <==> tone in ValidTones
    ensures ModifierFor(tone).Some? ==> ModifierFor(tone).value in ModifierChars
  {
    TablesUnique();
    NumericKeys(tone);
    NamedKeys(tone);
    FindSpec(Modifiers, tone);
    if HasKey(SkinToneAliases, tone) {
      var k :| 0 <= k < |SkinToneAliases| && SkinToneAliases[k].0 == tone;
      FindEntry(SkinToneAliases, k);
      NamedKeys(SkinToneAliases[k].1);
      FindSpec(Modifiers, SkinToneAliases[k].1);
    }
  }

  /** The value `removeSkinTone` returns; the pure operations use it. */
  function StripTones(emoji: string): string
  {
    RemoveChars(emoji, StrippedChars)
  }

  /** `removeSkinTone`: one global replace per modifier, then one for U+FE0F
      and U+200D. */
  method RemoveSkinTone(emoji: string) returns (result: string)
    ensures result == StripTones(emoji)
  {
    result := emoji;
    ghost var removed: set<char> := {};
    RemoveCharsNoop(emoji, {});
    for i := 0 to |Modifiers|
      invariant removed == set k | 0 <= k < i :: Modifiers[k].1
      invariant result == RemoveChars(emoji, removed)
    {
      RemoveCharsTwice(emoji, removed, {Modifiers[i].1});
      result := RemoveChars(result, {Modifiers[i].1});
      removed := removed + {Modifiers[i].1};
    }
    assert removed == ModifierChars by {
      assert Modifiers[0].1 in removed && Modifiers[1].1 in removed && Modifiers[2].1 in removed;
      assert Modifiers[3].1 in removed && Modifiers[4].1 in removed;
    }
    RemoveCharsTwice(emoji, removed, {VariationSelector, Zwj});
    result := RemoveChars(result, {VariationSelector, Zwj});
  }

  /** Stripping deletes exactly the modifiers, U+FE0F and U+200D: every other
      code point keeps its number of occurrences, in the same order. */
  lemma StripTonesExact(emoji: string, c: char)
    ensures c in StrippedChars ==> multiset(StripTones(emoji))[c] == 0
    ensures c !in StrippedChars ==> multiset(StripTones(emoji))[c] == multiset(emoji)[c]
    ensures forall a, b :: emoji == a + b ==> StripTones(emoji) == StripTones(a) + StripTones(b)
  {
    RemoveCharsCounts(emoji, StrippedChars, c);
    forall a, b | emoji == a + b ensures StripTones(emoji) == StripTones(a) + StripTones(b) {
      RemoveCharsAppend(a, b, StrippedChars);
    }
  }

  lemma StripTonesIdempotent(emoji: string)
    ensures StripTones(StripTones(emoji)) == StripTones(emoji)
  {
    RemoveCharsIdempotent(emoji, StrippedChars);
  }

  /** A string without any of those code points is returned unchanged. */
  lemma StripTonesNoop(emoji: string)
    requires forall i :: 0 <= i < |emoji| ==> emoji[i] !in StrippedChars
    ensures StripTones(emoji) == emoji
  {
    RemoveCharsNoop(emoji, StrippedChars);
  }

  /** `applySkinTone`: throws on an unknown tone, otherwise strips and
      appends the modifier. */
  function ApplySkinTone(emoji: string, tone: string): Result<string>
  {
    match ModifierFor(tone)
    case None => Err("Invalid skin tone: " + tone)
    case Some(m) => Ok(StripTones(emoji) + [m])
  }

  /** The error is raised exactly for the tones outside the ten identifiers. */
  lemma ApplySkinToneFails(emoji: string, tone: string)
    ensures ApplySkinTone(emoji, tone).Err? <==> tone !in ValidTones
    ensures ApplySkinTone(emoji, tone).Err? ==> ApplySkinTone(emoji, tone).message == "Invalid skin tone: " + tone
  {
    ModifierForValid(tone);
  }

  /** A numeric tone gives the same result as the named tone it stands for. */
  lemma ApplyNumericTone(emoji: string, k: int)
    requires 0 <= k < |SkinToneAliases|
    ensures ApplySkinTone(emoji, SkinToneAliases[k].0) == ApplySkinTone(emoji, SkinToneAliases[k].1)
  {
    ModifierForNumeric(k);
  }

  /** The result is the stripped emoji followed by exactly one modifier. */
  lemma ApplySkinToneShape(emoji: string, tone: string)
    requires tone in ValidTones
    ensures ApplySkinTone(emoji, tone).Ok?
    ensures var r := ApplySkinTone(emoji, tone).value;
            && r == StripTones(emoji) + [ModifierFor(tone).value]
            && |r| >= 1 && r[|r| - 1] in ModifierChars
            && forall i :: 0 <= i < |r| - 1 ==> r[i] !in StrippedChars
  {
    ModifierForValid(tone);
  }

  /** Tones replace, they do not stack. */
  lemma ApplySkinToneReplaces(emoji: string, t1: string, t2: string)
    requires t1 in ValidTones
    ensures ApplySkinTone(emoji, t1).Ok?
    ensures ApplySkinTone(ApplySkinTone(emoji, t1).value, t2) == ApplySkinTone(emoji, t2)
  {
    ModifierForValid(t1);
    StripAfterModifier(emoji, ModifierFor(t1).value);
  }

  /** Appending a stripped code point to a stripped emoji strips back to it. */
  lemma StripAfterModifier(emoji: string, m: char)
    requires m in StrippedChars
    ensures StripTones(StripTones(emoji) + [m]) == StripTones(emoji)
  {
    RemoveCharsAppend(StripTones(emoji), [m], StrippedChars);
    assert [m][1..] == [];
    assert RemoveChars([m], StrippedChars) == [];
    StripTonesIdempotent(emoji);
  }

  /** Removing the tone just applied gives back the stripped emoji; an emoji
      without modifiers, U+FE0F or U+200D is given back unchanged. */
  lemma RemoveAppliedTone(emoji: string, tone: string)
    requires tone in ValidTones
    ensures ApplySkinTone(emoji, tone).Ok?
    ensures StripTones(ApplySkinTone(emoji, tone).value) == StripTones(emoji)
    ensures (forall i :: 0 <= i < |emoji| ==> emoji[i] !in StrippedChars) ==>
              StripTones(ApplySkinTone(emoji, tone).value) == emoji
  {
    ApplySkinToneReplaces(emoji, tone, "");
    ModifierForValid(tone);
    var m := ModifierFor(tone).value;
    RemoveCharsAppend(StripTones(emoji), [m], StrippedChars);
    StripTonesIdempotent(emoji);
    if forall i :: 0 <= i < |emoji| ==> emoji[i] !in StrippedChars {
      StripTonesNoop(emoji);
    }
  }

  /** The family example of the documentation of `removeSkinTone` keeps its
      joiners, but the code deletes U+200D as well. */
  lemma FamilyLosesJoiners()
    ensures StripTones(['\U{1F468}', '\U{1F3FB}', '\U{200D}', '\U{1F469}', '\U{1F3FE}', '\U{200D}', '\U{1F467}', '\U{1F3FD}'])
              == ['\U{1F468}', '\U{1F469}', '\U{1F467}']
  {
    var s := ['\U{1F468}', '\U{1F3FB}', '\U{200D}', '\U{1F469}', '\U{1F3FE}', '\U{200D}', '\U{1F467}', '\U{1F3FD}'];
    assert RemoveChars(s[8..], StrippedChars) == [];
    assert RemoveChars(s[7..], StrippedChars) == [];
    assert RemoveChars(s[6..], StrippedChars) == ['\U{1F467}'];
    assert RemoveChars(s[5..], StrippedChars) == ['\U{1F467}'];
    assert RemoveChars(s[4..], StrippedChars) == ['\U{1F467}'];
    assert RemoveChars(s[3..], StrippedChars) == ['\U{1F469}', '\U{1F467}'];
    assert RemoveChars(s[2..], StrippedChars) == ['\U{1F469}', '\U{1F467}'];
    assert RemoveChars(s[1..], StrippedChars) == ['\U{1F469}', '\U{1F467}'];
  }

  /** The object `getAllSkinToneVariations` returns; `base` is its `default` key. */
  datatype Variations = Variations(base: string, light: string, mediumLight: string,
                                   medium: string, mediumDark: string, dark: string)

  function Variant(b: string, t: Tone): (r: string)
    ensures r == StripTones(b) + [ModifierOf(t)]
  {
    ModifierForNamed(t);
    ApplySkinTone(b, ToneName(t)).value
  }

  /** `getAllSkinToneVariations` */
  function GetAllSkinToneVariations(emoji: string): Variations
  {
    var b := StripTones(emoji);
    Variations(b, Variant(b, Light), Variant(b, MediumLight), Variant(b, Medium),
               Variant(b, MediumDark), Variant(b, Dark))
  }

  /** Each entry is the stripped emoji with that one modifier, and an emoji
      already carrying a tone has the same variations as its base. */
  lemma VariationsOfToned(emoji: string, tone: string)
    requires tone in ValidTones
    ensures ApplySkinTone(emoji, tone).Ok?
    ensures GetAllSkinToneVariations(ApplySkinTone(emoji, tone).value) == GetAllSkinToneVariations(emoji)
    ensures var v := GetAllSkinToneVariations(emoji);
            && v.base == StripTones(emoji)
            && v.light == StripTones(emoji) + ['\U{1F3FB}']
            && v.mediumLight == StripTones(emoji) + ['\U{1F3FC}']
            && v.medium == StripTones(emoji) + ['\U{1F3FD}']
            && v.mediumDark == StripTones(emoji) + ['\U{1F3FE}']
            && v.dark == StripTones(emoji) + ['\U{1F3FF}']
  {
    ModifierForValid(tone);
    var toned := ApplySkinTone(emoji, tone).value;
    StripAfterModifier(emoji, ModifierFor(tone).value);
    assert StripTones(toned) == StripTones(emoji);
    StripTonesIdempotent(emoji);
  }

  /** The helper `getNameFromEmoji` of this file: the FIRST name, in table
      order, whose character is `e`. */
  function FirstNameOf(emojis: Table<string>, e: string): (r: Option<string>)
    ensures r.Some? <==> HasValue(emojis, e)
    ensures r.Some? ==> exists k :: 0 <= k < |emojis| && emojis[k] == (r.value, e)
                                    && forall j :: 0 <= j < k ==> emojis[j].1 != e
  {
    if emojis == [] then None
    else if emojis[0].1 == e then Some(emojis[0].0)
    else
      var r := FirstNameOf(emojis[1..], e);
      if r.Some? then
        var k :| 0 <= k < |emojis[1..]| && emojis[1..][k] == (r.value, e)
                 && forall j :: 0 <= j < k ==> emojis[1..][j].1 != e;
        assert emojis[k + 1] == (r.value, e);
        r
      else r
  }

  /** The entry `Object.entries(aliases).find` returns: the first whose list
      holds the name. */
  function FindListing(t: Aliases.AliasTable, name: string): Option<(string, seq<string>)>
  {
    if t == [] then None
    else if name in t[0].1 then Some(t[0])
    else FindListing(t[1..], name)
  }

  /** The helper `getPrimaryName` of this file. */
  function LocalPrimaryName(t: Aliases.AliasTable, name: string): string
  {
    if HasKey(t, name) then name
    else
      match FindListing(t, name)
      case Some(e) => e.0
      case None => name
  }

  lemma {:induction false} FindListingIsFirst(t: Aliases.AliasTable, name: string)
    ensures FindListing(t, name) ==
              match Aliases.FirstListing(t, name)
              case Some(k) => Some(t[k])
              case None => None
  {
    if t != [] && name !in t[0].1 {
      FindListingIsFirst(t[1..], name);
    }
  }

  /** The two `getPrimaryName` implementations of the library agree on every input. */
  lemma LocalPrimaryNameAgrees(t: Aliases.AliasTable, name: string)
    ensures LocalPrimaryName(t, name) == Aliases.PrimaryName(t, name)
  {
    FindListingIsFirst(t, name);
  }

  /** The name `supportsSkinTone` resolves its argument to. */
  function ResolveName(d: Data, x: string): Option<string>
  {
    if Truthy(Find(d.emojis, x)) then Some(x) else FirstNameOf(d.emojis, x)
  }

  /** `supportsSkinTone` */
  predicate SupportsSkinTone(d: Data, x: string)
  {
    var name := ResolveName(d, x);
    && name.Some? && name.value != ""
    && (name.value in d.capable || LocalPrimaryName(d.aliases, name.value) in d.capable)
  }

  /** Neither a name nor a character of the dataset: not capable. */
  lemma SupportsSkinToneUnknown(d: Data, x: string)
    requires !HasKey(d.emojis, x) && !HasValue(d.emojis, x)
    ensures !SupportsSkinTone(d, x)
  {
    FindSpec(d.emojis, x);
  }

  /** Otherwise capable exactly when the resolved name or its primary is in
      the capable list; a character resolves to the first name carrying it. */
  lemma SupportsSkinToneResolved(d: Data, x: string)
    requires HasKey(d.emojis, x) || HasValue(d.emojis, x)
    ensures var name := ResolveName(d, x);
            && (name.Some? || (HasKey(d.emojis, x) && !HasValue(d.emojis, x)))
            && (SupportsSkinTone(d, x) <==>
                  name.Some? && name.value != ""
                  && (name.value in d.capable || Aliases.PrimaryName(d.aliases, name.value) in d.capable))
  {
    var name := ResolveName(d, x);
    if name.Some? {
      LocalPrimaryNameAgrees(d.aliases, name.value);
    }
  }

  /** A dataset character that is not itself a name resolves to the first
      name carrying it. */
  lemma ResolveCharacterIsFirst(d: Data, x: string, k: int)
    requires !HasKey(d.emojis, x)
    requires 0 <= k < |d.emojis| && d.emojis[k].1 == x
    requires forall j :: 0 <= j < k ==> d.emojis[j].1 != x
    ensures ResolveName(d, x) == Some(d.emojis[k].0)
  {
    FindSpec(d.emojis, x);
    var r := FirstNameOf(d.emojis, x);
    assert r.Some?;
    var i :| 0 <= i < |d.emojis| && d.emojis[i] == (r.value, x)
             && forall j :: 0 <= j < i ==> d.emojis[j].1 != x;
    if i < k { } else if i > k { }
  }
}
