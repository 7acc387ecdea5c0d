/** Input checks and clean-ups (src/utils/validators.ts). Each regular
    expression of the source is written out as a predicate on characters. */
module Validators {
  import opened Text
  import opened Dataset
  import SkinTones

  /** A character JavaScript's `\s` matches. */
  predicate IsJsSpace(c: char)
  {
    c == '\t' || c == '\n' || c == '\U{000B}' || c == '\U{000C}' || c == '\r' || c == ' '
    || c == '\U{00A0}' || c == '\U{1680}' || '\U{2000}' <= c <= '\U{200A}'
    || c == '\U{2028}' || c == '\U{2029}' || c == '\U{202F}' || c == '\U{205F}'
    || c == '\U{3000}' || c == '\U{FEFF}'
  }

  /** `[a-zA-Z0-9\s]`: the characters that mark a string as text. */
  predicate IsTextChar(c: char)
  {
    IsLetter(c) || IsDigit(c) || IsJsSpace(c)
  }

  /** The class of the `emojiChars` expression: the emoji blocks, regional
      indicators, skin-tone modifiers, the zero-width joiner and the emoji
      presentation selector. */
  predicate IsEmojiChar(c: char)
  {
    '\U{1F600}' <= c <= '\U{1F64F}' || '\U{1F300}' <= c <= '\U{1F5FF}'
    || '\U{1F680}' <= c <= '\U{1F6FF}' || '\U{1F700}' <= c <= '\U{1F77F}'
    || '\U{1F780}' <= c <= '\U{1F7FF}' || '\U{1F800}' <= c <= '\U{1F8FF}'
    || '\U{2600}' <= c <= '\U{26FF}' || '\U{2700}' <= c <= '\U{27BF}'
    || '\U{1F900}' <= c <= '\U{1F9FF}' || '\U{1FA00}' <= c <= '\U{1FA6F}'
    || '\U{1FA70}' <= c <= '\U{1FAFF}' || '\U{1F1E6}' <= c <= '\U{1F1FF}'
    || '\U{1F3FB}' <= c <= '\U{1F3FF}' || c == '\U{200D}' || c == '\U{FE0F}'
  }

  /** `isValidEmoji`, against the dataset's characters `emojis`. */
  predicate IsValidEmoji(emojis: Table<string>, str: string)
  {
    if str == [] then false
    else if HasValue(emojis, str) then true
    else if exists i :: 0 <= i < |str| && IsTextChar(str[i]) then false
    else forall i :: 0 <= i < |str| ==> IsEmojiChar(str[i])
  }

  /** The empty string is rejected, a dataset character accepted whatever
      it contains, and any other string accepted exactly when it is made of
      emoji characters only: no emoji character is text, so the text check
      never decides anything the range check would not. */
  lemma IsValidEmojiSpec(emojis: Table<string>, str: string)
    ensures str == [] ==> !IsValidEmoji(emojis, str)
    ensures str != [] && HasValue(emojis, str) ==> IsValidEmoji(emojis, str)
    ensures !HasValue(emojis, str) ==>
              (IsValidEmoji(emojis, str) <==> str != [] && forall i :: 0 <= i < |str| ==> IsEmojiChar(str[i]))
  {
    if !HasValue(emojis, str) && str != [] && forall i :: 0 <= i < |str| ==> IsEmojiChar(str[i]) {
      forall i | 0 <= i < |str| ensures !IsTextChar(str[i]) {
        assert IsEmojiChar(str[i]);
      }
    }
  }

  /** An unknown string with a letter, a digit or a space is rejected. */
  lemma TextRejected(emojis: Table<string>, str: string, i: int)
    requires !HasValue(emojis, str)
    requires 0 <= i < |str| && IsTextChar(str[i])
    ensures !IsValidEmoji(emojis, str)
  {
  }

  /** The keycap 1 U+FE0F U+20E3 holds a digit: it is valid when the dataset lists it
      and rejected otherwise. */
  lemma KeycapNeedsDataset()
    ensures IsValidEmoji([("one", "1\U{FE0F}\U{20E3}")], "1\U{FE0F}\U{20E3}")
    ensures !IsValidEmoji([], "1\U{FE0F}\U{20E3}")
  {
    var t := [("one", "1\U{FE0F}\U{20E3}")];
    assert t[0].1 == "1\U{FE0F}\U{20E3}";
    assert IsTextChar("1\U{FE0F}\U{20E3}"[0]);
  }

  /** `[a-zA-Z0-9_-]` */
  predicate IsNameChar(c: char)
  {
    IsLetter(c) || IsDigit(c) || c == '_' || c == '-'
  }

  /** `isValidEmojiName` */
  predicate IsValidEmojiName(name: string)
  {
    name != [] && forall i :: 0 <= i < |name| ==> IsNameChar(name[i])
  }

  /** The `validTones` list. */
  const ValidToneList: seq<string> := ["light", "medium-light", "medium", "medium-dark", "dark", "1", "2", "3", "4", "5"]

  /** `isValidSkinTone` */
  predicate IsValidSkinTone(tone: string)
  {
    tone in ValidToneList
  }

  /** The tones accepted here are exactly those `applySkinTone` accepts. */
  lemma IsValidSkinToneAgrees(emoji: string, tone: string)
    ensures IsValidSkinTone(tone) <==> tone in SkinTones.ValidTones
    ensures IsValidSkinTone(tone) <==> SkinTones.ApplySkinTone(emoji, tone).Ok?
  {
    SkinTones.ApplySkinToneFails(emoji, tone);
    if tone in ValidToneList {
      var k :| 0 <= k < |ValidToneList| && ValidToneList[k] == tone;
      assert k < 5 ==> tone in SkinTones.NamedTones;
    }
    if tone == "light" { assert ValidToneList[0] == tone; }
    else if tone == "medium-light" { assert ValidToneList[1] == tone; }
    else if tone == "medium" { assert ValidToneList[2] == tone; }
    else if tone == "medium-dark" { assert ValidToneList[3] == tone; }
    else if tone == "dark" { assert ValidToneList[4] == tone; }
    else if tone == "1" { assert ValidToneList[5] == tone; }
    else if tone == "2" { assert ValidToneList[6] == tone; }
    else if tone == "3" { assert ValidToneList[7] == tone; }
    else if tone == "4" { assert ValidToneList[8] == tone; }
    else if tone == "5" { assert ValidToneList[9] == tone; }
  }

  /** `[a-z0-9_]`: what `sanitizeEmojiName` keeps. */
  predicate IsSafe(c: char)
  {
    IsLowerLetter(c) || IsDigit(c) || c == '_'
  }

  /** `replace(/[^a-z0-9_]/g, '_')`. The expression has no `u` flag, so it
      matches UTF-16 code units: a character outside the Basic Multilingual
      Plane is two units and becomes two underscores. */
  function ReplaceUnsafe(s: string): (r: string)
    ensures |r| == Utf16Length(s)
    ensures forall i :: 0 <= i < |r| ==> IsSafe(r[i])
  {
    if s == [] then [] else ReplaceChar(s[0]) + ReplaceUnsafe(s[1..])
  }

  /** What one character becomes. */
  function ReplaceChar(c: char): (r: string)
    ensures |r| == Utf16Width(c)
    ensures forall i :: 0 <= i < |r| ==> IsSafe(r[i])
  {
    if IsSafe(c) then [c] else if Utf16Width(c) == 2 then "__" else "_"
  }

  /** `sanitizeEmojiName` */
  function SanitizeEmojiName(name: string): string
  {
    ReplaceUnsafe(Lower(name))
  }

  lemma {:induction false} Utf16LengthLower(s: string)
    ensures Utf16Length(Lower(s)) == Utf16Length(s)
  {
    if s != [] {
      Utf16LengthLower(s[1..]);
      assert Lower(s)[1..] == Lower(s[1..]);
    }
  }

  lemma {:induction false} Utf16LengthAscii(s: string)
    requires IsAscii(s)
    ensures Utf16Length(s) == |s|
  {
    if s != [] {
      assert s[0] as int < 0x80;
      Utf16LengthAscii(s[1..]);
    }
  }

  lemma {:induction false} ReplaceUnsafeNoop(s: string)
    requires forall i :: 0 <= i < |s| ==> IsSafe(s[i])
    ensures ReplaceUnsafe(s) == s
  {
    if s != [] {
      assert IsSafe(s[0]);
      ReplaceUnsafeNoop(s[1..]);
      assert s == [s[0]] + s[1..];
    }
  }

  /** A name already made of `[a-z0-9_]` is left as it is. */
  lemma SanitizeNoop(name: string)
    requires forall i :: 0 <= i < |name| ==> IsSafe(name[i])
    ensures SanitizeEmojiName(name) == name
  {
    assert Lower(name) == name;
    ReplaceUnsafeNoop(name);
  }

  /** The output uses only `[a-z0-9_]`, has one character per UTF-16 unit
      of the input (so an ASCII name keeps its length), is a valid emoji
      name when not empty, and sanitizing it again changes nothing. */
  lemma SanitizeSpec(name: string)
    ensures var r := SanitizeEmojiName(name);
            && (forall i :: 0 <= i < |r| ==> IsSafe(r[i]))
            && |r| == Utf16Length(name)
            && (IsAscii(name) ==> |r| == |name|)
            && (r != [] ==> IsValidEmojiName(r))
            && SanitizeEmojiName(r) == r
  {
    var r := SanitizeEmojiName(name);
    Utf16LengthLower(name);
    if IsAscii(name) {
      Utf16LengthAscii(name);
    }
    SanitizeNoop(r);
  }

  lemma {:induction false} ReplaceUnsafeAppend(a: string, b: string)
    ensures ReplaceUnsafe(a + b) == ReplaceUnsafe(a) + ReplaceUnsafe(b)
  {
    if a != [] {
      ReplaceUnsafeAppend(a[1..], b);
      TailOfAppend(a, b);
      AppendAssoc(ReplaceChar(a[0]), ReplaceUnsafe(a[1..]), ReplaceUnsafe(b));
    } else {
      AppendEmpty(b);
    }
  }

  /** A hyphen between two words of letters becomes an underscore after
      lowercasing: `Smiley-Face` gives `smiley_face`. */
  const Smiley: string := "Smiley"
  const Face: string := "Face"

  lemma SanitizeHyphen()
    ensures SanitizeEmojiName(Smiley + "-" + Face) == "smiley" + "_" + "face"
  {
    SanitizeHyphenated(Smiley, Face);
    assert Lower(Smiley) == "smiley" && Lower(Face) == "face";
  }

  lemma SanitizeHyphenated(u: string, v: string)
    requires forall i :: 0 <= i < |u| ==> IsLetter(u[i])
    requires forall i :: 0 <= i < |v| ==> IsLetter(v[i])
    ensures SanitizeEmojiName(u + "-" + v) == Lower(u) + "_" + Lower(v)
  {
    LowerAppend(u + "-", v);
    LowerAppend(u, "-");
    assert Lower("-") == "-";
    ReplaceUnsafeAppend(Lower(u) + "-", Lower(v));
    ReplaceUnsafeAppend(Lower(u), "-");
    ReplaceUnsafeNoop(Lower(u));
    ReplaceUnsafeNoop(Lower(v));
    assert ReplaceUnsafe("-") == "_";
  }

  /** A character outside the Basic Multilingual Plane becomes two
      underscores: here U+1F600 after the letter `a`. */
  const Grinning: string := "\U{1F600}"

  lemma SanitizeAstral()
    ensures SanitizeEmojiName("a" + Grinning) == "a__"
  {
    LowerAppend("a", Grinning);
    assert Lower(Grinning) == Grinning;
    ReplaceUnsafeAppend("a", Grinning);
    assert ReplaceUnsafe(Grinning) == "__";
  }

  /** `hasVariationSelector`: `str.includes('\u{FE0F}')`. */
  predicate HasVariationSelector(str: string)
  {
    Contains(str, [SkinTones.VariationSelector])
  }

  /** `stripVariationSelectors` */
  function StripVariationSelectors(str: string): string
  {
    RemoveChars(str, {SkinTones.VariationSelector})
  }

  /** Containing the one-character string is containing the character. */
  lemma HasVariationSelectorSpec(str: string)
    ensures HasVariationSelector(str) <==> SkinTones.VariationSelector in str
  {
    var v := [SkinTones.VariationSelector];
    if SkinTones.VariationSelector in str {
      var i :| 0 <= i < |str| && str[i] == SkinTones.VariationSelector;
      assert OccursAt(v, str, i);
    }
    if HasVariationSelector(str) {
      var i :| 0 <= i <= |str| && OccursAt(v, str, i);
      assert str[i] == str[i..i + 1][0];
    }
  }

  /** Stripping removes every U+FE0F and only those: nothing is left to
      find, other characters keep their number of occurrences, and a string
      without the selector is returned unchanged. */
  lemma StripVariationSelectorsSpec(str: string, c: char)
    ensures !HasVariationSelector(StripVariationSelectors(str))
    ensures c != SkinTones.VariationSelector ==>
              multiset(StripVariationSelectors(str))[c] == multiset(str)[c]
    ensures StripVariationSelectors(str) == str <==> !HasVariationSelector(str)
  {
    var r := StripVariationSelectors(str);
    HasVariationSelectorSpec(r);
    HasVariationSelectorSpec(str);
    RemoveCharsCounts(str, {SkinTones.VariationSelector}, c);
    if !HasVariationSelector(str) {
      RemoveCharsNoop(str, {SkinTones.VariationSelector});
    }
  }

  /** Removing skin tones after stripping selectors is removing skin tones. */
  lemma StripBeforeTones(str: string)
    ensures SkinTones.StripTones(StripVariationSelectors(str)) == SkinTones.StripTones(str)
  {
    RemoveCharsTwice(str, {SkinTones.VariationSelector}, SkinTones.StrippedChars);
    assert {SkinTones.VariationSelector} + SkinTones.StrippedChars == SkinTones.StrippedChars;
  }
}
