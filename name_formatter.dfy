/** `getEmojiName` (scripts/emoji-name-formatter.js): turns a raw emoji
    description into a key of the dataset by four global replacements and
    a lowercasing, each pass scanning left to right without overlaps. */
module NameFormatter {
  import opened Text

  /** `n` copies of `c`. */
  function Rep(c: char, n: nat): (r: string)
    ensures |r| == n && forall i :: 0 <= i < n ==> r[i] == c
  {
    if n == 0 then [] else [c] + Rep(c, n - 1)
  }

  lemma RepTail(c: char, n: nat)
    requires n > 0
    ensures Rep(c, n)[0] == c && Rep(c, n)[1..] == Rep(c, n - 1)
  {
  }

  /** `replace(/\W/g, ' ')`. Without the `u` flag the expression reads
      UTF-16 code units, so a character outside the Basic Multilingual
      Plane is two non-word units and becomes two spaces. */
  function BlankNonWord(s: string): (r: string)
    ensures |r| == Utf16Length(s)
    ensures forall i :: 0 <= i < |r| ==> IsWordChar(r[i]) || r[i] == ' '
  {
    if s == [] then []
    else (if IsWordChar(s[0]) then [s[0]] else Rep(' ', Utf16Width(s[0]))) + BlankNonWord(s[1..])
  }

  /** `replace(/xx/g, 'x')` for one character `x`: every pair found
      scanning from the left becomes one `x`, and a pair is never reused. */
  function Collapse(s: string, x: char): (r: string)
    ensures |r| <= |s|
  {
    if |s| < 2 then s
    else if s[0] == x && s[1] == x then [x] + Collapse(s[2..], x)
    else [s[0]] + Collapse(s[1..], x)
  }

  /** Collapsing introduces no character that was not there. */
  lemma {:induction false} CollapseWithin(s: string, x: char, cs: set<char>)
    requires forall i :: 0 <= i < |s| ==> s[i] in cs
    requires x in cs
    ensures forall i :: 0 <= i < |Collapse(s, x)| ==> Collapse(s, x)[i] in cs
    decreases |s|
  {
    if |s| >= 2 {
      if s[0] == x && s[1] == x {
        CollapseWithin(s[2..], x, cs);
      } else {
        CollapseWithin(s[1..], x, cs);
      }
    }
  }

  /** `replace(/ /g, '_')` */
  function SpacesToUnderscores(s: string): (r: string)
    ensures |r| == |s|
    ensures forall i :: 0 <= i < |s| ==> r[i] == if s[i] == ' ' then '_' else s[i]
  {
    seq(|s|, i requires 0 <= i < |s| => if s[i] == ' ' then '_' else s[i])
  }

  /** `getEmojiName` */
  function GetEmojiName(raw: string): string
  {
    Lower(Collapse(SpacesToUnderscores(Collapse(BlankNonWord(raw), ' ')), '_'))
  }

  /** A character of a name as the dataset writes it: `[a-z0-9_]`. */
  predicate IsKeyChar(c: char)
  {
    IsLowerLetter(c) || IsDigit(c) || c == '_'
  }

  /** The output is lowercase and made of `[a-z0-9_]` only, and never
      longer than the input's JavaScript length: each pass rewrites one
      unit to one or two units to one. */
  lemma GetEmojiNameSpec(raw: string)
    ensures forall i :: 0 <= i < |GetEmojiName(raw)| ==> IsKeyChar(GetEmojiName(raw)[i])
    ensures |GetEmojiName(raw)| <= Utf16Length(raw)
  {
    var a := BlankNonWord(raw);
    var b := Collapse(a, ' ');
    var c := SpacesToUnderscores(b);
    var d := Collapse(c, '_');
    var word := set c: char | IsWordChar(c) || c == ' ';
    assert forall i :: 0 <= i < |a| ==> a[i] in word;
    CollapseWithin(a, ' ', word);
    assert forall i :: 0 <= i < |c| ==> c[i] in word - {' '};
    CollapseWithin(c, '_', word - {' '});
  }

  /** The letters and digits of `s`, in order. */
  function Alnums(s: string): string
  {
    if s == [] then []
    else (if IsLetter(s[0]) || IsDigit(s[0]) then [s[0]] else []) + Alnums(s[1..])
  }

  lemma {:induction false} AlnumsAppend(a: string, b: string)
    ensures Alnums(a + b) == Alnums(a) + Alnums(b)
  {
    if a == [] {
      AppendEmpty(b);
    } else {
      AlnumsAppend(a[1..], b);
      TailOfAppend(a, b);
    }
  }

  lemma {:induction false} AlnumsRep(c: char, n: nat)
    requires !IsLetter(c) && !IsDigit(c)
    ensures Alnums(Rep(c, n)) == []
  {
    if n > 0 {
      AlnumsRep(c, n - 1);
    }
  }

  lemma {:induction false} AlnumsBlank(s: string)
    ensures Alnums(BlankNonWord(s)) == Alnums(s)
  {
    if s != [] {
      AlnumsBlank(s[1..]);
      var head := if IsWordChar(s[0]) then [s[0]] else Rep(' ', Utf16Width(s[0]));
      AlnumsAppend(head, BlankNonWord(s[1..]));
      if !IsWordChar(s[0]) {
        AlnumsRep(' ', Utf16Width(s[0]));
      }
    }
  }

  lemma {:induction false} AlnumsCollapse(s: string, x: char)
    requires !IsLetter(x) && !IsDigit(x)
    ensures Alnums(Collapse(s, x)) == Alnums(s)
    decreases |s|
  {
    if |s| >= 2 && s[0] == x && s[1] == x {
      AlnumsCollapse(s[2..], x);
      assert s[1..][1..] == s[2..];
      AlnumsAppend([x], Collapse(s[2..], x));
    } else if |s| >= 2 {
      AlnumsCollapse(s[1..], x);
      AlnumsAppend([s[0]], Collapse(s[1..], x));
    }
  }

  lemma {:induction false} AlnumsSpaces(s: string)
    ensures Alnums(SpacesToUnderscores(s)) == Alnums(s)
  {
    if s != [] {
      AlnumsSpaces(s[1..]);
      assert SpacesToUnderscores(s)[1..] == SpacesToUnderscores(s[1..]);
    }
  }

  lemma {:induction false} AlnumsLower(s: string)
    ensures Alnums(Lower(s)) == Lower(Alnums(s))
  {
    if s != [] {
      AlnumsLower(s[1..]);
      assert Lower(s)[1..] == Lower(s[1..]);
      var head := if IsLetter(s[0]) || IsDigit(s[0]) then [s[0]] else [];
      LowerAppend(head, Alnums(s[1..]));
    }
  }

  /** The letters and digits of the input reach the output in their order,
      lowercased, and nothing else that is a letter or digit is added. */
  lemma GetEmojiNameKeepsAlnums(raw: string)
    ensures Alnums(GetEmojiName(raw)) == Lower(Alnums(raw))
  {
    var a := BlankNonWord(raw);
    var b := Collapse(a, ' ');
    var c := SpacesToUnderscores(b);
    var d := Collapse(c, '_');
    AlnumsBlank(raw);
    AlnumsCollapse(a, ' ');
    AlnumsSpaces(b);
    AlnumsCollapse(c, '_');
    AlnumsLower(d);
  }

  /** A run of `n` copies of `x` collapses to `(n + 1) / 2` of them. */
  lemma {:induction false} CollapseRun(n: nat, x: char, t: string)
    requires t == [] || t[0] != x
    ensures Collapse(Rep(x, n) + t, x) == Rep(x, (n + 1) / 2) + Collapse(t, x)
  {
    if n >= 2 {
      CollapseRun(n - 2, x, t);
      CollapsePair(n, x, t);
    } else if n == 1 {
      TailOfAppend(Rep(x, n), t);
      AppendEmpty(t);
    } else {
      AppendEmpty(t);
    }
  }

  /** A leading pair becomes one `x`. */
  lemma CollapsePair(n: nat, x: char, t: string)
    requires n >= 2
    requires Collapse(Rep(x, n - 2) + t, x) == Rep(x, (n - 1) / 2) + Collapse(t, x)
    ensures Collapse(Rep(x, n) + t, x) == Rep(x, (n + 1) / 2) + Collapse(t, x)
  {
    var s := Rep(x, n) + t;
    var w := Rep(x, n - 2) + t;
    RepTail(x, n);
    RepTail(x, n - 1);
    TailOfAppend(Rep(x, n), t);
    TailOfAppend(Rep(x, n - 1), t);
    assert s[2..] == s[1..][1..] == w;
    assert Collapse(s, x) == [x] + Collapse(w, x);
    var m := (n + 1) / 2;
    assert Rep(x, m) == [x] + Rep(x, (n - 1) / 2);
    AppendAssoc([x], Rep(x, (n - 1) / 2), Collapse(t, x));
  }

  /** Letters and digits only. */
  predicate IsAlnumWord(u: string)
  {
    forall i :: 0 <= i < |u| ==> IsLetter(u[i]) || IsDigit(u[i])
  }

  /** Characters other than `x` at the front pass through `Collapse`. */
  lemma {:induction false} CollapseKeep(u: string, t: string, x: char)
    requires forall i :: 0 <= i < |u| ==> u[i] != x
    ensures Collapse(u + t, x) == u + Collapse(t, x)
    decreases |u|
  {
    if u == [] {
      AppendEmpty(t);
    } else if |u + t| >= 2 {
      TailOfAppend(u, t);
      CollapseKeep(u[1..], t, x);
      SplitFirst(u);
      AppendAssoc([u[0]], u[1..], Collapse(t, x));
    } else {
      AppendEmpty(u);
    }
  }

  lemma {:induction false} BlankWord(u: string, t: string)
    requires IsAlnumWord(u)
    ensures BlankNonWord(u + t) == u + BlankNonWord(t)
    decreases |u|
  {
    if u == [] {
      AppendEmpty(t);
    } else {
      TailOfAppend(u, t);
      BlankWord(u[1..], t);
      SplitFirst(u);
      AppendAssoc([u[0]], u[1..], BlankNonWord(t));
    }
  }

  lemma {:induction false} BlankRun(run: string, t: string)
    requires forall i :: 0 <= i < |run| ==> !IsWordChar(run[i]) && run[i] as int <= 0xFFFF
    ensures BlankNonWord(run + t) == Rep(' ', |run|) + BlankNonWord(t)
    decreases |run|
  {
    if run == [] {
      AppendEmpty(t);
    } else {
      TailOfAppend(run, t);
      BlankRun(run[1..], t);
    }
  }

  /** After the first pass a word, a run of spaces and a word. */
  lemma BlankSplit(u: string, run: string, v: string)
    requires IsAlnumWord(u) && IsAlnumWord(v)
    requires forall i :: 0 <= i < |run| ==> !IsWordChar(run[i]) && run[i] as int <= 0xFFFF
    ensures BlankNonWord(u + run + v) == u + Rep(' ', |run|) + v
  {
    AppendAssoc(u, run, v);
    BlankWord(u, run + v);
    BlankRun(run, v);
    BlankWord(v, []);
    AppendEmpty(v);
    AppendEmpty(BlankNonWord([]));
    AppendAssoc(u, Rep(' ', |run|), v);
  }

  /** Collapsing a run of `x` between two words without `x`. */
  lemma CollapseSplit(u: string, n: nat, v: string, x: char)
    requires forall i :: 0 <= i < |u| ==> u[i] != x
    requires forall i :: 0 <= i < |v| ==> v[i] != x
    ensures Collapse(u + Rep(x, n) + v, x) == u + Rep(x, (n + 1) / 2) + v
  {
    AppendAssoc(u, Rep(x, n), v);
    CollapseKeep(u, Rep(x, n) + v, x);
    CollapseRun(n, x, v);
    CollapseKeep(v, [], x);
    AppendEmpty(v);
    AppendAssoc(u, Rep(x, (n + 1) / 2), v);
  }

  lemma SpacesSplit(u: string, m: nat, v: string)
    requires IsAlnumWord(u) && IsAlnumWord(v)
    ensures SpacesToUnderscores(u + Rep(' ', m) + v) == u + Rep('_', m) + v
  {
    var s := u + Rep(' ', m) + v;
    var r := u + Rep('_', m) + v;
    forall i | 0 <= i < |s| ensures SpacesToUnderscores(s)[i] == r[i] {
      if i < |u| {
        assert s[i] == u[i] && r[i] == u[i];
      } else if i < |u| + m {
        assert s[i] == ' ' && r[i] == '_';
      } else {
        assert s[i] == v[i - |u| - m] && r[i] == v[i - |u| - m];
      }
    }
  }

  lemma LowerSplit(u: string, k: nat, v: string)
    ensures Lower(u + Rep('_', k) + v) == Lower(u) + Rep('_', k) + Lower(v)
  {
    LowerAppend(u + Rep('_', k), v);
    LowerAppend(u, Rep('_', k));
    assert Lower(Rep('_', k)) == Rep('_', k);
  }

  /** The four replacements on a word, a run and a word. */
  lemma ReplacementsSplit(u: string, run: string, v: string)
    requires IsAlnumWord(u) && IsAlnumWord(v)
    requires forall i :: 0 <= i < |run| ==> !IsWordChar(run[i]) && run[i] as int <= 0xFFFF
    ensures Collapse(SpacesToUnderscores(Collapse(BlankNonWord(u + run + v), ' ')), '_')
            == u + Rep('_', ((|run| + 1) / 2 + 1) / 2) + v
  {
    SpacesCollapsed(u, run, v);
    UnderscoresCollapsed(u, (|run| + 1) / 2, v);
  }

  /** The first two replacements: the run becomes half as many spaces. */
  lemma SpacesCollapsed(u: string, run: string, v: string)
    requires IsAlnumWord(u) && IsAlnumWord(v)
    requires forall i :: 0 <= i < |run| ==> !IsWordChar(run[i]) && run[i] as int <= 0xFFFF
    ensures Collapse(BlankNonWord(u + run + v), ' ') == u + Rep(' ', (|run| + 1) / 2) + v
  {
    BlankSplit(u, run, v);
    CollapseSplit(u, |run|, v, ' ');
  }

  /** The last two replacements: `m` spaces become half as many underscores. */
  lemma UnderscoresCollapsed(u: string, m: nat, v: string)
    requires IsAlnumWord(u) && IsAlnumWord(v)
    ensures Collapse(SpacesToUnderscores(u + Rep(' ', m) + v), '_') == u + Rep('_', (m + 1) / 2) + v
  {
    SpacesSplit(u, m, v);
    CollapseSplit(u, m, v, '_');
  }

  /** Between two words of letters and digits, a run of `n >= 1`
      non-word characters of the Basic Multilingual Plane becomes
      `((n + 1) / 2 + 1) / 2` underscores: one for a run of one to four,
      two for five to eight. */
  lemma RunBetweenWords(u: string, run: string, v: string)
    requires IsAlnumWord(u) && IsAlnumWord(v)
    requires forall i :: 0 <= i < |run| ==> !IsWordChar(run[i]) && run[i] as int <= 0xFFFF
    ensures GetEmojiName(u + run + v) == Lower(u) + Rep('_', ((|run| + 1) / 2 + 1) / 2) + Lower(v)
  {
    ReplacementsSplit(u, run, v);
    LowerSplit(u, ((|run| + 1) / 2 + 1) / 2, v);
  }

  /** A word of letters and digits is only lowercased. */
  lemma WordIsLowered(u: string)
    requires IsAlnumWord(u)
    ensures GetEmojiName(u) == Lower(u)
  {
    RunBetweenWords(u, [], []);
    assert u + [] + [] == u;
    assert Lower([]) == [];
  }

  /** Between the words `a` and `b`, four dashes still give one underscore;
      a fifth gives a second one. */
  const WordA: string := "a"
  const WordB: string := "b"
  const FourDashes: string := "----"
  const FiveDashes: string := "-----"

  lemma RunOfFour()
    ensures GetEmojiName(WordA + FourDashes + WordB) == WordA + "_" + WordB
  {
    RunExample(WordA, FourDashes, WordB, 1);
    assert Rep('_', 1) == "_";
  }

  lemma RunOfFive()
    ensures GetEmojiName(WordA + FiveDashes + WordB) == WordA + "__" + WordB
  {
    RunExample(WordA, FiveDashes, WordB, 2);
    assert Rep('_', 2) == "__";
  }

  /** A run of dashes between two lowercase words. */
  lemma RunExample(u: string, run: string, v: string, k: nat)
    requires IsAlnumWord(u) && IsAlnumWord(v) && Lower(u) == u && Lower(v) == v
    requires forall i :: 0 <= i < |run| ==> run[i] == '-'
    requires k == ((|run| + 1) / 2 + 1) / 2
    ensures GetEmojiName(u + run + v) == u + Rep('_', k) + v
  {
    RunBetweenWords(u, run, v);
  }

  /** The cases the formatter's own tests state. */
  lemma FormatterLowercases()
    ensures GetEmojiName("CAT") == "cat"
  {
    WordIsLowered("CAT");
    assert Lower("CAT") == "cat";
  }

  lemma FormatterHyphen()
    ensures GetEmojiName("smiley" + "-" + "face") == "smiley" + "_" + "face"
  {
    var u, r, v := "smiley", "-", "face";
    RunBetweenWords(u, r, v);
    assert Lower(u) == u && Lower(v) == v;
  }

  lemma FormatterDoubleHyphen()
    ensures GetEmojiName("smiley" + "--" + "face") == "smiley" + "_" + "face"
  {
    var u, r, v := "smiley", "--", "face";
    RunBetweenWords(u, r, v);
    assert Lower(u) == u && Lower(v) == v;
  }
}
