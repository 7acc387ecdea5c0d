/** Character and string helpers shared by the model of the library: ASCII
    character classes and case mapping, substring containment (`includes`),
    the set of all substrings of a string, and removal of every occurrence
    of a set of characters (a global `replace` with the empty string).
    Strings are sequences of Unicode code points. */
module Text {

  // Sequence identities, each proved on its own: used inside bigger proofs
  // they spare the solver an extensionality argument among many other facts.

  lemma SplitLast<T>(r: seq<T>)
    requires r != []
    ensures r == r[..|r| - 1] + [r[|r| - 1]]
  {
  }

  lemma SplitFirst<T>(r: seq<T>)
    requires r != []
    ensures r == [r[0]] + r[1..]
  {
  }

  lemma TailOfAppend<T>(a: seq<T>, b: seq<T>)
    requires a != []
    ensures (a + b)[1..] == a[1..] + b
  {
  }

  lemma AppendEmpty<T>(a: seq<T>)
    ensures a + [] == a && [] + a == a
  {
  }

  lemma AppendAssoc<T>(a: seq<T>, b: seq<T>, c: seq<T>)
    ensures a + b + c == a + (b + c)
  {
  }

  predicate IsUpper(c: char) { 'A' <= c <= 'Z' }

  predicate IsLowerLetter(c: char) { 'a' <= c <= 'z' }

  predicate IsLetter(c: char) { IsUpper(c) || IsLowerLetter(c) }

  predicate IsDigit(c: char) { '0' <= c <= '9' }

  /** The class `\w` of a JavaScript regular expression: `[A-Za-z0-9_]`. */
  predicate IsWordChar(c: char) { IsLetter(c) || IsDigit(c) || c == '_' }

  /** ASCII lower-casing of one character. */
  function LowerChar(c: char): (r: char)
    ensures !IsUpper(r)
    ensures IsUpper(c) ==> IsLowerLetter(r)
    ensures !IsUpper(c) ==> r == c
  {
    if IsUpper(c) then (c as int + 32) as char else c
  }

  /** `toLowerCase()`, restricted to the ASCII letters. */
  function Lower(s: string): (r: string)
    ensures |r| == |s|
    ensures forall i :: 0 <= i < |s| ==> r[i] == LowerChar(s[i])
  {
    seq(|s|, i requires 0 <= i < |s| => LowerChar(s[i]))
  }

  lemma LowerIdempotent(s: string)
    ensures Lower(Lower(s)) == Lower(s)
  {
  }

  lemma LowerAppend(a: string, b: string)
    ensures Lower(a + b) == Lower(a) + Lower(b)
  {
  }

  /** `s` occurs in `t` starting at position `i`. */
  predicate OccursAt(s: string, t: string, i: int)
  {
    0 <= i && i + |s| <= |t| && t[i..i + |s|] == s
  }

  /** `t.includes(s)` */
  predicate Contains(t: string, s: string)
  {
    exists i :: 0 <= i <= |t| && OccursAt(s, t, i)
  }

  /** Every non-empty contiguous substring `t.substring(i, j)`, `0 <= i < j <= |t|`. */
  function Subs(t: string): set<string>
  {
    set i, j | 0 <= i < j <= |t| :: t[i..j]
  }

  lemma SubsIsContains(t: string, s: string)
    ensures s in Subs(t) <==> s != [] && Contains(t, s)
  {
    if s in Subs(t) {
      var i, j :| 0 <= i < j <= |t| && t[i..j] == s;
      assert OccursAt(s, t, i);
    }
    if s != [] && Contains(t, s) {
      var i :| 0 <= i <= |t| && OccursAt(s, t, i);
      var j := i + |s|;
      assert 0 <= i < j <= |t| && t[i..j] == s;
      assert t[i..j] in Subs(t);
    }
  }

  lemma ContainsSelf(t: string)
    ensures Contains(t, t)
  {
    assert OccursAt(t, t, 0);
  }

  lemma ContainsEmpty(t: string)
    ensures Contains(t, "")
  {
    assert OccursAt("", t, 0);
  }

  /** `s` with every occurrence of a character of `cs` deleted; the others
      keep their order. */
  function RemoveChars(s: string, cs: set<char>): (r: string)
    ensures |r| <= |s|
    ensures forall i :: 0 <= i < |r| ==> r[i] !in cs
  {
    if s == [] then []
    else (if s[0] in cs then [] else [s[0]]) + RemoveChars(s[1..], cs)
  }

  lemma {:induction false} RemoveCharsAppend(a: string, b: string, cs: set<char>)
    ensures RemoveChars(a + b, cs) == RemoveChars(a, cs) + RemoveChars(b, cs)
  {
    if a == [] {
      AppendEmpty(b);
    } else {
      TailOfAppend(a, b);
      RemoveCharsAppend(a[1..], b, cs);
      AppendAssoc(if a[0] in cs then [] else [a[0]], RemoveChars(a[1..], cs), RemoveChars(b, cs));
    }
  }

  /** A string with none of the characters is left unchanged. */
  lemma {:induction false} RemoveCharsNoop(s: string, cs: set<char>)
    requires forall i :: 0 <= i < |s| ==> s[i] !in cs
    ensures RemoveChars(s, cs) == s
  {
    if s != [] {
      RemoveCharsNoop(s[1..], cs);
    }
  }

  lemma RemoveCharsIdempotent(s: string, cs: set<char>)
    ensures RemoveChars(RemoveChars(s, cs), cs) == RemoveChars(s, cs)
  {
    RemoveCharsNoop(RemoveChars(s, cs), cs);
  }

  /** Removing one set and then another is removing their union. */
  lemma {:induction false} RemoveCharsTwice(s: string, a: set<char>, b: set<char>)
    ensures RemoveChars(RemoveChars(s, a), b) == RemoveChars(s, a + b)
  {
    if s != [] {
      var head := if s[0] in a then [] else [s[0]];
      RemoveCharsTwice(s[1..], a, b);
      RemoveCharsAppend(head, RemoveChars(s[1..], a), b);
    }
  }

  /** Characters outside the set keep their number of occurrences; those in
      it disappear. */
  lemma {:induction false} RemoveCharsCounts(s: string, cs: set<char>, c: char)
    ensures multiset(RemoveChars(s, cs))[c] == if c in cs then 0 else multiset(s)[c]
  {
    if s != [] {
      RemoveCharsCounts(s[1..], cs, c);
      SplitFirst(s);
    }
  }

  /** Number of UTF-16 code units of one code point. */
  function Utf16Width(c: char): nat
  {
    if c as int > 0xFFFF then 2 else 1
  }

  /** JavaScript's `length`: the number of UTF-16 code units. */
  function Utf16Length(s: string): nat
  {
    if s == [] then 0 else Utf16Width(s[0]) + Utf16Length(s[1..])
  }

  /** Every character in `s` is ASCII. */
  predicate IsAscii(s: string)
  {
    forall i :: 0 <= i < |s| ==> s[i] as int < 0x80
  }
}
