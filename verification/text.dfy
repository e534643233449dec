/** String primitives behind the client-side guards of the board's script:
    ASCII lower-casing (`toLowerCase`), substring search (`includes`),
    whitespace trimming (`trim`) and character counting. JavaScript strings
    are sequences of UTF-16 code units; here they are `seq<char>`. */
module Text {

  /** An ASCII upper-case letter; the only characters `Lower` changes. */
  predicate IsUpper(c: char) {
    'A' <= c <= 'Z'
  }

  /** True when some character of `s` is an ASCII upper-case letter. */
  predicate HasUpper(s: string) {
    exists i :: 0 <= i < |s| && IsUpper(s[i])
  }

  /** The lower-case ASCII letters in alphabetical order. */
  const LowerLetters: string := "abcdefghijklmnopqrstuvwxyz"

  /** `toLowerCase` of one character, restricted to ASCII: a capital becomes
      the letter at the same place of the alphabet, anything else stays. */
  function LowerChar(c: char): (r: char)
    ensures !IsUpper(r)
    ensures r == c <==> !IsUpper(c)
    ensures IsUpper(c) ==> r == LowerLetters[c as int - 'A' as int]
  {
    if IsUpper(c) then (c as int + 32) as char else c
  }

  /** `toLowerCase` of a string, restricted to ASCII: every capital is replaced
      by its lower-case letter and every other character is kept in place. */
  function Lower(s: string): (r: string)
    ensures |r| == |s| && !HasUpper(r)
    ensures forall i :: 0 <= i < |s| ==> (r[i] == s[i] <==> !IsUpper(s[i]))
    ensures forall i :: 0 <= i < |s| && IsUpper(s[i]) ==> r[i] == LowerLetters[s[i] as int - 'A' as int]
  {
    seq(|s|, i requires 0 <= i < |s| => LowerChar(s[i]))
  }

  /** A lower-cased string has no upper-case letter, so lower-casing it again changes nothing. */
  lemma LowerIsIdempotent(s: string)
    ensures !HasUpper(Lower(s))
    ensures Lower(Lower(s)) == Lower(s)
  {
  }

  /** A string without upper-case letters is its own lower-case form, and only such a string is. */
  lemma LowerFixesExactlyLowerCase(s: string)
    ensures Lower(s) == s <==> !HasUpper(s)
  {
    if HasUpper(s) {
      var i :| 0 <= i < |s| && IsUpper(s[i]);
      assert Lower(s)[i] != s[i];
    }
  }

  /** Lower-casing commutes with taking a slice. */
  lemma LowerOfSlice(s: string, a: nat, b: nat)
    requires a <= b <= |s|
    ensures Lower(s[a..b]) == Lower(s)[a..b]
  {
  }

  /** `w` occurs in `t` starting at position `i`. */
  predicate OccursAt(w: string, t: string, i: nat) {
    i + |w| <= |t| && t[i..i + |w|] == w
  }

  /** `w` is a substring of `t`: what `t.includes(w)` answers. */
  ghost predicate IsSubstring(w: string, t: string) {
    exists i: nat :: OccursAt(w, t, i)
  }

  /** Scans the start positions of `t` from `i` on for an occurrence of `w`. */
  function IncludesFrom(t: string, w: string, i: nat): (r: bool)
    requires i <= |t|
    ensures r <==> exists j: nat :: i <= j && OccursAt(w, t, j)
    decreases |t| - i
  {
    if i + |w| > |t| then false
    else if t[i..i + |w|] == w then
      assert OccursAt(w, t, i);
      true
    else
      var r := IncludesFrom(t, w, i + 1);
      assert forall j: nat :: i <= j && OccursAt(w, t, j) ==> j == i || i + 1 <= j;
      r
  }

  /** `t.includes(w)`: a left-to-right scan of every start position. */
  function Includes(t: string, w: string): (r: bool)
    ensures r <==> IsSubstring(w, t)
  {
    IncludesFrom(t, w, 0)
  }

  /** A substring survives lower-casing of both sides. */
  lemma SubstringOfLower(w: string, t: string)
    requires IsSubstring(w, t)
    ensures IsSubstring(Lower(w), Lower(t))
  {
    var i: nat :| OccursAt(w, t, i);
    LowerOfSlice(t, i, i + |w|);
    assert OccursAt(Lower(w), Lower(t), i);
  }

  /** A string holding a character that `t` lacks is not a substring of `t`. */
  lemma MissingCharBlocksSubstring(w: string, t: string, c: char)
    requires c in w && c !in t
    ensures !IsSubstring(w, t)
  {
    var k :| 0 <= k < |w| && w[k] == c;
    forall i: nat
      ensures !OccursAt(w, t, i)
    {
      if i + |w| <= |t| {
        assert t[i..i + |w|][k] != w[k];
      }
    }
  }

  /** No string with an upper-case letter occurs in a lower-cased text. */
  lemma UpperNeverInLower(w: string, t: string)
    requires HasUpper(w)
    ensures !IsSubstring(w, Lower(t))
  {
    var k :| 0 <= k < |w| && IsUpper(w[k]);
    forall i: nat
      ensures !OccursAt(w, Lower(t), i)
    {
      if i + |w| <= |t| {
        assert Lower(t)[i..i + |w|][k] != w[k];
      }
    }
  }

  /** The characters JavaScript's `trim` removes: WhiteSpace and LineTerminator
      of section 12.2 and 12.3 of ECMA-262 (tab, line feed, vertical tab, form
      feed, carriage return, space, no-break space, the Unicode space
      separators, line and paragraph separators, and the byte order mark). */
  predicate IsJsSpace(c: char) {
    || c == '\t' || c == '\n' || c == '\U{000B}' || c == '\U{000C}' || c == '\r'
    || c == ' ' || c == '\U{00A0}' || c == '\U{1680}'
    || ('\U{2000}' <= c <= '\U{200A}')
    || c == '\U{2028}' || c == '\U{2029}' || c == '\U{202F}' || c == '\U{205F}'
    || c == '\U{3000}' || c == '\U{FEFF}'
  }

  /** Every character of `s` is whitespace (the empty string included). */
  predicate AllSpace(s: string) {
    forall i :: 0 <= i < |s| ==> IsJsSpace(s[i])
  }

  /** Drops the leading whitespace of `s`. */
  function TrimStart(s: string): (r: string)
    ensures |r| <= |s| && r == s[|s| - |r|..]
    ensures r == [] || !IsJsSpace(r[0])
    ensures AllSpace(s[..|s| - |r|])
  {
    if s != [] && IsJsSpace(s[0]) then
      var r := TrimStart(s[1..]);
      assert s[..|s| - |r|] == [s[0]] + s[1..][..|s| - 1 - |r|];
      r
    else s
  }

  /** Drops the trailing whitespace of `s`. */
  function TrimEnd(s: string): (r: string)
    ensures |r| <= |s| && r == s[..|r|]
    ensures r == [] || !IsJsSpace(r[|r| - 1])
    ensures AllSpace(s[|r|..])
  {
    if s != [] && IsJsSpace(s[|s| - 1]) then
      var r := TrimEnd(s[..|s| - 1]);
      assert s[|r|..] == s[..|s| - 1][|r|..] + [s[|s| - 1]];
      r
    else s
  }

  /** `s.trim()`: the text with whitespace removed at both ends. */
  function Trim(s: string): (r: string)
    ensures |r| <= |s|
    ensures r == [] || (!IsJsSpace(r[0]) && !IsJsSpace(r[|r| - 1]))
  {
    TrimEnd(TrimStart(s))
  }

  /** Trimming leaves nothing exactly when the text is whitespace only. */
  lemma TrimEmptyIffAllSpace(s: string)
    ensures Trim(s) == [] <==> AllSpace(s)
  {
    var a := TrimStart(s);
    assert a != [] ==> a[0] == s[|s| - |a|];
    if Trim(s) == [] {
      assert AllSpace(a[0..]);
      assert s == s[..|s| - |a|] + a;
    }
  }

  /** Number of occurrences of `c` in `s`. */
  function Count(s: string, c: char): (n: nat)
    ensures n <= |s|
    ensures n == 0 <==> c !in s
  {
    if s == [] then 0
    else (if s[0] == c then 1 else 0) + Count(s[1..], c)
  }
}
