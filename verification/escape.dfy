/** The client's `escapeHTML`: four global `replace` passes that turn `<`,
    `>`, `"` and `'` into entities before a text is put into `innerHTML`.
    The ampersand is deliberately not among them, which is what makes the
    escaping idempotent. */
module Escape {
  import opened Text

  /** The characters `escapeHTML` rewrites. */
  predicate IsMarkup(c: char) {
    c == '<' || c == '>' || c == '"' || c == '\''
  }

  /** No character of `s` is one `escapeHTML` rewrites. */
  predicate IsPlain(s: string) {
    forall i :: 0 <= i < |s| ==> !IsMarkup(s[i])
  }

  /** `s.replace(/c/g, rep)`: every occurrence of the single character `c`
      replaced by `rep`, scanning left to right. */
  function ReplaceAll(s: string, c: char, rep: string): (r: string)
    ensures c !in rep ==> c !in r
    ensures forall x :: x in r ==> x in s || x in rep
  {
    if s == [] then []
    else (if s[0] == c then rep else [s[0]]) + ReplaceAll(s[1..], c, rep)
  }

  /** `escapeHTML(str)` exactly as written: `<` first, then `>`, `"` and `'`. */
  function EscapeHTML(s: string): (r: string)
    ensures IsPlain(r)
  {
    var s1 := ReplaceAll(s, '<', "&lt;");
    var s2 := ReplaceAll(s1, '>', "&gt;");
    var s3 := ReplaceAll(s2, '"', "&quot;");
    var r := ReplaceAll(s3, '\'', "&#039;");
    assert '<' !in s1;
    assert '<' !in s2 && '>' !in s2;
    assert '<' !in s3 && '>' !in s3 && '"' !in s3;
    assert '<' !in r && '>' !in r && '"' !in r && '\'' !in r;
    assert forall i :: 0 <= i < |r| ==> r[i] in r;
    r
  }

  /** Reference definition: the entity (or the character itself) each
      character becomes. */
  function EscapeChar(c: char): string {
    match c
    case '<' => "&lt;"
    case '>' => "&gt;"
    case '"' => "&quot;"
    case '\'' => "&#039;"
    case _ => [c]
  }

  /** Reference definition: `EscapeChar` applied to each character in turn. */
  function EscapeEach(s: string): string {
    if s == [] then [] else EscapeChar(s[0]) + EscapeEach(s[1..])
  }

  lemma {:induction false} ReplaceAllConcat(a: string, b: string, c: char, rep: string)
    ensures ReplaceAll(a + b, c, rep) == ReplaceAll(a, c, rep) + ReplaceAll(b, c, rep)
  {
    if a == [] {
      assert a + b == b;
    } else {
      assert (a + b)[1..] == a[1..] + b;
      ReplaceAllConcat(a[1..], b, c, rep);
    }
  }

  lemma {:induction false} ReplaceAllAbsent(s: string, c: char, rep: string)
    requires c !in s
    ensures ReplaceAll(s, c, rep) == s
  {
    if s != [] {
      assert s == [s[0]] + s[1..];
      ReplaceAllAbsent(s[1..], c, rep);
    }
  }

  /** Escaping distributes over concatenation: `escapeHTML(a + b) == escapeHTML(a) + escapeHTML(b)`. */
  lemma EscapeConcat(a: string, b: string)
    ensures EscapeHTML(a + b) == EscapeHTML(a) + EscapeHTML(b)
  {
    var a1, b1 := ReplaceAll(a, '<', "&lt;"), ReplaceAll(b, '<', "&lt;");
    var a2, b2 := ReplaceAll(a1, '>', "&gt;"), ReplaceAll(b1, '>', "&gt;");
    var a3, b3 := ReplaceAll(a2, '"', "&quot;"), ReplaceAll(b2, '"', "&quot;");
    ReplaceAllConcat(a, b, '<', "&lt;");
    ReplaceAllConcat(a1, b1, '>', "&gt;");
    ReplaceAllConcat(a2, b2, '"', "&quot;");
    ReplaceAllConcat(a3, b3, '\'', "&#039;");
  }

  lemma ReplaceAllSingle(x: char, c: char, rep: string)
    ensures ReplaceAll([x], c, rep) == if x == c then rep else [x]
  {
    assert [x][1..] == [];
  }

  /** The four passes on one character, named pass by pass. */
  lemma EscapeOneCharPasses(c: char) returns (s1: string, s2: string, s3: string)
    ensures s1 == ReplaceAll([c], '<', "&lt;") == if c == '<' then "&lt;" else [c]
    ensures s2 == ReplaceAll(s1, '>', "&gt;")
    ensures s3 == ReplaceAll(s2, '"', "&quot;")
    ensures EscapeHTML([c]) == ReplaceAll(s3, '\'', "&#039;")
  {
    s1 := ReplaceAll([c], '<', "&lt;");
    s2 := ReplaceAll(s1, '>', "&gt;");
    s3 := ReplaceAll(s2, '"', "&quot;");
    ReplaceAllSingle(c, '<', "&lt;");
  }

  /** A text without `>`, `"` and `'` passes the last three replacements unchanged. */
  lemma LastThreeKeep(e: string)
    requires '>' !in e && '"' !in e && '\'' !in e
    ensures ReplaceAll(ReplaceAll(ReplaceAll(e, '>', "&gt;"), '"', "&quot;"), '\'', "&#039;") == e
  {
    ReplaceAllAbsent(e, '>', "&gt;");
    ReplaceAllAbsent(e, '"', "&quot;");
    ReplaceAllAbsent(e, '\'', "&#039;");
  }

  /** A text without `"` and `'` passes the last two replacements unchanged. */
  lemma LastTwoKeep(e: string)
    requires '"' !in e && '\'' !in e
    ensures ReplaceAll(ReplaceAll(e, '"', "&quot;"), '\'', "&#039;") == e
  {
    ReplaceAllAbsent(e, '"', "&quot;");
    ReplaceAllAbsent(e, '\'', "&#039;");
  }

  lemma EscapeLessThan(c: char)
    requires c == '<'
    ensures EscapeHTML([c]) == "&lt;"
  {
    var s1, s2, s3 := EscapeOneCharPasses(c);
    LastThreeKeep(s1);
  }

  lemma EscapeGreaterThan(c: char)
    requires c == '>'
    ensures EscapeHTML([c]) == "&gt;"
  {
    var s1, s2, s3 := EscapeOneCharPasses(c);
    ReplaceAllSingle(c, '>', "&gt;");
    LastTwoKeep(s2);
  }

  lemma EscapeQuote(c: char)
    requires c == '"'
    ensures EscapeHTML([c]) == "&quot;"
  {
    var s1, s2, s3 := EscapeOneCharPasses(c);
    ReplaceAllSingle(c, '>', "&gt;");
    ReplaceAllSingle(c, '"', "&quot;");
    ReplaceAllAbsent(s3, '\'', "&#039;");
  }

  lemma EscapeOtherChar(c: char)
    requires c != '<' && c != '>' && c != '"'
    ensures EscapeHTML([c]) == if c == '\'' then "&#039;" else [c]
  {
    var s1, s2, s3 := EscapeOneCharPasses(c);
    ReplaceAllSingle(c, '>', "&gt;");
    ReplaceAllSingle(c, '"', "&quot;");
    ReplaceAllSingle(c, '\'', "&#039;");
  }

  /** On a single character the four passes produce that character's entity. */
  lemma EscapeOneChar(c: char)
    ensures EscapeHTML([c]) == EscapeChar(c)
  {
    if c == '<' {
      EscapeLessThan(c);
    } else if c == '>' {
      EscapeGreaterThan(c);
    } else if c == '"' {
      EscapeQuote(c);
    } else {
      EscapeOtherChar(c);
    }
  }

  /** The chain of four replacements is the per-character map `EscapeEach`. */
  lemma {:induction false} EscapeIsPerChar(s: string)
    ensures EscapeHTML(s) == EscapeEach(s)
  {
    if s == [] {
    } else {
      assert s == [s[0]] + s[1..];
      EscapeConcat([s[0]], s[1..]);
      EscapeOneChar(s[0]);
      EscapeIsPerChar(s[1..]);
    }
  }

  /** A text without `<`, `>`, `"` or `'` (ampersands included) comes back unchanged. */
  lemma EscapeKeepsPlain(s: string)
    requires IsPlain(s)
    ensures EscapeHTML(s) == s
  {
    ReplaceAllAbsent(s, '<', "&lt;");
    ReplaceAllAbsent(s, '>', "&gt;");
    ReplaceAllAbsent(s, '"', "&quot;");
    ReplaceAllAbsent(s, '\'', "&#039;");
  }

  /** Escaping twice is escaping once. */
  lemma EscapeIdempotent(s: string)
    ensures EscapeHTML(EscapeHTML(s)) == EscapeHTML(s)
  {
    EscapeKeepsPlain(EscapeHTML(s));
  }

  /** The output length: each `<` and `>` grows by 3, each `"` and `'` by 5. */
  lemma {:induction false} EscapeLength(s: string)
    ensures |EscapeHTML(s)| == |s| + 3 * Count(s, '<') + 3 * Count(s, '>')
                                   + 5 * Count(s, '"') + 5 * Count(s, '\'')
  {
    if s != [] {
      assert s == [s[0]] + s[1..];
      EscapeConcat([s[0]], s[1..]);
      EscapeOneChar(s[0]);
      EscapeLength(s[1..]);
    }
  }

  /** `escapeHTML` returns its input exactly when the input has none of the four characters. */
  lemma EscapeFixedIffPlain(s: string)
    ensures EscapeHTML(s) == s <==> IsPlain(s)
  {
    if IsPlain(s) {
      EscapeKeepsPlain(s);
    } else {
      var i :| 0 <= i < |s| && IsMarkup(s[i]);
      EscapeLength(s);
      assert s[i] in s;
      assert Count(s, s[i]) > 0;
    }
  }

  /** A plain text wrapped in angle brackets keeps its body and gets entities for the brackets. */
  lemma EscapeTag(t: string)
    requires IsPlain(t)
    ensures EscapeHTML(['<'] + t + ['>']) == "&lt;" + t + "&gt;"
  {
    EscapeConcat(['<'] + t, ['>']);
    EscapeConcat(['<'], t);
    EscapeOneChar('<');
    EscapeOneChar('>');
    EscapeKeepsPlain(t);
  }

  /** The opening tag `<script>` is rendered as inert text. The tag is a
      parameter equal to the literal so that the verifier does not unfold the
      recursive replacements on a literal argument. */
  lemma EscapeScriptTag(tag: string)
    requires tag == "<script>"
    ensures EscapeHTML(tag) == "&lt;script&gt;"
  {
    var body := "script";
    assert IsPlain(body);
    assert tag == ['<'] + body + ['>'];
    EscapeTag(body);
  }
}
