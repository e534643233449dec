/** The browser-side guards of the board's script: the forbidden-word list
    and its check, the validation prefix shared by post and comment
    submission, and the two-state sort toggle that picks the listing
    endpoint. Everything that touches the DOM, `fetch` or timers is outside
    this module. */
module Client {
  import opened Text

  /** `forbiddenWords`, in source order (23 entries). */
  const ForbiddenWords: seq<string> := [
    "<script", "<iframe", "<img", "<link", "<meta",
    "javascript:", "onerror=", "onload=", "document.cookie",
    "fetch(", "XMLHttpRequest", "$.ajax(",
    "eval(", "Function(", "setTimeout(", "setInterval(",
    "' OR 1=1 --", "' DROP TABLE", "' UNION SELECT",
    "console.log", "window.alert", "window.location", "debugger"
  ]

  /** Positions of the entries that contain an upper-case letter. */
  const UpperCaseEntries: set<int> := {10, 13, 14, 15, 16, 17, 18}

  /** `words.some(word => haystack.includes(word))`, scanning the list in order. */
  function AnyIncluded(haystack: string, words: seq<string>): (r: bool)
    ensures r <==> exists k :: 0 <= k < |words| && IsSubstring(words[k], haystack)
  {
    if words == [] then false
    else if Includes(haystack, words[0]) then true
    else
      var r := AnyIncluded(haystack, words[1..]);
      assert forall k :: 1 <= k < |words| ==> words[k] == words[1..][k - 1];
      r
  }

  /** `containsForbiddenWords(text)`: the text is lower-cased, the entries are not. */
  function ContainsForbiddenWords(text: string): (r: bool)
    ensures r <==> exists k :: 0 <= k < |ForbiddenWords| && IsSubstring(ForbiddenWords[k], Lower(text))
  {
    AnyIncluded(Lower(text), ForbiddenWords)
  }

  /** The seven entries at `UpperCaseEntries` contain an upper-case letter. */
  lemma UpperCaseEntriesHaveUpper()
    ensures forall k :: k in UpperCaseEntries ==> 0 <= k < |ForbiddenWords| && HasUpper(ForbiddenWords[k])
  {
    assert IsUpper(ForbiddenWords[10][0]);
    assert IsUpper(ForbiddenWords[13][0]);
    assert IsUpper(ForbiddenWords[14][3]);
    assert IsUpper(ForbiddenWords[15][3]);
    assert IsUpper(ForbiddenWords[16][2]);
    assert IsUpper(ForbiddenWords[17][2]);
    assert IsUpper(ForbiddenWords[18][2]);
  }

  /** The other sixteen entries are all lower-case. */
  lemma OtherEntriesAreLowerCase()
    ensures forall k :: 0 <= k < |ForbiddenWords| && k !in UpperCaseEntries ==> !HasUpper(ForbiddenWords[k])
  {
    forall k | 0 <= k < |ForbiddenWords| && k !in UpperCaseEntries
      ensures !HasUpper(ForbiddenWords[k])
    {
      var w := ForbiddenWords[k];
      assert forall i :: 0 <= i < |w| ==> !IsUpper(w[i]);
    }
  }

  /** Exactly seven entries contain an upper-case letter, and none of them can
      ever match, because the text they are compared with has been lower-cased. */
  lemma UpperCaseEntriesNeverMatch(text: string)
    ensures forall k :: 0 <= k < |ForbiddenWords| ==> (HasUpper(ForbiddenWords[k]) <==> k in UpperCaseEntries)
    ensures forall k :: 0 <= k < |ForbiddenWords| && HasUpper(ForbiddenWords[k]) ==> !IsSubstring(ForbiddenWords[k], Lower(text))
  {
    UpperCaseEntriesHaveUpper();
    OtherEntriesAreLowerCase();
    forall k | 0 <= k < |ForbiddenWords| && HasUpper(ForbiddenWords[k])
      ensures !IsSubstring(ForbiddenWords[k], Lower(text))
    {
      UpperNeverInLower(ForbiddenWords[k], text);
    }
  }

  /** The check only ever fires on one of the sixteen all-lower-case entries. */
  lemma ContainsForbiddenOnlyViaLowerCaseEntries(text: string)
    ensures ContainsForbiddenWords(text) <==>
      exists k :: 0 <= k < |ForbiddenWords| && k !in UpperCaseEntries && IsSubstring(ForbiddenWords[k], Lower(text))
  {
    UpperCaseEntriesNeverMatch(text);
  }

  /** Each all-lower-case entry holds a character that "xmlhttprequest" lacks.
      The text is a parameter equal to the literal so that the verifier does not
      unfold the substring search on a literal argument. */
  lemma LowerCaseEntriesMissXhr(lower: string)
    requires lower == "xmlhttprequest"
    ensures forall k :: 0 <= k < |ForbiddenWords| && k !in UpperCaseEntries ==> !IsSubstring(ForbiddenWords[k], lower)
  {
    forall k | 0 <= k < |ForbiddenWords| && k !in UpperCaseEntries
      ensures !IsSubstring(ForbiddenWords[k], lower)
    {
      var w := ForbiddenWords[k];
      var c := if k <= 4 then '<'
        else if k == 5 then ':'
        else if k == 6 || k == 7 then '='
        else if k == 9 || k == 11 || k == 12 then '('
        else if k == 22 then 'd'
        else '.';
      assert c in w;
      MissingCharBlocksSubstring(w, lower, c);
    }
  }

  /** A text that is exactly the list's own entry "XMLHttpRequest" is not
      flagged. The text is a parameter equal to that entry so that the verifier
      does not unfold the check on a literal argument. */
  lemma XmlHttpRequestNotFlagged(text: string)
    requires text == ForbiddenWords[10]
    ensures IsSubstring(ForbiddenWords[10], text)
    ensures !ContainsForbiddenWords(text)
  {
    assert OccursAt(ForbiddenWords[10], text, 0);
    assert Lower(text) == "xmlhttprequest";
    LowerCaseEntriesMissXhr(Lower(text));
    ContainsForbiddenOnlyViaLowerCaseEntries(text);
  }

  /** The entries lower-cased, as the check evidently meant to compare them. */
  function LowerAll(words: seq<string>): (r: seq<string>)
    ensures |r| == |words|
    ensures forall k :: 0 <= k < |words| ==> r[k] == Lower(words[k])
  {
    seq(|words|, k requires 0 <= k < |words| => Lower(words[k]))
  }

  /** Corrected check: both the text and the entries are lower-cased, so the
      comparison is case-insensitive on both sides. */
  function ContainsForbiddenWordsFixed(text: string): (r: bool)
    ensures r <==> exists k :: 0 <= k < |ForbiddenWords| && IsSubstring(Lower(ForbiddenWords[k]), Lower(text))
  {
    AnyIncluded(Lower(text), LowerAll(ForbiddenWords))
  }

  /** The corrected check flags a text containing any entry in any letter case,
      the upper-case entries included. */
  lemma FixedCatchesEveryEntry(text: string, k: int, w: string)
    requires 0 <= k < |ForbiddenWords|
    requires Lower(w) == Lower(ForbiddenWords[k])
    requires IsSubstring(w, text)
    ensures ContainsForbiddenWordsFixed(text)
  {
    SubstringOfLower(w, text);
  }

  /** The corrected check flags everything the check as written flags. */
  lemma FixedExtendsAsWritten(text: string)
    ensures ContainsForbiddenWords(text) ==> ContainsForbiddenWordsFixed(text)
  {
    if ContainsForbiddenWords(text) {
      var k :| 0 <= k < |ForbiddenWords| && IsSubstring(ForbiddenWords[k], Lower(text));
      UpperCaseEntriesNeverMatch(text);
      LowerFixesExactlyLowerCase(ForbiddenWords[k]);
    }
  }

  /** The outcome of the validation that opens `submitPost` and `submitComment`. */
  datatype Verdict =
    | Blank             // alert: text required
    | Forbidden         // alert: forbidden word
    | Send(text: string)  // the untrimmed text goes into the request body

  /** `!text.trim()` is tested first, then `containsForbiddenWords(text)`;
      only a text passing both is sent, and it is sent as typed. */
  function CheckSubmission(text: string): (v: Verdict)
    ensures v == Blank <==> AllSpace(text)
    ensures v == Forbidden <==>
      !AllSpace(text) && exists k :: 0 <= k < |ForbiddenWords| && IsSubstring(ForbiddenWords[k], Lower(text))
    ensures v.Send? ==> v.text == text
  {
    TrimEmptyIffAllSpace(text);
    if Trim(text) == [] then Blank
    else if ContainsForbiddenWords(text) then Forbidden
    else Send(text)
  }

  /** Whatever the page sends has at least one non-whitespace character. */
  lemma SentTextIsNotBlank(text: string)
    ensures CheckSubmission(text).Send? ==> !AllSpace(text) && text != []
  {
  }

  /** A whitespace-only text never contains a forbidden word, so the order of
      the two checks cannot change which texts are sent. */
  lemma BlankNeverForbidden(text: string)
    requires AllSpace(text)
    ensures !ContainsForbiddenWords(text)
  {
    var lower := Lower(text);
    forall k | 0 <= k < |ForbiddenWords|
      ensures !IsSubstring(ForbiddenWords[k], lower)
    {
      var w := ForbiddenWords[k];
      assert !IsJsSpace(w[0]);
      assert w[0] !in lower;
      MissingCharBlocksSubstring(w, lower, w[0]);
    }
  }

  /** `toggleSort`: "latest" becomes "ranking", anything else becomes "latest". */
  function ToggleSort(current: string): (next: string)
    ensures next == "latest" || next == "ranking"
    ensures next == "latest" <==> current != "latest"
  {
    if current == "latest" then "ranking" else "latest"
  }

  /** The endpoint `loadPosts` fetches for a sort mode. */
  function EndpointFor(current: string): (endpoint: string)
    ensures endpoint == "/posts" || endpoint == "/ranking"
    ensures endpoint == "/posts" <==> current == "latest"
  {
    if current == "latest" then "/posts" else "/ranking"
  }

  /** Toggling twice restores exactly the two modes the page can be in. */
  lemma ToggleTwice(current: string)
    ensures ToggleSort(ToggleSort(current)) == current <==> current == "latest" || current == "ranking"
  {
  }

  /** The sort mode after `n` clicks, starting from the initial "latest". */
  function SortAfter(n: nat): string {
    if n == 0 then "latest" else ToggleSort(SortAfter(n - 1))
  }

  /** After `n` clicks the page lists newest first exactly when `n` is even. */
  lemma {:induction false} SortAfterParity(n: nat)
    ensures SortAfter(n) == (if n % 2 == 0 then "latest" else "ranking")
    ensures EndpointFor(SortAfter(n)) == (if n % 2 == 0 then "/posts" else "/ranking")
  {
    if n > 0 {
      SortAfterParity(n - 1);
    }
  }
}
