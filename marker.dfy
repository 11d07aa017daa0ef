/** The callout marker at the start of a blockquote's first paragraph.

    A hand-written matcher for the JavaScript regular expression
    `^\s*\[!(\w+)\]\s*(.*)` (no flags), and the derivation of the callout
    type and title from its two captures. */
module Marker {

  datatype Option<T> = None | Some(value: T)

  /** JavaScript's `\s`: the WhiteSpace and LineTerminator characters. */
  predicate IsSpace(c: char) {
    ('\t' <= c <= '\r') || c == ' '
    || c == '\U{A0}' || c == '\U{1680}' || ('\U{2000}' <= c <= '\U{200A}')
    || c == '\U{2028}' || c == '\U{2029}' || c == '\U{202F}' || c == '\U{205F}'
    || c == '\U{3000}' || c == '\U{FEFF}'
  }

  /** JavaScript's `\w` without the `u` flag: ASCII letters, digits and `_`. */
  predicate IsWordChar(c: char) {
    'a' <= c <= 'z' || 'A' <= c <= 'Z' || '0' <= c <= '9' || c == '_'
  }

  /** The characters that `.` does not match. */
  predicate IsLineTerminator(c: char) {
    c == '\n' || c == '\r' || c == '\U{2028}' || c == '\U{2029}'
  }

  predicate NotLineTerminator(c: char) {
    !IsLineTerminator(c)
  }

  /** Every character of `s[lo..hi]` satisfies `p`. */
  predicate AllIn(s: string, lo: nat, hi: nat, p: char -> bool) {
    hi <= |s| && forall k :: lo <= k < hi ==> p(s[k])
  }

  /** `AllIn` checked one character at a time, which the verifier can
      evaluate on a literal string. */
  predicate AllFrom(s: string, lo: nat, hi: nat, p: char -> bool)
    requires hi <= |s|
    decreases hi - lo
  {
    lo >= hi || (p(s[lo]) && AllFrom(s, lo + 1, hi, p))
  }

  lemma {:induction false} AllFromIn(s: string, lo: nat, hi: nat, p: char -> bool)
    requires hi <= |s| && AllFrom(s, lo, hi, p)
    ensures AllIn(s, lo, hi, p)
    decreases hi - lo
  {
    if lo < hi {
      AllFromIn(s, lo + 1, hi, p);
    }
  }

  /** The end of the longest run of characters satisfying `p` from `i` on:
      what a greedy `p*` starting at `i` consumes. */
  function Span(s: string, i: nat, p: char -> bool): (j: nat)
    requires i <= |s|
    ensures i <= j <= |s|
    ensures AllIn(s, i, j, p)
    ensures j == |s| || !p(s[j])
    decreases |s| - i
  {
    if i < |s| && p(s[i]) then Span(s, i + 1, p) else i
  }

  /** A run that cannot be extended is the one `Span` finds. */
  lemma SpanUnique(s: string, i: nat, j: nat, p: char -> bool)
    requires i <= j
    requires AllIn(s, i, j, p)
    requires j == |s| || !p(s[j])
    ensures Span(s, i, p) == j
  {
  }

  /** A successful match, as positions in the text: `bracket` is where `[!`
      starts, after the leading whitespace; the word of capture 1 runs up to
      the `]` at `close`; capture 2 runs from `titleStart` to `end`, where the
      whole match ends. */
  datatype Match = Match(bracket: nat, close: nat, titleStart: nat, end: nat)

  /** `m` is the match of the pattern at the start of `s`: each part consumes
      what the pattern allows, and each greedy part stops only at a character
      it cannot take (the first `\s*` and `\w+` are stopped by `[` and `]`). */
  predicate Accepts(s: string, m: Match) {
    m.bracket + 2 < m.close < m.titleStart <= m.end <= |s|
    && AllIn(s, 0, m.bracket, IsSpace)
    && s[m.bracket] == '[' && s[m.bracket + 1] == '!'
    && AllIn(s, m.bracket + 2, m.close, IsWordChar)
    && s[m.close] == ']'
    && AllIn(s, m.close + 1, m.titleStart, IsSpace)
    && (m.titleStart == |s| || !IsSpace(s[m.titleStart]))
    && AllIn(s, m.titleStart, m.end, NotLineTerminator)
    && (m.end == |s| || IsLineTerminator(s[m.end]))
  }

  /** After optional leading whitespace, `s` starts with `[!`, one or more word
      characters and `]`. */
  predicate StartsWithMarker(s: string) {
    exists i: nat, j: nat ::
      i + 2 < j < |s| && AllIn(s, 0, i, IsSpace) && s[i] == '[' && s[i + 1] == '!'
      && AllIn(s, i + 2, j, IsWordChar) && s[j] == ']'
  }

  /** `text.match(/^\s*\[!(\w+)\]\s*(.*)/)`. */
  function MatchMarker(s: string): (r: Option<Match>)
    ensures r.Some? ==> Accepts(s, r.value)
  {
    var i := Span(s, 0, IsSpace);
    if i + 2 < |s| && s[i] == '[' && s[i + 1] == '!' then
      var j := Span(s, i + 2, IsWordChar);
      if i + 2 < j < |s| && s[j] == ']' then
        var g := Span(s, j + 1, IsSpace);
        Some(Match(i, j, g, Span(s, g, NotLineTerminator)))
      else None
    else None
  }

  /** The match is unique: `MatchMarker` finds exactly the match that `Accepts`
      describes, whenever there is one. */
  lemma MatchComplete(s: string, m: Match)
    requires Accepts(s, m)
    ensures MatchMarker(s) == Some(m)
  {
    SpanUnique(s, 0, m.bracket, IsSpace);
    SpanUnique(s, m.bracket + 2, m.close, IsWordChar);
    SpanUnique(s, m.close + 1, m.titleStart, IsSpace);
    SpanUnique(s, m.titleStart, m.end, NotLineTerminator);
    MatchFound(s, m);
  }

  /** The matcher's steps, with each greedy run already known. */
  lemma MatchFound(s: string, m: Match)
    requires m.bracket + 2 < m.close < |s| && m.close < m.titleStart <= |s|
    requires Span(s, 0, IsSpace) == m.bracket && s[m.bracket] == '[' && s[m.bracket + 1] == '!'
    requires Span(s, m.bracket + 2, IsWordChar) == m.close && s[m.close] == ']'
    requires Span(s, m.close + 1, IsSpace) == m.titleStart
    requires Span(s, m.titleStart, NotLineTerminator) == m.end
    ensures MatchMarker(s) == Some(m)
  {
  }

  /** `MatchMarker` returns `m` exactly when `m` is the leftmost, greedy match. */
  lemma MatchIsLeftmostGreedy(s: string, m: Match)
    ensures MatchMarker(s) == Some(m) <==> Accepts(s, m)
  {
    if Accepts(s, m) {
      MatchComplete(s, m);
    }
  }

  /** The pattern matches exactly when the text, after optional leading
      whitespace, starts with `[!`, a word and `]`. */
  lemma MatchSucceedsIff(s: string)
    ensures MatchMarker(s).Some? <==> StartsWithMarker(s)
  {
    if MatchMarker(s).Some? {
      MatchStartsWithMarker(s, MatchMarker(s).value);
    }
    if StartsWithMarker(s) {
      MarkerMatches(s);
    }
  }

  lemma MatchStartsWithMarker(s: string, m: Match)
    requires Accepts(s, m)
    ensures StartsWithMarker(s)
  {
    assert AllIn(s, 0, m.bracket, IsSpace) && AllIn(s, m.bracket + 2, m.close, IsWordChar);
  }

  lemma MarkerMatches(s: string)
    requires StartsWithMarker(s)
    ensures MatchMarker(s).Some?
  {
    var i: nat, j: nat :|
      i + 2 < j < |s| && AllIn(s, 0, i, IsSpace) && s[i] == '[' && s[i + 1] == '!'
      && AllIn(s, i + 2, j, IsWordChar) && s[j] == ']';
    SpanUnique(s, 0, i, IsSpace);
    SpanUnique(s, i + 2, j, IsWordChar);
  }

  /** Capture 1: the word between `[!` and `]`. */
  function Word(s: string, m: Match): string
    requires Accepts(s, m)
  {
    s[m.bracket + 2..m.close]
  }

  /** Capture 2: the rest of the title's line. */
  function Rest(s: string, m: Match): string
    requires Accepts(s, m)
  {
    s[m.titleStart..m.end]
  }

  /** Capture 2 is empty exactly when everything after the `]` is whitespace;
      when it is not empty it neither starts with whitespace nor holds a line
      break. So a blank remainder of the marker's line does not give an empty
      title when a later line has text: `\s*` runs on into that line. */
  lemma {:induction false} RestEmptyIff(s: string, m: Match)
    requires Accepts(s, m)
    ensures Rest(s, m) == [] <==> AllIn(s, m.close + 1, |s|, IsSpace)
    ensures Rest(s, m) != [] ==> !IsSpace(Rest(s, m)[0]) && !exists k :: 0 <= k < |Rest(s, m)| && IsLineTerminator(Rest(s, m)[k])
  {
    if Rest(s, m) == [] && m.end < |s| {
      assert false;
    }
    if Rest(s, m) != [] {
      assert !IsSpace(s[m.titleStart]);
      forall k | 0 <= k < |Rest(s, m)| ensures !IsLineTerminator(Rest(s, m)[k]) {
        assert Rest(s, m)[k] == s[m.titleStart + k];
      }
    }
  }

  function ToLower(c: char): char {
    if 'A' <= c <= 'Z' then (c as int + 32) as char else c
  }

  function ToUpper(c: char): char {
    if 'a' <= c <= 'z' then (c as int - 32) as char else c
  }

  /** `toLowerCase`, on the ASCII characters `\w` matches. */
  function LowerCase(w: string): string {
    seq(|w|, k requires 0 <= k < |w| => ToLower(w[k]))
  }

  /** `type = match[1].toLowerCase()`. */
  function CalloutType(s: string, m: Match): string
    requires Accepts(s, m)
  {
    LowerCase(Word(s, m))
  }

  /** `t.charAt(0).toUpperCase() + t.slice(1)`. */
  function Capitalize(t: string): string {
    if t == [] then [] else [ToUpper(t[0])] + t[1..]
  }

  /** `match[2] || Capitalize(type)`: the empty string is falsy. */
  function Title(s: string, m: Match): string
    requires Accepts(s, m)
  {
    if Rest(s, m) != [] then Rest(s, m) else Capitalize(CalloutType(s, m))
  }

  predicate IsLowerWordChar(c: char) {
    'a' <= c <= 'z' || '0' <= c <= '9' || c == '_'
  }

  /** The type is a non-empty word of lower-case letters, digits and `_`, and
      it is the captured word with case ignored. */
  lemma TypeIsLowerWord(s: string, m: Match)
    requires Accepts(s, m)
    ensures var t := CalloutType(s, m);
      t != [] && AllIn(t, 0, |t|, IsLowerWordChar) && LowerCase(t) == t
      && |t| == |Word(s, m)|
      && forall k :: 0 <= k < |t| ==> ToUpper(t[k]) == ToUpper(Word(s, m)[k])
  {
    var t := CalloutType(s, m);
    forall k | 0 <= k < |t|
      ensures IsLowerWordChar(t[k]) && ToUpper(t[k]) == ToUpper(Word(s, m)[k])
    {
      assert Word(s, m)[k] == s[m.bracket + 2 + k];
    }
  }

  /** The title is never empty: it is capture 2 when that is non-empty, and
      otherwise the type with its first character upper-cased, which
      lower-cases back to the type. */
  lemma TitleNonEmpty(s: string, m: Match)
    requires Accepts(s, m)
    ensures Title(s, m) != []
    ensures Rest(s, m) != [] ==> Title(s, m) == Rest(s, m)
    ensures Rest(s, m) == [] ==>
      var t := CalloutType(s, m);
      |Title(s, m)| == |t| && LowerCase(Title(s, m)) == t
      && Title(s, m)[1..] == t[1..] && !('a' <= Title(s, m)[0] <= 'z')
  {
    TypeIsLowerWord(s, m);
    if Rest(s, m) == [] {
      var t := CalloutType(s, m);
      assert IsLowerWordChar(t[0]);
      assert LowerCase(Title(s, m)) == t by {
        forall k | 0 <= k < |t| ensures LowerCase(Title(s, m))[k] == t[k] {
          if k > 0 {
            assert Title(s, m)[k] == t[k];
          }
        }
      }
    }
  }

  /** `text.replace(pattern, '')`: the matched prefix removed, or the text
      unchanged when nothing matches. */
  function Strip(s: string): string {
    match MatchMarker(s)
    case None => s
    case Some(m) => s[m.end..]
  }

  /** The strip removes exactly the matched prefix, so the text gets strictly
      shorter, and what is left is empty or starts with the line break that
      ends the title's line. */
  lemma StripRemovesMatch(s: string)
    ensures MatchMarker(s).None? ==> Strip(s) == s
    ensures MatchMarker(s).Some? ==>
      var m := MatchMarker(s).value;
      s == s[..m.end] + Strip(s) && |Strip(s)| < |s|
      && (Strip(s) == [] || IsLineTerminator(Strip(s)[0]))
  {
    if MatchMarker(s).Some? {
      var m := MatchMarker(s).value;
      assert s == s[..m.end] + s[m.end..];
    }
  }

  lemma ExampleNoteMatches()
    ensures MatchMarker("[!note] Hi") == Some(Match(0, 6, 8, 10))
  {
    var s := "[!note] Hi";
    assert s[0] == '[' && s[1] == '!' && s[6] == ']' && s[8] == 'H';
    AllFromIn(s, 2, 6, IsWordChar);
    AllFromIn(s, 7, 8, IsSpace);
    AllFromIn(s, 8, 10, NotLineTerminator);
    MatchComplete(s, Match(0, 6, 8, 10));
  }

  /** `[!note] Hi`: type `note`, title `Hi`, and nothing left after the
      strip. */
  lemma ExampleNoteMarker()
    ensures var s := "[!note] Hi";
      var m := Match(0, 6, 8, 10);
      && MatchMarker(s) == Some(m)
      && CalloutType(s, m) == "note" && Title(s, m) == "Hi" && Strip(s) == []
  {
    ExampleNoteMatches();
    assert Word("[!note] Hi", Match(0, 6, 8, 10)) == "note";
  }

  lemma ExampleWarningMatches()
    ensures MatchMarker("[!WARNING]") == Some(Match(0, 9, 10, 10))
  {
    var s := "[!WARNING]";
    assert s[0] == '[' && s[1] == '!' && s[9] == ']';
    AllFromIn(s, 2, 9, IsWordChar);
    MatchComplete(s, Match(0, 9, 10, 10));
  }

  /** `[!WARNING]`: type `warning`, and the title is the capitalised type. */
  lemma ExampleWarningMarker()
    ensures var s := "[!WARNING]";
      var m := Match(0, 9, 10, 10);
      && MatchMarker(s) == Some(m)
      && CalloutType(s, m) == "warning" && Title(s, m) == "Warning" && Strip(s) == []
  {
    ExampleWarningMatches();
    assert Word("[!WARNING]", Match(0, 9, 10, 10)) == "WARNING";
  }

  lemma ExampleNestedMatches()
    ensures MatchMarker("[!note] [!tip]") == Some(Match(0, 6, 8, 14))
  {
    var s := "[!note] [!tip]";
    assert s[0] == '[' && s[1] == '!' && s[6] == ']' && s[8] == '[';
    AllFromIn(s, 2, 6, IsWordChar);
    AllFromIn(s, 7, 8, IsSpace);
    AllFromIn(s, 8, 14, NotLineTerminator);
    MatchComplete(s, Match(0, 6, 8, 14));
  }

  /** `[!note] [!tip]` has the title `[!tip]`, which itself starts with a
      marker. */
  lemma ExampleNestedMarker()
    ensures var s := "[!note] [!tip]";
      var m := Match(0, 6, 8, 14);
      && MatchMarker(s) == Some(m) && Title(s, m) == "[!tip]"
      && StartsWithMarker(Title(s, m))
  {
    ExampleNestedMatches();
    var t := "[!tip]";
    assert Title("[!note] [!tip]", Match(0, 6, 8, 14)) == t;
    assert StartsWithMarker(t) by {
      assert t[0] == '[' && t[1] == '!' && t[5] == ']';
      assert AllIn(t, 0, 0, IsSpace);
      AllFromIn(t, 2, 5, IsWordChar);
    }
  }
}
