# Obsidian-style callouts, modelled in Dafny

The site's one piece of logic is a browser script. It turns Obsidian-style
blockquotes into titled, classed callout boxes. For every `blockquote` in
document order, the script:

- finds the first `p` or `div` below it;
- matches that element's text against `^\s*\[!(\w+)\]\s*(.*)`;
- on a match:
  - derives the callout type (the word, lower-cased);
  - derives the title (the rest of the line, or else the capitalised type);
  - sets the element's text to what follows the match, which also removes every element below it;
  - adds the classes `callout` and `callout-<type>`;
  - inserts a `div.callout-title` holding the title just before the element.

The project has two modules:

- `Marker` (`marker.dfy`) is the pure part. It contains:
  - a hand-written matcher for the pattern, with JavaScript's `\s` (WhiteSpace and LineTerminator), ASCII `\w`, and `.` that stops at line terminators;
  - the type and title derivation;
  - the strip.

  `MatchMarker` returns the match as positions in the text. The predicate `Accepts` gives an independent description of the leftmost, greedy match, and the two are proved to agree on every input.
- `Callouts` (`callouts.dfy`) is the rewrite. A blockquote is a class list plus the elements below it, in document order. Each element has a depth, where 1 means a child of the blockquote.
  - The function `Enhanced` specifies one call of the `forEach` callback.
  - The class `Block` holds a blockquote that is changed in place. Its method `Enhance` is proved to match `Enhanced`.
  - The method `EnhanceAll` runs the loop over all blockquotes.

  When the located element is not a direct child, `insertBefore` throws. By then the text has already been stripped and the classes added, and the whole `forEach` stops. The model keeps this failure: `Effect.threw` records it, and `EnhanceAll` returns the index where the pass stopped.

Properties of the pattern that the proofs make precise:
- The second `\s*` can run across line breaks. So when the rest of the marker's line is blank, capture 2 is the next non-blank line.
- Capture 2 is empty only when everything after the `]` is whitespace.
- The text left after the strip is empty or starts with a line break.

A second pass is not always harmless. After the first pass, the inserted title `div` is the first `p` or `div` of the blockquote. If the title itself starts with a marker, a second pass rewrites the blockquote again. `SecondPass` states the exact condition, and `ExampleSecondPassChanges` gives an instance. A second run is therefore not always a no-op.

## Model

| member | source | states |
|---|---|---|
| Marker.MatchMarker | static/js/obsidian-callouts.js:5 | a successful match satisfies `Accepts`: optional leading whitespace, `[!`, a non-empty run of word characters, `]`, whitespace, then a title that holds no line break; every greedy part stops at a character it cannot take |
| Marker.MatchComplete | static/js/obsidian-callouts.js:5 | whenever a match as described by `Accepts` exists, the matcher returns exactly that match |
| Marker.MatchIsLeftmostGreedy | static/js/obsidian-callouts.js:5 | the matcher returns `m` if and only if `m` is the leftmost greedy match, so the match is unique |
| Marker.MatchSucceedsIff | static/js/obsidian-callouts.js:5-6 | the pattern matches exactly when the text, after optional whitespace, starts with `[!`, one or more word characters and `]` |
| Marker.MatchStartsWithMarker | static/js/obsidian-callouts.js:5 | a match implies the text starts with a marker |
| Marker.MarkerMatches | static/js/obsidian-callouts.js:5 | a text that starts with a marker is matched |
| Marker.Span | static/js/obsidian-callouts.js:5 | a greedy run: every character consumed satisfies the class, and the run stops at the end or at a character outside it |
| Marker.SpanUnique | static/js/obsidian-callouts.js:5 | a run that cannot be extended is the greedy run |
| Marker.RestEmptyIff | static/js/obsidian-callouts.js:5-8 | capture 2 is empty if and only if everything after `]` is whitespace; a non-empty capture 2 neither starts with whitespace nor holds a line break |
| Marker.TypeIsLowerWord | static/js/obsidian-callouts.js:7 | the type is non-empty, made only of lower-case letters, digits and `_`, has the word's length and equals the word up to case |
| Marker.TitleNonEmpty | static/js/obsidian-callouts.js:8 | the title is never empty; it is capture 2 when that is non-empty, and otherwise the type with its first letter upper-cased, which lower-cases back to the type |
| Marker.StripRemovesMatch | static/js/obsidian-callouts.js:10 | with no match the text is unchanged; with a match the text is the matched prefix followed by the result, the result is strictly shorter, and it is empty or starts with a line break |
| Marker.ExampleNoteMarker | static/js/obsidian-callouts.js:5-10 | `[!note] Hi` gives type `note`, title `Hi`, and empty text after the strip |
| Marker.ExampleWarningMarker | static/js/obsidian-callouts.js:5-10 | `[!WARNING]` gives type `warning` and title `Warning` |
| Marker.ExampleNestedMarker | static/js/obsidian-callouts.js:5-8 | `[!note] [!tip]` gives the title `[!tip]`, which itself starts with a marker |
| Callouts.FirstParagraphOrDiv | static/js/obsidian-callouts.js:3 | the result is the first `p` or `div` in document order, and it is absent only when there is none |
| Callouts.FirstIs | static/js/obsidian-callouts.js:3 | a `p` or `div` with none before it is the one found |
| Callouts.AddCalloutClassesKeeps | static/js/obsidian-callouts.js:11 | the old classes are kept in order as a prefix, at most two are added, the members are exactly the old ones plus `callout` and `callout-<type>`, and a duplicate-free list stays duplicate-free |
| Callouts.NoParagraphUnchanged | static/js/obsidian-callouts.js:3-4 | a blockquote with no `p` or `div` is left unchanged and nothing throws |
| Callouts.NoMarkerUnchanged | static/js/obsidian-callouts.js:5-6 | a blockquote whose first `p` or `div` does not start with a marker is left unchanged |
| Callouts.MarkerChanges | static/js/obsidian-callouts.js:5-16 | a blockquote whose first `p` or `div` starts with a marker is changed |
| Callouts.ChangedIff | static/js/obsidian-callouts.js:3-16 | a blockquote is changed if and only if its first `p` or `div` starts with a marker |
| Callouts.EnhancedAtChild | static/js/obsidian-callouts.js:10-16 | at a direct child: nothing throws; the classes gain `callout` and `callout-<type>`; the nodes are the old prefix, then `div.callout-title` holding the title, then the located child with its matched prefix removed and its descendant elements gone, then every node after those descendants |
| Callouts.EnhancedAtDescendant | static/js/obsidian-callouts.js:10-16 | at a deeper node, `insertBefore` throws after the text is stripped, the node's descendant elements are removed and the classes are added; no title is inserted |
| Callouts.EnhancedKeepsWellFormed | static/js/obsidian-callouts.js:11-16 | a rewrite keeps the nodes a tree below the blockquote and keeps the class list free of duplicates |
| Callouts.TitleKeepsWellFormed | static/js/obsidian-callouts.js:10-16 | putting the title and the located child in place of that child and its descendants keeps the nodes a tree |
| Callouts.SetTextKeepsWellFormed | static/js/obsidian-callouts.js:10 | changing a node's text and removing its descendants keeps the nodes a tree |
| Callouts.TitleChangesNodes | static/js/obsidian-callouts.js:10-16 | putting the title and the located child in place of a child and its descendants always changes the node list |
| Callouts.SubtreeEnd | static/js/obsidian-callouts.js:10 | the nodes strictly between a node and the returned index are deeper than it, and the node at that index, if any, is not, so they are exactly its descendants |
| Callouts.SecondPass | static/js/obsidian-callouts.js:3-16 | after a rewrite at a direct child, a second rewrite changes nothing exactly when the title does not start with a marker |
| Callouts.SoleParagraph | static/js/obsidian-callouts.js:3-16 | a blockquote whose only node is a paragraph consumed entirely by the match becomes the title followed by the emptied paragraph |
| Callouts.ExampleNote | static/js/obsidian-callouts.js:2-16 | `<p>[!note] Hi</p>` gets classes `callout callout-note`, a title `Hi`, and an empty paragraph |
| Callouts.ExampleInnerElementRemoved | static/js/obsidian-callouts.js:2-16 | `<p>[!note] <strong>Hi</strong></p>` ends as the title `Hi` followed by an empty paragraph: the `strong` element is gone |
| Callouts.ExampleWarning | static/js/obsidian-callouts.js:2-16 | `<p>[!WARNING]</p>` gets classes `callout callout-warning` and the title `Warning` |
| Callouts.ExampleClasses | static/js/obsidian-callouts.js:11 | on an empty class list the two classes are added in order |
| Callouts.ExampleSecondPassChanges | static/js/obsidian-callouts.js:2-16 | a second pass over `<p>[!note] [!tip]</p>` changes the blockquote again |
| Callouts.Block.Enhance | static/js/obsidian-callouts.js:3-16 | the in-place update, which drops the located element's descendants along with its old text, leaves the blockquote in the state `Enhanced` gives, and reports whether `insertBefore` threw |
| Callouts.EnhanceAll | static/js/obsidian-callouts.js:2-18 | the blockquotes are processed in document order, each from its own state alone; with no throw every blockquote ends in the state `Enhanced` gives, with the located element's descendants removed; when one throws, the pass stops there, the ones before it are rewritten, and the ones after it are unchanged |
| Callouts.EffectsAt | static/js/obsidian-callouts.js:2 | the expected effect on each blockquote depends only on that blockquote's own state |

## Left out

- The browser APIs (`querySelectorAll`, `querySelector`, `createElement`, `classList`, `insertBefore`) are replaced by plain data. A blockquote is a class list plus its element nodes in document order, each with a depth. The page-load trigger and the CSS that styles the classes are not part of this model.
- Text nodes are not listed as nodes: `text` stands for an element's whole `textContent`. Assigning `textContent` removes all of the element's children, and with them every element below it, which the model does. It then inserts one text node when the new text is non-empty and none when it is empty; the model records only the new text.
- When the located element is nested deeper, the `textContent` of its ancestors in the node list is not updated along with it.
- Nested blockquotes are treated as separate blocks, each processed from its own state.
- The exception from `insertBefore` is modelled only as the flag `Effect.threw`, which also stops `EnhanceAll`. Its propagation to the page is not modelled.
- `toLowerCase` and `toUpperCase` are modelled on ASCII only. That is exact here: the type consists of `\w` characters, which are ASCII without the `u` flag. The capitalised first character comes from the already lower-cased type.
- Strings are sequences of Unicode scalar values, not UTF-16 code units. Without the `u` flag the pattern sees a surrogate pair as two code units. No surrogate is in `\s`, `\w` or the line terminators, so the match and its positions agree up to that encoding.
- `Marker.AllFrom`, `Marker.AllFromIn`, `Marker.MatchFound`, `Marker.ExampleNoteMatches`, `Marker.ExampleWarningMatches`, `Marker.ExampleNestedMatches`, `Callouts.DeeperEnd`, `Callouts.SetText`, `Callouts.InsertBefore`, `Callouts.States` and `Callouts.EffectsLength` are proof helpers. They state nothing about the script beyond the rows above.
