/** The rewrite of Obsidian-style blockquotes into titled, classed callout
    boxes, over an abstract document: each blockquote holds a class list and
    the element nodes below it, listed in document order. */
module Callouts {
  import opened Marker

  /** An element below a blockquote. `depth` is 1 for a child of the
      blockquote, 2 for a grandchild, and so on; `text` stands for the
      element's whole `textContent`. */
  datatype Node = Node(tag: string, className: string, text: string, depth: nat)

  /** The nodes of a blockquote, listed in document order, form a tree below
      it: the first is a child and each one is at most one level deeper than
      the one before. */
  predicate WellFormed(nodes: seq<Node>) {
    forall i :: 0 <= i < |nodes| ==>
      1 <= nodes[i].depth
      && (i == 0 ==> nodes[i].depth == 1)
      && (0 < i ==> nodes[i].depth <= nodes[i - 1].depth + 1)
  }

  /** The selector `p, div`. */
  predicate IsParagraphOrDiv(n: Node) {
    n.tag == "p" || n.tag == "div"
  }

  /** `block.querySelector('p, div')`: the position of the first `p` or `div`
      in document order, if there is one. */
  function FirstParagraphOrDiv(nodes: seq<Node>): (r: Option<nat>)
    ensures r.Some? ==>
      r.value < |nodes| && IsParagraphOrDiv(nodes[r.value])
      && forall k :: 0 <= k < r.value ==> !IsParagraphOrDiv(nodes[k])
    ensures r.None? ==> forall k :: 0 <= k < |nodes| ==> !IsParagraphOrDiv(nodes[k])
  {
    if nodes == [] then None
    else if IsParagraphOrDiv(nodes[0]) then Some(0)
    else
      match FirstParagraphOrDiv(nodes[1..])
      case None => None
      case Some(k) => Some(k + 1)
  }

  predicate NoDuplicates(classes: seq<string>) {
    forall i, j :: 0 <= i < j < |classes| ==> classes[i] != classes[j]
  }

  /** `classList.add(c)`: a class list is an ordered set, so `c` is appended
      only when it is not already there. */
  function AddClass(classes: seq<string>, c: string): seq<string> {
    if c in classes then classes else classes + [c]
  }

  /** `classList.add('callout', 'callout-' + type)`. */
  function AddCalloutClasses(classes: seq<string>, calloutType: string): seq<string> {
    AddClass(AddClass(classes, "callout"), "callout-" + calloutType)
  }

  /** The two classes are added after the existing ones, which keep their
      order, and a duplicate-free list stays duplicate-free. */
  lemma {:induction false} AddCalloutClassesKeeps(classes: seq<string>, calloutType: string)
    ensures var r := AddCalloutClasses(classes, calloutType);
      && classes <= r && |r| <= |classes| + 2
      && (forall c :: c in r <==> c in classes || c == "callout" || c == "callout-" + calloutType)
      && (NoDuplicates(classes) ==> NoDuplicates(r))
  {
    var once := AddClass(classes, "callout");
    var r := AddClass(once, "callout-" + calloutType);
    assert forall c :: c in once <==> c in classes || c == "callout";
    assert forall c :: c in r <==> c in once || c == "callout-" + calloutType;
  }

  /** The title element: `div.callout-title` holding the title, made a child
      of the blockquote. */
  function TitleNode(title: string): Node {
    Node("div", "callout-title", title, 1)
  }

  /** The state of one blockquote. `classes` is its class token set, in
      order; as a token set it never holds a class twice. */
  datatype BlockState = BlockState(classes: seq<string>, nodes: seq<Node>)

  /** What processing a blockquote leaves behind, and whether `insertBefore`
      threw, which ends the whole pass. */
  datatype Effect = Effect(after: BlockState, threw: bool)

  /** The end of the run of nodes from `i` on that are deeper than `d`. */
  function DeeperEnd(nodes: seq<Node>, i: nat, d: nat): (e: nat)
    requires i <= |nodes|
    ensures i <= e <= |nodes|
    ensures forall j :: i <= j < e ==> nodes[j].depth > d
    ensures e == |nodes| || nodes[e].depth <= d
    decreases |nodes| - i
  {
    if i < |nodes| && nodes[i].depth > d then DeeperEnd(nodes, i + 1, d) else i
  }

  /** The descendants of node `k` are the nodes right after it that are
      deeper than it; they end at `SubtreeEnd(nodes, k)`. */
  function SubtreeEnd(nodes: seq<Node>, k: nat): (e: nat)
    requires k < |nodes|
    ensures k < e <= |nodes|
    ensures forall j :: k < j < e ==> nodes[j].depth > nodes[k].depth
    ensures e == |nodes| || nodes[e].depth <= nodes[k].depth
  {
    DeeperEnd(nodes, k + 1, nodes[k].depth)
  }

  /** `first.textContent = text`: the element's children, and so all of its
      descendant elements, are removed, and its text becomes `text`. */
  function SetText(nodes: seq<Node>, k: nat, text: string): seq<Node>
    requires k < |nodes|
  {
    nodes[..k] + [nodes[k].(text := text)] + nodes[SubtreeEnd(nodes, k)..]
  }

  /** The body of the `forEach` callback, applied to one blockquote. The text
      is stripped and the classes added before `insertBefore` runs, so a
      located node that is not a child of the blockquote leaves it
      half-changed. */
  function Enhanced(b: BlockState): Effect {
    match FirstParagraphOrDiv(b.nodes)
    case None => Effect(b, false)
    case Some(k) =>
      var first := b.nodes[k];
      match MatchMarker(first.text)
      case None => Effect(b, false)
      case Some(m) =>
        var stripped := SetText(b.nodes, k, Strip(first.text));
        var classes := AddCalloutClasses(b.classes, CalloutType(first.text, m));
        if first.depth == 1 then
          Effect(BlockState(classes, stripped[..k] + [TitleNode(Title(first.text, m))] + stripped[k..]), false)
        else
          Effect(BlockState(classes, stripped), true)
  }

  /** The first `p` or `div` is the one with none before it. */
  lemma FirstIs(nodes: seq<Node>, k: nat)
    requires k < |nodes| && IsParagraphOrDiv(nodes[k])
    requires forall j :: 0 <= j < k ==> !IsParagraphOrDiv(nodes[j])
    ensures FirstParagraphOrDiv(nodes) == Some(k)
  {
    match FirstParagraphOrDiv(nodes)
    case None =>
    case Some(i) =>
  }

  /** A blockquote with no `p` or `div` below it is left unchanged. */
  lemma NoParagraphUnchanged(b: BlockState)
    requires forall k :: 0 <= k < |b.nodes| ==> !IsParagraphOrDiv(b.nodes[k])
    ensures Enhanced(b) == Effect(b, false)
  {
  }

  /** A blockquote whose first `p` or `div` does not start with a marker is
      left unchanged. */
  lemma NoMarkerUnchanged(b: BlockState, k: nat)
    requires k < |b.nodes| && IsParagraphOrDiv(b.nodes[k])
    requires forall j :: 0 <= j < k ==> !IsParagraphOrDiv(b.nodes[j])
    requires !StartsWithMarker(b.nodes[k].text)
    ensures Enhanced(b) == Effect(b, false)
  {
    MatchSucceedsIff(b.nodes[k].text);
    FirstIs(b.nodes, k);
  }

  /** A blockquote whose first `p` or `div` starts with a marker is changed. */
  lemma MarkerChanges(b: BlockState, k: nat)
    requires k < |b.nodes| && IsParagraphOrDiv(b.nodes[k])
    requires forall j :: 0 <= j < k ==> !IsParagraphOrDiv(b.nodes[j])
    requires StartsWithMarker(b.nodes[k].text)
    ensures Enhanced(b).after != b
  {
    var text := b.nodes[k].text;
    MatchSucceedsIff(text);
    var m := MatchMarker(text).value;
    var after := Enhanced(b).after;
    if b.nodes[k].depth == 1 {
      EnhancedAtChild(b, k, m);
      TitleChangesNodes(b.nodes, k, TitleNode(Title(text, m)), b.nodes[k].(text := text[m.end..]));
    } else {
      EnhancedAtDescendant(b, k, m);
      StripRemovesMatch(text);
      assert |after.nodes[k].text| < |text|;
    }
  }

  /** Putting a title and a child in place of a child and its descendants
      always changes the nodes. */
  lemma TitleChangesNodes(nodes: seq<Node>, k: nat, title: Node, located: Node)
    requires k < |nodes| && nodes[k].depth == 1 && located.depth == 1
    ensures nodes[..k] + [title, located] + nodes[SubtreeEnd(nodes, k)..] != nodes
  {
    var e := SubtreeEnd(nodes, k);
    var r := nodes[..k] + [title, located] + nodes[e..];
    if e == k + 1 {
      assert |r| == |nodes| + 1;
    } else {
      assert r[k + 1] == located && nodes[k + 1].depth > 1;
    }
  }

  /** A blockquote is changed exactly when its first `p` or `div` starts with
      a marker. */
  lemma {:induction false} ChangedIff(b: BlockState)
    ensures Enhanced(b).after != b <==>
      exists k :: 0 <= k < |b.nodes| && IsParagraphOrDiv(b.nodes[k])
        && (forall j :: 0 <= j < k ==> !IsParagraphOrDiv(b.nodes[j]))
        && StartsWithMarker(b.nodes[k].text)
  {
    match FirstParagraphOrDiv(b.nodes)
    case None =>
      NoParagraphUnchanged(b);
    case Some(k) =>
      forall k' | 0 <= k' < |b.nodes| && IsParagraphOrDiv(b.nodes[k'])
          && (forall j :: 0 <= j < k' ==> !IsParagraphOrDiv(b.nodes[j]))
        ensures k' == k
      {
      }
      if StartsWithMarker(b.nodes[k].text) {
        MarkerChanges(b, k);
      } else {
        NoMarkerUnchanged(b, k);
      }
  }

  /** On a match at a child of the blockquote: the classes gain `callout` and
      `callout-<type>`; a `div.callout-title` holding the title is inserted
      immediately before the located child; the child's text loses the
      matched prefix and its descendants are removed; every node before it
      and every node after its descendants is kept, in order. */
  lemma {:induction false} EnhancedAtChild(b: BlockState, k: nat, m: Match)
    requires k < |b.nodes| && IsParagraphOrDiv(b.nodes[k])
    requires forall j :: 0 <= j < k ==> !IsParagraphOrDiv(b.nodes[j])
    requires MatchMarker(b.nodes[k].text) == Some(m)
    requires b.nodes[k].depth == 1
    ensures var text := b.nodes[k].text;
      Enhanced(b) == Effect(BlockState(AddCalloutClasses(b.classes, CalloutType(text, m)),
                                       b.nodes[..k] + [TitleNode(Title(text, m)), b.nodes[k].(text := text[m.end..])]
                                       + b.nodes[SubtreeEnd(b.nodes, k)..]), false)
  {
    var text := b.nodes[k].text;
    var stripped := SetText(b.nodes, k, text[m.end..]);
    var title := TitleNode(Title(text, m));
    assert Enhanced(b) == Effect(BlockState(AddCalloutClasses(b.classes, CalloutType(text, m)),
                                            stripped[..k] + [title] + stripped[k..]), false) by {
      FirstIs(b.nodes, k);
    }
    InsertBefore(b.nodes[..k], b.nodes[k].(text := text[m.end..]), b.nodes[SubtreeEnd(b.nodes, k)..], title);
  }

  /** Inserting `y` before the element that follows `xs`. */
  lemma InsertBefore<T>(xs: seq<T>, x: T, zs: seq<T>, y: T)
    ensures var r := xs + [x] + zs;
      r[..|xs|] + [y] + r[|xs|..] == xs + [y, x] + zs
  {
    var r := xs + [x] + zs;
    assert r[..|xs|] == xs;
    assert r[|xs|..] == [x] + zs;
  }

  /** On a match at a node deeper down, `insertBefore` throws: the text has
      already been stripped, the node's descendants removed and the classes
      added, but no title is inserted. */
  lemma {:induction false} EnhancedAtDescendant(b: BlockState, k: nat, m: Match)
    requires k < |b.nodes| && IsParagraphOrDiv(b.nodes[k])
    requires forall j :: 0 <= j < k ==> !IsParagraphOrDiv(b.nodes[j])
    requires MatchMarker(b.nodes[k].text) == Some(m)
    requires b.nodes[k].depth != 1
    ensures var e := Enhanced(b);
      && e.threw
      && e.after.classes == AddCalloutClasses(b.classes, CalloutType(b.nodes[k].text, m))
      && e.after.nodes == b.nodes[..k] + [b.nodes[k].(text := b.nodes[k].text[m.end..])]
                          + b.nodes[SubtreeEnd(b.nodes, k)..]
  {
    FirstIs(b.nodes, k);
  }

  /** Processing a blockquote keeps its nodes a tree below it and its class
      list free of duplicates. */
  lemma {:induction false} EnhancedKeepsWellFormed(b: BlockState)
    requires WellFormed(b.nodes) && NoDuplicates(b.classes)
    ensures WellFormed(Enhanced(b).after.nodes) && NoDuplicates(Enhanced(b).after.classes)
  {
    match FirstParagraphOrDiv(b.nodes)
    case None =>
    case Some(k) =>
      match MatchMarker(b.nodes[k].text)
      case None =>
      case Some(m) =>
        var text := b.nodes[k].text;
        var stripped := b.nodes[k].(text := text[m.end..]);
        AddCalloutClassesKeeps(b.classes, CalloutType(text, m));
        if b.nodes[k].depth == 1 {
          EnhancedAtChild(b, k, m);
          TitleKeepsWellFormed(b.nodes, k, TitleNode(Title(text, m)), stripped);
        } else {
          EnhancedAtDescendant(b, k, m);
          SetTextKeepsWellFormed(b.nodes, k, stripped);
        }
  }

  /** Removing a node's descendants and changing its text keeps the nodes a
      tree. */
  lemma SetTextKeepsWellFormed(nodes: seq<Node>, k: nat, n: Node)
    requires WellFormed(nodes) && k < |nodes| && n.depth == nodes[k].depth
    ensures WellFormed(nodes[..k] + [n] + nodes[SubtreeEnd(nodes, k)..])
  {
    var e := SubtreeEnd(nodes, k);
    var r := nodes[..k] + [n] + nodes[e..];
    forall i | 0 <= i < |r|
      ensures 1 <= r[i].depth
      ensures i == 0 ==> r[i].depth == 1
      ensures 0 < i ==> r[i].depth <= r[i - 1].depth + 1
    {
      if i < k {
        assert r[i] == nodes[i];
        if 0 < i { assert r[i - 1] == nodes[i - 1]; }
      } else if i == k {
        if 0 < i { assert r[i - 1] == nodes[i - 1]; }
      } else {
        assert r[i] == nodes[e + i - k - 1];
        if i > k + 1 { assert r[i - 1] == nodes[e + i - k - 2]; }
      }
    }
  }

  /** Putting the title and the located child, without its descendants, in
      place of that child and its descendants keeps the nodes a tree. */
  lemma TitleKeepsWellFormed(nodes: seq<Node>, k: nat, title: Node, located: Node)
    requires WellFormed(nodes) && k < |nodes| && nodes[k].depth == 1
    requires title.depth == 1 && located.depth == 1
    ensures WellFormed(nodes[..k] + [title, located] + nodes[SubtreeEnd(nodes, k)..])
  {
    var e := SubtreeEnd(nodes, k);
    var r := nodes[..k] + [title, located] + nodes[e..];
    forall i | 0 <= i < |r|
      ensures 1 <= r[i].depth
      ensures i == 0 ==> r[i].depth == 1
      ensures 0 < i ==> r[i].depth <= r[i - 1].depth + 1
    {
      if i < k {
        assert r[i] == nodes[i];
        if 0 < i { assert r[i - 1] == nodes[i - 1]; }
      } else if i > k + 1 {
        assert r[i] == nodes[e + i - k - 2];
        if i > k + 2 { assert r[i - 1] == nodes[e + i - k - 3]; }
      }
    }
  }

  /** A second pass over a blockquote the first pass turned into a callout
      finds the title element first, so it leaves the blockquote unchanged
      exactly when the title itself does not start with a marker. */
  lemma {:induction false} SecondPass(b: BlockState, k: nat, m: Match)
    requires k < |b.nodes| && IsParagraphOrDiv(b.nodes[k])
    requires forall j :: 0 <= j < k ==> !IsParagraphOrDiv(b.nodes[j])
    requires MatchMarker(b.nodes[k].text) == Some(m)
    requires b.nodes[k].depth == 1
    ensures var once := Enhanced(b).after;
      Enhanced(once).after == once <==> !StartsWithMarker(Title(b.nodes[k].text, m))
  {
    var text := b.nodes[k].text;
    var once := Enhanced(b).after;
    var title := Title(text, m);
    assert && k < |once.nodes| && once.nodes[k] == TitleNode(title)
           && forall j :: 0 <= j < k ==> once.nodes[j] == b.nodes[j] by {
      EnhancedAtChild(b, k, m);
    }
    if StartsWithMarker(title) {
      MarkerChanges(once, k);
    } else {
      NoMarkerUnchanged(once, k);
    }
  }

  /** A blockquote whose only node is a paragraph that the match spans
      entirely ends up with the title followed by the emptied paragraph. */
  lemma SoleParagraph(b: BlockState, m: Match)
    requires |b.nodes| == 1 && IsParagraphOrDiv(b.nodes[0]) && b.nodes[0].depth == 1
    requires MatchMarker(b.nodes[0].text) == Some(m) && m.end == |b.nodes[0].text|
    ensures Enhanced(b) == Effect(BlockState(AddCalloutClasses(b.classes, CalloutType(b.nodes[0].text, m)),
                                             [TitleNode(Title(b.nodes[0].text, m)), b.nodes[0].(text := [])]), false)
  {
    EnhancedAtChild(b, 0, m);
    assert SubtreeEnd(b.nodes, 0) == 1;
    assert b.nodes[..0] == [] && b.nodes[1..] == [] && b.nodes[0].text[m.end..] == [];
  }

  /** `<blockquote><p>[!note] Hi</p></blockquote>` gains the classes
      `callout` and `callout-note` and the title `Hi`, and its paragraph is
      left empty. */
  lemma ExampleNote(b: BlockState)
    requires b == BlockState([], [Node("p", "", "[!note] Hi", 1)])
    ensures Enhanced(b) ==
      Effect(BlockState(["callout", "callout-note"], [TitleNode("Hi"), Node("p", "", "", 1)]), false)
  {
    assert AddCalloutClasses([], "note") == ["callout", "callout-note"] by {
      ExampleClasses("note");
      assert "callout-" + "note" == "callout-note";
    }
    ExampleNoteMarker();
    SoleParagraph(b, Match(0, 6, 8, 10));
  }

  /** `<blockquote><p>[!note] <strong>Hi</strong></p></blockquote>`: setting
      the paragraph's text removes the `strong` element below it. */
  lemma ExampleInnerElementRemoved(b: BlockState)
    requires b == BlockState([], [Node("p", "", "[!note] Hi", 1), Node("strong", "", "Hi", 2)])
    ensures Enhanced(b) ==
      Effect(BlockState(["callout", "callout-note"], [TitleNode("Hi"), Node("p", "", "", 1)]), false)
  {
    assert AddCalloutClasses([], "note") == ["callout", "callout-note"] by {
      ExampleClasses("note");
      assert "callout-" + "note" == "callout-note";
    }
    var m := Match(0, 6, 8, 10);
    ExampleNoteMarker();
    EnhancedAtChild(b, 0, m);
    assert SubtreeEnd(b.nodes, 0) == 2;
    assert b.nodes[..0] == [] && b.nodes[2..] == [] && b.nodes[0].text[m.end..] == [];
  }

  /** With nothing after the marker, the title is the capitalised type. */
  lemma ExampleWarning(b: BlockState)
    requires b == BlockState([], [Node("p", "", "[!WARNING]", 1)])
    ensures Enhanced(b) ==
      Effect(BlockState(["callout", "callout-warning"], [TitleNode("Warning"), Node("p", "", "", 1)]), false)
  {
    assert AddCalloutClasses([], "warning") == ["callout", "callout-warning"] by {
      ExampleClasses("warning");
      assert "callout-" + "warning" == "callout-warning";
    }
    ExampleWarningMarker();
    SoleParagraph(b, Match(0, 9, 10, 10));
  }

  lemma ExampleClasses(t: string)
    ensures AddCalloutClasses([], t) == ["callout", "callout-" + t]
  {
    var c := "callout-" + t;
    assert |c| != |"callout"|;
    assert AddClass([], "callout") == ["callout"];
    assert c !in ["callout"];
  }

  /** A title that itself starts with a marker is matched again by a second
      pass, so running the pass twice is not the same as running it once. */
  lemma ExampleSecondPassChanges(b: BlockState)
    requires b == BlockState([], [Node("p", "", "[!note] [!tip]", 1)])
    ensures var once := Enhanced(b).after;
      Enhanced(once).after != once
  {
    ExampleNestedMarker();
    SecondPass(b, 0, Match(0, 6, 8, 14));
  }

  /** A blockquote element, changed in place. */
  class Block {
    var classes: seq<string>
    var nodes: seq<Node>

    function State(): BlockState
      reads this
    {
      BlockState(classes, nodes)
    }

    /** One call of the `forEach` callback on this blockquote; `threw` is
        whether `insertBefore` threw. */
    method Enhance() returns (threw: bool)
      modifies this
      ensures Effect(State(), threw) == Enhanced(old(State()))
    {
      threw := false;
      var found := FirstParagraphOrDiv(nodes);
      if found.None? {
        return;
      }
      var k := found.value;
      var first := nodes[k];
      var marker := MatchMarker(first.text);
      if marker.Some? {
        var m := marker.value;
        var calloutType := CalloutType(first.text, m);
        var title := Title(first.text, m);
        nodes := SetText(nodes, k, Strip(first.text));
        classes := AddCalloutClasses(classes, calloutType);
        if first.depth != 1 {
          threw := true;
          return;
        }
        nodes := nodes[..k] + [TitleNode(title)] + nodes[k..];
      }
    }
  }

  /** The states of the given blockquotes. */
  function States(blocks: seq<Block>): (r: seq<BlockState>)
    reads set b | b in blocks
    ensures |r| == |blocks| && forall j :: 0 <= j < |blocks| ==> r[j] == blocks[j].State()
  {
    seq(|blocks|, j requires 0 <= j < |blocks| reads blocks => blocks[j].State())
  }

  /** `document.querySelectorAll('blockquote').forEach(...)`: the blockquotes
      are processed one at a time in document order, each on its own state
      alone (`Effects` applies `Enhanced` to each state separately). When
      `insertBefore` throws on the blockquote at `abortedAt`, the pass stops
      there and the blockquotes after it are left as they were. */
  method EnhanceAll(blocks: seq<Block>) returns (abortedAt: Option<nat>)
    requires forall i, j :: 0 <= i < j < |blocks| ==> blocks[i] != blocks[j]
    modifies set b | b in blocks
    ensures var expected := Effects(old(States(blocks)));
      && |expected| == |blocks|
      && (abortedAt.None? ==>
            forall j :: 0 <= j < |blocks| ==> !expected[j].threw && blocks[j].State() == expected[j].after)
      && (abortedAt.Some? ==>
            var k := abortedAt.value;
            && k < |blocks| && expected[k].threw
            && (forall j :: 0 <= j < k ==> !expected[j].threw)
            && (forall j :: 0 <= j <= k ==> blocks[j].State() == expected[j].after)
            && (forall j :: k < j < |blocks| ==> blocks[j].State() == old(blocks[j].State())))
  {
    ghost var before := States(blocks);
    ghost var expected := Effects(before);
    EffectsLength(before);
    var i := 0;
    abortedAt := None;
    while i < |blocks| && abortedAt.None?
      invariant 0 <= i <= |blocks| && |expected| == |blocks|
      invariant abortedAt.Some? ==> abortedAt.value + 1 == i && expected[i - 1].threw
      invariant forall j :: 0 <= j < i ==> blocks[j].State() == expected[j].after
      invariant forall j :: 0 <= j < i && (abortedAt.None? || j + 1 < i) ==> !expected[j].threw
      invariant forall j :: i <= j < |blocks| ==> blocks[j].State() == before[j]
    {
      EffectsAt(before, i);
      label Step:
      var threw := blocks[i].Enhance();
      assert Effect(blocks[i].State(), threw) == expected[i];
      assert forall j :: 0 <= j < |blocks| && j != i ==> blocks[j].State() == old@Step(blocks[j].State());
      if threw {
        abortedAt := Some(i);
      }
      i := i + 1;
    }
  }

  /** The effect of processing each blockquote on its own. */
  function Effects(bs: seq<BlockState>): seq<Effect> {
    if bs == [] then [] else [Enhanced(bs[0])] + Effects(bs[1..])
  }

  lemma {:induction false} EffectsAt(bs: seq<BlockState>, j: nat)
    requires j < |bs|
    ensures |Effects(bs)| == |bs| && Effects(bs)[j] == Enhanced(bs[j])
  {
    if j > 0 {
      EffectsAt(bs[1..], j - 1);
    } else {
      EffectsLength(bs[1..]);
    }
  }

  lemma {:induction false} EffectsLength(bs: seq<BlockState>)
    ensures |Effects(bs)| == |bs|
  {
    if bs != [] {
      EffectsLength(bs[1..]);
    }
  }
}
