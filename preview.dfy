/**
 * The live preview: an iframe whose document is a fixed Tailwind shell with
 * the generated markup inside its `#root` body, with hover highlighting,
 * click-to-select (the selected element becomes editable in place),
 * Escape to deselect, and the save that snapshots the document without the
 * editor's highlights.
 */
module PreviewSandbox {
  import opened Wrappers
  import opened JsStrings
  import opened Dom

  const HoverOutline := "2px dotted blue"
  const SelectOutline := "2px solid red"
  const Fence := "```"
  const HtmlFence := "```html"
  const HtmlComma := "html,"

  // ---------------------------------------------------------------------
  // Cleaning the generated code before it goes into #root
  // ---------------------------------------------------------------------

  /** The first two cleaning steps: every "```html", then every "```", removed. */
  function Unfenced(code: string): string {
    ReplaceAll(ReplaceAll(code, HtmlFence, ""), Fence, "")
  }

  /** The markup written into #root: the fences removed, then the first "html,". */
  function CleanCode(code: string): string {
    Replace(Unfenced(code), HtmlComma, "")
  }

  /** After the first two steps no code fence is left. */
  lemma UnfencedHasNoFence(code: string)
    ensures !Contains(Unfenced(code), Fence)
  {
    RemoveTripleLeavesNone(ReplaceAll(code, HtmlFence, ""), '`');
  }

  /** Cleaning never makes the code longer. */
  lemma CleanCodeShrinks(code: string)
    ensures |CleanCode(code)| <= |code|
  {
    var u := Unfenced(code);
    ReplaceFirstMatch(u, HtmlComma, "");
  }

  /** Markup with no backquote and no "html," is written as it is. */
  lemma CleanCodeKeepsPlainMarkup(code: string)
    requires '`' !in code && !Contains(code, HtmlComma)
    ensures CleanCode(code) == code
  {
    ContainsNeedsFirst(code, HtmlFence);
    ContainsNeedsFirst(code, Fence);
    ReplaceFirstMatch(code, HtmlComma, "");
  }

  /** Markup wrapped in an html code fence comes out unwrapped. */
  lemma CleanCodeUnwraps(markup: string)
    requires '`' !in markup && !Contains(markup, HtmlComma)
    ensures CleanCode(HtmlFence + markup + Fence) == markup
  {
    var s := HtmlFence + markup + Fence;
    assert s == HtmlFence + (markup + Fence);
    ReplaceAllFront(HtmlFence, markup + Fence, "");
    ReplaceAllSkipsFree(markup, Fence, HtmlFence, "");
    ContainsFits(Fence, HtmlFence);
    assert ReplaceAll(s, HtmlFence, "") == markup + Fence;
    ReplaceAllSkipsFree(markup, Fence, Fence, "");
    assert Fence == Fence + "";
    ReplaceAllFront(Fence, "", "");
    assert Unfenced(s) == markup;
    ReplaceFirstMatch(markup, HtmlComma, "");
  }

  /** A text in which the fence never occurs, but "html," sits between its backquotes. */
  const SplitFence := "``html,`"

  /** Neither of the first two steps finds anything to remove in it. */
  lemma SplitFenceUnfenced()
    ensures Unfenced(SplitFence) == SplitFence
  {
    SplitFenceKept(HtmlFence);
    SplitFenceKept(Fence);
  }

  /** No pattern that opens with three backquotes occurs in it. */
  lemma SplitFenceKept(p: string)
    requires |p| >= 3 && p[0] == '`' && p[1] == '`' && p[2] == '`'
    ensures ReplaceAll(SplitFence, p, "") == SplitFence
  {
    assert SplitFence == "``" + ("html," + "`");
    ShortRunKept("``", "html,", "`", p);
  }

  /**
   * Two backquotes, a backquote-free word of two characters or more, and
   * fewer characters than the pattern after it: a pattern that opens with
   * three backquotes never occurs.
   */
  lemma ShortRunKept(a: string, m: string, t: string, p: string)
    requires |a| == 2 && |m| >= 2 && '`' !in m && |t| < |p|
    requires |p| >= 3 && p[0] == '`' && p[1] == '`' && p[2] == '`'
    ensures ReplaceAll(a + (m + t), p, "") == a + (m + t)
  {
    var s := a + (m + t);
    assert s[2] == m[0] && s[3] == m[1];
    MismatchAt(s, p, 0, 2);
    MismatchAt(s, p, 1, 2);
    ReplaceAllSkips(a, m + t, p, "");
    ReplaceAllSkipsFree(m, t, p, "");
    ContainsFits(t, p);
  }

  /** Its first "html," starts at position 2. */
  lemma SplitFenceComma()
    ensures IndexOf(SplitFence, HtmlComma) == 2
  {
    var s := SplitFence;
    assert OccursAt(s, HtmlComma, 2);
    MismatchAt(s, HtmlComma, 0, 0);
    MismatchAt(s, HtmlComma, 1, 0);
    ContainsIff(s, HtmlComma);
    IndexOfIff(s, HtmlComma);
  }

  /** The last step can put back a fence that the first two took out. */
  lemma CleanCodeCanLeaveFence()
    ensures CleanCode(SplitFence) == Fence
  {
    var s := SplitFence;
    calc {
      CleanCode(s);
      { SplitFenceUnfenced(); }
      Replace(s, HtmlComma, "");
      { SplitFenceComma(); ReplaceEmptyAt(s, HtmlComma, 2); }
      s[..2] + s[7..];
      Fence;
    }
  }

  // ---------------------------------------------------------------------
  // What the handlers do to the elements
  // ---------------------------------------------------------------------

  /** The hover highlight moves to `target`; a different previous hover loses its outline. */
  function Hover(nodes: map<NodeId, Element>, hovered: Option<NodeId>, target: NodeId): (r: map<NodeId, Element>)
    requires target in nodes && (hovered.Some? ==> hovered.value in nodes)
    ensures r.Keys == nodes.Keys
    ensures StyleOf(r[target], Outline) == HoverOutline
    ensures hovered.Some? && hovered.value != target ==> StyleOf(r[hovered.value], Outline) == ""
    ensures forall id :: id in nodes && id != target && hovered != Some(id) ==> r[id] == nodes[id]
    ensures forall id :: id in nodes ==> r[id].attrs == nodes[id].attrs && r[id].className == nodes[id].className
    ensures forall id, q :: id in nodes && q != Outline ==> StyleOf(r[id], q) == StyleOf(nodes[id], q)
  {
    var n := if hovered.Some? && hovered.value != target then ClearOutline(nodes, hovered.value) else nodes;
    n[target := WithStyle(n[target], Outline, HoverOutline)]
  }

  /** An element's inline outline is removed; nothing else changes. */
  function ClearOutline(nodes: map<NodeId, Element>, id: NodeId): (r: map<NodeId, Element>)
    requires id in nodes
    ensures r.Keys == nodes.Keys
    ensures Outline !in r[id].style
    ensures forall q :: q != Outline ==> StyleOf(r[id], q) == StyleOf(nodes[id], q)
    ensures r[id].attrs == nodes[id].attrs && r[id].className == nodes[id].className
    ensures forall other :: other in nodes && other != id ==> r[other] == nodes[other]
  {
    nodes[id := WithStyle(nodes[id], Outline, "")]
  }

  /** An element is deselected: no outline, no longer editable. */
  function Deselect(nodes: map<NodeId, Element>, id: NodeId): (r: map<NodeId, Element>)
    requires id in nodes
    ensures r.Keys == nodes.Keys
    ensures Outline !in r[id].style && AttrOf(r[id], ContentEditable) == None
    ensures forall q :: q != Outline ==> StyleOf(r[id], q) == StyleOf(nodes[id], q)
    ensures forall a :: a != ContentEditable ==> AttrOf(r[id], a) == AttrOf(nodes[id], a)
    ensures r[id].className == nodes[id].className
    ensures forall other :: other in nodes && other != id ==> r[other] == nodes[other]
  {
    nodes[id := WithoutAttr(WithStyle(nodes[id], Outline, ""), ContentEditable)]
  }

  /** An element is selected: a red outline, and editable in place. */
  function Select(nodes: map<NodeId, Element>, id: NodeId): (r: map<NodeId, Element>)
    requires id in nodes
    ensures r.Keys == nodes.Keys
    ensures StyleOf(r[id], Outline) == SelectOutline && AttrOf(r[id], ContentEditable) == Some("true")
    ensures forall q :: q != Outline ==> StyleOf(r[id], q) == StyleOf(nodes[id], q)
    ensures forall a :: a != ContentEditable ==> AttrOf(r[id], a) == AttrOf(nodes[id], a)
    ensures r[id].className == nodes[id].className
    ensures forall other :: other in nodes && other != id ==> r[other] == nodes[other]
  {
    nodes[id := WithAttr(WithStyle(nodes[id], Outline, SelectOutline), ContentEditable, "true")]
  }

  /** A click: the previous selection, if any, is deselected and the target selected. */
  function Reselect(nodes: map<NodeId, Element>, selected: Option<NodeId>, target: NodeId): map<NodeId, Element>
    requires target in nodes && (selected.Some? ==> selected.value in nodes)
  {
    Select(if selected.Some? then Deselect(nodes, selected.value) else nodes, target)
  }

  /** Clicking the element that is already selected changes nothing. */
  lemma ClickSelectedAgain(nodes: map<NodeId, Element>, selected: Option<NodeId>, target: NodeId)
    requires target in nodes && (selected.Some? ==> selected.value in nodes)
    ensures Reselect(Reselect(nodes, selected, target), Some(target), target) == Reselect(nodes, selected, target)
  {
    var once := Reselect(nodes, selected, target);
    var e := once[target];
    assert (e.style - {Outline})[Outline := SelectOutline] == e.style;
    assert (e.attrs - {ContentEditable})[ContentEditable := "true"] == e.attrs;
  }

  /** No element has `contenteditable` except perhaps the selection `s`. */
  predicate EditableAtMost(nodes: map<NodeId, Element>, s: Option<NodeId>) {
    forall id :: id in nodes && AttrOf(nodes[id], ContentEditable).Some? ==> s == Some(id)
  }

  /**
   * The handlers keep at most one element editable: a click leaves only the
   * target editable, Escape none, and hovering changes no attribute.
   */
  lemma OneEditable(nodes: map<NodeId, Element>, selected: Option<NodeId>, hovered: Option<NodeId>, target: NodeId)
    requires target in nodes && (selected.Some? ==> selected.value in nodes) && (hovered.Some? ==> hovered.value in nodes)
    requires EditableAtMost(nodes, selected)
    ensures EditableAtMost(Reselect(nodes, selected, target), Some(target))
    ensures selected.Some? ==> EditableAtMost(Deselect(nodes, selected.value), None)
    ensures EditableAtMost(Hover(nodes, hovered, target), selected)
    ensures hovered.Some? ==> EditableAtMost(ClearOutline(nodes, hovered.value), selected)
  {
    ClickEditable(nodes, selected, target);
    if selected.Some? {
      EscapeEditable(nodes, selected.value);
    }
    HoverEditable(nodes, selected, hovered, target);
  }

  /** After a click only the target may be editable. */
  lemma ClickEditable(nodes: map<NodeId, Element>, selected: Option<NodeId>, target: NodeId)
    requires target in nodes && (selected.Some? ==> selected.value in nodes)
    requires EditableAtMost(nodes, selected)
    ensures EditableAtMost(Reselect(nodes, selected, target), Some(target))
  {
    var m := if selected.Some? then Deselect(nodes, selected.value) else nodes;
    var r := Reselect(nodes, selected, target);
    forall id | id in r && id != target ensures AttrOf(r[id], ContentEditable) == None {
      assert r[id] == m[id];
      if selected.None? || id != selected.value {
        assert m[id] == nodes[id];
      }
    }
  }

  /** After Escape nothing is editable. */
  lemma EscapeEditable(nodes: map<NodeId, Element>, selected: NodeId)
    requires selected in nodes
    requires EditableAtMost(nodes, Some(selected))
    ensures EditableAtMost(Deselect(nodes, selected), None)
  {
    var r := Deselect(nodes, selected);
    forall id | id in r ensures AttrOf(r[id], ContentEditable) == None {
      if id != selected {
        assert r[id] == nodes[id];
      }
    }
  }

  /** Hovering and moving out change no element's attributes. */
  lemma HoverEditable(nodes: map<NodeId, Element>, selected: Option<NodeId>, hovered: Option<NodeId>, target: NodeId)
    requires target in nodes && (hovered.Some? ==> hovered.value in nodes)
    requires EditableAtMost(nodes, selected)
    ensures EditableAtMost(Hover(nodes, hovered, target), selected)
    ensures hovered.Some? ==> EditableAtMost(ClearOutline(nodes, hovered.value), selected)
  {
    var r := Hover(nodes, hovered, target);
    forall id | id in r ensures r[id].attrs == nodes[id].attrs {
    }
    if hovered.Some? {
      var c := ClearOutline(nodes, hovered.value);
      forall id | id in c ensures c[id].attrs == nodes[id].attrs {
        if id != hovered.value {
          assert c[id] == nodes[id];
        }
      }
    }
  }

  /**
   * With nothing selected, hovering an element and moving out again leaves
   * the page as it was exactly when the element had no inline outline of
   * its own: the highlight erases one.
   */
  lemma HoverThenOut(nodes: map<NodeId, Element>, target: NodeId)
    requires target in nodes
    ensures ClearOutline(Hover(nodes, None, target), target) == nodes <==> Outline !in nodes[target].style
  {
    var r := ClearOutline(Hover(nodes, None, target), target);
    if Outline !in nodes[target].style {
      assert r[target].style == nodes[target].style;
      assert r[target] == nodes[target];
    } else {
      assert r[target] != nodes[target];
    }
  }

  /** What the save writes for each element: its outline and cursor styles removed. */
  function Scrubbed(e: Element): (r: Element)
    ensures Outline !in r.style && Cursor !in r.style
    ensures forall q :: q != Outline && q != Cursor ==> StyleOf(r, q) == StyleOf(e, q)
    ensures r.className == e.className && r.attrs == e.attrs
  {
    WithStyle(WithStyle(e, Outline, ""), Cursor, "")
  }

  lemma ScrubbedTwice(e: Element)
    ensures Scrubbed(Scrubbed(e)) == Scrubbed(e)
  {
    assert Scrubbed(e).style - {Outline} - {Cursor} == Scrubbed(e).style;
  }

  /** Scrubbing keeps an element editable: the save does not remove `contenteditable`. */
  lemma ScrubbedKeepsEditable(e: Element)
    ensures AttrOf(Scrubbed(e), ContentEditable) == AttrOf(e, ContentEditable)
  {
  }

  // ---------------------------------------------------------------------
  // The preview component
  // ---------------------------------------------------------------------

  class Preview {
    /** The iframe's document. */
    const doc: Document
    /** Whether the listeners were attached when the preview mounted. */
    var listening: bool
    var selected: Option<NodeId>
    var hovered: Option<NodeId>

    ghost predicate Valid()
      reads this, doc
    {
      && doc.Valid()
      && (selected.Some? ==> selected.value in doc.nodes && AttrOf(doc.nodes[selected.value], ContentEditable) == Some("true"))
      && (hovered.Some? ==> hovered.value in doc.nodes)
    }

    /** The body or the document element itself: events on them are ignored. */
    predicate IsFrame(target: NodeId)
      reads this, doc
    {
      target == doc.tree.docElement || doc.tree.body == Some(target)
    }

    constructor(d: Document)
      requires d.Valid()
      ensures Valid() && doc == d
      ensures !listening && selected == None && hovered == None
    {
      doc := d;
      listening := false;
      selected := None;
      hovered := None;
    }

    /**
     * The mount effect. A preview mounted minimized does nothing, and never
     * attaches its listeners. Otherwise the shell is written only when the
     * body or #root is missing, and the listeners are attached.
     */
    method Mount(isMinimized: bool)
      requires Valid() && !listening
      modifies this, doc
      ensures Valid()
      ensures selected == old(selected) && hovered == old(hovered)
      ensures listening == !isMinimized
      ensures isMinimized || old(doc.tree.body.Some? && doc.tree.root.Some?) ==> unchanged(doc)
      ensures !isMinimized && old(doc.tree.body.None? || doc.tree.root.None?) ==>
        && doc.tree.body.Some? && doc.tree.root == doc.tree.body
        && doc.tree.content == [] && doc.tree.rootMarkup == ""
        && doc.tree.docElement >= old(doc.nextId)
        && (forall id :: id in old(doc.nodes) ==> id in doc.nodes && doc.nodes[id] == old(doc.nodes)[id])
    {
      if isMinimized {
        return;
      }
      if doc.tree.body.None? || doc.tree.root.None? {
        doc.WriteShell();
      }
      listening := true;
    }

    /** `mouseover`: with nothing selected, the hover highlight moves to the target. */
    method OnMouseOver(target: NodeId)
      requires Valid() && target in doc.nodes
      modifies this, doc
      ensures Valid()
      ensures !old(listening) || old(selected).Some? || old(IsFrame(target)) ==> unchanged(this) && unchanged(doc)
      ensures old(listening) && old(selected).None? && !old(IsFrame(target)) ==>
        && hovered == Some(target) && selected == None && listening
        && doc.nodes == Hover(old(doc.nodes), old(hovered), target)
        && doc.tree == old(doc.tree) && doc.nextId == old(doc.nextId)
    {
      if !listening || selected.Some? || IsFrame(target) {
        return;
      }
      doc.nodes := Hover(doc.nodes, hovered, target);
      hovered := Some(target);
    }

    /** `mouseout`: with nothing selected, the hover highlight is removed. */
    method OnMouseOut()
      requires Valid()
      modifies this, doc
      ensures Valid()
      ensures !old(listening) || old(selected).Some? || old(hovered).None? ==> unchanged(this) && unchanged(doc)
      ensures old(listening) && old(selected).None? && old(hovered).Some? ==>
        && hovered == None && selected == None && listening
        && doc.nodes == ClearOutline(old(doc.nodes), old(hovered).value)
        && doc.tree == old(doc.tree) && doc.nextId == old(doc.nextId)
    {
      if !listening || selected.Some? || hovered.None? {
        return;
      }
      doc.nodes := ClearOutline(doc.nodes, hovered.value);
      hovered := None;
    }

    /**
     * `click`: the target becomes the selection, outlined in red and
     * editable; the previous selection is deselected. The element reported
     * to the settings panel is returned.
     */
    method OnClick(target: NodeId) returns (reported: Option<NodeId>)
      requires Valid() && target in doc.nodes
      modifies this, doc
      ensures Valid()
      ensures reported.None? <==> !old(listening) || old(IsFrame(target))
      ensures reported.None? ==> unchanged(this) && unchanged(doc)
      ensures reported.Some? ==>
        && reported == Some(target) && selected == Some(target)
        && hovered == old(hovered) && listening
        && doc.nodes == Reselect(old(doc.nodes), old(selected), target)
        && doc.tree == old(doc.tree) && doc.nextId == old(doc.nextId)
    {
      if !listening || IsFrame(target) {
        return None;
      }
      doc.nodes := Reselect(doc.nodes, selected, target);
      selected := Some(target);
      reported := Some(target);
    }

    /**
     * `keydown`: Escape deselects. The settings panel is not told, so it
     * keeps showing the element.
     */
    method OnKeyDown(key: string)
      requires Valid()
      modifies this, doc
      ensures Valid()
      ensures !old(listening) || key != "Escape" || old(selected).None? ==> unchanged(this) && unchanged(doc)
      ensures old(listening) && key == "Escape" && old(selected).Some? ==>
        && selected == None && hovered == old(hovered) && listening
        && doc.nodes == Deselect(old(doc.nodes), old(selected).value)
        && doc.tree == old(doc.tree) && doc.nextId == old(doc.nextId)
    {
      if !listening || key != "Escape" || selected.None? {
        return;
      }
      doc.nodes := Deselect(doc.nodes, selected.value);
      selected := None;
    }

    /**
     * The update effect, run whenever the generated code changes: with a
     * #root and code that is not blank, the cleaned code becomes the root's
     * content. `parsed` stands for the elements the browser builds from it.
     * The selection and hover references are left as they are.
     */
    method UpdateContent(generatedCode: string, parsed: seq<Element>)
      requires Valid()
      modifies doc
      ensures Valid()
      ensures doc.tree.root.None? || IsBlank(generatedCode) ==> unchanged(doc)
      ensures doc.tree.root.Some? && !IsBlank(generatedCode) ==>
        && doc.tree == old(doc.tree).(content := Allocated(old(doc.nextId), |parsed|), rootMarkup := CleanCode(generatedCode))
        && doc.nodes == Adopt(old(doc.nodes), old(doc.nextId), parsed)
        && doc.nextId == old(doc.nextId) + |parsed|
    {
      if doc.tree.root.None? || IsBlank(generatedCode) {
        return;
      }
      doc.SetRootContent(CleanCode(generatedCode), parsed);
    }

    /**
     * The save: a deep copy of the document element in which every element
     * below it has its outline and cursor styles removed. The document
     * element itself, attributes and classes are copied unchanged, and the
     * live document is not touched.
     */
    method SaveCode() returns (clone: map<NodeId, Element>)
      requires doc.Valid()
      ensures forall id :: id in clone <==> id == doc.tree.docElement || id in doc.Descendants()
      ensures clone[doc.tree.docElement] == doc.nodes[doc.tree.docElement]
      ensures forall id :: id in doc.Descendants() ==> clone[id] == Scrubbed(doc.nodes[id])
    {
      clone := CloneScrubbed(doc.nodes, doc.tree.docElement, doc.Descendants());
    }
  }

  /**
   * `root.cloneNode(true)` followed by removing the outline and cursor of
   * every element in `all`, the elements below the root `de`.
   */
  method CloneScrubbed(nodes: map<NodeId, Element>, de: NodeId, all: seq<NodeId>) returns (clone: map<NodeId, Element>)
    requires de in nodes && forall j :: 0 <= j < |all| ==> all[j] in nodes && all[j] != de
    ensures forall id :: id in clone <==> id == de || id in all
    ensures clone[de] == nodes[de]
    ensures forall id :: id in all ==> clone[id] == Scrubbed(nodes[id])
  {
    clone := map id | id in nodes && (id == de || id in all) :: nodes[id];
    var i := 0;
    while i < |all|
      invariant 0 <= i <= |all|
      invariant forall id :: id in clone <==> id == de || id in all
      invariant clone[de] == nodes[de]
      invariant forall id :: id in clone ==> clone[id] == if id in all[..i] then Scrubbed(nodes[id]) else nodes[id]
    {
      var id := all[i];
      if id in all[..i] {
        ScrubbedTwice(nodes[id]);
      }
      clone := clone[id := Scrubbed(clone[id])];
      assert all[..i + 1] == all[..i] + [id];
      i := i + 1;
    }
    assert all[..|all|] == all;
  }
}
