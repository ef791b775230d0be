/**
 * The element settings panel: inline style edits and text alignment on the
 * element selected in the preview, and its list of CSS classes, kept in
 * step with the element's `className`.
 */
module Inspector {
  import opened Wrappers
  import opened JsStrings
  import opened JsArrays
  import opened Dom

  // ---------------------------------------------------------------------
  // The class list
  // ---------------------------------------------------------------------

  /** A usable class name: not blank, no space inside. */
  predicate WellFormedClass(c: string) {
    !IsBlank(c) && ' ' !in c
  }

  /** `xs.filter(c => c.trim() !== "")`. */
  function NonBlank(xs: seq<string>): (r: seq<string>)
    ensures forall i :: 0 <= i < |r| ==> !IsBlank(r[i]) && r[i] in xs
    ensures forall c :: multiset(r)[c] == if IsBlank(c) then 0 else multiset(xs)[c]
    ensures Subsequence(r, xs)
    ensures (forall i :: 0 <= i < |xs| ==> !IsBlank(xs[i])) ==> r == xs
  {
    Filter(xs, c => !IsBlank(c))
  }

  /**
   * The class list read from a `className`: every non-blank piece between
   * spaces, as often as it occurs and in order; every entry is well formed.
   */
  function ParseClasses(className: string): (r: seq<string>)
    ensures forall i :: 0 <= i < |r| ==> WellFormedClass(r[i])
    ensures forall c :: multiset(r)[c] == if IsBlank(c) then 0 else multiset(Split(className, ' '))[c]
    ensures Subsequence(r, Split(className, ' '))
  {
    var pieces := Split(className, ' ');
    var r := NonBlank(pieces);
    PiecesOfPieces(r, pieces);
    r
  }

  /** Entries taken from space-free pieces are space-free. */
  lemma PiecesOfPieces(r: seq<string>, pieces: seq<string>)
    requires forall i :: 0 <= i < |r| ==> r[i] in pieces
    requires forall k :: 0 <= k < |pieces| ==> ' ' !in pieces[k]
    ensures forall i :: 0 <= i < |r| ==> ' ' !in r[i]
  {
    forall i | 0 <= i < |r| ensures ' ' !in r[i] {
      var k :| 0 <= k < |pieces| && pieces[k] == r[i];
    }
  }

  /** The `className` written for a class list. */
  function ClassName(classes: seq<string>): string {
    Join(classes, " ")
  }

  /** Reading back a `className` the panel wrote gives the same list of well-formed classes. */
  lemma ParseClassName(classes: seq<string>)
    requires forall i :: 0 <= i < |classes| ==> WellFormedClass(classes[i])
    ensures ParseClasses(ClassName(classes)) == classes
  {
    if |classes| == 0 {
      assert IsBlank("");
    } else {
      SplitJoin(classes, ' ');
    }
  }

  /** The class list after `addClass` with the text typed in the input. */
  function AddedClasses(classes: seq<string>, input: string): seq<string> {
    var t := Trim(input);
    if t == "" || t in classes then classes else classes + [t]
  }

  /** The trimmed text of a non-blank input is not blank itself. */
  lemma TrimmedNotBlank(input: string)
    requires Trim(input) != ""
    ensures !IsBlank(Trim(input))
  {
    TrimEnds(input);
    BlankIff(Trim(input));
  }

  /** Adding either changes nothing or appends the trimmed input, which was not there before. */
  lemma AddAppends(classes: seq<string>, input: string)
    ensures var r := AddedClasses(classes, input);
      r == classes || (r == classes + [Trim(input)] && Trim(input) !in classes && !IsBlank(Trim(input)))
    ensures AddedClasses(classes, input) == classes <==> IsBlank(input) || Trim(input) in classes
  {
    if Trim(input) != "" {
      TrimmedNotBlank(input);
    }
  }

  /** Adding never introduces a duplicate. */
  lemma AddKeepsNoDup(classes: seq<string>, input: string)
    requires NoDup(classes)
    ensures NoDup(AddedClasses(classes, input))
  {
  }

  /**
   * When the typed class has no inner space, the observer's re-reading of
   * the written `className` agrees with the list the panel set.
   */
  lemma AddThenObserve(classes: seq<string>, input: string)
    requires forall i :: 0 <= i < |classes| ==> WellFormedClass(classes[i])
    requires ' ' !in Trim(input)
    ensures ParseClasses(ClassName(AddedClasses(classes, input))) == AddedClasses(classes, input)
  {
    var r := AddedClasses(classes, input);
    if Trim(input) != "" {
      TrimmedNotBlank(input);
    }
    ParseClassName(r);
  }

  lemma AddWithInnerSpaceList()
    ensures AddedClasses(["a"], "a b") == ["a", "a b"]
  {
    var s := "a b";
    assert !IsJsSpace(s[0]) && TrimStart(s) == s;
    assert !IsJsSpace(s[|s| - 1]) && TrimEnd(s) == s;
  }

  lemma AddWithInnerSpaceSplit()
    ensures Split(ClassName(["a", "a b"]), ' ') == ["a", "a", "b"]
  {
    assert ClassName(["a", "a b"]) == "a" + [' '] + ("a" + [' '] + "b");
    SplitAtSeparator("a", ' ', "a" + [' '] + "b");
    SplitAtSeparator("a", ' ', "b");
    SplitFree("b", ' ');
  }

  /**
   * With an inner space the observer splits the added entry, and the list
   * can then hold the same class twice.
   */
  lemma AddWithInnerSpace()
    ensures AddedClasses(["a"], "a b") == ["a", "a b"]
    ensures ParseClasses(ClassName(["a", "a b"])) == ["a", "a", "b"]
    ensures !NoDup(ParseClasses(ClassName(AddedClasses(["a"], "a b"))))
  {
    AddWithInnerSpaceList();
    AddWithInnerSpaceSplit();
    assert TrimStart("a") == "a" && TrimEnd("a") == "a" && !IsBlank("a");
    assert TrimStart("b") == "b" && TrimEnd("b") == "b" && !IsBlank("b");
    var r := ParseClasses(ClassName(["a", "a b"]));
    assert r[0] == r[1];
  }

  /** Removing a class the panel just added gives back the list it had. */
  lemma RemoveUndoesAdd(classes: seq<string>, input: string)
    requires !IsBlank(input) && Trim(input) !in classes
    ensures RemoveAll(AddedClasses(classes, input), Trim(input)) == classes
  {
    RemoveAllAppended(classes, Trim(input));
  }

  /** The observer's re-reading after a removal agrees with the list the panel set. */
  lemma RemoveThenObserve(classes: seq<string>, cls: string)
    requires forall i :: 0 <= i < |classes| ==> WellFormedClass(classes[i])
    ensures ParseClasses(ClassName(RemoveAll(classes, cls))) == RemoveAll(classes, cls)
  {
    var r := RemoveAll(classes, cls);
    assert forall i :: 0 <= i < |r| ==> r[i] in classes;
    ParseClassName(r);
  }

  // ---------------------------------------------------------------------
  // The panel
  // ---------------------------------------------------------------------

  class ElementSettings {
    const doc: Document
    /** The element the preview reported, if any. */
    var selectedEl: Option<NodeId>
    var classes: seq<string>
    /** The text in the "add class" input. */
    var newClass: string
    /** The alignment toggle; "" when none is chosen. */
    var align: string

    ghost predicate Valid()
      reads this, doc
    {
      doc.Valid() && (selectedEl.Some? ==> selectedEl.value in doc.nodes)
    }

    /**
     * Mounting: the alignment is read once from the element shown first and
     * the class list is read from its `className`. The mount's alignment
     * write stores the value just read, so the element does not change.
     */
    constructor(d: Document, el: Option<NodeId>)
      requires d.Valid() && (el.Some? ==> el.value in d.nodes)
      ensures Valid() && doc == d && selectedEl == el && newClass == ""
      ensures align == (if el.Some? then StyleOf(d.nodes[el.value], TextAlign) else "")
      ensures classes == (if el.Some? then ParseClasses(d.nodes[el.value].className) else [])
    {
      doc := d;
      selectedEl := el;
      newClass := "";
      align := if el.Some? then StyleOf(d.nodes[el.value], TextAlign) else "";
      classes := if el.Some? then ParseClasses(d.nodes[el.value].className) else [];
    }

    /**
     * The selected element changes. The alignment is not read again: a
     * chosen alignment is written onto the newly selected element. Its
     * classes are read from its `className`.
     */
    method Select(el: Option<NodeId>)
      requires Valid() && (el.Some? ==> el.value in doc.nodes)
      modifies this, doc
      ensures Valid() && selectedEl == el
      ensures align == old(align) && newClass == old(newClass)
      ensures doc.tree == old(doc.tree) && doc.nextId == old(doc.nextId)
      ensures el == old(selectedEl) ==> unchanged(this) && unchanged(doc)
      ensures el != old(selectedEl) ==>
        && doc.nodes == (if el.Some? && align != "" then old(doc.nodes)[el.value := WithStyle(old(doc.nodes)[el.value], TextAlign, align)] else old(doc.nodes))
        && classes == (if el.Some? then ParseClasses(doc.nodes[el.value].className) else old(classes))
    {
      if el == selectedEl {
        return;
      }
      selectedEl := el;
      if el.Some? {
        var id := el.value;
        // The alignment write leaves `className` as it is, so reading the
        // classes first gives the list the class effect reads after it.
        classes := ParseClasses(doc.nodes[id].className);
        if align != "" {
          doc.SetStyle(id, TextAlign, align);
        }
      }
    }

    /** `applyStyle`: one inline style property of the selected element is set. */
    method ApplyStyle(prop: string, value: string)
      requires Valid()
      modifies doc
      ensures Valid() && doc.tree == old(doc.tree) && doc.nextId == old(doc.nextId)
      ensures selectedEl.None? ==> doc.nodes == old(doc.nodes)
      ensures selectedEl.Some? ==> doc.nodes == old(doc.nodes)[selectedEl.value := WithStyle(old(doc.nodes)[selectedEl.value], prop, value)]
    {
      if selectedEl.Some? {
        doc.SetStyle(selectedEl.value, prop, value);
      }
    }

    /**
     * The alignment toggle changes. Choosing the current value again is no
     * change; clearing the toggle leaves the element's alignment as it is.
     */
    method SetAlign(a: string)
      requires Valid()
      modifies this, doc
      ensures Valid() && align == a
      ensures selectedEl == old(selectedEl) && classes == old(classes) && newClass == old(newClass)
      ensures doc.tree == old(doc.tree) && doc.nextId == old(doc.nextId)
      ensures doc.nodes == (if a != old(align) && selectedEl.Some? && a != "" then old(doc.nodes)[selectedEl.value := WithStyle(old(doc.nodes)[selectedEl.value], TextAlign, a)] else old(doc.nodes))
    {
      if a == align {
        return;
      }
      align := a;
      if selectedEl.Some? && a != "" {
        doc.SetStyle(selectedEl.value, TextAlign, a);
      }
    }

    /** Typing in the "add class" input. */
    method SetNewClass(text: string)
      modifies this
      ensures newClass == text
      ensures selectedEl == old(selectedEl) && classes == old(classes) && align == old(align)
    {
      newClass := text;
    }

    /**
     * `addClass`: a blank input is ignored and left in the input; otherwise
     * the trimmed input is appended unless present, written to the
     * element's `className` (which the observer reads back), and the input
     * is cleared.
     */
    method AddClass()
      requires Valid()
      modifies this, doc
      ensures Valid() && selectedEl == old(selectedEl) && align == old(align)
      ensures doc.tree == old(doc.tree) && doc.nextId == old(doc.nextId)
      ensures newClass == if IsBlank(old(newClass)) then old(newClass) else ""
      ensures var added := AddedClasses(old(classes), old(newClass));
        if added == old(classes) then classes == old(classes) && doc.nodes == old(doc.nodes)
        else if selectedEl.None? then classes == added && doc.nodes == old(doc.nodes)
        else
          && doc.nodes == old(doc.nodes)[selectedEl.value := old(doc.nodes)[selectedEl.value].(className := ClassName(added))]
          && classes == ParseClasses(ClassName(added))
    {
      var trimmed := Trim(newClass);
      if trimmed == "" {
        return;
      }
      if trimmed !in classes {
        var updated := classes + [trimmed];
        classes := updated;
        if selectedEl.Some? {
          doc.SetClassName(selectedEl.value, ClassName(updated));
          OnClassMutation();
        }
      }
      newClass := "";
    }

    /**
     * `removeClass`: every occurrence of the class is dropped and the rest
     * written to the element's `className` (which the observer reads back).
     */
    method RemoveClass(cls: string)
      requires Valid()
      modifies this, doc
      ensures Valid() && selectedEl == old(selectedEl) && align == old(align) && newClass == old(newClass)
      ensures doc.tree == old(doc.tree) && doc.nextId == old(doc.nextId)
      ensures var updated := RemoveAll(old(classes), cls);
        if selectedEl.None? then classes == updated && doc.nodes == old(doc.nodes)
        else
          && doc.nodes == old(doc.nodes)[selectedEl.value := old(doc.nodes)[selectedEl.value].(className := ClassName(updated))]
          && classes == ParseClasses(ClassName(updated))
    {
      var updated := RemoveAll(classes, cls);
      classes := updated;
      if selectedEl.Some? {
        doc.SetClassName(selectedEl.value, ClassName(updated));
        OnClassMutation();
      }
    }

    /** The mutation observer: a change of the selected element's class attribute is read back. */
    method OnClassMutation()
      requires Valid()
      modifies this
      ensures Valid() && selectedEl == old(selectedEl) && align == old(align) && newClass == old(newClass)
      ensures classes == if selectedEl.Some? then ParseClasses(doc.nodes[selectedEl.value].className) else old(classes)
    {
      if selectedEl.Some? {
        classes := ParseClasses(doc.nodes[selectedEl.value].className);
      }
    }
  }
}
