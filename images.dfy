/**
 * The image settings panel: a preview URL mirrored into the selected
 * image's `src`, ImageKit transformations toggled in that URL, an
 * AI-generated image URL built from the prompt, and the upload of a chosen
 * file.
 */
module ImageSettings {
  import opened Wrappers
  import opened JsStrings
  import opened JsArrays
  import opened Dom

  /** The ImageKit transformation of each transform button, in button order. */
  const Transformations := ["fo-auto", "e-dropshadow", "e-upscale", "e-bgremove"]

  /** The URL prefix of ImageKit's prompt-to-image generation. */
  const GenPrefix := "https://ik.imagekit.io/ujjawal04/ik-genimg-prompt-"
  const GenSuffix := ".png?tr="
  const TrQuery := "?tr="

  /** A chosen file; its bytes are not modelled. */
  datatype ImageFile = ImageFile(name: string)

  // ---------------------------------------------------------------------
  // The list of active transforms
  // ---------------------------------------------------------------------

  /** `toggleTransform`: a present value is removed everywhere, an absent one appended. */
  function Toggled(xs: seq<string>, v: string): seq<string> {
    if v in xs then RemoveAll(xs, v) else xs + [v]
  }

  /** Toggling flips membership; toggling an absent value twice gives back the list. */
  lemma ToggleTwice(xs: seq<string>, v: string)
    ensures v in Toggled(xs, v) <==> v !in xs
    ensures v !in xs ==> Toggled(Toggled(xs, v), v) == xs
  {
    if v !in xs {
      RemoveAllAppended(xs, v);
    }
  }

  // ---------------------------------------------------------------------
  // Transformations in the URL
  // ---------------------------------------------------------------------

  /**
   * `ApplyTransformation`'s URL: an absent transformation is appended with
   * a trailing comma; a present one has every "value," removed.
   */
  function TransformedUrl(url: string, tr: string): string {
    if !Contains(url, tr) then url + tr + "," else ReplaceAll(url, tr + ",", "")
  }

  /** A transform button shows as applied exactly when its transformation is in the URL. */
  predicate Applied(url: string, tr: string) {
    Contains(url, tr)
  }

  /** Applying an absent transformation appends it, and its button then shows as applied. */
  lemma TransformAppends(url: string, tr: string)
    requires !Applied(url, tr)
    ensures TransformedUrl(url, tr) == url + tr + ","
    ensures Applied(TransformedUrl(url, tr), tr)
  {
    var s := url + tr + ",";
    assert OccursAt(s, tr, |url|) by {
      assert s[|url|..|url| + |tr|] == tr;
    }
    ContainsIff(s, tr);
  }

  /** A transformation present only without its comma (at the very end) cannot be removed. */
  lemma TransformStuck(url: string, tr: string)
    requires Applied(url, tr) && !Contains(url, tr + ",")
    ensures TransformedUrl(url, tr) == url
  {
  }

  /** No occurrence of tr + "," starts inside a text free of tr when tr has no comma. */
  lemma NoEarlyOccurrence(base: string, tr: string, i: nat)
    requires ',' !in tr && tr != "" && !Contains(base, tr) && i < |base|
    ensures !OccursAt(base + tr + ",", tr + ",", i)
  {
    var s := base + tr + ",";
    var p := tr + ",";
    if i + |tr| <= |base| {
      ContainsIff(base, tr);
      assert s[i..i + |tr|] == base[i..i + |tr|];
      assert OccursAt(s, tr, i) <==> OccursAt(base, tr, i);
      assert p[..|tr|] == tr;
    } else {
      var k := i + |tr| - |base|;
      assert s[i + |tr|] == tr[k] && tr[k] in tr;
      assert p[|tr|] == ',';
      MismatchAt(s, p, i, |tr|);
    }
  }

  /** For a comma-free transformation absent from the URL, applying it twice gives back the URL. */
  lemma TransformTwice(base: string, tr: string)
    requires ',' !in tr && tr != "" && !Applied(base, tr)
    ensures TransformedUrl(TransformedUrl(base, tr), tr) == base
  {
    TransformAppends(base, tr);
    var p := tr + ",";
    var s := base + tr + ",";
    assert s == base + p;
    forall i | 0 <= i < |base| ensures !OccursAt(base + p, p, i) {
      NoEarlyOccurrence(base, tr, i);
    }
    ReplaceAllSkips(base, p, p, "");
    assert p == p + "";
    ReplaceAllFront(p, "", "");
  }

  // ---------------------------------------------------------------------
  // The generated image URL
  // ---------------------------------------------------------------------

  /** The URL of an image generated from the prompt at time `now` (milliseconds). */
  function AiImageUrl(altText: string, now: nat): string {
    GenPrefix + altText + "/" + NatToString(now) + GenSuffix
  }

  /** Texts each followed by '/' and a '/'-free text split the same way only if they are equal. */
  lemma SlashSplit(a: string, x: string, b: string, y: string)
    requires '/' !in x && '/' !in y && a + "/" + x == b + "/" + y
    ensures a == b && x == y
  {
    var s := a + "/" + x;
    var t := b + "/" + y;
    assert s[|a|] == '/' && t[|b|] == '/';
    assert forall k :: |a| < k < |s| ==> s[k] == x[k - |a| - 1];
    assert forall k :: |b| < k < |t| ==> t[k] == y[k - |b| - 1];
    assert |a| == |b|;
    assert a == s[..|a|] && b == t[..|b|];
    assert x == s[|a| + 1..] && y == t[|b| + 1..];
  }

  /** Any two prompts generate the same URL only with the same prompt and time. */
  lemma AiImageUrlInjective(a: string, n: nat, b: string, m: nat)
    requires AiImageUrl(a, n) == AiImageUrl(b, m)
    ensures a == b && n == m
  {
    assert forall i :: 0 <= i < |GenSuffix| ==> GenSuffix[i] != '/';
    FramedInjective(GenPrefix, GenSuffix, a, n, b, m);
  }

  /** The same, for any fixed text before the prompt and any '/'-free text after the time. */
  lemma FramedInjective(pre: string, suf: string, a: string, n: nat, b: string, m: nat)
    requires '/' !in suf
    requires pre + a + "/" + NatToString(n) + suf == pre + b + "/" + NatToString(m) + suf
    ensures a == b && n == m
  {
    var x, y := NatToString(n), NatToString(m);
    SlashRegroup(pre + a, x, suf);
    SlashRegroup(pre + b, y, suf);
    assert '/' !in x + suf && '/' !in y + suf;
    SlashSplit(pre + a, x + suf, pre + b, y + suf);
    CutPrefix(pre, a, b);
    CutSuffix(x, suf, y);
    NatToStringInjective(n, m);
  }

  lemma SlashRegroup(u: string, x: string, suf: string)
    ensures u + "/" + x + suf == u + "/" + (x + suf)
  {
  }

  lemma CutPrefix(p: string, u: string, v: string)
    requires p + u == p + v
    ensures u == v
  {
    assert u == (p + u)[|p|..];
    assert v == (p + v)[|p|..];
  }

  lemma CutSuffix(u: string, s: string, v: string)
    requires u + s == v + s
    ensures u == v
  {
    assert |u| == |v|;
    assert u == (u + s)[..|u|];
    assert v == (v + s)[..|v|];
  }

  // ---------------------------------------------------------------------
  // The panel
  // ---------------------------------------------------------------------

  class ImageSettingsPanel {
    const doc: Document
    /** The image element the panel edits: the one selected last. */
    var selectedEl: NodeId
    /** The prompt, initially the image's alt text. */
    var altText: string
    /** The URL shown in the panel's preview. */
    var preview: string
    var loading: bool
    var activeTransforms: seq<string>
    var selectedImage: Option<ImageFile>

    ghost predicate Valid()
      reads this, doc
    {
      doc.Valid() && selectedEl in doc.nodes
    }

    /** The image's `src` shows what the panel's preview shows. */
    predicate Mirrored()
      requires Valid()
      reads this, doc
    {
      AttrOf(doc.nodes[selectedEl], Src) == Some(preview)
    }

    /**
     * The panel opens on the image's alt text and source, idle, with no
     * file chosen. The source is the image's `src` property, which the
     * browser resolves against the page's address; it is given here as
     * `resolvedSrc`.
     */
    constructor(d: Document, el: NodeId, resolvedSrc: string)
      requires d.Valid() && el in d.nodes
      ensures Valid() && doc == d && selectedEl == el
      ensures altText == AttrOf(d.nodes[el], Alt).GetOr("") && preview == resolvedSrc
      ensures !loading && activeTransforms == [] && selectedImage == None
    {
      doc := d;
      selectedEl := el;
      altText := AttrOf(d.nodes[el], Alt).GetOr("");
      preview := resolvedSrc;
      loading := false;
      activeTransforms := [];
      selectedImage := None;
    }

    /**
     * Another image is selected while the panel is open. The panel stays
     * mounted, so the prompt, the preview, the active transforms and the
     * chosen file are those of the earlier image: a later transformation or
     * generated image is computed from them and written into the newly
     * selected image.
     */
    method SelectImage(el: NodeId)
      requires Valid() && el in doc.nodes
      modifies this
      ensures Valid() && selectedEl == el
      ensures altText == old(altText) && preview == old(preview) && loading == old(loading)
      ensures activeTransforms == old(activeTransforms) && selectedImage == old(selectedImage)
    {
      selectedEl := el;
    }

    /** Typing in the prompt input. */
    method SetAltText(text: string)
      modifies this
      ensures altText == text && preview == old(preview) && loading == old(loading) && selectedEl == old(selectedEl)
      ensures activeTransforms == old(activeTransforms) && selectedImage == old(selectedImage)
    {
      altText := text;
    }

    /** `toggleTransform`. */
    method ToggleTransform(v: string)
      modifies this
      ensures activeTransforms == Toggled(old(activeTransforms), v)
      ensures altText == old(altText) && preview == old(preview) && loading == old(loading) && selectedImage == old(selectedImage) && selectedEl == old(selectedEl)
    {
      activeTransforms := Toggled(activeTransforms, v);
    }

    /**
     * `GenerateAiImage`: the generated URL becomes the preview and the
     * image's `src`; the panel is loading until the preview reports it loaded.
     */
    method GenerateAiImage(now: nat)
      requires Valid()
      modifies this, doc
      ensures Valid() && Mirrored() && loading
      ensures preview == AiImageUrl(old(altText), now)
      ensures altText == old(altText) && activeTransforms == old(activeTransforms) && selectedImage == old(selectedImage)
      ensures doc.tree == old(doc.tree) && doc.nextId == old(doc.nextId)
      ensures selectedEl == old(selectedEl)
      ensures doc.nodes == old(doc.nodes)[selectedEl := WithAttr(old(doc.nodes[selectedEl]), Src, preview)]
    {
      loading := true;
      var url := AiImageUrl(altText, now);
      preview := url;
      doc.SetAttribute(selectedEl, Src, url);
    }

    /**
     * `ApplyTransformation`: the transformed URL becomes the preview and
     * the image's `src`; the panel is loading until the preview reports it loaded.
     */
    method ApplyTransformation(tr: string)
      requires Valid()
      modifies this, doc
      ensures Valid() && Mirrored() && loading
      ensures preview == TransformedUrl(old(preview), tr)
      ensures altText == old(altText) && activeTransforms == old(activeTransforms) && selectedImage == old(selectedImage)
      ensures doc.tree == old(doc.tree) && doc.nextId == old(doc.nextId)
      ensures selectedEl == old(selectedEl)
      ensures doc.nodes == old(doc.nodes)[selectedEl := WithAttr(old(doc.nodes[selectedEl]), Src, preview)]
    {
      loading := true;
      if !Contains(preview, tr) {
        var url := preview + tr + ",";
        preview := url;
        doc.SetAttribute(selectedEl, Src, url);
      } else {
        var url := ReplaceAll(preview, tr + ",", "");
        preview := url;
        doc.SetAttribute(selectedEl, Src, url);
      }
    }

    /**
     * A file is chosen: it is kept for upload and its data URL (read by the
     * browser, given here) becomes the preview; the image itself is not changed.
     * Closing the dialog without a file changes nothing.
     */
    method HandleFileChange(file: Option<ImageFile>, dataUrl: string)
      modifies this
      ensures file.None? ==> unchanged(this)
      ensures file.Some? ==> selectedImage == file && preview == dataUrl
      ensures altText == old(altText) && loading == old(loading) && activeTransforms == old(activeTransforms) && selectedEl == old(selectedEl)
    {
      if file.None? {
        return;
      }
      selectedImage := file;
      preview := dataUrl;
    }

    /**
     * `saveUploadedFile`: without a chosen file nothing happens. Otherwise
     * the uploaded file's URL (returned by the upload, given here) with
     * "?tr=" appended becomes the image's `src`. The preview keeps showing
     * the file's data URL.
     */
    method SaveUploadedFile(uploadedUrl: string)
      requires Valid()
      modifies this, doc
      ensures Valid()
      ensures old(selectedImage).None? ==> unchanged(this) && unchanged(doc)
      ensures old(selectedImage).Some? ==>
        && !loading && preview == old(preview)
        && altText == old(altText) && activeTransforms == old(activeTransforms) && selectedImage == old(selectedImage)
        && doc.tree == old(doc.tree) && doc.nextId == old(doc.nextId)
        && selectedEl == old(selectedEl)
        && doc.nodes == old(doc.nodes)[selectedEl := WithAttr(old(doc.nodes[selectedEl]), Src, uploadedUrl + TrQuery)]
    {
      if selectedImage.None? {
        return;
      }
      loading := true;
      doc.SetAttribute(selectedEl, Src, uploadedUrl + TrQuery);
      loading := false;
    }

    /** The preview image finished loading. */
    method OnPreviewLoaded()
      modifies this
      ensures !loading
      ensures altText == old(altText) && preview == old(preview) && activeTransforms == old(activeTransforms) && selectedImage == old(selectedImage) && selectedEl == old(selectedEl)
    {
      loading := false;
    }
  }
}
