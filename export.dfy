/**
 * The export toolbar of the playground: the generated markup is spliced
 * into a fixed HTML page template, then run through a chain of clean-up
 * replacements, and the result is what "Open", "Code" and "Export" use.
 *
 * The template is a long literal; it is declared in small pieces, each
 * with a lemma that it holds neither a brace nor a backtick, so that the
 * properties of the pipeline can be proved from those facts alone.
 */
module Export {
  import opened Wrappers
  import opened JsStrings

  // ---------------------------------------------------------------------
  // The page template
  // ---------------------------------------------------------------------

  /** Text that holds neither the placeholder's `{` nor a fence's backtick. */
  predicate Inert(s: string) {
    '{' !in s && '`' !in s
  }

  lemma InertCat(a: string, b: string)
    requires Inert(a) && Inert(b)
    ensures Inert(a + b)
  {
  }

  const Doctype := "<!DOCTYPE "
  const HtmlWord := "html"

  // The template after `<!DOCTYPE html>`, up to the placeholder, in pieces.
  const H00 := "\n      <html lang=\"en\">\n"
  lemma H00Inert() ensures Inert(H00) { }
  const H01 := "      <head>\n        <meta c"
  lemma H01Inert() ensures Inert(H01) { }
  const H02 := "harset=\"UTF-8\" />\n"
  lemma H02Inert() ensures Inert(H02) { }
  const H03 := "        <meta name=\"viewport"
  lemma H03Inert() ensures Inert(H03) { }
  const H04 := "\" content=\"width=device-widt"
  lemma H04Inert() ensures Inert(H04) { }
  const H05 := "h, initial-scale=1.0\" />\n"
  lemma H05Inert() ensures Inert(H05) { }
  const H06 := "        <meta name=\"descript"
  lemma H06Inert() ensures Inert(H06) { }
  const H07 := "ion\" content=\"AI Website Bui"
  lemma H07Inert() ensures Inert(H07) { }
  const H08 := "lder - Modern TailwindCSS + "
  lemma H08Inert() ensures Inert(H08) { }
  const H09 := "Flowbite Template\" />\n"
  lemma H09Inert() ensures Inert(H09) { }
  const H10 := "        <title>Webyrix</titl"
  lemma H10Inert() ensures Inert(H10) { }
  const H11 := "e>\n\n        <!-- Tailwind CS"
  lemma H11Inert() ensures Inert(H11) { }
  const H12 := "S -->\n        <script src=\"h"
  lemma H12Inert() ensures Inert(H12) { }
  const H13 := "ttps://cdn.tailwindcss.com\">"
  lemma H13Inert() ensures Inert(H13) { }
  const H14 := "</script>\n\n        <!-- Flow"
  lemma H14Inert() ensures Inert(H14) { }
  const H15 := "bite CSS & JS -->\n"
  lemma H15Inert() ensures Inert(H15) { }
  const H16 := "        <link href=\"https://"
  lemma H16Inert() ensures Inert(H16) { }
  const H17 := "cdnjs.cloudflare.com/ajax/li"
  lemma H17Inert() ensures Inert(H17) { }
  const H18 := "bs/flowbite/2.3.0/flowbite.m"
  lemma H18Inert() ensures Inert(H18) { }
  const H19 := "in.css\" rel=\"stylesheet\" />\n"
  lemma H19Inert() ensures Inert(H19) { }
  const H20 := "        <script src=\"https:/"
  lemma H20Inert() ensures Inert(H20) { }
  const H21 := "/cdnjs.cloudflare.com/ajax/l"
  lemma H21Inert() ensures Inert(H21) { }
  const H22 := "ibs/flowbite/2.3.0/flowbite."
  lemma H22Inert() ensures Inert(H22) { }
  const H23 := "min.js\"></script>\n"
  lemma H23Inert() ensures Inert(H23) { }
  const H24 := "\n        <!-- Font Awesome /"
  lemma H24Inert() ensures Inert(H24) { }
  const H25 := " Lucide -->\n        <script "
  lemma H25Inert() ensures Inert(H25) { }
  const H26 := "src=\"https://unpkg.com/lucid"
  lemma H26Inert() ensures Inert(H26) { }
  const H27 := "e@latest/dist/umd/lucide.js\""
  lemma H27Inert() ensures Inert(H27) { }
  const H28 := "></script>\n\n        <!-- Cha"
  lemma H28Inert() ensures Inert(H28) { }
  const H29 := "rt.js -->\n        <script sr"
  lemma H29Inert() ensures Inert(H29) { }
  const H30 := "c=\"https://cdn.jsdelivr.net/"
  lemma H30Inert() ensures Inert(H30) { }
  const H31 := "npm/chart.js\"></script>\n"
  lemma H31Inert() ensures Inert(H31) { }
  const H32 := "\n        <!-- AOS -->\n"
  lemma H32Inert() ensures Inert(H32) { }
  const H33 := "        <link href=\"https://"
  lemma H33Inert() ensures Inert(H33) { }
  const H34 := "cdnjs.cloudflare.com/ajax/li"
  lemma H34Inert() ensures Inert(H34) { }
  const H35 := "bs/aos/2.3.4/aos.css\" rel=\"s"
  lemma H35Inert() ensures Inert(H35) { }
  const H36 := "tylesheet\" />\n"
  lemma H36Inert() ensures Inert(H36) { }
  const H37 := "        <script src=\"https:/"
  lemma H37Inert() ensures Inert(H37) { }
  const H38 := "/cdnjs.cloudflare.com/ajax/l"
  lemma H38Inert() ensures Inert(H38) { }
  const H39 := "ibs/aos/2.3.4/aos.js\"></scri"
  lemma H39Inert() ensures Inert(H39) { }
  const H40 := "pt>\n\n        <!-- GSAP -->\n"
  lemma H40Inert() ensures Inert(H40) { }
  const H41 := "        <script src=\"https:/"
  lemma H41Inert() ensures Inert(H41) { }
  const H42 := "/cdnjs.cloudflare.com/ajax/l"
  lemma H42Inert() ensures Inert(H42) { }
  const H43 := "ibs/gsap/3.12.2/gsap.min.js\""
  lemma H43Inert() ensures Inert(H43) { }
  const H44 := "></script>\n\n        <!-- Lot"
  lemma H44Inert() ensures Inert(H44) { }
  const H45 := "tie -->\n        <script src="
  lemma H45Inert() ensures Inert(H45) { }
  const H46 := "\"https://cdnjs.cloudflare.co"
  lemma H46Inert() ensures Inert(H46) { }
  const H47 := "m/ajax/libs/lottie-web/5.11."
  lemma H47Inert() ensures Inert(H47) { }
  const H48 := "2/lottie.min.js\"></script>\n"
  lemma H48Inert() ensures Inert(H48) { }
  const H49 := "\n        <!-- Swiper -->\n"
  lemma H49Inert() ensures Inert(H49) { }
  const H50 := "        <link href=\"https://"
  lemma H50Inert() ensures Inert(H50) { }
  const H51 := "cdn.jsdelivr.net/npm/swiper@"
  lemma H51Inert() ensures Inert(H51) { }
  const H52 := "10/swiper-bundle.min.css\" re"
  lemma H52Inert() ensures Inert(H52) { }
  const H53 := "l=\"stylesheet\" />\n"
  lemma H53Inert() ensures Inert(H53) { }
  const H54 := "        <script src=\"https:/"
  lemma H54Inert() ensures Inert(H54) { }
  const H55 := "/cdn.jsdelivr.net/npm/swiper"
  lemma H55Inert() ensures Inert(H55) { }
  const H56 := "@10/swiper-bundle.min.js\"></"
  lemma H56Inert() ensures Inert(H56) { }
  const H57 := "script>\n\n        <!-- Tippy."
  lemma H57Inert() ensures Inert(H57) { }
  const H58 := "js -->\n        <link href=\"h"
  lemma H58Inert() ensures Inert(H58) { }
  const H59 := "ttps://unpkg.com/tippy.js@6/"
  lemma H59Inert() ensures Inert(H59) { }
  const H60 := "dist/tippy.css\" rel=\"stylesh"
  lemma H60Inert() ensures Inert(H60) { }
  const H61 := "eet\" />\n        <script src="
  lemma H61Inert() ensures Inert(H61) { }
  const H62 := "\"https://unpkg.com/@popperjs"
  lemma H62Inert() ensures Inert(H62) { }
  const H63 := "/core@2\"></script>\n"
  lemma H63Inert() ensures Inert(H63) { }
  const H64 := "        <script src=\"https:/"
  lemma H64Inert() ensures Inert(H64) { }
  const H65 := "/unpkg.com/tippy.js@6\"></scr"
  lemma H65Inert() ensures Inert(H65) { }
  const H66 := "ipt>\n      </head>\n"
  lemma H66Inert() ensures Inert(H66) { }
  const H67 := "      <body id=\"root\">\n"
  lemma H67Inert() ensures Inert(H67) { }
  const H68 := "      "
  lemma H68Inert() ensures Inert(H68) { }

  /** The pieces laid end to end. */
  function Joined(xs: seq<string>): string
    decreases |xs|
  {
    if xs == [] then "" else xs[0] + Joined(xs[1..])
  }

  lemma {:induction false} JoinedInert(xs: seq<string>)
    requires forall i :: 0 <= i < |xs| ==> Inert(xs[i])
    ensures Inert(Joined(xs))
    decreases |xs|
  {
    if xs != [] {
      JoinedInert(xs[1..]);
      InertCat(xs[0], Joined(xs[1..]));
    }
  }

  const Part0 := [H00, H01, H02, H03, H04, H05, H06, H07]
  lemma Part0Inert() ensures forall i :: 0 <= i < |Part0| ==> Inert(Part0[i]) {
    H00Inert();
    H01Inert();
    H02Inert();
    H03Inert();
    H04Inert();
    H05Inert();
    H06Inert();
    H07Inert();
  }
  const Part1 := [H08, H09, H10, H11, H12, H13, H14, H15]
  lemma Part1Inert() ensures forall i :: 0 <= i < |Part1| ==> Inert(Part1[i]) {
    H08Inert();
    H09Inert();
    H10Inert();
    H11Inert();
    H12Inert();
    H13Inert();
    H14Inert();
    H15Inert();
  }
  const Part2 := [H16, H17, H18, H19, H20, H21, H22, H23]
  lemma Part2Inert() ensures forall i :: 0 <= i < |Part2| ==> Inert(Part2[i]) {
    H16Inert();
    H17Inert();
    H18Inert();
    H19Inert();
    H20Inert();
    H21Inert();
    H22Inert();
    H23Inert();
  }
  const Part3 := [H24, H25, H26, H27, H28, H29, H30, H31]
  lemma Part3Inert() ensures forall i :: 0 <= i < |Part3| ==> Inert(Part3[i]) {
    H24Inert();
    H25Inert();
    H26Inert();
    H27Inert();
    H28Inert();
    H29Inert();
    H30Inert();
    H31Inert();
  }
  const Part4 := [H32, H33, H34, H35, H36, H37, H38, H39]
  lemma Part4Inert() ensures forall i :: 0 <= i < |Part4| ==> Inert(Part4[i]) {
    H32Inert();
    H33Inert();
    H34Inert();
    H35Inert();
    H36Inert();
    H37Inert();
    H38Inert();
    H39Inert();
  }
  const Part5 := [H40, H41, H42, H43, H44, H45, H46, H47]
  lemma Part5Inert() ensures forall i :: 0 <= i < |Part5| ==> Inert(Part5[i]) {
    H40Inert();
    H41Inert();
    H42Inert();
    H43Inert();
    H44Inert();
    H45Inert();
    H46Inert();
    H47Inert();
  }
  const Part6 := [H48, H49, H50, H51, H52, H53, H54, H55]
  lemma Part6Inert() ensures forall i :: 0 <= i < |Part6| ==> Inert(Part6[i]) {
    H48Inert();
    H49Inert();
    H50Inert();
    H51Inert();
    H52Inert();
    H53Inert();
    H54Inert();
    H55Inert();
  }
  const Part7 := [H56, H57, H58, H59, H60, H61, H62, H63]
  lemma Part7Inert() ensures forall i :: 0 <= i < |Part7| ==> Inert(Part7[i]) {
    H56Inert();
    H57Inert();
    H58Inert();
    H59Inert();
    H60Inert();
    H61Inert();
    H62Inert();
    H63Inert();
  }
  const Part8 := [H64, H65, H66, H67, H68]
  lemma Part8Inert() ensures forall i :: 0 <= i < |Part8| ==> Inert(Part8[i]) {
    H64Inert();
    H65Inert();
    H66Inert();
    H67Inert();
    H68Inert();
  }
  const Pieces := Part0 + Part1 + Part2 + Part3 + Part4 + Part5 + Part6 + Part7 + Part8
  lemma PiecesInert() ensures forall i :: 0 <= i < |Pieces| ==> Inert(Pieces[i]) {
    Part0Inert();
    Part1Inert();
    Part2Inert();
    Part3Inert();
    Part4Inert();
    Part5Inert();
    Part6Inert();
    Part7Inert();
    Part8Inert();
  }

  /** The template from just after `<!DOCTYPE html>` up to the placeholder. */
  const Head := Joined(Pieces)
  lemma HeadInert() ensures Inert(Head) {
    PiecesInert();
    JoinedInert(Pieces);
  }

  /** The opening of a page of the template's shape: its doctype, then `head`. */
  function Opening(head: string): string {
    Doctype + HtmlWord + ">" + head
  }

  /** The template up to the placeholder. */
  const Prefix := Opening(Head)
  /** The placeholder the generated markup replaces. */
  const Placeholder := "{code}"
  /** The template after the placeholder. */
  const Tail := "\n      </body>\n      </html>"
  /** The page template `HTML_CODE`. */
  const HtmlCode := Prefix + Placeholder + Tail

  lemma TailInert()
    ensures Inert(Tail) && Tail[0] == '\n'
  {
  }

  // ---------------------------------------------------------------------
  // The clean-up pipeline
  // ---------------------------------------------------------------------

  const Fence := "```"
  const HtmlFence := Fence + HtmlWord

  /** The characters the proofs below need to know about the short constants. */
  lemma WordFacts()
    ensures |HtmlWord| == 4 && HtmlWord[0] == 'h' && 'h' !in Doctype
    ensures |Fence| == 3 && Fence[0] == '`' && Fence[1] == '`' && Fence[2] == '`'
    ensures Doctype + ">" == "<!DOCTYPE >" && Doctype + HtmlWord + ">" == "<!DOCTYPE html>"
  {
  }

  /** Stage 2: `.replaceAll("```html", '')`. */
  function WithoutHtmlFences(s: string): string {
    ReplaceAll(s, HtmlFence, "")
  }

  /** Stage 3: `.replace('```', '')`. */
  function WithoutFirstFence(s: string): string {
    Replace(s, Fence, "")
  }

  /** Stage 4: `.replaceAll('html', '')`. */
  function WithoutHtmlWord(s: string): string {
    ReplaceAll(s, HtmlWord, "")
  }

  /** Stages 1 to 3 over a template: splice the markup in, then drop the fences. */
  function Unwrapped(template: string, code: string): string {
    WithoutFirstFence(WithoutHtmlFences(Replace(template, Placeholder, code)))
  }

  /** Stage 1: `HTML_CODE.replace('{code}', generatedCode)`. */
  function Spliced(code: string): string {
    Replace(HtmlCode, Placeholder, code)
  }

  /** The exported page as the toolbar computes it: all four stages. */
  function FinalCode(code: string): string {
    WithoutHtmlWord(Unwrapped(HtmlCode, code))
  }

  /** The exported page without stage 4, which keeps the template's own tags. */
  function IntendedFinalCode(code: string): string {
    Unwrapped(HtmlCode, code)
  }

  // Properties of any template of the same shape; the lemmas about the
  // toolbar's own template below are instances of these.

  lemma OpeningInert(head: string)
    requires Inert(head)
    ensures Inert(Opening(head))
  {
    assert Inert(Doctype + HtmlWord + ">");
    InertCat(Doctype + HtmlWord + ">", head);
  }

  lemma PlaceholderFacts()
    ensures |Placeholder| > 0 && Placeholder[0] == '{' && '{' !in Placeholder[1..]
  {
  }

  lemma PlaceholderOnceIn(pre: string, tail: string)
    requires Inert(pre) && Inert(tail)
    ensures forall j :: OccursAt(pre + Placeholder + tail, Placeholder, j) <==> j == |pre|
    ensures IndexOf(pre + Placeholder + tail, Placeholder) == |pre|
  {
    PlaceholderFacts();
    OnlyMatch(pre, Placeholder, tail);
    FirstMatchAfter(pre, Placeholder, tail);
  }

  lemma SplicedIn(pre: string, tail: string, code: string)
    requires Inert(pre)
    ensures Replace(pre + Placeholder + tail, Placeholder, code)
         == pre + Substitute(code, Placeholder, pre, tail) + tail
    ensures '$' !in code ==> Replace(pre + Placeholder + tail, Placeholder, code) == pre + code + tail
  {
    ReplaceOnly(pre, Placeholder, tail, code);
  }

  lemma CleanupSkips(pre: string, x: string)
    requires Inert(pre)
    ensures WithoutHtmlFences(pre + x) == pre + WithoutHtmlFences(x)
    ensures WithoutFirstFence(pre + x) == pre + WithoutFirstFence(x)
  {
    ReplaceAllSkipsFree(pre, x, HtmlFence, "");
    ReplaceEmptySkipsFree(pre, x, Fence);
  }

  /** Stages 1 to 3 leave the prefix in front, followed by the cleaned rest. */
  lemma UnwrappedKeepsPrefix(pre: string, tail: string, code: string)
    requires Inert(pre)
    ensures Unwrapped(pre + Placeholder + tail, code)
         == pre + WithoutFirstFence(WithoutHtmlFences(Substitute(code, Placeholder, pre, tail) + tail))
  {
    var x := Substitute(code, Placeholder, pre, tail) + tail;
    var w := WithoutHtmlFences(x);
    calc {
      Unwrapped(pre + Placeholder + tail, code);
      WithoutFirstFence(WithoutHtmlFences(Replace(pre + Placeholder + tail, Placeholder, code)));
      { SplicedIn(pre, tail, code); Regroup3(pre, Substitute(code, Placeholder, pre, tail), tail); }
      WithoutFirstFence(WithoutHtmlFences(pre + x));
      { CleanupSkips(pre, x); }
      WithoutFirstFence(pre + w);
      { CleanupSkips(pre, w); }
      pre + WithoutFirstFence(w);
    }
  }

  /** Stage 4 turns the doctype of any page of the template's shape into `<!DOCTYPE >`. */
  lemma DoctypeBrokenIn(head: string, y: string)
    ensures StartsWith(WithoutHtmlWord(Opening(head) + y), Doctype + ">")
  {
    WordFacts();
    var z := head + y;
    var r := ReplaceAll(z, HtmlWord, "");
    calc {
      WithoutHtmlWord(Opening(head) + y);
      { assert Opening(head) + y == Doctype + (HtmlWord + (">" + z)); }
      ReplaceAll(Doctype + (HtmlWord + (">" + z)), HtmlWord, "");
      { ReplaceAllSkipsFree(Doctype, HtmlWord + (">" + z), HtmlWord, ""); }
      Doctype + ReplaceAll(HtmlWord + (">" + z), HtmlWord, "");
      { ReplaceAllFront(HtmlWord, ">" + z, ""); assert "" + ReplaceAll(">" + z, HtmlWord, "") == ReplaceAll(">" + z, HtmlWord, ""); }
      Doctype + ReplaceAll(">" + z, HtmlWord, "");
      { ReplaceAllSkipsFree(">", z, HtmlWord, ""); }
      Doctype + (">" + r);
      (Doctype + ">") + r;
    }
    assert ((Doctype + ">") + r)[..|Doctype + ">"|] == Doctype + ">";
  }

  /** Stage 4 breaks the doctype of every page built from a template of this shape. */
  lemma DoctypeBrokenFor(head: string, tail: string, code: string)
    requires Inert(head)
    ensures StartsWith(WithoutHtmlWord(Unwrapped(Opening(head) + Placeholder + tail, code)), "<!DOCTYPE >")
    ensures !StartsWith(WithoutHtmlWord(Unwrapped(Opening(head) + Placeholder + tail, code)), "<!DOCTYPE html>")
  {
    OpeningInert(head);
    UnwrappedKeepsPrefix(Opening(head), tail, code);
    var y := WithoutFirstFence(WithoutHtmlFences(Substitute(code, Placeholder, Opening(head), tail) + tail));
    DoctypeBrokenIn(head, y);
    WordFacts();
    StartsDiffer(WithoutHtmlWord(Opening(head) + y), "<!DOCTYPE >", "<!DOCTYPE html>", 10);
  }

  /** Stages 1 to 3 keep the opening, doctype included, of a template of this shape. */
  lemma DoctypeKeptFor(head: string, tail: string, code: string)
    requires Inert(head)
    ensures StartsWith(Unwrapped(Opening(head) + Placeholder + tail, code), Opening(head))
    ensures StartsWith(Unwrapped(Opening(head) + Placeholder + tail, code), "<!DOCTYPE html>")
  {
    OpeningInert(head);
    UnwrappedKeepsPrefix(Opening(head), tail, code);
    var y := WithoutFirstFence(WithoutHtmlFences(Substitute(code, Placeholder, Opening(head), tail) + tail));
    StartsCat(Opening(head), y);
    OpeningStarts(head);
    StartsTrans(Opening(head) + y, Opening(head), "<!DOCTYPE html>");
  }

  lemma OpeningStarts(head: string)
    ensures StartsWith(Opening(head), "<!DOCTYPE html>")
  {
    WordFacts();
    StartsCat("<!DOCTYPE html>", head);
  }

  lemma StartsCat(x: string, y: string)
    ensures StartsWith(x + y, x)
  {
    assert (x + y)[..|x|] == x;
  }

  /** A text that starts with p does not start with q when they differ at some position. */
  lemma StartsDiffer(s: string, p: string, q: string, k: nat)
    requires StartsWith(s, p) && k < |p| && k < |q| && p[k] != q[k]
    ensures !StartsWith(s, q)
  {
    assert s[k] == p[k];
  }

  lemma StartsTrans(s: string, x: string, w: string)
    requires StartsWith(s, x) && StartsWith(x, w)
    ensures StartsWith(s, w)
  {
    assert s[..|w|] == s[..|x|][..|w|];
  }

  lemma FencedMarkupIn(pre: string, tail: string, body: string)
    requires Inert(pre) && Inert(tail) && (tail == [] || tail[0] != 'h')
    requires '`' !in body && '$' !in body
    ensures Unwrapped(pre + Placeholder + tail, HtmlFence + body + Fence) == pre + body + tail
  {
    var code := HtmlFence + body + Fence;
    var t := Fence + tail;
    assert '$' !in code by { WordFacts(); }
    calc {
      Unwrapped(pre + Placeholder + tail, code);
      { UnwrappedKeepsPrefix(pre, tail, code); }
      pre + WithoutFirstFence(WithoutHtmlFences(code + tail));
      { Regroup(HtmlFence, body, Fence, tail); }
      pre + WithoutFirstFence(WithoutHtmlFences(HtmlFence + (body + t)));
      { WordFacts(); ReplaceAllFront(HtmlFence, body + t, ""); assert "" + WithoutHtmlFences(body + t) == WithoutHtmlFences(body + t); }
      pre + WithoutFirstFence(WithoutHtmlFences(body + t));
      { WordFacts(); ReplaceAllSkipsFree(body, t, HtmlFence, ""); NoFenceAfterFence(tail); }
      pre + WithoutFirstFence(body + t);
      { Regroup3(body, Fence, tail); FirstFenceOnly(body, tail); }
      pre + (body + tail);
      { Regroup3(pre, body, tail); }
      pre + body + tail;
    }
  }

  lemma Regroup3(a: string, b: string, c: string)
    ensures a + b + c == a + (b + c)
  {
  }

  lemma Regroup(a: string, b: string, c: string, d: string)
    ensures a + b + c + d == a + (b + (c + d))
  {
  }

  /** A fence followed by text that holds no backtick and does not start with `h` is untouched by stage 2. */
  lemma NoFenceAfterFence(tail: string)
    requires '`' !in tail && (tail == [] || tail[0] != 'h')
    ensures WithoutHtmlFences(Fence + tail) == Fence + tail
  {
    WordFacts();
    var t := Fence + tail;
    forall i | 0 <= i < |Fence| ensures !OccursAt(t, HtmlFence, i) {
      if i + |HtmlFence| <= |t| {
        MismatchAt(t, HtmlFence, i, 3 - i);
      }
    }
    ReplaceAllSkips(Fence, tail, HtmlFence, "");
    ContainsNeedsFirst(tail, HtmlFence);
  }

  // The toolbar's own template.

  /** The template holds exactly one placeholder, right after the prefix. */
  lemma PlaceholderOnce()
    ensures forall j :: OccursAt(HtmlCode, Placeholder, j) <==> j == |Prefix|
    ensures IndexOf(HtmlCode, Placeholder) == |Prefix|
  {
    HeadInert();
    OpeningInert(Head);
    TailInert();
    PlaceholderOnceIn(Prefix, Tail);
  }

  /**
   * Stage 1 puts the markup between the template's prefix and tail; `$`
   * patterns in the markup are expanded as `replace` does, and markup
   * without `$` is inserted verbatim.
   */
  lemma SplicedShape(code: string)
    ensures Spliced(code) == Prefix + Substitute(code, Placeholder, Prefix, Tail) + Tail
    ensures '$' !in code ==> Spliced(code) == Prefix + code + Tail
  {
    HeadInert();
    OpeningInert(Head);
    SplicedIn(Prefix, Tail, code);
  }

  /** Stages 2 and 3 pass over the template's prefix and work on what follows it. */
  lemma CleanupKeepsPrefix(x: string)
    ensures WithoutHtmlFences(Prefix + x) == Prefix + WithoutHtmlFences(x)
    ensures WithoutFirstFence(Prefix + x) == Prefix + WithoutFirstFence(x)
  {
    HeadInert();
    OpeningInert(Head);
    CleanupSkips(Prefix, x);
  }

  /**
   * Stage 2 removes each match it finds scanning left to right, but a
   * removal can join the text around it into a new "```html", which stays.
   */
  lemma HtmlFenceCanReform()
    ensures WithoutHtmlFences(Fence + HtmlFence + HtmlWord) == HtmlFence
  {
    WordFacts();
    var s := Fence + (HtmlFence + HtmlWord);
    forall i | 0 <= i < |Fence| ensures !OccursAt(s, HtmlFence, i) {
      MismatchAt(s, HtmlFence, i, 3);
    }
    ReplaceAllSkips(Fence, HtmlFence + HtmlWord, HtmlFence, "");
    ReplaceAllFront(HtmlFence, HtmlWord, "");
    ContainsFits(HtmlWord, HtmlFence);
    assert Fence + HtmlFence + HtmlWord == s;
  }

  /**
   * Stage 3 cuts out the first fence and nothing else: whatever follows
   * it, later fences included, is kept verbatim.
   */
  lemma FirstFenceOnly(a: string, b: string)
    requires '`' !in a
    ensures WithoutFirstFence(a + Fence + b) == a + b
  {
    ReplaceAtBoundary(a, b, Fence);
  }

  /** Stages 2 to 4 never lengthen the text. */
  lemma CleanupShrinks(s: string)
    ensures |WithoutHtmlFences(s)| <= |s|
    ensures |WithoutFirstFence(s)| <= |s|
    ensures |WithoutHtmlWord(s)| <= |s|
  {
    ReplaceFirstMatch(s, Fence, "");
  }

  /**
   * Stage 4 also strips the template's own doctype: whatever the markup,
   * the exported page starts with `<!DOCTYPE >` and not `<!DOCTYPE html>`.
   */
  lemma FinalCodeBreaksDoctype(code: string)
    ensures StartsWith(FinalCode(code), "<!DOCTYPE >")
    ensures !StartsWith(FinalCode(code), "<!DOCTYPE html>")
  {
    HeadInert();
    DoctypeBrokenFor(Head, Tail, code);
  }

  /** Without stage 4 the exported page keeps the template's prefix, doctype included. */
  lemma IntendedKeepsDoctype(code: string)
    ensures StartsWith(IntendedFinalCode(code), Prefix)
    ensures StartsWith(IntendedFinalCode(code), "<!DOCTYPE html>")
  {
    HeadInert();
    DoctypeKeptFor(Head, Tail, code);
  }

  /**
   * Markup wrapped in one fenced block tagged `html` comes out unwrapped,
   * between the template's prefix and tail, before stage 4, which then
   * strips every "html" from that page.
   */
  lemma FencedMarkup(body: string)
    requires '`' !in body && '$' !in body
    ensures IntendedFinalCode(HtmlFence + body + Fence) == Prefix + body + Tail
    ensures FinalCode(HtmlFence + body + Fence) == WithoutHtmlWord(Prefix + body + Tail)
  {
    HeadInert();
    OpeningInert(Head);
    TailInert();
    FencedMarkupIn(Prefix, Tail, body);
  }

  // ---------------------------------------------------------------------
  // Opening the page in a new tab
  // ---------------------------------------------------------------------

  /**
   * What `ViewInNewTab` opens for the `finalCode` state: nothing while it
   * is unset or empty, and otherwise exactly that page.
   */
  function OpenedPage(finalCode: Option<string>): (r: Option<string>)
    ensures r.Some? <==> finalCode.Some? && finalCode.value != ""
    ensures r.Some? ==> r == finalCode
  {
    if finalCode.None? || finalCode.value == "" then None else finalCode
  }

  /**
   * Before the effect has run nothing opens; once it has stored the page
   * for some markup, as computed or with stage 4 left out, "Open" always
   * opens that page.
   */
  lemma OpensOnceComputed(code: string)
    ensures OpenedPage(None) == None
    ensures OpenedPage(Some(FinalCode(code))) == Some(FinalCode(code))
    ensures OpenedPage(Some(IntendedFinalCode(code))) == Some(IntendedFinalCode(code))
  {
    FinalCodeBreaksDoctype(code);
    IntendedKeepsDoctype(code);
  }
}
