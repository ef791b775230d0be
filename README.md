# Webyrix playground editor, modelled in Dafny

Webyrix is an AI website builder. A user chats with a model that writes an
HTML page using Tailwind classes. The playground shows the page and lets
the user edit it. This project models the editor parts of the playground
and proves properties of them:

- **The live preview** (`PreviewSandbox`, built on `Dom`). The preview is
  an iframe whose document is a small Tailwind shell. The generated markup
  goes into its `#root` body after the code fences are stripped. Hovering
  an element outlines it in blue. Clicking selects it, outlines it in red
  and makes it editable in place. Escape deselects. Saving snapshots the
  document without the editor's outlines and cursors.
- **The element settings panel** (`Inspector`). It writes inline styles
  and text alignment to the selected element. It keeps a list of the
  element's CSS classes in step with its `className`.
- **The version selector** (`Versions`). It lists the completed saved
  frames of a project, newest first. Each row is labelled by its name or
  "Version k". It captions the current version and builds the URL a
  chosen version navigates to.
- **The panel layout** (`Panels`). Three panels (chat, preview, settings)
  are each visible, expanded and/or minimized. The window width resets the
  layout at two breakpoints, and each panel gets a width class.
- **The image settings panel** (`ImageSettings`). It toggles ImageKit
  transformations in the image URL and builds the URL of an AI-generated
  image. It keeps the image's `src` mirrored to the panel's preview, and
  uploads a chosen file.
- **The export toolbar** (`Export`). It splices the markup into a full
  page template, then runs a chain of `replace`/`replaceAll` clean-ups.
  The result is what "Open in new tab" and the download use.

Shared modules:

- `JsStrings` gives the JavaScript string operations the code relies on,
  as JavaScript defines them, with one exception. `replaceAll` finds leftmost,
  non-overlapping matches, but does not expand `$` patterns in its
  replacement; every `replaceAll` in the core passes "", which has none. `replace` with a string pattern replaces only
  the first match and expands `$` patterns in the replacement. `trim`
  removes ECMAScript white space. `split` on one character, `join` and
  `includes` behave as in JavaScript.
- `JsArrays` gives `filter`.
- `Wrappers` gives `Option`, which stands for `null`/`undefined`.

State that the source changes in place is a `class`:

- the iframe's `Document`;
- the `Preview`, with its two element references;
- the `ElementSettings` panel;
- the `ImageSettingsPanel`;
- the hook's `PanelLayout`.

The functions those classes' methods are proved against are pure, and
are given with their own lemmas. The version selector and the export
pipeline are pure functions in the source, and pure functions here.

Browser inputs that cannot be computed become parameters:

- the window width;
- the clock, as `now`;
- the elements the HTML parser builds from markup, as `parsed`;
- a chosen file's data URL;
- the uploaded file's URL.

## Model

| member | source | states |
|---|---|---|
| PreviewSandbox.Preview.constructor | app/playground/_components/WebsiteDesign.tsx:40-41 | The preview starts with nothing selected, nothing hovered and no listeners. |
| PreviewSandbox.Preview.Mount | app/playground/_components/WebsiteDesign.tsx:45-60 | Mounted minimized, it does nothing and never listens. Otherwise it writes the shell only when the body or `#root` is missing, so an initialised document is left unchanged. After a write, the body is the empty `#root`, every earlier element is kept, and the listeners are attached. |
| Dom.Document.WriteShell | app/playground/_components/WebsiteDesign.tsx:21-29 | Writing the shell builds fresh html, head, two meta, script and body elements. The body carries `id="root"`. Earlier elements stay alive but leave the tree. |
| Dom.Document.Blank | app/playground/_components/WebsiteDesign.tsx:49-53 | A fresh iframe document has a body but no `#root`, so it needs the shell. |
| PreviewSandbox.Preview.OnMouseOver | app/playground/_components/WebsiteDesign.tsx:69-79 | Nothing changes while an element is selected, or when the target is the body or the document element. Otherwise the hover moves to the target, and every node changes as `Hover` says. |
| PreviewSandbox.Hover | app/playground/_components/WebsiteDesign.tsx:74-78 | The target's outline becomes "2px dotted blue". A different previous hover loses its outline. No other element, attribute, class or style property changes. |
| PreviewSandbox.Preview.OnMouseOut | app/playground/_components/WebsiteDesign.tsx:81-87 | With nothing selected and a hovered element, that element's outline is removed and the hover is cleared. Otherwise nothing changes. |
| PreviewSandbox.ClearOutline | app/playground/_components/WebsiteDesign.tsx:84 | Clearing an outline removes only that element's inline outline. |
| PreviewSandbox.Preview.OnClick | app/playground/_components/WebsiteDesign.tsx:89-105 | A click on the body or document element changes nothing and reports nothing. Any other target is deselected-then-selected as `Reselect` says, becomes the selection, and is the element reported to the settings panel. |
| PreviewSandbox.Deselect | app/playground/_components/WebsiteDesign.tsx:95-98 | The element loses its outline and its `contenteditable`. Every other style, attribute and element is kept. |
| PreviewSandbox.Select | app/playground/_components/WebsiteDesign.tsx:99-101 | The element gets the "2px solid red" outline and `contenteditable="true"`. Every other style, attribute and element is kept. |
| PreviewSandbox.ClickSelectedAgain | app/playground/_components/WebsiteDesign.tsx:95-101 | Clicking the element that is already selected leaves the page as it was. |
| PreviewSandbox.OneEditable | app/playground/_components/WebsiteDesign.tsx:89-122 | The handlers keep at most one element editable. After a click only the target is editable, after Escape none is, and hovering changes no attribute. |
| PreviewSandbox.ClickEditable | app/playground/_components/WebsiteDesign.tsx:95-101 | If at most the selection was editable, after a click at most the target is. |
| PreviewSandbox.EscapeEditable | app/playground/_components/WebsiteDesign.tsx:116-121 | If at most the selection was editable, after Escape no element is. |
| PreviewSandbox.HoverEditable | app/playground/_components/WebsiteDesign.tsx:74-86 | If at most the selection was editable, it still is after hovering or moving out. |
| PreviewSandbox.HoverThenOut | app/playground/_components/WebsiteDesign.tsx:74-86 | With nothing selected, hovering and leaving restores the page exactly when the element had no inline outline of its own. A pre-existing outline is erased. |
| PreviewSandbox.Preview.OnKeyDown | app/playground/_components/WebsiteDesign.tsx:116-122 | Escape with a selection deselects it and clears the selection. Other keys, or Escape with no selection, change nothing. The settings panel is not told. |
| PreviewSandbox.Preview.UpdateContent | app/playground/_components/WebsiteDesign.tsx:150-166 | Without `#root`, or with blank code, nothing changes. Otherwise the root's markup becomes `CleanCode` of the code and its content the parsed elements. The selection and hover references are not touched. |
| Dom.Document.SetRootContent | app/playground/_components/WebsiteDesign.tsx:164 | Assigning `innerHTML` replaces the root's content with fresh elements, and changes nothing else in the tree. |
| PreviewSandbox.UnfencedHasNoFence | app/playground/_components/WebsiteDesign.tsx:159-161 | After the two `replaceAll` steps no "```" is left, whatever the code. |
| PreviewSandbox.CleanCodeShrinks | app/playground/_components/WebsiteDesign.tsx:159-162 | Cleaning never lengthens the code. |
| PreviewSandbox.CleanCodeKeepsPlainMarkup | app/playground/_components/WebsiteDesign.tsx:159-162 | Markup with no backquote and no "html," is written as it is. |
| PreviewSandbox.CleanCodeUnwraps | app/playground/_components/WebsiteDesign.tsx:159-162 | Markup wrapped in "```html" ... "```" comes out unwrapped. |
| PreviewSandbox.SplitFenceUnfenced | app/playground/_components/WebsiteDesign.tsx:159-161 | The fence steps leave "``html,`" as it is. |
| PreviewSandbox.SplitFenceKept | app/playground/_components/WebsiteDesign.tsx:159-161 | No pattern that opens with three backquotes occurs in "``html,`". |
| PreviewSandbox.ShortRunKept | app/playground/_components/WebsiteDesign.tsx:159-161 | Two backquotes, then a backquote-free word of at least two characters, then a short tail: `replaceAll` of any pattern that opens with three backquotes leaves this text as it is. |
| PreviewSandbox.SplitFenceComma | app/playground/_components/WebsiteDesign.tsx:162 | In "``html,`" the first "html," is at position 2. |
| PreviewSandbox.CleanCodeCanLeaveFence | app/playground/_components/WebsiteDesign.tsx:159-162 | The last step can reassemble a fence: "``html,`" cleans to "```". |
| PreviewSandbox.Preview.SaveCode | app/playground/_components/WebsiteDesign.tsx:172-185 | The save copies the document element and every element below it. Each element below loses its outline and cursor, and nothing else. The live document is not touched. |
| PreviewSandbox.CloneScrubbed | app/playground/_components/WebsiteDesign.tsx:177-185 | The copy covers exactly the root and the listed elements. The root is unchanged, and each listed element is scrubbed once, even when the list repeats it. |
| PreviewSandbox.Scrubbed | app/playground/_components/WebsiteDesign.tsx:182-183 | A scrubbed element has no outline and no cursor. Its other styles, attributes and class are kept. |
| PreviewSandbox.ScrubbedTwice | app/playground/_components/WebsiteDesign.tsx:181-184 | Scrubbing is idempotent. |
| PreviewSandbox.ScrubbedKeepsEditable | app/playground/_components/WebsiteDesign.tsx:181-188 | The save keeps `contenteditable`, so the selected element is saved editable. |
| Dom.WithStyle | app/playground/_components/ElementSettingSection.tsx:45 | Writing a style property makes it read back as the value, and "" removes it. No other property, class or attribute changes. |
| Dom.WithAttr | app/playground/_components/WebsiteDesign.tsx:101 | `setAttribute` changes that attribute only. |
| Dom.WithoutAttr | app/playground/_components/WebsiteDesign.tsx:97 | `removeAttribute` removes that attribute only. |
| Dom.Adopt | app/playground/_components/WebsiteDesign.tsx:164 | New elements get the next fresh identities, and existing elements keep theirs. |
| Dom.Allocated | app/playground/_components/WebsiteDesign.tsx:164 | The root's new content consists of the fresh identities, in order. |
| Dom.Document.SetStyle | app/playground/_components/ElementSettingSection.tsx:45 | One element's style is written. The tree and every other element are kept. |
| Dom.Document.SetAttribute | app/playground/_components/ImageSettingsSection.tsx:113 | One element's attribute is set. The tree and every other element are kept. |
| Dom.Document.RemoveAttribute | app/playground/_components/WebsiteDesign.tsx:97 | One element's attribute is removed. The tree and every other element are kept. |
| Dom.Document.SetClassName | app/playground/_components/ElementSettingSection.tsx:85 | One element's `className` is assigned. The tree and every other element are kept. |
| Inspector.NonBlank | app/playground/_components/ElementSettingSection.tsx:62 | Dropping blank pieces keeps every non-blank piece, as often as it occurs and in order, and nothing else. A list with no blank piece is kept whole. |
| Inspector.ParseClasses | app/playground/_components/ElementSettingSection.tsx:60-62 | The classes read from a `className` are exactly its non-blank pieces between spaces, as often as they occur and in order. None is blank or holds a space. |
| Inspector.ParseClassName | app/playground/_components/ElementSettingSection.tsx:85 | Joining well-formed classes with spaces and parsing the result gives back the same list. |
| Inspector.TrimmedNotBlank | app/playground/_components/ElementSettingSection.tsx:91-92 | A trimmed input that is not empty is not blank. |
| Inspector.AddAppends | app/playground/_components/ElementSettingSection.tsx:91-98 | Adding either keeps the list or appends the trimmed input, which was absent and is not blank. The list is kept exactly when the input is blank or already present. |
| Inspector.AddKeepsNoDup | app/playground/_components/ElementSettingSection.tsx:93-94 | Adding never creates a duplicate. |
| Inspector.AddThenObserve | app/playground/_components/ElementSettingSection.tsx:94-97 | When the typed class has no inner space, the observer's re-reading agrees with the list the panel set. |
| Inspector.AddWithInnerSpaceList | app/playground/_components/ElementSettingSection.tsx:91-94 | Adding "a b" to ["a"] appends "a b" as one entry. |
| Inspector.AddWithInnerSpaceSplit | app/playground/_components/ElementSettingSection.tsx:97 | The `className` "a a b" splits into "a", "a", "b". |
| Inspector.AddWithInnerSpace | app/playground/_components/ElementSettingSection.tsx:65-70 | A class typed with an inner space is split by the observer, and the list can then hold one class twice. |
| Inspector.RemoveUndoesAdd | app/playground/_components/ElementSettingSection.tsx:81-98 | Removing a class just added gives back the earlier list. |
| Inspector.RemoveThenObserve | app/playground/_components/ElementSettingSection.tsx:81-86 | After a removal, the observer's re-reading agrees with the list the panel set. |
| Inspector.ElementSettings.constructor | app/playground/_components/ElementSettingSection.tsx:37-41 | The panel opens on the element's `textAlign` and its parsed classes, with an empty input. |
| Inspector.ElementSettings.Select | app/playground/_components/ElementSettingSection.tsx:50-63 | A newly selected element receives the chosen alignment, if any, and its classes are read. Reselecting the same element changes nothing. Deselecting keeps the list. |
| Inspector.ElementSettings.ApplyStyle | app/playground/_components/ElementSettingSection.tsx:43-47 | Exactly the named style property of the selected element is written. With no selection nothing changes. |
| Inspector.ElementSettings.SetAlign | app/playground/_components/ElementSettingSection.tsx:50-54 | `textAlign` is written only for a new, non-empty alignment and a selected element. |
| Inspector.ElementSettings.SetNewClass | app/playground/_components/ElementSettingSection.tsx:38 | Typing changes only the input text. |
| Inspector.ElementSettings.AddClass | app/playground/_components/ElementSettingSection.tsx:90-101 | A blank input changes nothing and stays in the input. A present class clears the input only. A new class is appended and written to `className`, the observer reads the list back, and the input is cleared. |
| Inspector.ElementSettings.RemoveClass | app/playground/_components/ElementSettingSection.tsx:81-87 | Every copy of the class is dropped, and the other classes keep their order and multiplicity. The rest is written to `className` even when the class was absent, and read back by the observer. |
| Inspector.ElementSettings.OnClassMutation | app/playground/_components/ElementSettingSection.tsx:65-70 | The observer re-reads the selected element's classes from its `className`. |
| JsArrays.Filter | app/playground/_components/ElementSettingSection.tsx:62 | `filter` keeps exactly the accepted elements of the input, as often as they occur and in order. If every element is accepted, it keeps them all. |
| JsArrays.RemoveAll | app/playground/_components/ElementSettingSection.tsx:82 | Filtering out a value removes every copy of it and keeps every other element, as often as it occurs and in order. A list without the value is unchanged. |
| JsArrays.RemoveAllNoDup | app/playground/_components/ElementSettingSection.tsx:82 | Filtering keeps a duplicate-free list duplicate-free. |
| JsArrays.RemoveAllAppended | app/playground/_components/ImageSettingsSection.tsx:69-71 | Removing a value just appended, and absent before, gives back the list. |
| Versions.CompletedFrames | app/playground/_components/VersionSelector.tsx:36 | Each frame with a truthy design code is kept as often as it occurs, in the given order. Frames whose code is null or "" are dropped. |
| Versions.Insert | app/playground/_components/VersionSelector.tsx:37-41 | Inserting into a newest-first list keeps it newest first, one longer, with the newer of the two heads in front. |
| Versions.InsertPermutes | app/playground/_components/VersionSelector.tsx:37-41 | Inserting adds the frame and loses nothing. |
| Versions.SortNewestFirst | app/playground/_components/VersionSelector.tsx:37-41 | The sort is newest first and a permutation of its input. |
| Versions.SortKeepsSorted | app/playground/_components/VersionSelector.tsx:37-41 | A list already newest first is left as it is, so sorting twice is sorting once. |
| Versions.At | app/playground/_components/VersionSelector.tsx:37-41 | The frames saved at one instant are exactly those of the list with that timestamp, as often as there, in list order. |
| Versions.InsertAt | app/playground/_components/VersionSelector.tsx:37-41 | Inserting a frame into a sorted list puts it before the frames saved at the same instant, and leaves every other instant's frames as they were. |
| Versions.SortStable | app/playground/_components/VersionSelector.tsx:37-41 | For every instant, the sort keeps the frames saved at that instant in their original order: the sort is stable. |
| Versions.SortedFramesAreCompleted | app/playground/_components/VersionSelector.tsx:35-41 | The rows are newest first. They are exactly the completed frames, each as often as given. |
| Versions.VersionLabelInjective | app/playground/_components/VersionSelector.tsx:66 | Equal "Version k" labels have equal k. |
| Versions.VersionLabelsDiffer | app/playground/_components/VersionSelector.tsx:66 | Different k give different labels. |
| Versions.UnnamedRowsDistinct | app/playground/_components/VersionSelector.tsx:61-66 | Two unnamed rows never share a label. Row i shows "Version n−i", which lies between 1 and n. |
| Versions.FindIndex | app/playground/_components/VersionSelector.tsx:44 | `findIndex` returns the first row with the id, or −1 when no row has it. |
| Versions.CaptionMatchesRow | app/playground/_components/VersionSelector.tsx:43-44 | A listed current frame is captioned as its row is labelled. |
| Versions.CaptionForUnlisted | app/playground/_components/VersionSelector.tsx:44 | An unlisted current id is captioned "Version n+1", a label no unnamed row shows. |
| Versions.CaptionWithoutCurrent | app/playground/_components/VersionSelector.tsx:44 | With no current id the caption is \"Select version\". So it is with the empty id, when no named frame has the empty id. |
| Versions.VersionUrlRoundTrip | app/playground/_components/VersionSelector.tsx:30-32 | For a path without `?`, the navigation URL gives back the path and the frame id. |
| Panels.PanelStates.Set | hooks/usePanelState.tsx:64-70 | Replacing one panel's state keeps the other two. |
| Panels.ResizeLayout | hooks/usePanelState.tsx:29-55 | Below 768 px chat and settings are minimized, and below 1024 px settings alone. Nothing is expanded, everything is visible, and the preview is never minimized. |
| Panels.PanelLayout.constructor | hooks/usePanelState.tsx:20-25 | The hook starts on desktop, with every panel visible, not expanded and not minimized. |
| Panels.PanelLayout.HandleResize | hooks/usePanelState.tsx:29-55 | A resize sets the screen size class of the width and the layout for it. |
| Panels.ToggleFlips | hooks/usePanelState.tsx:63-71 | Toggling flips only the named panel's `minimized`. Toggling twice is no change. |
| Panels.SettersTouchOnePanel | hooks/usePanelState.tsx:73-104 | Expand, minimize and reset set the named panel's two flags to (T,F), (F,T) and (F,F). They keep everything else and are idempotent. |
| Panels.VisibleStays | hooks/usePanelState.tsx:29-104 | No transition and no resize hides a panel. |
| Panels.OnlyToggleConflicts | hooks/usePanelState.tsx:63-104 | Expand, minimize and reset never leave a panel both expanded and minimized. Toggling an expanded panel does. |
| Panels.Width | hooks/usePanelState.tsx:106-126 | The width function never falls through to "w-auto". |
| Panels.MinimizedWidthWins | hooks/usePanelState.tsx:109-115 | A minimized panel is "w-0" on mobile and "w-12" elsewhere, whether or not it is expanded. |
| Panels.PreviewFullWidth | hooks/usePanelState.tsx:109-122 | A preview that is not minimized is always "w-full". |
| Panels.PanelLayout.TogglePanel | hooks/usePanelState.tsx:63-71 | The layout becomes `Toggle` of the old one, and the screen size and visibility are kept. |
| Panels.PanelLayout.ExpandPanel | hooks/usePanelState.tsx:73-82 | The layout becomes `Expand` of the old one, and the screen size and visibility are kept. |
| Panels.PanelLayout.MinimizePanel | hooks/usePanelState.tsx:84-93 | The layout becomes `Minimize` of the old one, and the screen size and visibility are kept. |
| Panels.PanelLayout.ResetPanel | hooks/usePanelState.tsx:95-104 | The layout becomes `Reset` of the old one, and the screen size and visibility are kept. |
| Panels.PanelLayout.GetPanelWidth | hooks/usePanelState.tsx:106-126 | The width is never "w-auto". A minimized panel is "w-0" on mobile and "w-12" elsewhere. |
| ImageSettings.ToggleTwice | app/playground/_components/ImageSettingsSection.tsx:67-73 | Toggling flips membership. Toggling an absent value twice gives back the list. |
| ImageSettings.TransformAppends | app/playground/_components/ImageSettingsSection.tsx:119-122 | An absent transformation is appended with a comma, and its button then shows as applied. |
| ImageSettings.TransformStuck | app/playground/_components/ImageSettingsSection.tsx:119-126 | A transformation present only without a trailing comma cannot be removed: the URL stays as it is. |
| ImageSettings.NoEarlyOccurrence | app/playground/_components/ImageSettingsSection.tsx:120-124 | After appending a comma-free transformation to a URL free of it, "value," occurs only at the end. |
| ImageSettings.TransformTwice | app/playground/_components/ImageSettingsSection.tsx:119-127 | Applying a comma-free transformation absent from the URL twice gives back the URL. |
| ImageSettings.SlashSplit | app/playground/_components/ImageSettingsSection.tsx:110 | Two texts, each followed by "/" and a text without `/`, split the same way only if they are equal. |
| ImageSettings.AiImageUrlInjective | app/playground/_components/ImageSettingsSection.tsx:110 | Any two prompts, `/` included, give the same generated URL only with the same prompt and time. |
| ImageSettings.FramedInjective | app/playground/_components/ImageSettingsSection.tsx:110 | The same holds for any fixed text before the prompt and any text without `/` after the time. |
| ImageSettings.CutPrefix | app/playground/_components/ImageSettingsSection.tsx:110 | A common prefix can be cancelled. |
| ImageSettings.CutSuffix | app/playground/_components/ImageSettingsSection.tsx:110 | A common suffix can be cancelled. |
| ImageSettings.ImageSettingsPanel.constructor | app/playground/_components/ImageSettingsSection.tsx:54-63 | The panel opens on the image's alt text, or \"\", and on the URL the browser resolved from its `src`. It is idle, with no transforms and no file. |
| ImageSettings.ImageSettingsPanel.SelectImage | app/playground/_components/ImageSettingsSection.tsx:46-63 | The playground page passes a new `selectedEl` without remounting the panel. Selecting another image while the panel is shown keeps the panel's prompt, preview, transforms, file and loading state, and only moves the target. |
| ImageSettings.ImageSettingsPanel.SetAltText | app/playground/_components/ImageSettingsSection.tsx:54 | Typing changes only the prompt. |
| ImageSettings.ImageSettingsPanel.ToggleTransform | app/playground/_components/ImageSettingsSection.tsx:67-73 | The active list becomes `Toggled` of the old one, and nothing else changes. Nothing in the panel calls `toggleTransform`, so in the component the list stays empty. |
| ImageSettings.ImageSettingsPanel.GenerateAiImage | app/playground/_components/ImageSettingsSection.tsx:107-114 | The URL built from the panel's prompt becomes the preview and the `src` of the image selected now, and the panel is loading. The prompt may have been typed for an image selected earlier. No other element changes. |
| ImageSettings.ImageSettingsPanel.ApplyTransformation | app/playground/_components/ImageSettingsSection.tsx:116-129 | The URL transformed from the panel's preview becomes the preview and the `src` of the image selected now, and the panel is loading. The preview may belong to an image selected earlier. No other element changes. |
| ImageSettings.ImageSettingsPanel.HandleFileChange | app/playground/_components/ImageSettingsSection.tsx:75-85 | Without a file nothing changes. A chosen file is kept, and its data URL becomes the preview. |
| ImageSettings.ImageSettingsPanel.SaveUploadedFile | app/playground/_components/ImageSettingsSection.tsx:87-101 | Without a chosen file nothing changes. Otherwise the image's `src` becomes the uploaded URL plus "?tr=", and the preview is kept. |
| ImageSettings.ImageSettingsPanel.OnPreviewLoaded | app/playground/_components/ImageSettingsSection.tsx:154 | Loading the preview ends the loading state and changes nothing else. |
| Export.PlaceholderOnce | app/playground/_components/WebPageTools.tsx:6-49 | The template holds exactly one "{code}", right after its prefix. |
| Export.SplicedShape | app/playground/_components/WebPageTools.tsx:56 | Stage 1 puts the markup, with `$` patterns expanded, between the template's prefix and tail. Markup without `$` is put in verbatim. |
| Export.CleanupKeepsPrefix | app/playground/_components/WebPageTools.tsx:57-58 | Stages 2 and 3 pass over the template's prefix. |
| Export.HtmlFenceCanReform | app/playground/_components/WebPageTools.tsx:57 | A removal in stage 2 can join its neighbours into a new "```html", which stays. |
| Export.FirstFenceOnly | app/playground/_components/WebPageTools.tsx:58 | Stage 3 cuts out only the first fence. Later fences survive. |
| Export.CleanupShrinks | app/playground/_components/WebPageTools.tsx:57-59 | Stages 2 to 4 never lengthen the text. |
| Export.FinalCodeBreaksDoctype | app/playground/_components/WebPageTools.tsx:59 | Whatever the markup, the exported page starts with "<!DOCTYPE >" and not "<!DOCTYPE html>". |
| Export.IntendedKeepsDoctype | app/playground/_components/WebPageTools.tsx:56-58 | Without stage 4, the page keeps the template's prefix, doctype included. |
| Export.FencedMarkup | app/playground/_components/WebPageTools.tsx:55-61 | Markup in one "```html" block comes out unwrapped between prefix and tail before stage 4. Stage 4 then strips every "html" from that page. |
| Export.UnwrappedKeepsPrefix | app/playground/_components/WebPageTools.tsx:56-58 | For any brace- and backtick-free template prefix, stages 1 to 3 keep the prefix in front. |
| Export.DoctypeBrokenFor | app/playground/_components/WebPageTools.tsx:56-59 | Stage 4 breaks the doctype of every page built from a template of this shape. |
| Export.DoctypeKeptFor | app/playground/_components/WebPageTools.tsx:56-58 | Stages 1 to 3 keep the opening of every template of this shape. |
| Export.DoctypeBrokenIn | app/playground/_components/WebPageTools.tsx:59 | Stage 4 turns the opening "<!DOCTYPE html>" into "<!DOCTYPE >". |
| Export.SplicedIn | app/playground/_components/WebPageTools.tsx:56 | Replacing the only placeholder puts the expanded replacement in its place. |
| Export.PlaceholderOnceIn | app/playground/_components/WebPageTools.tsx:47 | Around brace-free text, the placeholder occurs once. |
| Export.CleanupSkips | app/playground/_components/WebPageTools.tsx:57-58 | Stages 2 and 3 pass over a brace- and backtick-free prefix. |
| Export.FencedMarkupIn | app/playground/_components/WebPageTools.tsx:56-58 | For any template of this shape, fenced markup comes out unwrapped. |
| Export.NoFenceAfterFence | app/playground/_components/WebPageTools.tsx:57 | A fence followed by a tail without a backtick and without a leading "h" is kept by stage 2. |
| Export.OpensOnceComputed | app/playground/_components/WebPageTools.tsx:55-69 | Nothing opens before the effect has run. Afterwards "Open" always opens the computed page, as written or corrected, which is never empty. |
| JsStrings.ContainsIff | app/playground/_components/ImageSettingsSection.tsx:119 | `includes` holds exactly when the pattern occurs at some position. |
| JsStrings.IndexOf | app/playground/_components/WebPageTools.tsx:56 | `indexOf` gives the first position of an occurrence, or −1 when there is none. |
| JsStrings.IndexOfIff | app/playground/_components/WebPageTools.tsx:56 | `indexOf` is non-negative exactly when `includes` holds. |
| JsStrings.ReplaceAll | app/playground/_components/WebPageTools.tsx:57 | `replaceAll` leaves a text without the pattern unchanged, and never lengthens it with a shorter replacement. |
| JsStrings.RemoveAllShrinks | app/playground/_components/ImageSettingsSection.tsx:124 | Removing a pattern that occurs makes the text strictly shorter. |
| JsStrings.ReplaceAllSkips | app/playground/_components/WebPageTools.tsx:57 | A prefix in which no match starts is kept by `replaceAll`. |
| JsStrings.ReplaceAllFront | app/playground/_components/WebPageTools.tsx:57 | A match at the front is replaced, and scanning resumes after it. |
| JsStrings.Substitute | app/playground/_components/WebPageTools.tsx:56 | A replacement without `$` is inserted verbatim. |
| JsStrings.ReplaceFirstMatch | app/playground/_components/WebsiteDesign.tsx:162 | `replace` changes a text without the pattern not at all. Otherwise it replaces the first match only. |
| JsStrings.ReplaceKeepsLater | app/playground/_components/WebPageTools.tsx:58 | `replace` keeps every later match, shifted left. |
| JsStrings.ReplaceOnly | app/playground/_components/WebPageTools.tsx:56 | With no match before it, the match is replaced by the expanded replacement. |
| JsStrings.ReplaceAtBoundary | app/playground/_components/WebPageTools.tsx:58 | Removing the first match cuts the text at that match. |
| JsStrings.RemoveTripleLeavesNone | app/playground/_components/WebsiteDesign.tsx:161 | After removing every run of three equal characters, no such run is left. |
| JsStrings.TrimStart | app/playground/_components/ElementSettingSection.tsx:91 | Trimming the start removes exactly the leading white space. |
| JsStrings.TrimEnd | app/playground/_components/ElementSettingSection.tsx:91 | Trimming the end removes exactly the trailing white space. |
| JsStrings.BlankIff | app/playground/_components/WebsiteDesign.tsx:158 | A string trims to "" exactly when it is all white space. |
| JsStrings.TrimEnds | app/playground/_components/ElementSettingSection.tsx:91 | `trim`'s result neither starts nor ends with white space. |
| JsStrings.TrimIsPiece | app/playground/_components/ElementSettingSection.tsx:91 | `trim`'s result is a contiguous piece of its input. |
| JsStrings.Split | app/playground/_components/ElementSettingSection.tsx:61 | `split` on one character gives at least one piece, none containing the separator. Joining the pieces gives back the text. |
| JsStrings.SplitJoin | app/playground/_components/ElementSettingSection.tsx:85 | Splitting a join of separator-free pieces gives back the pieces. |
| JsStrings.NatToString | app/playground/_components/VersionSelector.tsx:66 | The decimal rendering is all digits, with no leading zero. |
| JsStrings.NatToStringInjective | app/playground/_components/VersionSelector.tsx:66 | Different numbers render differently. |

## Left out

- The PUT that stores the saved page, and every other HTTP, auth and ImageKit call. The upload's result URL is a parameter of `SaveUploadedFile`. The serialisation (`outerHTML`) of the saved copy is not modelled; the save returns the copied elements.
- The `setTimeout` retry while the body is missing. The model writes the shell in one step, so the body is always present when listeners are attached.
- Focus, the blur logger and its listener registrations, listener removal on unmount, and `preventDefault`/`stopPropagation`: they change no modelled state.
- The `MutationObserver`. It is modelled as `OnClassMutation`, called after each `className` write by the panel. Writes from elsewhere are not observed.
- The HTML parser. `innerHTML` takes the parsed elements as a parameter. The model does not relate them to the markup, and does not model the tree below the root beyond document order.
- `new Date(createdOn).getTime()`: `createdOn` is an integer timestamp. Dates that do not parse (NaN) are not modelled.
- The sort comparator is modelled as an insertion sort by `createdOn`, newest first. JavaScript's `Array.prototype.sort` is stable, and `Versions.SortStable` proves the model's sort stable too, so the order is the same.
- The `undefined` `generatedCode` of the export toolbar is not modelled separately. JavaScript renders it as the text "undefined", which is just another markup string. The `|| ''` fallback after stage 1 never fires, because the spliced template is never empty.
- PreviewSandbox.Preview.OnKeyDown: Escape does not tell the settings panel that nothing is selected, so the panel keeps showing the old selection.
- PreviewSandbox.Preview.SaveCode: the save strips only `outline` and `cursor`, so the selected element is saved with its `contenteditable`.
- Dom.WithStyle: the CSSOM may reject an invalid value, normalise a value (`#ff0000` reads back as `rgb(255, 0, 0)`) or expand a shorthand into its longhands. None of this is modelled; any string is stored and read back as given.
- Inspector.ElementSettings.ApplyStyle: for the same reason, the value written is the value the model reads back, even where a browser would reject or rewrite it.
- PreviewSandbox.OneEditable: it is about the handlers only. Generated markup may itself carry `contenteditable`, and the model takes that as given.
- ImageSettings.ImageSettingsPanel.HandleFileChange: the `FileReader` runs asynchronously, and its data URL is a parameter applied at once.
- Inspector.ElementSettings.Select: every element is modelled with a string `className`. On an SVG target (an inline `<svg>` or `<path>` icon), which the preview lets the user select, `className` is an `SVGAnimatedString`. The source's `split(" ")` then throws inside the effect, and the class list is never set. Such targets are outside the model.
- Inspector.ElementSettings.constructor: the same holds for the class list read when the panel is first shown. An SVG target makes the source throw there too, and the model does not cover it.
- ImageSettings.ImageSettingsPanel.OnPreviewLoaded: the model lets the environment call it after every transform or generation. In the source the spinner may never stop: a stuck transform leaves the URL unchanged, so the preview's `onLoad` does not fire again, and a minimized panel does not render the image at all.
- The loading spinner's timing, the width and height inputs, the border radius input and `openFileDialog` are left out. They are presentation, or only open the browser's dialog.
- The download handler, `Blob`, object URLs and `window.open` are I/O. Only the guard of `ViewInNewTab` is modelled, as `Export.OpenedPage`, whose property is stated by `Export.OpensOnceComputed`.
- `Date.now()` is the parameter `now` of `GenerateAiImage`, in milliseconds.
- The playground page, which holds the stream parser, the history and the orchestrator, is not part of this model. Neither are the other dialogs, pages and presentational components.
- Window events: `HandleResize` takes the width as a parameter.

## Findings

| source | as written | input that shows it | evidently intended | confidence | as-written member | corrected member |
|---|---|---|---|---|---|---|
| app/playground/_components/WebPageTools.tsx:59 | Stage 4, `.replaceAll('html', '')`, removes every "html" in the page, so the template's `<!DOCTYPE html>`, `<html lang="en">` and `</html>` lose their tag names. | Any markup, e.g. the empty string: the exported page starts with `<!DOCTYPE >`. | Keep the template's doctype and `html` element: leave stage 4 out, since stages 2 and 3 already remove the "```html" fence. | high, not executed | Export.FinalCodeBreaksDoctype | Export.IntendedKeepsDoctype |
