# Mermaid Extensions — a verified model of the detection and viewer core

Mermaid Extensions is a browser extension. It finds Mermaid diagram sources on
web pages (GitHub, Confluence, Jira, any other site), adds a "visualize"
button next to each, and shows the diagrams in a modal viewer. The viewer can
step through them and share each one as a mermaid.live link. This project
models the extension's decision logic in Dafny, taken out of its DOM and
browser plumbing, and proves what that logic promises.

| file | module | models |
|---|---|---|
| `wrappers.dfy` | `Wrappers` | `Option` and `Result` |
| `text.dfy` | `Text` | the JavaScript string primitives used: `trim`, `\s`, `startsWith`, `includes`, ASCII case folding of `/…/i`, a global literal `replace`, UTF-16 `length`, `toString` of a count |
| `entities.dfy` | `HtmlEntities` | the five-step entity decoder of `extractMermaidCode`, against text-node escaping |
| `detector.dfy` | `MermaidDetector` | `isMermaidCode`, `extractMermaidCode`, `detectPlatform`, `findMermaidElements` (both passes) and the added-node filter of `observeChanges` |
| `base64.dfy` | `Base64` | `base64Encode`, against a reference encoder written after section 4 of RFC 4648 |
| `share_link.dfy` | `ShareLink` | `generateMermaidLiveUrl` and `generateFallbackUrl`, the three-tier share link |
| `viewer.dfy` | `Viewer` | `showAllDiagrams`, its inner `render(index)`, navigation, counter and button flags, the close triggers, `renderDiagram`'s slots and `openInNewTab` |
| `content.dfy` | `ContentScript` | the content script's message listener |
| `popup.dfy` | `Popup` | `isSupportedUrl`, `updateStatus` and `updateUI` of the toolbar popup |
| `background.dfy` | `Background` | settings defaulting, saving, install defaults and badge text of the Safari background script |

Strings are `seq<char>`. JavaScript's `length` counts UTF-16 code units, and
`JsLength` counts a character above U+FFFF twice. `base64Encode` reads
`charCodeAt`, so there the input is a sequence of 16-bit code units, and its
32-bit group is computed on `bv32` the way JavaScript's `<<`, `|`, `>>` and
`&` work on int32. The outside world becomes parameters:
- the Mermaid library (`Viewer.Env`): whether it is present, and its `render` as a function from code to SVG or error;
- the share-link built-ins (`ShareLink.Env`): `JSON.stringify` and `unescape` as total functions, pako's `deflate` (absent, or possibly throwing) and `encodeURIComponent` (possibly throwing);
- the document (`MermaidDetector.Document`): `querySelectorAll` as a function from selector to element ids in document order, `None` when the selector throws.

## Model

| member | source | states |
|---|---|---|
| Text.Trim | shared/mermaid-detector.js:78 | the result has no whitespace at either end and is no longer than the input |
| Text.TrimStart | shared/mermaid-detector.js:78 | the result is a suffix of the input, everything cut off is whitespace, and it does not start with whitespace |
| Text.TrimEnd | shared/mermaid-detector.js:78 | the result is a prefix of the input, everything cut off is whitespace, and it does not end with whitespace |
| Text.TrimIsInfix | shared/mermaid-detector.js:96 | `trim` keeps a contiguous infix and drops only whitespace before and after it |
| Text.TrimIdempotent | shared/mermaid-detector.js:109 | trimming twice is trimming once |
| Text.ContainsIff | shared/mermaid-detector.js:57-63 | `includes` holds exactly when the part occurs at some index |
| Text.StartsWithIgnoreCaseIff | shared/mermaid-detector.js:10-12 | a case-insensitive prefix test is a prefix test on the lower-cased strings |
| Text.StartsWithIgnoreCaseSplit | shared/mermaid-detector.js:11-12 | a case-insensitive prefix `a + b` is `a` followed by `b`, in both directions |
| Text.ToLower | shared/mermaid-detector.js:55 | lower-casing keeps the length and maps each character on its own |
| Text.JsLength | shared/mermaid-detector.js:79 | the UTF-16 length lies between the number of characters and twice that |
| Text.ReplaceAll | shared/mermaid-detector.js:103-107 | a global literal replace changes nothing when the pattern does not occur, and never lengthens the text when the replacement is no longer than the pattern |
| Text.ReplaceAllHit | shared/mermaid-detector.js:103-107 | an occurrence at the front is replaced and scanning resumes after it |
| Text.ReplaceAllSkip | shared/mermaid-detector.js:103-107 | a prefix in which no occurrence starts is copied as it is |
| Text.NatToStringRoundTrip | safari/background.js:60 | the decimal text of a count reads back as that count |
| Text.NatToStringInjective | popup/popup.js:125 | two different counts never show the same text |
| Text.NatToString | safari/background.js:60 | the decimal text is non-empty, all digits, and has no leading zero |
| HtmlEntities.DecodeInvertsEscape | shared/mermaid-detector.js:103-107 | the decoder undoes text-node escaping of `&`, `<` and `>` when `&quot;` and `&#39;` do not occur literally |
| HtmlEntities.DecodeEntities | shared/mermaid-detector.js:103-107 | decoding never lengthens the text, and a string without `&` passes unchanged |
| HtmlEntities.DecodeOrderMatters | shared/mermaid-detector.js:103-107 | the replacements run in sequence: a doubly escaped `&quot;` decodes twice, a doubly escaped `&lt;` once |
| MermaidDetector.IsMermaidCodeIff | shared/mermaid-detector.js:75-88 | acceptance exactly: trimmed length of at least five UTF-16 units and either the exact fence anywhere, a keyword prefix in any case, or fence, optional whitespace and `mermaid` in any case |
| MermaidDetector.IsMermaidCode | shared/mermaid-detector.js:75-88 | text whose trimmed length is below five units is rejected, and a long enough trimmed text holding the exact fence is accepted |
| MermaidDetector.FenceAnywhereAccepted | shared/mermaid-detector.js:82 | the exact fence in the middle of a trimmed text is enough |
| MermaidDetector.NoWordBoundary | shared/mermaid-detector.js:10-12 | any trimmed text of five or more units that starts with a keyword is accepted, prose included |
| MermaidDetector.ShortKeywordRejected | shared/mermaid-detector.js:79 | the keyword `pie` alone is too short |
| MermaidDetector.StripOpener | shared/mermaid-detector.js:99 | only a prefix is removed, nothing unless the text starts with the fence, and what is left does not start with whitespace |
| MermaidDetector.StripOpenerIff | shared/mermaid-detector.js:99 | the opener is removed exactly when the text starts with the fence, optional whitespace and `mermaid` in any case |
| MermaidDetector.StripOpenerSplit | shared/mermaid-detector.js:99 | fence, whitespace, `mermaid` in any case and a rest leave the rest with its leading whitespace removed |
| MermaidDetector.StripCloser | shared/mermaid-detector.js:100 | the result is a prefix; the text is unchanged exactly when the closing fence matches nowhere, and otherwise cut at the leftmost match |
| MermaidDetector.FindCloser | shared/mermaid-detector.js:100 | the position found is the leftmost one at which the closing fence matches, and none is found exactly when it matches nowhere |
| MermaidDetector.CloserOfFenced | shared/mermaid-detector.js:100 | the closing newline and fence are cut from a body without backtick, and only they |
| MermaidDetector.ExtractMermaidCode | shared/mermaid-detector.js:93-110 | the result has no whitespace at either end, is no longer than the input, and an empty input gives an empty result |
| MermaidDetector.ExtractUnfenced | shared/mermaid-detector.js:99-109 | a trimmed text without a backtick is only entity-decoded and trimmed |
| MermaidDetector.ExtractPlain | shared/mermaid-detector.js:93-110 | a trimmed text without backtick or `&` comes back unchanged |
| MermaidDetector.ExtractFenced | shared/mermaid-detector.js:96-109 | the fenced block "```mermaid\n" + body + "\n```" normalises to its body |
| MermaidDetector.ExtractNotIdempotent | shared/mermaid-detector.js:103-107 | a doubly escaped text normalises to the singly escaped one, and that normalises further, so normalising is not idempotent |
| MermaidDetector.ExtractEntityLine | shared/mermaid-detector.js:103-109 | normalising inverts text-node escaping of a trimmed line without backtick |
| MermaidDetector.DetectPlatform | shared/mermaid-detector.js:54-70 | the platform as a decision table on the lower-cased host and the two probes; the Atlassian test of the Jira branch is never reached |
| MermaidDetector.DetectPlatformIgnoresCase | shared/mermaid-detector.js:55 | the host name is compared case-insensitively |
| MermaidDetector.Visit | shared/mermaid-detector.js:129-147 | one element is marked visited and recorded at most once, with its selector and code, keeping the first-pass invariant |
| MermaidDetector.ScanIds | shared/mermaid-detector.js:129-148 | one selector's elements are all marked visited, earlier entries are kept, new entries are unvisited elements of the selector, and the first-pass invariant holds |
| MermaidDetector.ScanIdsOrdered | shared/mermaid-detector.js:129-148 | one selector's entries follow the order in which it returned their elements |
| MermaidDetector.ScanSelectors | shared/mermaid-detector.js:123-152 | the first pass visits every element of every non-throwing selector, keeps earlier entries, records only unvisited elements and keeps its invariant |
| MermaidDetector.ScanSelectorsFirst | shared/mermaid-detector.js:123-152 | each entry carries the first selector of the list that returned its element |
| MermaidDetector.ScanSelectorsOrdered | shared/mermaid-detector.js:123-152 | entries go selector after selector in list order, and within one selector in the order it returned them |
| MermaidDetector.MarkerVisit | shared/mermaid-detector.js:157-177 | a second-pass element is recorded only when unvisited and not the extension's UI, and is recorded whenever it is unvisited, not the extension's UI and accepted |
| MermaidDetector.MarkerScan | shared/mermaid-detector.js:156-178 | the second pass appends entries only for unvisited candidates that are not the extension's UI, and for every such candidate that is accepted |
| MermaidDetector.MarkerScanOrdered | shared/mermaid-detector.js:156-178 | second-pass entries follow the order of the candidates |
| MermaidDetector.ScanPassesSplit | shared/mermaid-detector.js:118-178 | the first pass records exactly the accepted visited elements; the second pass only appends entries for elements the first pass did not visit |
| MermaidDetector.FindMermaidElements | shared/mermaid-detector.js:115-181 | no element twice; each entry comes from the first pass under the first selector that returned it or, with selector `mermaid-class`, from the second; first-pass entries in selector and element order, then second-pass entries in candidate order |
| MermaidDetector.FirstPassComplete | shared/mermaid-detector.js:123-148 | an element returned by a non-throwing selector is reported exactly when its text is accepted and normalises to something non-empty |
| MermaidDetector.SecondPassExcludesOwnUi | shared/mermaid-detector.js:160-165 | a second-pass entry is never the extension's button or modal or inside the modal |
| MermaidDetector.SecondPassComplete | shared/mermaid-detector.js:156-178 | a candidate the first pass did not visit is reported exactly when it is not the extension's UI and its text is accepted |
| MermaidDetector.KeywordLineAccepted | shared/mermaid-detector.js:134-145 | a plain trimmed keyword line is recorded by the first pass as it is |
| MermaidDetector.FirstPassMaySelfDetect | shared/mermaid-detector.js:123-148 | an element inside the viewer's modal that `pre code` returns is reported: the first pass has no own-UI exclusion |
| MermaidDetector.ThrowingSelectorSkipped | shared/mermaid-detector.js:123-152 | a throwing selector gives the result of a selector that matches nothing |
| MermaidDetector.HasNewContent | shared/mermaid-detector.js:188-200 | a re-scan is scheduled exactly when some child-list record adds an element node without the button or modal class |
| MermaidDetector.AnyNewNode | shared/mermaid-detector.js:192-198 | the added nodes of one record hold new content exactly when one is an element node without the button or modal class |
| Base64.EncodeLength | shared/diagram-renderer.js:511-530 | the reference encoding has four characters per started group of three bytes |
| Base64.EncodeGroup | shared/diagram-renderer.js:521-526 | the reference group has four characters, two from the alphabet and then one alphabet character per further input byte, `=` for each missing one |
| Base64.PadOnlyAtEnd | shared/diagram-renderer.js:525-526 | the reference encoding holds `=` only in its last two positions |
| Base64.EncodeAppendGroup | shared/diagram-renderer.js:516-527 | whole groups followed by one more group encode side by side |
| Base64.FieldsMatchRfc | shared/diagram-renderer.js:521-526 | for code units below 256 each 6-bit field of the source's group gives the reference character, or `A` where the reference pads |
| Base64.GroupMatchesRfc | shared/diagram-renderer.js:517-526 | the four characters of one turn equal the reference encoding of that group with `=` written as `A` |
| Base64.EncodeStep | shared/diagram-renderer.js:516-527 | one turn extends the padded-as-`A` reference encoding of the bytes read so far by exactly the turn's four characters |
| Base64.ReadGroup | shared/diagram-renderer.js:517-519 | one turn reads the code unit at the index and up to two more while in range, zero otherwise |
| Base64.EncodeTurn | shared/diagram-renderer.js:517-526 | one turn writes four alphabet characters, never `=`, and for Latin-1 input extends the reference encoding |
| Base64.Base64Encode | shared/diagram-renderer.js:511-530 | four alphabet characters per started group of three code units, never `=`; for code units below 256 the RFC 4648 encoding with every `=` written as `A` |
| Base64.PaddingWrittenAsA | shared/diagram-renderer.js:525-526 | for the string `M` the reference writes `TQ==` while the source's characters are `TQAA` |
| ShareLink.Btoa | shared/diagram-renderer.js:472 | `btoa` succeeds exactly on strings whose characters are all below U+0100 |
| ShareLink.BtoaOfCharCodes | shared/diagram-renderer.js:472 | the characters of a byte array always pass `btoa`, which gives the RFC 4648 encoding of the bytes |
| ShareLink.FromCharCodes | shared/diagram-renderer.js:472 | one character below U+0100 per byte, reading back as that byte |
| ShareLink.PakoTier | shared/diagram-renderer.js:452-475 | the pako tier fails exactly when pako is missing or deflate throws, and otherwise links the RFC 4648 encoding of the compressed bytes |
| ShareLink.Base64Tier | shared/diagram-renderer.js:496-499 | the base64 tier succeeds exactly when URI-encoding succeeds and unescaping leaves only Latin-1 characters, and then the link is the `view#base64:` prefix followed by the RFC 4648 encoding of the unescaped URI-encoded JSON, its characters taken as bytes |
| ShareLink.EditTier | shared/diagram-renderer.js:500-504 | the edit tier fails exactly when URI-encoding the code fails, and otherwise is the prefix and the encoded code |
| ShareLink.FirstSuccess | shared/diagram-renderer.js:449-506 | the first successful attempt, preceded only by failures, or the last failure when all fail |
| ShareLink.GenerateFallbackUrl | shared/diagram-renderer.js:486-506 | a fallback link starts with the `view#base64:` or the `edit#code=` prefix, and it fails only when URI-encoding the code fails |
| ShareLink.GenerateMermaidLiveUrl | shared/diagram-renderer.js:449-481 | a share link carries one of the three prefixes, and it fails only when URI-encoding the code fails |
| ShareLink.LiveUrlIsFirstSuccess | shared/diagram-renderer.js:449-506 | the link is the first of pako tier, base64 tier and edit tier that succeeds |
| ShareLink.PrefixesExclusive | shared/diagram-renderer.js:475-504 | no URL carries two of the three prefixes |
| ShareLink.LiveUrlTier | shared/diagram-renderer.js:449-506 | the prefix of the link tells exactly which tier produced it |
| ShareLink.CompressedAlwaysLinked | shared/diagram-renderer.js:466-475 | once deflate succeeds, the link is the pako link with the RFC 4648 encoding of the compressed bytes |
| ShareLink.CompressionFailureFallsBack | shared/diagram-renderer.js:452-480 | without pako, or when deflate throws, the link is the fallback's |
| Viewer.RenderAt | shared/diagram-renderer.js:196-212 | out of range nothing changes; in range the index and counter move; it fails exactly when the library fails on that code, then showing the error and keeping slots and flags; a success fills both slots and sets the flags from the index |
| Viewer.ShowAllDiagrams | shared/diagram-renderer.js:174-275 | an empty list only adds a toast; a missing library only adds the failure toast; otherwise one modal whose codes are the list at index 0; a successful first render fills both slots, shows the diagram and adds no toast, a failing one adds the catch toast with the library's message |
| Viewer.OpenModal | shared/diagram-renderer.js:280-310 | creating a modal removes the first existing one, keeps the others in order, and appends a fresh blank one at index 0 with both buttons enabled |
| Viewer.OpenInNewTab | shared/diagram-renderer.js:426-444 | nothing happens without a current code or when no link can be made; otherwise exactly the share link of the current code is passed to `window.open` |
| Viewer.ShowDiagram | shared/diagram-renderer.js:315-317 | `showDiagram` is `showAllDiagrams` with one code, whose modal then holds one diagram |
| Viewer.CloseModal | shared/diagram-renderer.js:364-385 | closing removes the newest modal and changes nothing else: slots, tabs and toasts stay |
| Viewer.Navigate | shared/diagram-renderer.js:215-216 | a click on a disabled button changes nothing; an enabled one renders the neighbouring index; toasts and tabs never change |
| Viewer.Step | shared/diagram-renderer.js:214-222 | with no modal nothing changes, and no event adds a toast or unloads the library |
| Viewer.KeysMirrorButtons | shared/diagram-renderer.js:219-222 | ArrowLeft and ArrowRight act exactly as clicks on previous and next; other keys but Escape do nothing |
| Viewer.CounterTextInjective | shared/diagram-renderer.js:203 | two counters read the same only for the same index and count |
| Viewer.RenderAtValid | shared/diagram-renderer.js:196-212 | `render` keeps the index in range with its counter and, after a success, the flags matching the index |
| Viewer.ShowAllValid | shared/diagram-renderer.js:174-225 | showing diagrams keeps at most one modal, with a valid session |
| Viewer.StepValid | shared/diagram-renderer.js:364-385 | every click or key keeps at most one modal and the index in range |
| Viewer.NavigateValid | shared/diagram-renderer.js:214-222 | a previous or next click keeps the session valid |
| Viewer.RunValid | shared/diagram-renderer.js:214-222 | any sequence of events from a valid viewer stays valid |
| Viewer.CloseTriggersClose | shared/diagram-renderer.js:364-385 | the close button, the backdrop and Escape each leave no modal |
| Viewer.SingleDiagramBothDisabled | shared/diagram-renderer.js:210-211 | with a single diagram that renders, both buttons are disabled |
| Viewer.TwoDiagramsNext | shared/diagram-renderer.js:203-216 | two diagrams, then next: the counter reads `2 / 2`, next is disabled, previous is not |
| Viewer.NextRenders | shared/diagram-renderer.js:200-216 | next on a diagram before the last that renders moves the index by one with counter and flags to match |
| Viewer.StaleFlagsAfterFailedRender | shared/diagram-renderer.js:207-211 | when the second of two diagrams fails after the first rendered, previous stays disabled, and previous, ArrowLeft and next change nothing |
| Viewer.FailedRenderKeepsSlots | shared/diagram-renderer.js:398-419 | a failed first render keeps the SVG and code slots of an earlier diagram |
| Viewer.NewTabOpensShareLink | shared/diagram-renderer.js:426-437 | new tab passes nothing to `window.open` before a diagram rendered, passes one URL whenever a link can be made, and only a mermaid.live link |
| Viewer.EmptyListOnlyToasts | shared/diagram-renderer.js:178-181 | an empty list shows the toast and touches no modal |
| ContentScript.Dispatch | shared/content.js:108-176 | the listener replies unless the action is unknown or a selection arrives before initialisation; only the visualize actions touch the viewer, only the toggle touches the buttons, only the count updates the badge |
| ContentScript.DiagramCount | shared/content.js:112-114 | the count is the number of distinct elements the detector reports, 0 before initialisation |
| ContentScript.Codes | shared/content.js:140 | the codes of the detector's entries, one per entry, in order |
| ContentScript.ToggleDisplay | shared/content.js:167 | the toggle writes `inline-flex` exactly for `none` and `none` otherwise |
| ContentScript.ToggleAll | shared/content.js:165-168 | every button is toggled on its own and no button is added or lost |
| ContentScript.CountMatchesDetector | shared/content.js:112-125 | the count reply is the detector's count, 0 before initialisation, and the badge gets the same count |
| ContentScript.RescanAlwaysFails | shared/content.js:127-175 | `rescanPage` always ends in the catch reply with the `processPage` reference error |
| ContentScript.VisualizeAllHandsOverCodes | shared/content.js:136-148 | the detector's codes, in its order, go to the viewer and their number is replied; before initialisation the reply is a failure |
| ContentScript.VisualizeSelectionIff | shared/content.js:150-161 | the selection succeeds exactly when the detector accepts it, and then the normalised code is shown |
| ContentScript.ToggleTwice | shared/content.js:165-168 | toggling twice restores exactly `none` and `inline-flex`; from `''` it gives `inline-flex` |
| ContentScript.ToggleAllInvolution | shared/content.js:163-169 | after one toggle, every further pair of toggles restores all buttons |
| ContentScript.UnknownActionIgnored | shared/content.js:108-176 | an unknown action gets no reply and changes nothing |
| Popup.ResponseStatus | popup/popup.js:118-130 | the dot is active exactly when the tab responded, and a count is always shown |
| Popup.UpdateStatus | popup/popup.js:92-130 | the message is sent exactly when there is a tab with a supported URL and the extension is enabled; otherwise the dot is inactive |
| Popup.UpdateUi | popup/popup.js:80-87 | the scan button is disabled exactly when the extension is disabled |
| Popup.IsSupportedUrl | popup/popup.js:162-165 | a URL is supported exactly when present and starting with `http://` or `https://`; the emptiness test adds nothing |
| Popup.SupportedUrlExamples | popup/popup.js:162-165 | the protocol test is case-sensitive and anchored; a missing or empty URL is unsupported |
| Popup.ResponseTable | popup/popup.js:118-130 | the four outcomes of the callback, a missing count reading as 0 |
| Popup.UnsupportedBeforeDisabled | popup/popup.js:103-113 | an unsupported page reads as such even when the extension is disabled |
| Popup.DisabledSendsNothing | popup/popup.js:109-113 | a disabled extension shows "Extension disabled" and sends nothing |
| Popup.PopupShowsDetectorCount | popup/popup.js:118-125 | with the content script's answer, the popup shows the detector's count and says diagrams were detected exactly when there is one |
| Background.GetSettings | safari/background.js:70-80 | enabled and autoDetect are false only when stored as `false`; the theme is the stored one when truthy and `default` otherwise |
| Background.SaveSettings | safari/background.js:82-88 | the three keys are written with the popup's values (`enabled`, `autoDetect` as booleans, `theme` as a string) and every other key is kept |
| Background.OnInstalled | safari/background.js:7-18 | settings are written only on a first install |
| Background.BadgeText | safari/background.js:57-62 | the badge is empty exactly for a count of zero or less and otherwise all digits |
| Background.DefaultsAfterInstall | safari/background.js:10-16 | an empty store and a fresh install both read as the defaults |
| Background.SaveGetRoundTrip | safari/background.js:74-88 | saved settings read back as saved, an empty theme as `default` |
| Background.OnlyFalseDisables | safari/background.js:74-75 | only a stored `false` disables; `"false"` and 0 do not |
| Background.BadgeRoundTrip | safari/background.js:60 | a positive badge reads back as its count |

## Behaviour of the code worth noting

- `extractMermaidCode` is not idempotent: entities are decoded once per call, so `&amp;lt;` gives `&lt;` and then `<` (shared/mermaid-detector.js:103-107; `MermaidDetector.ExtractNotIdempotent`).
- Only the second pass of `findMermaidElements` skips the extension's own UI (shared/mermaid-detector.js:160-165). The first pass reports, for instance, the `<pre><code>` of a render-error panel inside the modal (`MermaidDetector.FirstPassMaySelfDetect`).
- The keyword pattern has nineteen keywords and no word boundary after them, so prose such as "pieces of text" is accepted (shared/mermaid-detector.js:10-12; `MermaidDetector.NoWordBoundary`).
- The button flags are set only after a successful render (shared/diagram-renderer.js:210-211), so after a failed render a flag can be stale (`Viewer.StaleFlagsAfterFailedRender`). A disabled button ignores clicks, and the arrow keys click the buttons.
- `rescanPage` always replies `{success: false, error}`: the listener calls `processPage`, which is declared inside the initialisation function and not visible to it (shared/content.js:127-133; `ContentScript.RescanAlwaysFails`).
- `base64Encode` never writes `=`: its padding tests compare the already advanced index, so where RFC 4648 pads it writes `A` (shared/diagram-renderer.js:525-526; `Base64.PaddingWrittenAsA`).
- `isSupportedUrl`'s `!url` test only matters for a missing URL: an empty string fails both prefix tests anyway (popup/popup.js:162-165; `Popup.IsSupportedUrl`).

## Left out

- Timers and scheduling: the debounce `setTimeout` of `observeChanges`, the URL watcher and the popup's polling are scheduling, not decisions. Only the added-node filter is modelled (`MermaidDetector.HasNewContent`).
- Asynchrony: each `render(index)` runs to its end before the next event. Interleavings of pending renders are not modelled.
- Button placement (`addVisualizeButton`, `positionButton`) and the modal's markup and styles are geometry and presentation.
- `downloadDiagram` (PNG export through canvas and Blob) uses imaging APIs that are not modelled.
- `loadMermaid` is reduced to "the library is present or loading fails"; `window.mermaid.render` is the parameter `Viewer.Env.render`.
- `JSON.stringify` and `unescape` are uninterpreted total functions; pako's `deflate` and `encodeURIComponent` are uninterpreted functions that may throw. The DEFLATE format and the percent-encoding of section 2.1 of RFC 3986 are therefore not modelled.
- ShareLink.PakoTier: when pako is missing the source goes to the fallback without throwing; the model writes this as a failure of the tier with a fixed message, which `GenerateMermaidLiveUrl` treats the same way.
- `String.fromCharCode.apply` throws a RangeError on very long argument lists in some engines; this engine limit is not modelled.
- Extension messaging and storage (`chrome.runtime`, `chrome.tabs`, `chrome.storage`) are reduced to the values passed; the Chrome background script's injection and retries are lifecycle I/O.
- `updateStatus`'s own catch ("Error checking status") fires only when the tab query fails, which is I/O.
- `toLowerCase` of the host name is ASCII lower-casing; non-ASCII host names are not modelled.
- Base64.Base64Encode: for code units of 256 and above it states only the length and the alphabet, not the exact characters, because the RFC 4648 reference is defined on bytes.
- MermaidDetector.SecondPassExcludesOwnUi follows from the contract of `FindMermaidElements` without further proof.
- The build scripts (`setup.js`, `create_svg_icons.js`, `create_icons.py`) are file-system I/O and drawing.
