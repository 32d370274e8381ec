# chatgpt-to-pdf, modelled in Dafny

A model of the core of the chatgpt-to-pdf browser extension. On a ChatGPT
page, the extension lets the user pick conversation messages and export them
as one PDF. The model covers four parts of it:

- **Dom** (`Dom.dfy`): the page as the extension queries it. Each element is
  a record holding:
  - its `data-message-id`;
  - whether it has the `message` class;
  - the `data-message-author-role` values on it and its ancestors;
  - its `.markdown.prose` and `.text-base` descendants;
  - its text and inner HTML;
  - the `message-selector` indicators prepended to it.

  A document is the sequence of its elements in document order. The file
  also defines the queries: `querySelectorAll('[data-message-id]')`, the
  attribute lookup `querySelector('[data-message-id="…"]')` and `closest`.
- **Messages** (`Messages.dfy`): the `useMessages` hook. It covers:
  - the scan of tagged elements into `Message` records, under both
    role-detection rules the hook uses;
  - the selection list, with toggle, select-all and clear;
  - the selection-mode switch;
  - the delegated click handler.

  The hook's state is the class `MessageStore`.
- **PdfService** (`PdfService.dfy`): `PDFService.generatePDF`. It copies the
  chosen HTML of each requested message into an off-screen container, in
  order, skipping ids that do not resolve. It attaches the container to the
  page body, rasterizes it and detaches it again on success and on failure.
  The rasterizer is an outcome given per call.
- **Export** (`Export.dfy`): the `usePDF` hook, covering:
  - the in-progress guard;
  - the recovery scan when no id is selected;
  - up to three attempts sharing one retry counter;
  - the `chatgpt-conversation-<time>.pdf` filename;
  - the `download_pdf` request to the background page.

  The page, the rasterizer, the message channel and the clock at each
  attempt are given by an oracle `env(retryCount)`.
- **Content** (`Content.dfy`): `addMessageSelectors` of the content script.
  Each `.message` element without an id gets the id
  `msg-<Date.now()>-<index>` and an indicator bound to that id. The clock is
  a parameter.

Where the code and its description disagree, the model follows the code:

- **The guard is read once.** `isGenerating` is the value captured when
  `generatePDF` was created, so the recursive retry calls read that value
  too (`false`). Only the outer call can be refused by the guard
  (`Export.Exporter.GeneratePdf`).
- **One counter, two limits.** The retries for missing elements and for
  generation failures share one counter. A missing element at the third
  attempt ends with the "too many retries" error. A rasterizer failure at
  the third attempt ends with its own message
  (`Export.SharedCounterLimits`).
- **`selectAll` can select empty ids.** When every tagged element has an
  empty id, the scan is empty, so the fallback selects all raw ids, and
  those are all `""` (`Messages.SelectAllKeepsEmptyId`).
- **The two scans can disagree on roles.** The initial scan asks whether
  any enclosing element is "assistant". The debounced rescan reads only the
  nearest element that has a role (`Messages.RoleRulesDiffer`).
- **An indicator click in selection mode cancels itself.** The indicator's
  own handler toggles its id, and the page-level handler, reached by
  bubbling, toggles the same id again (`Messages.IndicatorClickCancels`).
- **Empty candidates are treated differently.** The PDF takes the first
  non-empty of the `.markdown.prose` and `.text-base` HTML, falling back to
  the element's own. The text scan takes the first candidate that exists,
  even if it is empty. So for an element whose `.markdown.prose` is empty
  and whose `.text-base` is not, the message text comes from the prose part
  and the PDF from the `.text-base` part (`PdfService.CandidateRulesDiffer`).
- **Ids are unique only within one pass.** The index in
  `msg-<Date.now()>-<index>` restarts at 0 on every pass of
  `addMessageSelectors`. A later pass that reads the same millisecond (or a
  clock that steps back) gives its first new element the id of an earlier
  pass's first element. The attribute lookup then resolves that id to the
  earlier element only, and a toggle removes both copies
  (`Content.CrossPassCollision`).

## Model

| member | source | states |
|---|---|---|
| Dom.Indicators | src/content.tsx:18-22 | the indicators of an element take one indicator's markup each: their markup is that length times their number |
| Dom.InnerHtmlPrepend | src/content.tsx:22 | `prepend` of one more indicator puts exactly one indicator's markup in front of the element's innerHTML and keeps the rest of it |
| Dom.Tagged | src/hooks/useMessages.ts:12 | `[data-message-id]` matches exactly the document's elements that carry the attribute, and no more than the document holds |
| Dom.RawIds | src/hooks/usePDF.ts:30-33 | one id per tagged element; a string is among them exactly when some element carries it as its `data-message-id` |
| Dom.TaggedAt | src/hooks/useMessages.ts:12 | `querySelectorAll` keeps document order: its i-th match is an element with exactly i matches before it |
| Dom.RawIdsPointwise | src/hooks/usePDF.ts:30-33 | the i-th raw id is the `data-message-id` of the i-th matched element |
| Dom.Lookup | src/services/pdfService.ts:40 | an element found by the attribute selector carries the requested id |
| Dom.LookupFinds | src/hooks/usePDF.ts:66-67 | the selector finds an element exactly when some element of the document carries the id, and what it finds is one of the document's elements |
| Dom.LookupFirst | src/services/pdfService.ts:40 | when several elements carry the id, `querySelector` returns the first in document order: no earlier element carries it |
| Dom.Missing | src/hooks/usePDF.ts:65-72 | the filtered list of missing ids is no longer than the request |
| Dom.MissingIff | src/hooks/usePDF.ts:65-74 | an id is reported missing exactly when it does not resolve; the list is empty exactly when every id resolves |
| Dom.Closest | src/hooks/useMessages.ts:121 | `closest('[data-message-id]')` finds an element exactly when the target or an ancestor carries the attribute, and the element found carries it |
| Dom.ClosestNearest | src/hooks/useMessages.ts:121 | `closest` returns the nearest of the target and its ancestors that carries the attribute: none nearer carries it |
| Messages.Scan | src/hooks/useMessages.ts:15-33 | the scan yields at most one message per tagged element |
| Messages.MessageIds | src/hooks/useMessages.ts:80 | `map(msg => msg.id)`: one id per message, position by position |
| Messages.RemoveAll | src/hooks/useMessages.ts:88 | `filter(id => id !== x)`: every copy of `x` removed, every other string kept with its multiplicity |
| Messages.Toggle | src/hooks/useMessages.ts:85-91 | the id is selected afterwards exactly when it was not; the other ids keep their counts; removing a selected id drops every copy and keeps the others in order; a newly selected id goes last behind the unchanged selection |
| Messages.RemoveAllAppend | src/hooks/useMessages.ts:88 | filtering distributes over concatenation |
| Messages.RemoveAllAbsent | src/hooks/useMessages.ts:88 | filtering out an absent id changes nothing |
| Messages.ScanIds | src/hooks/useMessages.ts:15-33 | the scanned ids are exactly the non-empty `data-message-id` values, in document order |
| Messages.MessageIdsAppend | src/hooks/useMessages.ts:80 | the ids of two message lists joined are their ids joined |
| Messages.ScanSound | src/hooks/useMessages.ts:15-33 | every scanned message comes from a document element with the same non-empty id, the rule's role, the first existing candidate's text and the scan's time |
| Messages.ScanAt | src/hooks/useMessages.ts:15-33 | the scan keeps document order: its i-th message is the message of some element whose predecessors yield exactly i messages |
| Messages.ScanOneSpec | src/hooks/useMessages.ts:17-31 | an element yields a message exactly when its `data-message-id` is non-empty; the message carries that id, the rule's role, the content text and the scan's time |
| Messages.RoleOfSpec | src/hooks/useMessages.ts:24 | the first scan says assistant exactly when the element or an ancestor has role "assistant"; the rescan exactly when the nearest role is "assistant"; neither says assistant without an "assistant" role |
| Messages.ContentTextSpec | src/hooks/useMessages.ts:20-29 | the content is the text of `.markdown.prose` when it exists, else of `.text-base` when it exists, else the element's own text; it is always one of these |
| Messages.ScanEmptyIffOnlyEmptyIds | src/hooks/useMessages.ts:13-38 | the scan is empty exactly when every `data-message-id` found is empty |
| Messages.RoleRulesDiffer | src/hooks/useMessages.ts:169-182 | the rescan says assistant only if the first scan does; they disagree exactly when an enclosing role is "assistant" but the nearest role is not |
| Messages.RoleRulesDisagreeWhenNested | src/hooks/useMessages.ts:24 | a user turn inside an assistant container is an assistant message to the first scan and a user message to the rescan |
| Messages.ToggleTwiceAbsent | src/hooks/useMessages.ts:85-91 | toggling an unselected id twice restores the selection |
| Messages.ToggleTwicePresent | src/hooks/useMessages.ts:85-91 | toggling a selected id twice drops all its copies and appends it once |
| Messages.ToggleTwiceReorders | src/hooks/useMessages.ts:85-91 | toggling the first of two selected ids twice moves it behind the other |
| Messages.ToggleTwiceCollapses | src/hooks/useMessages.ts:85-91 | toggling an id selected twice, twice, leaves it selected once |
| Messages.SelectAllSpec | src/hooks/useMessages.ts:60-82 | a non-empty scan selects exactly the non-empty ids in document order; otherwise the fallback selects the raw ids, which are then all empty; with no tagged element the selection is kept; with a tagged element the selection is never empty |
| Messages.SelectAllKeepsEmptyId | src/hooks/useMessages.ts:64-74 | a page whose only tagged element has an empty id ends with `[""]` selected |
| Messages.SelectAllResult | src/hooks/useMessages.ts:60-82 | `selectAll` either keeps the selection or replaces it by ids that are all `data-message-id` values of the document |
| Messages.ClickTarget | src/hooks/useMessages.ts:121-125 | a click selects an id exactly when the nearest tagged ancestor has a non-empty id, and then it is that id |
| Messages.IndicatorClickCancels | src/content.tsx:21 | in selection mode a click on an unselected message's indicator is handled twice for the same id and leaves the selection as it was |
| Messages.MessageStore.constructor | src/hooks/useMessages.ts:5-8 | no messages, nothing selected, loading, not in selection mode |
| Messages.MessageStore.InitMessages | src/hooks/useMessages.ts:11-39 | returns the scan; with no tagged element nothing changes; otherwise the scan replaces the messages and loading ends; the selection is untouched |
| Messages.MessageStore.SelectAll | src/hooks/useMessages.ts:60-82 | the selection becomes the select-all result of the document at the call, after the same update of the messages as a scan |
| Messages.MessageStore.ToggleMessage | src/hooks/useMessages.ts:85-91 | the selection becomes its toggle, and nothing else changes |
| Messages.MessageStore.ClearSelection | src/hooks/useMessages.ts:93-95 | the selection becomes empty, and nothing else changes |
| Messages.MessageStore.ToggleSelectionMode | src/hooks/useMessages.ts:98-106 | the mode flips; entering it rescans and keeps the selection, leaving it empties the selection and keeps the messages |
| Messages.MessageStore.HandleClick | src/hooks/useMessages.ts:119-128 | in selection mode a click toggles the id of the nearest tagged ancestor; outside the mode, outside any message, or on an empty id nothing changes |
| Messages.MessageStore.ClickIndicator | src/content.tsx:21 | the indicator's own toggle of its bound id, followed by the page-level handler for the same click |
| PdfService.Assemble | src/services/pdfService.ts:39-81 | the container gets at most one child per requested id |
| PdfService.Present | src/services/pdfService.ts:41 | the ids kept are exactly the requested ones that resolve |
| PdfService.AssembleAppend | src/services/pdfService.ts:39-81 | one more id adds one child at the end if it resolves and nothing otherwise |
| PdfService.AssembleAllPresent | src/services/pdfService.ts:39-81 | when every id resolves there is one child per id, in request order, each the chosen HTML of its element |
| PdfService.AssembleSkipsMissing | src/services/pdfService.ts:41 | unresolved ids contribute nothing: assembling all ids equals assembling only those that resolve |
| PdfService.ChildHtmlSpec | src/services/pdfService.ts:58-60 | a message div gets the non-empty `.markdown.prose` HTML, else the non-empty `.text-base` HTML, else the element's own innerHTML |
| PdfService.CandidateRulesDiffer | src/services/pdfService.ts:58-60 | a non-empty `.markdown.prose` is used by both the PDF and the text scan; an empty one with a non-empty `.text-base` gives the PDF the `.text-base` HTML but the message the prose text; an empty child means the element's own HTML is empty |
| PdfService.Expected | src/services/pdfService.ts:107-118 | the call succeeds exactly when html2pdf returned, then with the fixed render options and at most one child per id; a failure carries html2pdf's error unchanged |
| PdfService.Body.AppendChild | src/services/pdfService.ts:83 | the container becomes the body's last child and no node appears twice |
| PdfService.Body.RemoveChild | src/services/pdfService.ts:112 | the container is cut out where it stood, everything else stays in order |
| PdfService.Container.constructor | src/services/pdfService.ts:28 | a new container has no children |
| PdfService.Container.AppendChild | src/services/pdfService.ts:80 | the message div becomes the container's last child |
| PdfService.Rasterize | src/services/pdfService.ts:88-109 | with the container attached, html2pdf yields a blob of the container's children under the fixed render options, or the error it threw |
| PdfService.Service.constructor | src/services/pdfService.ts:19-21 | the options are stored |
| PdfService.Service.GeneratePdf | src/services/pdfService.ts:23-118 | the result is the assembled children rendered with the fixed options, or the rasterizer's error rethrown; the body's children are as before on both paths |
| Export.Sanitize | src/hooks/usePDF.ts:82 | same length; every ':' and '.' becomes '-', every other character is kept |
| Export.ErrorMessage | src/hooks/usePDF.ts:93 | a thrown `Error` surfaces its own message; anything else thrown gives the non-empty default message |
| Export.Targets | src/hooks/usePDF.ts:28-43 | a non-empty selection is used as is; an empty one is replaced by one id per tagged element, exactly the document's `data-message-id` values; nothing is left to export exactly when the selection is empty and no element is tagged |
| Export.AttemptStepSpec | src/hooks/usePDF.ts:52-101 | one attempt reaches the service exactly when every element is present, sends a request exactly when html2pdf also returned, that request carrying the attempt's assembled children and filename; a missing element always leads to a retry |
| Export.FailureCauses | src/hooks/usePDF.ts:45-101 | a final error is either the "too many retries" error or the failure of the third attempt with every element present, carrying its rasterizer's or else its download message's thrown message |
| Export.AttemptsBounded | src/hooks/usePDF.ts:45-101 | the service is called at most once per remaining attempt (so at most three times), and at most one download request is sent per service call |
| Export.RendersOnlyWhenPresent | src/hooks/usePDF.ts:65-80 | every render request is for the whole id list, and one happens only if some attempt found every element |
| Export.SuccessIff | src/hooks/usePDF.ts:45-104 | the export ends without error exactly when some remaining attempt found every element and both the rasterizer and the download message succeeded |
| Export.SuccessRequest | src/hooks/usePDF.ts:80-91 | a run without error has a first successful attempt, and the last request sent is that attempt's `download_pdf` request with its assembled children and its filename |
| Export.FirstSuccess | src/hooks/usePDF.ts:45-104 | a run without error has an attempt that succeeded, and none before it did |
| Export.LastRequest | src/hooks/usePDF.ts:85-89 | the last request of a run is the one sent by its first successful attempt |
| Export.OneRequestOnSuccess | src/hooks/usePDF.ts:85-91 | when the message channel always delivers, a successful export sends exactly one `download_pdf` request and a failed one sends none |
| Export.StepRenders | src/hooks/usePDF.ts:65-80 | one attempt renders the whole id list once, and only when every element is present, or renders nothing |
| Export.RetryKeepsError | src/hooks/usePDF.ts:74-78 | after a retry the final error is the deeper call's |
| Export.StepEnds | src/hooks/usePDF.ts:74-101 | an attempt stops without error exactly when it succeeds, and then sends one `download_pdf` request; a failure stops only from the third attempt on; at the third attempt with every element present it always stops |
| Export.FirstAttemptSucceeds | src/hooks/usePDF.ts:80-91 | when the first attempt succeeds, the export sends one request with the assembled children and the sanitized filename, and ends without error |
| Export.NeverPresentFails | src/hooks/usePDF.ts:45-50 | if an element stays missing at every attempt, the export renders nothing and ends with the "too many retries" error |
| Export.SharedCounterLimits | src/hooks/usePDF.ts:97-101 | a rasterizer failure at the third attempt surfaces its own message and is not retried |
| Export.FilenameShape | src/hooks/usePDF.ts:82-83 | the filename is `chatgpt-conversation-`, then the time with every ':' and '.' made '-', then `.pdf` |
| Export.Exporter.constructor | src/hooks/usePDF.ts:5-19 | not generating, no error, and a service built with the light theme, font size 12 and 20 mm margins |
| Export.Exporter.GeneratePdf | src/hooks/usePDF.ts:21-50 | while generating nothing happens; with no selection and no tagged element the error is "no messages found"; otherwise the export runs on the selection, or on every raw id when the selection is empty; the body is left as it was |
| Export.Exporter.RunAttempts | src/hooks/usePDF.ts:45-104 | the renders, requests and final error are those of the attempts from `retryCount` on; the generating flag is cleared unless the limit had already been reached |
| Export.Exporter.RunAttempt | src/hooks/usePDF.ts:52-101 | one attempt does what the attempt specification says, and leaves the body as it was |
| Content.NatStr | src/content.tsx:15 | an interpolated number is a non-empty string |
| Content.NatStrDigits | src/content.tsx:15 | an interpolated number consists of decimal digits only |
| Content.ParseNatStr | src/content.tsx:15 | reading the digits back gives the number |
| Content.NatStrInjective | src/content.tsx:15 | different numbers render differently |
| Content.StampIdInjective | src/content.tsx:15 | the time and the index can be read back from an id |
| Content.StampIdShape | src/content.tsx:15 | an id is `msg-`, the digits of the time, one dash and the digits of the index, and holds no other character |
| Content.StampIdsDiffer | src/content.tsx:15 | ids with different indices differ, whatever the times |
| Content.StampFrom | src/content.tsx:13-23 | the pass keeps the number of elements |
| Content.Pass | src/content.tsx:13-23 | the pass keeps the number of elements |
| Content.StampFromAt | src/content.tsx:14-22 | an untagged `.message` element gets the id for its position among the untagged ones (in a pass, `PassIds`: `msg-<time>-<index>`) plus an indicator bound to it; every other element is unchanged |
| Content.StampSpec | src/content.tsx:16-22 | stamping sets the id, so the element no longer matches the pass's selector, and prepends exactly one indicator bound to it; nothing else of the element changes |
| Content.UntaggedNotTagged | src/content.tsx:13 | `.message:not([data-message-id])` matches exactly the `.message` elements that `[data-message-id]` does not |
| Content.PassAt | src/content.tsx:14-22 | the pass's result at one position, and the untagged index moving past it exactly when it was untagged |
| Content.CountUntaggedPrefix | src/content.tsx:14 | every untagged element advances the index |
| Content.NoneLeftUntagged | src/content.tsx:13-23 | after a pass no `.message` element lacks a `data-message-id` |
| Content.PassStampsUntaggedOnly | src/content.tsx:13-23 | tagged elements are untouched; a newly tagged element gets its id and exactly one new first indicator bound to that id, its role and content unchanged |
| Content.StampedIdsDistinct | src/content.tsx:15 | the ids stamped in one pass are pairwise distinct, even when the clock reads the same time for all |
| Content.CrossPassCollision | src/content.tsx:15 | two passes that read the same time give the first new element of each the same id, and the attribute lookup resolves that id to the earlier element |
| Content.StampFromNoop | src/content.tsx:13 | a pass over elements none of which is untagged changes nothing |
| Content.SecondPassNoop | src/content.tsx:28-29 | the observer firing again on the pass's own writes changes nothing, whatever the clock reads |
| Content.NewlyTaggedCount | src/content.tsx:13-16 | the pass tags exactly as many elements as matched `.message:not([data-message-id])` |
| Content.UntaggedIndices | src/content.tsx:13 | the count of untagged elements is the size of the set of their positions |
| Content.Document.constructor | src/content.tsx:13 | the document holds the given elements |
| Content.Document.AddMessageSelectors | src/content.tsx:12-24 | the in-place `forEach` leaves the document equal to one pass over its old elements |

## Left out

- The `MutationObserver`s, the 200 ms debounce and the fixed delays (500 ms, 1000 ms, 100 ms) are left out. Each run of the operations above is modelled on the document it reads. The oracle `env(retryCount)` stands for the document after each delay.
- html2pdf and the PDF bytes are left out. The rasterizer is an outcome per call, and a blob records the HTML of the container's children and the render options it was given.
- `container.offsetWidth` is not modelled. It is layout, which the model does not compute.
- The CSS text of the container, the message divs and `<pre>` blocks is left out. So are the `selectable-message`/`selected` marker classes and the `message-selector` styling. They are presentation only.
- `chrome.runtime.sendMessage`, `URL.createObjectURL` and the background page are left out. A sent message is a `Request` value, and whether sending threw is an oracle outcome.
- `console` logging is not modelled. `useI18n`, `useTheme`, the React components and the build configuration are not part of this model.
- `Date.now()` and `toISOString()` are parameters. The format of the ISO string is not modelled; `Sanitize` works on any string.
- Export.Exporter.RunAttempts: the generating flag is stated only once every attempt is over. In the source each retry is returned without being awaited, so the caller's `finally` clears the flag as soon as the retried call reaches its first `await`; during the retry delays the flag is false, and a second export started then passes the guard. Concurrent exports are not modelled.
- Messages.Scan: every message of one scan gets the same `timestamp`. The source calls `Date.now()` once per element, so timestamps within one scan may differ by a few milliseconds.
- Dom.Lookup: the id is matched as a plain string. In the source it is interpolated into a selector, where a quote or backslash in an id would change the selector or make `querySelector` throw.
- `textContent` is modelled as a plain string, so `textContent || ''` is that string. For an element, `textContent` is never null.
- Export.Exporter.GeneratePdf: React's asynchronous state updates are modelled as immediate field writes. This matters only for the captured `isGenerating`, which is modelled as read once per export.
- PdfService.Service.constructor: the theme, font size and margins are stored but never read, as in the source. The output does not depend on them.
