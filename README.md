# Salesforce Flow XML Editor — a verified model of its core

The extension adds an "Edit XML" button to the Salesforce Flow Builder page. The button opens an overlay that shows the flow's metadata XML. A side panel shows the same XML. Both read the XML through a background worker, which borrows the user's session cookie to call the Tooling API. This project models the logic under the Chrome shell and proves what it promises:

- **Flow-id extraction** (`flow_id.dfy`). The regular expression `[?&]flowId=([a-zA-Z0-9]{15,18})` is written as a pure function over the address. It takes the leftmost match and captures greedily.
- **The document** (`dom.dfy`). A page is a value tree of elements. Each element may carry an attached shadow root.
  - A node is identified by its route from the root: child indices, plus steps into a shadow root.
  - `querySelector`, `getElementById` and `querySelectorAll` see only the light tree, in document order.
  - The shadow-piercing `querySelectorAllDeep` is a recursive method with a loop. It is proved against a specification function that characterises its result exactly.
  - Edits (prepend, append, remove a child) come with lemmas on how many elements carry a given id.
- **The content script** (`content.dfy`). This covers the anchor locator and the id-keyed, idempotent button injection. It also covers the overlay and loading indicator, and the open/save actions. A class `Page` holds the document, the address, and the messages and alerts sent so far.
- **The background worker** (`background.dfy`). This covers:
  - the root-domain computation, as a split and join on `.`;
  - the two-tier session-cookie lookup;
  - the Tooling API endpoint;
  - the fetch and save handlers, which turn every failure into a `{success:false, error}` record;
  - the message router.
- **The side panel** (`sidepanel.dfy`). A class `Panel` holds `currentFlowId` and `currentUrl`. It keeps the flow id equal to the one detected in the current address, and it sends a fetch or save only for a detected flow.
- **The messages** (`protocol.dfy`). The request and reply records on the extension channel.

The browser is abstracted as follows:
- The cookie store, the URL parser's `hostname`, `fetch` and the active-tab query are parameters.
- CSS selectors are opaque predicates on nodes.
- Alerts and outgoing messages are recorded in sequences on the page and panel objects.

Only the two fallback anchor strategies search shadow roots (`content.js:31, 37`). The first strategy, a fixed document path, uses the plain `document.querySelector` (`content.js:27`), which does not descend into shadow roots, so `LocateAnchor` uses the light-tree `QuerySelector` for it.

## Model

| member | source | states |
|---|---|---|
| FlowId.GetFlowIdFromUrl | content.js:81-85 | a found id is 15–18 ASCII alphanumerics; none is found exactly when no `?flowId=`/`&flowId=` is followed by 15 alphanumerics |
| FlowId.MatchFrom | content.js:83 | the match found is the leftmost position from which the pattern matches, and its capture is the greedy one there |
| FlowId.CaptureAt | content.js:83 | at a given position the pattern matches exactly when the key is followed by at least 15 alphanumerics; the capture is that run, cut at 18 |
| FlowId.GetFlowIdFromUrlExact | content.js:83 | conversely, the leftmost matching position's greedy capture is the id returned |
| FlowId.LongRunTruncated | content.js:83 | when 18 or more alphanumerics follow the key at the leftmost match, exactly the first 18 are captured |
| Dom.QuerySelector | content.js:27 | the result is a light-tree element that satisfies the selector and comes before every other such element in document order; there is none exactly when no light-tree element satisfies it |
| Dom.DescendantsSound | content.js:9 | every route `querySelectorAll('*')` lists is a non-empty light-tree route to an existing node |
| Dom.DescendantsComplete | content.js:9 | every existing node reached by a non-empty light-tree route is listed |
| Dom.DescendantsOrdered | content.js:9 | the light descendants are listed in document order: each comes before every later one |
| Dom.PrecedesAsymmetric | content.js:27 | document order is strict: no route comes both before and after another, so the first match is unique |
| Dom.QuerySelectorAllDeep | content.js:7-16 | the loop builds the root's own matches followed by each shadow host's deep results in host order, i.e. exactly `DeepMatches` |
| Dom.DeepMatchesSound | content.js:7-16 | every node the deep search returns satisfies the selector and is reached from the root through light children and shadow roots |
| Dom.DeepMatchesComplete | content.js:7-16 | every node that satisfies the selector anywhere in the root or any nested shadow tree is returned |
| Dom.DeepMatchesExact | content.js:7-16 | membership in the deep search result is exactly satisfying the selector somewhere below the root; the result is empty exactly when nothing matches in any tree |
| Dom.AtUpdate | content.js:69 | after an edit at a node, the node at that route is the edited node |
| Dom.CountUpdate | content.js:24 | an edit changes the number of elements with an id by exactly what it changes at the edited node |
| Dom.CountApply | content.js:69 | inserting a node adds its elements with the id; removing a child subtracts the child's |
| Dom.DistinctHitsCount | content.js:20 | two different elements carrying one id make that id's count at least two |
| Dom.GetElementByIdUnique | content.js:166 | when at most one element carries an id, `getElementById` returns the light-tree route to it; an element reached only through a shadow root is not found |
| Dom.ShadowEditKeepsLightTree | content.js:69 | an edit at a node inside a shadow tree leaves the light tree (its routes and labels) unchanged |
| Dom.GetElementByIdSameLightTree | content.js:20 | `getElementById` depends only on the light tree |
| Content.AnchorPrecedence | content.js:26-39 | the fixed path is used when it matches; the first deep toolbar match only when it does not; the first deep button-group match only when neither matches; no anchor exactly when none of the three matches anywhere |
| Content.FindAnchor | content.js:26-39 | the anchor search, running the loop-based deep search for the two fallbacks, returns exactly `LocateAnchor` |
| Content.AnchorIsElement | content.js:27-39 | the anchor found is an existing element reached from the document |
| Content.RemoveFirstByIdCount | content.js:23-24 | removing the first element found by id takes out exactly its subtree, changes nothing when none is found, and keeps the document's body |
| Content.RemoveFirstByIdFewer | content.js:23-24 | when an element with the id is found, fewer elements carry that id afterwards |
| Content.LegacyRemoval | content.js:23-24 | dropping the legacy button keeps the document and never adds an element |
| Content.PlacePosition | content.js:66-78 | with an anchor, the button becomes its first child in front of the old children; without one, a floating button becomes the body's last child |
| Content.PlaceAddsOne | content.js:41-78 | placing adds exactly one element with the button's id to what the legacy removal left |
| Content.InjectExactlyOne | content.js:18-79 | a button already in the light tree means no change; from a page without the button, exactly one exists afterwards |
| Content.InjectIdempotentInLightTree | content.js:20 | when the button lands in the light tree (a light anchor or the floating fallback), a second tick changes nothing |
| Content.ShadowAnchorDuplicates | content.js:20 | when the anchor lies in a shadow tree, the guard cannot see the placed button and a second tick leaves two buttons |
| Content.DeepGuardIdempotent | content.js:20 | with a guard that searches shadow trees, the button is always found after injection, a second tick changes nothing, and exactly one button exists |
| Content.AppendToBodyThenRemove | content.js:137-139 | a node appended to the body sits at the body's last position, and removing that node restores the document |
| Content.AppendedFoundById | content.js:137-143 | an appended node carrying an id no other element carries is the one `getElementById` finds, and the only one |
| Content.OverlayCounts | content.js:110-121 | the overlay holds exactly one element with its own id and one with the editor text's id |
| Content.OverlayLifecycle | content.js:105-139 | an existing overlay means no change; otherwise exactly one overlay is appended, holding the XML as editor text, and Close, removing the first light element with the overlay's id, restores the document |
| Content.LoaderLifecycle | content.js:157-168 | showing adds exactly one loader (with no guard); hiding removes one if any is found and changes nothing otherwise; hide after show restores a document without loaders |
| Content.Page.constructor | content.js:82 | a page starts from its document and address with nothing sent or shown |
| Content.Page.InjectButton | content.js:18-79 | one tick of `injectButton` leaves the document equal to `InjectedTree`, with the deep search run by the loop-based method |
| Content.Page.CreateOverlay | content.js:105-139 | the document becomes `CreateOverlayTree`; a Close handler is bound afterwards exactly when one already was or a new overlay is appended |
| Content.Page.CloseOverlay | content.js:139 | with a Close handler bound, the overlay it captured, found as the first light element with the overlay's id, is removed and the handler is gone; without one nothing changes; the document stays a document |
| Content.Page.ShowLoader | content.js:157-163 | the document becomes `ShowLoaderTree`; nothing else changes |
| Content.Page.HideLoader | content.js:165-168 | the document becomes `HideLoaderTree`; nothing else changes |
| Content.Page.OpenXmlEditor | content.js:87-95 | with no flow id: only the "Flow ID not found" alert, no loader, no message; otherwise the loader is shown and one `getFlowXml` request with the id is sent |
| Content.Page.OnFlowXmlResponse | content.js:95-102 | the loader is hidden in every case; on success the overlay is created with the XML; otherwise the "Error: " alert with the reply's error, or "API Timeout" when no reply came |
| Content.Page.SaveXml | content.js:146-148 | one `saveFlowXml` request goes out with the address's flow id (null when there is none) and the XML |
| Content.Page.SaveClicked | content.js:140-143 | Save sends the text of the element found by the editor's id |
| Content.Page.OnSaveResponse | content.js:148-154 | success alerts "Flow saved successfully!", anything else the limitation note |
| Background.Split | background.js:27 | `split('.')` always yields at least one label and no label contains a dot |
| Background.JoinSplit | background.js:27 | joining the labels of a split gives back the host name |
| Background.SplitJoin | background.js:27 | splitting a join of dot-free labels gives back the labels |
| Background.RootDomainLabels | background.js:27 | the root domain consists of the host's last two labels; a host with at most two labels is its own root; otherwise the root is the host's suffix after a dot |
| Background.RootDomainIdempotent | background.js:27 | the root domain of a root domain is itself |
| Background.GetSessionIdIsOrderedSearch | background.js:20-33 | the lookup is the ordered search over hostname then root domain: the first `sid` found wins, the root domain is queried only when the hostname has none, and it fails with "Session ID not found…" exactly when neither has one |
| Background.GetSessionIdBadAddress | background.js:21 | an unparsable address fails with the parser's message and queries no cookie |
| Background.EndpointRoundTrip | background.js:39 | the endpoint `https://<host>/services/data/v60.0/tooling/sobjects/Flow/<id>` determines the host and the flow id |
| Background.HandleGetFlowXmlOutcome | background.js:35-58 | the reply is well formed; a fetch goes out exactly when a session was found, to the flow's endpoint with the bearer and XML headers; success exactly on an ok response, carrying its body; otherwise the session error, "Failed to fetch Flow: " with the status text, or the rejection's message |
| Background.SaveNeverSucceeds | background.js:60-79 | saving never succeeds, issues no fetch, and its reply depends on neither XML nor flow id: the session error, or the fixed "not supported" error once a session is found |
| Background.RouteContract | background.js:5-18 | the channel stays open for exactly the three known actions (unless the target address cannot be read); bridged actions get a well-formed reply; unknown actions get no answer; only `getFlowXml` fetches |
| Background.TargetUrlPrecedence | background.js:7-10 | a truthy `request.url` wins; otherwise the sender tab's address is used, and without a tab there is no target |
| SidePanel.Panel.constructor | sidepanel.js:7-8 | the panel starts with no flow id and no address |
| SidePanel.Panel.HandleUrlChange | sidepanel.js:22-34 | the address is always recorded and the flow id becomes the one detected in it; on a match the status reads "Flow detected: <id>" and a fetch goes out; otherwise the status reads "No Flow Detected…" and the editor is cleared |
| SidePanel.Panel.FetchFlowXml | sidepanel.js:36-43 | with no flow id nothing happens; otherwise the loading indicator shows and one `getFlowXml` request with the id and the address goes out |
| SidePanel.Panel.OnFetchResponse | sidepanel.js:44-51 | the indicator is hidden in every case; success replaces the editor text with the XML; failure keeps it and writes "Error fetching XML: " with the error (or "Unknown") into the status |
| SidePanel.Panel.OnSaveClicked | sidepanel.js:58-66 | with no flow id nothing is sent; otherwise one `saveFlowXml` request with the id, the editor text and the address |
| SidePanel.Panel.OnSaveResponse | sidepanel.js:66-72 | success alerts "Flow saved successfully!", anything else the panel's limitation note |
| SidePanel.Panel.UpdateFromActiveTab | sidepanel.js:14-15 | one `getCurrentTabUrl` request goes out and no state changes |
| SidePanel.Panel.OnCurrentTabUrl | sidepanel.js:15-19 | a truthy address is handled as a URL change; anything else changes nothing |
| SidePanel.Panel.OnTabUpdated | sidepanel.js:77-81 | only a `complete` status triggers a refresh |
| SidePanel.GatedFetchUsesPanelAddress | sidepanel.js:40-44 | a panel fetch reaches the worker with the panel's own address, the channel stays open, and any fetch targets the detected flow on that address's host |

Every `Panel` method keeps `Panel.Valid`. This invariant says the flow id is the one detected in the current address, and that every `getFlowXml` or `saveFlowXml` the panel ever sent carries a detected 15–18 character id and the address it was detected in (`sidepanel.js:7-8, 37, 59`).

## Left out

- Chrome APIs (`chrome.cookies.getAll`, `chrome.tabs.query`, `runtime.sendMessage`, `sidePanel`) are parameters or recorded messages. The domain-matching rules of the cookie store are not modelled.
- The URL parser is a parameter returning the hostname or an error message. It is consulted once per handler: both calls in a handler see the same address and so agree.
- `fetch` is a parameter returning `{ok, statusText, body}` or a rejection message. A failure of `response.text()` is not modelled.
- Message delivery is asynchronous. The model records each outgoing request, and each reply is a separate call (`OnFlowXmlResponse`, `OnFetchResponse`, `OnSaveResponse`, `OnCurrentTabUrl`) whose argument is the reply or `None` when no reply came. Interleavings and timing are not modelled.
- The `setInterval` polling (`content.js:171`) is not modelled. One call of `InjectButton` is one tick; `ShadowAnchorDuplicates` and `InjectIdempotentInLightTree` state two ticks.
- CSS selector matching is not modelled. Each selector is an opaque predicate on a node and its subtree. Such a predicate cannot depend on a node's ancestors or its position among its siblings, so the fixed path `body > div:nth-child(13) > …` (`content.js:27`) is not expressible as written; the model admits any light-tree predicate in its place.
- Content.IsDocument: the model requires the body not to carry one of the ids the extension reserves (the button, legacy button, overlay and loader ids); the source accepts any body.
- Styling, `innerHTML` markup, console logging and click plumbing are not modelled.
  - The button and overlay keep only their ids, the floating flag and the editor text.
  - The overlay's inner markup is flattened to its Close button, Save button and textarea.
  - The XML is stored as the textarea's text verbatim. HTML parsing of the interpolated XML is not modelled.
- User typing in the overlay or panel editor is not modelled. The text saved is what the editor held last.
- Content.Page.CloseOverlay: node identity is a route from the root, which later edits can shift, so the captured overlay is identified as the first light element carrying the overlay's id. `createOverlay` appends one only when none is in the light tree and no modelled operation adds another, so that is the captured node; an element with that id which the page itself later inserts in front of it would be removed instead.
- The document is a fragment whose only child is `body`. The `html` and `head` elements, and so the real parent of `body` that the `body > …` path starts from, are not modelled; the extension never edits them.
- The side panel's initial status text comes from its HTML, which is not part of this model; the constructor starts it empty.
- A missing `flowId` in a request is written into the endpoint as `undefined` (`Protocol.Str`). JavaScript would write `null` for an explicit null. Only the save path can send one, and that path never fetches.
- `getCurrentTabUrl` with no active tab throws inside the query callback. The model gives no answer and keeps the channel open.

## Findings

| source | as written | input that shows it | evidently intended | confidence | as-written member | corrected member |
|---|---|---|---|---|---|---|
| content.js:20 | the "already injected" guard is `document.getElementById`, which does not look into shadow roots, while the anchor is found by a search that does (`content.js:31, 37`) | a page without the fixed header path whose only `.slds-builder-toolbar__actions` (or `lightning-button-group`) sits inside a shadow root: each tick inserts another button there | injection is idempotent: once placed, the button is found and further ticks change nothing | not executed | Content.ShadowAnchorDuplicates | Content.DeepGuardIdempotent |
