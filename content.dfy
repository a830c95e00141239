/**
 * The page-resident content script: the anchor locator and the injection of the
 * "Edit XML" button, the editor overlay and the loading indicator, and the
 * open/save actions that talk to the background worker.
 */
module Content {
  import opened Wrappers
  import opened Dom
  import opened FlowId
  import opened Protocol

  const ButtonId: string := "edit-flow-xml-btn-v7"
  const LegacyButtonId: string := "edit-flow-xml-btn"
  const OverlayId: string := "xml-editor-overlay"
  const LoaderId: string := "xml-editor-loader"
  const CloseButtonId: string := "close-xml-editor"
  const SaveButtonId: string := "save-xml-editor"
  const EditorContentId: string := "xml-editor-content"

  const FlowIdNotFoundAlert: string :=
    "Salesforce Flow XML Editor [V7]: Flow ID not found. Ensure you are in the Flow Builder page."
  const SavedAlert: string := "Flow saved successfully!"
  const SaveLimitedAlert: string :=
    "Note [V7]: Direct saving is limited by Salesforce Tooling API for XML. Use the XML to manually update via CLI/Metadata API."

  /**
   * The page's document: a fragment whose only child is `body`. The body never
   * carries one of the ids the extension reserves for its own nodes.
   */
  predicate IsDocument(d: Node) {
    d.Fragment? && |d.children| == 1 && d.children[0].Element?
    && d.children[0].id !in {ButtonId, LegacyButtonId, OverlayId, LoaderId}
  }

  function Body(d: Node): Node
    requires IsDocument(d)
  {
    d.children[0]
  }

  const BodyPath: Path := [Child(0)]

  /** `document.body.appendChild(c)`. */
  function AppendToBody(d: Node, c: Node): Node {
    Update(d, BodyPath, Append(c))
  }

  /** Any edit below the document root keeps the document's shape and its body's label. */
  lemma EditKeepsDocument(d: Node, p: Path, e: Edit)
    requires IsDocument(d) && p != []
    ensures IsDocument(Update(d, p, e))
  {
  }

  /** The button the script creates; anchored it gets a margin, floating it is `position: fixed`. */
  function Button(floating: bool): Node {
    Element("button", ButtonId, {}, floating, "", [], NoShadowRoot)
  }

  /** The overlay: Close and Save buttons and the textarea holding the XML. */
  function Overlay(xml: string): Node {
    Element("div", OverlayId, {}, true, "",
      [ Element("button", CloseButtonId, {}, false, "", [], NoShadowRoot),
        Element("button", SaveButtonId, {}, false, "", [], NoShadowRoot),
        Element("textarea", EditorContentId, {}, false, xml, [], NoShadowRoot) ],
      NoShadowRoot)
  }

  function Loader(): Node {
    Element("div", LoaderId, {}, true, "", [], NoShadowRoot)
  }

  /** The three placement strategies, as opaque selectors, most specific first. */
  datatype AnchorSelectors = AnchorSelectors(headerPath: Selector, toolbarActions: Selector, buttonGroup: Selector)

  /**
   * The anchor for the button: the fixed document path (light tree only), else the
   * first deep match of the toolbar-actions selector, else the first deep match of
   * the button-group selector, else none.
   */
  function LocateAnchor(d: Node, sels: AnchorSelectors): Option<Path> {
    var header := QuerySelector(sels.headerPath, d);
    if header.Some? then header
    else
      var toolbarActions := DeepMatches(sels.toolbarActions, d);
      if |toolbarActions| > 0 then Some(toolbarActions[0])
      else
        var buttonGroups := DeepMatches(sels.buttonGroup, d);
        if |buttonGroups| > 0 then Some(buttonGroups[0]) else None
  }

  /**
   * Strategy precedence: a later strategy is used only when every earlier one
   * matches nothing anywhere, and there is no anchor exactly when none matches.
   */
  lemma AnchorPrecedence(d: Node, sels: AnchorSelectors)
    ensures var r := LocateAnchor(d, sels);
      && (QuerySelector(sels.headerPath, d).Some? ==> r == QuerySelector(sels.headerPath, d))
      && (QuerySelector(sels.headerPath, d).None? && (exists p :: DeepHit(sels.toolbarActions, d, p)) ==>
            |DeepMatches(sels.toolbarActions, d)| > 0 && r == Some(DeepMatches(sels.toolbarActions, d)[0]) && DeepHit(sels.toolbarActions, d, r.value))
      && (QuerySelector(sels.headerPath, d).None? && (forall p :: !DeepHit(sels.toolbarActions, d, p))
          && (exists p :: DeepHit(sels.buttonGroup, d, p)) ==>
            |DeepMatches(sels.buttonGroup, d)| > 0 && r == Some(DeepMatches(sels.buttonGroup, d)[0]) && DeepHit(sels.buttonGroup, d, r.value))
      && (r.None? <==>
            && (forall p :: p != [] && IsLight(p) ==> !Hits(sels.headerPath, d, p))
            && (forall p :: !DeepHit(sels.toolbarActions, d, p))
            && (forall p :: !DeepHit(sels.buttonGroup, d, p)))
  {
    DeepMatchesExact(sels.toolbarActions, d);
    DeepMatchesExact(sels.buttonGroup, d);
  }

  /** Whatever strategy wins, the anchor is an element reached from the document's light tree. */
  lemma AnchorIsElement(d: Node, sels: AnchorSelectors)
    requires LocateAnchor(d, sels).Some?
    ensures var a := LocateAnchor(d, sels).value;
      a != [] && a[0].Child? && At(d, a).Some? && At(d, a).value.Element?
  {
    var a := LocateAnchor(d, sels).value;
    if QuerySelector(sels.headerPath, d).None? {
      if |DeepMatches(sels.toolbarActions, d)| > 0 {
        DeepMatchesSound(sels.toolbarActions, d, a);
      } else {
        DeepMatchesSound(sels.buttonGroup, d, a);
      }
    }
  }

  /** `document.getElementById(id)?.remove()`: the first light element carrying `id` leaves the tree. */
  function RemoveFirstById(d: Node, id: string): Node {
    match GetElementById(d, id)
    case Some(p) => Remove(d, p)
    case None => d
  }

  /**
   * Removing by id takes out exactly the subtree the found element roots, and keeps
   * the body (whose id is never the one removed).
   */
  lemma RemoveFirstByIdCount(d: Node, id: string, other: string)
    requires IsDocument(d) && Body(d).id != id
    ensures IsDocument(RemoveFirstById(d, id))
    ensures GetElementById(d, id).None? ==> RemoveFirstById(d, id) == d
    ensures GetElementById(d, id).Some? ==>
      var p := GetElementById(d, id).value;
      Count(other, RemoveFirstById(d, id)) + Count(other, At(d, p).value) == Count(other, d)
    ensures Count(other, RemoveFirstById(d, id)) <= Count(other, d)
  {
    var found := GetElementById(d, id);
    if found.Some? {
      var p := found.value;
      assert p != BodyPath;
      assert p[0] == Child(0);
      assert |p| >= 2;
      var q, i := p[..|p| - 1], p[|p| - 1].index;
      assert p == q + [Child(i)];
      AtAppend(d, q, [Child(i)]);
      var parent := At(d, q).value;
      assert At(parent, [Child(i)]) == At(parent.children[i], []);
      EditKeepsDocument(d, q, RemoveChild(i));
      CountUpdate(other, d, q, RemoveChild(i));
      CountApply(other, RemoveChild(i), parent);
    }
  }

  /** With no element carrying `id` in the whole tree, the light-tree lookup finds nothing. */
  lemma AbsentNotFound(d: Node, id: string)
    requires Count(id, d) == 0
    ensures GetElementById(d, id).None?
  {
    var r := GetElementById(d, id);
    if r.Some? {
      CountAt(id, d, r.value);
    }
  }

  /** Removing an element by id lowers the number of elements carrying that id by at least one. */
  lemma RemoveFirstByIdFewer(d: Node, id: string)
    requires IsDocument(d) && Body(d).id != id
    ensures GetElementById(d, id).Some? ==> Count(id, RemoveFirstById(d, id)) < Count(id, d)
  {
    RemoveFirstByIdCount(d, id, id);
  }

  /** The document after `document.getElementById('edit-flow-xml-btn')?.remove()`. */
  function WithoutLegacyButton(d: Node): Node {
    RemoveFirstById(d, LegacyButtonId)
  }

  lemma LegacyRemoval(d: Node, id: string)
    requires IsDocument(d)
    ensures IsDocument(WithoutLegacyButton(d))
    ensures Count(id, WithoutLegacyButton(d)) <= Count(id, d)
  {
    RemoveFirstByIdCount(d, LegacyButtonId, id);
  }

  /** What `injectButton` does once its guard lets it through: drop the legacy button, then place the new one. */
  function Place(d: Node, sels: AnchorSelectors): Node {
    var d1 := WithoutLegacyButton(d);
    match LocateAnchor(d1, sels)
    case Some(a) => Update(d1, a, Prepend(Button(false)))
    case None => AppendToBody(d1, Button(true))
  }

  /** `injectButton()`: a no-op when the light tree already holds the button, else `Place`. */
  function InjectedTree(d: Node, sels: AnchorSelectors): Node {
    if GetElementById(d, ButtonId).Some? then d else Place(d, sels)
  }

  /**
   * Placement: the button becomes the anchor's first child, or, with no anchor,
   * the body's last child in floating position.
   */
  lemma PlacePosition(d: Node, sels: AnchorSelectors)
    requires IsDocument(d)
    ensures IsDocument(Place(d, sels))
    ensures var d1 := WithoutLegacyButton(d);
      match LocateAnchor(d1, sels)
      case Some(a) =>
        && At(Place(d, sels), a).Some? && At(d1, a).Some?
        && At(Place(d, sels), a).value.children == [Button(false)] + At(d1, a).value.children
        && At(Place(d, sels), a + [Child(0)]) == Some(Button(false))
      case None =>
        && Body(Place(d, sels)).children == Body(d1).children + [Button(true)]
        && At(Place(d, sels), BodyPath + [Child(|Body(d1).children|)]) == Some(Button(true))
  {
    LegacyRemoval(d, ButtonId);
    var d1 := WithoutLegacyButton(d);
    var d2 := Place(d, sels);
    match LocateAnchor(d1, sels)
    case Some(a) =>
      AnchorIsElement(d1, sels);
      EditKeepsDocument(d1, a, Prepend(Button(false)));
      AtUpdate(d1, a, Prepend(Button(false)));
      AtAppend(d2, a, [Child(0)]);
    case None =>
      EditKeepsDocument(d1, BodyPath, Append(Button(true)));
      AtAppend(d2, BodyPath, [Child(|Body(d1).children|)]);
  }

  /** Placing adds exactly one button to what the legacy removal left. */
  lemma PlaceAddsOne(d: Node, sels: AnchorSelectors)
    requires IsDocument(d)
    ensures Count(ButtonId, Place(d, sels)) == Count(ButtonId, WithoutLegacyButton(d)) + 1
  {
    LegacyRemoval(d, ButtonId);
    var d1 := WithoutLegacyButton(d);
    match LocateAnchor(d1, sels)
    case Some(a) =>
      AnchorIsElement(d1, sels);
      CountUpdate(ButtonId, d1, a, Prepend(Button(false)));
      CountApply(ButtonId, Prepend(Button(false)), At(d1, a).value);
    case None =>
      CountUpdate(ButtonId, d1, BodyPath, Append(Button(true)));
      CountApply(ButtonId, Append(Button(true)), Body(d1));
  }

  /** An element reachable from the document makes its id's count positive. */
  lemma FoundMeansCounted(d: Node, id: string, p: Path)
    requires Hits(IdIs(id), d, p)
    ensures Count(id, d) >= 1
  {
    CountAt(id, d, p);
  }

  /**
   * Idempotent, id-keyed insertion: with the button already in the light tree nothing
   * changes; starting from a document without any such button, exactly one exists after.
   */
  lemma InjectExactlyOne(d: Node, sels: AnchorSelectors)
    requires IsDocument(d)
    ensures IsDocument(InjectedTree(d, sels))
    ensures GetElementById(d, ButtonId).Some? ==> InjectedTree(d, sels) == d
    ensures Count(ButtonId, d) == 0 ==> Count(ButtonId, InjectedTree(d, sels)) == 1
  {
    var found := GetElementById(d, ButtonId);
    if found.Some? {
      FoundMeansCounted(d, ButtonId, found.value);
    } else {
      PlacePosition(d, sels);
      PlaceAddsOne(d, sels);
      LegacyRemoval(d, ButtonId);
    }
  }

  /**
   * The next tick is a no-op when the button was placed where `getElementById` sees
   * it: under an anchor in the light tree, or floating on the body.
   */
  lemma InjectIdempotentInLightTree(d: Node, sels: AnchorSelectors)
    requires IsDocument(d)
    requires var a := LocateAnchor(WithoutLegacyButton(d), sels); a.None? || IsLight(a.value)
    ensures GetElementById(InjectedTree(d, sels), ButtonId).Some?
    ensures InjectedTree(InjectedTree(d, sels), sels) == InjectedTree(d, sels)
  {
    if GetElementById(d, ButtonId).None? {
      PlacePosition(d, sels);
      var d1 := WithoutLegacyButton(d);
      var d2 := Place(d, sels);
      var at := match LocateAnchor(d1, sels)
        case Some(a) => a + [Child(0)]
        case None => BodyPath + [Child(|Body(d1).children|)];
      assert Hits(IdIs(ButtonId), d2, at);
      assert IsLight(at) && at != [];
    }
  }

  /**
   * As written, the guard looks for the button with `getElementById`, which does not
   * see into shadow trees. When the winning anchor lies inside a shadow tree, the
   * button placed there stays invisible to the guard, so the next tick places a
   * second one.
   */
  lemma ShadowAnchorDuplicates(d: Node, sels: AnchorSelectors)
    requires IsDocument(d)
    requires Count(ButtonId, d) == 0 && Count(LegacyButtonId, d) == 0
    requires LocateAnchor(d, sels).Some? && !IsLight(LocateAnchor(d, sels).value)
    ensures Count(ButtonId, InjectedTree(d, sels)) == 1
    ensures GetElementById(InjectedTree(d, sels), ButtonId).None?
    ensures Count(ButtonId, InjectedTree(InjectedTree(d, sels), sels)) == 2
  {
    AbsentNotFound(d, ButtonId);
    AbsentNotFound(d, LegacyButtonId);
    var a := LocateAnchor(d, sels).value;
    var d2 := InjectedTree(d, sels);
    assert d2 == Update(d, a, Prepend(Button(false)));
    AnchorIsElement(d, sels);
    PlacePosition(d, sels);
    PlaceAddsOne(d, sels);
    ShadowEditKeepsLightTree(d, a, Prepend(Button(false)));
    GetElementByIdSameLightTree(d, d2, ButtonId);
    CountUpdate(LegacyButtonId, d, a, Prepend(Button(false)));
    CountApply(LegacyButtonId, Prepend(Button(false)), At(d, a).value);
    AbsentNotFound(d2, LegacyButtonId);
    PlaceAddsOne(d2, sels);
  }

  /** The evident intent: a guard that searches through shadow trees as the anchor search does. */
  function InjectedTreeDeepGuard(d: Node, sels: AnchorSelectors): Node {
    if DeepMatches(IdIs(ButtonId), d) != [] then d else Place(d, sels)
  }

  /** With the deep guard, injection is idempotent wherever the anchor lies, and leaves exactly one button. */
  lemma DeepGuardIdempotent(d: Node, sels: AnchorSelectors)
    requires IsDocument(d)
    ensures IsDocument(InjectedTreeDeepGuard(d, sels))
    ensures DeepMatches(IdIs(ButtonId), InjectedTreeDeepGuard(d, sels)) != []
    ensures InjectedTreeDeepGuard(InjectedTreeDeepGuard(d, sels), sels) == InjectedTreeDeepGuard(d, sels)
    ensures Count(ButtonId, d) == 0 ==> Count(ButtonId, InjectedTreeDeepGuard(d, sels)) == 1
  {
    if DeepMatches(IdIs(ButtonId), d) == [] {
      PlacePosition(d, sels);
      PlaceAddsOne(d, sels);
      LegacyRemoval(d, ButtonId);
      var d1 := WithoutLegacyButton(d);
      var d2 := Place(d, sels);
      var at: Path;
      match LocateAnchor(d1, sels) {
        case Some(a) =>
          AnchorIsElement(d1, sels);
          at := a + [Child(0)];
        case None =>
          at := BodyPath + [Child(|Body(d1).children|)];
      }
      assert InjectedTreeDeepGuard(d, sels) == d2;
      assert DeepHit(IdIs(ButtonId), d2, at);
      DeepMatchesComplete(IdIs(ButtonId), d2, at);
    } else {
      var p := DeepMatches(IdIs(ButtonId), d)[0];
      DeepMatchesSound(IdIs(ButtonId), d, p);
      CountAt(ButtonId, d, p);
    }
  }

  /** Where a node appended to the body lands. */
  function AppendedPath(d: Node): Path
    requires IsDocument(d)
  {
    BodyPath + [Child(|Body(d).children|)]
  }

  /** An appended node sits at `AppendedPath`, and removing it there restores the document. */
  lemma AppendToBodyThenRemove(d: Node, c: Node)
    requires IsDocument(d)
    ensures IsDocument(AppendToBody(d, c))
    ensures At(AppendToBody(d, c), AppendedPath(d)) == Some(c)
    ensures Remove(AppendToBody(d, c), AppendedPath(d)) == d
  {
    var body := Body(d);
    var k := |body.children|;
    EditKeepsDocument(d, BodyPath, Append(c));
    AtAppend(AppendToBody(d, c), BodyPath, [Child(k)]);
    assert AppendedPath(d)[..1] == BodyPath;
    assert (body.children + [c])[..k] + (body.children + [c])[k + 1..] == body.children;
  }

  /**
   * When neither the document nor anything already in it carries `id`, the node
   * appended with that id is the one `getElementById` finds, and the only one.
   */
  lemma AppendedFoundById(d: Node, c: Node, id: string, p: Path)
    requires IsDocument(d) && Count(id, d) == 0 && Count(id, c) == 1
    requires At(c, p).Some? && At(c, p).value.Element? && At(c, p).value.id == id && IsLight(p)
    ensures Count(id, AppendToBody(d, c)) == 1
    ensures GetElementById(AppendToBody(d, c), id) == Some(AppendedPath(d) + p)
  {
    var d2 := AppendToBody(d, c);
    AppendToBodyThenRemove(d, c);
    CountUpdate(id, d, BodyPath, Append(c));
    CountApply(id, Append(c), Body(d));
    AtAppend(d2, AppendedPath(d), p);
    GetElementByIdUnique(d2, id, AppendedPath(d) + p);
  }

  lemma ThreeChildren(id: string, cs: seq<Node>)
    requires |cs| == 3
    ensures ForestCount(id, cs) == Count(id, cs[0]) + Count(id, cs[1]) + Count(id, cs[2])
  {
    assert cs[1..][1..][1..] == [];
    assert ForestCount(id, cs[1..][1..]) == Count(id, cs[2]) + ForestCount(id, cs[1..][1..][1..]);
    assert ForestCount(id, cs[1..]) == Count(id, cs[1]) + ForestCount(id, cs[1..][1..]);
  }

  /** The overlay holds exactly one element with its own id and one with the editor text's id. */
  lemma OverlayCounts(xml: string)
    ensures Count(OverlayId, Overlay(xml)) == 1 && Count(EditorContentId, Overlay(xml)) == 1
  {
    var cs := Overlay(xml).children;
    assert cs[1..][1..][1..] == [];
    assert OverlayId != CloseButtonId && OverlayId != SaveButtonId by {
      assert |OverlayId| == 18 && |CloseButtonId| == 16 && |SaveButtonId| == 15;
    }
    assert OverlayId != EditorContentId by {
      assert OverlayId[11] != EditorContentId[11];
    }
    assert EditorContentId != CloseButtonId && EditorContentId != SaveButtonId by {
      assert |EditorContentId| == 18;
    }
    ThreeChildren(OverlayId, cs);
    ThreeChildren(EditorContentId, cs);
  }

  /** `createOverlay(xml)`: nothing when an overlay is in the light tree, else the overlay appended to the body. */
  function CreateOverlayTree(d: Node, xml: string): Node {
    if GetElementById(d, OverlayId).Some? then d else AppendToBody(d, Overlay(xml))
  }

  /**
   * Overlay lifecycle: creation is a no-op when an overlay exists; from a document with
   * none, it appends exactly one, the editor text is found by its id and holds `xml`,
   * and Close (removing the overlay node) restores the original document.
   */
  lemma OverlayLifecycle(d: Node, xml: string)
    requires IsDocument(d)
    ensures IsDocument(CreateOverlayTree(d, xml))
    ensures GetElementById(d, OverlayId).Some? ==> CreateOverlayTree(d, xml) == d
    ensures GetElementById(CreateOverlayTree(d, xml), OverlayId).Some?
    ensures Count(OverlayId, d) == 0 ==>
      var d2 := CreateOverlayTree(d, xml);
      && Count(OverlayId, d2) == 1
      && GetElementById(d2, OverlayId) == Some(AppendedPath(d))
      && At(d2, AppendedPath(d)) == Some(Overlay(xml))
      && Remove(d2, AppendedPath(d)) == d
      && RemoveFirstById(d2, OverlayId) == d
    ensures Count(OverlayId, d) == 0 && Count(EditorContentId, d) == 0 ==>
      var d2 := CreateOverlayTree(d, xml);
      && GetElementById(d2, EditorContentId).Some?
      && At(d2, GetElementById(d2, EditorContentId).value).value.text == xml
  {
    if GetElementById(d, OverlayId).None? {
      var d2 := AppendToBody(d, Overlay(xml));
      AppendToBodyThenRemove(d, Overlay(xml));
      AtAppend(d2, AppendedPath(d), []);
      assert AppendedPath(d) + [] == AppendedPath(d);
      OverlayCounts(xml);
      if Count(OverlayId, d) == 0 {
        AppendedFoundById(d, Overlay(xml), OverlayId, []);
        if Count(EditorContentId, d) == 0 {
          AppendedFoundById(d, Overlay(xml), EditorContentId, [Child(2)]);
        }
      } else {
        assert Hits(IdIs(OverlayId), d2, AppendedPath(d));
      }
    } else {
      FoundMeansCounted(d, OverlayId, GetElementById(d, OverlayId).value);
    }
  }

  /** `showLoader()`: a loader is appended to the body, with no guard against one already shown. */
  function ShowLoaderTree(d: Node): Node {
    AppendToBody(d, Loader())
  }

  /** `hideLoader()`: the first loader found by id is removed, if any. */
  function HideLoaderTree(d: Node): Node {
    RemoveFirstById(d, LoaderId)
  }

  /**
   * Loader lifecycle: showing adds exactly one loader; hiding removes one when any is in
   * the light tree and changes nothing otherwise; from a document without loaders,
   * hiding after showing restores it.
   */
  lemma LoaderLifecycle(d: Node)
    requires IsDocument(d)
    ensures IsDocument(ShowLoaderTree(d)) && IsDocument(HideLoaderTree(d))
    ensures Count(LoaderId, ShowLoaderTree(d)) == Count(LoaderId, d) + 1
    ensures GetElementById(d, LoaderId).Some? ==> Count(LoaderId, HideLoaderTree(d)) < Count(LoaderId, d)
    ensures GetElementById(d, LoaderId).None? ==> HideLoaderTree(d) == d
    ensures Count(LoaderId, d) == 0 ==> HideLoaderTree(ShowLoaderTree(d)) == d
  {
    AppendToBodyThenRemove(d, Loader());
    CountUpdate(LoaderId, d, BodyPath, Append(Loader()));
    CountApply(LoaderId, Append(Loader()), Body(d));
    RemoveFirstByIdCount(d, LoaderId, LoaderId);
    if Count(LoaderId, d) == 0 {
      AppendedFoundById(d, Loader(), LoaderId, []);
      assert AppendedPath(d) + [] == AppendedPath(d);
    }
  }

  /** The anchor search of `injectButton`, running the loop-based deep search for the two fallbacks. */
  method FindAnchor(d: Node, sels: AnchorSelectors) returns (header: Option<Path>)
    ensures header == LocateAnchor(d, sels)
  {
    header := QuerySelector(sels.headerPath, d);
    if header.None? {
      var toolbarActions := QuerySelectorAllDeep(sels.toolbarActions, d);
      if |toolbarActions| > 0 {
        header := Some(toolbarActions[0]);
      }
    }
    if header.None? {
      var buttonGroups := QuerySelectorAllDeep(sels.buttonGroup, d);
      if |buttonGroups| > 0 {
        header := Some(buttonGroups[0]);
      }
    }
  }

  /**
   * The page as the content script sees it: its document, its address, whether a
   * Close handler is bound to an overlay it created, the messages it has sent to the
   * background worker and the alerts it has shown.
   */
  class Page {
    var tree: Node
    var href: string
    var overlayOpen: bool
    var outbox: seq<Request>
    var alerts: seq<string>

    predicate Valid()
      reads this
    {
      IsDocument(tree)
    }

    constructor(document: Node, url: string)
      requires IsDocument(document)
      ensures Valid()
      ensures tree == document && href == url && !overlayOpen && outbox == [] && alerts == []
    {
      tree := document;
      href := url;
      overlayOpen := false;
      outbox := [];
      alerts := [];
    }

    /** One tick of the periodic `injectButton()`. */
    method InjectButton(sels: AnchorSelectors)
      requires Valid()
      modifies this
      ensures Valid()
      ensures tree == InjectedTree(old(tree), sels)
      ensures href == old(href) && overlayOpen == old(overlayOpen) && outbox == old(outbox) && alerts == old(alerts)
    {
      InjectExactlyOne(tree, sels);
      if GetElementById(tree, ButtonId).Some? {
        return;
      }
      var oldBtn := GetElementById(tree, LegacyButtonId);
      if oldBtn.Some? {
        tree := Remove(tree, oldBtn.value);
      }
      var header := FindAnchor(tree, sels);
      if header.Some? {
        tree := Update(tree, header.value, Prepend(Button(false)));
      } else {
        tree := AppendToBody(tree, Button(true));
      }
    }

    /** `createOverlay(xml)`; a newly appended overlay gets its Close handler. */
    method CreateOverlay(xml: string)
      requires Valid()
      modifies this
      ensures Valid()
      ensures tree == CreateOverlayTree(old(tree), xml)
      ensures overlayOpen == (old(overlayOpen) || GetElementById(old(tree), OverlayId).None?)
      ensures href == old(href) && outbox == old(outbox) && alerts == old(alerts)
    {
      OverlayLifecycle(tree, xml);
      if GetElementById(tree, OverlayId).Some? {
        return;
      }
      tree := AppendToBody(tree, Overlay(xml));
      overlayOpen := true;
    }

    /**
     * A click on Close: `overlay.remove()` on the overlay the handler captured, which
     * is the first light element carrying the overlay's id (`createOverlay` appends one
     * only when none is there).
     */
    method CloseOverlay()
      requires Valid()
      modifies this
      ensures Valid()
      ensures tree == if old(overlayOpen) then RemoveFirstById(old(tree), OverlayId) else old(tree)
      ensures !overlayOpen
      ensures href == old(href) && outbox == old(outbox) && alerts == old(alerts)
    {
      if overlayOpen {
        RemoveFirstByIdCount(tree, OverlayId, OverlayId);
        var found := GetElementById(tree, OverlayId);
        if found.Some? {
          tree := Remove(tree, found.value);
        }
      }
      overlayOpen := false;
    }

    method ShowLoader()
      requires Valid()
      modifies this
      ensures Valid()
      ensures tree == ShowLoaderTree(old(tree))
      ensures href == old(href) && overlayOpen == old(overlayOpen) && outbox == old(outbox) && alerts == old(alerts)
    {
      LoaderLifecycle(tree);
      tree := AppendToBody(tree, Loader());
    }

    method HideLoader()
      requires Valid()
      modifies this
      ensures Valid()
      ensures tree == HideLoaderTree(old(tree))
      ensures href == old(href) && overlayOpen == old(overlayOpen) && outbox == old(outbox) && alerts == old(alerts)
    {
      LoaderLifecycle(tree);
      var loader := GetElementById(tree, LoaderId);
      if loader.Some? {
        tree := Remove(tree, loader.value);
      }
    }

    /**
     * A click on the injected button. Without a flow id in the address it only alerts;
     * otherwise it shows the loader and asks the worker for the flow's XML (no url: the
     * worker uses the sending tab's).
     */
    method OpenXmlEditor()
      requires Valid()
      modifies this
      ensures Valid()
      ensures GetFlowIdFromUrl(href).None? ==>
        tree == old(tree) && outbox == old(outbox) && alerts == old(alerts) + [FlowIdNotFoundAlert]
      ensures GetFlowIdFromUrl(href).Some? ==>
        && tree == ShowLoaderTree(old(tree))
        && outbox == old(outbox) + [Request(GetFlowXmlAction, GetFlowIdFromUrl(href), None, None)]
        && alerts == old(alerts)
      ensures href == old(href) && overlayOpen == old(overlayOpen)
    {
      var flowId := GetFlowIdFromUrl(href);
      if flowId.None? {
        alerts := alerts + [FlowIdNotFoundAlert];
        return;
      }
      ShowLoader();
      outbox := outbox + [Request(GetFlowXmlAction, flowId, None, None)];
    }

    /** The reply callback of `openXmlEditor`; `None` is a reply that never came. */
    method OnFlowXmlResponse(response: Option<Reply>)
      requires Valid()
      modifies this
      ensures Valid()
      ensures response.Some? && response.value.success ==>
        tree == CreateOverlayTree(HideLoaderTree(old(tree)), Str(response.value.xml)) && alerts == old(alerts)
      ensures response.Some? && response.value.success ==>
        overlayOpen == (old(overlayOpen) || GetElementById(HideLoaderTree(old(tree)), OverlayId).None?)
      ensures !(response.Some? && response.value.success) ==>
        && tree == HideLoaderTree(old(tree))
        && overlayOpen == old(overlayOpen)
        && alerts == old(alerts) + ["Error: " + (if response.Some? then Str(response.value.error) else "API Timeout")]
      ensures href == old(href) && outbox == old(outbox)
    {
      HideLoader();
      if response.Some? && response.value.success {
        CreateOverlay(Str(response.value.xml));
      } else {
        alerts := alerts + ["Error: " + (if response.Some? then Str(response.value.error) else "API Timeout")];
      }
    }

    /** `saveXml(xml)`: no guard here, so a missing flow id goes out as null. */
    method SaveXml(xml: string)
      requires Valid()
      modifies this
      ensures Valid()
      ensures outbox == old(outbox) + [Request(SaveFlowXmlAction, GetFlowIdFromUrl(href), Some(xml), None)]
      ensures tree == old(tree) && href == old(href) && overlayOpen == old(overlayOpen) && alerts == old(alerts)
    {
      var flowId := GetFlowIdFromUrl(href);
      outbox := outbox + [Request(SaveFlowXmlAction, flowId, Some(xml), None)];
    }

    /** A click on Save: the editor text, found by its id, is saved. */
    method SaveClicked()
      requires Valid()
      modifies this
      ensures Valid()
      ensures GetElementById(tree, EditorContentId).Some? ==>
        var at := GetElementById(tree, EditorContentId).value;
        outbox == old(outbox) + [Request(SaveFlowXmlAction, GetFlowIdFromUrl(href), Some(At(tree, at).value.text), None)]
      ensures GetElementById(tree, EditorContentId).None? ==> outbox == old(outbox)
      ensures tree == old(tree) && href == old(href) && overlayOpen == old(overlayOpen) && alerts == old(alerts)
    {
      var content := GetElementById(tree, EditorContentId);
      if content.Some? {
        SaveXml(At(tree, content.value).value.text);
      }
    }

    /** The reply callback of `saveXml`. */
    method OnSaveResponse(response: Option<Reply>)
      requires Valid()
      modifies this
      ensures Valid()
      ensures alerts == old(alerts) + [if response.Some? && response.value.success then SavedAlert else SaveLimitedAlert]
      ensures tree == old(tree) && href == old(href) && overlayOpen == old(overlayOpen) && outbox == old(outbox)
    {
      if response.Some? && response.value.success {
        alerts := alerts + [SavedAlert];
      } else {
        alerts := alerts + [SaveLimitedAlert];
      }
    }
  }
}
