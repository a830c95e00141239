/**
 * The side panel: the flow detected in the active tab's address, the editor text,
 * the status line and loading indicator, and the requests it sends to the worker.
 */
module SidePanel {
  import opened Wrappers
  import opened FlowId
  import opened Protocol
  import Background

  const NoFlowStatus: string := "No Flow Detected (Open Flow Builder)"
  const FlowDetectedPrefix: string := "Flow detected: "
  const FetchErrorPrefix: string := "Error fetching XML: "
  const SavedAlert: string := "Flow saved successfully!"
  const SaveLimitedAlert: string := "Note: Direct Save is limited by Tooling API. Use this XML to manually update via CLI."
  const CompleteStatus: string := "complete"

  /** A fetch or save request as the panel sends it: for a detected flow, with the address it was found in. */
  predicate Gated(r: Request) {
    (r.action == GetFlowXmlAction || r.action == SaveFlowXmlAction) ==>
      r.flowId.Some? && IsFlowIdToken(r.flowId.value) && r.url.Some? && GetFlowIdFromUrl(r.url.value) == r.flowId
  }

  /**
   * A panel fetch reaches the worker with its own address, which wins over the sender's
   * tab; the worker keeps the channel open and, if it fetches, fetches the detected
   * flow on that address's host.
   */
  lemma GatedFetchUsesPanelAddress(r: Request, sender: Background.Sender, env: Background.Environment,
                                   activeTab: Option<Background.Tab>)
    requires Gated(r) && r.action == GetFlowXmlAction
    ensures Background.TargetUrl(r, sender) == r.url
    ensures var routed := Background.Route(r, sender, env, activeTab);
      && routed.keepsChannelOpen
      && (routed.fetched.Some? ==>
            && env.hostOf(r.url.value).Ok?
            && routed.fetched.value.url == Background.Endpoint(env.hostOf(r.url.value).value, r.flowId.value))
  {
    var url := r.url.value;
    var i :| 0 <= i <= |url| && MatchesAt(url, i);
    assert url != "";
    Background.HandleGetFlowXmlOutcome(r.flowId, url, env);
  }

  class Panel {
    var currentFlowId: Option<string>
    var currentUrl: Option<string>
    var editorText: string
    var statusText: string
    var loadingShown: bool
    var outbox: seq<Request>
    var alerts: seq<string>

    /**
     * The flow id is always the one detected in the current address (none before any
     * address is known), and every fetch or save sent so far was gated on a detected flow.
     */
    predicate Valid()
      reads this
    {
      && (currentUrl.None? ==> currentFlowId.None?)
      && (currentUrl.Some? ==> currentFlowId == GetFlowIdFromUrl(currentUrl.value))
      && forall k :: 0 <= k < |outbox| ==> Gated(outbox[k])
    }

    constructor()
      ensures Valid()
      ensures currentFlowId == None && currentUrl == None
      ensures editorText == "" && statusText == "" && !loadingShown && outbox == [] && alerts == []
    {
      currentFlowId := None;
      currentUrl := None;
      editorText := "";
      statusText := "";
      loadingShown := false;
      outbox := [];
      alerts := [];
    }

    /** `handleUrlChange(url)`. */
    method HandleUrlChange(url: string)
      requires Valid()
      modifies this
      ensures Valid()
      ensures currentUrl == Some(url) && currentFlowId == GetFlowIdFromUrl(url)
      ensures currentFlowId.Some? ==>
        && statusText == FlowDetectedPrefix + currentFlowId.value
        && loadingShown
        && outbox == old(outbox) + [Request(GetFlowXmlAction, currentFlowId, None, Some(url))]
        && editorText == old(editorText)
      ensures currentFlowId.None? ==>
        && statusText == NoFlowStatus && editorText == ""
        && loadingShown == old(loadingShown) && outbox == old(outbox)
      ensures alerts == old(alerts)
    {
      currentUrl := Some(url);
      var flowId := GetFlowIdFromUrl(url);
      if flowId.Some? {
        currentFlowId := flowId;
        statusText := FlowDetectedPrefix + flowId.value;
        FetchFlowXml();
      } else {
        currentFlowId := None;
        statusText := NoFlowStatus;
        editorText := "";
      }
    }

    /** `fetchFlowXml()`: nothing without a detected flow. */
    method FetchFlowXml()
      requires Valid()
      modifies this
      ensures Valid()
      ensures currentFlowId.None? ==> loadingShown == old(loadingShown) && outbox == old(outbox)
      ensures currentFlowId.Some? ==>
        loadingShown && outbox == old(outbox) + [Request(GetFlowXmlAction, currentFlowId, None, currentUrl)]
      ensures currentFlowId == old(currentFlowId) && currentUrl == old(currentUrl)
      ensures editorText == old(editorText) && statusText == old(statusText) && alerts == old(alerts)
    {
      if currentFlowId.None? {
        return;
      }
      loadingShown := true;
      outbox := outbox + [Request(GetFlowXmlAction, currentFlowId, None, currentUrl)];
    }

    /** The reply callback of `fetchFlowXml`; `None` is a reply that never came. */
    method OnFetchResponse(response: Option<Reply>)
      requires Valid()
      modifies this
      ensures Valid()
      ensures !loadingShown
      ensures response.Some? && response.value.success ==>
        editorText == Str(response.value.xml) && statusText == old(statusText)
      ensures !(response.Some? && response.value.success) ==>
        && editorText == old(editorText)
        && statusText == FetchErrorPrefix + (if response.Some? then Str(response.value.error) else "Unknown")
      ensures currentFlowId == old(currentFlowId) && currentUrl == old(currentUrl)
      ensures outbox == old(outbox) && alerts == old(alerts)
    {
      loadingShown := false;
      if response.Some? && response.value.success {
        editorText := Str(response.value.xml);
      } else {
        statusText := FetchErrorPrefix + (if response.Some? then Str(response.value.error) else "Unknown");
      }
    }

    /** A click on Save: the editor text goes out with the detected flow and its address. */
    method OnSaveClicked()
      requires Valid()
      modifies this
      ensures Valid()
      ensures currentFlowId.None? ==> outbox == old(outbox)
      ensures currentFlowId.Some? ==>
        outbox == old(outbox) + [Request(SaveFlowXmlAction, currentFlowId, Some(editorText), currentUrl)]
      ensures currentFlowId == old(currentFlowId) && currentUrl == old(currentUrl)
      ensures editorText == old(editorText) && statusText == old(statusText)
      ensures loadingShown == old(loadingShown) && alerts == old(alerts)
    {
      if currentFlowId.None? {
        return;
      }
      var xml := editorText;
      outbox := outbox + [Request(SaveFlowXmlAction, currentFlowId, Some(xml), currentUrl)];
    }

    /** The reply callback of a save. */
    method OnSaveResponse(response: Option<Reply>)
      requires Valid()
      modifies this
      ensures Valid()
      ensures alerts == old(alerts) + [if response.Some? && response.value.success then SavedAlert else SaveLimitedAlert]
      ensures currentFlowId == old(currentFlowId) && currentUrl == old(currentUrl) && outbox == old(outbox)
      ensures editorText == old(editorText) && statusText == old(statusText) && loadingShown == old(loadingShown)
    {
      if response.Some? && response.value.success {
        alerts := alerts + [SavedAlert];
      } else {
        alerts := alerts + [SaveLimitedAlert];
      }
    }

    /** `updateFromActiveTab()`, also run by Refresh and on tab activation: ask the worker for the active tab's address. */
    method UpdateFromActiveTab()
      requires Valid()
      modifies this
      ensures Valid()
      ensures outbox == old(outbox) + [Request(GetCurrentTabUrlAction, None, None, None)]
      ensures currentFlowId == old(currentFlowId) && currentUrl == old(currentUrl)
      ensures editorText == old(editorText) && statusText == old(statusText)
      ensures loadingShown == old(loadingShown) && alerts == old(alerts)
    {
      outbox := outbox + [Request(GetCurrentTabUrlAction, None, None, None)];
    }

    /** The reply callback of `updateFromActiveTab`: a truthy `url` is taken as the new address. */
    method OnCurrentTabUrl(url: Option<string>)
      requires Valid()
      modifies this
      ensures Valid()
      ensures url.Some? && url.value != "" ==> currentUrl == url && currentFlowId == GetFlowIdFromUrl(url.value)
      ensures url.Some? && url.value != "" && currentFlowId.Some? ==>
        && statusText == FlowDetectedPrefix + currentFlowId.value
        && loadingShown
        && outbox == old(outbox) + [Request(GetFlowXmlAction, currentFlowId, None, url)]
        && editorText == old(editorText)
      ensures url.Some? && url.value != "" && currentFlowId.None? ==>
        && statusText == NoFlowStatus && editorText == ""
        && loadingShown == old(loadingShown) && outbox == old(outbox)
      ensures !(url.Some? && url.value != "") ==>
        && currentFlowId == old(currentFlowId) && currentUrl == old(currentUrl)
        && editorText == old(editorText) && statusText == old(statusText)
        && loadingShown == old(loadingShown) && outbox == old(outbox)
      ensures alerts == old(alerts)
    {
      if url.Some? && url.value != "" {
        HandleUrlChange(url.value);
      }
    }

    /** The `tabs.onUpdated` listener: only a completed load refreshes. */
    method OnTabUpdated(status: Option<string>)
      requires Valid()
      modifies this
      ensures Valid()
      ensures status == Some(CompleteStatus) ==> outbox == old(outbox) + [Request(GetCurrentTabUrlAction, None, None, None)]
      ensures status != Some(CompleteStatus) ==> outbox == old(outbox)
      ensures currentFlowId == old(currentFlowId) && currentUrl == old(currentUrl)
      ensures editorText == old(editorText) && statusText == old(statusText)
      ensures loadingShown == old(loadingShown) && alerts == old(alerts)
    {
      if status == Some(CompleteStatus) {
        UpdateFromActiveTab();
      }
    }
  }
}
