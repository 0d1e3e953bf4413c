/** The status logic of the toolbar popup: which pages it talks to
    (`isSupportedUrl`), what `updateStatus` shows for the active tab, and
    how `updateUI` mirrors the settings. */
module Popup {
  import opened Wrappers
  import opened Text
  import ContentScript
  import Viewer

  /** `isSupportedUrl(url)`: a missing or empty URL is not supported;
      otherwise the URL must start, case-sensitively, with `http://` or
      `https://`. */
  predicate IsSupportedUrl(url: Option<string>)
    ensures IsSupportedUrl(url) <==> url.Some? && (StartsWith(url.value, "http://") || StartsWith(url.value, "https://"))
  {
    url.Some? && url.value != "" && (StartsWith(url.value, "http://") || StartsWith(url.value, "https://"))
  }

  datatype Tab = Tab(id: int, url: Option<string>)

  /** What the callback of `chrome.tabs.sendMessage` receives: a set
      `chrome.runtime.lastError`, no response, or a response with or without
      a `count`. */
  datatype ScanResponse =
    | LastError
    | NoResponse
    | Responded(count: Option<nat>)

  /** The popup's status line: the class of the dot, the text, and the
      diagram count shown (none when `updateStatus` leaves it as it was). */
  datatype Status = Status(dot: string, text: string, found: Option<string>)

  /** The final status of `updateStatus`, and whether it sent
      `getDiagramCount` to the tab. */
  datatype StatusOutcome = StatusOutcome(status: Status, sent: bool)

  const Inactive: string := "inactive"
  const Active: string := "active"

  /** The callback's table. `response.count || 0` turns a missing count into
      0. */
  function ResponseStatus(response: ScanResponse): (s: Status)
    ensures s.found.Some?
    ensures s.dot == Active <==> response.Responded?
  {
    match response
    case LastError => Status(Inactive, "Content script not loaded", Some("0"))
    case NoResponse => Status(Inactive, "Unable to scan", Some("0"))
    case Responded(count) =>
      var n := count.GetOr(0);
      Status(Active, if n > 0 then "Diagrams detected" else "No diagrams found", Some(NatToString(n)))
  }

  /** `updateStatus` with the tabs the query returned, the `enabled`
      setting, and the response the content script gives if asked. The
      checks run in the order: active tab, supported URL, enabled. */
  function UpdateStatus(tabs: seq<Tab>, enabled: bool, response: ScanResponse): (r: StatusOutcome)
    ensures r.sent <==> |tabs| > 0 && IsSupportedUrl(tabs[0].url) && enabled
    ensures !r.sent ==> r.status.dot == Inactive
    ensures r.status.found.None? <==> |tabs| == 0
    ensures r.status.dot == Active <==> r.sent && response.Responded?
  {
    if |tabs| == 0 then StatusOutcome(Status(Inactive, "No active tab", None), false)
    else if !IsSupportedUrl(tabs[0].url) then StatusOutcome(Status(Inactive, "Unsupported page", Some("0")), false)
    else if !enabled then StatusOutcome(Status(Inactive, "Extension disabled", Some("0")), false)
    else StatusOutcome(ResponseStatus(response), true)
  }

  /** The controls `updateUI` sets from the settings. */
  datatype Controls = Controls(enabledChecked: bool, autoDetectChecked: bool, theme: string, scanDisabled: bool)

  function UpdateUi(enabled: bool, autoDetect: bool, theme: string): (c: Controls)
    ensures c.scanDisabled <==> !enabled
    ensures c.enabledChecked == enabled && c.autoDetectChecked == autoDetect && c.theme == theme
  {
    Controls(enabled, autoDetect, theme, !enabled)
  }

  // ---------------------------------------------------------------------------
  // Properties
  // ---------------------------------------------------------------------------

  /** The protocol test is case-sensitive and anchored at the start. */
  lemma SupportedUrlExamples()
    ensures IsSupportedUrl(Some("https://github.com/"))
    ensures !IsSupportedUrl(Some("HTTPS://github.com/"))
    ensures !IsSupportedUrl(Some("chrome://extensions"))
    ensures !IsSupportedUrl(None) && !IsSupportedUrl(Some(""))
  {
    assert "https://github.com/"[..8] == "https://";
    assert "HTTPS://github.com/"[0] != "https://"[0];
    assert "HTTPS://github.com/"[0] != "http://"[0];
    assert "chrome://extensions"[0] != "http://"[0];
  }

  /** The callback's table: an error or a missing response reads inactive
      with count 0; a response without a count reads as zero diagrams. */
  lemma ResponseTable(n: nat)
    ensures ResponseStatus(LastError) == Status(Inactive, "Content script not loaded", Some("0"))
    ensures ResponseStatus(NoResponse) == Status(Inactive, "Unable to scan", Some("0"))
    ensures ResponseStatus(Responded(None)) == ResponseStatus(Responded(Some(0)))
            == Status(Active, "No diagrams found", Some("0"))
    ensures n > 0 ==> ResponseStatus(Responded(Some(n))) == Status(Active, "Diagrams detected", Some(NatToString(n)))
  {
    assert NatToString(0) == "0";
  }

  /** An unsupported page reads "Unsupported page" even when the extension
      is disabled: the URL check comes first. */
  lemma UnsupportedBeforeDisabled(tabs: seq<Tab>, enabled: bool, response: ScanResponse)
    requires |tabs| > 0 && !IsSupportedUrl(tabs[0].url)
    ensures UpdateStatus(tabs, enabled, response) == StatusOutcome(Status(Inactive, "Unsupported page", Some("0")), false)
  {
  }

  /** A disabled extension never asks the tab. */
  lemma DisabledSendsNothing(tabs: seq<Tab>, response: ScanResponse)
    requires |tabs| > 0 && IsSupportedUrl(tabs[0].url)
    ensures var r := UpdateStatus(tabs, false, response);
            !r.sent && r.status == Status(Inactive, "Extension disabled", Some("0"))
  {
  }

  /** The popup and the content script together: when the content script
      answers `getDiagramCount`, the popup shows the detector's count, and
      says diagrams were detected exactly when there is at least one. */
  lemma PopupShowsDetectorCount(tabs: seq<Tab>, page: ContentScript.Page, env: Viewer.Env)
    requires |tabs| > 0 && IsSupportedUrl(tabs[0].url)
    ensures var reply := ContentScript.Dispatch(ContentScript.Request("getDiagramCount", None), page, env).reply;
            reply.Some? && reply.value.CountReply?
            && var r := UpdateStatus(tabs, true, Responded(Some(reply.value.count)));
               && r.status.found == Some(NatToString(ContentScript.DiagramCount(page)))
               && (r.status.text == "Diagrams detected" <==> ContentScript.DiagramCount(page) > 0)
  {
  }
}
