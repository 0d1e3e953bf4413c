/** The message listener of the content script: one request from the popup
    or the background script, the page it arrives at, and the reply it
    sends. The page holds whether the extension finished initialising
    (`window.mermaidExtension` is set), the document the detector scans,
    the viewer, and the `style.display` of every visualize button. */
module ContentScript {
  import opened Wrappers
  import opened Text
  import MermaidDetector
  import Viewer

  /** A message: its `action` and, for a selection, its `text` (absent when
      the sender gave none). */
  datatype Request = Request(action: string, text: Option<string>)

  /** `{count}`, or `{success}` with an optional `count` and `error`. */
  datatype Reply =
    | CountReply(count: nat)
    | StatusReply(success: bool, total: Option<nat>, error: Option<string>)

  datatype Page = Page(
    initialised: bool,
    doc: MermaidDetector.Document,
    viewer: Viewer.Viewer,
    buttons: seq<string>)

  /** What handling a message leaves: the reply (none when the listener
      never calls `sendResponse`), the page, and the count of the
      `updateBadge` message sent on to the background script. */
  datatype Outcome = Outcome(reply: Option<Reply>, page: Page, badge: Option<nat>)

  /** The error of the `rescanPage` branch: `processPage` is declared inside
      `initializeExtension`, so the listener cannot see it. The message is
      the engine's: V8 (Chrome, Edge) says "processPage is not defined",
      JavaScriptCore (Safari) "Can't find variable: processPage"; the V8
      wording stands for both here. */
  const ProcessPageUndefined: string := "processPage is not defined"
  const NotInitialised: string := "Extension not initialized"
  const NotMermaid: string := "Not valid Mermaid code"

  /** The number of diagrams the detector finds, or 0 before initialisation:
      the number of distinct elements it reports. */
  function DiagramCount(p: Page): (n: nat)
    ensures !p.initialised ==> n == 0
    ensures p.initialised ==> n == |MermaidDetector.FoundIds(MermaidDetector.FindMermaidElements(p.doc))|
  {
    if p.initialised then
      MermaidDetector.DistinctCount(MermaidDetector.FindMermaidElements(p.doc));
      |MermaidDetector.FindMermaidElements(p.doc)|
    else 0
  }

  /** The codes of the detector's entries, in its order. */
  function Codes(found: seq<MermaidDetector.Detected>): (r: seq<string>)
    ensures |r| == |found|
    ensures forall i :: 0 <= i < |r| ==> r[i] == found[i].code
  {
    seq(|found|, i requires 0 <= i < |found| => found[i].code)
  }

  /** The toggle of one button's `style.display`. */
  function ToggleDisplay(display: string): (r: string)
    ensures r == "none" || r == "inline-flex"
    ensures r == "inline-flex" <==> display == "none"
  {
    if display == "none" then "inline-flex" else "none"
  }

  function ToggleAll(buttons: seq<string>): (r: seq<string>)
    ensures |r| == |buttons|
    ensures forall i :: 0 <= i < |r| ==> r[i] == ToggleDisplay(buttons[i])
  {
    seq(|buttons|, i requires 0 <= i < |buttons| => ToggleDisplay(buttons[i]))
  }

  /** The listener. The five actions are compared one after another; at most
      one matches. */
  function Dispatch(req: Request, p: Page, env: Viewer.Env): (r: Outcome)
    ensures r.page.initialised == p.initialised && r.page.doc == p.doc
    ensures r.badge.Some? <==> req.action == "getDiagramCount"
    ensures r.page.viewer != p.viewer ==> req.action == "visualizeAll" || req.action == "visualizeSelection"
    ensures r.page.buttons != p.buttons ==> req.action == "toggleVisualization"
    ensures r.reply.None? <==>
              (|| req.action !in {"getDiagramCount", "rescanPage", "visualizeAll",
                                   "visualizeSelection", "toggleVisualization"}
               || (req.action == "visualizeSelection" && !p.initialised))
  {
    if req.action == "getDiagramCount" then
      var count := DiagramCount(p);
      Outcome(Some(CountReply(count)), p, Some(count))
    else if req.action == "rescanPage" then
      Outcome(Some(StatusReply(false, None, Some(ProcessPageUndefined))), p, None)
    else if req.action == "visualizeAll" then
      if p.initialised then
        var codes := Codes(MermaidDetector.FindMermaidElements(p.doc));
        var shown := Viewer.ShowAllDiagrams(p.viewer, codes, env);
        Outcome(Some(StatusReply(true, Some(|codes|), None)), p.(viewer := shown), None)
      else
        Outcome(Some(StatusReply(false, None, Some(NotInitialised))), p, None)
    else if req.action == "visualizeSelection" then
      if !p.initialised then Outcome(None, p, None)
      else if MermaidDetector.IsMermaidValue(req.text) then
        var clean := MermaidDetector.ExtractMermaidCode(req.text.value);
        Outcome(Some(StatusReply(true, None, None)), p.(viewer := Viewer.ShowDiagram(p.viewer, clean, env)), None)
      else
        Outcome(Some(StatusReply(false, None, Some(NotMermaid))), p, None)
    else if req.action == "toggleVisualization" then
      Outcome(Some(StatusReply(true, None, None)), p.(buttons := ToggleAll(p.buttons)), None)
    else
      Outcome(None, p, None)
  }

  // ---------------------------------------------------------------------------
  // Properties
  // ---------------------------------------------------------------------------

  /** `getDiagramCount` replies with the detector's count, 0 before
      initialisation, and forwards the same count to the badge. */
  lemma CountMatchesDetector(p: Page, text: Option<string>, env: Viewer.Env)
    ensures var r := Dispatch(Request("getDiagramCount", text), p, env);
            && r.reply == Some(CountReply(if p.initialised then |MermaidDetector.FindMermaidElements(p.doc)| else 0))
            && r.badge == Some(r.reply.value.count)
            && r.page == p
  {
  }

  /** `rescanPage` always ends in the `catch`: it never rescans and never
      replies with a count. */
  lemma RescanAlwaysFails(p: Page, text: Option<string>, env: Viewer.Env)
    ensures Dispatch(Request("rescanPage", text), p, env)
            == Outcome(Some(StatusReply(false, None, Some(ProcessPageUndefined))), p, None)
  {
  }

  /** `visualizeAll` hands the viewer every detected code, in the
      detector's order, and reports how many; before initialisation it
      refuses and shows nothing. */
  lemma VisualizeAllHandsOverCodes(p: Page, text: Option<string>, env: Viewer.Env)
    ensures var r := Dispatch(Request("visualizeAll", text), p, env);
            var found := MermaidDetector.FindMermaidElements(p.doc);
            if p.initialised then
              && r.reply == Some(StatusReply(true, Some(|found|), None))
              && r.page.viewer == Viewer.ShowAllDiagrams(p.viewer, Codes(found), env)
            else
              r.reply == Some(StatusReply(false, None, Some(NotInitialised))) && r.page == p
  {
  }

  /** `visualizeSelection` succeeds exactly on text the detector accepts,
      and then shows the normalised code. */
  lemma VisualizeSelectionIff(p: Page, text: Option<string>, env: Viewer.Env)
    requires p.initialised
    ensures var r := Dispatch(Request("visualizeSelection", text), p, env);
            && r.reply.Some? && r.reply.value.StatusReply?
            && (r.reply.value.success <==> MermaidDetector.IsMermaidValue(text))
            && (r.reply.value.success ==>
                  r.page.viewer == Viewer.ShowDiagram(p.viewer, MermaidDetector.ExtractMermaidCode(text.value), env))
            && (!r.reply.value.success ==> r.page == p)
  {
  }

  /** Toggling twice restores exactly the two values the toggle writes;
      any other starting value comes back as `inline-flex`. */
  lemma ToggleTwice(display: string)
    ensures ToggleDisplay(ToggleDisplay(display)) == display
            <==> display == "none" || display == "inline-flex"
    ensures ToggleDisplay(ToggleDisplay("")) == "inline-flex"
  {
  }

  /** After one toggle every button holds one of the two values, so from
      then on toggling is an involution on all buttons. */
  lemma ToggleAllInvolution(buttons: seq<string>)
    ensures var once := ToggleAll(buttons);
            ToggleAll(ToggleAll(once)) == once
  {
    var once := ToggleAll(buttons);
    var twice := ToggleAll(ToggleAll(once));
    forall i | 0 <= i < |once|
      ensures twice[i] == once[i]
    {
      ToggleTwice(once[i]);
    }
  }

  /** An unknown action gets no reply and changes nothing. */
  lemma UnknownActionIgnored(req: Request, p: Page, env: Viewer.Env)
    requires req.action !in {"getDiagramCount", "rescanPage", "visualizeAll",
                             "visualizeSelection", "toggleVisualization"}
    ensures Dispatch(req, p, env) == Outcome(None, p, None)
  {
  }
}
