/** The diagram viewer of `DiagramRenderer`: the modal that `showAllDiagrams`
    opens, its inner `render(index)`, the previous/next buttons and arrow
    keys, the counter, the three ways to close it, and the instance slots
    `currentSvg` and `currentCode` that `renderDiagram` fills and
    `openInNewTab` reads.

    The Mermaid library is a parameter: whether `window.mermaid` exists, and
    its `render` as a function from code to either an SVG or an error
    message. Rendering is asynchronous in the source; here each call of
    `render(index)` runs to its end before the next event. */
module Viewer {
  import opened Wrappers
  import opened Text
  import ShareLink

  /** What the diagram container shows. */
  datatype Display =
    | Blank
    | Diagram(svg: string)
    | RenderError(message: string, code: string)

  /** One open modal: the codes it cycles through, the current index, the
      counter text, the two button flags and the last thing rendered. */
  datatype Session = Session(
    codes: seq<string>,
    idx: int,
    counter: string,
    prevDisabled: bool,
    nextDisabled: bool,
    last: Display)

  /** The renderer instance and the page around it: the modals in the page
      (elements with the modal id, in document order), whether Mermaid was
      initialised, the two slots, the error toasts shown so far and the URLs
      passed to `window.open` (a blocked pop-up still counts). */
  datatype Viewer = Viewer(
    modals: seq<Session>,
    loaded: bool,
    currentSvg: string,
    currentCode: string,
    toasts: seq<string>,
    tabs: seq<string>)

  /** The outside world: the Mermaid library and the share-link built-ins. */
  datatype Env = Env(
    mermaidPresent: bool,
    render: string -> Result<string>,
    links: ShareLink.Env)

  const NoDiagramsToast: string := "No Mermaid diagrams found on this page."
  const FailurePrefix: string := "Failed to visualize diagrams: "
  const NotAvailable: string := "Mermaid library not available"

  /** The counter text `${index + 1} / ${count}`. */
  function CounterText(index: nat, count: nat): string {
    NatToString(index + 1) + " / " + NatToString(count)
  }

  /** The counter tells positions apart: two counters read the same only
      for the same index and the same count. */
  lemma CounterTextInjective(i: nat, n: nat, j: nat, m: nat)
    requires CounterText(i, n) == CounterText(j, m)
    ensures i == j && n == m
  {
    var a, b := NatToString(i + 1), NatToString(j + 1);
    var x, y := NatToString(n), NatToString(m);
    var s := a + " / " + x;
    assert !IsDigit(s[|a|]) && !IsDigit(s[|b|]);
    assert forall k :: 0 <= k < |a| ==> s[k] == a[k];
    assert forall k :: 0 <= k < |b| ==> s[k] == b[k];
    assert |a| == |b|;
    assert a == s[..|a|] == b;
    assert x == s[|a| + 3..] == y;
    NatToStringInjective(i + 1, j + 1);
    NatToStringInjective(n, m);
  }

  function NewViewer(): Viewer {
    Viewer([], false, "", "", [], [])
  }

  // ---------------------------------------------------------------------------
  // Invariants
  // ---------------------------------------------------------------------------

  /** The index is in range and the counter shows it. */
  predicate SessionValid(s: Session) {
    && |s.codes| > 0
    && 0 <= s.idx < |s.codes|
    && s.counter == CounterText(s.idx, |s.codes|)
  }

  /** After a successful render the flags say whether the index is at
      either end. */
  predicate FlagsMatch(s: Session) {
    s.last.Diagram? ==> s.prevDisabled == (s.idx == 0) && s.nextDisabled == (s.idx == |s.codes| - 1)
  }

  /** At most one modal, and it is a valid session with matching flags. */
  predicate Valid(v: Viewer) {
    && |v.modals| <= 1
    && (|v.modals| == 1 ==> SessionValid(v.modals[0]) && FlagsMatch(v.modals[0]))
  }

  function Current(v: Viewer): Session
    requires |v.modals| > 0
  {
    v.modals[|v.modals| - 1]
  }

  function WithCurrent(v: Viewer, s: Session): (r: Viewer)
    requires |v.modals| > 0
    ensures |r.modals| == |v.modals| && Current(r) == s
    ensures r.modals[..|r.modals| - 1] == v.modals[..|v.modals| - 1]
  {
    v.(modals := v.modals[..|v.modals| - 1] + [s])
  }

  // ---------------------------------------------------------------------------
  // render(index)
  // ---------------------------------------------------------------------------

  /** What a call of `render(index)` leaves: the viewer, and the message of
      the error it rethrows when the library fails. */
  datatype RenderOutcome = RenderOutcome(viewer: Viewer, error: Option<string>)

  /** The inner `render(index)` of the current modal. An index out of range
      returns at once. Otherwise the index and the counter change first; a
      successful render fills the container and the two slots and only then
      sets the button flags; a failed render shows the error panel, keeps
      slots and flags, and rethrows. */
  function RenderAt(v: Viewer, index: int, env: Env): (r: RenderOutcome)
    requires |v.modals| > 0
    ensures |r.viewer.modals| == |v.modals|
    ensures r.viewer.modals[..|v.modals| - 1] == v.modals[..|v.modals| - 1]
    ensures r.viewer.toasts == v.toasts && r.viewer.tabs == v.tabs && r.viewer.loaded == v.loaded
    ensures !(0 <= index < |Current(v).codes|) ==> r == RenderOutcome(v, None)
    ensures 0 <= index < |Current(v).codes| ==>
              && Current(r.viewer).idx == index
              && Current(r.viewer).codes == Current(v).codes
              && Current(r.viewer).counter == CounterText(index, |Current(v).codes|)
    ensures r.error.Some? <==> 0 <= index < |Current(v).codes| && env.render(Current(v).codes[index]).Failure?
    ensures r.error.Some? ==> && r.error.value == env.render(Current(v).codes[index]).error
                              && Current(r.viewer).last == RenderError(r.error.value, Current(v).codes[index])
    ensures r.error.Some? ==> r.viewer.currentSvg == v.currentSvg && r.viewer.currentCode == v.currentCode
    ensures r.error.Some? ==> (&& Current(r.viewer).prevDisabled == Current(v).prevDisabled
                               && Current(r.viewer).nextDisabled == Current(v).nextDisabled)
    ensures 0 <= index < |Current(v).codes| && env.render(Current(v).codes[index]).Success? ==>
              && r.viewer.currentCode == Current(v).codes[index]
              && r.viewer.currentSvg == env.render(Current(v).codes[index]).value
              && Current(r.viewer).last == Diagram(r.viewer.currentSvg)
              && Current(r.viewer).prevDisabled == (index == 0)
              && Current(r.viewer).nextDisabled == (index == |Current(v).codes| - 1)
  {
    var s := Current(v);
    if index < 0 || index >= |s.codes| then RenderOutcome(v, None)
    else
      var code := s.codes[index];
      var moved := s.(idx := index, counter := CounterText(index, |s.codes|));
      match env.render(code)
      case Success(svg) =>
        var shown := moved.(last := Diagram(svg),
                            prevDisabled := index == 0,
                            nextDisabled := index == |s.codes| - 1);
        RenderOutcome(WithCurrent(v, shown).(currentSvg := svg, currentCode := code), None)
      case Failure(message) =>
        RenderOutcome(WithCurrent(v, moved.(last := RenderError(message, code))), Some(message))
  }

  // ---------------------------------------------------------------------------
  // showAllDiagrams
  // ---------------------------------------------------------------------------

  /** `createMultiDiagramModal(count)` and `appendChild`: the first element
      with the modal id goes, a fresh modal with counter `1 / count` comes
      last. */
  function OpenModal(modals: seq<Session>, codes: seq<string>): (r: seq<Session>)
    requires |codes| > 0
    ensures |r| == (if |modals| == 0 then 1 else |modals|)
    ensures r[|r| - 1].codes == codes && r[|r| - 1].idx == 0
    ensures r[|r| - 1].last == Blank && !r[|r| - 1].prevDisabled && !r[|r| - 1].nextDisabled
    ensures |modals| > 0 ==> r[..|r| - 1] == modals[1..]
  {
    var created := Session(codes, 0, "1 / " + NatToString(|codes|), false, false, Blank);
    (if |modals| == 0 then [] else modals[1..]) + [created]
  }

  /** `showAllDiagrams(codes)`: an empty list only shows a toast; otherwise
      Mermaid is initialised (or the failure is shown as a toast), the modal
      is replaced, and diagram 0 is rendered, a failure there ending in a
      toast too. */
  function ShowAllDiagrams(v: Viewer, codes: seq<string>, env: Env): (r: Viewer)
    ensures r.tabs == v.tabs
    ensures |codes| == 0 ==> r == v.(toasts := v.toasts + [NoDiagramsToast])
    ensures |codes| > 0 && !v.loaded && !env.mermaidPresent
            ==> r == v.(toasts := v.toasts + [FailurePrefix + NotAvailable])
    ensures |codes| > 0 && (v.loaded || env.mermaidPresent) ==>
              && r.loaded
              && |r.modals| == (if |v.modals| == 0 then 1 else |v.modals|)
              && Current(r).codes == codes && Current(r).idx == 0
    ensures |codes| > 0 && (v.loaded || env.mermaidPresent) && env.render(codes[0]).Success? ==>
              && r.currentCode == codes[0] && r.currentSvg == env.render(codes[0]).value
              && Current(r).last == Diagram(env.render(codes[0]).value)
              && r.toasts == v.toasts
    ensures |codes| > 0 && (v.loaded || env.mermaidPresent) && env.render(codes[0]).Failure? ==>
              r.toasts == v.toasts + [FailurePrefix + env.render(codes[0]).error]
  {
    if |codes| == 0 then v.(toasts := v.toasts + [NoDiagramsToast])
    else if !v.loaded && !env.mermaidPresent then
      v.(toasts := v.toasts + [FailurePrefix + NotAvailable])
    else
      var started := v.(loaded := true, modals := OpenModal(v.modals, codes));
      var out := RenderAt(started, 0, env);
      match out.error
      case None => out.viewer
      case Some(message) => out.viewer.(toasts := out.viewer.toasts + [FailurePrefix + message])
  }

  /** `showDiagram(code)`: the viewer with one diagram. */
  function ShowDiagram(v: Viewer, code: string, env: Env): (r: Viewer)
    ensures r == ShowAllDiagrams(v, [code], env)
    ensures (v.loaded || env.mermaidPresent) ==> |Current(r).codes| == 1
  {
    ShowAllDiagrams(v, [code], env)
  }

  // ---------------------------------------------------------------------------
  // Events on the open modal
  // ---------------------------------------------------------------------------

  datatype Event =
    | PrevClick
    | NextClick
    | KeyDown(key: string)
    | CloseClick
    | BackdropClick
    | NewTabClick

  /** Closing removes the modal element the listener belongs to, the newest
      one, and touches nothing else: the slots, tabs and toasts stay. */
  function CloseModal(v: Viewer): (r: Viewer)
    requires |v.modals| > 0
    ensures |r.modals| == |v.modals| - 1
    ensures r.modals == v.modals[..|v.modals| - 1] && r.(modals := v.modals) == v
  {
    v.(modals := v.modals[..|v.modals| - 1])
  }

  /** A click on a button; a disabled button ignores it. The promise that
      `render` returns to a click listener is not awaited, so an error it
      rethrows shows no toast. */
  function Navigate(v: Viewer, delta: int, env: Env): (r: Viewer)
    requires |v.modals| > 0
    requires delta == -1 || delta == 1
    ensures |r.modals| == |v.modals| && r.toasts == v.toasts && r.tabs == v.tabs
    ensures (if delta < 0 then Current(v).prevDisabled else Current(v).nextDisabled) ==> r == v
    ensures !(if delta < 0 then Current(v).prevDisabled else Current(v).nextDisabled) ==>
              r == RenderAt(v, Current(v).idx + delta, env).viewer
  {
    var s := Current(v);
    var disabled := if delta < 0 then s.prevDisabled else s.nextDisabled;
    if disabled then v else RenderAt(v, s.idx + delta, env).viewer
  }

  /** `openInNewTab`: nothing without a current code; otherwise the share
      link, when one can be made, is passed to `window.open`. */
  function OpenInNewTab(v: Viewer, env: Env): (r: Viewer)
    ensures r.modals == v.modals && r.currentCode == v.currentCode && r.toasts == v.toasts
    ensures v.currentCode == "" ==> r == v
    ensures r.tabs == v.tabs || (&& ShareLink.GenerateMermaidLiveUrl(v.currentCode, env.links).Success?
                                 && r.tabs == v.tabs + [ShareLink.GenerateMermaidLiveUrl(v.currentCode, env.links).value])
    ensures v.currentCode != "" && ShareLink.GenerateMermaidLiveUrl(v.currentCode, env.links).Success? ==>
              r.tabs == v.tabs + [ShareLink.GenerateMermaidLiveUrl(v.currentCode, env.links).value]
    ensures ShareLink.GenerateMermaidLiveUrl(v.currentCode, env.links).Failure? ==> r == v
  {
    if v.currentCode == "" then v
    else
      match ShareLink.GenerateMermaidLiveUrl(v.currentCode, env.links)
      case Success(url) => v.(tabs := v.tabs + [url])
      case Failure(_) => v
  }

  /** One user event on the open modal; with no modal in the page there is
      nothing to click. */
  function Step(v: Viewer, e: Event, env: Env): (r: Viewer)
    ensures |v.modals| == 0 ==> r == v
    ensures r.toasts == v.toasts && r.loaded == v.loaded
  {
    if |v.modals| == 0 then v
    else
      match e
      case PrevClick => Navigate(v, -1, env)
      case NextClick => Navigate(v, 1, env)
      case KeyDown(key) =>
        if key == "ArrowLeft" then Navigate(v, -1, env)
        else if key == "ArrowRight" then Navigate(v, 1, env)
        else if key == "Escape" then CloseModal(v)
        else v
      case CloseClick => CloseModal(v)
      case BackdropClick => CloseModal(v)
      case NewTabClick => OpenInNewTab(v, env)
  }

  /** The arrow keys click the previous and next buttons, so they act
      exactly as those clicks, disabled buttons included; a key other than
      these two and Escape does nothing. */
  lemma KeysMirrorButtons(v: Viewer, key: string, env: Env)
    ensures Step(v, KeyDown("ArrowLeft"), env) == Step(v, PrevClick, env)
    ensures Step(v, KeyDown("ArrowRight"), env) == Step(v, NextClick, env)
    ensures key !in {"ArrowLeft", "ArrowRight", "Escape"} ==> Step(v, KeyDown(key), env) == v
  {
  }

  // ---------------------------------------------------------------------------
  // Properties
  // ---------------------------------------------------------------------------

  /** The counter a fresh modal carries is the one `render(0)` writes. */
  lemma InitialCounter(n: nat)
    requires n > 0
    ensures "1 / " + NatToString(n) == CounterText(0, n)
  {
    assert NatToString(1) == "1";
  }

  /** `render` keeps the session valid and, when it succeeds, makes the
      flags match the index. */
  lemma RenderAtValid(v: Viewer, index: int, env: Env)
    requires |v.modals| > 0 && SessionValid(Current(v)) && FlagsMatch(Current(v))
    ensures SessionValid(Current(RenderAt(v, index, env).viewer))
    ensures FlagsMatch(Current(RenderAt(v, index, env).viewer))
  {
  }

  lemma ValidCurrent(v: Viewer)
    requires Valid(v) && |v.modals| > 0
    ensures |v.modals| == 1 && SessionValid(Current(v)) && FlagsMatch(Current(v))
  {
  }

  lemma ValidOne(v: Viewer)
    requires |v.modals| == 1 && SessionValid(Current(v)) && FlagsMatch(Current(v))
    ensures Valid(v)
  {
  }

  /** Showing diagrams keeps at most one modal and a valid session. */
  lemma ShowAllValid(v: Viewer, codes: seq<string>, env: Env)
    requires Valid(v)
    ensures Valid(ShowAllDiagrams(v, codes, env))
  {
    if |codes| > 0 && (v.loaded || env.mermaidPresent) {
      var started := v.(loaded := true, modals := OpenModal(v.modals, codes));
      assert |started.modals| == 1;
      InitialCounter(|codes|);
      RenderAtValid(started, 0, env);
      ValidOne(RenderAt(started, 0, env).viewer);
    }
  }

  /** Every event keeps at most one modal and a valid session: the index
      stays in range whatever is clicked or pressed. */
  lemma StepValid(v: Viewer, e: Event, env: Env)
    requires Valid(v)
    ensures Valid(Step(v, e, env))
  {
    if |v.modals| > 0 {
      ValidCurrent(v);
      match e
      case PrevClick => NavigateValid(v, -1, env);
      case NextClick => NavigateValid(v, 1, env);
      case KeyDown(key) =>
        if key == "ArrowLeft" {
          NavigateValid(v, -1, env);
        } else if key == "ArrowRight" {
          NavigateValid(v, 1, env);
        }
      case CloseClick =>
      case BackdropClick =>
      case NewTabClick =>
    }
  }

  lemma NavigateValid(v: Viewer, delta: int, env: Env)
    requires |v.modals| == 1 && SessionValid(Current(v)) && FlagsMatch(Current(v))
    requires delta == -1 || delta == 1
    ensures Valid(Navigate(v, delta, env))
  {
    var s := Current(v);
    if (if delta < 0 then s.prevDisabled else s.nextDisabled) {
      ValidOne(v);
    } else {
      NavigateRenders(v, delta, env);
    }
  }

  /** An enabled button renders the neighbouring index. */
  lemma NavigateRenders(v: Viewer, delta: int, env: Env)
    requires |v.modals| == 1 && SessionValid(Current(v)) && FlagsMatch(Current(v))
    requires delta == -1 || delta == 1
    requires !(if delta < 0 then Current(v).prevDisabled else Current(v).nextDisabled)
    ensures Valid(Navigate(v, delta, env))
  {
    var out := RenderAt(v, Current(v).idx + delta, env);
    RenderAtValid(v, Current(v).idx + delta, env);
    ValidOne(out.viewer);
  }

  /** Any run of events from a valid viewer stays valid. */
  lemma {:induction false} RunValid(v: Viewer, events: seq<Event>, env: Env)
    requires Valid(v)
    ensures Valid(Run(v, events, env))
    decreases |events|
  {
    if |events| > 0 {
      StepValid(v, events[0], env);
      RunValid(Step(v, events[0], env), events[1..], env);
    }
  }

  function Run(v: Viewer, events: seq<Event>, env: Env): Viewer
    decreases |events|
  {
    if |events| == 0 then v else Run(Step(v, events[0], env), events[1..], env)
  }

  /** Each of the three close triggers leaves no modal. */
  lemma CloseTriggersClose(v: Viewer, e: Event, env: Env)
    requires Valid(v) && |v.modals| > 0
    requires e == CloseClick || e == BackdropClick || e == KeyDown("Escape")
    ensures Step(v, e, env).modals == []
  {
  }

  /** With a single diagram that renders, both buttons end up disabled. */
  lemma SingleDiagramBothDisabled(v: Viewer, code: string, env: Env)
    requires v.loaded || env.mermaidPresent
    requires env.render(code).Success?
    ensures var s := Current(ShowAllDiagrams(v, [code], env));
            s.prevDisabled && s.nextDisabled && s.counter == CounterText(0, 1)
  {
  }

  /** Two diagrams that render, then Next: the counter reads `2 / 2`, Next
      is disabled and Prev is not. */
  lemma TwoDiagramsNext(v: Viewer, a: string, b: string, env: Env)
    requires v.loaded || env.mermaidPresent
    requires env.render(a).Success? && env.render(b).Success?
    ensures var s := Current(Step(ShowAllDiagrams(v, [a, b], env), NextClick, env));
            s.idx == 1 && s.counter == "2 / 2" && s.nextDisabled && !s.prevDisabled
  {
    var shown := ShowAllDiagrams(v, [a, b], env);
    FirstOfTwoShown(v, a, b, env, shown);
    var r := Step(shown, NextClick, env);
    NextRenders(shown, env, r);
    SecondOfTwoCounter();
  }

  lemma SecondOfTwoCounter()
    ensures CounterText(1, 2) == "2 / 2"
  {
    assert NatToString(2) == "2";
  }

  lemma FirstOfTwoShown(v: Viewer, a: string, b: string, env: Env, shown: Viewer)
    requires v.loaded || env.mermaidPresent
    requires env.render(a).Success?
    requires shown == ShowAllDiagrams(v, [a, b], env)
    ensures |shown.modals| > 0 && Current(shown).codes == [a, b]
    ensures Current(shown).idx == 0 && !Current(shown).nextDisabled && Current(shown).prevDisabled
  {
  }

  /** Next on a diagram that is not the last, when the next one renders:
      the index moves on and the flags follow it. */
  lemma NextRenders(v: Viewer, env: Env, r: Viewer)
    requires |v.modals| > 0 && !Current(v).nextDisabled
    requires 0 <= Current(v).idx && Current(v).idx + 1 < |Current(v).codes|
    requires env.render(Current(v).codes[Current(v).idx + 1]).Success?
    requires r == Step(v, NextClick, env)
    ensures |r.modals| > 0
    ensures Current(r).idx == Current(v).idx + 1
    ensures Current(r).counter == CounterText(Current(v).idx + 1, |Current(v).codes|)
    ensures Current(r).prevDisabled == false
    ensures Current(r).nextDisabled == (Current(v).idx + 2 == |Current(v).codes|)
  {
  }

  /** The flags are only set after a successful render. When diagram 1 of 2
      fails after diagram 0 rendered, Prev is still disabled from index 0,
      so neither button nor arrow key leads back: Next asks for index 2,
      which is out of range, and nothing changes. */
  lemma StaleFlagsAfterFailedRender(v: Viewer, a: string, b: string, env: Env)
    requires v.loaded || env.mermaidPresent
    requires env.render(a).Success? && env.render(b).Failure?
    ensures var stuck := Step(ShowAllDiagrams(v, [a, b], env), NextClick, env);
            && Current(stuck).idx == 1
            && Current(stuck).prevDisabled
            && Step(stuck, PrevClick, env) == stuck
            && Step(stuck, KeyDown("ArrowLeft"), env) == stuck
            && Step(stuck, NextClick, env) == stuck
  {
    var shown := ShowAllDiagrams(v, [a, b], env);
    FirstOfTwoShown(v, a, b, env, shown);
    var stuck := Step(shown, NextClick, env);
    assert stuck == RenderAt(shown, 1, env).viewer;
    assert |stuck.modals| > 0 && Current(stuck).codes == [a, b];
    assert Current(stuck).idx == 1 && Current(stuck).prevDisabled && !Current(stuck).nextDisabled;
    assert Step(stuck, NextClick, env) == RenderAt(stuck, 2, env).viewer == stuck;
  }

  /** A failed render keeps the slots of the diagram rendered before, even
      one from an earlier modal: Open in New Tab then shares that older
      diagram. */
  lemma FailedRenderKeepsSlots(v: Viewer, codes: seq<string>, env: Env)
    requires |codes| > 0 && (v.loaded || env.mermaidPresent)
    requires env.render(codes[0]).Failure?
    ensures var r := ShowAllDiagrams(v, codes, env);
            && r.currentCode == v.currentCode && r.currentSvg == v.currentSvg
            && r.toasts == v.toasts + [FailurePrefix + env.render(codes[0]).error]
  {
  }

  /** Open in New Tab passes nothing to `window.open` before a diagram
      rendered, and what it passes is always a mermaid.live link for the
      last rendered code. */
  lemma NewTabOpensShareLink(v: Viewer, env: Env)
    requires |v.modals| > 0
    ensures var r := Step(v, NewTabClick, env);
            && (v.currentCode == "" ==> r.tabs == v.tabs)
            && (v.currentCode != "" && ShareLink.GenerateMermaidLiveUrl(v.currentCode, env.links).Success? ==>
                  |r.tabs| == |v.tabs| + 1)
            && (|r.tabs| != |v.tabs| ==>
                  var url := r.tabs[|r.tabs| - 1];
                  && ShareLink.GenerateMermaidLiveUrl(v.currentCode, env.links) == Success(url)
                  && (|| StartsWith(url, ShareLink.PakoPrefix)
                      || StartsWith(url, ShareLink.Base64Prefix)
                      || StartsWith(url, ShareLink.EditPrefix)))
  {
  }

  /** An empty list adds the toast and touches no modal. */
  lemma EmptyListOnlyToasts(v: Viewer, env: Env)
    ensures ShowAllDiagrams(v, [], env).modals == v.modals
    ensures ShowAllDiagrams(v, [], env).toasts == v.toasts + [NoDiagramsToast]
  {
  }
}
