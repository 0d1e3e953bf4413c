/** `MermaidDetector` (shared/mermaid-detector.js): the detection predicate,
    the normaliser, the platform classifier, the element scan and the filter
    that decides whether a batch of DOM mutations asks for a re-scan. */
module MermaidDetector {
  import opened Wrappers
  import opened Text
  import opened HtmlEntities

  // ---------------------------------------------------------------------------
  // Detection predicate
  // ---------------------------------------------------------------------------

  /** The diagram-type keywords of the first detection pattern, in source order. */
  const Keywords: seq<string> := [
    "graph", "flowchart", "sequenceDiagram", "classDiagram", "stateDiagram",
    "pie", "gantt", "gitgraph", "journey", "timeline", "mindmap",
    "quadrantChart", "requirement", "erDiagram", "C4Context", "C4Container",
    "C4Component", "C4Dynamic", "block-beta"
  ]

  const Fence := "```"
  const MermaidFence := "```mermaid"

  /** `/^\s*(graph|flowchart|...|block-beta)/i`. Every keyword begins with a
      letter, so the leading `\s*` can only match the whole whitespace run. */
  predicate KeywordPattern(t: string) {
    exists k :: 0 <= k < |Keywords| && StartsWithIgnoreCase(TrimStart(t), Keywords[k])
  }

  /** `/^\s*```mermaid/i` */
  predicate FencePattern(t: string) {
    StartsWithIgnoreCase(TrimStart(t), MermaidFence)
  }

  /** `/^\s*```\s*mermaid/i` */
  predicate SpacedFencePattern(t: string) {
    var u := TrimStart(t);
    StartsWithIgnoreCase(u, Fence) && |u| >= 3
    && StartsWithIgnoreCase(TrimStart(u[3..]), "mermaid")
  }

  /** `isMermaidCode(text)` for a string argument. */
  predicate IsMermaidCode(text: string)
    ensures IsMermaidCode(text) ==> JsLength(Trim(text)) >= 5
    ensures JsLength(Trim(text)) >= 5 && Contains(Trim(text), MermaidFence) ==> IsMermaidCode(text)
  {
    var t := Trim(text);
    if JsLength(t) < 5 then false
    else if StartsWith(t, MermaidFence) || Contains(t, MermaidFence) then true
    else KeywordPattern(t) || FencePattern(t) || SpacedFencePattern(t)
  }

  /** `isMermaidCode(value)` for an arbitrary argument: `None` stands for a
      value that is not a string (`undefined`, a number, ...). */
  predicate IsMermaidValue(value: Option<string>) {
    value.Some? && IsMermaidCode(value.value)
  }

  /** `"```" + whitespace + "mermaid"` (any case) at the front of `t`. */
  ghost predicate OpensFence(t: string) {
    exists n :: 3 <= n <= |t| && StartsWith(t, Fence) && AllWhitespace(t[3..n])
                && StartsWithIgnoreCase(t[n..], "mermaid")
  }

  /** Skipping leading whitespace lands on the first non-whitespace position. */
  lemma TrimStartAt(s: string, n: nat)
    requires n <= |s| && AllWhitespace(s[..n])
    requires n == |s| || !IsWhitespace(s[n])
    ensures TrimStart(s) == s[n..]
  {
    assert forall k :: 0 <= k < n ==> IsWhitespace(s[..n][k]);
    LeadingSpaceAt(s, n);
  }

  lemma BackticksIgnoreCase(s: string)
    ensures StartsWithIgnoreCase(s, Fence) <==> StartsWith(s, Fence)
  {
    StartsWithIgnoreCaseIff(s, Fence);
    if |s| >= 3 && ToLower(s[..3]) == ToLower(Fence) {
      assert Lower(s[0]) == '`' && Lower(s[1]) == '`' && Lower(s[2]) == '`';
      assert s[..3] == Fence;
    }
  }

  /** The spaced-fence pattern on a trimmed text, stated without `TrimStart`. */
  lemma SpacedFenceOnTrimmed(t: string)
    requires IsTrimmed(t)
    ensures SpacedFencePattern(t) <==> OpensFence(t)
  {
    if SpacedFencePattern(t) {
      SpacedFenceOpens(t);
    }
    if OpensFence(t) {
      OpensSpacedFence(t);
    }
  }

  lemma SpacedFenceOpens(t: string)
    requires IsTrimmed(t) && SpacedFencePattern(t)
    ensures OpensFence(t)
  {
    TrimTrimmed(t);
    BackticksIgnoreCase(t);
    var m := TrimStart(t[3..]);
    assert StartsWithIgnoreCase(m, "mermaid");
    var n := |t| - |m|;
    SpaceAfterFenceSkipped(t, n);
    OpensFenceAt(t, n);
  }

  /** What `TrimStart` skips after the backticks is whitespace. */
  lemma SpaceAfterFenceSkipped(t: string, n: int)
    requires |t| >= 3 && n == |t| - |TrimStart(t[3..])|
    ensures 3 <= n <= |t| && t[n..] == TrimStart(t[3..]) && AllWhitespace(t[3..n])
  {
    var u := t[3..];
    assert t[3..n] == u[..|u| - |TrimStart(u)|];
  }

  lemma OpensFenceAt(t: string, n: nat)
    requires 3 <= n <= |t| && StartsWith(t, Fence) && AllWhitespace(t[3..n])
    requires StartsWithIgnoreCase(t[n..], "mermaid")
    ensures OpensFence(t)
  {
  }

  lemma OpensSpacedFence(t: string)
    requires IsTrimmed(t) && OpensFence(t)
    ensures SpacedFencePattern(t)
  {
    var n :| 3 <= n <= |t| && StartsWith(t, Fence) && AllWhitespace(t[3..n])
             && StartsWithIgnoreCase(t[n..], "mermaid");
    OpensSpacedFenceAt(t, n);
  }

  lemma OpensSpacedFenceAt(t: string, n: nat)
    requires IsTrimmed(t) && 3 <= n <= |t| && StartsWith(t, Fence)
    requires AllWhitespace(t[3..n]) && StartsWithIgnoreCase(t[n..], "mermaid")
    ensures SpacedFencePattern(t)
  {
    TrimTrimmed(t);
    BackticksIgnoreCase(t);
    SpaceAfterFence(t, n);
    SpacedFenceFromParts(t, n);
  }

  /** Skipping the whitespace after the backticks lands on "mermaid". */
  lemma SpaceAfterFence(t: string, n: nat)
    requires 3 <= n <= |t| && AllWhitespace(t[3..n]) && StartsWithIgnoreCase(t[n..], "mermaid")
    ensures TrimStart(t[3..]) == t[n..]
  {
    var u := t[3..];
    assert u[..n - 3] == t[3..n];
    assert u[n - 3..] == t[n..];
    NotWhitespaceBeforeMermaid(t[n..]);
    TrimStartAt(u, n - 3);
  }

  lemma SpacedFenceFromParts(t: string, n: nat)
    requires 3 <= n <= |t| && TrimStart(t) == t && StartsWithIgnoreCase(t, Fence)
    requires TrimStart(t[3..]) == t[n..] && StartsWithIgnoreCase(t[n..], "mermaid")
    ensures SpacedFencePattern(t)
  {
  }

  /** A text that starts with "mermaid" in any case does not start with whitespace. */
  lemma NotWhitespaceBeforeMermaid(s: string)
    requires StartsWithIgnoreCase(s, "mermaid")
    ensures |s| > 0 && !IsWhitespace(s[0])
  {
    assert Lower(s[0]) == Lower('m');
  }

  /** The case-insensitive "```mermaid" pattern is the spaced one with no space. */
  lemma FenceIsSpacedFence(t: string)
    requires FencePattern(t)
    ensures SpacedFencePattern(t)
  {
    var u := TrimStart(t);
    FenceSplit(u);
    var w := u[3..];
    NotWhitespaceBeforeMermaid(w);
    TrimStartNone(w);
  }

  lemma FenceSplit(u: string)
    requires StartsWithIgnoreCase(u, MermaidFence)
    ensures StartsWithIgnoreCase(u, Fence) && StartsWithIgnoreCase(u[3..], "mermaid")
  {
    assert MermaidFence == Fence + "mermaid";
    StartsWithIgnoreCaseSplit(u, Fence, "mermaid");
  }

  /** What `isMermaidCode` accepts, stated on the trimmed text alone: at
      least five UTF-16 units, and either the exact fence "```mermaid"
      somewhere, or one of the nineteen keywords at the front in any case
      (no word boundary), or "```", optional whitespace and "mermaid" in any
      case at the front. */
  lemma IsMermaidCodeIff(text: string)
    ensures IsMermaidCode(text)
            <==> var t := Trim(text);
                 && JsLength(t) >= 5
                 && (|| Contains(t, MermaidFence)
                     || (exists k :: 0 <= k < |Keywords| && StartsWithIgnoreCase(t, Keywords[k]))
                     || OpensFence(t))
  {
    var t := Trim(text);
    TrimStartNone(t);
    SpacedFenceOnTrimmed(t);
    if FencePattern(t) {
      FenceIsSpacedFence(t);
    }
    if StartsWith(t, MermaidFence) {
      StartsWithContains(t, MermaidFence);
    }
  }

  /** The exact fence anywhere in the text is enough. */
  lemma FenceAnywhereAccepted(pre: string, post: string)
    requires IsTrimmed(pre + MermaidFence + post)
    ensures IsMermaidCode(pre + MermaidFence + post)
  {
    var t := pre + MermaidFence + post;
    TrimTrimmed(t);
    ContainsInfix(pre, MermaidFence, post);
    assert JsLength(t) >= |t| >= |MermaidFence|;
  }

  /** There is no word boundary after a keyword: any trimmed text of five
      or more units that merely starts with a keyword is accepted, so prose
      such as "pieces of text" counts as a diagram. */
  lemma NoWordBoundary(k: nat, t: string)
    requires k < |Keywords| && StartsWith(t, Keywords[k])
    requires IsTrimmed(t) && JsLength(t) >= 5
    ensures IsMermaidCode(t)
  {
    TrimTrimmed(t);
    StartsWithIgnoresCase(t, Keywords[k]);
    assert KeywordPattern(t);
  }

  /** A keyword on its own can still be too short: "pie" is rejected. */
  lemma ShortKeywordRejected()
    ensures !IsMermaidCode("pie")
  {
    TrimTrimmed("pie");
  }

  // ---------------------------------------------------------------------------
  // Normaliser
  // ---------------------------------------------------------------------------

  /** `replace(/^```\s*mermaid\s*\n?/i, '')`: both `\s*` are greedy and the
      second one already swallows any newline, so `\n?` matches nothing.
      What goes is a prefix, nothing goes unless the text starts with the
      fence, and what stays does not start with whitespace. */
  function StripOpener(s: string): (r: string)
    ensures |r| <= |s| && r == s[|s| - |r|..]
    ensures !StartsWith(s, Fence) ==> r == s
    ensures r != s ==> |r| == 0 || !IsWhitespace(r[0])
  {
    if StartsWith(s, Fence) then
      var u := TrimStart(s[3..]);
      if StartsWithIgnoreCase(u, "mermaid") then
        var w := u[7..];
        assert u == s[|s| - |u|..];
        assert w == s[|s| - |w|..];
        TrimStart(w)
      else s
    else s
  }

  /** The opener is cut off exactly when the text starts with the fence,
      optional whitespace and "mermaid" in any case. */
  lemma StripOpenerIff(s: string)
    ensures StripOpener(s) != s <==> OpensFence(s)
  {
    if StripOpener(s) != s {
      OpenerFound(s);
    }
    if OpensFence(s) {
      var n :| 3 <= n <= |s| && StartsWith(s, Fence) && AllWhitespace(s[3..n])
               && StartsWithIgnoreCase(s[n..], "mermaid");
      OpenerAt(s, n);
    }
  }

  lemma OpenerFound(s: string)
    requires StartsWith(s, Fence) && StartsWithIgnoreCase(TrimStart(s[3..]), "mermaid")
    ensures OpensFence(s)
  {
    var v := s[3..];
    var u := TrimStart(v);
    var n := |s| - |u|;
    assert v[..|v| - |u|] == s[3..n];
    assert s[n..] == u;
    assert AllWhitespace(s[3..n]) && StartsWithIgnoreCase(s[n..], "mermaid");
  }

  /** With the fence, whitespace ending at `n` and "mermaid" (any case) at
      `n`, the opener and all whitespace after it go. */
  lemma OpenerAt(s: string, n: nat)
    requires 3 <= n <= |s| && StartsWith(s, Fence) && AllWhitespace(s[3..n])
    requires StartsWithIgnoreCase(s[n..], "mermaid")
    ensures n + 7 <= |s| && StripOpener(s) == TrimStart(s[n + 7..])
  {
    var v := s[3..];
    assert s[n..][0] == s[n];
    assert Lower(s[n]) == 'm';
    LeadingSpaceAt(v, n - 3);
    assert TrimStart(v) == s[n..];
    assert s[n..][7..] == s[n + 7..];
  }

  /** `"```" + w + m + rest` with whitespace `w` and `m` spelling "mermaid"
      in any case loses everything up to the whitespace-trimmed `rest`. */
  lemma StripOpenerSplit(w: string, m: string, rest: string)
    requires AllWhitespace(w) && |m| == 7 && ToLower(m) == "mermaid"
    ensures StripOpener(Fence + w + m + rest) == TrimStart(rest)
  {
    var s := Fence + w + m + rest;
    var n := 3 + |w|;
    assert s[3..n] == w;
    assert s[n..] == m + rest && (m + rest)[..7] == m && s[n + 7..] == rest;
    StartsWithIgnoreCaseIff(m + rest, "mermaid");
    assert ToLower("mermaid") == "mermaid";
    assert s[..3] == Fence;
    OpenerAt(s, n);
  }

  /** `\n?```\s*$` matches at position `p` of `s`. */
  predicate CloserAt(s: string, p: nat) {
    || (p < |s| && s[p] == '\n' && FenceTail(s[p + 1..]))
    || (p <= |s| && FenceTail(s[p..]))
  }

  predicate FenceTail(u: string) {
    StartsWith(u, Fence) && AllWhitespace(u[3..])
  }

  /** The leftmost position at or after `from` where the closing fence matches. */
  function FindCloser(s: string, from: nat): (r: Option<nat>)
    ensures r.Some? ==> from <= r.value <= |s| && CloserAt(s, r.value)
                        && forall p :: from <= p < r.value ==> !CloserAt(s, p)
    ensures r.None? ==> forall p :: from <= p <= |s| ==> !CloserAt(s, p)
    decreases |s| + 1 - from
  {
    if from > |s| then None
    else if CloserAt(s, from) then Some(from)
    else FindCloser(s, from + 1)
  }

  /** `replace(/\n?```\s*$/i, '')`: the first match is cut off together with
      everything after it (the match always runs to the end). */
  function StripCloser(s: string): (r: string)
    ensures |r| <= |s| && r == s[..|r|]
    ensures r == s <==> forall p :: 0 <= p <= |s| ==> !CloserAt(s, p)
    ensures r != s ==> CloserAt(s, |r|) && forall p :: 0 <= p < |r| ==> !CloserAt(s, p)
  {
    match FindCloser(s, 0)
    case Some(p) => s[..p]
    case None => s
  }

  /** `extractMermaidCode(text)` for a string argument. */
  function ExtractMermaidCode(text: string): (r: string)
    ensures IsTrimmed(r)
    ensures |r| <= |text|
    ensures |text| == 0 ==> r == ""
  {
    if |text| == 0 then ""
    else
      var cleaned := Trim(text);
      var unopened := StripOpener(cleaned);
      var closed := StripCloser(unopened);
      Trim(DecodeEntities(closed))
  }

  /** A trimmed text without backtick is only trimmed and entity-decoded. */
  lemma ExtractUnfenced(t: string)
    requires |t| > 0 && IsTrimmed(t) && '`' !in t
    ensures ExtractMermaidCode(t) == Trim(DecodeEntities(t))
  {
    TrimTrimmed(t);
    NoBacktickNoOpener(t);
    NoBacktickNoCloser(t);
  }

  /** A text without fence opener, backtick or `&` passes through unchanged
      once trimmed. */
  lemma ExtractPlain(t: string)
    requires IsTrimmed(t) && '`' !in t && '&' !in t
    ensures ExtractMermaidCode(t) == t
  {
    if |t| > 0 {
      ExtractUnfenced(t);
      TrimTrimmed(t);
    }
  }

  lemma NoBacktickNoOpener(s: string)
    requires '`' !in s
    ensures StripOpener(s) == s
  {
    if |s| >= 3 {
      assert s[0] in s;
      assert s[..3][0] == s[0];
    }
    assert !StartsWith(s, Fence);
  }

  lemma NoBacktickNoCloser(s: string)
    requires '`' !in s
    ensures StripCloser(s) == s
  {
    forall p | 0 <= p <= |s|
      ensures !CloserAt(s, p)
    {
      NoFenceAt(s, p);
      if p < |s| {
        NoFenceAt(s, p + 1);
      }
    }
  }

  /** Without a backtick no suffix starts with the fence. */
  lemma NoFenceAt(s: string, q: nat)
    requires '`' !in s && q <= |s|
    ensures !FenceTail(s[q..])
  {
    if q < |s| {
      assert s[q..][0] == s[q];
    }
  }

  /** A fenced block "```mermaid\n" + body + "\n```" normalises to its body
      when the body is trimmed and holds no backtick or `&`. */
  lemma ExtractFenced(body: string)
    requires |body| > 0 && IsTrimmed(body) && '`' !in body && '&' !in body
    ensures ExtractMermaidCode("```mermaid\n" + body + "\n```") == body
  {
    var s := "```mermaid\n" + body + "\n```";
    assert IsTrimmed(s);
    TrimTrimmed(s);
    assert s == "```mermaid\n" + (body + "\n```");
    OpenerOfFenced(body + "\n```");
    CloserOfFenced(body);
    TrimTrimmed(body);
  }

  /** The opener "```mermaid" and the newline after it are cut off in
      front of a text that does not start with whitespace. */
  lemma OpenerOfFenced(rest: string)
    requires |rest| > 0 && !IsWhitespace(rest[0])
    ensures StripOpener("```mermaid\n" + rest) == rest
  {
    var s := "```mermaid\n" + rest;
    assert s[..3] == Fence;
    var u := s[3..];
    assert u == "mermaid\n" + rest;
    assert u[0] == 'm';
    TrimStartNone(u);
    assert u[..7] == "mermaid";
    StartsWithIgnoresCase(u, "mermaid");
    var w := u[7..];
    assert w == "\n" + rest;
    assert w[..1] == "\n";
    TrimStartAt(w, 1);
    assert w[1..] == rest;
  }

  /** The closing "\n```" is cut off when the body holds no backtick. */
  lemma CloserOfFenced(body: string)
    requires '`' !in body
    ensures StripCloser(body + "\n```") == body
  {
    var unopened := body + "\n```";
    var n := |body|;
    assert CloserAt(unopened, n) by {
      assert unopened[n + 1..] == Fence;
    }
    forall p | 0 <= p < n
      ensures !CloserAt(unopened, p)
    {
      NoFenceBefore(body, p);
    }
    assert unopened[..n] == body;
  }

  /** No fence starts at or right after a position inside a backtick-free
      body. */
  lemma NoFenceBefore(body: string, p: nat)
    requires '`' !in body && p < |body|
    ensures !StartsWith((body + "\n```")[p..], Fence)
    ensures !StartsWith((body + "\n```")[p + 1..], Fence)
  {
    var u := body + "\n```";
    assert u[p] == body[p] && body[p] in body;
    assert u[p..][0] == u[p];
    assert u[p + 1..][0] == u[p + 1];
    if p + 1 < |body| {
      assert u[p + 1] == body[p + 1] && body[p + 1] in body;
    } else {
      assert u[p + 1] == '\n';
    }
  }

  /** Extraction decodes one level of escaping per application, so it is
      not idempotent: for a text `t` that escaping changes (one holding `&`,
      `<` or `>`), the doubly escaped text extracts to the singly escaped
      one, which extracts further to `t`. */
  lemma ExtractNotIdempotent(t: string)
    requires |t| > 0 && IsTrimmed(t) && '`' !in t && EscapeText(t) != t
    requires !Contains(t, "&quot;") && !Contains(t, "&#39;")
    requires !Contains(EscapeText(t), "&quot;") && !Contains(EscapeText(t), "&#39;")
    ensures var x := EscapeText(EscapeText(t));
            && ExtractMermaidCode(x) == EscapeText(t)
            && ExtractMermaidCode(ExtractMermaidCode(x)) == t
            && ExtractMermaidCode(ExtractMermaidCode(x)) != ExtractMermaidCode(x)
  {
    EscapeTextShape(t);
    ExtractEntityLine(EscapeText(t));
    ExtractEntityLine(t);
  }

  /** Extraction inverts text-node escaping of a trimmed one-line text with
      no backtick in which `&quot;` and `&#39;` do not occur literally. */
  lemma ExtractEntityLine(t: string)
    requires |t| > 0 && IsTrimmed(t) && '`' !in t
    requires !Contains(t, "&quot;") && !Contains(t, "&#39;")
    ensures ExtractMermaidCode(EscapeText(t)) == t
  {
    var s := EscapeText(t);
    EscapeTextShape(t);
    ExtractUnfenced(s);
    DecodeInvertsEscape(t);
    TrimTrimmed(t);
  }

  // ---------------------------------------------------------------------------
  // Platform classification
  // ---------------------------------------------------------------------------

  datatype Platform = GitHub | Confluence | Jira | Generic

  /** `detectPlatform()`: `hostname` is `window.location.hostname`, the two
      flags the answers of the DOM probes `[data-confluence-space]` /
      `.confluence-space` and `[data-jira-issue]` / `.jira-issue`. */
  /** As a decision table: "github." wins, any "atlassian." host is
      Confluence (so the Atlassian test of the Jira branch is never
      reached), and the probes only matter when the host names nothing. */
  function DetectPlatform(hostname: string, confluenceProbe: bool, jiraProbe: bool): (p: Platform)
    ensures p == GitHub <==> Contains(ToLower(hostname), "github.")
    ensures p == Confluence <==>
              (&& !Contains(ToLower(hostname), "github.")
               && (Contains(ToLower(hostname), "atlassian.") || Contains(ToLower(hostname), "confluence")
                   || confluenceProbe))
    ensures p == Jira <==>
              (&& !Contains(ToLower(hostname), "github.") && !Contains(ToLower(hostname), "atlassian.")
               && !Contains(ToLower(hostname), "confluence") && !confluenceProbe
               && (Contains(ToLower(hostname), "jira") || jiraProbe))
  {
    var h := ToLower(hostname);
    GitHubComIsGitHubDot(h);
    if Contains(h, "github.com") || Contains(h, "github.") then GitHub
    else if Contains(h, "atlassian.") || Contains(h, "confluence") || confluenceProbe then Confluence
    else if Contains(h, "atlassian.") || Contains(h, "jira") || jiraProbe then Jira
    else Generic
  }

  /** A host holding "github.com" holds "github." too. */
  lemma GitHubComIsGitHubDot(h: string)
    ensures Contains(h, "github.com") ==> Contains(h, "github.")
  {
    if Contains(h, "github.com") {
      ContainsPrefixOfPart(h, "github.com", 7);
      assert "github.com"[..7] == "github.";
    }
  }

  lemma {:induction false} ContainsPrefixOfPart(s: string, part: string, n: nat)
    requires n <= |part| && Contains(s, part)
    ensures Contains(s, part[..n])
  {
    ContainsIff(s, part);
    ContainsIff(s, part[..n]);
    var i :| 0 <= i <= |s| && StartsWith(s[i..], part);
    assert s[i..][..n] == part[..n];
  }

  /** The hostname is compared case-insensitively. */
  lemma DetectPlatformIgnoresCase(hostname: string, confluenceProbe: bool, jiraProbe: bool)
    ensures DetectPlatform(ToLower(hostname), confluenceProbe, jiraProbe)
            == DetectPlatform(hostname, confluenceProbe, jiraProbe)
  {
    ToLowerIdempotent(hostname);
  }

  // ---------------------------------------------------------------------------
  // Element scan
  // ---------------------------------------------------------------------------

  const GitHubSelectors: seq<string> := [
    "pre code.language-mermaid", "code[data-lang=\"mermaid\"]",
    ".highlight-source-mermaid pre", ".blob-code-inner"
  ]
  const ConfluenceSelectors: seq<string> := [
    ".code-block[data-language=\"mermaid\"]", ".code-macro .code-block",
    "pre code", ".wiki-content pre"
  ]
  const JiraSelectors: seq<string> := [
    ".code-block", "pre code", ".wiki-textbox pre", ".comment-content pre"
  ]
  const GenericSelectors: seq<string> := [
    "pre code", "code", "pre", ".mermaid", "[class*=\"mermaid\"]",
    "[data-lang=\"mermaid\"]", "[data-language=\"mermaid\"]"
  ]

  /** The `selector` recorded for entries of the second pass. */
  const MarkerTag := "mermaid-class"

  function PlatformSelectors(p: Platform): seq<string> {
    match p
    case GitHub => GitHubSelectors
    case Confluence => ConfluenceSelectors
    case Jira => JiraSelectors
    case Generic => GenericSelectors
  }

  /** The selector list of the first pass: the platform's, then the generic one. */
  function ScanSelectorList(p: Platform): seq<string> {
    PlatformSelectors(p) + GenericSelectors
  }

  lemma MarkerTagIsNoSelector(p: Platform)
    ensures MarkerTag !in ScanSelectorList(p)
  {
  }

  type ElemId = nat

  /** What the scan reads of one element. `insideModal` says that a proper
      ancestor carries the class `mermaid-visualizer-modal`. */
  datatype Element = Element(
    classes: set<string>,
    insideModal: bool,
    textContent: string,
    innerText: string,
    dataMermaid: Option<string>)

  /** The document as the scan sees it: `query(selector)` is
      `querySelectorAll(selector)` in document order, `None` when it throws;
      `markerCandidates` is the answer to the fixed second-pass selector
      `[class*="mermaid"], [data-mermaid], .mermaid`; `node` looks elements up. */
  datatype Document = Document(
    hostname: string,
    confluenceProbe: bool,
    jiraProbe: bool,
    query: string -> Option<seq<ElemId>>,
    markerCandidates: seq<ElemId>,
    node: ElemId -> Element)

  /** One `{element, code, platform, selector}` entry of the result. */
  datatype Detected = Detected(elem: ElemId, code: string, platform: Platform, selector: string)

  datatype ScanState = ScanState(found: seq<Detected>, visited: set<ElemId>)

  /** The extension's own button or modal, or anything inside the modal. */
  predicate IsOwnUi(e: Element) {
    || "mermaid-ext-button" in e.classes
    || "mermaid-visualizer-modal" in e.classes
    || e.insideModal
  }

  /** `element.textContent || element.innerText || ''` */
  function FirstPassText(e: Element): string {
    if e.textContent != "" then e.textContent else e.innerText
  }

  /** `... || element.getAttribute('data-mermaid') || ''` */
  function SecondPassText(e: Element): string {
    if e.textContent != "" then e.textContent
    else if e.innerText != "" then e.innerText
    else e.dataMermaid.GetOr("")
  }

  /** The code the first pass records for an element, if any: the text must
      be accepted and normalise to something non-empty. */
  function FirstPassCode(e: Element): Option<string> {
    var text := FirstPassText(e);
    if IsMermaidCode(text) && ExtractMermaidCode(text) != "" then Some(ExtractMermaidCode(text))
    else None
  }

  /** The code the second pass records for an element that is not the
      extension's own UI: the normalised code, or the raw text when that
      normalises to nothing. */
  function SecondPassCode(e: Element): Option<string> {
    var text := SecondPassText(e);
    if text != "" && IsMermaidCode(text) then
      Some(if ExtractMermaidCode(text) != "" then ExtractMermaidCode(text) else text)
    else None
  }

  predicate AcceptsFirst(e: Element) {
    FirstPassCode(e).Some?
  }

  /** The passes below are written over the classifier they apply
      (`FirstPassCode` or `SecondPassCode`); `FindMermaidElements` supplies
      the actual ones. */
  type Classifier = Element -> Option<string>

  function FoundIds(found: seq<Detected>): set<ElemId> {
    set i | 0 <= i < |found| :: found[i].elem
  }

  predicate Distinct(found: seq<Detected>) {
    forall i, j :: 0 <= i < j < |found| ==> found[i].elem != found[j].elem
  }

  /** Recording an entry adds its element to the recorded ones, and keeps
      the entries distinct when the element was not recorded yet. */
  lemma FoundIdsAppend(found: seq<Detected>, d: Detected)
    ensures FoundIds(found + [d]) == FoundIds(found) + {d.elem}
    ensures Distinct(found) && d.elem !in FoundIds(found) ==> Distinct(found + [d])
  {
    var r := found + [d];
    assert r[|found|] == d;
    forall x | x in FoundIds(found)
      ensures x in FoundIds(r)
    {
      var i :| 0 <= i < |found| && found[i].elem == x;
      assert r[i] == found[i];
    }
    if Distinct(found) && d.elem !in FoundIds(found) {
      forall i, j | 0 <= i < j < |r|
        ensures r[i].elem != r[j].elem
      {
        if j == |found| {
          assert r[i] == found[i];
        }
      }
    }
  }

  /** Distinct entries record as many elements as there are entries. */
  lemma {:induction false} DistinctCount(found: seq<Detected>)
    requires Distinct(found)
    ensures |FoundIds(found)| == |found|
    decreases |found|
  {
    if |found| > 0 {
      var init := found[..|found| - 1];
      var d := found[|found| - 1];
      assert found == init + [d];
      assert Distinct(init);
      DistinctCount(init);
      FoundIdsAppend(init, d);
      assert d.elem !in FoundIds(init);
    }
  }

  /** Extending the entries keeps the recorded elements. */
  lemma FoundIdsPrefix(a: seq<Detected>, b: seq<Detected>)
    requires |a| <= |b| && b[..|a|] == a
    ensures FoundIds(a) <= FoundIds(b)
  {
    forall x | x in FoundIds(a)
      ensures x in FoundIds(b)
    {
      var i :| 0 <= i < |a| && a[i].elem == x;
      assert b[i] == a[i];
    }
  }

  /** The position of the first occurrence of `x` in `xs`. */
  function Pos<T(==)>(xs: seq<T>, x: T): (n: nat)
    requires x in xs
    ensures n < |xs| && xs[n] == x
    ensures forall k :: 0 <= k < n ==> xs[k] != x
    decreases |xs|
  {
    if xs[0] == x then 0 else 1 + Pos(xs[1..], x)
  }

  /** From position `from` on, the entries follow the order of `ids`. */
  predicate InIdsOrder(ids: seq<ElemId>, found: seq<Detected>, from: nat) {
    forall i, j :: from <= i < j < |found| && found[i].elem in ids && found[j].elem in ids ==>
      Pos(ids, found[i].elem) < Pos(ids, found[j].elem)
  }

  /** The scan state is consistent: entries are distinct and every entry's
      element is visited. */
  predicate Consistent(st: ScanState) {
    Distinct(st.found) && FoundIds(st.found) <= st.visited
  }

  /** Consistent, and among visited elements exactly those the classifier
      accepts were recorded: the invariant of the first pass. */
  predicate FirstPassExact(doc: Document, classify: Classifier, st: ScanState) {
    && Consistent(st)
    && forall id :: id in st.visited ==> (classify(doc.node(id)).Some? <==> id in FoundIds(st.found))
  }

  /** An entry recorded for selector `sel` with the classifier's code. */
  predicate SelectorEntry(doc: Document, classify: Classifier, p: Platform, sel: string, d: Detected) {
    && d.selector == sel
    && d.platform == p
    && classify(doc.node(d.elem)) == Some(d.code)
  }

  /** One element of the first pass: skipped when already visited,
      otherwise marked and recorded when the classifier accepts it. */
  function Visit(doc: Document, classify: Classifier, p: Platform, sel: string, id: ElemId, st: ScanState): (r: ScanState)
    ensures r.visited == st.visited + {id}
    ensures |st.found| <= |r.found| <= |st.found| + 1 && r.found[..|st.found|] == st.found
    ensures forall i :: |st.found| <= i < |r.found| ==>
              r.found[i].elem == id && id !in st.visited && SelectorEntry(doc, classify, p, sel, r.found[i])
    ensures FirstPassExact(doc, classify, st) ==> FirstPassExact(doc, classify, r)
  {
    if id in st.visited then st
    else
      var visited := st.visited + {id};
      match classify(doc.node(id))
      case Some(code) =>
        var d := Detected(id, code, p, sel);
        FoundIdsAppend(st.found, d);
        ScanState(st.found + [d], visited)
      case None => ScanState(st.found, visited)
  }

  /** `elements.forEach(...)` for one selector's result. */
  function ScanIds(doc: Document, classify: Classifier, p: Platform, sel: string, ids: seq<ElemId>, st: ScanState): (r: ScanState)
    ensures r.visited == st.visited + set i | 0 <= i < |ids| :: ids[i]
    ensures |st.found| <= |r.found| && r.found[..|st.found|] == st.found
    ensures forall i :: |st.found| <= i < |r.found| ==>
              r.found[i].elem in ids && r.found[i].elem !in st.visited
              && SelectorEntry(doc, classify, p, sel, r.found[i])
    ensures FirstPassExact(doc, classify, st) ==> FirstPassExact(doc, classify, r)
    decreases |ids|
  {
    if |ids| == 0 then st
    else
      var st' := Visit(doc, classify, p, sel, ids[0], st);
      var r := ScanIds(doc, classify, p, sel, ids[1..], st');
      assert (set i | 0 <= i < |ids| :: ids[i])
             == {ids[0]} + set i | 0 <= i < |ids[1..]| :: ids[1..][i];
      assert r.found[..|st'.found|] == st'.found;
      assert r.found[..|st.found|] == st'.found[..|st.found|];
      assert forall i :: |st.found| <= i < |st'.found| ==> r.found[i] == st'.found[i];
      assert forall x :: x in ids[1..] ==> x in ids;
      r
  }

  /** Within one selector the entries follow the order of its elements. */
  lemma {:induction false} ScanIdsOrdered(doc: Document, classify: Classifier, p: Platform, sel: string,
                                          ids: seq<ElemId>, st: ScanState)
    ensures InIdsOrder(ids, ScanIds(doc, classify, p, sel, ids, st).found, |st.found|)
    decreases |ids|
  {
    if |ids| > 0 {
      var st' := Visit(doc, classify, p, sel, ids[0], st);
      var r := ScanIds(doc, classify, p, sel, ids[1..], st');
      assert r == ScanIds(doc, classify, p, sel, ids, st);
      ScanIdsOrdered(doc, classify, p, sel, ids[1..], st');
      forall i, j | |st.found| <= i < j < |r.found| && r.found[i].elem in ids && r.found[j].elem in ids
        ensures Pos(ids, r.found[i].elem) < Pos(ids, r.found[j].elem)
      {
        var a, b := r.found[i].elem, r.found[j].elem;
        assert b != ids[0] && b in ids[1..];
        assert Pos(ids, b) == 1 + Pos(ids[1..], b);
        if i >= |st'.found| {
          assert a != ids[0] && a in ids[1..];
          assert Pos(ids, a) == 1 + Pos(ids[1..], a);
        } else {
          assert a == ids[0];
        }
      }
    }
  }

  /** One `try { document.querySelectorAll(selector).forEach(...) } catch {}`:
      a throwing selector leaves the state as it was. */
  function ScanSelector(doc: Document, classify: Classifier, p: Platform, sel: string, st: ScanState): ScanState {
    match doc.query(sel)
    case None => st
    case Some(ids) => ScanIds(doc, classify, p, sel, ids, st)
  }

  /** Every element returned by a selector of `sels` that did not throw. */
  function Queried(doc: Document, sels: seq<string>): set<ElemId>
    decreases |sels|
  {
    if |sels| == 0 then {}
    else
      (match doc.query(sels[0])
       case None => {}
       case Some(ids) => set i | 0 <= i < |ids| :: ids[i])
      + Queried(doc, sels[1..])
  }

  /** An entry the first pass can produce from selector list `sels`. */
  predicate ListEntry(doc: Document, classify: Classifier, p: Platform, sels: seq<string>, d: Detected) {
    && d.selector in sels
    && doc.query(d.selector).Some?
    && d.elem in doc.query(d.selector).value
    && SelectorEntry(doc, classify, p, d.selector, d)
  }

  /** Selector `sel` did not throw and returned element `id`. */
  predicate Returned(doc: Document, sel: string, id: ElemId) {
    doc.query(sel).Some? && id in doc.query(sel).value
  }

  /** No selector of `sels` before the entry's own returned its element:
      the entry is recorded under the first selector that found it. */
  predicate FirstReturner(doc: Document, sels: seq<string>, d: Detected) {
    d.selector in sels && forall k :: 0 <= k < Pos(sels, d.selector) ==> !Returned(doc, sels[k], d.elem)
  }

  /** From position `from` on, the entries follow the selector list, and
      one selector's entries follow the order in which it returned them. */
  predicate InSelectorOrder(doc: Document, sels: seq<string>, found: seq<Detected>, from: nat) {
    forall i, j :: from <= i < j < |found| && found[i].selector in sels && found[j].selector in sels ==>
      SelectorPairOrdered(doc, sels, found[i], found[j])
  }

  /** `selectors.forEach(...)`: the first pass, selector by selector. */
  function ScanSelectors(doc: Document, classify: Classifier, p: Platform, sels: seq<string>, st: ScanState): (r: ScanState)
    ensures r.visited == st.visited + Queried(doc, sels)
    ensures |st.found| <= |r.found| && r.found[..|st.found|] == st.found
    ensures forall i :: |st.found| <= i < |r.found| ==>
              ListEntry(doc, classify, p, sels, r.found[i]) && r.found[i].elem !in st.visited
    ensures FirstPassExact(doc, classify, st) ==> FirstPassExact(doc, classify, r)
    decreases |sels|
  {
    if |sels| == 0 then st
    else
      var st' := ScanSelector(doc, classify, p, sels[0], st);
      var r := ScanSelectors(doc, classify, p, sels[1..], st');
      assert r.found[..|st'.found|] == st'.found;
      assert r.found[..|st.found|] == st'.found[..|st.found|];
      assert forall i :: |st.found| <= i < |st'.found| ==> r.found[i] == st'.found[i];
      r
  }

  /** The first pass records each element under the first selector of the
      list that returned it. */
  lemma {:induction false} ScanSelectorsFirst(doc: Document, classify: Classifier, p: Platform,
                                              sels: seq<string>, st: ScanState, r: ScanState)
    requires r == ScanSelectors(doc, classify, p, sels, st)
    ensures forall i :: |st.found| <= i < |r.found| ==> FirstReturner(doc, sels, r.found[i])
    decreases |sels|
  {
    if |sels| > 0 {
      var st' := ScanSelector(doc, classify, p, sels[0], st);
      assert r == ScanSelectors(doc, classify, p, sels[1..], st');
      ScanSelectorsFirst(doc, classify, p, sels[1..], st', r);
      forall i | |st.found| <= i < |r.found|
        ensures FirstReturner(doc, sels, r.found[i])
      {
        if i < |st'.found| {
          assert r.found[i] == r.found[..|st'.found|][i] == st'.found[i];
        } else {
          var d := r.found[i];
          LaterSelector(doc, sels, st'.visited, d);
          forall k | 0 <= k < Pos(sels, d.selector)
            ensures !Returned(doc, sels[k], d.elem)
          {
            if k > 0 {
              assert sels[k] == sels[1..][k - 1];
            }
          }
        }
      }
    }
  }

  /** The first pass goes selector after selector, and each selector's
      elements in the order it returned them. */
  lemma {:induction false} ScanSelectorsOrdered(doc: Document, classify: Classifier, p: Platform,
                                                sels: seq<string>, st: ScanState, r: ScanState)
    requires r == ScanSelectors(doc, classify, p, sels, st)
    ensures InSelectorOrder(doc, sels, r.found, |st.found|)
    decreases |sels|
  {
    if |sels| > 0 {
      var st' := ScanSelector(doc, classify, p, sels[0], st);
      assert r == ScanSelectors(doc, classify, p, sels[1..], st');
      ScanSelectorsOrdered(doc, classify, p, sels[1..], st', r);
      if doc.query(sels[0]).Some? {
        ScanIdsOrdered(doc, classify, p, sels[0], doc.query(sels[0]).value, st);
      }
      forall i, j | |st.found| <= i < j < |r.found| && r.found[i].selector in sels && r.found[j].selector in sels
        ensures SelectorPairOrdered(doc, sels, r.found[i], r.found[j])
      {
        if j < |st'.found| {
          assert r.found[i] == r.found[..|st'.found|][i] == st'.found[i];
          assert r.found[j] == r.found[..|st'.found|][j] == st'.found[j];
        } else {
          LaterSelector(doc, sels, st'.visited, r.found[j]);
          if i < |st'.found| {
            assert r.found[i] == r.found[..|st'.found|][i] == st'.found[i];
          } else {
            LaterSelector(doc, sels, st'.visited, r.found[i]);
          }
        }
      }
    }
  }

  /** Two entries in list order: the second's selector comes later, or both
      share a selector that returned the first element earlier. */
  predicate SelectorPairOrdered(doc: Document, sels: seq<string>, a: Detected, b: Detected)
    requires a.selector in sels && b.selector in sels
  {
    || Pos(sels, a.selector) < Pos(sels, b.selector)
    || (&& a.selector == b.selector
        && Returned(doc, a.selector, a.elem)
        && Returned(doc, a.selector, b.elem)
        && Pos(doc.query(a.selector).value, a.elem) < Pos(doc.query(a.selector).value, b.elem))
  }

  /** An entry of the rest of the list whose element the first selector's
      scan had visited cannot exist: its selector is a later one. */
  lemma LaterSelector(doc: Document, sels: seq<string>, visited: set<ElemId>, d: Detected)
    requires |sels| > 0 && d.selector in sels[1..] && Returned(doc, d.selector, d.elem) && d.elem !in visited
    requires doc.query(sels[0]).Some? ==> forall x :: x in doc.query(sels[0]).value ==> x in visited
    ensures d.selector != sels[0] && !Returned(doc, sels[0], d.elem)
    ensures Pos(sels, d.selector) == 1 + Pos(sels[1..], d.selector)
  {
  }

  /** An entry the second pass records: not the extension's own UI, and the
      classifier's code. */
  predicate MarkerEntry(doc: Document, classify: Classifier, p: Platform, d: Detected) {
    && d.selector == MarkerTag
    && d.platform == p
    && !IsOwnUi(doc.node(d.elem))
    && classify(doc.node(d.elem)) == Some(d.code)
  }

  /** One element of the second pass; the extension's own UI is skipped
      without being marked as visited. */
  function MarkerVisit(doc: Document, classify: Classifier, p: Platform, id: ElemId, st: ScanState): (r: ScanState)
    ensures st.visited <= r.visited
    ensures |st.found| <= |r.found| <= |st.found| + 1 && r.found[..|st.found|] == st.found
    ensures forall i :: |st.found| <= i < |r.found| ==>
              r.found[i].elem == id && id !in st.visited && MarkerEntry(doc, classify, p, r.found[i])
    ensures r.visited <= st.visited + {id} && (|r.found| > |st.found| ==> id in r.visited)
    ensures id !in st.visited && !IsOwnUi(doc.node(id)) && classify(doc.node(id)).Some? ==>
              |r.found| == |st.found| + 1
    ensures Consistent(st) ==> Consistent(r)
  {
    if id in st.visited then st
    else if IsOwnUi(doc.node(id)) then st
    else
      var visited := st.visited + {id};
      match classify(doc.node(id))
      case Some(code) =>
        var d := Detected(id, code, p, MarkerTag);
        FoundIdsAppend(st.found, d);
        ScanState(st.found + [d], visited)
      case None => ScanState(st.found, visited)
  }

  /** `mermaidClassElements.forEach(...)`: the second pass. */
  function MarkerScan(doc: Document, classify: Classifier, p: Platform, ids: seq<ElemId>, st: ScanState): (r: ScanState)
    ensures st.visited <= r.visited
    ensures |st.found| <= |r.found| && r.found[..|st.found|] == st.found
    ensures forall i :: |st.found| <= i < |r.found| ==>
              r.found[i].elem in ids && r.found[i].elem !in st.visited
              && MarkerEntry(doc, classify, p, r.found[i])
    ensures forall id :: id in ids && id !in st.visited && !IsOwnUi(doc.node(id)) && classify(doc.node(id)).Some?
                         ==> id in FoundIds(r.found)
    ensures Consistent(st) ==> Consistent(r)
    decreases |ids|
  {
    if |ids| == 0 then st
    else
      var st' := MarkerVisit(doc, classify, p, ids[0], st);
      var r := MarkerScan(doc, classify, p, ids[1..], st');
      assert r.found[..|st'.found|] == st'.found;
      assert r.found[..|st.found|] == st'.found[..|st.found|];
      assert forall i :: |st.found| <= i < |st'.found| ==> r.found[i] == st'.found[i];
      assert forall x :: x in ids[1..] ==> x in ids;
      FoundIdsPrefix(st'.found, r.found);
      assert forall x :: x in ids && x != ids[0] ==> x in ids[1..];
      assert |st'.found| == |st.found| + 1 ==> st'.found[|st.found|].elem == ids[0] && ids[0] in FoundIds(st'.found);
      r
  }

  /** The second pass records elements in the order of the candidates. */
  lemma {:induction false} MarkerScanOrdered(doc: Document, classify: Classifier, p: Platform,
                                             ids: seq<ElemId>, st: ScanState)
    ensures InIdsOrder(ids, MarkerScan(doc, classify, p, ids, st).found, |st.found|)
    decreases |ids|
  {
    if |ids| > 0 {
      var st' := MarkerVisit(doc, classify, p, ids[0], st);
      var r := MarkerScan(doc, classify, p, ids[1..], st');
      assert r == MarkerScan(doc, classify, p, ids, st);
      MarkerScanOrdered(doc, classify, p, ids[1..], st');
      forall i, j | |st.found| <= i < j < |r.found| && r.found[i].elem in ids && r.found[j].elem in ids
        ensures Pos(ids, r.found[i].elem) < Pos(ids, r.found[j].elem)
      {
        var a, b := r.found[i].elem, r.found[j].elem;
        if i >= |st'.found| {
          assert a != ids[0] && a in ids[1..];
          assert Pos(ids, a) == 1 + Pos(ids[1..], a);
          assert b != ids[0] && b in ids[1..];
          assert Pos(ids, b) == 1 + Pos(ids[1..], b);
        } else {
          assert r.found[i] == r.found[..|st'.found|][i] == st'.found[i];
          assert |st'.found| > |st.found| && a == ids[0];
          assert b != ids[0];
        }
      }
    }
  }

  /** The platform the scan runs for. */
  function DocPlatform(doc: Document): Platform {
    DetectPlatform(doc.hostname, doc.confluenceProbe, doc.jiraProbe)
  }

  /** The two passes, with the state of the first pass handed to the second. */
  function ScanPasses(doc: Document): (ScanState, ScanState) {
    var p := DocPlatform(doc);
    var first := ScanSelectors(doc, FirstPassCode, p, ScanSelectorList(p), ScanState([], {}));
    (first, MarkerScan(doc, SecondPassCode, p, doc.markerCandidates, first))
  }

  /** An entry of the first pass. */
  predicate FirstPassEntry(doc: Document, d: Detected) {
    var p := DocPlatform(doc);
    ListEntry(doc, FirstPassCode, p, ScanSelectorList(p), d)
  }

  /** An entry of the second pass. */
  predicate SecondPassEntry(doc: Document, d: Detected) {
    d.elem in doc.markerCandidates && MarkerEntry(doc, SecondPassCode, DocPlatform(doc), d)
  }

  /** The second pass extends the first one's entries with marker entries. */
  lemma ScanPassesSplit(doc: Document)
    ensures var (first, second) := ScanPasses(doc);
            && FirstPassExact(doc, FirstPassCode, first)
            && Distinct(second.found)
            && |first.found| <= |second.found|
            && (forall i :: 0 <= i < |first.found| ==> second.found[i] == first.found[i])
            && (forall i :: 0 <= i < |first.found| ==> FirstPassEntry(doc, first.found[i]))
            && (forall i :: |first.found| <= i < |second.found| ==>
                  SecondPassEntry(doc, second.found[i]) && second.found[i].elem !in first.visited)
  {
    var (first, second) := ScanPasses(doc);
    assert FirstPassExact(doc, FirstPassCode, ScanState([], {}));
    assert first.found[..0] == [];
    assert forall i :: 0 <= i < |first.found| ==> second.found[..|first.found|][i] == second.found[i];
  }

  /** Second-pass entries follow the order of the marker candidates. */
  predicate MarkerOrder(doc: Document, found: seq<Detected>) {
    forall i, j :: && 0 <= i < j < |found| && found[i].selector == MarkerTag && found[j].selector == MarkerTag
                   && found[i].elem in doc.markerCandidates && found[j].elem in doc.markerCandidates
                   ==> Pos(doc.markerCandidates, found[i].elem) < Pos(doc.markerCandidates, found[j].elem)
  }

  /** The order of the result: first-pass entries under the first selector
      that returned them, in list order, then second-pass entries in
      candidate order. */
  lemma ScanPassesOrdered(doc: Document, first: ScanState, second: ScanState)
    requires (first, second) == ScanPasses(doc)
    ensures forall i :: 0 <= i < |second.found| && second.found[i].selector != MarkerTag ==>
              FirstReturner(doc, ScanSelectorList(DocPlatform(doc)), second.found[i])
    ensures InSelectorOrder(doc, ScanSelectorList(DocPlatform(doc)), second.found, 0)
    ensures MarkerOrder(doc, second.found)
  {
    var p := DocPlatform(doc);
    var sels := ScanSelectorList(p);
    var start := ScanState([], {});
    ScanPassesSplit(doc);
    MarkerTagIsNoSelector(p);
    ScanSelectorsFirst(doc, FirstPassCode, p, sels, start, first);
    ScanSelectorsOrdered(doc, FirstPassCode, p, sels, start, first);
    MarkerScanOrdered(doc, SecondPassCode, p, doc.markerCandidates, first);
    forall i, j | 0 <= i < j < |second.found| && second.found[i].selector in sels && second.found[j].selector in sels
      ensures SelectorPairOrdered(doc, sels, second.found[i], second.found[j])
    {
      assert second.found[j] == first.found[j];
    }
  }

  /** `findMermaidElements()`: no element twice; every entry comes from one
      of the two passes, and once a second-pass entry (selector
      "mermaid-class") appears, no first-pass entry follows. */
  function FindMermaidElements(doc: Document): (r: seq<Detected>)
    ensures Distinct(r)
    ensures forall i :: 0 <= i < |r| ==>
              if r[i].selector == MarkerTag then SecondPassEntry(doc, r[i]) else FirstPassEntry(doc, r[i])
    ensures forall i, j :: 0 <= i < j < |r| && r[i].selector == MarkerTag ==> r[j].selector == MarkerTag
    ensures forall i :: 0 <= i < |r| && r[i].selector != MarkerTag ==>
              FirstReturner(doc, ScanSelectorList(DocPlatform(doc)), r[i])
    ensures InSelectorOrder(doc, ScanSelectorList(DocPlatform(doc)), r, 0)
    ensures MarkerOrder(doc, r)
  {
    var (first, second) := ScanPasses(doc);
    ScanPassesSplit(doc);
    ScanPassesOrdered(doc, first, second);
    MarkerTagIsNoSelector(DocPlatform(doc));
    second.found
  }

  /** Completeness of the first pass: an element that a non-throwing
      selector of the platform's list returned is in the result exactly when
      its text is accepted and normalises to something non-empty. */
  lemma FirstPassComplete(doc: Document, sel: string, id: ElemId)
    requires sel in ScanSelectorList(DocPlatform(doc))
    requires doc.query(sel).Some? && id in doc.query(sel).value
    ensures AcceptsFirst(doc.node(id)) <==> id in FoundIds(FindMermaidElements(doc))
  {
    var p := DocPlatform(doc);
    var (first, second) := ScanPasses(doc);
    ScanPassesSplit(doc);
    QueriedHas(doc, ScanSelectorList(p), sel, id);
    assert id in first.visited;
    if AcceptsFirst(doc.node(id)) {
      var i :| 0 <= i < |first.found| && first.found[i].elem == id;
      assert second.found[i] == first.found[i];
    }
    if id in FoundIds(second.found) {
      var i :| 0 <= i < |second.found| && second.found[i].elem == id;
      if i < |first.found| {
        assert second.found[i] == first.found[i];
      }
    }
  }

  lemma {:induction false} QueriedHas(doc: Document, sels: seq<string>, sel: string, id: ElemId)
    requires sel in sels && doc.query(sel).Some? && id in doc.query(sel).value
    ensures id in Queried(doc, sels)
    decreases |sels|
  {
    if sels[0] != sel {
      QueriedHas(doc, sels[1..], sel, id);
    } else {
      var ids := doc.query(sel).value;
      var i :| 0 <= i < |ids| && ids[i] == id;
    }
  }

  /** Completeness of the second pass: a marker candidate that no selector
      of the platform's list returned is in the result exactly when it is
      not the extension's own UI and its text is accepted. (A candidate the
      first pass visited and rejected is not looked at again.) */
  lemma SecondPassComplete(doc: Document, id: ElemId)
    requires id in doc.markerCandidates
    requires id !in Queried(doc, ScanSelectorList(DocPlatform(doc)))
    ensures id in FoundIds(FindMermaidElements(doc))
            <==> !IsOwnUi(doc.node(id)) && SecondPassCode(doc.node(id)).Some?
  {
    var p := DocPlatform(doc);
    var (first, second) := ScanPasses(doc);
    ScanPassesSplit(doc);
    assert id !in first.visited;
    forall i | 0 <= i < |first.found|
      ensures first.found[i].elem in Queried(doc, ScanSelectorList(p))
    {
      var d := first.found[i];
      assert FirstPassEntry(doc, d);
      QueriedHas(doc, ScanSelectorList(p), d.selector, d.elem);
    }
    if id in FoundIds(second.found) {
      var i :| 0 <= i < |second.found| && second.found[i].elem == id;
      assert i >= |first.found|;
    }
  }

  /** The second pass never reports the extension's own button or modal. */
  lemma SecondPassExcludesOwnUi(doc: Document)
    ensures var r := FindMermaidElements(doc);
            forall i :: 0 <= i < |r| && r[i].selector == MarkerTag ==> !IsOwnUi(doc.node(r[i].elem))
  {
  }

  /** A trimmed line with no backtick or `&` that starts with a keyword is
      recorded by the first pass as it is. */
  lemma KeywordLineAccepted(e: Element, k: nat)
    requires var t := FirstPassText(e);
             && k < |Keywords| && StartsWith(t, Keywords[k])
             && IsTrimmed(t) && JsLength(t) >= 5 && '`' !in t && '&' !in t
    ensures FirstPassCode(e) == Some(FirstPassText(e))
  {
    var t := FirstPassText(e);
    NoWordBoundary(k, t);
    ExtractPlain(t);
  }

  /** The first pass has no own-UI exclusion: an element inside the modal
      (the `<pre><code>` of a render-error panel, for instance) that the
      generic selector "pre code" returns is reported like any other. */
  lemma FirstPassMaySelfDetect(code: string)
    requires StartsWith(code, "graph") && IsTrimmed(code) && '`' !in code && '&' !in code
    ensures var doc := Document("example.org", false, false,
                                s => if s == "pre code" then Some([0]) else Some([]), [],
                                id => Element({}, true, code, "", None));
            && IsOwnUi(doc.node(0))
            && 0 in FoundIds(FindMermaidElements(doc))
  {
    var doc := Document("example.org", false, false,
                        s => if s == "pre code" then Some([0]) else Some([]), [],
                        id => Element({}, true, code, "", None));
    assert Keywords[0] == "graph";
    assert JsLength(code) >= |code| >= 5;
    KeywordLineAccepted(doc.node(0), 0);
    var sels := ScanSelectorList(DocPlatform(doc));
    assert sels[|sels| - |GenericSelectors|] == GenericSelectors[0] == "pre code";
    FirstPassComplete(doc, "pre code", 0);
  }

  /** A selector that throws is skipped: the result is the one the document
      gives when that selector matches nothing. */
  lemma ThrowingSelectorSkipped(doc: Document, bad: string)
    requires doc.query(bad).None?
    ensures FindMermaidElements(doc)
            == FindMermaidElements(doc.(query := s => if s == bad then Some([]) else doc.query(s)))
  {
    var doc' := doc.(query := s => if s == bad then Some([]) else doc.query(s));
    var p := DocPlatform(doc);
    var first := ScanSelectors(doc, FirstPassCode, p, ScanSelectorList(p), ScanState([], {}));
    SameScan(doc, doc', FirstPassCode, p, ScanSelectorList(p), ScanState([], {}));
    SameMarkerScan(doc, doc', SecondPassCode, p, doc.markerCandidates, first);
  }

  lemma {:induction false} SameScan(doc: Document, doc': Document, classify: Classifier, p: Platform,
                                    sels: seq<string>, st: ScanState)
    requires doc'.node == doc.node
    requires forall s :: doc'.query(s) == doc.query(s) || (doc.query(s).None? && doc'.query(s) == Some([]))
    ensures ScanSelectors(doc, classify, p, sels, st) == ScanSelectors(doc', classify, p, sels, st)
    decreases |sels|
  {
    if |sels| > 0 {
      var s := sels[0];
      if doc'.query(s) != doc.query(s) {
        assert ScanSelector(doc', classify, p, s, st) == ScanIds(doc', classify, p, s, [], st) == st;
      } else {
        assert ScanSelector(doc', classify, p, s, st) == ScanSelector(doc, classify, p, s, st) by {
          match doc.query(s)
          case None =>
          case Some(ids) => SameIds(doc, doc', classify, p, s, ids, st);
        }
      }
      SameScan(doc, doc', classify, p, sels[1..], ScanSelector(doc, classify, p, s, st));
    }
  }

  lemma {:induction false} SameIds(doc: Document, doc': Document, classify: Classifier, p: Platform,
                                   sel: string, ids: seq<ElemId>, st: ScanState)
    requires doc'.node == doc.node
    ensures ScanIds(doc, classify, p, sel, ids, st) == ScanIds(doc', classify, p, sel, ids, st)
    decreases |ids|
  {
    if |ids| > 0 {
      SameIds(doc, doc', classify, p, sel, ids[1..], Visit(doc, classify, p, sel, ids[0], st));
    }
  }

  lemma {:induction false} SameMarkerScan(doc: Document, doc': Document, classify: Classifier, p: Platform,
                                          ids: seq<ElemId>, st: ScanState)
    requires doc'.node == doc.node
    ensures MarkerScan(doc, classify, p, ids, st) == MarkerScan(doc', classify, p, ids, st)
    decreases |ids|
  {
    if |ids| > 0 {
      SameMarkerScan(doc, doc', classify, p, ids[1..], MarkerVisit(doc, classify, p, ids[0], st));
    }
  }

  // ---------------------------------------------------------------------------
  // Mutation filter of observeChanges
  // ---------------------------------------------------------------------------

  datatype NodeKind = ElementNode | TextNode | CommentNode | OtherNode
  datatype AddedNode = AddedNode(kind: NodeKind, classes: set<string>)
  datatype MutationKind = ChildList | Attributes | CharacterData
  datatype MutationRecord = MutationRecord(kind: MutationKind, addedNodes: seq<AddedNode>)

  /** An added node that counts as new content. */
  predicate IsNewContent(n: AddedNode) {
    n.kind == ElementNode
    && "mermaid-ext-button" !in n.classes
    && "mermaid-visualizer-modal" !in n.classes
  }

  function AnyNewNode(nodes: seq<AddedNode>, acc: bool): (r: bool)
    ensures r <==> acc || exists j :: 0 <= j < |nodes| && IsNewContent(nodes[j])
    decreases |nodes|
  {
    if |nodes| == 0 then acc
    else
      var r := AnyNewNode(nodes[1..], acc || IsNewContent(nodes[0]));
      assert forall j :: 1 <= j < |nodes| ==> nodes[j] == nodes[1..][j - 1];
      r
  }

  /** `hasNewContent` after `mutations.forEach(...)`: the callback is
      (re)scheduled exactly when some child-list record adds an element
      node that is not the extension's own button or modal. */
  function HasNewContent(mutations: seq<MutationRecord>, acc: bool): (r: bool)
    ensures r <==> acc || exists i, j ::
                            (&& 0 <= i < |mutations| && mutations[i].kind == ChildList
                             && 0 <= j < |mutations[i].addedNodes|
                             && IsNewContent(mutations[i].addedNodes[j]))
    decreases |mutations|
  {
    if |mutations| == 0 then acc
    else
      var m := mutations[0];
      var acc' := if m.kind == ChildList then AnyNewNode(m.addedNodes, acc) else acc;
      var r := HasNewContent(mutations[1..], acc');
      assert forall i :: 1 <= i < |mutations| ==> mutations[i] == mutations[1..][i - 1];
      r
  }
}
