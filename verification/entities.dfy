/** The entity-decoding step of `extractMermaidCode`: five global literal
    replacements applied one after another, in the order
    `&lt;`, `&gt;`, `&amp;`, `&quot;`, `&#39;`. */
module HtmlEntities {
  import opened Text

  /** Every replacement is no longer than its entity, and a string without
      `&` holds no entity, so it passes unchanged. */
  function DecodeEntities(s: string): (r: string)
    ensures |r| <= |s|
    ensures '&' !in s ==> r == s
  {
    var lt := ReplaceAll(s, "&lt;", "<");
    var gt := ReplaceAll(lt, "&gt;", ">");
    var amp := ReplaceAll(gt, "&amp;", "&");
    var quot := ReplaceAll(amp, "&quot;", "\"");
    NoAmpersandNoEntities(s);
    ReplaceAll(quot, "&#39;", "'")
  }

  lemma NoAmpersandNoEntities(s: string)
    ensures '&' !in s ==> (&& !Contains(s, "&lt;") && !Contains(s, "&gt;") && !Contains(s, "&amp;")
                           && !Contains(s, "&quot;") && !Contains(s, "&#39;"))
  {
    if '&' !in s {
      NoAmpersandNoEntity(s, "&lt;");
      NoAmpersandNoEntity(s, "&gt;");
      NoAmpersandNoEntity(s, "&amp;");
      NoAmpersandNoEntity(s, "&quot;");
      NoAmpersandNoEntity(s, "&#39;");
    }
  }

  /** The `&`, `<`, `>` part of how an HTML serializer writes a text node
      (U+00A0 as `&nbsp;` is not covered): these three become entities, with `<` and `>` switchable so that the intermediate strings
      of the decoder can be described too. */
  function Escape(t: string, lt: bool, gt: bool): string
    decreases |t|
  {
    if |t| == 0 then [] else EscapeChar(t[0], lt, gt) + Escape(t[1..], lt, gt)
  }

  function EscapeChar(c: char, lt: bool, gt: bool): (r: string)
    ensures |r| > 0
  {
    if c == '&' then "&amp;"
    else if c == '<' && lt then "&lt;"
    else if c == '>' && gt then "&gt;"
    else [c]
  }

  /** The text-node escaping of `t`. */
  function EscapeText(t: string): string {
    Escape(t, true, true)
  }

  /** Escaping keeps the first and the last character of a text or turns
      it into the `&` and `;` of an entity. */
  lemma {:induction false} EscapeEnds(t: string, lt: bool, gt: bool)
    requires |t| > 0
    ensures var e := Escape(t, lt, gt);
            |e| > 0 && (e[0] == t[0] || e[0] == '&')
            && (e[|e| - 1] == t[|t| - 1] || e[|e| - 1] == ';')
    decreases |t|
  {
    if |t| > 1 {
      EscapeEnds(t[1..], lt, gt);
    }
  }

  /** A character that is neither in the text nor in any entity does not
      appear in its escape. */
  lemma {:induction false} EscapeAvoids(t: string, lt: bool, gt: bool, c: char)
    requires c !in t && c !in "&amp;lt;gt;"
    ensures c !in Escape(t, lt, gt)
    decreases |t|
  {
    if |t| > 0 {
      assert c != t[0];
      assert forall x :: x in t[1..] ==> x in t;
      EscapeAvoids(t[1..], lt, gt, c);
    }
  }

  /** Escaping preserves non-emptiness, trimmed ends and the absence of a
      backtick. */
  lemma EscapeTextShape(t: string)
    ensures |t| > 0 ==> |EscapeText(t)| > 0
    ensures IsTrimmed(t) ==> IsTrimmed(EscapeText(t))
    ensures '`' !in t ==> '`' !in EscapeText(t)
  {
    if |t| > 0 {
      EscapeEnds(t, true, true);
    }
    if '`' !in t {
      EscapeAvoids(t, true, true, '`');
    }
  }

  /** No occurrence of an entity pattern starts inside the escape of one
      character unless that escape is the pattern itself. */
  lemma ChunkHasNoOtherPattern(c: char, lt: bool, gt: bool, v: string, pattern: string)
    requires pattern == "&lt;" || pattern == "&gt;" || pattern == "&amp;"
    requires EscapeChar(c, lt, gt) != pattern
    ensures forall i :: 0 <= i < |EscapeChar(c, lt, gt)|
              ==> !StartsWith((EscapeChar(c, lt, gt) + v)[i..], pattern)
  {
    var u := EscapeChar(c, lt, gt);
    forall i | 0 <= i < |u|
      ensures !StartsWith((u + v)[i..], pattern)
    {
      var w := (u + v)[i..];
      assert w[0] == u[i];
      if i == 0 && |u| > 1 {
        assert w[1] == u[1];
      }
    }
  }

  /** One step of the decoder undoes one step of the escaping, when that
      step's pattern is `pattern` and its replacement is `c0`. */
  lemma {:induction false} DecodeStep(t: string, lt: bool, gt: bool, lt': bool, gt': bool,
                                      pattern: string, c0: char)
    requires pattern == "&lt;" || pattern == "&gt;"
    requires pattern == "&lt;" ==> c0 == '<' && lt && !lt' && gt' == gt
    requires pattern == "&gt;" ==> c0 == '>' && gt && !gt' && lt' == lt
    ensures ReplaceAll(Escape(t, lt, gt), pattern, [c0]) == Escape(t, lt', gt')
    decreases |t|
  {
    if |t| > 0 {
      var c := t[0];
      var u := EscapeChar(c, lt, gt);
      var rest := Escape(t[1..], lt, gt);
      DecodeStep(t[1..], lt, gt, lt', gt', pattern, c0);
      if u == pattern {
        ReplaceAllHit(rest, pattern, [c0]);
        assert c == c0;
      } else {
        ChunkHasNoOtherPattern(c, lt, gt, rest, pattern);
        ReplaceAllSkip(u, rest, pattern, [c0]);
      }
    }
  }

  /** Decoding `&amp;` undoes the escaping of `&` alone. */
  lemma {:induction false} DecodeAmp(t: string)
    ensures ReplaceAll(Escape(t, false, false), "&amp;", "&") == t
    decreases |t|
  {
    if |t| > 0 {
      var c := t[0];
      var u := EscapeChar(c, false, false);
      var rest := Escape(t[1..], false, false);
      DecodeAmp(t[1..]);
      if c == '&' {
        ReplaceAllHit(rest, "&amp;", "&");
      } else {
        ChunkHasNoOtherPattern(c, false, false, rest, "&amp;");
        ReplaceAllSkip(u, rest, "&amp;", "&");
      }
      assert t == [c] + t[1..];
    }
  }

  /** The decoder inverts text-node escaping for every text in which the
      entities `&quot;` and `&#39;` do not occur literally. */
  lemma DecodeInvertsEscape(t: string)
    requires !Contains(t, "&quot;") && !Contains(t, "&#39;")
    ensures DecodeEntities(EscapeText(t)) == t
  {
    DecodeStep(t, true, true, false, true, "&lt;", '<');
    DecodeStep(t, false, true, false, false, "&gt;", '>');
    DecodeAmp(t);
  }

  lemma {:induction false} NoAmpersandNoEntity(s: string, pattern: string)
    requires '&' !in s
    requires |pattern| > 0 && pattern[0] == '&'
    ensures !Contains(s, pattern)
  {
    ContainsIff(s, pattern);
    forall i | 0 <= i <= |s|
      ensures !StartsWith(s[i..], pattern)
    {
      if i < |s| {
        assert s[i] in s;
      }
    }
  }

  /** The replacements run in sequence, so a double-escaped `&quot;` is
      decoded twice while a double-escaped `&lt;` is decoded once: the
      restriction in `DecodeInvertsEscape` cannot be dropped. */
  lemma DecodeOrderMatters()
    ensures DecodeEntities(EscapeText("&quot;")) == "\""
    ensures DecodeEntities(EscapeText("&lt;")) == "&lt;"
  {
    var quot := "&quot;";
    DecodeStep(quot, true, true, false, true, "&lt;", '<');
    DecodeStep(quot, false, true, false, false, "&gt;", '>');
    DecodeAmp(quot);
    ReplaceAllHit("", quot, "\"");
    assert quot + "" == quot;
    assert ReplaceAll("\"", "&#39;", "'") == "\"";
    ContainsShorter("&lt;", "&quot;");
    ContainsShorter("&lt;", "&#39;");
    DecodeInvertsEscape("&lt;");
  }
}
