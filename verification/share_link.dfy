/** The share links of the diagram viewer: `generateMermaidLiveUrl` and
    `generateFallbackUrl`, three tiers tried one after another.

    1. `https://mermaid.live/view#pako:` followed by the base 64 of the
       deflated JSON state, when the pako library is loaded;
    2. `https://mermaid.live/view#base64:` followed by the base 64 of the
       UTF-8 bytes of the JSON state;
    3. `https://mermaid.live/edit#code=` followed by the URI-encoded code.

    A tier that throws hands over to the next one. The browser built-ins the
    tiers use are parameters (`Env`), except `btoa` and
    `String.fromCharCode`, whose behaviour is fixed by the web platform and
    is written out here on top of the RFC 4648 encoder. */
module ShareLink {
  import opened Wrappers
  import opened Text
  import Base64

  /** The object handed to `JSON.stringify`: the code and a theme. */
  datatype LiveState = LiveState(code: string, theme: string)

  /** The state both tiers build: the code with the theme `default`. */
  function DefaultState(code: string): LiveState {
    LiveState(code, "default")
  }

  /** The built-ins a tier calls that are not modelled: `JSON.stringify`,
      `window.pako.deflate` (absent when pako is not loaded; it may throw),
      `encodeURIComponent` (throws on a lone surrogate) and `unescape`. */
  datatype Env = Env(
    stringify: LiveState -> string,
    deflate: Option<string -> Result<seq<Base64.Byte>>>,
    encodeUri: string -> Result<string>,
    unescape: string -> string)

  // ---------------------------------------------------------------------------
  // btoa and String.fromCharCode
  // ---------------------------------------------------------------------------

  predicate IsLatin1(s: string) {
    forall k :: 0 <= k < |s| ==> s[k] as int < 256
  }

  function CharByte(c: char): Base64.Byte
    requires c as int < 256
  {
    (c as int) as Base64.Byte
  }

  /** A Latin-1 string read as bytes, one per character. */
  function Latin1Bytes(s: string): (bytes: seq<Base64.Byte>)
    requires IsLatin1(s)
    ensures |bytes| == |s|
  {
    seq(|s|, k requires 0 <= k < |s| => CharByte(s[k]))
  }

  function ByteChar(b: Base64.Byte): (c: char)
    ensures c as int < 256
  {
    (b as int) as char
  }

  /** `btoa`: throws on a character above U+00FF, otherwise the RFC 4648
      encoding of the characters taken as bytes. */
  function Btoa(s: string): (r: Result<string>)
    ensures r.Success? <==> IsLatin1(s)
  {
    if IsLatin1(s) then
      Success(Base64.Rfc4648Encode(Latin1Bytes(s)))
    else
      Failure("InvalidCharacterError")
  }

  /** `String.fromCharCode.apply(null, bytes)`: one character per byte. */
  function FromCharCodes(bytes: seq<Base64.Byte>): (s: string)
    ensures |s| == |bytes| && IsLatin1(s)
    ensures forall k :: 0 <= k < |s| ==> CharByte(s[k]) == bytes[k]
  {
    seq(|bytes|, k requires 0 <= k < |bytes| => ByteChar(bytes[k]))
  }

  /** The characters of a byte array always pass `btoa`, and `btoa` gives
      back the RFC 4648 encoding of the bytes. */
  lemma BtoaOfCharCodes(bytes: seq<Base64.Byte>)
    ensures Btoa(FromCharCodes(bytes)) == Success(Base64.Rfc4648Encode(bytes))
  {
    assert Latin1Bytes(FromCharCodes(bytes)) == bytes;
  }

  // ---------------------------------------------------------------------------
  // The three tiers
  // ---------------------------------------------------------------------------

  const Host: string := "https://mermaid.live/"
  const PakoPrefix: string := Host + "view#pako:"
  const Base64Prefix: string := Host + "view#base64:"
  const EditPrefix: string := Host + "edit#code="

  /** Tier 1: stringify, deflate, turn the bytes into characters, `btoa`.
      Only a missing pako or a throwing deflate makes it fail: the bytes
      always pass `btoa`, and the link carries their RFC 4648 encoding. */
  function PakoTier(code: string, env: Env): (r: Result<string>)
    ensures env.deflate.None? ==> r == Failure("Pako library not available")
    ensures r.Success? <==> env.deflate.Some? && env.deflate.value(env.stringify(DefaultState(code))).Success?
    ensures r.Success? ==>
              r.value == PakoPrefix + Base64.Rfc4648Encode(env.deflate.value(env.stringify(DefaultState(code))).value)
  {
    if env.deflate.None? then Failure("Pako library not available")
    else
      var json := env.stringify(DefaultState(code));
      match env.deflate.value(json)
      case Failure(e) => Failure(e)
      case Success(compressed) =>
        BtoaOfCharCodes(compressed);
        Success(PakoPrefix + Btoa(FromCharCodes(compressed)).value)
  }

  /** Tier 2: `btoa(unescape(encodeURIComponent(json)))`. It fails exactly
      when the URI encoding throws or unescaping leaves a character above
      U+00FF; otherwise the payload after the prefix is the RFC 4648
      encoding of the unescaped characters taken as bytes. */
  function Base64Tier(code: string, env: Env): (r: Result<string>)
    ensures var uri := env.encodeUri(env.stringify(DefaultState(code)));
            r.Success? <==> uri.Success? && IsLatin1(env.unescape(uri.value))
    ensures r.Success? ==> StartsWith(r.value, Base64Prefix)
    ensures var uri := env.encodeUri(env.stringify(DefaultState(code)));
            r.Success? ==>
              r.value == Base64Prefix + Base64.Rfc4648Encode(Latin1Bytes(env.unescape(uri.value)))
  {
    var json := env.stringify(DefaultState(code));
    var uri :- env.encodeUri(json);
    var encoded :- Btoa(env.unescape(uri));
    Success(Base64Prefix + encoded)
  }

  /** Tier 3, the last resort: `encodeURIComponent(code)` with nothing
      around it to catch a throw. It fails exactly when the URI encoding
      of the code throws, with that error. */
  function EditTier(code: string, env: Env): (r: Result<string>)
    ensures r.Success? <==> env.encodeUri(code).Success?
    ensures r.Success? ==> r.value == EditPrefix + env.encodeUri(code).value
    ensures r.Failure? ==> r.error == env.encodeUri(code).error
  {
    var encoded :- env.encodeUri(code);
    Success(EditPrefix + encoded)
  }

  /** `generateFallbackUrl`: tier 2, or tier 3 when tier 2 throws. */
  function GenerateFallbackUrl(code: string, env: Env): (r: Result<string>)
    ensures r.Success? ==> StartsWith(r.value, Base64Prefix) || StartsWith(r.value, EditPrefix)
    ensures r.Failure? ==> env.encodeUri(code).Failure?
  {
    match Base64Tier(code, env)
    case Success(url) => Success(url)
    case Failure(_) => EditTier(code, env)
  }

  /** `generateMermaidLiveUrl`: without pako straight to the fallback;
      with pako tier 1, and the fallback when tier 1 throws. When the
      fallback throws in the first branch, the `catch` calls it a second
      time with the same input, which throws again, so both branches end in
      one call of the fallback. */
  function GenerateMermaidLiveUrl(code: string, env: Env): (r: Result<string>)
    ensures r.Success? ==> (|| StartsWith(r.value, PakoPrefix)
                            || StartsWith(r.value, Base64Prefix)
                            || StartsWith(r.value, EditPrefix))
    ensures r.Failure? ==> env.encodeUri(code).Failure?
  {
    if env.deflate.None? then GenerateFallbackUrl(code, env)
    else
      match PakoTier(code, env)
      case Success(url) => Success(url)
      case Failure(_) => GenerateFallbackUrl(code, env)
  }

  // ---------------------------------------------------------------------------
  // Reference: the first tier that succeeds
  // ---------------------------------------------------------------------------

  /** The first success of a list of attempts, or the last failure. */
  function FirstSuccess(attempts: seq<Result<string>>): (r: Result<string>)
    requires |attempts| > 0
    ensures r.Success? <==> exists i :: 0 <= i < |attempts| && attempts[i].Success?
    ensures r.Success? ==> exists i :: && 0 <= i < |attempts| && attempts[i] == r
                                       && forall j :: 0 <= j < i ==> attempts[j].Failure?
    ensures r.Failure? ==> r == attempts[|attempts| - 1]
    decreases |attempts|
  {
    if attempts[0].Success? || |attempts| == 1 then attempts[0]
    else
      var r := FirstSuccess(attempts[1..]);
      assert forall i :: 1 <= i < |attempts| ==> attempts[i] == attempts[1..][i - 1];
      if r.Success? then
        var i :| 0 <= i < |attempts| - 1 && attempts[1..][i] == r
                 && forall j :: 0 <= j < i ==> attempts[1..][j].Failure?;
        assert attempts[i + 1] == r;
        r
      else r
  }

  /** The share link is the first tier that succeeds. */
  lemma LiveUrlIsFirstSuccess(code: string, env: Env)
    ensures GenerateMermaidLiveUrl(code, env)
            == FirstSuccess([PakoTier(code, env), Base64Tier(code, env), EditTier(code, env)])
  {
    var tiers := [PakoTier(code, env), Base64Tier(code, env), EditTier(code, env)];
    var rest := [Base64Tier(code, env), EditTier(code, env)];
    assert tiers[1..] == rest;
    assert rest[1..] == [EditTier(code, env)];
    assert FirstSuccess(rest) == GenerateFallbackUrl(code, env);
  }

  /** The three prefixes exclude one another: they part at the character
      after the host (`v` or `e`) and at the fifth after it (`p` or `b`). */
  lemma PrefixesExclusive(url: string)
    ensures StartsWith(url, PakoPrefix) ==> !StartsWith(url, Base64Prefix) && !StartsWith(url, EditPrefix)
    ensures StartsWith(url, Base64Prefix) ==> !StartsWith(url, EditPrefix)
  {
    var n := |Host|;
    assert PakoPrefix[n] == 'v' && Base64Prefix[n] == 'v' && EditPrefix[n] == 'e';
    assert PakoPrefix[n + 5] == 'p' && Base64Prefix[n + 5] == 'b';
    if StartsWith(url, PakoPrefix) {
      assert url[n] == PakoPrefix[n] && url[n + 5] == PakoPrefix[n + 5];
    }
    if StartsWith(url, Base64Prefix) {
      assert url[n] == Base64Prefix[n] && url[n + 5] == Base64Prefix[n + 5];
    }
  }

  /** Which prefix the link carries tells which tier produced it. */
  lemma LiveUrlTier(code: string, env: Env)
    ensures var r := GenerateMermaidLiveUrl(code, env);
            && (r.Success? && StartsWith(r.value, PakoPrefix) <==> PakoTier(code, env).Success?)
            && (r.Success? && StartsWith(r.value, Base64Prefix)
                <==> PakoTier(code, env).Failure? && Base64Tier(code, env).Success?)
            && (r.Success? && StartsWith(r.value, EditPrefix)
                <==> PakoTier(code, env).Failure? && Base64Tier(code, env).Failure?
                     && EditTier(code, env).Success?)
  {
    var r := GenerateMermaidLiveUrl(code, env);
    if r.Success? {
      PrefixesExclusive(r.value);
    }
  }

  /** Once pako has compressed the state, tier 1 cannot fail: the bytes
      always pass `btoa`, and the link carries their RFC 4648 encoding. */
  lemma CompressedAlwaysLinked(code: string, env: Env)
    requires env.deflate.Some?
    requires env.deflate.value(env.stringify(DefaultState(code))).Success?
    ensures GenerateMermaidLiveUrl(code, env)
            == Success(PakoPrefix + Base64.Rfc4648Encode(env.deflate.value(env.stringify(DefaultState(code))).value))
  {
    BtoaOfCharCodes(env.deflate.value(env.stringify(DefaultState(code))).value);
  }

  /** Without pako, or when deflating throws, the link is the fallback's. */
  lemma CompressionFailureFallsBack(code: string, env: Env)
    requires env.deflate.None? || env.deflate.value(env.stringify(DefaultState(code))).Failure?
    ensures GenerateMermaidLiveUrl(code, env) == GenerateFallbackUrl(code, env)
  {
  }
}
