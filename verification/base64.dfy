/** `base64Encode(str)` of the diagram renderer, next to a reference encoder
    written after section 4 of RFC 4648 ("Base 64 Encoding").

    The source walks the string three UTF-16 code units at a time, packs
    them into one 32-bit group with shifts and `|`, and cuts four 6-bit
    values out of it. Its padding tests compare the already advanced index,
    so they never fire: where the RFC writes `=`, the source writes the
    character of a zero sextet, `A`. */
module Base64 {

  /** A UTF-16 code unit, what `charCodeAt` returns. */
  type CodeUnit = bv16

  type Byte = bv8

  /** The `chars` table of the source, the alphabet of RFC 4648, Table 1,
      written as its three runs: upper-case letters, lower-case letters,
      then digits and `+` `/`. */
  const Alphabet: string := Uppers + Lowers + DigitsAndSigns
  const Uppers: string := "ABCDEFGHIJKLMNOPQRSTUVWXYZ"
  const Lowers: string := "abcdefghijklmnopqrstuvwxyz"
  const DigitsAndSigns: string := "0123456789+/"

  const Pad: char := '='

  /** A character of the alphabet, told by its range. */
  predicate IsBase64Char(c: char) {
    || 'A' <= c <= 'Z' || 'a' <= c <= 'z' || '0' <= c <= '9' || c == '+' || c == '/'
  }

  /** The alphabet has 64 characters, starts with `A` (the character of a
      zero 6-bit value) and holds only alphabet characters, so no `=`. */
  lemma AlphabetFacts()
    ensures |Alphabet| == 64 && Alphabet[0] == 'A'
    ensures forall i :: 0 <= i < |Alphabet| ==> IsBase64Char(Alphabet[i])
  {
    RunFacts();
    forall i | 0 <= i < |Alphabet|
      ensures IsBase64Char(Alphabet[i])
    {
      if i < 26 {
        assert Alphabet[i] == Uppers[i];
      } else if i < 52 {
        assert Alphabet[i] == Lowers[i - 26];
      } else {
        assert Alphabet[i] == DigitsAndSigns[i - 52];
      }
    }
  }

  /** Each of the three runs holds only characters of its range. */
  lemma RunFacts()
    ensures |Uppers| == 26 && forall i :: 0 <= i < 26 ==> 'A' <= Uppers[i] <= 'Z'
    ensures |Lowers| == 26 && forall i :: 0 <= i < 26 ==> 'a' <= Lowers[i] <= 'z'
    ensures |DigitsAndSigns| == 12 && forall i :: 0 <= i < 12 ==> IsBase64Char(DigitsAndSigns[i])
  {
  }

  // ---------------------------------------------------------------------------
  // Reference: section 4 of RFC 4648
  // ---------------------------------------------------------------------------

  /** The alphabet character of a 6-bit value. */
  function Digit(v: int): (c: char)
    requires 0 <= v < 64
    ensures IsBase64Char(c)
  {
    AlphabetFacts();
    Alphabet[v]
  }

  /** One final or inner group of one to three bytes: 24 bits cut into four
      6-bit values, the missing bytes counting as zero bits, and one `=` per
      6-bit value that holds no input bit. */
  function EncodeGroup(g: seq<Byte>): (r: string)
    requires 1 <= |g| <= 3
    ensures |r| == 4
    ensures IsBase64Char(r[0]) && IsBase64Char(r[1])
    ensures if |g| > 1 then IsBase64Char(r[2]) else r[2] == Pad
    ensures if |g| > 2 then IsBase64Char(r[3]) else r[3] == Pad
  {
    var b0 := g[0];
    var b1 := if |g| > 1 then g[1] else 0;
    var b2 := if |g| > 2 then g[2] else 0;
    [Digit((b0 >> 2) as int), Digit((((b0 & 3) << 4) | (b1 >> 4)) as int)]
    + (if |g| > 1 then [Digit((((b1 & 15) << 2) | (b2 >> 6)) as int)] else [Pad])
    + (if |g| > 2 then [Digit((b2 & 63) as int)] else [Pad])
  }

  /** The RFC 4648 base 64 encoding of a byte string. */
  function Rfc4648Encode(bytes: seq<Byte>): string
    decreases |bytes|
  {
    if |bytes| == 0 then ""
    else if |bytes| <= 3 then EncodeGroup(bytes)
    else EncodeGroup(bytes[..3]) + Rfc4648Encode(bytes[3..])
  }

  /** Four characters for every started group of three bytes. */
  lemma {:induction false} EncodeLength(bytes: seq<Byte>)
    ensures |Rfc4648Encode(bytes)| == 4 * ((|bytes| + 2) / 3)
    decreases |bytes|
  {
    if |bytes| > 3 {
      var rest := bytes[3..];
      EncodeLength(rest);
      GroupCountStep(|bytes|);
      assert Rfc4648Encode(bytes) == EncodeGroup(bytes[..3]) + Rfc4648Encode(rest);
    } else if |bytes| > 0 {
      GroupCountStep(|bytes|);
      assert Rfc4648Encode(bytes) == EncodeGroup(bytes);
    }
  }

  lemma GroupCountStep(n: int)
    requires n > 0
    ensures 4 * ((n + 2) / 3) == 4 + (if n > 3 then 4 * ((n - 3 + 2) / 3) else 0)
  {
  }

  /** Padding only ever appears in the last two positions of the encoding. */
  lemma {:induction false} PadOnlyAtEnd(bytes: seq<Byte>)
    ensures var r := Rfc4648Encode(bytes);
            forall k :: 0 <= k < |r| - 2 ==> IsBase64Char(r[k])
    decreases |bytes|
  {
    if |bytes| > 3 {
      var head := EncodeGroup(bytes[..3]);
      var tail := Rfc4648Encode(bytes[3..]);
      PadOnlyAtEnd(bytes[3..]);
      assert IsBase64Char(head[2]) && IsBase64Char(head[3]);
      EncodeLength(bytes[3..]);
      forall k | 0 <= k < |head + tail| - 2
        ensures IsBase64Char((head + tail)[k])
      {
        if k < 2 {
          assert (head + tail)[k] == head[k];
        } else if k == 2 {
          assert (head + tail)[2] == head[2];
        } else if k == 3 {
          assert (head + tail)[3] == head[3];
        } else {
          assert (head + tail)[k] == tail[k - 4];
        }
      }
    }
  }

  /** Encoding is group by group: a whole number of groups followed by one
      more group encodes as the two encodings side by side. */
  lemma {:induction false} EncodeAppendGroup(x: seq<Byte>, g: seq<Byte>)
    requires |x| % 3 == 0 && 1 <= |g| <= 3
    ensures Rfc4648Encode(x + g) == Rfc4648Encode(x) + EncodeGroup(g)
    decreases |x|
  {
    if |x| == 0 {
      assert x + g == g;
    } else {
      assert (x + g)[..3] == x[..3];
      assert (x + g)[3..] == x[3..] + g;
      EncodeAppendGroup(x[3..], g);
    }
  }

  // ---------------------------------------------------------------------------
  // The source's encoder
  // ---------------------------------------------------------------------------

  /** The RFC's output with every `=` written as `A`. */
  function PadAsA(s: string): (r: string)
    ensures |r| == |s|
    ensures forall k :: 0 <= k < |s| ==> r[k] == PadChar(s[k])
  {
    seq(|s|, k requires 0 <= k < |s| => PadChar(s[k]))
  }

  function PadChar(c: char): (r: char)
    ensures r != Pad
    ensures c != Pad ==> r == c
  {
    if c == Pad then 'A' else c
  }

  lemma PadAsAAppend(x: string, y: string)
    ensures PadAsA(x + y) == PadAsA(x) + PadAsA(y)
  {
  }

  /** Every code unit is below 256, so it stands for one byte. */
  predicate IsLatin1(str: seq<CodeUnit>) {
    forall k :: 0 <= k < |str| ==> str[k] < 256
  }

  function ToByte(u: CodeUnit): Byte
    requires u < 256
  {
    u as Byte
  }

  function Latin1Bytes(str: seq<CodeUnit>): (r: seq<Byte>)
    requires IsLatin1(str)
    ensures |r| == |str|
    ensures forall k :: 0 <= k < |str| ==> r[k] == ToByte(str[k])
  {
    seq(|str|, k requires 0 <= k < |str| => ToByte(str[k]))
  }

  /** The character the source appends for the 6-bit field of `group` that
      starts at bit `shift`. */
  function SextetChar(group: bv32, shift: bv32): (c: char)
    requires shift <= 18
    ensures IsBase64Char(c)
  {
    Digit(((group >> shift) & 63) as int)
  }

  /** The four characters the source appends for three code units, its
      padding tests aside. */
  function SourceChars(a: CodeUnit, b: CodeUnit, c: CodeUnit): (r: string)
    ensures |r| == 4 && AllBase64(r)
  {
    var group := Group(a, b, c);
    FourBase64(SextetChar(group, 18), SextetChar(group, 12), SextetChar(group, 6), SextetChar(group, 0));
    [SextetChar(group, 18), SextetChar(group, 12), SextetChar(group, 6), SextetChar(group, 0)]
  }

  /** The 32-bit group the source packs from three code units. */
  function Group(a: CodeUnit, b: CodeUnit, c: CodeUnit): bv32 {
    ((a as bv32) << 16) | ((b as bv32) << 8) | (c as bv32)
  }

  /** For code units below 256 the four 6-bit fields of the source's group
      are the four 6-bit values RFC 4648 cuts from the three bytes. */
  lemma SextetsOfGroup(a: CodeUnit, b: CodeUnit, c: CodeUnit)
    requires a < 256 && b < 256 && c < 256
    ensures ((Group(a, b, c) >> 18) & 63) as int == (ToByte(a) >> 2) as int
    ensures ((Group(a, b, c) >> 12) & 63) as int == (((ToByte(a) & 3) << 4) | (ToByte(b) >> 4)) as int
    ensures ((Group(a, b, c) >> 6) & 63) as int == (((ToByte(b) & 15) << 2) | (ToByte(c) >> 6)) as int
    ensures (Group(a, b, c) & 63) as int == (ToByte(c) & 63) as int
  {
  }

  /** The source's character for each 6-bit field of the group is the
      RFC's character for that position, or `A` where the RFC pads. */
  lemma FieldsMatchRfc(a: CodeUnit, b: CodeUnit, c: CodeUnit, g: seq<Byte>)
    requires 1 <= |g| <= 3 && a < 256 && b < 256 && c < 256
    requires g[0] == ToByte(a)
    requires if |g| > 1 then g[1] == ToByte(b) else b == 0
    requires if |g| > 2 then g[2] == ToByte(c) else c == 0
    ensures EncodeGroup(g)[0] == SextetChar(Group(a, b, c), 18)
    ensures EncodeGroup(g)[1] == SextetChar(Group(a, b, c), 12)
    ensures EncodeGroup(g)[2] == (if |g| > 1 then SextetChar(Group(a, b, c), 6) else Pad)
    ensures EncodeGroup(g)[3] == (if |g| > 2 then SextetChar(Group(a, b, c), 0) else Pad)
  {
    SextetsOfGroup(a, b, c);
  }

  /** Where the RFC pads, the source's 6-bit field is zero, so it writes `A`. */
  lemma {:induction false} PaddedFieldsAreA(a: CodeUnit, b: CodeUnit, c: CodeUnit)
    requires a < 256 && b < 256 && c < 256
    ensures b == 0 && c == 0 ==> SextetChar(Group(a, b, c), 6) == 'A'
    ensures c == 0 ==> SextetChar(Group(a, b, c), 0) == 'A'
  {
    SextetsOfGroup(a, b, c);
    AlphabetFacts();
  }

  /** The four characters the source appends for one group agree with the
      RFC encoding of that group once `=` is written as `A`. */
  lemma {:induction false} GroupMatchesRfc(a: CodeUnit, b: CodeUnit, c: CodeUnit, g: seq<Byte>)
    requires 1 <= |g| <= 3 && a < 256 && b < 256 && c < 256
    requires g[0] == ToByte(a)
    requires if |g| > 1 then g[1] == ToByte(b) else b == 0
    requires if |g| > 2 then g[2] == ToByte(c) else c == 0
    ensures PadAsA(EncodeGroup(g)) == SourceChars(a, b, c)
  {
    var e := EncodeGroup(g);
    assert PadAsA(e) == [PadChar(e[0]), PadChar(e[1]), PadChar(e[2]), PadChar(e[3])];
    FieldsMatchRfc(a, b, c, g);
    PaddedFieldsAreA(a, b, c);
  }

  /** Appending one group to a whole number of groups appends the source's
      four characters for it to the padded-as-`A` encoding. */
  lemma {:induction false} EncodeStep(bytes: seq<Byte>, start: int, i: int,
                                      a: CodeUnit, b: CodeUnit, c: CodeUnit)
    requires 0 <= start < i <= |bytes| && i - start <= 3 && start % 3 == 0
    requires a < 256 && b < 256 && c < 256
    requires bytes[start] == ToByte(a)
    requires if i - start > 1 then bytes[start + 1] == ToByte(b) else b == 0
    requires if i - start > 2 then bytes[start + 2] == ToByte(c) else c == 0
    ensures PadAsA(Rfc4648Encode(bytes[..i])) == PadAsA(Rfc4648Encode(bytes[..start])) + SourceChars(a, b, c)
  {
    var g := bytes[start..i];
    assert bytes[..i] == bytes[..start] + g;
    EncodeAppendGroup(bytes[..start], g);
    PadAsAAppend(Rfc4648Encode(bytes[..start]), EncodeGroup(g));
    GroupMatchesRfc(a, b, c, g);
  }

  /** One turn of the source's loop consumes a whole group of three code
      units, or the last one to three. */
  lemma LoopCountStep(start: int, i: int, n: int)
    requires 0 <= start && start % 3 == 0 && start < i <= start + 3 && i <= n
    requires i - start < 3 ==> i == n
    ensures i % 3 == 0 || i == n
    ensures 4 * ((i + 2) / 3) == 4 * ((start + 2) / 3) + 4
  {
  }

  /** `EncodeStep` for the bytes of a Latin-1 string: the three code units
      the source read, zero where the input ended. */
  lemma Latin1Step(str: seq<CodeUnit>, start: int, i: int, a: CodeUnit, b: CodeUnit, c: CodeUnit, chars: string)
    requires 0 <= start < |str| && start % 3 == 0
    requires i == if start + 3 <= |str| then start + 3 else |str|
    requires a == str[start]
    requires b == (if i - start > 1 then str[start + 1] else 0)
    requires c == (if i - start > 2 then str[start + 2] else 0)
    requires chars == SourceChars(a, b, c)
    ensures IsLatin1(str) ==>
              PadAsA(Rfc4648Encode(Latin1Bytes(str)[..i]))
              == PadAsA(Rfc4648Encode(Latin1Bytes(str)[..start])) + chars
  {
    if IsLatin1(str) {
      EncodeStep(Latin1Bytes(str), start, i, a, b, c);
    }
  }

  /** The one-character string `M`: RFC 4648 writes `TQ==`, the source
      writes `TQAA`. */
  lemma PaddingWrittenAsA()
    ensures Rfc4648Encode([77]) == "TQ=="
    ensures PadAsA(Rfc4648Encode([77])) == "TQAA"
  {
    AlphabetFacts();
    assert Alphabet[19] == 'T' && Alphabet[16] == 'Q';
  }

  /** Every character is an alphabet character. */
  predicate AllBase64(s: string) {
    forall k :: 0 <= k < |s| ==> IsBase64Char(s[k])
  }

  lemma FourBase64(c0: char, c1: char, c2: char, c3: char)
    requires IsBase64Char(c0) && IsBase64Char(c1) && IsBase64Char(c2) && IsBase64Char(c3)
    ensures AllBase64([c0, c1, c2, c3])
  {
  }

  /** The reads of one turn of the source's loop: from index `i`, the code
      unit there and up to two more, each read only while the index is in
      range, zero otherwise; `next` is the index after the last one read. */
  method ReadGroup(str: seq<CodeUnit>, i: int) returns (a: CodeUnit, b: CodeUnit, c: CodeUnit, next: int)
    requires 0 <= i < |str|
    ensures next == if i + 3 <= |str| then i + 3 else |str|
    ensures a == str[i]
    ensures b == (if next - i > 1 then str[i + 1] else 0)
    ensures c == (if next - i > 2 then str[i + 2] else 0)
  {
    next := i;
    a := str[next];
    next := next + 1;
    b := if next < |str| then str[next] else 0;
    if next < |str| {
      next := next + 1;
    }
    c := if next < |str| then str[next] else 0;
    if next < |str| {
      next := next + 1;
    }
  }

  /** One turn of the source's loop: from index `i`, a multiple of three,
      read up to three code units and append the four characters of their
      group, with the source's padding tests on the advanced index. */
  method EncodeTurn(str: seq<CodeUnit>, i: int) returns (chars: string, next: int)
    requires 0 <= i < |str| && i % 3 == 0
    ensures i < next <= i + 3 && next <= |str|
    ensures next % 3 == 0 || next == |str|
    ensures |chars| == 4 && AllBase64(chars)
    ensures IsLatin1(str) ==>
              PadAsA(Rfc4648Encode(Latin1Bytes(str)[..next]))
              == PadAsA(Rfc4648Encode(Latin1Bytes(str)[..i])) + chars
  {
    var a, b, c;
    a, b, c, next := ReadGroup(str, i);
    var group := Group(a, b, c);
    var c0, c1, c2, c3 := SextetChar(group, 18), SextetChar(group, 12), SextetChar(group, 6), SextetChar(group, 0);
    var third := if next - 2 < |str| then c2 else Pad;
    var fourth := if next - 1 < |str| then c3 else Pad;
    chars := [c0, c1, third, fourth];
    TurnChars(|str|, next, a, b, c, chars);
    Latin1Step(str, i, next, a, b, c, chars);
  }

  /** The four characters one turn writes: the padding tests never fire,
      since the advanced index is at most the length. */
  lemma TurnChars(n: int, next: int, a: CodeUnit, b: CodeUnit, c: CodeUnit, chars: string)
    requires next <= n
    requires var group := Group(a, b, c);
             chars == [SextetChar(group, 18), SextetChar(group, 12),
                       if next - 2 < n then SextetChar(group, 6) else Pad,
                       if next - 1 < n then SextetChar(group, 0) else Pad]
    ensures chars == SourceChars(a, b, c)
  {
  }

  /** `base64Encode(str)`: four alphabet characters per started group of
      three code units and never a `=`; on code units below 256 it is the
      RFC 4648 encoding of those bytes with the padding written as `A`. */
  method Base64Encode(str: seq<CodeUnit>) returns (result: string)
    ensures |result| == 4 * ((|str| + 2) / 3)
    ensures AllBase64(result)
    ensures IsLatin1(str) ==> result == PadAsA(Rfc4648Encode(Latin1Bytes(str)))
  {
    result := "";
    var i := 0;
    while i < |str|
      invariant 0 <= i <= |str|
      invariant i % 3 == 0 || i == |str|
      invariant |result| == 4 * ((i + 2) / 3)
      invariant AllBase64(result)
      invariant IsLatin1(str) ==> result == PadAsA(Rfc4648Encode(Latin1Bytes(str)[..i]))
    {
      var chars, next := EncodeTurn(str, i);
      LoopCountStep(i, next, |str|);
      result := result + chars;
      i := next;
    }
    if IsLatin1(str) {
      assert Latin1Bytes(str)[..i] == Latin1Bytes(str);
    }
  }
}
