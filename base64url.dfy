/** The URL-safe variant of base64 that the token codec writes its segments
    in (lines 168-188 of JWT.java): the standard encoding with `+` and `/`
    swapped for `-` and `_` and the `=` padding dropped, and the inverse
    transform that restores the standard alphabet and pads the text again
    before the standard decoder reads it. */
module Base64Url {
  import opened Wrappers
  import opened Strings
  import Base64

  /** The characters of the URL-safe alphabet (section 5 of RFC 4648). */
  predicate IsUrlDigit(c: char) {
    'A' <= c <= 'Z' || 'a' <= c <= 'z' || '0' <= c <= '9' || c == '-' || c == '_'
  }

  /** `base64urlEscape`: three `replaceAll` passes, `+` to `-`, then `/` to
      `_`, then every `=` deleted. */
  function Escape(s: string): (r: string)
    ensures '+' !in r && '/' !in r && '=' !in r
    ensures |r| == |s| - Count(s, '=')
  {
    EscapeSinglePass(s);
    RemoveAll(Replace(Replace(s, '+', '-'), '/', '_'), '=')
  }

  /** The URL-safe form of one standard character. */
  function ToUrl(c: char): char {
    if c == '+' then '-' else if c == '/' then '_' else c
  }

  /** The standard form of one URL-safe character. */
  function FromUrl(c: char): char {
    if c == '-' then '+' else if c == '_' then '/' else c
  }

  /** Escaping in one left-to-right pass: each `=` dropped, each other
      character written in its URL-safe form, in order. It is the reference
      that the three passes of Escape are proved to agree with. */
  function EscapeChars(s: string): (r: string)
    ensures '+' !in r && '/' !in r && '=' !in r
    ensures |r| == |s| - Count(s, '=')
  {
    if s == [] then [] else (if s[0] == '=' then [] else [ToUrl(s[0])]) + EscapeChars(s[1..])
  }

  /** The three passes of Escape do what the single pass does. */
  lemma {:induction false} EscapeSinglePass(s: string)
    ensures RemoveAll(Replace(Replace(s, '+', '-'), '/', '_'), '=') == EscapeChars(s)
  {
    if s != [] {
      var t := Replace(Replace(s, '+', '-'), '/', '_');
      assert t[0] == ToUrl(s[0]);
      assert t[1..] == Replace(Replace(s[1..], '+', '-'), '/', '_');
      EscapeSinglePass(s[1..]);
    }
  }

  /** Without `=` every character keeps its place, in its URL-safe form. */
  lemma {:induction false} EscapeAt(s: string)
    requires '=' !in s
    ensures |EscapeChars(s)| == |s|
    ensures forall i :: 0 <= i < |s| ==> EscapeChars(s)[i] == ToUrl(s[i])
  {
    if s != [] {
      EscapeAt(s[1..]);
    }
  }

  lemma {:induction false} EscapeDropsPadding(s: string, k: nat)
    ensures EscapeChars(s + Repeat('=', k)) == EscapeChars(s)
  {
    if s == [] {
      EscapePadding(k);
      assert s + Repeat('=', k) == Repeat('=', k);
    } else {
      assert (s + Repeat('=', k))[1..] == s[1..] + Repeat('=', k);
      EscapeDropsPadding(s[1..], k);
    }
  }

  lemma {:induction false} EscapePadding(k: nat)
    ensures EscapeChars(Repeat('=', k)) == []
  {
    if k > 0 {
      RepeatFront('=', k);
      EscapePadding(k - 1);
    }
  }

  /** `base64urlUnescape`: `5 - L % 4` characters `=` appended to the text
      of length `L`, then `-` turned into `+` and `_` into `/`. */
  function Unescaped(s: string): (r: string)
    ensures |r| % 4 == 1
    ensures 2 <= |r| - |s| <= 5
  {
    Replace(Replace(s + Repeat('=', 5 - |s| % 4), '-', '+'), '_', '/')
  }

  /** What the unescaped text is made of: the text in the standard alphabet
      followed by `=` padding whose count is never the standard one. It lies
      between 2 and 5, and the padded text always has a length of one more
      than a multiple of four. */
  lemma UnescapedShape(s: string)
    ensures |Unescaped(s)| == |s| + 5 - |s| % 4 && |Unescaped(s)| % 4 == 1
    ensures 2 <= |Unescaped(s)| - |s| <= 5
    ensures forall i :: 0 <= i < |s| ==> Unescaped(s)[i] == FromUrl(s[i])
    ensures forall i :: |s| <= i < |Unescaped(s)| ==> Unescaped(s)[i] == '='
    ensures '-' !in Unescaped(s) && '_' !in Unescaped(s)
  {
  }

  /** `base64urlUnescape` as JWT.java writes it: a builder holding the
      text, a loop appending the padding one `=` at a time, and the two
      replacements over the result. */
  method Unescape(str: string) returns (r: string)
    ensures r == Unescaped(str)
  {
    var padding := 5 - |str| % 4;
    var sb := str;
    for i := 0 to padding
      invariant sb == str + Repeat('=', i)
    {
      sb := sb + "=";
    }
    r := Replace(Replace(sb, '-', '+'), '_', '/');
  }

  /** Digits of the standard alphabet only. */
  predicate IsDigits(d: string) {
    forall i :: 0 <= i < |d| ==> Base64.IsDigit(d[i])
  }

  lemma DigitsHaveNoPadding(d: string)
    requires IsDigits(d)
    ensures '=' !in d
  {
    forall i | 0 <= i < |d| ensures d[i] != '=' {
      assert Base64.IsDigit(d[i]);
    }
  }

  /** Escaping standard digits followed by padding drops the padding and
      writes each digit in its URL-safe form. */
  lemma EscapeStandard(d: string, k: nat)
    requires IsDigits(d)
    ensures Escape(d + Repeat('=', k)) == EscapeChars(d)
    ensures |EscapeChars(d)| == |d|
    ensures forall i :: 0 <= i < |d| ==> EscapeChars(d)[i] == ToUrl(d[i])
  {
    EscapeSinglePass(d + Repeat('=', k));
    EscapeDropsPadding(d, k);
    DigitsHaveNoPadding(d);
    EscapeAt(d);
  }

  /** The standard form of URL-safe text, character by character. */
  function FromUrlChars(s: string): string {
    Replace(Replace(s, '-', '+'), '_', '/')
  }

  /** The unescaped text is the text in the standard alphabet followed by
      the padding. */
  lemma UnescapedSplit(s: string)
    ensures Unescaped(s) == FromUrlChars(s) + Repeat('=', 5 - |s| % 4)
  {
    var pad := Repeat('=', 5 - |s| % 4);
    ReplaceAppend(s, pad, '-', '+');
    ReplaceAppend(Replace(s, '-', '+'), Replace(pad, '-', '+'), '_', '/');
    ReplaceAbsent(pad, '-', '+');
    ReplaceAbsent(pad, '_', '/');
  }

  /** A text whose standard form is `t` unescapes to `t` and its padding. */
  lemma UnescapedOf(s: string, t: string)
    requires FromUrlChars(s) == t
    ensures Unescaped(s) == t + Repeat('=', 5 - |t| % 4)
  {
    assert |s| == |t|;
    UnescapedSplit(s);
  }

  lemma FromEscapedDigits(d: string)
    requires IsDigits(d)
    ensures FromUrlChars(EscapeChars(d)) == d
  {
    DigitsHaveNoPadding(d);
    EscapeAt(d);
    var u := FromUrlChars(EscapeChars(d));
    forall i | 0 <= i < |u| ensures u[i] == d[i] {
      assert Base64.IsDigit(d[i]);
    }
  }

  lemma UnescapeUrl(d: string)
    requires IsDigits(d)
    ensures Unescaped(EscapeChars(d)) == d + Repeat('=', 5 - |d| % 4)
  {
    FromEscapedDigits(d);
    UnescapedOf(EscapeChars(d), d);
  }

  /** Escaping a standard encoding and unescaping it again gives back its
      digits, now followed by `5 - L % 4` characters `=` where `L` is the
      number of digits: the original padding, however long, is replaced. */
  lemma UnescapeEscape(d: string, k: nat)
    requires IsDigits(d)
    ensures Unescaped(Escape(d + Repeat('=', k))) == d + Repeat('=', 5 - |d| % 4)
  {
    EscapeStandard(d, k);
    UnescapeUrl(d);
  }

  /** The escape/unescape round trip, with trailing `=` ignored on both
      sides, for any standard digits followed by any padding. */
  lemma UnescapeEscapeStripped(d: string, k: nat)
    requires IsDigits(d)
    ensures Base64.StripPadding(Unescaped(Escape(d + Repeat('=', k)))) == d
    ensures Base64.StripPadding(d + Repeat('=', k)) == d
  {
    var p := 5 - |d| % 4;
    var u := Unescaped(Escape(d + Repeat('=', k)));
    UnescapeEscape(d, k);
    assert u == d + Repeat('=', p);
    DigitsHaveNoPadding(d);
    assert |d| > 0 ==> d[|d| - 1] != '=';
    Base64.StripPaddingAfter(d, p);
    Base64.StripPaddingAfter(d, k);
  }

  lemma UrlDigits(d: string)
    requires IsDigits(d)
    ensures forall i :: 0 <= i < |d| ==> IsUrlDigit(ToUrl(d[i]))
  {
    forall i | 0 <= i < |d| ensures IsUrlDigit(ToUrl(d[i])) {
      assert Base64.IsDigit(d[i]);
    }
  }

  /** The escaped standard encoding of `b` is the URL-safe form of its
      digits, one character per 6-bit value. */
  lemma EscapedEncoding(b: seq<byte>)
    ensures Escape(Base64.Encode(b)) == EscapeChars(Base64.EncodeDigits(b))
    ensures |EscapeChars(Base64.EncodeDigits(b))| == |Base64.Sextets(b)|
    ensures forall i :: 0 <= i < |Base64.Sextets(b)| ==> IsUrlDigit(EscapeChars(Base64.EncodeDigits(b))[i])
  {
    var d := Base64.EncodeDigits(b);
    EscapeStandard(d, Base64.PaddingCount(|b|));
    UrlDigits(d);
  }

  /** The URL-safe encoding of bytes, as `encode` writes the signature
      segment (line 163). */
  function EncodeBytes(b: seq<byte>): (s: string)
    ensures forall i :: 0 <= i < |s| ==> IsUrlDigit(s[i])
    ensures '.' !in s
    ensures |s| % 4 != 1
    ensures |s| == 0 <==> |b| == 0
  {
    EscapedEncoding(b);
    Base64.SextetsCount(b);
    Escape(Base64.Encode(b))
  }

  /** The standard decoding of the unescaped text, as `decode` reads the
      signature segment (line 134). */
  function DecodeBytes(s: string): (r: Option<seq<byte>>)
    ensures r == Base64.Decode(FromUrlChars(s))
    ensures '=' !in s ==> r == Base64.DecodeDigits(FromUrlChars(s))
  {
    StripUnescaped(s);
    if '=' !in s then UnescapedDigits(s); Base64.Decode(Unescaped(s))
    else Base64.Decode(Unescaped(s))
  }

  /** The padding that unescaping appends is stripped again by the
      decoder, so it never changes the decoded bytes. */
  lemma StripUnescaped(s: string)
    ensures Base64.StripPadding(Unescaped(s)) == Base64.StripPadding(FromUrlChars(s))
  {
    UnescapedSplit(s);
    Base64.StripMorePadding(FromUrlChars(s), 5 - |s| % 4);
  }

  /** A segment without `=` whose length is one more than a multiple of
      four is rejected: its last digit cannot carry a whole byte. */
  lemma RejectsOneModFour(s: string)
    requires '=' !in s && |s| % 4 == 1
    ensures DecodeBytes(s).None?
  {
    UnescapedDigits(s);
  }

  /** Without `=` in the segment, the decoder sees exactly its characters
      in the standard alphabet: the appended padding is all stripped. */
  lemma UnescapedDigits(s: string)
    requires '=' !in s
    ensures Base64.StripPadding(Unescaped(s)) == FromUrlChars(s)
  {
    var t := FromUrlChars(s);
    UnescapedSplit(s);
    assert |t| == |s|;
    assert |t| > 0 ==> t[|t| - 1] == FromUrl(s[|s| - 1]) != '=';
    Base64.StripPaddingAfter(t, 5 - |s| % 4);
  }

  /** Decoding what EncodeBytes wrote gives back the bytes, although the
      padding that the unescape step appends is never the standard one. */
  lemma DecodeEncodeBytes(b: seq<byte>)
    ensures DecodeBytes(EncodeBytes(b)) == Some(b)
  {
    var d := Base64.EncodeDigits(b);
    var p := 5 - |d| % 4;
    var e := EncodeBytes(b);
    assert e == Escape(d + Repeat('=', Base64.PaddingCount(|b|)));
    UnescapeEscape(d, Base64.PaddingCount(|b|));
    var u := Unescaped(e);
    assert u == d + Repeat('=', p);
    Base64.DecodeOverPadded(b, p);
  }

  /** `base64urlEncode`: the text's bytes in the platform charset, encoded
      and escaped. */
  function EncodeText(cs: Charset, str: string): (s: string)
    ensures forall i :: 0 <= i < |s| ==> IsUrlDigit(s[i])
    ensures '.' !in s
  {
    EncodeBytes(cs.getBytes(str))
  }

  /** `base64urlDecode`: the text the decoded bytes spell in the platform
      charset; `None` where the decoder rejects the segment (the library
      then hands back no bytes and building the string fails). */
  function DecodeText(cs: Charset, str: string): (r: Option<string>)
    ensures r.Some? <==> DecodeBytes(str).Some?
    ensures r.Some? ==> r.value == cs.newString(DecodeBytes(str).value)
  {
    match DecodeBytes(str)
    case None => None
    case Some(bytes) => Some(cs.newString(bytes))
  }

  /** Decoding an encoded text gives the text back wherever the charset
      carries it without loss. */
  lemma DecodeEncodeText(cs: Charset, str: string)
    requires Lossless(cs, str)
    ensures DecodeText(cs, EncodeText(cs, str)) == Some(str)
  {
    DecodeEncodeBytes(cs.getBytes(str));
  }
}
