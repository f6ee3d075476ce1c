/** Standard base64, section 4 of RFC 4648: the encoding that
    `Base64.encodeBytes(bytes, DONT_BREAK_LINES)` produces (no line breaks),
    and a decoder that ignores any run of trailing `=`, which is the
    tolerance the token codec's over-padding relies on. Bytes are regrouped
    into 6-bit values first; the values are then written as digits. */
module Base64 {
  import opened Wrappers
  import opened Strings

  /** The value of one base64 digit. */
  type sextet = x: int | 0 <= x < 64

  /** The digits of the alphabet of section 4 of RFC 4648. */
  predicate IsDigit(c: char) {
    'A' <= c <= 'Z' || 'a' <= c <= 'z' || '0' <= c <= '9' || c == '+' || c == '/'
  }

  /** The digit for value `v` (table 1 of RFC 4648). */
  function Digit(v: sextet): (c: char)
    ensures IsDigit(c)
  {
    if v < 26 then ('A' as int + v) as char
    else if v < 52 then ('a' as int + (v - 26)) as char
    else if v < 62 then ('0' as int + (v - 52)) as char
    else if v == 62 then '+'
    else '/'
  }

  /** The value of digit `c`: the inverse of Digit. */
  function ValueOf(c: char): (v: sextet)
    requires IsDigit(c)
    ensures Digit(v) == c
  {
    if 'A' <= c <= 'Z' then c as int - 'A' as int
    else if 'a' <= c <= 'z' then c as int - 'a' as int + 26
    else if '0' <= c <= '9' then c as int - '0' as int + 52
    else if c == '+' then 62
    else 63
  }

  lemma DigitValue(v: sextet)
    ensures ValueOf(Digit(v)) == v
  {
  }

  /** The 6-bit values of `b`, three bytes to four values; a final group of
      one byte gives two values and of two bytes three, the unused low bits
      of the last value being zero. */
  function Sextets(b: seq<byte>): (vs: seq<sextet>)
    decreases |b|
  {
    if |b| == 0 then []
    else if |b| == 1 then [b[0] / 4, b[0] % 4 * 16]
    else if |b| == 2 then [b[0] / 4, b[0] % 4 * 16 + b[1] / 16, b[1] % 16 * 4]
    else [b[0] / 4, b[0] % 4 * 16 + b[1] / 16, b[1] % 16 * 4 + b[2] / 64, b[2] % 64] + Sextets(b[3..])
  }

  /** The bytes that the values `vs` carry; a last group of a single value
      cannot carry a whole byte and is rejected. */
  function Bytes(vs: seq<sextet>): (r: Option<seq<byte>>)
    ensures |vs| % 4 == 1 <==> r.None?
    decreases |vs|
  {
    if |vs| == 0 then Some([])
    else if |vs| == 1 then None
    else if |vs| == 2 then Some([High(vs[0], vs[1])])
    else if |vs| == 3 then Some([High(vs[0], vs[1]), Middle(vs[1], vs[2])])
    else
      match Bytes(vs[4..])
      case None => None
      case Some(rest) => Some([High(vs[0], vs[1]), Middle(vs[1], vs[2]), Low(vs[2], vs[3])] + rest)
  }

  /** The first byte of a group: all six bits of `v0`, the top two of `v1`. */
  function High(v0: sextet, v1: sextet): byte {
    v0 as int * 4 + v1 as int / 16
  }

  /** The second byte of a group: the low four bits of `v1`, the top four of `v2`. */
  function Middle(v1: sextet, v2: sextet): byte {
    v1 as int % 16 * 16 + v2 as int / 4
  }

  /** The third byte of a group: the low two bits of `v2`, all six of `v3`. */
  function Low(v2: sextet, v3: sextet): byte {
    v2 as int % 4 * 64 + v3 as int
  }

  /** The digits that write the values `vs`. */
  function ToDigits(vs: seq<sextet>): (s: string)
    ensures |s| == |vs|
    ensures forall i :: 0 <= i < |s| ==> IsDigit(s[i]) && s[i] == Digit(vs[i])
  {
    seq(|vs|, i requires 0 <= i < |vs| => Digit(vs[i]))
  }

  /** The values of the digits of `s`; fails on any other character. */
  function FromDigits(s: string): (r: Option<seq<sextet>>)
    ensures r.Some? <==> forall i :: 0 <= i < |s| ==> IsDigit(s[i])
    ensures r.Some? ==> |r.value| == |s| && forall i :: 0 <= i < |s| ==> r.value[i] == ValueOf(s[i])
  {
    if forall i :: 0 <= i < |s| ==> IsDigit(s[i])
    then Some(seq(|s|, i requires 0 <= i < |s| => ValueOf(s[i])))
    else None
  }

  /** The digits of the encoding of `b`, without the `=` padding. */
  function EncodeDigits(b: seq<byte>): (s: string)
    ensures forall i :: 0 <= i < |s| ==> IsDigit(s[i])
  {
    ToDigits(Sextets(b))
  }

  /** How many `=` complete the last group of `n` bytes to four characters. */
  function PaddingCount(n: nat): (k: nat)
    ensures k <= 2
    ensures (n + k) % 3 == 0
  {
    if n % 3 == 1 then 2 else if n % 3 == 2 then 1 else 0
  }

  /** The standard encoding with padding, as the library writes it. */
  function Encode(b: seq<byte>): (s: string)
    ensures |s| % 4 == 0 && |s| == (|b| + 2) / 3 * 4
    ensures forall i :: 0 <= i < |s| ==> IsDigit(s[i]) || s[i] == '='
    ensures '.' !in s
  {
    SextetsLength(b);
    EncodeDigits(b) + Repeat('=', PaddingCount(|b|))
  }

  /** Known answers: the test vectors of section 10 of RFC 4648 for "f",
      "fo", "foo" and "foobar" (two groups, in order), and two bytes whose digits are the last two of the
      alphabet, which fixes `+` as 62 and `/` as 63. */
  lemma KnownAnswers()
    ensures Encode([102]) == "Zg=="
    ensures Encode([102, 111]) == "Zm8="
    ensures Encode([102, 111, 111]) == "Zm9v"
    ensures Encode([0xfb, 0xff]) == "+/8="
    ensures Encode([102, 111, 111, 98, 97, 114]) == "Zm9vYmFy"
  {
    assert Sextets([102]) == [25, 32];
    assert Sextets([102, 111]) == [25, 38, 60];
    assert Sextets([102, 111, 111]) == [25, 38, 61, 47] by {
      assert [102, 111, 111][3..] == [];
    }
    assert Sextets([0xfb, 0xff]) == [62, 63, 60];
    var foobar: seq<byte> := [102, 111, 111, 98, 97, 114];
    assert Sextets(foobar) == [25, 38, 61, 47, 24, 38, 5, 50] by {
      assert foobar[3..] == [98, 97, 114];
      assert Sextets([98, 97, 114]) == [24, 38, 5, 50] by {
        assert [98, 97, 114][3..] == [];
      }
    }
  }

  /** `s` with its trailing run of `=` removed. */
  function StripPadding(s: string): (r: string)
    ensures r <= s
    ensures |r| > 0 ==> r[|r| - 1] != '='
    ensures forall i :: |r| <= i < |s| ==> s[i] == '='
  {
    if |s| > 0 && s[|s| - 1] == '=' then StripPadding(s[..|s| - 1]) else s
  }

  /** Decodes unpadded digits. */
  function DecodeDigits(s: string): (r: Option<seq<byte>>)
    ensures |s| % 4 == 1 ==> r.None?
  {
    match FromDigits(s)
    case None => None
    case Some(vs) => Bytes(vs)
  }

  /** The decoder behind `Base64.decode(s, DONT_BREAK_LINES)` as the model
      takes it: any number of trailing `=` is accepted and ignored, and a
      character outside the alphabet, or digits whose count leaves a
      remainder of one modulo four, make it fail. */
  function Decode(s: string): (r: Option<seq<byte>>)
    ensures |StripPadding(s)| % 4 == 1 ==> r.None?
  {
    DecodeDigits(StripPadding(s))
  }

  lemma {:induction false} SextetsLength(b: seq<byte>)
    ensures |Sextets(b)| == |b| / 3 * 4 + (if |b| % 3 == 0 then 0 else |b| % 3 + 1)
    decreases |b|
  {
    if |b| >= 3 {
      SextetsLength(b[3..]);
    }
  }

  /** An encoding never leaves a single digit in its last group, and it is
      empty exactly when there are no bytes. */
  lemma {:induction false} SextetsCount(b: seq<byte>)
    ensures |Sextets(b)| % 4 != 1
    ensures |Sextets(b)| == 0 <==> |b| == 0
    decreases |b|
  {
    if |b| >= 3 {
      SextetsCount(b[3..]);
    }
  }

  /** The three bytes of a group, regrouped from its four values. */
  lemma GroupBytes(b0: byte, b1: byte, b2: byte)
    ensures High(b0 / 4, b0 % 4 * 16 + b1 / 16) == b0
    ensures Middle(b0 % 4 * 16 + b1 / 16, b1 % 16 * 4 + b2 / 64) == b1
    ensures Low(b1 % 16 * 4 + b2 / 64, b2 % 64) == b2
  {
  }

  /** Four values in front of others carry their group's three bytes in
      front of the others' bytes. */
  lemma BytesOfGroup(g: seq<sextet>, rest: seq<sextet>, r: seq<byte>)
    requires |g| == 4 && Bytes(rest) == Some(r)
    ensures Bytes(g + rest) == Some([High(g[0], g[1]), Middle(g[1], g[2]), Low(g[2], g[3])] + r)
  {
    var vs := g + rest;
    assert vs[4..] == rest;
    assert vs[0] == g[0] && vs[1] == g[1] && vs[2] == g[2] && vs[3] == g[3];
  }

  /** A final group of one byte. */
  lemma BytesOfOne(b0: byte)
    ensures Bytes(Sextets([b0])) == Some([b0])
  {
    GroupBytes(b0, 0, 0);
  }

  /** A final group of two bytes. */
  lemma BytesOfTwo(b0: byte, b1: byte)
    ensures Bytes(Sextets([b0, b1])) == Some([b0, b1])
  {
    var v0: sextet, v1: sextet, v2: sextet := b0 / 4, b0 % 4 * 16 + b1 / 16, b1 % 16 * 4;
    assert Sextets([b0, b1]) == [v0, v1, v2];
    GroupBytes(b0, b1, 0);
    assert High(v0, v1) == b0 && Middle(v1, v2) == b1;
  }

  /** Regrouping the 6-bit values of `b` gives `b` back. */
  lemma {:induction false} BytesOfSextets(b: seq<byte>)
    ensures Bytes(Sextets(b)) == Some(b)
    decreases |b|
  {
    if |b| == 1 {
      assert b == [b[0]];
      BytesOfOne(b[0]);
    } else if |b| == 2 {
      assert b == [b[0], b[1]];
      BytesOfTwo(b[0], b[1]);
    } else if |b| >= 3 {
      var g: seq<sextet> := [b[0] / 4, b[0] % 4 * 16 + b[1] / 16, b[1] % 16 * 4 + b[2] / 64, b[2] % 64];
      var rest := Sextets(b[3..]);
      assert Sextets(b) == g + rest;
      BytesOfSextets(b[3..]);
      BytesOfGroup(g, rest, b[3..]);
      GroupBytes(b[0], b[1], b[2]);
      assert [b[0], b[1], b[2]] + b[3..] == b;
    }
  }

  lemma FromToDigits(vs: seq<sextet>)
    ensures FromDigits(ToDigits(vs)) == Some(vs)
  {
    var s := ToDigits(vs);
    forall i | 0 <= i < |vs|
      ensures ValueOf(s[i]) == vs[i]
    {
      DigitValue(vs[i]);
    }
    assert FromDigits(s).Some?;
    assert FromDigits(s).value == vs;
  }

  /** Decoding the digits of an encoding gives back the bytes. */
  lemma DecodeEncodeDigits(b: seq<byte>)
    ensures DecodeDigits(EncodeDigits(b)) == Some(b)
  {
    FromToDigits(Sextets(b));
    BytesOfSextets(b);
  }

  lemma {:induction false} StripPaddingAfter(t: string, k: nat)
    requires |t| == 0 || t[|t| - 1] != '='
    ensures StripPadding(t + Repeat('=', k)) == t
  {
    if k > 0 {
      assert (t + Repeat('=', k))[..|t| + k - 1] == t + Repeat('=', k - 1);
      StripPaddingAfter(t, k - 1);
    } else {
      assert t + Repeat('=', k) == t;
    }
  }

  /** More `=` after a text change nothing once the padding is stripped. */
  lemma {:induction false} StripMorePadding(t: string, k: nat)
    ensures StripPadding(t + Repeat('=', k)) == StripPadding(t)
  {
    if k > 0 {
      assert (t + Repeat('=', k))[..|t| + k - 1] == t + Repeat('=', k - 1);
      StripMorePadding(t, k - 1);
    } else {
      assert t + Repeat('=', k) == t;
    }
  }

  /** However many `=` follow the digits of an encoding, the decoder
      returns the encoded bytes. */
  lemma DecodeOverPadded(b: seq<byte>, k: nat)
    ensures Decode(EncodeDigits(b) + Repeat('=', k)) == Some(b)
  {
    var t := EncodeDigits(b);
    assert |t| > 0 ==> IsDigit(t[|t| - 1]);
    StripPaddingAfter(t, k);
    DecodeEncodeDigits(b);
  }

  /** The standard round trip. */
  lemma DecodeEncode(b: seq<byte>)
    ensures Decode(Encode(b)) == Some(b)
  {
    DecodeOverPadded(b, PaddingCount(|b|));
  }
}
