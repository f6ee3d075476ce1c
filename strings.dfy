/** The java.lang.String operations that the token codec relies on, on
    `seq<char>`: `replaceAll` with a one-character literal pattern, `split`
    on a one-character separator, and the platform charset behind
    `getBytes()` and `new String(byte[])`. */
module Strings {

  /** A byte of a Java `byte[]`, read as unsigned. */
  type byte = x: int | 0 <= x < 256

  /** The platform charset: `String.getBytes()` and `new String(byte[])`.
      It is foreign code, so the model takes it as a parameter; the round
      trips that need it to be lossless say so in their preconditions. */
  datatype Charset = Charset(getBytes: string -> seq<byte>, newString: seq<byte> -> string)

  /** `s` survives a trip through the charset's bytes. */
  ghost predicate Lossless(cs: Charset, s: string) {
    cs.newString(cs.getBytes(s)) == s
  }

  /** Number of occurrences of `c` in `s`. */
  function Count(s: string, c: char): (n: nat)
    ensures n <= |s|
    ensures n == 0 <==> c !in s
  {
    if s == [] then 0 else (if s[0] == c then 1 else 0) + Count(s[1..], c)
  }

  lemma {:induction false} CountAppend(a: string, b: string, c: char)
    ensures Count(a + b, c) == Count(a, c) + Count(b, c)
  {
    if a != [] {
      assert (a + b)[1..] == a[1..] + b;
      CountAppend(a[1..], b, c);
    } else {
      assert a + b == b;
    }
  }

  /** `s.replaceAll(from, to)` for one-character literal patterns: every
      `from` becomes `to`, every other character stays where it was. */
  function Replace(s: string, from: char, to: char): (r: string)
    ensures |r| == |s|
    ensures forall i :: 0 <= i < |s| ==> r[i] == if s[i] == from then to else s[i]
  {
    if s == [] then [] else [if s[0] == from then to else s[0]] + Replace(s[1..], from, to)
  }

  lemma {:induction false} ReplaceAppend(a: string, b: string, from: char, to: char)
    ensures Replace(a + b, from, to) == Replace(a, from, to) + Replace(b, from, to)
  {
    if a != [] {
      assert (a + b)[1..] == a[1..] + b;
      ReplaceAppend(a[1..], b, from, to);
    } else {
      assert a + b == b;
    }
  }

  lemma {:induction false} ReplaceAbsent(s: string, from: char, to: char)
    requires from !in s
    ensures Replace(s, from, to) == s
  {
    if s != [] {
      ReplaceAbsent(s[1..], from, to);
    }
  }

  /** `s.replaceAll(c, "")`: every `c` deleted, the rest kept in order. */
  function RemoveAll(s: string, c: char): (r: string)
    ensures c !in r
    ensures |r| == |s| - Count(s, c)
    ensures forall x :: x in r ==> x in s
  {
    if s == [] then [] else (if s[0] == c then [] else [s[0]]) + RemoveAll(s[1..], c)
  }

  lemma {:induction false} RemoveAllAbsent(s: string, c: char)
    requires c !in s
    ensures RemoveAll(s, c) == s
  {
    if s != [] {
      RemoveAllAbsent(s[1..], c);
    }
  }

  lemma {:induction false} RemoveAllAppend(a: string, b: string, c: char)
    ensures RemoveAll(a + b, c) == RemoveAll(a, c) + RemoveAll(b, c)
  {
    if a != [] {
      assert (a + b)[1..] == a[1..] + b;
      RemoveAllAppend(a[1..], b, c);
    } else {
      assert a + b == b;
    }
  }

  /** `n` copies of `c`. */
  function Repeat(c: char, n: nat): (r: string)
    ensures |r| == n
    ensures forall i :: 0 <= i < n ==> r[i] == c
  {
    if n == 0 then [] else Repeat(c, n - 1) + [c]
  }

  /** `n` empty strings. */
  function Empties(n: nat): (r: seq<string>)
    ensures |r| == n
    ensures forall i :: 0 <= i < n ==> r[i] == []
  {
    seq(n, _ => [])
  }

  /** No part contains `sep`. */
  predicate Separable(parts: seq<string>, sep: char) {
    forall i :: 0 <= i < |parts| ==> sep !in parts[i]
  }

  /** Every piece of `s` between occurrences of `sep`, empty ones included:
      what Java's splitting loop collects before it trims the result. */
  function Pieces(s: string, sep: char): (parts: seq<string>)
    ensures |parts| == Count(s, sep) + 1
    ensures Separable(parts, sep)
  {
    if s == [] then [[]]
    else
      var rest := Pieces(s[1..], sep);
      if s[0] == sep then [[]] + rest else [[s[0]] + rest[0]] + rest[1..]
  }

  /** The parts written one after the other with `sep` between them. */
  function Join(parts: seq<string>, sep: char): string
    requires |parts| > 0
  {
    if |parts| == 1 then parts[0] else parts[0] + [sep] + Join(parts[1..], sep)
  }

  /** Drops the empty strings at the end of `parts` (Java's limit-0 rule). */
  function DropTrailingEmpty(parts: seq<string>): (r: seq<string>)
    ensures r <= parts
    ensures |r| > 0 ==> r[|r| - 1] != []
    ensures forall i :: |r| <= i < |parts| ==> parts[i] == []
  {
    if |parts| > 0 && parts[|parts| - 1] == [] then DropTrailingEmpty(parts[..|parts| - 1]) else parts
  }

  /** `s.split(regex)` where the regex matches exactly the character `sep`:
      without a match the result is `[s]` (so `""` splits into one empty
      part); otherwise it is the pieces between separators with the trailing
      empty ones removed. */
  function Split(s: string, sep: char): (parts: seq<string>)
    ensures Separable(parts, sep)
    ensures |parts| <= Count(s, sep) + 1
    ensures sep !in s ==> parts == [s]
  {
    if sep !in s then [s] else DropTrailingEmpty(Pieces(s, sep))
  }

  lemma {:induction false} PiecesWithoutSep(a: string, sep: char)
    requires sep !in a
    ensures Pieces(a, sep) == [a]
  {
    if a != [] {
      PiecesWithoutSep(a[1..], sep);
      assert [a[0]] + a[1..] == a;
    }
  }

  lemma {:induction false} PiecesAfterSep(a: string, b: string, sep: char)
    requires sep !in a
    ensures Pieces(a + [sep] + b, sep) == [a] + Pieces(b, sep)
  {
    var s := a + [sep] + b;
    if a == [] {
      assert s[0] == sep && s[1..] == b;
    } else {
      assert s[0] == a[0] && s[1..] == a[1..] + [sep] + b;
      PiecesAfterSep(a[1..], b, sep);
      assert [a[0]] + a[1..] == a;
    }
  }

  lemma {:induction false} PiecesOfRepeat(sep: char, k: nat)
    ensures Pieces(Repeat(sep, k), sep) == Empties(k + 1)
  {
    if k > 0 {
      RepeatFront(sep, k);
      var empty: string := [];
      assert Repeat(sep, k) == empty + [sep] + Repeat(sep, k - 1);
      PiecesAfterSep(empty, Repeat(sep, k - 1), sep);
      PiecesOfRepeat(sep, k - 1);
      assert [empty] + Empties(k) == Empties(k + 1);
    } else {
      assert Repeat(sep, k) == [];
    }
  }

  lemma {:induction false} PiecesOfLast(a: string, sep: char, k: nat)
    requires sep !in a
    ensures Pieces(a + Repeat(sep, k), sep) == [a] + Empties(k)
  {
    if k == 0 {
      assert a + Repeat(sep, k) == a;
      PiecesWithoutSep(a, sep);
      assert [a] + Empties(k) == [a];
    } else {
      RepeatFront(sep, k);
      assert a + Repeat(sep, k) == a + [sep] + Repeat(sep, k - 1);
      PiecesAfterSep(a, Repeat(sep, k - 1), sep);
      PiecesOfRepeat(sep, k - 1);
    }
  }

  /** Splitting back what Join built (followed by `k` more separators)
      yields the original parts, with `k` empty strings at the end. */
  lemma {:induction false} PiecesOfJoin(parts: seq<string>, sep: char, k: nat)
    requires |parts| > 0 && Separable(parts, sep)
    ensures Pieces(Join(parts, sep) + Repeat(sep, k), sep) == parts + Empties(k)
  {
    if |parts| == 1 {
      assert Join(parts, sep) == parts[0];
      PiecesOfLast(parts[0], sep, k);
      assert [parts[0]] == parts;
    } else {
      var tail := Join(parts[1..], sep) + Repeat(sep, k);
      assert Join(parts, sep) + Repeat(sep, k) == parts[0] + [sep] + tail;
      PiecesAfterSep(parts[0], tail, sep);
      PiecesOfJoin(parts[1..], sep, k);
      assert [parts[0]] + parts[1..] == parts;
    }
  }

  lemma {:induction false} RepeatFront(c: char, n: nat)
    requires n > 0
    ensures Repeat(c, n) == [c] + Repeat(c, n - 1)
  {
    if n > 1 {
      RepeatFront(c, n - 1);
    }
  }

  lemma {:induction false} DropEmpties(parts: seq<string>, k: nat)
    requires |parts| > 0 && parts[|parts| - 1] != []
    ensures DropTrailingEmpty(parts + Empties(k)) == parts
  {
    if k > 0 {
      var longer := parts + Empties(k);
      assert longer[..|longer| - 1] == parts + Empties(k - 1);
      DropEmpties(parts, k - 1);
    } else {
      assert parts + Empties(k) == parts;
    }
  }

  lemma {:induction false} DropAllEmpty(n: nat)
    ensures DropTrailingEmpty(Empties(n)) == []
  {
    if n > 0 {
      assert Empties(n)[..n - 1] == Empties(n - 1);
      DropAllEmpty(n - 1);
    }
  }

  /** A text made only of separators splits into no parts at all, since
      every piece is empty and trailing empty pieces are dropped. */
  lemma SplitSeparators(sep: char, n: nat)
    requires n > 0
    ensures Split(Repeat(sep, n), sep) == []
  {
    assert Repeat(sep, n)[0] == sep;
    PiecesOfRepeat(sep, n);
    DropAllEmpty(n + 1);
  }

  lemma JoinTwo(a: string, b: string, sep: char)
    ensures Join([a, b], sep) == a + [sep] + b
  {
    assert [a, b][1..] == [b];
  }

  lemma JoinThree(a: string, b: string, c: string, sep: char)
    ensures Join([a, b, c], sep) == a + [sep] + b + [sep] + c
  {
    assert [a, b, c][1..] == [b, c];
    JoinTwo(b, c, sep);
  }

  /** Java's split undoes a join whose last part is not empty, even when
      extra separators follow it: `"a.b.c."` splits into `["a", "b", "c"]`,
      and `"a.b."` into `["a", "b"]`. */
  lemma SplitJoin(parts: seq<string>, sep: char, k: nat)
    requires |parts| > 0 && Separable(parts, sep)
    requires parts[|parts| - 1] != []
    ensures Split(Join(parts, sep) + Repeat(sep, k), sep) == parts
  {
    var s := Join(parts, sep) + Repeat(sep, k);
    PiecesOfJoin(parts, sep, k);
    DropEmpties(parts, k);
    if sep !in s {
      assert Count(s, sep) == 0;
      assert |parts| + k == 1;
      assert Repeat(sep, k) == [] && s == Join(parts, sep) == parts[0];
    }
  }
}
