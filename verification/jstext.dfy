/** The handful of JavaScript string built-ins the fetcher relies on:
    `String.prototype.split` and `Array.prototype.join` with a one-character
    separator, `toLowerCase` as far as it matters for ASCII text, `indexOf`
    as a prefix test, and `TextEncoder.encode` (UTF-8). */
module JsText {
  import opened Base

  /** `parts.join(sep)`; the empty array joins to the empty string. */
  function Join(parts: seq<string>, sep: char): string
  {
    if |parts| == 0 then ""
    else if |parts| == 1 then parts[0]
    else parts[0] + [sep] + Join(parts[1..], sep)
  }

  /** `s.split(sep)`: the maximal separator-free pieces of `s`, in order.
      Splitting never yields an empty array (`"".split("/")` is `[""]`). */
  function Split(s: string, sep: char): (parts: seq<string>)
    ensures |parts| >= 1
    ensures forall i :: 0 <= i < |parts| ==> sep !in parts[i]
    ensures Join(parts, sep) == s
    decreases |s|
  {
    if |s| == 0 then [""]
    else
      var rest := Split(s[1..], sep);
      if s[0] == sep then
        assert s == [sep] + s[1..];
        [""] + rest
      else
        var first := [s[0]] + rest[0];
        assert first[1..] == rest[0];
        assert s == [s[0]] + s[1..];
        if |rest| == 1 then [first]
        else
          assert rest == [rest[0]] + rest[1..];
          [first] + rest[1..]
  }

  /** A string without the separator splits into itself alone. */
  lemma {:induction false} SplitNoSeparator(s: string, sep: char)
    requires sep !in s
    ensures Split(s, sep) == [s]
    decreases |s|
  {
    if |s| > 0 {
      SplitNoSeparator(s[1..], sep);
      assert [s[0]] + s[1..] == s;
    }
  }

  /** Splitting distributes over a separator: the pieces of `a + sep + b`
      are the pieces of `a` followed by the pieces of `b`. */
  lemma {:induction false} SplitAppend(a: string, b: string, sep: char)
    ensures Split(a + [sep] + b, sep) == Split(a, sep) + Split(b, sep)
    decreases |a|
  {
    var s := a + [sep] + b;
    if |a| == 0 {
      assert s[0] == sep && s[1..] == b;
    } else {
      assert s[0] == a[0];
      assert s[1..] == a[1..] + [sep] + b;
      SplitAppend(a[1..], b, sep);
    }
  }

  /** Joining separator-free pieces and splitting again gives the pieces back;
      with `Split`'s own contract this makes the two mutual inverses. */
  lemma {:induction false} SplitJoin(parts: seq<string>, sep: char)
    requires |parts| >= 1
    requires forall i :: 0 <= i < |parts| ==> sep !in parts[i]
    ensures Split(Join(parts, sep), sep) == parts
    decreases |parts|
  {
    if |parts| == 1 {
      SplitNoSeparator(parts[0], sep);
    } else {
      SplitJoin(parts[1..], sep);
      SplitNoSeparator(parts[0], sep);
      SplitAppend(parts[0], Join(parts[1..], sep), sep);
      assert parts == [parts[0]] + parts[1..];
    }
  }

  /** `s.indexOf(p) === 0`: `p` occurs at position 0 of `s`. */
  predicate StartsWith(s: string, p: string)
  {
    |p| <= |s| && s[..|p|] == p
  }

  /** `s.indexOf(needle) > -1`: `needle` occurs somewhere in `s`. */
  predicate Contains(s: string, needle: string)
  {
    exists i | 0 <= i <= |s| - |needle| :: OccursAt(s, needle, i)
  }

  predicate OccursAt(s: string, needle: string, i: int)
  {
    0 <= i <= |s| - |needle| && s[i..i + |needle|] == needle
  }

  /** `Array.prototype.indexOf`: the first position holding a strictly equal
      value, or -1. */
  function IndexOf<T(==)>(list: seq<T>, v: T): (i: int)
    ensures -1 <= i < |list|
    ensures i >= 0 ==> list[i] == v && forall j :: 0 <= j < i ==> list[j] != v
    ensures i == -1 ==> v !in list
  {
    if |list| == 0 then -1
    else if list[0] == v then 0
    else var i := IndexOf(list[1..], v); if i == -1 then -1 else i + 1
  }

  /** `toLowerCase` on one character, restricted to the ASCII letters.
      No character outside 'A'..'Z' lower-cases to '.', 't' or 's', so for
      the ".ts" test below this fold decides exactly what the full Unicode
      mapping decides. */
  function LowerAscii(c: char): char
  {
    if 'A' <= c <= 'Z' then (c as int + 32) as char else c
  }

  /** The UTF-8 encoding of one Unicode scalar value. */
  function Utf8Char(c: char): (bs: Bytes)
  {
    var n := c as int;
    if n < 0x80 then [n]
    else if n < 0x800 then [0xC0 + n / 64, 0x80 + n % 64]
    else if n < 0x10000 then [0xE0 + n / 4096, 0x80 + (n / 64) % 64, 0x80 + n % 64]
    else [0xF0 + n / 262144, 0x80 + (n / 4096) % 64, 0x80 + (n / 64) % 64, 0x80 + n % 64]
  }

  /** `new TextEncoder().encode(s)`. */
  function Utf8Encode(s: string): Bytes
  {
    if |s| == 0 then [] else Utf8Char(s[0]) + Utf8Encode(s[1..])
  }

  predicate IsAscii(s: string)
  {
    forall i :: 0 <= i < |s| ==> (s[i] as int) < 0x80
  }

  /** Each character takes one to four bytes, and exactly one when it is ASCII. */
  lemma Utf8CharLength(c: char)
    ensures 1 <= |Utf8Char(c)| <= 4
    ensures |Utf8Char(c)| == 1 <==> (c as int) < 0x80
    ensures (c as int) < 0x80 ==> Utf8Char(c) == [c as int]
    ensures (c as int) >= 0x80 ==> forall i :: 0 <= i < |Utf8Char(c)| ==> Utf8Char(c)[i] >= 0x80
  {
  }

  /** The encoded text is never shorter than the text, and is exactly as long
      precisely when the text is ASCII; then every byte is the character code. */
  lemma {:induction false} Utf8EncodeLength(s: string)
    ensures |Utf8Encode(s)| >= |s|
    ensures |Utf8Encode(s)| == |s| <==> IsAscii(s)
    ensures IsAscii(s) ==> forall i :: 0 <= i < |s| ==> Utf8Encode(s)[i] == s[i] as int
    decreases |s|
  {
    if |s| > 0 {
      Utf8EncodeLength(s[1..]);
      Utf8CharLength(s[0]);
      var tail := Utf8Encode(s[1..]);
      assert Utf8Encode(s) == Utf8Char(s[0]) + tail;
      if IsAscii(s) {
        assert IsAscii(s[1..]) by {
          forall i | 0 <= i < |s| - 1 ensures (s[1..][i] as int) < 0x80 {
            assert s[1..][i] == s[i + 1];
          }
        }
        forall i | 0 <= i < |s| ensures Utf8Encode(s)[i] == s[i] as int {
          if i > 0 {
            assert Utf8Encode(s)[i] == tail[i - 1];
            assert s[1..][i - 1] == s[i];
          }
        }
      } else {
        var j :| 0 <= j < |s| && (s[j] as int) >= 0x80;
        if j == 0 {
          assert |Utf8Char(s[0])| >= 2;
        } else {
          assert s[1..][j - 1] == s[j];
          assert !IsAscii(s[1..]);
        }
      }
    }
  }
}
