/**
 * The string and byte renderings the vault relies on: `String.prototype.split`
 * with a one-character separator, `startsWith`, the decimal rendering of a
 * millisecond timestamp, and `Buffer.toString('hex')`.
 */
module Text {

  /** One octet, as a Node.js `Buffer` holds it. */
  newtype byte = x: int | 0 <= x < 256

  /** `s.startsWith(prefix)`: case-sensitive, character by character. */
  predicate StartsWith(s: string, prefix: string)
  {
    |prefix| <= |s| && s[..|prefix|] == prefix
  }

  /** Number of occurrences of `c` in `s`. */
  function Count(s: string, c: char): nat
  {
    if s == [] then 0 else (if s[0] == c then 1 else 0) + Count(s[1..], c)
  }

  // ---------------------------------------------------------------------
  // split / join

  /** `s.split(sep)` for a one-character separator: every occurrence of `sep`
      ends a segment, so adjacent separators give empty segments. */
  function Split(s: string, sep: char): (parts: seq<string>)
    ensures |parts| == Count(s, sep) + 1
    ensures forall i :: 0 <= i < |parts| ==> sep !in parts[i]
    decreases |s|
  {
    if s == [] then [""]
    else if s[0] == sep then [""] + Split(s[1..], sep)
    else
      var rest := Split(s[1..], sep);
      [[s[0]] + rest[0]] + rest[1..]
  }

  /** `parts.join(sep)`. */
  function Join(parts: seq<string>, sep: char): string
    requires |parts| >= 1
    decreases |parts|
  {
    if |parts| == 1 then parts[0] else parts[0] + [sep] + Join(parts[1..], sep)
  }

  /** Joining the segments again gives back the split string. */
  lemma {:induction false} JoinSplit(s: string, sep: char)
    ensures Join(Split(s, sep), sep) == s
    decreases |s|
  {
    if s == [] {
    } else if s[0] == sep {
      var rest := Split(s[1..], sep);
      JoinSplit(s[1..], sep);
      assert ([""] + rest)[1..] == rest;
      assert s == [sep] + s[1..];
    } else {
      var rest := Split(s[1..], sep);
      JoinSplit(s[1..], sep);
      var parts := [[s[0]] + rest[0]] + rest[1..];
      assert parts[1..] == rest[1..];
      if |rest| == 1 {
        assert s == [s[0]] + s[1..];
      } else {
        assert Join(rest, sep) == rest[0] + [sep] + Join(rest[1..], sep);
        assert s == [s[0]] + s[1..];
      }
    }
  }

  /** The part of `s` before the first `c` (all of `s` when there is none). */
  function TakeUntil(s: string, c: char): (t: string)
    ensures |t| <= |s| && t == s[..|t|]
    ensures c !in t
    ensures |t| < |s| ==> s[|t|] == c
  {
    if s == [] || s[0] == c then [] else [s[0]] + TakeUntil(s[1..], c)
  }

  /** A string without `c` holds no occurrence of it. */
  lemma {:induction false} CountAbsent(s: string, c: char)
    requires c !in s
    ensures Count(s, c) == 0
    decreases |s|
  {
    if s != [] {
      assert c !in s[1..];
      CountAbsent(s[1..], c);
    }
  }

  /** A separator-free head is exactly the text before the first separator. */
  lemma {:induction false} TakeUntilHead(head: string, c: char, tail: string)
    requires c !in head
    ensures TakeUntil(head + [c] + tail, c) == head
    decreases |head|
  {
    var s := head + [c] + tail;
    if head != [] {
      assert s[1..] == head[1..] + [c] + tail;
      TakeUntilHead(head[1..], c, tail);
      assert [head[0]] + head[1..] == head;
    }
  }

  /** Cutting at the first separator is unambiguous: separator-free heads
      followed by a separator agree, and so do the tails. */
  lemma SameHeadSameTail(h1: string, t1: string, h2: string, t2: string, c: char)
    requires c !in h1 && c !in h2
    requires h1 + [c] + t1 == h2 + [c] + t2
    ensures h1 == h2 && t1 == t2
  {
    TakeUntilHead(h1, c, t1);
    TakeUntilHead(h2, c, t2);
    var s := h1 + [c] + t1;
    assert t1 == s[|h1| + 1..];
  }

  /** The first segment of a split is the text before the first separator. */
  lemma {:induction false} SplitFirst(s: string, sep: char)
    ensures Split(s, sep)[0] == TakeUntil(s, sep)
    decreases |s|
  {
    if s != [] && s[0] != sep {
      SplitFirst(s[1..], sep);
    }
  }

  /** A string that begins with a separator-free `head` and a separator splits
      into `head` followed by the segments of the remainder. */
  lemma {:induction false} SplitAfterHead(head: string, sep: char, tail: string)
    requires sep !in head
    ensures Split(head + [sep] + tail, sep) == [head] + Split(tail, sep)
    decreases |head|
  {
    var s := head + [sep] + tail;
    if head == [] {
      assert s[1..] == tail;
    } else {
      assert s[1..] == head[1..] + [sep] + tail;
      SplitAfterHead(head[1..], sep, tail);
      assert [head[0]] + head[1..] == head;
    }
  }

  // ---------------------------------------------------------------------
  // decimal rendering of a non-negative integer (`${n}` for an integral Number)

  predicate IsDigit(c: char) { '0' <= c <= '9' }

  function DigitChar(d: nat): (c: char)
    requires d < 10
    ensures IsDigit(c)
  {
    ('0' as int + d) as char
  }

  function DigitValue(c: char): (d: nat)
    requires IsDigit(c)
    ensures d < 10
  {
    c as int - '0' as int
  }

  predicate AllDigits(s: string)
  {
    forall i :: 0 <= i < |s| ==> IsDigit(s[i])
  }

  /** Shortest decimal rendering: digits only, never empty, no leading zero. */
  function DecimalString(n: nat): (s: string)
    ensures |s| >= 1 && AllDigits(s)
    ensures |s| > 1 ==> s[0] != '0'
  {
    if n < 10 then [DigitChar(n)] else DecimalString(n / 10) + [DigitChar(n % 10)]
  }

  /** The value a string of decimal digits denotes. */
  function ParseDecimal(s: string): nat
    requires AllDigits(s)
  {
    if s == [] then 0 else 10 * ParseDecimal(s[..|s| - 1]) + DigitValue(s[|s| - 1])
  }

  /** Reading the rendering back gives the number: the rendering loses nothing. */
  lemma {:induction false} ParseDecimalString(n: nat)
    ensures ParseDecimal(DecimalString(n)) == n
  {
    var s := DecimalString(n);
    if n < 10 {
      assert s[..|s| - 1] == [];
    } else {
      assert s[..|s| - 1] == DecimalString(n / 10);
      ParseDecimalString(n / 10);
    }
  }

  /** Two instants with the same rendering are the same instant. */
  lemma DecimalStringInjective(m: nat, n: nat)
    requires DecimalString(m) == DecimalString(n)
    ensures m == n
  {
    ParseDecimalString(m);
    ParseDecimalString(n);
  }

  // ---------------------------------------------------------------------
  // lower-case hexadecimal (`buf.toString('hex')`)

  predicate IsHexChar(c: char) { '0' <= c <= '9' || 'a' <= c <= 'f' }

  predicate IsHex(s: string)
  {
    forall i :: 0 <= i < |s| ==> IsHexChar(s[i])
  }

  function HexChar(d: nat): (c: char)
    requires d < 16
    ensures IsHexChar(c)
  {
    if d < 10 then ('0' as int + d) as char else ('a' as int + d - 10) as char
  }

  function HexValue(c: char): (d: nat)
    requires IsHexChar(c)
    ensures d < 16
  {
    if c <= '9' then c as int - '0' as int else c as int - 'a' as int + 10
  }

  /** Two lower-case hex digits per byte, high nibble first. */
  function Hex(bs: seq<byte>): (s: string)
    ensures |s| == 2 * |bs|
    ensures IsHex(s)
  {
    if bs == [] then []
    else [HexChar(bs[0] as int / 16), HexChar(bs[0] as int % 16)] + Hex(bs[1..])
  }

  /** `Buffer.from(s, 'hex')` on a well-formed hex string. */
  function UnHex(s: string): seq<byte>
    requires |s| % 2 == 0 && IsHex(s)
    decreases |s|
  {
    if s == [] then []
    else [(16 * HexValue(s[0]) + HexValue(s[1])) as byte] + UnHex(s[2..])
  }

  /** Decoding the hex rendering gives back the bytes. */
  lemma {:induction false} UnHexHex(bs: seq<byte>)
    ensures UnHex(Hex(bs)) == bs
  {
    if bs != [] {
      var s := Hex(bs);
      var hi, lo := bs[0] as int / 16, bs[0] as int % 16;
      assert s[0] == HexChar(hi) && s[1] == HexChar(lo);
      assert HexValue(HexChar(hi)) == hi;
      assert HexValue(HexChar(lo)) == lo;
      assert s[2..] == Hex(bs[1..]);
      UnHexHex(bs[1..]);
    }
  }

  /** Distinct random draws give distinct hex strings. */
  lemma HexInjective(a: seq<byte>, b: seq<byte>)
    requires Hex(a) == Hex(b)
    ensures a == b
  {
    UnHexHex(a);
    UnHexHex(b);
  }
}
