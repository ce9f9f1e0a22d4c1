/** String utilities with Python semantics: `sep.join(parts)`, `s.split(sep)`,
    `str(n)` for a non-negative int and `bytes.hex()`. */
module Text {
  import opened Base

  /** Python's `sep.join(parts)`; the join of no parts is the empty string. */
  function Join(parts: seq<string>, sep: char): string
    decreases |parts|
  {
    if |parts| == 0 then ""
    else if |parts| == 1 then parts[0]
    else parts[0] + [sep] + Join(parts[1..], sep)
  }

  /** Python's `s.split(sep)` for a one-character separator: never empty, no piece
      holds the separator, and joining the pieces gives back `s`. */
  function Split(s: string, sep: char): (parts: seq<string>)
    ensures |parts| >= 1
    ensures forall i :: 0 <= i < |parts| ==> sep !in parts[i]
    ensures Join(parts, sep) == s
    decreases |s|
  {
    if |s| == 0 then [""]
    else if s[0] == sep then
      var rest := Split(s[1..], sep);
      assert [sep] + Join(rest, sep) == s;
      [""] + rest
    else
      var rest := Split(s[1..], sep);
      var parts := [[s[0]] + rest[0]] + rest[1..];
      assert Join(parts, sep) == [s[0]] + Join(rest, sep) by {
        if |rest| > 1 {
          assert rest == [rest[0]] + rest[1..];
        }
      }
      parts
  }

  /** A string free of the separator splits into itself alone. */
  lemma {:induction false} SplitNoSep(a: string, sep: char)
    requires sep !in a
    ensures Split(a, sep) == [a]
    decreases |a|
  {
    if |a| > 0 {
      assert sep !in a[1..];
      SplitNoSep(a[1..], sep);
    }
  }

  /** Splitting `a + sep + b` peels `a` off as the first piece when `a` is free of
      the separator. */
  lemma {:induction false} SplitCons(a: string, sep: char, b: string)
    requires sep !in a
    ensures Split(a + [sep] + b, sep) == [a] + Split(b, sep)
    decreases |a|
  {
    var s := a + [sep] + b;
    if |a| == 0 {
      assert s[0] == sep && s[1..] == b;
    } else {
      assert s[0] == a[0] && s[1..] == a[1..] + [sep] + b;
      assert sep !in a[1..];
      SplitCons(a[1..], sep, b);
      assert [a[0]] + a[1..] == a;
    }
  }

  /** Split inverts Join whenever no part contains the separator. */
  lemma {:induction false} SplitJoin(parts: seq<string>, sep: char)
    requires |parts| >= 1
    requires forall i :: 0 <= i < |parts| ==> sep !in parts[i]
    ensures Split(Join(parts, sep), sep) == parts
    decreases |parts|
  {
    if |parts| == 1 {
      SplitNoSep(parts[0], sep);
    } else {
      SplitJoin(parts[1..], sep);
      SplitCons(parts[0], sep, Join(parts[1..], sep));
      assert [parts[0]] + parts[1..] == parts;
    }
  }

  /** `t in s` for strings: `t` occurs in `s` as a contiguous piece. */
  predicate Occurs(t: string, s: string) {
    exists i :: 0 <= i <= |s| && t <= s[i..]
  }

  /** The concatenation of the pieces, as an f-string or a run of `+` builds it. */
  function Concat(pieces: seq<string>): string
    decreases |pieces|
  {
    if |pieces| == 0 then "" else pieces[0] + Concat(pieces[1..])
  }

  /** Every piece occurs in the concatenation. */
  lemma {:induction false} ConcatOccurs(pieces: seq<string>, k: nat)
    requires k < |pieces|
    ensures Occurs(pieces[k], Concat(pieces))
    decreases k
  {
    var s := Concat(pieces);
    if k == 0 {
      assert pieces[0] <= s[0..];
    } else {
      ConcatOccurs(pieces[1..], k - 1);
      var i :| 0 <= i <= |Concat(pieces[1..])| && pieces[k] <= Concat(pieces[1..])[i..];
      assert s[|pieces[0]| + i..] == Concat(pieces[1..])[i..];
    }
  }

  /** The first two pieces of a concatenation, written out. */
  lemma ConcatFront(pieces: seq<string>)
    requires |pieces| >= 2
    ensures Concat(pieces) == pieces[0] + pieces[1] + Concat(pieces[2..])
  {
    assert pieces[1..][1..] == pieces[2..];
  }

  /** The concatenation ends with the last character of its last piece. */
  lemma {:induction false} ConcatLast(pieces: seq<string>)
    requires |pieces| > 0 && |pieces[|pieces| - 1]| > 0
    ensures |Concat(pieces)| > 0
    ensures Concat(pieces)[|Concat(pieces)| - 1] == pieces[|pieces| - 1][|pieces[|pieces| - 1]| - 1]
    decreases |pieces|
  {
    if |pieces| > 1 {
      ConcatLast(pieces[1..]);
    }
  }

  /** The decimal digit for 0 <= d < 10. */
  function DigitChar(d: nat): char
    requires d < 10
  {
    "0123456789"[d]
  }

  /** Python's `str(n)` for a non-negative int: its decimal digits, no leading zero. */
  function NatToString(n: nat): (s: string)
    ensures |s| >= 1
    ensures forall i :: 0 <= i < |s| ==> '0' <= s[i] <= '9'
    decreases n
  {
    if n < 10 then [DigitChar(n)] else NatToString(n / 10) + [DigitChar(n % 10)]
  }

  /** A lower-case hexadecimal digit, as `bytes.hex()` writes them. */
  predicate IsHexDigit(c: char) {
    '0' <= c <= '9' || 'a' <= c <= 'f'
  }

  predicate IsLowerHex(s: string) {
    forall i :: 0 <= i < |s| ==> IsHexDigit(s[i])
  }

  /** The digit for a nibble: '0'..'9', then 'a'..'f'. */
  function HexDigit(d: nat): (c: char)
    requires d < 16
    ensures IsHexDigit(c)
  {
    if d < 10 then ('0' as int + d) as char else ('a' as int + d - 10) as char
  }

  /** The nibble a hex digit stands for. */
  function HexDigitValue(c: char): (d: nat)
    requires IsHexDigit(c)
    ensures d < 16
  {
    if c <= '9' then c as int - '0' as int else c as int - 'a' as int + 10
  }

  /** Reading a digit back gives the nibble. */
  lemma HexDigitRoundTrip(d: nat)
    requires d < 16
    ensures HexDigitValue(HexDigit(d)) == d
  {
  }

  /** The two hex characters of one byte, high nibble first. */
  function HexByte(b: Byte): string {
    [HexDigit(b / 16), HexDigit(b % 16)]
  }

  /** Python's `bytes.hex()`: two lower-case hex characters per byte. */
  function Hex(b: Bytes): (h: string)
    ensures |h| == 2 * |b|
    ensures IsLowerHex(h)
    decreases |b|
  {
    if |b| == 0 then "" else HexByte(b[0]) + Hex(b[1..])
  }

  /** A byte is recovered from its two hex characters, so different bytes have
      different renderings. */
  lemma HexByteInjective(x: Byte, y: Byte)
    requires HexByte(x) == HexByte(y)
    ensures x == y
  {
    HexDigitRoundTrip(x / 16);
    HexDigitRoundTrip(x % 16);
    HexDigitRoundTrip(y / 16);
    HexDigitRoundTrip(y % 16);
    assert x / 16 == y / 16 && x % 16 == y % 16 by {
      assert HexByte(x)[0] == HexByte(y)[0] && HexByte(x)[1] == HexByte(y)[1];
    }
  }

  /** `bytes.hex()` is injective: equal renderings come from equal bytes. */
  lemma {:induction false} HexInjective(a: Bytes, b: Bytes)
    requires Hex(a) == Hex(b)
    ensures a == b
    decreases |a|
  {
    if |a| > 0 {
      assert |b| == |a|;
      var ha, hb := Hex(a), Hex(b);
      assert ha[..2] == HexByte(a[0]) && hb[..2] == HexByte(b[0]);
      HexByteInjective(a[0], b[0]);
      assert ha[2..] == Hex(a[1..]) && hb[2..] == Hex(b[1..]);
      HexInjective(a[1..], b[1..]);
      assert a == [a[0]] + a[1..] && b == [b[0]] + b[1..];
    }
  }
}
