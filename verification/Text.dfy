/** The bytes of a string. */
module Text {
  import opened Bytes

  /** One to four bytes, by the size of the code point. */
  function Utf8Char(c: char): (b: seq<byte>)
    ensures 1 <= |b| <= 4
  {
    var n := c as int;
    if n < 0x80 then [n]
    else if n < 0x800 then [0xC0 + n / 64, Continuation(n)]
    else if n < 0x1_0000 then [0xE0 + n / 64 / 64, Continuation(n / 64), Continuation(n)]
    else [0xF0 + n / 64 / 64 / 64, Continuation(n / 64 / 64), Continuation(n / 64), Continuation(n)]
  }

  function Continuation(n: nat): byte {
    0x80 + n % 64
  }

  function Utf8(s: string): seq<byte> {
    if s == [] then [] else Utf8Char(s[0]) + Utf8(s[1..])
  }

  /** The six low bits of a byte that continues a character. */
  predicate Continues(b: byte, bits: nat) {
    0x80 <= b < 0xC0 && bits == b - 0x80
  }

  /** The bytes hold the code point, with no more of them than it takes. */
  lemma CharIsCode(c: char)
    ensures var n, b := c as int, Utf8Char(c);
            if n < 0x80 then b == [n]
            else if n < 0x800 then
              |b| == 2 && 0xC0 <= b[0] < 0xE0 && Continues(b[1], n % 64) && (b[0] - 0xC0) * 64 + n % 64 == n
            else if n < 0x1_0000 then
              && |b| == 3 && 0xE0 <= b[0] < 0xF0 && Continues(b[1], n / 64 % 64) && Continues(b[2], n % 64)
              && (b[0] - 0xE0) * 4096 + n / 64 % 64 * 64 + n % 64 == n
            else
              && |b| == 4 && 0xF0 <= b[0] < 0xF8
              && Continues(b[1], n / 4096 % 64) && Continues(b[2], n / 64 % 64) && Continues(b[3], n % 64)
              && (b[0] - 0xF0) * 262144 + n / 4096 % 64 * 4096 + n / 64 % 64 * 64 + n % 64 == n
  {
  }

  lemma {:induction false} InTurn(s: string, t: string)
    ensures Utf8(s + t) == Utf8(s) + Utf8(t)
  {
    if s == [] {
      assert s + t == t;
    } else {
      assert (s + t)[1..] == s[1..] + t;
      InTurn(s[1..], t);
    }
  }

  /** A string of ASCII characters is written as their codes. */
  lemma {:induction false} AsciiIsItself(s: string)
    requires forall i | 0 <= i < |s| :: s[i] as int < 0x80
    ensures |Utf8(s)| == |s| && forall i | 0 <= i < |s| :: Utf8(s)[i] == s[i] as int
  {
    if s != [] {
      AsciiIsItself(s[1..]);
    }
  }

  /** The first byte tells how many belong to the character. */
  function Length(first: byte): nat {
    if first < 0x80 then 1 else if first < 0xE0 then 2 else if first < 0xF0 then 3 else 4
  }

  lemma CharCancel(c: char, d: char, x: seq<byte>, y: seq<byte>)
    requires Utf8Char(c) + x == Utf8Char(d) + y
    ensures c == d && x == y
  {
    var a, b, all := Utf8Char(c), Utf8Char(d), Utf8Char(c) + x;
    assert all[0] == a[0] && all[0] == b[0];
    assert |a| == Length(a[0]) && |b| == Length(b[0]);
    assert a == all[..|a|] && b == all[..|b|];
    assert x == all[|a|..] && y == all[|b|..];
    CharInjective(c, d);
  }

  lemma CharInjective(c: char, d: char)
    requires Utf8Char(c) == Utf8Char(d)
    ensures c == d
  {
    var m, n, b := c as int, d as int, Utf8Char(c);
    if |b| > 1 {
      assert Utf8Char(d)[|b| - 1] == Continuation(m) == Continuation(n);
      if |b| > 2 {
        assert Utf8Char(d)[|b| - 2] == Continuation(m / 64) == Continuation(n / 64);
        if |b| > 3 {
          assert Utf8Char(d)[|b| - 3] == Continuation(m / 64 / 64) == Continuation(n / 64 / 64);
          SameDigit(m / 64 / 64, n / 64 / 64);
        }
        SameDigit(m / 64, n / 64);
      }
      SameDigit(m, n);
    }
  }

  lemma SameDigit(m: nat, n: nat)
    requires m / 64 == n / 64 && Continuation(m) == Continuation(n)
    ensures m == n
  {
  }

  /** Different strings have different bytes. */
  lemma {:induction false} Utf8Injective(s: string, t: string)
    requires Utf8(s) == Utf8(t)
    ensures s == t
  {
    if s != [] && t != [] {
      CharCancel(s[0], t[0], Utf8(s[1..]), Utf8(t[1..]));
      Utf8Injective(s[1..], t[1..]);
      assert s == [s[0]] + s[1..] && t == [t[0]] + t[1..];
    }
  }
}
