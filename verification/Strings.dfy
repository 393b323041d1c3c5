/** Text and its UTF-8 (RFC 3629). A character is a Unicode scalar value, which is what decoding UTF-8 yields. */
module Strings {
  import opened Words

  /** One character in one to four bytes. */
  function CharBytes(c: char): (r: Bytes)
    ensures 1 <= |r| <= 4
    ensures |r| == 1 <==> c as int < 0x80
  {
    var n := c as int;
    if n < 0x80 then [n]
    else if n < 0x800 then [0xC0 + n / 0x40, Trail(n)]
    else if n < 0x1_0000 then [0xE0 + n / 0x1000, Trail(n / 0x40), Trail(n)]
    else [0xF0 + n / 0x4_0000, Trail(n / 0x1000), Trail(n / 0x40), Trail(n)]
  }

  /** The low six bits, marked as a byte that no character starts with. */
  function Trail(n: nat): u8 {
    0x80 + n % 0x40
  }

  function Utf8(s: string): Bytes {
    if s == [] then [] else CharBytes(s[0]) + Utf8(s[1..])
  }

  predicate AsciiOnly(s: string) {
    forall i :: 0 <= i < |s| ==> s[i] as int < 0x80
  }

  /** Characters of one to four bytes. */
  lemma KnownCharacters()
    ensures CharBytes('A') == [0x41] && CharBytes('\U{00E9}') == [0xC3, 0xA9]
    ensures CharBytes('\U{20AC}') == [0xE2, 0x82, 0xAC] && CharBytes('\U{1F600}') == [0xF0, 0x9F, 0x98, 0x80]
  {
  }

  /** The first byte of a character says how many there are. */
  function Width(first: u8): nat {
    if first < 0x80 then 1 else if first < 0xE0 then 2 else if first < 0xF0 then 3 else 4
  }

  lemma FirstByteSaysWidth(c: char)
    ensures |CharBytes(c)| == Width(CharBytes(c)[0])
  {
  }

  lemma CharBytesInjective(a: char, b: char)
    requires CharBytes(a) == CharBytes(b)
    ensures a == b
  {
    var m, n := a as int, b as int;
    FirstByteSaysWidth(a);
    SameSixes(m, n);
    SameSixes(m / 0x40, n / 0x40);
    SameSixes(m / 0x1000, n / 0x1000);
    assert m == n;
  }

  lemma SameSixes(m: nat, n: nat)
    ensures m / 0x40 == n / 0x40 && Trail(m) == Trail(n) ==> m == n
    ensures m / 0x40 / 0x40 == m / 0x1000 && m / 0x1000 / 0x40 == m / 0x4_0000
    ensures n / 0x40 / 0x40 == n / 0x1000 && n / 0x1000 / 0x40 == n / 0x4_0000
  {
  }

  /** UTF-8 is self-delimiting: a character and what follows it can be told apart. */
  lemma CharDecides(a: char, b: char, x: Bytes, y: Bytes)
    requires CharBytes(a) + x == CharBytes(b) + y
    ensures a == b && x == y
  {
    FirstByteSaysWidth(a);
    FirstByteSaysWidth(b);
    assert (CharBytes(a) + x)[0] == CharBytes(a)[0] && (CharBytes(b) + y)[0] == CharBytes(b)[0];
    hide CharBytes;
    SplitEqual(CharBytes(a), CharBytes(b), x, y);
    CharBytesInjective(a, b);
  }

  /** So is a text, when the number of its characters is known. */
  lemma {:induction false} TextDecides(a: string, b: string, x: Bytes, y: Bytes)
    requires |a| == |b| && Utf8(a) + x == Utf8(b) + y
    ensures a == b && x == y
    decreases |a|
  {
    hide CharBytes;
    if a == [] {
      assert [] + x == x && [] + y == y;
    } else {
      Associate(CharBytes(a[0]), Utf8(a[1..]), x);
      Associate(CharBytes(b[0]), Utf8(b[1..]), y);
      CharDecides(a[0], b[0], Utf8(a[1..]) + x, Utf8(b[1..]) + y);
      TextDecides(a[1..], b[1..], x, y);
      assert a == [a[0]] + a[1..] && b == [b[0]] + b[1..];
    }
  }

  /** There are as many bytes as characters exactly when every character is an ASCII one. */
  lemma {:induction false} ByteCount(s: string)
    ensures |s| <= |Utf8(s)|
    ensures |s| == |Utf8(s)| <==> AsciiOnly(s)
    decreases |s|
  {
    hide CharBytes;
    if s != [] {
      ByteCount(s[1..]);
      assert AsciiOnly(s) <==> s[0] as int < 0x80 && AsciiOnly(s[1..]) by {
        assert s == [s[0]] + s[1..];
        if AsciiOnly(s) {
          assert forall i :: 0 <= i < |s[1..]| ==> s[1..][i] == s[i + 1];
        } else if s[0] as int < 0x80 {
          var i :| 0 <= i < |s| && s[i] as int >= 0x80;
          assert s[1..][i - 1] == s[i];
        }
      }
    }
  }
}
