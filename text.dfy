/** Text written into blobs: `String.getBytes(StandardCharsets.UTF_8)`. */
module Text {
  import opened Objects

  /** A UTF-8 continuation byte: `10xxxxxx`. */
  predicate IsContinuation(b: byte)
  {
    0x80 <= b < 0xC0
  }

  /** The scalar value a well-formed 1- to 4-byte UTF-8 sequence stands for. */
  function DecodeChar(r: seq<byte>): int
    requires 1 <= |r| <= 4
  {
    if |r| == 1 then r[0] as int
    else if |r| == 2 then (r[0] as int - 0xC0) * 0x40 + (r[1] as int - 0x80)
    else if |r| == 3 then (r[0] as int - 0xE0) * 0x1000 + (r[1] as int - 0x80) * 0x40 + (r[2] as int - 0x80)
    else (r[0] as int - 0xF0) * 0x40000 + (r[1] as int - 0x80) * 0x1000 + (r[2] as int - 0x80) * 0x40 + (r[3] as int - 0x80)
  }

  lemma DivMod(n: int, k: int)
    requires n >= 0 && k > 0
    ensures n == (n / k) * k + n % k && 0 <= n % k < k
  {
  }

  /** Two bytes for 0x80 to 0x7FF: `110xxxxx 10xxxxxx`. */
  function Encode2(n: int): (r: seq<byte>)
    requires 0x80 <= n < 0x800
    ensures |r| == 2 && 0xC0 <= r[0] < 0xE0 && IsContinuation(r[1])
    ensures DecodeChar(r) == n
  {
    DivMod(n, 0x40);
    [(0xC0 + n / 0x40) as byte, (0x80 + n % 0x40) as byte]
  }

  /** Three bytes for 0x800 to 0xFFFF: `1110xxxx 10xxxxxx 10xxxxxx`. */
  function Encode3(n: int): (r: seq<byte>)
    requires 0x800 <= n < 0x10000
    ensures |r| == 3 && 0xE0 <= r[0] < 0xF0 && IsContinuation(r[1]) && IsContinuation(r[2])
    ensures DecodeChar(r) == n
  {
    DivMod(n, 0x1000);
    var m := n % 0x1000;
    DivMod(m, 0x40);
    [(0xE0 + n / 0x1000) as byte, (0x80 + m / 0x40) as byte, (0x80 + m % 0x40) as byte]
  }

  /** Four bytes for 0x10000 to 0x10FFFF: `11110xxx` and three continuation bytes. */
  function Encode4(n: int): (r: seq<byte>)
    requires 0x10000 <= n < 0x110000
    ensures |r| == 4 && 0xF0 <= r[0] < 0xF8
    ensures IsContinuation(r[1]) && IsContinuation(r[2]) && IsContinuation(r[3])
    ensures DecodeChar(r) == n
  {
    DivMod(n, 0x40000);
    var m := n % 0x40000;
    DivMod(m, 0x1000);
    var m2 := m % 0x1000;
    DivMod(m2, 0x40);
    [(0xF0 + n / 0x40000) as byte, (0x80 + m / 0x1000) as byte, (0x80 + m2 / 0x40) as byte, (0x80 + m2 % 0x40) as byte]
  }

  /**
    The UTF-8 encoding of one Unicode scalar value: the shortest form, a lead
    byte that announces the length, continuation bytes after it, and bytes
    that decode back to the character.
  */
  function EncodeChar(c: char): (r: seq<byte>)
    ensures 1 <= |r| <= 4
    ensures |r| == (if c as int < 0x80 then 1 else if c as int < 0x800 then 2 else if c as int < 0x10000 then 3 else 4)
    ensures |r| == 1 ==> r[0] < 0x80
    ensures |r| == 2 ==> 0xC0 <= r[0] < 0xE0
    ensures |r| == 3 ==> 0xE0 <= r[0] < 0xF0
    ensures |r| == 4 ==> 0xF0 <= r[0] < 0xF8
    ensures forall k :: 1 <= k < |r| ==> IsContinuation(r[k])
    ensures DecodeChar(r) == c as int
  {
    var n := c as int;
    if n < 0x80 then [n as byte]
    else if n < 0x800 then Encode2(n)
    else if n < 0x10000 then Encode3(n)
    else Encode4(n)
  }

  function Utf8(s: string): seq<byte>
  {
    if s == [] then [] else EncodeChar(s[0]) + Utf8(s[1..])
  }

  predicate IsAscii(s: string)
  {
    forall i :: 0 <= i < |s| ==> s[i] as int < 0x80
  }

  lemma AsciiConcat(a: string, b: string)
    requires IsAscii(a) && IsAscii(b)
    ensures IsAscii(a + b)
  {
    assert forall i :: 0 <= i < |a + b| ==> (a + b)[i] == if i < |a| then a[i] else b[i - |a|];
  }

  /** On ASCII text UTF-8 is one byte per character, the character's code. */
  lemma {:induction false} Utf8OfAscii(s: string)
    requires IsAscii(s)
    ensures |Utf8(s)| == |s|
    ensures forall i :: 0 <= i < |s| ==> Utf8(s)[i] as int == s[i] as int
  {
    if s != [] {
      Utf8OfAscii(s[1..]);
    }
  }
}
