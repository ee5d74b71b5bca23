/** Java's signed `byte` and the two conversions the serial engine applies to it:
    the narrowing cast `(byte)x` and the unsigned widening `b & 0xFF`; and the
    first-occurrence search `ArrayList.indexOf` over a buffer of bytes. */
module JavaBytes {

  /** A Java `byte`: a signed two's-complement value in -128..127. */
  type JByte = b: int | -128 <= b < 128

  /** The cast `(byte)x`: keeps the low eight bits of `x` and reads them as signed. */
  function ToByte(x: int): (r: JByte)
    ensures (x - r) % 256 == 0
    ensures -128 <= x < 128 ==> r == x
  {
    (x + 128) % 256 - 128
  }

  /** The expression `b & 0xFF` on a sign-extended byte: the unsigned value 0..255. */
  function Unsigned(b: JByte): (r: int)
    ensures 0 <= r < 256
    ensures (r - b) % 256 == 0
    ensures ToByte(r) == b
  {
    if b < 0 then b + 256 else b
  }

  /** The cast `(char)r` applied to what `read()` or `last()` returns: Java keeps
      the low sixteen bits, so 0..255 become U+0000..U+00FF and -1 becomes
      U+FFFF. */
  function CharOf(r: int): (c: char)
    requires -1 <= r < 256
    ensures c as int == r % 0x1_0000
    ensures 0 <= r ==> c as int == r
  {
    if r == -1 then '\U{FFFF}' else r as char
  }

  /** `ArrayList.indexOf`: the position of the first element equal to `x`, or -1. */
  function IndexOf(s: seq<JByte>, x: JByte): (r: int)
    ensures -1 <= r < |s|
    ensures r == -1 <==> x !in s
    ensures 0 <= r ==> s[r] == x
    ensures forall j :: 0 <= j < r ==> s[j] != x
  {
    if s == [] then -1
    else if s[0] == x then 0
    else
      var j := IndexOf(s[1..], x);
      if j == -1 then -1 else j + 1
  }
}
