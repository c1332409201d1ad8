/** Length-prefixed messages: four bytes of length, little end first, and the message. */
module Framing {
  type byte = x: int | 0 <= x < 256

  const HEAD := 4
  const TWO_32 := 0x1_0000_0000
  const TWO_31 := 0x8000_0000

  function Fixed32(n: nat): (r: seq<byte>)
    ensures |r| == HEAD
  {
    [n % 256, n / 256 % 256, n / 65536 % 256, n / 16777216 % 256]
  }

  function Value(b: seq<byte>): (n: nat)
    requires |b| == HEAD
    ensures n < TWO_32
  {
    var x: int, y: int, z: int, w: int := b[0], b[1], b[2], b[3];
    x + 256 * y + 65536 * z + 16777216 * w
  }

  lemma ValueOfFixed32(n: nat)
    requires n < TWO_32
    ensures Value(Fixed32(n)) == n
  {
    assert n / 65536 == n / 256 / 256 && n / 16777216 == n / 65536 / 256;
  }

  lemma Fixed32OfValue(b: seq<byte>)
    requires |b| == HEAD
    ensures Fixed32(Value(b)) == b
  {
    var x: int, y: int, z: int, w: int := b[0], b[1], b[2], b[3];
    var n := Value(b);
    assert n == 256 * (y + 256 * z + 65536 * w) + x;
    assert n / 256 == y + 256 * (z + 256 * w);
    assert n / 65536 == z + 256 * w;
    assert n / 16777216 == w;
  }

  /** The length as the `int` that the connection keeps. */
  function Signed32(n: nat): int
    requires n < TWO_32
  {
    if n < TWO_31 then n else n - TWO_32
  }

  /** The weight of each byte, on heads with one byte set, and that heads add up. */
  lemma ByteWeights(x: byte, y: byte, z: byte, w: byte)
    ensures Value([x, 0, 0, 0]) == x && Value([0, y, 0, 0]) == 256 * y
    ensures Value([0, 0, z, 0]) == 65536 * z && Value([0, 0, 0, w]) == 16777216 * w
    ensures Value([x, y, z, w]) == x + 256 * y + 65536 * z + 16777216 * w
    ensures Fixed32(x + 256 * y + 65536 * z + 16777216 * w) == [x, y, z, w]
  {
    Fixed32OfValue([x, y, z, w]);
  }

  /** A text of ASCII characters as bytes. */
  function Ascii(text: string): (r: seq<byte>)
    requires forall k :: 0 <= k < |text| ==> text[k] < 128 as char
    ensures |r| == |text|
  {
    seq(|text|, k requires 0 <= k < |text| => text[k] as int)
  }

  function Framed(m: seq<byte>): seq<byte> { Fixed32(|m|) + m }

  function FramedAll(ms: seq<seq<byte>>): seq<byte>
  {
    if ms == [] then [] else FramedAll(ms[..|ms| - 1]) + Framed(ms[|ms| - 1])
  }

  lemma FramedSnoc(ms: seq<seq<byte>>, m: seq<byte>)
    ensures FramedAll(ms + [m]) == FramedAll(ms) + Framed(m)
  {
    assert (ms + [m])[..|ms|] == ms;
  }

  /** The complete messages at the start of a byte stream. */
  function Messages(s: seq<byte>): seq<seq<byte>>
    decreases |s|
  {
    if |s| < HEAD then []
    else
      var n := Value(s[..HEAD]);
      if |s| < HEAD + n then [] else [s[HEAD..HEAD + n]] + Messages(s[HEAD + n..])
  }

  lemma MessagesFirst(m: seq<byte>, rest: seq<byte>)
    requires |m| < TWO_32
    ensures Messages(Framed(m) + rest) == [m] + Messages(rest)
  {
    var s := Framed(m) + rest;
    ValueOfFixed32(|m|);
    assert s[..HEAD] == Fixed32(|m|);
    assert s[HEAD..HEAD + |m|] == m && s[HEAD + |m|..] == rest;
  }

  /** What has been framed can be read back, up to what follows. */
  lemma {:induction false} MessagesOf(ms: seq<seq<byte>>, rest: seq<byte>)
    requires forall i :: 0 <= i < |ms| ==> |ms[i]| < TWO_32
    ensures Messages(FramedAll(ms) + rest) == ms + Messages(rest)
    decreases |ms|
  {
    hide Messages, Framed;
    if ms == [] {
      assert [] + rest == rest;
      assert [] + Messages(rest) == Messages(rest);
    } else {
      var k := |ms| - 1;
      var front, m, more := ms[..k], ms[k], Messages(rest);
      MessagesOf(front, Framed(m) + rest);
      MessagesFirst(m, rest);
      Assoc(FramedAll(front), Framed(m), rest);
      Assoc(front, [m], more);
      assert front + [m] == ms;
    }
  }

  lemma Assoc<T>(a: seq<T>, b: seq<T>, c: seq<T>)
    ensures (a + b) + c == a + (b + c)
  {
  }
}
