/** The order-preserving encoding of base/coding.cc. */
module Memcomparable {
  type byte = x: int | 0 <= x < 256

  const CHUNK := 8

  datatype Result = Decoded(bytes: seq<byte>) | InvalidParam

  /** a comes before b, byte by byte, a proper prefix first: the order of `memcmp`
      and of the lengths after it. */
  predicate Before(a: seq<byte>, b: seq<byte>)
    decreases |a|
  {
    if b == [] then false
    else if a == [] then true
    else a[0] < b[0] || (a[0] == b[0] && Before(a[1..], b[1..]))
  }

  /** The first n bytes, filled up with zeros. */
  function Padded(s: seq<byte>, n: nat): (r: seq<byte>)
    ensures |r| == n
    decreases n
  {
    if n == 0 then [] else if s == [] then [0] + Padded([], n - 1) else [s[0]] + Padded(s[1..], n - 1)
  }

  function Marker(s: seq<byte>): byte { if |s| > CHUNK then CHUNK + 1 else |s| }

  function Chunk(s: seq<byte>): (r: seq<byte>)
    ensures |r| == CHUNK + 1
  {
    Padded(s, CHUNK) + [Marker(s)]
  }

  function Prepended(s: seq<byte>, r: Result): Result { if r.Decoded? then Decoded(s + r.bytes) else r }

  /** Eight bytes and a marker at a time: nine for "more follows", else how many of the eight count. */
  function Encoded(s: seq<byte>): seq<byte>
    decreases |s|
  {
    if s == [] then [] else Chunk(s) + if |s| > CHUNK then Encoded(s[CHUNK..]) else []
  }

  function DecodedFrom(s: seq<byte>): Result
    decreases |s|
  {
    if |s| % (CHUNK + 1) != 0 then InvalidParam
    else if s == [] then Decoded([])
    else
      var n := s[CHUNK];
      if n > CHUNK + 1 || n == 0 then InvalidParam
      else Prepended(s[..if n == CHUNK + 1 then CHUNK else n], DecodedFrom(s[CHUNK + 1..]))
  }

  // ----- order

  lemma {:induction false} BeforeTotal(a: seq<byte>, b: seq<byte>)
    ensures a == b || Before(a, b) || Before(b, a)
    ensures !(Before(a, b) && Before(b, a)) && !Before(a, a)
    decreases |a|
  {
    if a != [] && b != [] {
      BeforeTotal(a[1..], b[1..]);
      assert a == [a[0]] + a[1..] && b == [b[0]] + b[1..];
    }
    if a != [] { BeforeTotal(a[1..], a[1..]); }
  }

  /** Strings that begin with parts of equal length. */
  lemma {:induction false} BeforeAppend(a: seq<byte>, b: seq<byte>, c: seq<byte>, d: seq<byte>)
    requires |a| == |b|
    ensures Before(a + c, b + d) <==> Before(a, b) || (a == b && Before(c, d))
    decreases |a|
  {
    if a == [] {
      assert a + c == c && b + d == d;
    } else {
      assert (a + c)[1..] == a[1..] + c && (b + d)[1..] == b[1..] + d;
      BeforeAppend(a[1..], b[1..], c, d);
      assert a == [a[0]] + a[1..] && b == [b[0]] + b[1..];
    }
  }

  /** When the padded parts differ they are in the order of the strings. */
  lemma {:induction false} PaddedOrder(a: seq<byte>, b: seq<byte>, n: nat)
    requires Padded(a, n) != Padded(b, n)
    ensures Before(Padded(a, n), Padded(b, n)) == Before(a, b)
    decreases n
  {
    var x: byte, y: byte := if a == [] then 0 else a[0], if b == [] then 0 else b[0];
    var a', b' := if a == [] then [] else a[1..], if b == [] then [] else b[1..];
    assert Padded(a, n) == [x] + Padded(a', n - 1) && Padded(b, n) == [y] + Padded(b', n - 1);
    assert ([x] + Padded(a', n - 1))[1..] == Padded(a', n - 1) && ([y] + Padded(b', n - 1))[1..] == Padded(b', n - 1);
    if x == y {
      PaddedOrder(a', b', n - 1);
    }
  }

  /** When they agree, the lengths decide as soon as one string has ended. */
  lemma {:induction false} PaddedEqual(a: seq<byte>, b: seq<byte>, n: nat)
    requires Padded(a, n) == Padded(b, n)
    ensures |a| >= n && |b| >= n ==> a[..n] == b[..n]
    ensures |a| <= n || |b| <= n ==> (|a| < |b| ==> Before(a, b)) && (|a| == |b| ==> a == b)
    decreases n
  {
    if n > 0 {
      var a', b' := if a == [] then [] else a[1..], if b == [] then [] else b[1..];
      assert Padded(a, n)[1..] == Padded(a', n - 1) && Padded(b, n)[1..] == Padded(b', n - 1);
      assert Padded(a, n)[0] == Padded(b, n)[0];
      PaddedEqual(a', b', n - 1);
      if a != [] && b != [] {
        assert a == [a[0]] + a' && b == [b[0]] + b';
        if |a| >= n && |b| >= n {
          assert a[..n] == [a[0]] + a'[..n - 1] && b[..n] == [b[0]] + b'[..n - 1];
        }
      }
    }
  }

  lemma MarkerOrder(a: seq<byte>, b: seq<byte>)
    ensures Before([Marker(a)], [Marker(b)]) <==> Marker(a) < Marker(b)
    ensures [Marker(a)] == [Marker(b)] <==> Marker(a) == Marker(b)
  {
    assert Before([Marker(a)][1..], [Marker(b)][1..]) == false;
  }

  /** The order of two chunks: of the padded parts, and then of the markers. */
  lemma ChunkOrder(a: seq<byte>, b: seq<byte>)
    ensures var p, q := Padded(a, CHUNK), Padded(b, CHUNK);
      && (Before(Chunk(a), Chunk(b)) <==> if p == q then Marker(a) < Marker(b) else Before(p, q))
      && (Chunk(a) == Chunk(b) <==> p == q && Marker(a) == Marker(b))
  {
    hide Padded, Before, Marker;
    var p, q := Padded(a, CHUNK), Padded(b, CHUNK);
    BeforeAppend(p, q, [Marker(a)], [Marker(b)]);
    MarkerOrder(a, b);
    BeforeTotal(p, p);
    assert Chunk(a)[..CHUNK] == p && Chunk(b)[..CHUNK] == q;
    assert Chunk(a)[CHUNK] == Marker(a) && Chunk(b)[CHUNK] == Marker(b);
  }

  /** Strings that both go on after their first chunk, which is the same. */
  lemma RestOrder(a: seq<byte>, b: seq<byte>)
    requires |a| > CHUNK && |b| > CHUNK && Padded(a, CHUNK) == Padded(b, CHUNK)
    ensures Before(a, b) <==> Before(a[CHUNK..], b[CHUNK..])
  {
    hide Padded, Before;
    PaddedEqual(a, b, CHUNK);
    BeforeAppend(a[..CHUNK], b[..CHUNK], a[CHUNK..], b[CHUNK..]);
    BeforeTotal(a[..CHUNK], a[..CHUNK]);
    assert a == a[..CHUNK] + a[CHUNK..] && b == b[..CHUNK] + b[CHUNK..];
  }

  /** Strings with the same padded part, one of which ends with it: the markers decide. */
  lemma EndOrder(a: seq<byte>, b: seq<byte>)
    requires Padded(a, CHUNK) == Padded(b, CHUNK) && (|a| <= CHUNK || |b| <= CHUNK)
    ensures Before(a, b) <==> Marker(a) < Marker(b)
    ensures Marker(a) == Marker(b) ==> a == b
  {
    hide Padded, Before;
    PaddedEqual(a, b, CHUNK);
    PaddedEqual(b, a, CHUNK);
    BeforeTotal(a, b);
    BeforeTotal(a, a);
  }

  /** Encoding keeps the order, in both directions. */
  lemma {:induction false} OrderKept(a: seq<byte>, b: seq<byte>)
    ensures Before(Encoded(a), Encoded(b)) <==> Before(a, b)
    decreases |a|
  {
    hide Padded, Chunk, Encoded;
    if a != [] && b != [] {
      var x: seq<byte> := if |a| > CHUNK then Encoded(a[CHUNK..]) else [];
      var y: seq<byte> := if |b| > CHUNK then Encoded(b[CHUNK..]) else [];
      EncodedSplit(a, x);
      EncodedSplit(b, y);
      BeforeAppend(Chunk(a), Chunk(b), x, y);
      ChunkOrder(a, b);
      if Padded(a, CHUNK) != Padded(b, CHUNK) {
        PaddedOrder(a, b, CHUNK);
      } else if |a| > CHUNK && |b| > CHUNK {
        OrderKept(a[CHUNK..], b[CHUNK..]);
        RestOrder(a, b);
      } else {
        EndOrder(a, b);
        BeforeTotal(x, x);
      }
    } else {
      EncodedEmpty(a);
      EncodedEmpty(b);
    }
  }

  lemma EncodedSplit(a: seq<byte>, x: seq<byte>)
    requires a != [] && x == if |a| > CHUNK then Encoded(a[CHUNK..]) else []
    ensures Encoded(a) == Chunk(a) + x
  {
  }

  lemma EncodedEmpty(a: seq<byte>)
    ensures Encoded(a) == [] <==> a == []
  {
  }

  // ----- round trip

  lemma {:induction false} PaddedShort(s: seq<byte>, n: nat)
    ensures Padded(s, n)[..if |s| < n then |s| else n] == s[..if |s| < n then |s| else n]
    decreases n
  {
    if n > 0 && s != [] {
      PaddedShort(s[1..], n - 1);
      var k := if |s| < n then |s| else n;
      assert s[..k] == [s[0]] + s[1..][..k - 1];
      assert Padded(s, n)[..k] == [s[0]] + Padded(s[1..], n - 1)[..k - 1];
    }
  }

  lemma DecodedChunk(c: seq<byte>, rest: seq<byte>)
    requires |c| == CHUNK + 1 && 1 <= c[CHUNK] <= CHUNK + 1 && |rest| % (CHUNK + 1) == 0
    ensures |c + rest| % (CHUNK + 1) == 0
    ensures DecodedFrom(c + rest)
      == Prepended(c[..if c[CHUNK] == CHUNK + 1 then CHUNK else c[CHUNK]], DecodedFrom(rest))
  {
    var s, n: nat := c + rest, if c[CHUNK] == CHUNK + 1 then CHUNK else c[CHUNK];
    assert s[CHUNK] == c[CHUNK] && s[CHUNK + 1..] == rest && s[..n] == c[..n];
  }

  /** The bytes of a chunk that count, and its marker. */
  lemma ChunkParts(s: seq<byte>)
    requires s != []
    ensures Chunk(s)[..if |s| < CHUNK then |s| else CHUNK] == s[..if |s| < CHUNK then |s| else CHUNK]
    ensures Chunk(s)[CHUNK] == (if |s| > CHUNK then CHUNK + 1 else |s|)
  {
    hide Padded;
    var k := if |s| < CHUNK then |s| else CHUNK;
    PaddedShort(s, CHUNK);
    assert Chunk(s)[..k] == Padded(s, CHUNK)[..k];
  }

  lemma {:induction false} RoundTrip(s: seq<byte>)
    ensures |Encoded(s)| % (CHUNK + 1) == 0 && DecodedFrom(Encoded(s)) == Decoded(s)
    decreases |s|
  {
    hide DecodedFrom, Chunk;
    if s != [] {
      var more := if |s| > CHUNK then s[CHUNK..] else [];
      RoundTrip(more);
      assert Encoded(s) == Chunk(s) + Encoded(more);
      ChunkParts(s);
      DecodedChunk(Chunk(s), Encoded(more));
      assert s == s[..if |s| < CHUNK then |s| else CHUNK] + more;
    } else {
      assert DecodedFrom([]) == Decoded([]) by { DecodedNothing(); }
    }
  }

  lemma DecodedNothing()
    ensures DecodedFrom([]) == Decoded([])
  {
  }

  /** Different strings have different encodings. */
  lemma EncodedInjective(a: seq<byte>, b: seq<byte>)
    requires Encoded(a) == Encoded(b)
    ensures a == b
  {
    RoundTrip(a);
    RoundTrip(b);
  }

  // ----- the layout

  lemma {:induction false} EncodedLength(s: seq<byte>)
    ensures |Encoded(s)| == 9 * ((|s| + 7) / 8)
    decreases |s|
  {
    hide Chunk;
    if |s| > 8 { EncodedLength(s[8..]); }
  }

  lemma {:induction false} PaddedAt(s: seq<byte>, n: nat, i: nat)
    requires i < n
    ensures Padded(s, n)[i] == if i < |s| then s[i] else 0
    decreases n
  {
    if i > 0 { PaddedAt(if s == [] then [] else s[1..], n - 1, i - 1); }
  }

  lemma EncodedMore(s: seq<byte>)
    requires |s| > 8
    ensures Encoded(s) == Chunk(s) + Encoded(s[8..])
  {
    hide Chunk;
  }

  lemma Shifted(a: seq<byte>, b: seq<byte>, i: nat)
    requires |a| == 9 && i + 9 <= |b|
    ensures (a + b)[i + 9..i + 18] == b[i..i + 9]
  {
  }

  lemma EncodedFirst(s: seq<byte>)
    requires s != []
    ensures 9 <= |Encoded(s)| && Encoded(s)[..9] == Chunk(s)
  {
    hide Chunk;
  }

  lemma {:induction false} EncodedPart(s: seq<byte>, k: nat)
    requires 8 * k < |s|
    ensures 9 * k + 9 <= |Encoded(s)| && Encoded(s)[9 * k..9 * k + 9] == Chunk(s[8 * k..])
    decreases k
  {
    hide Encoded, Chunk;
    if k > 0 {
      EncodedPart(s[8..], k - 1);
      EncodedMore(s);
      Shifted(Chunk(s), Encoded(s[8..]), 9 * (k - 1));
      assert s[8..][8 * (k - 1)..] == s[8 * k..];
    } else {
      EncodedFirst(s);
      assert s[0..] == s;
    }
  }

  /** Of every started eight bytes k, the eight bytes or zeros in their places and behind them a marker: nine
      when more follows, else how many of the eight there are. */
  lemma EncodedAt(s: seq<byte>, k: nat, i: nat)
    requires 8 * k < |s| && i < 8
    ensures 9 * k + 8 < |Encoded(s)|
    ensures Encoded(s)[9 * k + i] == if 8 * k + i < |s| then s[8 * k + i] else 0
    ensures Encoded(s)[9 * k + 8] == if 8 * k + 8 < |s| then 9 else |s| - 8 * k
  {
    hide Encoded, Padded;
    EncodedPart(s, k);
    PaddedAt(s[8 * k..], 8, i);
    var part := Encoded(s)[9 * k..9 * k + 9];
    assert Encoded(s)[9 * k + i] == part[i] && Encoded(s)[9 * k + 8] == part[8];
  }

  predicate MarkerAt(s: seq<byte>, k: nat) { 9 * k + 8 < |s| && 1 <= s[9 * k + 8] <= 9 }

  /** Nine bytes at a time are decoded and nothing else: each ninth byte is from 1 to 9. */
  lemma {:induction false} Decodes(s: seq<byte>)
    ensures DecodedFrom(s).Decoded? <==> |s| % 9 == 0 && forall k: nat :: k < |s| / 9 ==> MarkerAt(s, k)
    decreases |s|
  {
    if |s| >= 9 {
      var rest := s[9..];
      Decodes(rest);
      assert |rest| / 9 == |s| / 9 - 1 && |rest| % 9 == |s| % 9;
      forall k: nat ensures MarkerAt(rest, k) <==> MarkerAt(s, k + 1) {
        assert 9 * (k + 1) + 8 < |s| ==> s[9 * (k + 1) + 8] == rest[9 * k + 8];
      }
      assert forall k: nat :: 0 < k ==> (MarkerAt(rest, k - 1) <==> MarkerAt(s, k));
      assert MarkerAt(s, 0) <==> 1 <= s[8] <= 9;
    }
  }

  // ----- the loops

  function Zeros(n: nat): seq<byte> { seq(n, _ => 0) }

  lemma {:induction false} ZerosPad(s: seq<byte>, n: nat)
    ensures |s| >= n ==> Padded(s, n) == s[..n]
    ensures |s| < n ==> Padded(s, n) == s + Zeros(n - |s|)
    decreases n
  {
    if n > 0 {
      ZerosPad(if s == [] then [] else s[1..], n - 1);
      if s != [] { assert s == [s[0]] + s[1..]; }
      if |s| >= n {
        assert s[..n] == [s[0]] + s[1..][..n - 1];
      } else {
        assert Zeros(n - |s|) == if s == [] then [0] + Zeros(n - 1) else Zeros((n - 1) - (|s| - 1));
      }
    }
  }

  /** What one round of the encoding loop appends. */
  lemma EncodedSteps(s: seq<byte>, i: nat, size: nat)
    requires i < |s| && size == if |s| - i < CHUNK then |s| - i else CHUNK
    ensures Encoded(s[i..]) == Chunk(s[i..]) + if i + CHUNK < |s| then Encoded(s[i + CHUNK..]) else []
    ensures i + CHUNK < |s| ==> Chunk(s[i..]) == s[i..i + size] + [CHUNK + 1]
    ensures i + CHUNK >= |s| ==> Chunk(s[i..]) == s[i..i + size] + Zeros(CHUNK - size) + [size]
  {
    ZerosPad(s[i..], CHUNK);
    if i + CHUNK < |s| {
      assert s[i..][CHUNK..] == s[i + CHUNK..] && s[i..][..CHUNK] == s[i..i + CHUNK];
    } else {
      assert s[i..i + size] == s[i..];
      if size == CHUNK { assert s[i..][..CHUNK] == s[i..] && Zeros(0) == []; }
    }
  }

  method MemcomparableEncode(src: seq<byte>) returns (dst: seq<byte>)
    ensures dst == Encoded(src)
  {
    hide Encoded, Chunk, Zeros;
    dst := [];
    EncodedStart(src);
    if src == [] { return; }
    var i := 0;
    while i < |src|
      invariant 0 <= i
      invariant Encoded(src) == dst + if i < |src| then Encoded(src[i..]) else []
      decreases |src| - i
    {
      var size := if |src| - i < CHUNK then |src| - i else CHUNK;
      EncodedSteps(src, i, size);
      ghost var before, chunk, rest :=
        dst, Chunk(src[i..]), if i + CHUNK < |src| then Encoded(src[i + CHUNK..]) else [];
      Joined(before, chunk, rest);
      dst := dst + src[i..i + size];
      if i + CHUNK < |src| {
        dst := dst + [CHUNK + 1];
      } else {
        dst := dst + Zeros(CHUNK - size);
        dst := dst + [size];
      }
      assert dst == before + chunk;
      i := i + CHUNK;
    }
  }

  lemma Joined(a: seq<byte>, b: seq<byte>, c: seq<byte>)
    ensures a + (b + c) == (a + b) + c
  {
  }

  lemma EncodedStart(s: seq<byte>)
    ensures Encoded([]) == [] && s[0..] == s
  {
  }

  /** What one round of the decoding loop reads. */
  lemma DecodedSteps(s: seq<byte>, i: nat)
    requires i < |s| && (|s| - i) % (CHUNK + 1) == 0
    ensures i + CHUNK < |s| && (|s| - (i + CHUNK + 1)) % (CHUNK + 1) == 0
    ensures var n := s[i + CHUNK];
      DecodedFrom(s[i..]) ==
        if n > CHUNK + 1 || n == 0 then InvalidParam
        else Prepended(s[i..i + if n == CHUNK + 1 then CHUNK else n], DecodedFrom(s[i + CHUNK + 1..]))
  {
    var n: nat := if s[i + CHUNK] >= CHUNK + 1 then CHUNK else s[i + CHUNK];
    assert s[i..][CHUNK] == s[i + CHUNK] && s[i..][CHUNK + 1..] == s[i + CHUNK + 1..] && s[i..][..n] == s[i..i + n];
  }

  lemma PrependedTwice(a: seq<byte>, b: seq<byte>, r: Result)
    ensures Prepended(a, Prepended(b, r)) == Prepended(a + b, r)
    ensures Prepended([], r) == r && Prepended(a, Decoded([])) == Decoded(a)
  {
    if r.Decoded? { assert a + (b + r.bytes) == (a + b) + r.bytes && [] + r.bytes == r.bytes; }
    assert a + [] == a;
  }

  method MemcomparableDecode(src: seq<byte>) returns (r: Result)
    ensures r == DecodedFrom(src)
  {
    hide DecodedFrom, Prepended;
    if |src| % (CHUNK + 1) != 0 {
      NotAligned(src);
      return InvalidParam;
    }
    var dst: seq<byte> := [];
    var i := 0;
    assert src[0..] == src;
    PrependedTwice([], [], DecodedFrom(src));
    while i < |src|
      invariant 0 <= i <= |src| && (|src| - i) % (CHUNK + 1) == 0
      invariant DecodedFrom(src) == Prepended(dst, DecodedFrom(src[i..]))
    {
      DecodedSteps(src, i);
      var n := src[i + CHUNK];
      if n > CHUNK + 1 || n == 0 {
        InvalidStays(dst);
        return InvalidParam;
      }
      if n == CHUNK + 1 { n := CHUNK; }
      PrependedTwice(dst, src[i..i + n], DecodedFrom(src[i + CHUNK + 1..]));
      dst := dst + src[i..i + n];
      i := i + CHUNK + 1;
    }
    assert src[i..] == [];
    DecodedNothing();
    PrependedTwice(dst, [], Decoded([]));
    r := Decoded(dst);
  }

  lemma NotAligned(s: seq<byte>)
    requires |s| % (CHUNK + 1) != 0
    ensures DecodedFrom(s) == InvalidParam
  {
  }

  lemma InvalidStays(s: seq<byte>)
    ensures Prepended(s, InvalidParam) == InvalidParam
  {
  }
}
