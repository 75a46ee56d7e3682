/**
 * Reading and writing 16- and 32-bit fields in network (big-endian) byte
 * order, and lists of 32-bit words laid out back to back. The context's
 * readUint32Fn/writeUint32Fn pair always produces this byte order whatever
 * the host, so one fixed pair stands for it here. Octets and fields are
 * integers in the range of their C types; the shifts and masks of the C
 * code are division and remainder by powers of two on those integers.
 */
module WordCodec {
  import opened RtpTypes

  /** The two octets of a 16-bit field, most significant first. */
  function Uint16Bytes(v: uint16): (r: seq<uint8>)
    ensures |r| == 2
  {
    [v / 0x100, v % 0x100]
  }

  /** The 16-bit field whose most significant octet is at `offset`. */
  function ReadUint16(s: seq<uint8>, offset: nat): uint16
    requires offset + 2 <= |s|
  {
    s[offset] as int * 0x100 + s[offset + 1]
  }

  /** The four octets of a 32-bit field, most significant first. */
  function Uint32Bytes(v: uint32): (r: seq<uint8>)
    ensures |r| == 4
  {
    [v / 0x100_0000, v / 0x1_0000 % 0x100, v / 0x100 % 0x100, v % 0x100]
  }

  /** The 32-bit field whose most significant octet is at `offset` (readUint32Fn). */
  function ReadUint32(s: seq<uint8>, offset: nat): uint32
    requires offset + 4 <= |s|
  {
    s[offset] as int * 0x100_0000 + s[offset + 1] as int * 0x1_0000 + s[offset + 2] as int * 0x100
      + s[offset + 3]
  }

  /** Reading back a written field gives the field. */
  lemma ReadUint16OfBytes(v: uint16)
    ensures ReadUint16(Uint16Bytes(v), 0) == v
  {
  }

  lemma ReadUint32OfBytes(v: uint32)
    ensures ReadUint32(Uint32Bytes(v), 0) == v
  {
    var h := v / 0x1_0000;
    DivMod(h, v % 0x1_0000, 0x1_0000);
    DivMod(h / 0x100, h % 0x100, 0x100);
    DivMod(h * 0x100 + (v % 0x1_0000) / 0x100, (v % 0x1_0000) % 0x100, 0x100);
    DivMod(h, (v % 0x1_0000) / 0x100, 0x100);
  }

  /** Writing back a field that was read gives the octets it was read from. */
  lemma Uint16BytesOfRead(s: seq<uint8>, offset: nat)
    requires offset + 2 <= |s|
    ensures Uint16Bytes(ReadUint16(s, offset)) == s[offset..offset + 2]
  {
    var r := Uint16Bytes(ReadUint16(s, offset));
    assert r[0] == s[offset] && r[1] == s[offset + 1];
  }

  lemma Uint32BytesOfRead(s: seq<uint8>, offset: nat)
    requires offset + 4 <= |s|
    ensures Uint32Bytes(ReadUint32(s, offset)) == s[offset..offset + 4]
  {
    OctetsOfPack32(s[offset], s[offset + 1], s[offset + 2], s[offset + 3]);
    assert s[offset..offset + 4] == [s[offset], s[offset + 1], s[offset + 2], s[offset + 3]];
  }

  /** Unpacking four packed octets gives them back. */
  lemma OctetsOfPack32(a: uint8, b: uint8, c: uint8, d: uint8)
    ensures Uint32Bytes(a as int * 0x100_0000 + b as int * 0x1_0000 + c as int * 0x100 + d)
            == [a, b, c, d]
  {
    var v := a as int * 0x100_0000 + b as int * 0x1_0000 + c as int * 0x100 + d;
    DivMod(a, b as int * 0x1_0000 + c as int * 0x100 + d, 0x100_0000);
    DivMod(a as int * 0x100 + b, c as int * 0x100 + d, 0x1_0000);
    DivMod(a, b, 0x100);
    DivMod(a as int * 0x1_0000 + b as int * 0x100 + c, d, 0x100);
    DivMod(a as int * 0x100 + b, c, 0x100);
  }

  /** Division with remainder is unique. */
  lemma DivMod(q: int, r: int, m: int)
    requires 0 < m && 0 <= r < m
    ensures (q * m + r) / m == q && (q * m + r) % m == r
  {
    var k, j := (q * m + r) / m, (q * m + r) % m;
    assert (q - k) * m == j - r;
    if q > k {
      MulAtLeast(q - k, m);
    } else if q < k {
      MulAtLeast(k - q, m);
    }
  }

  lemma MulAtLeast(x: int, m: int)
    requires 1 <= x && 0 < m
    ensures x * m >= m
  {
    assert x * m == (x - 1) * m + m;
  }

  /** A field is read from the two octets at its offset and from nothing else. */
  lemma ReadUint16Local(s: seq<uint8>, offset: nat, t: seq<uint8>, at: nat)
    requires offset + 2 <= |s| && at + 2 <= |t|
    requires s[offset..offset + 2] == t[at..at + 2]
    ensures ReadUint16(s, offset) == ReadUint16(t, at)
  {
    assert s[offset] == t[at] && s[offset + 1] == t[at + 1];
  }

  /** A field read from octets that hold the written field `v` is `v`. */
  lemma ReadUint16At(s: seq<uint8>, offset: nat, v: uint16)
    requires offset + 2 <= |s| && s[offset..offset + 2] == Uint16Bytes(v)
    ensures ReadUint16(s, offset) == v
  {
    var t := Uint16Bytes(v);
    assert t[0..2] == t;
    ReadUint16Local(s, offset, t, 0);
    ReadUint16OfBytes(v);
  }

  /** A list of 32-bit words written back to back, each in network order. */
  function WordsBytes(ws: seq<uint32>): (r: seq<uint8>)
    ensures |r| == 4 * |ws|
  {
    if ws == [] then [] else WordsBytes(ws[..|ws| - 1]) + Uint32Bytes(ws[|ws| - 1])
  }

  /** The `n` words stored back to back from byte `offset` of `s`. */
  function ReadWords(s: seq<uint8>, offset: nat, n: nat): seq<uint32>
    requires offset + 4 * n <= |s|
  {
    seq(n, i requires 0 <= i < n => ReadUint32(s, offset + 4 * i))
  }

  /** Different 16-bit fields are written as different octets. */
  lemma Uint16BytesInjective(x: uint16, y: uint16)
    requires Uint16Bytes(x) == Uint16Bytes(y)
    ensures x == y
  {
    ReadUint16OfBytes(x);
    ReadUint16OfBytes(y);
  }

  /** Different words are written as different octets. */
  lemma Uint32BytesInjective(x: uint32, y: uint32)
    requires Uint32Bytes(x) == Uint32Bytes(y)
    ensures x == y
  {
    ReadUint32OfBytes(x);
    ReadUint32OfBytes(y);
  }

  /** Different word lists are written as different octets. */
  lemma {:induction false} WordsBytesInjective(xs: seq<uint32>, ys: seq<uint32>)
    requires WordsBytes(xs) == WordsBytes(ys)
    ensures xs == ys
  {
    if xs != [] {
      var n := |xs| - 1;
      var ex, ey := WordsBytes(xs[..n]), WordsBytes(ys[..n]);
      var lx, ly := Uint32Bytes(xs[n]), Uint32Bytes(ys[n]);
      assert ex + lx == ey + ly;
      assert (ex + lx)[..4 * n] == ex && (ey + ly)[..4 * n] == ey;
      assert (ex + lx)[4 * n..] == lx && (ey + ly)[4 * n..] == ly;
      WordsBytesInjective(xs[..n], ys[..n]);
      Uint32BytesInjective(xs[n], ys[n]);
      assert xs == xs[..n] + [xs[n]] && ys == ys[..n] + [ys[n]];
    }
  }

  /** Reading back octets that hold a written list gives the list. */
  lemma ReadWordsOfBytes(s: seq<uint8>, offset: nat, ws: seq<uint32>)
    requires offset + 4 * |ws| <= |s| && s[offset..offset + 4 * |ws|] == WordsBytes(ws)
    ensures ReadWords(s, offset, |ws|) == ws
  {
    WordsBytesOfRead(s, offset, |ws|);
    WordsBytesInjective(ReadWords(s, offset, |ws|), ws);
  }

  /** Writing back a list that was read gives the octets it was read from. */
  lemma {:induction false} WordsBytesOfRead(s: seq<uint8>, offset: nat, n: nat)
    requires offset + 4 * n <= |s|
    ensures WordsBytes(ReadWords(s, offset, n)) == s[offset..offset + 4 * n]
  {
    if n > 0 {
      var ws := ReadWords(s, offset, n);
      assert ws[..n - 1] == ReadWords(s, offset, n - 1);
      WordsBytesOfRead(s, offset, n - 1);
      Uint32BytesOfRead(s, offset + 4 * (n - 1));
      assert s[offset..offset + 4 * n]
          == s[offset..offset + 4 * (n - 1)] + s[offset + 4 * (n - 1)..offset + 4 * n];
    }
  }

  /**
   * Two sections written one after the other: if a first write put `x` at
   * `offset` and a second put `y` right after it, the buffer holds `x + y`
   * at `offset` and its original octets everywhere else.
   */
  lemma Compose(b0: seq<uint8>, b1: seq<uint8>, b2: seq<uint8>, offset: nat, x: seq<uint8>, y: seq<uint8>)
    requires offset + |x| + |y| <= |b0|
    requires b1 == b0[..offset] + x + b0[offset + |x|..]
    requires b2 == b1[..offset + |x|] + y + b1[offset + |x| + |y|..]
    ensures b2 == b0[..offset] + (x + y) + b0[offset + |x| + |y|..]
  {
    assert b1[..offset + |x|] == b0[..offset] + x;
    assert b1[offset + |x| + |y|..] == b0[offset + |x| + |y|..];
  }

  /** The four parts of an octet string laid out one after the other. */
  lemma Parts(a: seq<uint8>, b: seq<uint8>, c: seq<uint8>, d: seq<uint8>)
    ensures var s := a + (b + (c + d));
      && s[..|a|] == a
      && s[|a|..|a| + |b|] == b
      && s[|a| + |b|..|a| + |b| + |c|] == c
      && s[|a| + |b| + |c|..] == d
  {
    var s := a + (b + (c + d));
    assert s[|a|..] == b + (c + d);
    assert s[|a| + |b|..] == c + d;
  }

  /** Cutting an octet string in four places and joining the parts gives it back. */
  lemma Assemble(s: seq<uint8>, i: nat, j: nat, k: nat)
    requires i <= j <= k <= |s|
    ensures s[..i] + (s[i..j] + (s[j..k] + s[k..])) == s
  {
    assert s[j..k] + s[k..] == s[j..];
    assert s[i..j] + s[j..] == s[i..];
  }

  /** Where a slice of `s` equals `w`, the corresponding slices agree too. */
  lemma SliceOfEqual(s: seq<uint8>, a: nat, b: nat, w: seq<uint8>, c: nat, d: nat)
    requires a <= b <= |s| && s[a..b] == w && c <= d <= |w|
    ensures s[a + c..a + d] == w[c..d]
  {
    forall k | 0 <= k < d - c
      ensures s[a + c..a + d][k] == w[c..d][k]
    {
      assert s[a..b][c + k] == w[c + k];
    }
  }

  /** One more word written after the first `i` extends the written list by that word. */
  lemma WordStep(b0: seq<uint8>, b1: seq<uint8>, b2: seq<uint8>, offset: nat, ws: seq<uint32>, i: nat)
    requires i < |ws| && offset + 4 * |ws| <= |b0|
    requires b1 == b0[..offset] + WordsBytes(ws[..i]) + b0[offset + 4 * i..]
    requires b2 == b1[..offset + 4 * i] + Uint32Bytes(ws[i]) + b1[offset + 4 * i + 4..]
    ensures b2 == b0[..offset] + WordsBytes(ws[..i + 1]) + b0[offset + 4 * (i + 1)..]
  {
    Compose(b0, b1, b2, offset, WordsBytes(ws[..i]), Uint32Bytes(ws[i]));
    assert ws[..i + 1][..i] == ws[..i];
  }

  /** writeUint32Fn: stores `v` in network order at `offset` and touches nothing else. */
  method WriteUint32(buffer: array<uint8>, offset: nat, v: uint32)
    requires offset + 4 <= buffer.Length
    modifies buffer
    ensures buffer[..] == old(buffer[..offset]) + Uint32Bytes(v) + old(buffer[offset + 4..])
  {
    var b := Uint32Bytes(v);
    buffer[offset] := b[0];
    buffer[offset + 1] := b[1];
    buffer[offset + 2] := b[2];
    buffer[offset + 3] := b[3];
  }

  /** Stores a 16-bit field in network order at `offset`. */
  method WriteUint16(buffer: array<uint8>, offset: nat, v: uint16)
    requires offset + 2 <= buffer.Length
    modifies buffer
    ensures buffer[..] == old(buffer[..offset]) + Uint16Bytes(v) + old(buffer[offset + 2..])
  {
    var b := Uint16Bytes(v);
    buffer[offset] := b[0];
    buffer[offset + 1] := b[1];
  }

  /** Stores a list of words back to back from `offset`, one word per step. */
  method WriteWords(buffer: array<uint8>, offset: nat, ws: seq<uint32>)
    requires offset + 4 * |ws| <= buffer.Length
    modifies buffer
    ensures buffer[..] == old(buffer[..offset]) + WordsBytes(ws) + old(buffer[offset + 4 * |ws|..])
  {
    var i := 0;
    while i < |ws|
      invariant 0 <= i <= |ws|
      invariant buffer[..] == old(buffer[..offset]) + WordsBytes(ws[..i]) + old(buffer[offset + 4 * i..])
    {
      ghost var before := buffer[..];
      WriteUint32(buffer, offset + 4 * i, ws[i]);
      WordStep(old(buffer[..]), before, buffer[..], offset, ws, i);
      i := i + 1;
    }
    assert ws[..i] == ws;
  }

  /** Copies `bytes` verbatim to `offset`. */
  method WriteBytes(buffer: array<uint8>, offset: nat, bytes: seq<uint8>)
    requires offset + |bytes| <= buffer.Length
    modifies buffer
    ensures buffer[..] == old(buffer[..offset]) + bytes + old(buffer[offset + |bytes|..])
  {
    var i := 0;
    while i < |bytes|
      invariant 0 <= i <= |bytes|
      invariant forall k :: 0 <= k < offset ==> buffer[k] == old(buffer[k])
      invariant forall k :: 0 <= k < i ==> buffer[offset + k] == bytes[k]
      invariant forall k :: offset + i <= k < buffer.Length ==> buffer[k] == old(buffer[k])
    {
      buffer[offset + i] := bytes[i];
      i := i + 1;
    }
    ghost var expected := old(buffer[..offset]) + bytes + old(buffer[offset + |bytes|..]);
    assert |expected| == buffer.Length;
    forall k | 0 <= k < buffer.Length
      ensures buffer[k] == expected[k]
    {
      if k >= offset + |bytes| {
        assert expected[k] == old(buffer[k]);
      } else if k >= offset {
        assert buffer[offset + (k - offset)] == bytes[k - offset];
      }
    }
  }
}
