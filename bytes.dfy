/**
 * The DataView reads the decoder relies on: unsigned 8-, 16- and 32-bit
 * integers at a byte offset, multi-byte ones in either byte order, failing
 * (DataView throws a RangeError) when the read runs past the end of the buffer.
 * Beside the readers sit the matching encoders, so that every read has an inverse.
 */
module Bytes {
  import opened Results

  type Byte = b: int | 0 <= b < 256

  const TWO16: int := 0x1_0000
  const TWO32: int := 0x1_0000_0000

  /** Value of two bytes; `le` selects little-endian order. */
  function Word16(s: seq<Byte>, le: bool): (w: int)
    requires |s| == 2
    ensures 0 <= w < TWO16
  {
    if le then s[1] as int * 0x100 + s[0] else s[0] as int * 0x100 + s[1]
  }

  /** Value of four bytes; `le` selects little-endian order. */
  function Word32(s: seq<Byte>, le: bool): (w: int)
    requires |s| == 4
    ensures 0 <= w < TWO32
  {
    if le then s[3] as int * 0x100_0000 + s[2] as int * 0x1_0000 + s[1] as int * 0x100 + s[0]
    else s[0] as int * 0x100_0000 + s[1] as int * 0x1_0000 + s[2] as int * 0x100 + s[3]
  }

  /** The two bytes that hold `w` in the given order. */
  function Bytes16(w: int, le: bool): (s: seq<Byte>)
    requires 0 <= w < TWO16
    ensures |s| == 2
  {
    var hi, lo := w / 0x100, w % 0x100;
    if le then [lo, hi] else [hi, lo]
  }

  /** The four bytes that hold `w` in the given order. */
  function Bytes32(w: int, le: bool): (s: seq<Byte>)
    requires 0 <= w < TWO32
    ensures |s| == 4
  {
    var b0, b1, b2, b3 := w / 0x100_0000, (w / 0x1_0000) % 0x100, (w / 0x100) % 0x100, w % 0x100;
    if le then [b3, b2, b1, b0] else [b0, b1, b2, b3]
  }

  /** getUint8: the byte at `off`, or None when `off` is outside the buffer. */
  function U8(buf: seq<Byte>, off: int): (r: Option<Byte>)
    ensures r.Some? <==> 0 <= off < |buf|
    ensures r.Some? ==> r.value == buf[off]
  {
    if 0 <= off < |buf| then Some(buf[off]) else None
  }

  /** getUint16: the word at `off..off+2`, or None when it does not fit. */
  function U16(buf: seq<Byte>, off: int, le: bool): (r: Option<int>)
    ensures r.Some? <==> 0 <= off && off + 2 <= |buf|
    ensures r.Some? ==> 0 <= r.value < TWO16 && Bytes16(r.value, le) == buf[off..off + 2]
  {
    if 0 <= off && off + 2 <= |buf| then
      var w := Word16(buf[off..off + 2], le);
      Bytes16Word16(buf[off..off + 2], le);
      Some(w)
    else None
  }

  /** getUint32: the word at `off..off+4`, or None when it does not fit. */
  function U32(buf: seq<Byte>, off: int, le: bool): (r: Option<int>)
    ensures r.Some? <==> 0 <= off && off + 4 <= |buf|
    ensures r.Some? ==> 0 <= r.value < TWO32 && Bytes32(r.value, le) == buf[off..off + 4]
  {
    if 0 <= off && off + 4 <= |buf| then
      var w := Word32(buf[off..off + 4], le);
      Bytes32Word32(buf[off..off + 4], le);
      Some(w)
    else None
  }

  // ---- round trips between values and their byte encodings ----

  lemma Word16Bytes16(w: int, le: bool)
    requires 0 <= w < TWO16
    ensures Word16(Bytes16(w, le), le) == w
  {
  }

  lemma Bytes16Word16(s: seq<Byte>, le: bool)
    requires |s| == 2
    ensures Bytes16(Word16(s, le), le) == s
  {
  }

  lemma Word32Bytes32(w: int, le: bool)
    requires 0 <= w < TWO32
    ensures Word32(Bytes32(w, le), le) == w
  {
    SplitDigits(w);
  }

  /** A 32-bit word is the sum of its four base-256 digits, as Bytes32 takes them. */
  lemma SplitDigits(w: int)
    requires 0 <= w < TWO32
    ensures w == (w / 0x100_0000) * 0x100_0000 + ((w / 0x1_0000) % 0x100) * 0x1_0000 +
                 ((w / 0x100) % 0x100) * 0x100 + w % 0x100
  {
    var q1, r0 := w / 0x100, w % 0x100;
    var q2, r1 := q1 / 0x100, q1 % 0x100;
    var q3, r2 := q2 / 0x100, q2 % 0x100;
    assert w == q1 * 0x100 + r0 && q1 == q2 * 0x100 + r1 && q2 == q3 * 0x100 + r2;
    assert w == q2 * 0x1_0000 + (r1 * 0x100 + r0);
    assert w == q3 * 0x100_0000 + (r2 * 0x1_0000 + r1 * 0x100 + r0);
    DivModUnique(w, 0x1_0000, q2, r1 * 0x100 + r0);
    DivModUnique(w, 0x100_0000, q3, r2 * 0x1_0000 + r1 * 0x100 + r0);
  }

  /** Quotient and remainder are unique. */
  lemma DivModUnique(a: int, d: int, q: int, r: int)
    requires 0 < d && 0 <= r < d && a == q * d + r
    ensures a / d == q && a % d == r
  {
    var q', r' := a / d, a % d;
    assert (q - q') * d == r' - r;
    if q > q' {
      AtLeastOnce(q - q', d);
    } else if q < q' {
      AtLeastOnce(q' - q, d);
    }
  }

  lemma {:induction false} AtLeastOnce(k: int, d: int)
    requires 1 <= k && 0 < d
    ensures k * d >= d
  {
    if k > 1 {
      AtLeastOnce(k - 1, d);
      assert k * d == (k - 1) * d + d;
    }
  }


  lemma Bytes32Word32(s: seq<Byte>, le: bool)
    requires |s| == 4
    ensures Bytes32(Word32(s, le), le) == s
  {
    var b := if le then [s[3], s[2], s[1], s[0]] else s;
    var w := Word32(s, le);
    assert w == b[0] as int * 0x100_0000 + b[1] as int * 0x1_0000 + b[2] as int * 0x100 + b[3];
    DigitsOf(b[0], b[1], b[2], b[3], w);
  }

  /** Base-256 digits are unique: the byte split of a 32-bit word gives back its digits. */
  lemma DigitsOf(b0: Byte, b1: Byte, b2: Byte, b3: Byte, w: int)
    requires w == b0 as int * 0x100_0000 + b1 as int * 0x1_0000 + b2 as int * 0x100 + b3
    ensures w / 0x100_0000 == b0 && (w / 0x1_0000) % 0x100 == b1
    ensures (w / 0x100) % 0x100 == b2 && w % 0x100 == b3
  {
    var low24 := b1 as int * 0x1_0000 + b2 as int * 0x100 + b3;
    assert 0 <= low24 < 0x100_0000;
    var low16 := b2 as int * 0x100 + b3;
    assert 0 <= low16 < 0x1_0000;
    assert w / 0x1_0000 == b0 as int * 0x100 + b1;
    assert w / 0x100 == (b0 as int * 0x100 + b1) * 0x100 + b2;
  }

  /** A little-endian read is a big-endian read of the reversed bytes. */
  lemma Word32Reversed(s: seq<Byte>)
    requires |s| == 4
    ensures Word32(s, true) == Word32([s[3], s[2], s[1], s[0]], false)
  {
  }

  // ---- reading back words that were laid out one after another ----

  /** Consecutive 16-bit words in the given byte order. */
  function Words16(ws: seq<int>, le: bool): (s: seq<Byte>)
    requires forall i :: 0 <= i < |ws| ==> 0 <= ws[i] < TWO16
    ensures |s| == 2 * |ws|
  {
    if ws == [] then [] else Words16(ws[..|ws| - 1], le) + Bytes16(ws[|ws| - 1], le)
  }

  /** Consecutive 32-bit words in the given byte order. */
  function Words32(ws: seq<int>, le: bool): (s: seq<Byte>)
    requires forall i :: 0 <= i < |ws| ==> 0 <= ws[i] < TWO32
    ensures |s| == 4 * |ws|
  {
    if ws == [] then [] else Words32(ws[..|ws| - 1], le) + Bytes32(ws[|ws| - 1], le)
  }

  lemma {:induction false} Words16At(ws: seq<int>, le: bool, i: nat)
    requires forall j :: 0 <= j < |ws| ==> 0 <= ws[j] < TWO16
    requires i < |ws|
    ensures Words16(ws, le)[2 * i..2 * i + 2] == Bytes16(ws[i], le)
  {
    var last := |ws| - 1;
    var front := ws[..last];
    var a, b := Words16(front, le), Bytes16(ws[last], le);
    assert Words16(ws, le) == a + b;
    assert |a| == 2 * last && |b| == 2;
    if i < last {
      assert a[2 * i..2 * i + 2] == Bytes16(ws[i], le) by {
        Words16At(front, le, i);
        assert front[i] == ws[i];
      }
      SliceOfPrefix(a, b, 2 * i, 2 * i + 2);
    } else {
      SliceOfSuffix(a, b);
    }
  }

  lemma {:induction false} Words32At(ws: seq<int>, le: bool, i: nat)
    requires forall j :: 0 <= j < |ws| ==> 0 <= ws[j] < TWO32
    requires i < |ws|
    ensures Words32(ws, le)[4 * i..4 * i + 4] == Bytes32(ws[i], le)
  {
    var last := |ws| - 1;
    var front := ws[..last];
    var a, b := Words32(front, le), Bytes32(ws[last], le);
    assert Words32(ws, le) == a + b;
    assert |a| == 4 * last && |b| == 4;
    if i < last {
      assert a[4 * i..4 * i + 4] == Bytes32(ws[i], le) by {
        Words32At(front, le, i);
        assert front[i] == ws[i];
      }
      SliceOfPrefix(a, b, 4 * i, 4 * i + 4);
    } else {
      SliceOfSuffix(a, b);
    }
  }

  /** A slice inside the left operand of a concatenation. */
  lemma SliceOfPrefix<T>(a: seq<T>, b: seq<T>, i: nat, j: nat)
    requires i <= j <= |a|
    ensures (a + b)[i..j] == a[i..j]
  {
  }

  /** The right operand of a concatenation, sliced back out. */
  lemma SliceOfSuffix<T>(a: seq<T>, b: seq<T>)
    ensures (a + b)[|a|..|a| + |b|] == b
  {
  }

  /** Reading word `i` of a region laid out with Words16 returns that word. */
  lemma U16ReadsWords16(buf: seq<Byte>, base: nat, ws: seq<int>, le: bool, i: nat)
    requires forall j :: 0 <= j < |ws| ==> 0 <= ws[j] < TWO16
    requires base + 2 * |ws| <= |buf| && buf[base..base + 2 * |ws|] == Words16(ws, le)
    requires i < |ws|
    ensures U16(buf, base + 2 * i, le) == Some(ws[i])
  {
    var off := base + 2 * i;
    var region := buf[base..base + 2 * |ws|];
    assert region[2 * i..2 * i + 2] == Bytes16(ws[i], le) by {
      Words16At(ws, le, i);
    }
    assert buf[off..off + 2] == region[2 * i..2 * i + 2] by {
      SliceOfSlice(buf, base, base + 2 * |ws|, 2 * i, 2 * i + 2);
    }
    Word16Bytes16(ws[i], le);
    assert U16(buf, off, le) == Some(Word16(buf[off..off + 2], le));
  }

  /** Reading word `i` of a region laid out with Words32 returns that word. */
  lemma U32ReadsWords32(buf: seq<Byte>, base: nat, ws: seq<int>, le: bool, i: nat)
    requires forall j :: 0 <= j < |ws| ==> 0 <= ws[j] < TWO32
    requires base + 4 * |ws| <= |buf| && buf[base..base + 4 * |ws|] == Words32(ws, le)
    requires i < |ws|
    ensures U32(buf, base + 4 * i, le) == Some(ws[i])
  {
    var off := base + 4 * i;
    var region := buf[base..base + 4 * |ws|];
    assert region[4 * i..4 * i + 4] == Bytes32(ws[i], le) by {
      Words32At(ws, le, i);
    }
    assert buf[off..off + 4] == region[4 * i..4 * i + 4] by {
      SliceOfSlice(buf, base, base + 4 * |ws|, 4 * i, 4 * i + 4);
    }
    Word32Bytes32(ws[i], le);
    assert U32(buf, off, le) == Some(Word32(buf[off..off + 4], le));
  }

  lemma SliceOfSlice(buf: seq<Byte>, a: nat, b: nat, i: nat, j: nat)
    requires a <= b <= |buf| && i <= j <= b - a
    ensures buf[a..b][i..j] == buf[a + i..a + j]
  {
    assert forall k :: 0 <= k < j - i ==> buf[a..b][i..j][k] == buf[a + i + k];
  }
}
