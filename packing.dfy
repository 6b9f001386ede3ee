/**
 * The layouts the pixel rules undo. Each `Decode` lemma lays a stream of
 * component values out the way its rule expects (bytes side by side, 16-bit
 * words, 12-bit values left-justified in 16-bit words, 10-bit values three to
 * a 32-bit word) and shows that readComponent gives back the top eight bits
 * of the component it addresses.
 */
module Packing {
  import opened Results
  import opened Bytes
  import opened Layout
  import opened Header
  import opened Pixel

  lemma Pow2Values()
    ensures Pow2(4) == 0x10 && Pow2(8) == 0x100 && Pow2(14) == 0x4000 && Pow2(24) == 0x100_0000
  {
    assert Pow2(2) == 4;
    assert Pow2(4) == 0x10;
    assert Pow2(6) == 0x40;
    assert Pow2(8) == 0x100;
    assert Pow2(10) == 0x400;
    assert Pow2(12) == 0x1000;
    assert Pow2(14) == 0x4000;
    assert Pow2(16) == 0x1_0000;
    assert Pow2(18) == 0x4_0000;
    assert Pow2(20) == 0x10_0000;
    assert Pow2(22) == 0x40_0000;
  }

  /** Three 10-bit fields in one 32-bit word, most significant first, above two padding bits. */
  function Pack10(f0: int, f1: int, f2: int): (w: int)
    requires 0 <= f0 < 0x400 && 0 <= f1 < 0x400 && 0 <= f2 < 0x400
    ensures 0 <= w < TWO32
  {
    f0 * 0x40_0000 + f1 * 0x1000 + f2 * 4
  }

  /** Shifting by 24, 14 or 4 and masking keeps the top eight bits of field 0, 1 or 2. */
  lemma Unpack10(f0: int, f1: int, f2: int, j: nat)
    requires 0 <= f0 < 0x400 && 0 <= f1 < 0x400 && 0 <= f2 < 0x400
    requires j < 3
    ensures Low8(Ushr(Pack10(f0, f1, f2), 24 - 10 * j)) == [f0, f1, f2][j] / 4
  {
    Pow2Values();
    var w := Pack10(f0, f1, f2);
    if j == 0 {
      ShiftedByte(w, 24, 0x100_0000, f0 / 4, (f0 % 4) * 0x40_0000 + f1 * 0x1000 + f2 * 4, 0, f0 / 4);
    } else if j == 1 {
      ShiftedByte(w, 14, 0x4000, f0 * 0x100 + f1 / 4, (f1 % 4) * 0x1000 + f2 * 4, f0, f1 / 4);
    } else {
      ShiftedByte(w, 4, 0x10, f0 * 0x4_0000 + f1 * 0x100 + f2 / 4, (f2 % 4) * 4, f0 * 0x400 + f1, f2 / 4);
    }
  }

  /** If w = q 2^n + r with r < 2^n and q = 256 a + b, then (w >>> n) & 0xFF is b. */
  lemma ShiftedByte(w: int, n: nat, p: nat, q: int, r: int, a: int, b: int)
    requires 0 <= w < TWO32 && n < 32 && Pow2(n) == p
    requires 0 <= r < p && w == q * p + r
    requires 0 <= a && 0 <= b < 0x100 && q == a * 0x100 + b
    ensures Low8(Ushr(w, n)) == b
  {
    ShiftRightDiv(w, n);
    DivModUnique(w, p, q, r);
    DivModUnique(q, 0x100, a, b);
  }

  predicate Values(s: seq<int>, bound: int)
  {
    forall i :: 0 <= i < |s| ==> 0 <= s[i] < bound
  }

  /** A stream of 10-bit components packed three to a word. */
  function Pack10Stream(s: seq<int>): (ws: seq<int>)
    requires Values(s, 0x400) && |s| % 3 == 0
    ensures |ws| == |s| / 3
    ensures forall j :: 0 <= j < |ws| ==> 0 <= ws[j] < TWO32
    decreases |s|
  {
    if s == [] then [] else [Pack10(s[0], s[1], s[2])] + Pack10Stream(s[3..])
  }

  /** Word j of the packed stream holds components 3j, 3j + 1 and 3j + 2. */
  lemma {:induction false} Pack10StreamAt(s: seq<int>, j: nat)
    requires Values(s, 0x400) && |s| % 3 == 0 && 3 * j + 3 <= |s|
    ensures Pack10Stream(s)[j] == Pack10(s[3 * j], s[3 * j + 1], s[3 * j + 2])
  {
    if j > 0 {
      var rest := s[3..];
      Pack10StreamAt(rest, j - 1);
      assert rest[3 * (j - 1)] == s[3 * j] && rest[3 * (j - 1) + 1] == s[3 * j + 1] && rest[3 * (j - 1) + 2] == s[3 * j + 2];
    }
  }

  /** 12-bit components left-justified in 16-bit words (four low padding bits). */
  function Justify12(s: seq<int>): (ws: seq<int>)
    requires Values(s, 0x1000)
    ensures |ws| == |s| && Values(ws, TWO16)
    ensures forall i :: 0 <= i < |s| ==> ws[i] == s[i] * 0x10
  {
    seq(|s|, i requires 0 <= i < |s| => s[i] * 0x10)
  }

  /** `buf` holds `region` starting at the header's image-data offset. */
  predicate ImageDataIs(h: ImageHeader, buf: seq<Byte>, region: seq<Byte>)
  {
    0 <= h.offset && h.offset + |region| <= |buf| && buf[h.offset..h.offset + |region|] == region
  }

  /** 8-bit: the image data is the component bytes, n per pixel, row by row. */
  lemma {:induction false} Decode8(h: ImageHeader, buf: seq<Byte>, s: seq<Byte>, x: nat, y: nat, c: nat)
    requires h.bitSize == 8 && h.description in DescriptionCodes
    requires ImageDataIs(h, buf, s)
    requires 0 <= PixelIndex(h, x, y) * NumComponents(h.description).value + c < |s|
    ensures ReadComponent(h, buf, x, y, c) ==
      Ok(s[PixelIndex(h, x, y) * NumComponents(h.description).value + c])
  {
    var i := PixelIndex(h, x, y) * NumComponents(h.description).value + c;
    assert buf[h.offset + i] == buf[h.offset..h.offset + |s|][i];
  }

  /** 16-bit: the image data is 16-bit words, n per pixel; a read gives the word's most significant byte. */
  lemma {:induction false} Decode16(h: ImageHeader, buf: seq<Byte>, ws: seq<int>, x: nat, y: nat, c: nat)
    requires h.bitSize == 16 && h.description in DescriptionCodes && Values(ws, TWO16)
    requires ImageDataIs(h, buf, Words16(ws, h.littleEndian))
    requires 0 <= PixelIndex(h, x, y) * NumComponents(h.description).value + c < |ws|
    ensures ReadComponent(h, buf, x, y, c) ==
      Ok(Bytes16(ws[PixelIndex(h, x, y) * NumComponents(h.description).value + c], false)[0])
  {
    var n := NumComponents(h.description).value;
    var i := PixelIndex(h, x, y) * n + c;
    Address16Words(h, n, x, y, c);
    U16ReadsWords16(buf, h.offset, ws, h.littleEndian, i);
    assert ReadComponent(h, buf, x, y, c) == Read16(h, n, buf, x, y, c);
  }

  lemma Address16Words(h: ImageHeader, n: nat, x: nat, y: nat, c: nat)
    ensures Address16(h, n, x, y, c) == h.offset + 2 * (PixelIndex(h, x, y) * n + c)
  {
  }

  /** 12-bit: three left-justified components per pixel; a read gives a component's top eight bits. */
  /** The 12-bit rule on any word: the word's most significant byte, whatever its low four bits hold. */
  lemma Read12Word(h: ImageHeader, buf: seq<Byte>, x: nat, y: nat, c: nat, w: int)
    requires h.bitSize == 12
    requires U16(buf, Address12(h, x, y, c), h.littleEndian) == Some(w)
    ensures ReadComponent(h, buf, x, y, c) == Ok(w / 0x100)
  {
    Pow2Values();
  }

  lemma {:induction false} Decode12(h: ImageHeader, buf: seq<Byte>, s: seq<int>, x: nat, y: nat, c: nat)
    requires h.bitSize == 12 && Values(s, 0x1000)
    requires ImageDataIs(h, buf, Words16(Justify12(s), h.littleEndian))
    requires 0 <= PixelIndex(h, x, y) * 3 + c < |s|
    ensures ReadComponent(h, buf, x, y, c) == Ok(s[PixelIndex(h, x, y) * 3 + c] / 0x10)
  {
    var i := PixelIndex(h, x, y) * 3 + c;
    var words := Justify12(s);
    U16ReadsWords16(buf, h.offset, words, h.littleEndian, i);
    assert Address12(h, x, y, c) == h.offset + 2 * i;
    assert words[i] == s[i] * 0x10;
    Top8Of12(s[i]);
    assert Read12(h, buf, x, y, c) == Ok(s[i] / 0x10);
  }

  /** Shifting a left-justified 12-bit value right by 8 and masking keeps its top eight bits. */
  lemma Top8Of12(v: int)
    requires 0 <= v < 0x1000
    ensures Low8(Ushr(v * 0x10, 8)) == v / 0x10
  {
    Pow2Values();
    ShiftedByte(v * 0x10, 8, 0x100, v / 0x10, (v % 0x10) * 0x10, 0, v / 0x10);
  }

  /** Field k of word j of a packed stream gives component 3j + k's top eight bits. */
  lemma Unpack10At(s: seq<int>, j: nat, k: nat)
    requires Values(s, 0x400) && |s| % 3 == 0
    requires 3 * j + 3 <= |s| && k < 3
    ensures j < |Pack10Stream(s)|
    ensures Low8(Ushr(Pack10Stream(s)[j], 24 - 10 * k)) == s[3 * j + k] / 4
  {
    Pack10StreamAt(s, j);
    Unpack10(s[3 * j], s[3 * j + 1], s[3 * j + 2], k);
    assert [s[3 * j], s[3 * j + 1], s[3 * j + 2]][k] == s[3 * j + k];
  }

  /** 10-bit RGB (code 50): one word per pixel; channels 0 to 2 give each field's top eight bits. */
  lemma {:induction false} Decode10Rgb(h: ImageHeader, buf: seq<Byte>, s: seq<int>, x: nat, y: nat, c: nat)
    requires h.bitSize == 10 && h.description == 50
    requires Values(s, 0x400) && |s| % 3 == 0
    requires ImageDataIs(h, buf, Words32(Pack10Stream(s), h.littleEndian))
    requires 0 <= PixelIndex(h, x, y) && 3 * PixelIndex(h, x, y) + 3 <= |s| && c < 3
    ensures ReadComponent(h, buf, x, y, c) == Ok(s[3 * PixelIndex(h, x, y) + c] / 4)
  {
    var p := PixelIndex(h, x, y);
    PackedComponent(buf, h.offset, s, h.littleEndian, p, c);
    Read10RgbWord(h, buf, x, y, c, Pack10Stream(s)[p]);
  }

  /** The 10-bit RGB rule applied to field c of the pixel's word `w`. */
  lemma Read10RgbWord(h: ImageHeader, buf: seq<Byte>, x: nat, y: nat, c: nat, w: int)
    requires h.bitSize == 10 && h.description == 50 && c < 3
    requires U32(buf, h.offset + 4 * PixelIndex(h, x, y), h.littleEndian) == Some(w)
    ensures 0 <= w < TWO32
    ensures ReadComponent(h, buf, x, y, c) == Ok(Low8(Ushr(w, 24 - 10 * c)))
  {
    assert Address10Rgb(h, x, y) == h.offset + 4 * PixelIndex(h, x, y);
  }

  /** Component 3j + k of a packed stream: the read of word j and the field the shift for k selects. */
  lemma PackedComponent(buf: seq<Byte>, base: nat, s: seq<int>, le: bool, j: nat, k: nat)
    requires Values(s, 0x400) && |s| % 3 == 0 && 3 * j + 3 <= |s| && k < 3
    requires base + 4 * (|s| / 3) <= |buf| && buf[base..base + 4 * (|s| / 3)] == Words32(Pack10Stream(s), le)
    ensures j < |Pack10Stream(s)|
    ensures U32(buf, base + 4 * j, le) == Some(Pack10Stream(s)[j])
    ensures Low8(Ushr(Pack10Stream(s)[j], 24 - 10 * k)) == s[3 * j + k] / 4
  {
    U32ReadsWords32(buf, base, Pack10Stream(s), le, j);
    Unpack10At(s, j, k);
  }

  /** 10-bit RGBA (code 51): four components per pixel, three per word across pixel boundaries. */
  lemma {:induction false} Decode10Rgba(h: ImageHeader, buf: seq<Byte>, s: seq<int>, x: nat, y: nat, c: nat)
    requires h.bitSize == 10 && h.description == 51
    requires Values(s, 0x400) && |s| % 3 == 0
    requires ImageDataIs(h, buf, Words32(Pack10Stream(s), h.littleEndian))
    requires 0 <= ComponentIndex10Rgba(h, x, y, c) < |s|
    ensures ReadComponent(h, buf, x, y, c) == Ok(s[ComponentIndex10Rgba(h, x, y, c)] / 4)
  {
    var i := ComponentIndex10Rgba(h, x, y, c);
    var j, k := i / 3, i % 3;
    Split3(i, |s|);
    PackedComponent(buf, h.offset, s, h.littleEndian, j, k);
    Read10RgbaWord(h, buf, x, y, c, j, k, Pack10Stream(s)[j]);
  }

  /** Component i < n of a stream of n = 3m components lies in word i / 3, at field i % 3. */
  lemma Split3(i: int, n: int)
    requires 0 <= i < n && n % 3 == 0
    ensures i == 3 * (i / 3) + i % 3 && 0 <= i / 3 && i % 3 < 3 && 3 * (i / 3) + 3 <= n
  {
    DivModUnique(n, 3, n / 3, 0);
  }

  /** The 10-bit RGBA rule applied to component 3j + k, whose word is `w`. */
  lemma Read10RgbaWord(h: ImageHeader, buf: seq<Byte>, x: nat, y: nat, c: nat, j: nat, k: nat, w: int)
    requires h.bitSize == 10 && h.description == 51
    requires ComponentIndex10Rgba(h, x, y, c) == 3 * j + k && k < 3
    requires U32(buf, h.offset + 4 * j, h.littleEndian) == Some(w)
    ensures 0 <= w < TWO32
    ensures ReadComponent(h, buf, x, y, c) == Ok(Low8(Ushr(w, 24 - 10 * k)))
  {
    DivModUnique(3 * j + k, 3, j, k);
    assert Address10Rgba(h, x, y, c) == h.offset + 4 * j;
  }

  /**
   * An 8-bit image with one channel per pixel still has channels 1 and 2 read:
   * channel 1 of pixel (x, y) is the byte of channel 0 of the next pixel in
   * row-major order.
   */
  lemma SingleChannelOverlap(h: ImageHeader, buf: seq<Byte>, x: nat, y: nat)
    requires h.bitSize == 8 && NumComponents(h.description) == Some(1)
    ensures ReadComponent(h, buf, x, y, 1).Ok? <==> ReadComponent(h, buf, x + 1, y, 0).Ok?
    ensures ReadComponent(h, buf, x, y, 1).Ok? ==>
      ReadComponent(h, buf, x, y, 1).value == ReadComponent(h, buf, x + 1, y, 0).value
  {
    assert Address8(h, 1, x, y, 1) == Address8(h, 1, x + 1, y, 0);
  }
}
