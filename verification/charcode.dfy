/** `Parser::hexCode`: the character code of one character as fixed-width
    lower-case hexadecimal. The codec is not part of the model: the bytes it
    produced for the character are the input. */
module CharCode {
  import opened Text
  import opened Format

  const Low16: bv64 := 0x0000_0000_0000_ffff
  const High48: bv64 := 0xffff_ffff_ffff_0000
  const Low32: bv64 := 0x0000_0000_ffff_ffff
  const High32: bv64 := 0xffff_ffff_0000_0000

  /** The unsigned value of a byte. */
  function Nat8(x: bv8): (n: nat)
    ensures n < 0x100
  {
    x as nat
  }

  /** The unsigned value of a 16-bit word. */
  function Nat16(x: bv16): (n: nat)
    ensures n < 0x1_0000
  {
    x as nat
  }

  /** The unsigned value of a 32-bit word. */
  function Nat32(x: bv32): (n: nat)
    ensures n < 0x1_0000_0000
  {
    x as nat
  }

  /** The unsigned value of a 64-bit word. */
  function Nat64(x: bv64): (n: nat)
    ensures n < 0x1_0000_0000_0000_0000
  {
    x as nat
  }

  function Pow256(n: nat): (p: nat)
    ensures p >= 1
  {
    if n == 0 then 1 else 256 * Pow256(n - 1)
  }

  lemma {:induction false} Pow256IsPow16(n: nat)
    ensures Pow256(n) == Pow16(2 * n)
  {
    if n > 0 {
      Pow256IsPow16(n - 1);
    }
  }

  /** The bytes read as one unsigned big-endian number. */
  function BigEndian(s: seq<bv8>): nat
    decreases |s|
  {
    if |s| == 0 then 0 else 256 * BigEndian(s[..|s| - 1]) + Nat8(s[|s| - 1])
  }

  /** `code = (code << 8) | byte` over the given bytes, in 64-bit arithmetic. */
  function Fold(s: seq<bv8>): bv64
    decreases |s|
  {
    if |s| == 0 then 0 else (Fold(s[..|s| - 1]) << 8) | (s[|s| - 1] as bv64)
  }

  function Min(a: int, b: int): int { if a < b then a else b }

  /** The accumulator after the source's loop, which stops after 8 bytes. */
  function Accumulate(bytes: seq<bv8>): (a: bv64)
    ensures Nat64(a) == BigEndian(bytes[..Min(|bytes|, 8)])
  {
    FoldIsBigEndian(bytes[..Min(|bytes|, 8)]);
    Fold(bytes[..Min(|bytes|, 8)])
  }

  lemma ShiftInByte(x: bv64, b: bv8)
    requires Nat64(x) < 0x100_0000_0000_0000
    ensures Nat64((x << 8) | (b as bv64)) == 256 * Nat64(x) + Nat8(b)
  {
  }

  lemma {:induction false} Pow256Monotone(a: nat, b: nat)
    requires a <= b
    ensures Pow256(a) <= Pow256(b)
    decreases b
  {
    if a < b {
      Pow256Monotone(a, b - 1);
    }
  }

  lemma Pow256Bound(n: nat)
    requires n <= 7
    ensures Pow256(n) <= 0x100_0000_0000_0000
  {
    Pow256Monotone(n, 7);
    assert Pow256(2) == 0x1_0000;
    assert Pow256(4) == 0x1_0000_0000;
    assert Pow256(7) == 0x100_0000_0000_0000;
  }

  /** One more byte shifted into an accumulator below 2 to the 56th: the
      value is multiplied by 256 and the byte added. */
  lemma FoldShift(s: seq<bv8>)
    requires |s| > 0 && Nat64(Fold(s[..|s| - 1])) < 0x100_0000_0000_0000
    ensures Nat64(Fold(s)) == 256 * Nat64(Fold(s[..|s| - 1])) + Nat8(s[|s| - 1])
  {
    ShiftInByte(Fold(s[..|s| - 1]), s[|s| - 1]);
  }

  /** Up to 8 bytes, the 64-bit fold loses nothing: it is the big-endian value. */
  lemma {:induction false} FoldIsBigEndian(s: seq<bv8>)
    requires |s| <= 8
    ensures Nat64(Fold(s)) == BigEndian(s)
    ensures BigEndian(s) < Pow256(|s|)
    decreases |s|
  {
    if |s| > 0 {
      var p := s[..|s| - 1];
      FoldIsBigEndian(p);
      Pow256Bound(|p|);
      FoldShift(s);
      assert BigEndian(s) == 256 * BigEndian(p) + Nat8(s[|s| - 1]);
    }
  }

  /** The UTF-16 reordering: bytes 0 and 1 of the accumulator trade places and
      the upper 48 bits stay as they are. */
  function Swap16(code: bv64): (r: bv64)
    ensures r & High48 == code & High48
    ensures r & 0xff == (code >> 8) & 0xff
    ensures (r >> 8) & 0xff == code & 0xff
  {
    var a := ((code & 0x0000_0000_0000_ff00) >> 8) | ((code & 0x0000_0000_0000_00ff) << 8);
    (code & High48) | a
  }

  /** The UTF-32 reordering: the four low bytes are reversed and the upper 32
      bits stay as they are. */
  function Reverse32(code: bv64): (r: bv64)
    ensures r & High32 == code & High32
    ensures r & 0xff == (code >> 24) & 0xff
    ensures (r >> 8) & 0xff == (code >> 16) & 0xff
    ensures (r >> 16) & 0xff == (code >> 8) & 0xff
    ensures (r >> 24) & 0xff == code & 0xff
  {
    var a :=
      ((code & 0x0000_0000_ff00_0000) >> 24) |
      ((code & 0x0000_0000_00ff_0000) >> 8) |
      ((code & 0x0000_0000_0000_ff00) << 8) |
      ((code & 0x0000_0000_0000_00ff) << 24);
    (code & High32) | a
  }

  lemma Pow16Values()
    ensures Pow16(4) == 0x1_0000
    ensures Pow16(8) == 0x1_0000_0000
    ensures Pow16(16) == 0x1_0000_0000_0000_0000
  {
    assert Pow16(2) == 0x100;
    assert Pow16(4) == 0x1_0000;
    assert Pow16(6) == 0x100_0000;
    assert Pow16(8) == 0x1_0000_0000;
    assert Pow16(10) == 0x100_0000_0000;
    assert Pow16(12) == 0x1_0000_0000_0000;
    assert Pow16(14) == 0x100_0000_0000_0000;
  }

  /** A 16-bit value printed with `arg(x, 4, 16, '0')`: exactly 4 digits. */
  function Hex16(x: bv16): (r: string)
    ensures IsHexString(r) && |r| == 4 && HexValue(r) == Nat16(x)
  {
    var n := Nat16(x);
    Pow16Values();
    HexExactWidth(n, 4);
    Hex(n, 4)
  }

  /** A 32-bit value printed with `arg(x, 8, 16, '0')`: exactly 8 digits. */
  function Hex32(x: bv32): (r: string)
    ensures IsHexString(r) && |r| == 8 && HexValue(r) == Nat32(x)
  {
    var n := Nat32(x);
    Pow16Values();
    HexExactWidth(n, 8);
    Hex(n, 8)
  }

  /** A 64-bit value printed with a minimum width: the width, or as many
      digits as the value needs, and never more than 16. */
  function Hex64(x: bv64, width: nat): (r: string)
    requires 1 <= width <= 16
    ensures IsHexString(r) && width <= |r| <= 16 && HexValue(r) == Nat64(x)
    ensures |r| == Max(width, |ToHex(Nat64(x))|)
  {
    var n := Nat64(x);
    Pow16Values();
    ToHexLength(n, 16);
    Hex(n, width)
  }

  predicate IsUtf16(encoding: string) { Contains(encoding, "UTF-16") }

  predicate IsUtf32(encoding: string) { Contains(encoding, "UTF-32") }

  /** The UTF-16 branch: with a byte-order mark the whole reordered
      accumulator, at least 8 digits and more only when the value needs them;
      without, exactly 4 digits of its low 16 bits. */
  function Utf16Hex(code: bv64, bom: bool): (r: string)
    ensures IsHexString(r)
    ensures !bom ==> |r| == 4 && HexValue(r) == Nat16((Swap16(code) & Low16) as bv16)
    ensures bom ==> 8 <= |r| <= 16 && HexValue(r) == Nat64(Swap16(code))
    ensures bom ==> |r| == Max(8, |ToHex(Nat64(Swap16(code)))|)
  {
    if bom then Hex64(Swap16(code), 8) else Hex16((Swap16(code) & Low16) as bv16)
  }

  /** The UTF-32 branch: with a byte-order mark all 16 digits of the
      reordered accumulator; without, exactly 8 digits of its low 32 bits. */
  function Utf32Hex(code: bv64, bom: bool): (r: string)
    ensures IsHexString(r)
    ensures !bom ==> |r| == 8 && HexValue(r) == Nat32((Reverse32(code) & Low32) as bv32)
    ensures bom ==> |r| == 16 && HexValue(r) == Nat64(Reverse32(code))
  {
    if bom then Hex64(Reverse32(code), 16) else Hex32((Reverse32(code) & Low32) as bv32)
  }

  /** Any other encoding: the big-endian value of the first 8 bytes, padded to
      two digits per encoded byte. */
  function PlainHex(bytes: seq<bv8>): (r: string)
    ensures IsHexString(r)
    ensures |r| == Max(2 * |bytes|, 1)
    ensures HexValue(r) == BigEndian(bytes[..Min(|bytes|, 8)])
  {
    var used := bytes[..Min(|bytes|, 8)];
    var code := Fold(used);
    FoldIsBigEndian(used);
    Pow256IsPow16(|used|);
    if |bytes| == 0 then
      Hex(Nat64(code), 0)
    else
      Pow16Monotone(2 * |used|, 2 * |bytes|);
      ToHexLength(Nat64(code), 2 * |bytes|);
      Hex(Nat64(code), 2 * |bytes|)
  }

  /** `hexCode`: fold the encoded bytes big-endian, reorder them for UTF-16 or
      UTF-32 (a name containing "UTF-16" wins), and print the result as
      zero-padded lower-case hexadecimal. */
  function HexCode(bytes: seq<bv8>, encoding: string, bom: bool): (r: string)
    ensures IsHexString(r)
    ensures IsUtf16(encoding) && !bom ==>
      |r| == 4 && HexValue(r) == Nat16((Swap16(Accumulate(bytes)) & Low16) as bv16)
    ensures IsUtf16(encoding) && bom ==>
      && |r| == Max(8, |ToHex(Nat64(Swap16(Accumulate(bytes))))|)
      && HexValue(r) == Nat64(Swap16(Accumulate(bytes)))
    ensures !IsUtf16(encoding) && IsUtf32(encoding) && !bom ==>
      |r| == 8 && HexValue(r) == Nat32((Reverse32(Accumulate(bytes)) & Low32) as bv32)
    ensures !IsUtf16(encoding) && IsUtf32(encoding) && bom ==>
      |r| == 16 && HexValue(r) == Nat64(Reverse32(Accumulate(bytes)))
    ensures !IsUtf16(encoding) && !IsUtf32(encoding) ==>
      |r| == Max(2 * |bytes|, 1) && HexValue(r) == BigEndian(bytes[..Min(|bytes|, 8)])
  {
    if IsUtf16(encoding) then Utf16Hex(Accumulate(bytes), bom)
    else if IsUtf32(encoding) then Utf32Hex(Accumulate(bytes), bom)
    else PlainHex(bytes)
  }

  /** An encoding name without a `U` names neither Unicode transformation
      format, so its bytes are printed as they are. */
  lemma NotUnicodeName(encoding: string)
    requires 'U' !in encoding
    ensures !IsUtf16(encoding) && !IsUtf32(encoding)
  {
    assert forall i :: OccursAt(encoding, "UTF-16", i) ==> encoding[i] == "UTF-16"[0];
    assert forall i :: OccursAt(encoding, "UTF-32", i) ==> encoding[i] == "UTF-32"[0];
  }

  /** A Latin letter in a single-byte encoding is its byte, two digits. */
  lemma SingleByteExample()
    ensures HexCode([0x41], "ISO-8859-1", false) == "41"
  {
    NotUnicodeName("ISO-8859-1");
    PlainHexExample();
  }

  lemma PlainHexExample()
    ensures PlainHex([0x41]) == "41"
  {
    var bytes: seq<bv8> := [0x41];
    assert bytes[..Min(|bytes|, 8)] == bytes;
    assert Fold(bytes) == 0x41;
    assert Nat64(0x41) == 0x41;
    assert Hex(0x41, 2) == "41" by { assert ToHex(0x41) == "41"; }
  }

  lemma AccumulateExample()
    ensures Accumulate([0xff, 0xfe, 0x41, 0x00]) == 0xfffe_4100
  {
    var bytes: seq<bv8> := [0xff, 0xfe, 0x41, 0x00];
    assert bytes[..4] == bytes;
    assert bytes[..1] == [0xff];
    assert Fold(bytes[..1]) == 0xff;
    assert bytes[..2][..1] == bytes[..1];
    assert Fold(bytes[..2]) == 0xfffe;
    assert bytes[..3][..2] == bytes[..2];
    assert Fold(bytes[..3]) == 0xff_fe41;
    assert bytes[..4][..3] == bytes[..3];
    assert Fold(bytes[..4]) == 0xfffe_4100;
  }

  /** A letter encoded as UTF-16 with a byte-order mark, `ff fe 41 00`: the
      code unit's bytes are swapped back, giving `0041` alone and `fffe0041`
      with the mark kept. */
  lemma Utf16Example()
    ensures var r := HexCode([0xff, 0xfe, 0x41, 0x00], "UTF-16", false);
      |r| == 4 && HexValue(r) == 0x41
    ensures var r := HexCode([0xff, 0xfe, 0x41, 0x00], "UTF-16", true);
      |r| == 8 && HexValue(r) == 0xfffe_0041
  {
    assert IsUtf16("UTF-16") by { assert OccursAt("UTF-16", "UTF-16", 0); }
    AccumulateExample();
    var w := Swap16(0xfffe_4100);
    assert w == 0xfffe_0041;
    assert Nat16((w & Low16) as bv16) == 0x41;
    assert Nat64(w) == 0xfffe_0041;
    ToHexLength(0xfffe_0041, 8);
    Pow16Values();
    assert Pow16(8) == 0x1_0000_0000;
  }

  lemma FoldSnoc(s: seq<bv8>, b: bv8)
    ensures Fold(s + [b]) == (Fold(s) << 8) | (b as bv64)
  {
    assert (s + [b])[..|s|] == s;
  }

  lemma ShiftFour(x: bv64, b1: bv8, b2: bv8, b3: bv8)
    requires x <= 0xff
    ensures (((((x << 8) | (b1 as bv64)) << 8) | (b2 as bv64)) << 8) | (b3 as bv64)
      == (x << 24) | (b1 as bv64 << 16) | (b2 as bv64 << 8) | (b3 as bv64)
  {
  }

  lemma FoldOne(b0: bv8)
    ensures Fold([b0]) == b0 as bv64 && Fold([b0]) <= 0xff
  {
    assert [b0][..0] == [];
  }

  /** Four bytes folded in order. */
  lemma FoldFour(b0: bv8, b1: bv8, b2: bv8, b3: bv8)
    ensures Fold([b0, b1, b2, b3])
      == (b0 as bv64 << 24) | (b1 as bv64 << 16) | (b2 as bv64 << 8) | (b3 as bv64)
  {
    FoldOne(b0);
    FoldSnoc([b0], b1);
    assert [b0] + [b1] == [b0, b1];
    FoldSnoc([b0, b1], b2);
    assert [b0, b1] + [b2] == [b0, b1, b2];
    FoldSnoc([b0, b1, b2], b3);
    assert [b0, b1, b2] + [b3] == [b0, b1, b2, b3];
    ShiftFour(Fold([b0]), b1, b2, b3);
  }

  lemma AccumulateFour(b0: bv8, b1: bv8, b2: bv8, b3: bv8)
    ensures Accumulate([b0, b1, b2, b3])
      == (b0 as bv64 << 24) | (b1 as bv64 << 16) | (b2 as bv64 << 8) | (b3 as bv64)
  {
    assert [b0, b1, b2, b3][..4] == [b0, b1, b2, b3];
    FoldFour(b0, b1, b2, b3);
  }

  /** Swapping the two low bytes of a folded `m0 m1 lo hi` gives `hi lo`. */
  lemma SwapLowUnit(m0: bv8, m1: bv8, lo: bv8, hi: bv8)
    ensures var code := (m0 as bv64 << 24) | (m1 as bv64 << 16) | (lo as bv64 << 8) | (hi as bv64);
      (Swap16(code) & Low16) as bv16 == ((hi as bv16) << 8) | (lo as bv16)
  {
  }

  lemma JoinBytes(lo: bv8, hi: bv8)
    ensures Nat16(((hi as bv16) << 8) | (lo as bv16)) == 256 * Nat8(hi) + Nat8(lo)
  {
  }

  /** UTF-16 without the mark: for a codec that writes a byte-order mark and
      then one little-endian code unit `lo hi`, the printed value is the code
      unit `hi * 256 + lo`, in exactly four digits. */
  lemma Utf16CodeUnit(m0: bv8, m1: bv8, lo: bv8, hi: bv8, encoding: string)
    requires IsUtf16(encoding)
    ensures var r := HexCode([m0, m1, lo, hi], encoding, false);
      |r| == 4 && HexValue(r) == 256 * Nat8(hi) + Nat8(lo)
  {
    AccumulateFour(m0, m1, lo, hi);
    SwapLowUnit(m0, m1, lo, hi);
    JoinBytes(lo, hi);
  }

  /* ---------------- every code unit put in order ---------------- */

  /** The two bytes of every 16-bit unit exchanged, the unit of the
      byte-order mark as well as the character's: each unit's low byte is
      the high byte it had, and its high byte the low byte. */
  function SwapUnits16(code: bv64): (r: bv64)
    ensures r & 0x00ff_00ff_00ff_00ff == (code >> 8) & 0x00ff_00ff_00ff_00ff
    ensures r & 0xff00_ff00_ff00_ff00 == (code << 8) & 0xff00_ff00_ff00_ff00
  {
    ((code & 0x00ff_00ff_00ff_00ff) << 8) | ((code & 0xff00_ff00_ff00_ff00) >> 8)
  }

  /** The four bytes of every 32-bit unit reversed: byte 0 of each unit is
      the byte 3 it had, byte 1 the byte 2, and so on. */
  function ReverseUnits32(code: bv64): (r: bv64)
    ensures r & 0x0000_00ff_0000_00ff == (code >> 24) & 0x0000_00ff_0000_00ff
    ensures r & 0x0000_ff00_0000_ff00 == (code >> 8) & 0x0000_ff00_0000_ff00
    ensures r & 0x00ff_0000_00ff_0000 == (code << 8) & 0x00ff_0000_00ff_0000
    ensures r & 0xff00_0000_ff00_0000 == (code << 24) & 0xff00_0000_ff00_0000
  {
    ((code & 0x0000_00ff_0000_00ff) << 24) |
    ((code & 0x0000_ff00_0000_ff00) << 8) |
    ((code & 0x00ff_0000_00ff_0000) >> 8) |
    ((code & 0xff00_0000_ff00_0000) >> 24)
  }

  /** Putting every unit in order twice gives the value back. */
  lemma UnitsReorderTwice(code: bv64)
    ensures SwapUnits16(SwapUnits16(code)) == code
    ensures ReverseUnits32(ReverseUnits32(code)) == code
  {
  }

  /** In the lowest unit the reorder of every unit and the source's reorder
      of the lowest unit agree. */
  lemma LowUnitsAgree(code: bv64)
    ensures SwapUnits16(code) & Low16 == Swap16(code) & Low16
    ensures ReverseUnits32(code) & Low32 == Reverse32(code) & Low32
  {
  }

  /** `hexCode` with every code unit reordered, as the comments beside the
      byte-order-mark branches expect (`feff00c1`, `0000feff000000c1` for a
      codec writing little-endian units): the mark reads `feff` like the
      character's unit. Without a mark, and for other encodings, it agrees
      with the source. */
  function HexCodeCorrected(bytes: seq<bv8>, encoding: string, bom: bool): (r: string)
    ensures IsHexString(r)
    ensures !bom ==> r == HexCode(bytes, encoding, false)
    ensures !IsUtf16(encoding) && !IsUtf32(encoding) ==> r == HexCode(bytes, encoding, bom)
    ensures IsUtf16(encoding) && bom ==>
      && |r| == Max(8, |ToHex(Nat64(SwapUnits16(Accumulate(bytes))))|)
      && HexValue(r) == Nat64(SwapUnits16(Accumulate(bytes)))
    ensures !IsUtf16(encoding) && IsUtf32(encoding) && bom ==>
      |r| == 16 && HexValue(r) == Nat64(ReverseUnits32(Accumulate(bytes)))
  {
    if IsUtf16(encoding) then Utf16HexCorrected(Accumulate(bytes), bom)
    else if IsUtf32(encoding) then Utf32HexCorrected(Accumulate(bytes), bom)
    else PlainHex(bytes)
  }

  /** The UTF-16 branch with every unit reordered; without a mark it prints
      what the source prints. */
  function Utf16HexCorrected(code: bv64, bom: bool): (r: string)
    ensures IsHexString(r)
    ensures !bom ==> r == Utf16Hex(code, false)
    ensures bom ==> |r| == Max(8, |ToHex(Nat64(SwapUnits16(code)))|) && HexValue(r) == Nat64(SwapUnits16(code))
  {
    LowUnitsAgree(code);
    if bom then Hex64(SwapUnits16(code), 8) else Hex16((SwapUnits16(code) & Low16) as bv16)
  }

  /** The UTF-32 branch with every unit reordered; without a mark it prints
      what the source prints. */
  function Utf32HexCorrected(code: bv64, bom: bool): (r: string)
    ensures IsHexString(r)
    ensures !bom ==> r == Utf32Hex(code, false)
    ensures bom ==> |r| == 16 && HexValue(r) == Nat64(ReverseUnits32(code))
  {
    LowUnitsAgree(code);
    if bom then Hex64(ReverseUnits32(code), 16) else Hex32((ReverseUnits32(code) & Low32) as bv32)
  }

  lemma IsUtf32Name()
    ensures IsUtf32("UTF-32") && !IsUtf16("UTF-32")
  {
    assert OccursAt("UTF-32", "UTF-32", 0);
    assert "UTF-32"[0..6][4] != "UTF-16"[4];
    assert forall i :: OccursAt("UTF-32", "UTF-16", i) ==> i == 0;
  }

  lemma AccumulateExample32()
    ensures Accumulate([0xff, 0xfe, 0x00, 0x00, 0x41, 0x00, 0x00, 0x00]) == 0xfffe_0000_4100_0000
  {
    var bytes: seq<bv8> := [0xff, 0xfe, 0x00, 0x00, 0x41, 0x00, 0x00, 0x00];
    assert bytes[..8] == bytes;
    assert bytes[..4] == [0xff, 0xfe, 0x00, 0x00];
    assert bytes[..4][..3] == bytes[..3] && bytes[..3][..2] == bytes[..2] && bytes[..2][..1] == bytes[..1];
    assert Fold(bytes[..1]) == 0xff;
    assert Fold(bytes[..2]) == 0xfffe;
    assert Fold(bytes[..3]) == 0xff_fe00;
    assert Fold(bytes[..4]) == 0xfffe_0000;
    assert bytes[..5][..4] == bytes[..4] && bytes[..6][..5] == bytes[..5];
    assert bytes[..7][..6] == bytes[..6] && bytes[..8][..7] == bytes[..7];
    assert Fold(bytes[..5]) == 0xff_fe00_0041;
    assert Fold(bytes[..6]) == 0xfffe_0000_4100;
    assert Fold(bytes[..7]) == 0xff_fe00_0041_0000;
    assert Fold(bytes[..8]) == 0xfffe_0000_4100_0000;
  }

  /** A letter encoded as UTF-32 with a byte-order mark, `ff fe 00 00 41 00 00
      00`: only the character's unit is reversed, so `00000041` alone and
      `fffe000000000041` with the mark kept. */
  lemma Utf32Example()
    ensures var r := HexCode([0xff, 0xfe, 0x00, 0x00, 0x41, 0x00, 0x00, 0x00], "UTF-32", false);
      |r| == 8 && HexValue(r) == 0x41
    ensures var r := HexCode([0xff, 0xfe, 0x00, 0x00, 0x41, 0x00, 0x00, 0x00], "UTF-32", true);
      |r| == 16 && HexValue(r) == 0xfffe_0000_0000_0041
  {
    IsUtf32Name();
    AccumulateExample32();
    var w := Reverse32(0xfffe_0000_4100_0000);
    assert w == 0xfffe_0000_0000_0041;
    assert Nat32((w & Low32) as bv32) == 0x41;
    assert Nat64(w) == 0xfffe_0000_0000_0041;
  }

  /** With every unit reordered the marks read `feff0041` and
      `0000feff00000041`. */
  lemma CorrectedBomExamples()
    ensures var r := HexCodeCorrected([0xff, 0xfe, 0x41, 0x00], "UTF-16", true);
      |r| == 8 && HexValue(r) == 0xfeff_0041
    ensures var r := HexCodeCorrected([0xff, 0xfe, 0x00, 0x00, 0x41, 0x00, 0x00, 0x00], "UTF-32", true);
      |r| == 16 && HexValue(r) == 0x0000_feff_0000_0041
  {
    assert IsUtf16("UTF-16") by { assert OccursAt("UTF-16", "UTF-16", 0); }
    AccumulateExample();
    var w := SwapUnits16(0xfffe_4100);
    assert w == 0xfeff_0041;
    assert Nat64(w) == 0xfeff_0041;
    ToHexLength(0xfeff_0041, 8);
    Pow16Values();
    IsUtf32Name();
    AccumulateExample32();
    var u := ReverseUnits32(0xfffe_0000_4100_0000);
    assert u == 0x0000_feff_0000_0041;
    assert Nat64(u) == 0x0000_feff_0000_0041;
  }
}
