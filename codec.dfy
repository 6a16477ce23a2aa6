/** The three value decoders of the importer's `Parser`: the masked string
    codec (`string`), the fixed 24-byte label reader (`plain_fixed_string`)
    and the length-prefixed media blob (`blob`). */
module Codec {
  import opened Buffer

  /** A 16-bit code unit of the importer's unicode text (a narrow-build
      Python 2 `unicode` character). */
  type CodeUnit = u: int | 0 <= u < 0x1_0000

  type Text = seq<CodeUnit>

  /** Python's `a ^ b` on non-negative integers, bit by bit from the lowest. */
  function Xor(a: nat, b: nat): nat
    decreases a + b
  {
    if a == 0 && b == 0 then 0 else 2 * Xor(a / 2, b / 2) + (a % 2 + b % 2) % 2
  }

  function Pow2(k: nat): (r: nat)
    ensures r >= 1
  {
    if k == 0 then 1 else 2 * Pow2(k - 1)
  }

  lemma Pow2Of16()
    ensures Pow2(16) == 0x1_0000
  {
    assert Pow2(1) == 2;
    assert Pow2(2) == 4;
    assert Pow2(3) == 8;
    assert Pow2(4) == 16;
    assert Pow2(5) == 32;
    assert Pow2(6) == 64;
    assert Pow2(7) == 128;
    assert Pow2(8) == 256;
    assert Pow2(9) == 512;
    assert Pow2(10) == 1024;
    assert Pow2(11) == 2048;
    assert Pow2(12) == 4096;
    assert Pow2(13) == 8192;
    assert Pow2(14) == 16384;
    assert Pow2(15) == 32768;
    assert Pow2(16) == 65536;
  }

  /** XOR of two k-bit values is a k-bit value. */
  lemma {:induction false} XorBound(a: nat, b: nat, k: nat)
    requires a < Pow2(k) && b < Pow2(k)
    ensures Xor(a, b) < Pow2(k)
    decreases a + b
  {
    if !(a == 0 && b == 0) {
      XorBound(a / 2, b / 2, k - 1);
    }
  }

  /** The lowest bit of `a ^ b` and the XOR of the remaining bits. */
  lemma XorStep(a: nat, b: nat)
    ensures Xor(a, b) / 2 == Xor(a / 2, b / 2)
    ensures Xor(a, b) % 2 == (a % 2 + b % 2) % 2
  {
    if !(a == 0 && b == 0) {
      var h := Xor(a / 2, b / 2);
      var bit := (a % 2 + b % 2) % 2;
      assert Xor(a, b) == 2 * h + bit;
    }
  }

  /** A number is determined by its lowest bit and the rest. */
  lemma SameHalves(x: nat, y: nat)
    requires x / 2 == y / 2 && x % 2 == y % 2
    ensures x == y
  {
  }

  /** XORing a single bit twice with the same bit restores it. */
  lemma BitTwice(p: nat, q: nat)
    requires p < 2 && q < 2
    ensures ((p + q) % 2 + q) % 2 == p
  {
  }

  /** XORing twice with the same mask restores the value. */
  lemma {:induction false} XorTwice(a: nat, m: nat)
    ensures Xor(Xor(a, m), m) == a
    decreases a + m
  {
    if !(a == 0 && m == 0) {
      var x := Xor(a, m);
      var y := Xor(x, m);
      XorStep(a, m);
      XorStep(x, m);
      calc {
        y / 2;
        Xor(x / 2, m / 2);
        Xor(Xor(a / 2, m / 2), m / 2);
        { XorTwice(a / 2, m / 2); }
        a / 2;
      }
      BitTwice(a % 2, m % 2);
      SameHalves(y, a);
    }
  }

  /** Every stored code unit is XORed with this mask. */
  const CodeMask: nat := 0x7E

  /** `raw ^ 0x7E`: the same step masks and unmasks a code unit. */
  function Flip(raw: nat): CodeUnit
    requires raw < 0x1_0000
  {
    Pow2Of16();
    XorBound(raw, CodeMask, 16);
    Xor(raw, CodeMask)
  }

  lemma FlipFlip(u: CodeUnit)
    ensures Flip(Flip(u)) == u
  {
    XorTwice(u, CodeMask);
  }

  // ---------------------------------------------------------------------------
  // Masked, length-prefixed strings

  /** Reference definition of `Parser.string(offset)`: for a positive offset,
      a u16 count `n` at `offset`, then `n` masked u16 code units from
      `offset + 2`. A zero or negative offset is an absent field and reads
      nothing. A unit past the end of the buffer makes the read fail. */
  function DecodedString(src: Source, offset: int): Result<Text> {
    if src.Unavailable? then Err(SourceUnavailable)
    else if offset <= 0 then Ok([])
    else
      var n :- U16(src, offset);
      if offset + 2 + 2 * n > |src.bytes| then Err(OutOfBounds)
      else Ok(seq(n, i requires 0 <= i < n => Flip(Word(src.bytes, offset + 2 + 2 * i))))
  }

  /** `Parser.string(offset)`: accumulates the unmasked units one read at a time. */
  method DecodeString(src: Source, offset: int) returns (r: Result<Text>)
    ensures src.Unavailable? ==> r == Err(SourceUnavailable)
    ensures src.Loaded? && offset <= 0 ==> r == Ok([])
    ensures r.Ok? && offset > 0 ==>
      src.Loaded? && offset + 2 + 2 * |r.value| <= |src.bytes| &&
      |r.value| == Word(src.bytes, offset) &&
      forall i :: 0 <= i < |r.value| ==> r.value[i] == Flip(Word(src.bytes, offset + 2 + 2 * i))
    ensures r == DecodedString(src, offset)
  {
    if src.Unavailable? {
      return Err(SourceUnavailable);
    }
    var s: Text := [];
    if offset > 0 {
      var length :- U16(src, offset);
      var i := 0;
      while i < length
        invariant 0 <= i <= length
        invariant offset + 2 + 2 * i <= |src.bytes|
        invariant |s| == i
        invariant forall k :: 0 <= k < i ==> s[k] == Flip(Word(src.bytes, offset + 2 + 2 * k))
      {
        var raw :- U16(src, offset + i * 2 + 2);
        s := s + [Flip(raw)];
        i := i + 1;
      }
      assert s == seq(length, k requires 0 <= k < length => Flip(Word(src.bytes, offset + 2 + 2 * k)));
    }
    return Ok(s);
  }

  /** The stored form of a text: the u16 count, then every unit masked. */
  function EncodeString(t: Text): (b: seq<byte>)
    requires |t| < 0x1_0000
    ensures |b| == 2 + 2 * |t|
  {
    PutWord(|t|) + MaskedUnits(t)
  }

  function MaskedUnits(t: Text): (b: seq<byte>)
    ensures |b| == 2 * |t|
  {
    if t == [] then [] else PutWord(Flip(t[0])) + MaskedUnits(t[1..])
  }

  lemma {:induction false} MaskedUnitAt(t: Text, i: nat)
    requires i < |t|
    ensures Word(MaskedUnits(t), 2 * i) == Flip(t[i])
  {
    if i > 0 {
      MaskedUnitAt(t[1..], i - 1);
      var b := MaskedUnits(t);
      assert b == PutWord(Flip(t[0])) + MaskedUnits(t[1..]);
      assert b[2 * i] == MaskedUnits(t[1..])[2 * (i - 1)];
      assert b[2 * i + 1] == MaskedUnits(t[1..])[2 * (i - 1) + 1];
    }
  }

  lemma EncodedUnitAt(pre: seq<byte>, t: Text, post: seq<byte>, i: nat)
    requires |t| < 0x1_0000 && i < |t|
    ensures |pre| + 2 + 2 * i + 2 <= |pre + EncodeString(t) + post|
    ensures Word(pre + EncodeString(t) + post, |pre| + 2 + 2 * i) == Flip(t[i])
  {
    var b := pre + EncodeString(t) + post;
    var units := MaskedUnits(t);
    assert b == (pre + PutWord(|t|)) + units + post;
    var q := |pre| + 2;
    assert b[q + 2 * i] == units[2 * i];
    assert b[q + 2 * i + 1] == units[2 * i + 1];
    MaskedUnitAt(t, i);
  }

  lemma EncodedUnits(pre: seq<byte>, t: Text, post: seq<byte>)
    requires |t| < 0x1_0000
    ensures |pre| + 2 + 2 * |t| <= |pre + EncodeString(t) + post|
    ensures forall i :: 0 <= i < |t| ==>
      Flip(Word(pre + EncodeString(t) + post, |pre| + 2 + 2 * i)) == t[i]
  {
    forall i | 0 <= i < |t|
      ensures Flip(Word(pre + EncodeString(t) + post, |pre| + 2 + 2 * i)) == t[i]
    {
      EncodedUnitAt(pre, t, post, i);
      FlipFlip(t[i]);
    }
  }

  /** Encoding a text and decoding it again, at any positive offset of any
      buffer, gives the text back. */
  lemma StringRoundTrip(pre: seq<byte>, t: Text, post: seq<byte>)
    requires |pre| > 0 && |t| < 0x1_0000
    ensures DecodedString(Loaded(pre + EncodeString(t) + post), |pre|) == Ok(t)
  {
    var b := pre + EncodeString(t) + post;
    var p := |pre|;
    assert b == pre + PutWord(|t|) + (MaskedUnits(t) + post);
    U16RoundTrip(pre, |t|, MaskedUnits(t) + post);
    EncodedUnits(pre, t, post);
    DecodedUnits(Loaded(b), p, t);
  }

  /** A count `|t|` at `offset` followed by the masked units of `t` decodes
      to `t`. */
  lemma DecodedUnits(src: Source, offset: nat, t: Text)
    requires src.Loaded? && offset > 0 && U16(src, offset) == Ok(|t|)
    requires offset + 2 + 2 * |t| <= |src.bytes|
    requires forall i :: 0 <= i < |t| ==> Flip(Word(src.bytes, offset + 2 + 2 * i)) == t[i]
    ensures DecodedString(src, offset) == Ok(t)
  {
    var s := seq(|t|, i requires 0 <= i < |t| => Flip(Word(src.bytes, offset + 2 + 2 * i)));
    assert s == t;
  }

  // ---------------------------------------------------------------------------
  // Fixed 24-byte labels

  const LabelWidth: nat := 24

  /** The characters of the strip argument '\0x0': NUL, 'x' and '0'. */
  const Padding: set<byte> := {0x00, 0x78, 0x30}

  /** Drops the leading run of padding characters. */
  function TrimStart(s: seq<byte>): seq<byte> {
    if s != [] && s[0] in Padding then TrimStart(s[1..]) else s
  }

  /** Drops the trailing run of padding characters. */
  function TrimEnd(s: seq<byte>): seq<byte> {
    if s != [] && s[|s| - 1] in Padding then TrimEnd(s[..|s| - 1]) else s
  }

  /** `TrimStart` keeps a suffix, drops only padding, and stops at the
      first character that is not padding. */
  lemma {:induction false} TrimStartSpec(s: seq<byte>)
    ensures var r := TrimStart(s);
      && |r| <= |s| && r == s[|s| - |r|..]
      && (forall k :: 0 <= k < |s| - |r| ==> s[k] in Padding)
      && (r != [] ==> r[0] !in Padding)
  {
    if s != [] && s[0] in Padding {
      TrimStartSpec(s[1..]);
    }
  }

  /** `TrimEnd` keeps a prefix, drops only padding, and stops at the last
      character that is not padding. */
  lemma {:induction false} TrimEndSpec(s: seq<byte>)
    ensures var r := TrimEnd(s);
      && |r| <= |s| && r == s[..|r|]
      && (forall k :: |r| <= k < |s| ==> s[k] in Padding)
      && (r != [] ==> r[|r| - 1] !in Padding)
  {
    if s != [] && s[|s| - 1] in Padding {
      TrimEndSpec(s[..|s| - 1]);
    }
  }

  /** `plain_fixed_string(offset)`: 24 raw bytes with every NUL, 'x' and '0'
      stripped from both ends. */
  function PlainFixedString(src: Source, offset: nat): (r: Result<seq<byte>>)
    ensures src.Unavailable? ==> r == Err(SourceUnavailable)
    ensures src.Loaded? ==> (r.Ok? <==> offset + LabelWidth <= |src.bytes|)
  {
    var raw :- Chars(src, offset, LabelWidth);
    Ok(TrimEnd(TrimStart(raw)))
  }

  /** A label is the stored 24 bytes cut down to a middle run that neither
      starts nor ends with padding, with only padding cut away. */
  lemma LabelTrimmed(src: Source, offset: nat)
    requires PlainFixedString(src, offset).Ok?
    ensures var raw := src.bytes[offset .. offset + LabelWidth];
      var r := PlainFixedString(src, offset).value;
      var i := LabelWidth - |TrimStart(raw)|;
      && |r| <= LabelWidth
      && 0 <= i && i + |r| <= LabelWidth && raw[i .. i + |r|] == r
      && (forall k :: 0 <= k < i ==> raw[k] in Padding)
      && (forall k :: i + |r| <= k < LabelWidth ==> raw[k] in Padding)
      && (r != [] ==> r[0] !in Padding && r[|r| - 1] !in Padding)
  {
    var raw := src.bytes[offset .. offset + LabelWidth];
    var t := TrimStart(raw);
    TrimStartSpec(raw);
    TrimEndSpec(t);
    var r := TrimEnd(t);
    var i := LabelWidth - |t|;
    assert raw[i .. i + |r|] == r;
  }

  lemma {:induction false} TrimStartLead(lead: seq<byte>, s: seq<byte>)
    requires forall k :: 0 <= k < |lead| ==> lead[k] in Padding
    requires s != [] ==> s[0] !in Padding
    ensures TrimStart(lead + s) == s
  {
    if lead != [] {
      assert (lead + s)[1..] == lead[1..] + s;
      TrimStartLead(lead[1..], s);
    } else {
      assert lead + s == s;
    }
  }

  lemma {:induction false} TrimEndPad(s: seq<byte>, pad: seq<byte>)
    requires forall k :: 0 <= k < |pad| ==> pad[k] in Padding
    requires s != [] ==> s[|s| - 1] !in Padding
    ensures TrimEnd(s + pad) == s
  {
    if pad != [] {
      assert (s + pad)[..|s + pad| - 1] == s + pad[..|pad| - 1];
      TrimEndPad(s, pad[..|pad| - 1]);
    } else {
      assert s + pad == s;
    }
  }

  /** A name stored between runs of padding characters reads back as itself. */
  lemma LabelRoundTrip(pre: seq<byte>, lead: seq<byte>, name: seq<byte>, pad: seq<byte>, post: seq<byte>)
    requires |lead| + |name| + |pad| == LabelWidth
    requires forall k :: 0 <= k < |lead| ==> lead[k] in Padding
    requires forall k :: 0 <= k < |pad| ==> pad[k] in Padding
    requires name != [] ==> name[0] !in Padding && name[|name| - 1] !in Padding
    ensures PlainFixedString(Loaded(pre + lead + name + pad + post), |pre|) == Ok(name)
  {
    var b := pre + lead + name + pad + post;
    assert b[|pre| .. |pre| + LabelWidth] == lead + (name + pad);
    if name == [] {
      TrimStartLead(lead + pad, []);
      assert lead + (name + pad) == (lead + pad) + [];
    } else {
      TrimStartLead(lead, name + pad);
    }
    TrimEndPad(name, pad);
  }

  // ---------------------------------------------------------------------------
  // Media blobs

  /** An extracted audio clip or image: its raw bytes. */
  datatype Blob = Blob(data: seq<byte>)

  function Min(a: int, b: int): int { if a <= b then a else b }

  /** Python's `s[lo:hi]` for non-negative bounds: both ends are clamped to
      the length, and a reversed range is empty. */
  function Slice(s: seq<byte>, lo: nat, hi: nat): (r: seq<byte>)
    ensures |r| == if Min(lo, |s|) <= Min(hi, |s|) then Min(hi, |s|) - Min(lo, |s|) else 0
    ensures forall k :: 0 <= k < |r| ==> r[k] == s[lo + k]
  {
    var h := Min(hi, |s|);
    var l := Min(lo, h);
    s[l..h]
  }

  /** `Parser.blob(offset)`: a u32 length `L` at `offset`, and the payload
      `[offset + 8, offset + 8 + L)` after an 8-byte header, cut short at the
      end of the buffer. */
  function ExtractBlob(src: Source, offset: nat): (r: Result<Blob>)
    ensures src.Unavailable? ==> r == Err(SourceUnavailable)
    ensures src.Loaded? ==> (r.Ok? <==> offset + 4 <= |src.bytes|)
    ensures r.Ok? ==>
      var n := DWord(src.bytes, offset);
      |r.value.data| <= n &&
      (forall k :: 0 <= k < |r.value.data| ==>
         offset + 8 + k < |src.bytes| && r.value.data[k] == src.bytes[offset + 8 + k]) &&
      (offset + 8 + n <= |src.bytes| ==> r.value.data == src.bytes[offset + 8 .. offset + 8 + n]) &&
      (offset + 8 + n > |src.bytes| ==> |r.value.data| == if offset + 8 <= |src.bytes| then |src.bytes| - offset - 8 else 0)
  {
    var length :- U32(src, offset);
    Ok(Blob(Slice(src.bytes, offset + 8, offset + length + 8)))
  }
}
