/** The file buffer of a .b4u deck and its little-endian primitive reads
    (the `Parser.read` of the importer). A buffer is either unavailable
    (the file could not be opened) or the whole file as bytes. */
module Buffer {

  type byte = b: int | 0 <= b < 0x100

  /** The file contents, or the absent signal when the file did not load. */
  datatype Source = Unavailable | Loaded(bytes: seq<byte>)

  /** What stops a decode: the file never loaded, a read past the end of the
      buffer, or a linked list that does not end within the hop bound. */
  datatype DecodeError = SourceUnavailable | OutOfBounds | MalformedList

  datatype Result<+T> = Ok(value: T) | Err(error: DecodeError) {
    predicate IsFailure() { Err? }
    function PropagateFailure<U>(): Result<U> requires Err? { Err(error) }
    function Extract(): T requires Ok? { value }
  }

  /** The three field codes of the struct layouts the decoder uses:
      `H` unsigned 16-bit, `L` unsigned 32-bit, `s` one raw byte. */
  datatype Field = H | L | S

  function Size(f: Field): nat {
    match f
    case H => 2
    case L => 4
    case S => 1
  }

  /** Bytes occupied by a packed layout (`<` means no alignment padding). */
  function Width(layout: seq<Field>): nat {
    if layout == [] then 0 else Size(layout[0]) + Width(layout[1..])
  }

  /** `n` copies of one field code, as in the format strings 'LLLLL' or 'sss…s'. */
  function Repeat(f: Field, n: nat): (r: seq<Field>)
    ensures |r| == n
  {
    if n == 0 then [] else [f] + Repeat(f, n - 1)
  }

  /** Unsigned value of a little-endian byte string. */
  function LittleEndian(s: seq<byte>): nat {
    if s == [] then 0 else s[0] + 0x100 * LittleEndian(s[1..])
  }

  /** The fields of `layout` packed from `offset`, in order. */
  function Unpack(bytes: seq<byte>, offset: nat, layout: seq<Field>): (r: seq<nat>)
    requires offset + Width(layout) <= |bytes|
    ensures |r| == |layout|
    decreases |layout|
  {
    if layout == [] then []
    else
      [LittleEndian(bytes[offset .. offset + Size(layout[0])])]
      + Unpack(bytes, offset + Size(layout[0]), layout[1..])
  }

  /** `Parser.read(fmt, offset)`: the fields of `layout` packed from `offset`.
      The absent buffer gives the absent signal; a read that would pass the end
      of the buffer fails (where the source's struct call raises). The source
      returns a bare scalar for one-field layouts; here it is always a sequence. */
  function Read(src: Source, layout: seq<Field>, offset: nat): (r: Result<seq<nat>>)
    ensures src.Unavailable? ==> r == Err(SourceUnavailable)
    ensures src.Loaded? && offset + Width(layout) > |src.bytes| ==> r == Err(OutOfBounds)
    ensures src.Loaded? && offset + Width(layout) <= |src.bytes| ==> r.Ok? && |r.value| == |layout|
  {
    if src.Unavailable? then Err(SourceUnavailable)
    else if offset + Width(layout) > |src.bytes| then Err(OutOfBounds)
    else Ok(Unpack(src.bytes, offset, layout))
  }

  lemma {:induction false} RepeatWidth(f: Field, n: nat)
    ensures Width(Repeat(f, n)) == n * Size(f)
  {
    if n > 0 {
      RepeatWidth(f, n - 1);
      assert Repeat(f, n)[1..] == Repeat(f, n - 1);
    }
  }

  lemma LittleEndian1(s: seq<byte>)
    requires |s| == 1
    ensures LittleEndian(s) == s[0]
  {
    assert s[1..] == [];
  }

  lemma LittleEndian2(s: seq<byte>)
    requires |s| == 2
    ensures LittleEndian(s) == s[0] as int + 0x100 * s[1] as int
  {
    LittleEndian1(s[1..]);
  }

  lemma LittleEndian4(s: seq<byte>)
    requires |s| == 4
    ensures LittleEndian(s) == s[0] as int + 0x100 * s[1] as int + 0x1_0000 * s[2] as int + 0x100_0000 * s[3] as int
  {
    LittleEndian2(s[2..]);
    assert s[1..][1..] == s[2..];
  }

  /** The unsigned 16-bit value of the two bytes at `p` (no bounds check). */
  function Word(bytes: seq<byte>, p: nat): (r: nat)
    requires p + 2 <= |bytes|
    ensures r < 0x1_0000
  {
    bytes[p] as int + 0x100 * bytes[p + 1] as int
  }

  /** The unsigned 32-bit value of the four bytes at `p` (no bounds check). */
  function DWord(bytes: seq<byte>, p: nat): (r: nat)
    requires p + 4 <= |bytes|
    ensures r < 0x1_0000_0000
  {
    bytes[p] as int + 0x100 * bytes[p + 1] as int + 0x1_0000 * bytes[p + 2] as int + 0x100_0000 * bytes[p + 3] as int
  }

  /** `read('H', offset)`: an unsigned 16-bit value. */
  function U16(src: Source, offset: nat): (r: Result<nat>)
    ensures r.Ok? ==> r.value < 0x1_0000
    ensures src.Loaded? ==> (r.Ok? <==> offset + 2 <= |src.bytes|)
  {
    if src.Unavailable? then Err(SourceUnavailable)
    else if offset + 2 > |src.bytes| then Err(OutOfBounds)
    else Ok(Word(src.bytes, offset))
  }

  /** `read('L', offset)`: an unsigned 32-bit value. */
  function U32(src: Source, offset: nat): (r: Result<nat>)
    ensures r.Ok? ==> r.value < 0x1_0000_0000
    ensures src.Loaded? ==> (r.Ok? <==> offset + 4 <= |src.bytes|)
  {
    if src.Unavailable? then Err(SourceUnavailable)
    else if offset + 4 > |src.bytes| then Err(OutOfBounds)
    else Ok(DWord(src.bytes, offset))
  }

  /** `read('s' * n, offset)` joined: the `n` raw bytes at `offset`. */
  function Chars(src: Source, offset: nat, n: nat): (r: Result<seq<byte>>)
    ensures r.Ok? ==> |r.value| == n
    ensures src.Loaded? ==> (r.Ok? <==> offset + n <= |src.bytes|)
  {
    if src.Unavailable? then Err(SourceUnavailable)
    else if offset + n > |src.bytes| then Err(OutOfBounds)
    else Ok(src.bytes[offset .. offset + n])
  }

  /** `read('L' * n, offset)`: `n` consecutive 32-bit values (a card node is `LLLLL`). */
  function U32s(src: Source, offset: nat, n: nat): (r: Result<seq<nat>>)
    ensures r.Ok? ==> |r.value| == n
    ensures src.Loaded? ==> (r.Ok? <==> offset + 4 * n <= |src.bytes|)
  {
    if src.Unavailable? then Err(SourceUnavailable)
    else if offset + 4 * n > |src.bytes| then Err(OutOfBounds)
    else Ok(seq(n, k requires 0 <= k < n => DWord(src.bytes, offset + 4 * k)))
  }

  /** Unpacking the layout `'s' * n`: field `k` is the byte at `offset + k`. */
  lemma {:induction false} UnpackChars(bytes: seq<byte>, n: nat, offset: nat, k: nat)
    requires offset + n <= |bytes| && k < n
    ensures Width(Repeat(S, n)) == n
    ensures Unpack(bytes, offset, Repeat(S, n))[k] == bytes[offset + k]
  {
    RepeatWidth(S, n);
    RepeatWidth(S, n - 1);
    var layout := Repeat(S, n);
    assert layout[0] == S && layout[1..] == Repeat(S, n - 1);
    if k > 0 {
      UnpackChars(bytes, n - 1, offset + 1, k - 1);
    } else {
      LittleEndian1(bytes[offset .. offset + 1]);
    }
  }

  /** Unpacking the layout `'L' * n`: field `k` is the 32-bit value at
      `offset + 4 * k`. */
  lemma {:induction false} UnpackDWords(bytes: seq<byte>, n: nat, offset: nat, k: nat)
    requires offset + 4 * n <= |bytes| && k < n
    ensures Width(Repeat(L, n)) == 4 * n
    ensures Unpack(bytes, offset, Repeat(L, n))[k] == DWord(bytes, offset + 4 * k)
  {
    RepeatWidth(L, n);
    RepeatWidth(L, n - 1);
    var layout := Repeat(L, n);
    assert layout[0] == L && layout[1..] == Repeat(L, n - 1);
    if k > 0 {
      UnpackDWords(bytes, n - 1, offset + 4, k - 1);
    } else {
      LittleEndian4(bytes[offset .. offset + 4]);
    }
  }

  /** `U16` is the one-field layout `H` of the general `Read`. */
  lemma U16IsRead(src: Source, offset: nat)
    ensures Read(src, [H], offset).Ok? <==> U16(src, offset).Ok?
    ensures U16(src, offset).Ok? ==> Read(src, [H], offset).value == [U16(src, offset).value]
  {
    if src.Loaded? && offset + 2 <= |src.bytes| {
      LittleEndian2(src.bytes[offset .. offset + 2]);
    }
  }

  /** `U32` is the one-field layout `L` of the general `Read`. */
  lemma U32IsRead(src: Source, offset: nat)
    ensures Read(src, [L], offset).Ok? <==> U32(src, offset).Ok?
    ensures U32(src, offset).Ok? ==> Read(src, [L], offset).value == [U32(src, offset).value]
  {
    if src.Loaded? && offset + 4 <= |src.bytes| {
      LittleEndian4(src.bytes[offset .. offset + 4]);
    }
  }

  /** `Chars` is the layout `'s' * n` of the general `Read`, one byte per field. */
  lemma CharsIsRead(src: Source, offset: nat, n: nat)
    ensures Width(Repeat(S, n)) == n
    ensures Read(src, Repeat(S, n), offset).Ok? <==> Chars(src, offset, n).Ok?
    ensures Chars(src, offset, n).Ok? ==> Read(src, Repeat(S, n), offset).value == Chars(src, offset, n).value
  {
    RepeatWidth(S, n);
    if src.Loaded? && offset + n <= |src.bytes| {
      var v := Read(src, Repeat(S, n), offset).value;
      forall k | 0 <= k < n ensures v[k] == src.bytes[offset + k] {
        UnpackChars(src.bytes, n, offset, k);
      }
      assert v == src.bytes[offset .. offset + n];
    }
  }

  /** `U32s` is the layout `'L' * n` of the general `Read`. */
  lemma U32sIsRead(src: Source, offset: nat, n: nat)
    ensures Width(Repeat(L, n)) == 4 * n
    ensures Read(src, Repeat(L, n), offset).Ok? <==> U32s(src, offset, n).Ok?
    ensures U32s(src, offset, n).Ok? ==> Read(src, Repeat(L, n), offset).value == U32s(src, offset, n).value
  {
    RepeatWidth(L, n);
    if src.Loaded? && offset + 4 * n <= |src.bytes| {
      var v := Read(src, Repeat(L, n), offset).value;
      forall k | 0 <= k < n ensures v[k] == DWord(src.bytes, offset + 4 * k) {
        UnpackDWords(src.bytes, n, offset, k);
      }
      assert v == U32s(src, offset, n).value;
    }
  }

  /** The two little-endian bytes of a 16-bit value: the writer's side of `H`. */
  function PutWord(v: nat): (r: seq<byte>)
    requires v < 0x1_0000
    ensures |r| == 2
  {
    [v % 0x100, v / 0x100]
  }

  /** The four little-endian bytes of a 32-bit value: the writer's side of `L`. */
  function PutDWord(v: nat): (r: seq<byte>)
    requires v < 0x1_0000_0000
    ensures |r| == 4
  {
    [v % 0x100, (v / 0x100) % 0x100, (v / 0x1_0000) % 0x100, v / 0x100_0000]
  }

  /** A 16-bit value written anywhere in a buffer reads back unchanged. */
  lemma U16RoundTrip(pre: seq<byte>, v: nat, post: seq<byte>)
    requires v < 0x1_0000
    ensures U16(Loaded(pre + PutWord(v) + post), |pre|) == Ok(v)
  {
    var b := pre + PutWord(v) + post;
    assert b[|pre|] == v % 0x100 && b[|pre| + 1] == v / 0x100;
  }

  /** A 32-bit value written anywhere in a buffer reads back unchanged. */
  lemma U32RoundTrip(pre: seq<byte>, v: nat, post: seq<byte>)
    requires v < 0x1_0000_0000
    ensures U32(Loaded(pre + PutDWord(v) + post), |pre|) == Ok(v)
  {
    var b := pre + PutDWord(v) + post;
    var p := |pre|;
    assert b[p] == v % 0x100 && b[p + 1] == (v / 0x100) % 0x100;
    assert b[p + 2] == (v / 0x1_0000) % 0x100 && b[p + 3] == v / 0x100_0000;
  }
}
