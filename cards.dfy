/** One flashcard of a deck and its sparse, bitmask-driven body layout
    (`Card.__init__`). The body of a card at `dataPointer` holds the card's
    number at `dataPointer + 4` and, from `dataPointer + 8`, one 4-byte
    pointer per field whose bit is set in the card's attribute mask, packed
    without gaps in the fixed order of `Attributes`. */
module Cards {
  import opened Buffer
  import opened Codec

  datatype Option<+T> = None | Some(value: T)

  datatype CardField =
    | NativeTitle | NativeSubtitle | ForeignTitle | ForeignSubtitle
    | NativeAltAnswer | ForeignAltAnswer | ForeignTranslit | NativeTooltip
    | ForeignAudio | NativeAudio | Image

  /** The canonical (field, bit) table, in slot order. */
  const Attributes: seq<(CardField, nat)> := [
    (NativeTitle, 4),
    (NativeSubtitle, 8),
    (ForeignTitle, 16),
    (ForeignSubtitle, 32),
    (NativeAltAnswer, 64),
    (ForeignAltAnswer, 128),
    (ForeignTranslit, 256),
    (NativeTooltip, 512),
    (ForeignAudio, 1024),
    (NativeAudio, 2048),
    (Image, 4096)
  ]

  /** Fields decoded as blobs; every other field is a masked string. */
  predicate IsMedia(f: CardField) {
    f == ForeignAudio || f == NativeAudio || f == Image
  }

  /** The value of a card attribute: `None`, a string, or a blob. */
  datatype Value = NoValue | Str(text: Text) | Media(blob: Blob)

  /** A value of the right kind for field `f`, as the decoder produces it. */
  predicate Fits(f: CardField, v: Value) {
    if IsMedia(f) then v.Media? else v.Str?
  }

  /** A decoded card: its number and the attributes the decoder assigned.
      As with Python attributes, a field that was never assigned reads as
      the class default. */
  datatype Card = Card(number: nat, attrs: map<CardField, Value>)

  /** The class defaults of `Card`: empty text, no media. */
  function Default(f: CardField): Value {
    if IsMedia(f) then NoValue else Str([])
  }

  /** A card as `Card.__init__` starts it: no attribute assigned. */
  function Blank(number: nat): Card {
    Card(number, map[])
  }

  /** `getattr(card, f)`. */
  function Get(c: Card, f: CardField): Value {
    if f in c.attrs then c.attrs[f] else Default(f)
  }

  /** `setattr(card, f, v)`. */
  function Set(c: Card, f: CardField, v: Value): Card {
    c.(attrs := c.attrs[f := v])
  }

  /** `setattr` changes field `f` to `v` and nothing else. */
  lemma GetSet(c: Card, f: CardField, v: Value, g: CardField)
    ensures Get(Set(c, f, v), g) == if g == f then v else Get(c, g)
    ensures Set(c, f, v).number == c.number
  {
  }

  /** Every field holds a value of its kind: text for the text fields, no
      value or a blob for the media fields. */
  predicate WellKinded(c: Card) {
    forall f :: Get(c, f).Str? == !IsMedia(f)
  }

  /** Python's `a & b` on non-negative integers, bit by bit from the lowest. */
  function And(a: nat, b: nat): nat
    decreases a + b
  {
    if a == 0 || b == 0 then 0 else 2 * And(a / 2, b / 2) + (if a % 2 == 1 && b % 2 == 1 then 1 else 0)
  }

  /** Binary digit `k` of `mask`, counted from the least significant. */
  predicate Digit(mask: nat, k: nat) {
    if k == 0 then mask % 2 == 1 else Digit(mask / 2, k - 1)
  }

  /** `mask & bit != 0` for table entry `i`: the bit of entry `i` is binary
      digit `i + 2` (see `PresentIsMaskAnd`). */
  predicate Present(mask: nat, i: nat)
    requires i < |Attributes|
  {
    Digit(mask, i + 2)
  }

  /** The bit of table entry `i` is `2^(i + 2)`: 4, 8, …, 4096. */
  lemma TableBits(i: nat)
    requires i < |Attributes|
    ensures Attributes[i].1 == Pow2(i + 2)
  {
    assert Pow2(2) == 4 && Pow2(3) == 8 && Pow2(4) == 16 && Pow2(5) == 32;
    assert Pow2(6) == 64 && Pow2(7) == 128 && Pow2(8) == 256 && Pow2(9) == 512;
    assert Pow2(10) == 1024 && Pow2(11) == 2048 && Pow2(12) == 4096;
  }

  /** `mask & 2^k` is non-zero exactly when binary digit `k` of `mask` is 1. */
  lemma {:induction false} AndPow2(mask: nat, k: nat)
    ensures And(mask, Pow2(k)) != 0 <==> Digit(mask, k)
    decreases k
  {
    if k > 0 {
      AndPow2(mask / 2, k - 1);
      assert Pow2(k) / 2 == Pow2(k - 1) && Pow2(k) % 2 == 0;
    }
  }

  /** `Present` is the source's test `mask & bit` on the table's own bit. */
  lemma PresentIsMaskAnd(mask: nat, i: nat)
    requires i < |Attributes|
    ensures Present(mask, i) <==> And(mask, Attributes[i].1) != 0
  {
    TableBits(i);
    AndPow2(mask, i + 2);
  }

  /** The number of table entries before entry `i` whose bit is set in `mask`:
      the pointer slots consumed before entry `i` is reached. */
  function Rank(mask: nat, i: nat): nat
    requires i <= |Attributes|
  {
    if i == 0 then 0 else Rank(mask, i - 1) + (if Present(mask, i - 1) then 1 else 0)
  }

  /** Dereferences the pointer of field `f`: a blob for audio and image, a
      masked string otherwise. */
  function Load(src: Source, f: CardField, address: nat): (r: Result<Value>)
    ensures r.Ok? ==> Fits(f, r.value)
  {
    if IsMedia(f) then
      var blob :- ExtractBlob(src, address);
      Ok(Media(blob))
    else
      var text :- DecodedString(src, address);
      Ok(Str(text))
  }

  /** The value of field `f` read through the pointer slot at `at`. */
  function Slot(src: Source, f: CardField, at: nat): (r: Result<Value>)
    ensures r.Ok? ==> Fits(f, r.value)
  {
    var address :- U32(src, at);
    Load(src, f, address)
  }

  /** How the table walk obtains the value of a field from its pointer slot. */
  type Reader = (CardField, nat) -> Result<Value>

  /** `Slot` on the buffer `src`, as the walk's reader. */
  function SlotReader(src: Source): Reader {
    (f: CardField, at: nat) => Slot(src, f, at)
  }

  /** The rest of the table walk from entry `i`, with the cursor at `cursor`:
      a present entry takes the value behind the next slot and advances the
      cursor; an absent one consumes nothing. */
  function Fill(read: Reader, mask: nat, i: nat, cursor: nat, c: Card): Result<Card>
    requires i <= |Attributes|
    decreases |Attributes| - i
  {
    if i == |Attributes| then Ok(c)
    else if Present(mask, i) then
      var v :- read(Attributes[i].0, cursor);
      Fill(read, mask, i + 1, cursor + 4, Set(c, Attributes[i].0, v))
    else
      Fill(read, mask, i + 1, cursor, c)
  }

  /** Reference definition of `Card(parser, dataPointer, mask)`. */
  function DecodedCard(src: Source, dataPointer: nat, mask: nat): Result<Card> {
    var number :- U32(src, dataPointer + 4);
    Fill(SlotReader(src), mask, 0, dataPointer + 8, Blank(number))
  }

  /** One present field of `Card.__init__`: reads its pointer slot and
      dereferences it. */
  method ReadSlot(src: Source, field: CardField, at: nat) returns (r: Result<Value>)
    ensures r == Slot(src, field, at)
  {
    var address :- U32(src, at);
    if IsMedia(field) {
      var blob :- ExtractBlob(src, address);
      return Ok(Media(blob));
    } else {
      var text :- DecodeString(src, address);
      return Ok(Str(text));
    }
  }

  /** `Card.__init__`: walks the table once, reading the next pointer slot for
      every field whose bit is set and consuming nothing for the others. */
  method DecodeCard(src: Source, dataPointer: nat, mask: nat) returns (r: Result<Card>)
    ensures r == DecodedCard(src, dataPointer, mask)
  {
    var number :- U32(src, dataPointer + 4);
    var card := Blank(number);
    var cursor: nat := dataPointer + 8;
    ghost var target := Fill(SlotReader(src), mask, 0, cursor, card);
    for i := 0 to |Attributes|
      invariant Fill(SlotReader(src), mask, i, cursor, card) == target
    {
      var step := DecodeEntry(src, mask, i, cursor, card);
      if step.Err? {
        return Err(step.error);
      }
      card, cursor := step.value.0, step.value.1;
    }
    return Ok(card);
  }

  /** One pass of the loop in `Card.__init__`: tests entry `i`'s bit and, when
      it is set, reads the slot at the cursor and advances the cursor. */
  method DecodeEntry(src: Source, mask: nat, i: nat, cursor: nat, card: Card) returns (r: Result<(Card, nat)>)
    requires i < |Attributes|
    ensures var rest := if r.Ok? then Fill(SlotReader(src), mask, i + 1, r.value.1, r.value.0) else Err(r.error);
      Fill(SlotReader(src), mask, i, cursor, card) == rest
  {
    var field := Attributes[i].0;
    PresentIsMaskAnd(mask, i);
    FillStep(SlotReader(src), mask, i, cursor, card);
    if And(mask, Attributes[i].1) != 0 {
      var v := ReadSlot(src, field, cursor);
      if v.Err? {
        return Err(v.error);
      }
      return Ok((Set(card, field, v.value), cursor + 4));
    }
    return Ok((card, cursor));
  }

  /** One entry of the table walk. */
  lemma FillStep(read: Reader, mask: nat, i: nat, cursor: nat, c: Card)
    requires i < |Attributes|
    ensures var v := read(Attributes[i].0, cursor);
      Fill(read, mask, i, cursor, c) ==
        if !Present(mask, i) then Fill(read, mask, i + 1, cursor, c)
        else if v.Err? then Err(v.error)
        else Fill(read, mask, i + 1, cursor + 4, Set(c, Attributes[i].0, v.value))
  {
  }

  /** Each table entry names a different field: `Entry` undoes the table. */
  lemma EntryOf(i: nat)
    requires i < |Attributes|
    ensures Entry(Attributes[i].0) == i
  {
  }

  /** The table walk from entry `i`, where `base` is the first slot,
      succeeds exactly when every present entry's slot can be read. */
  lemma {:induction false} FillSucceeds(read: Reader, mask: nat, i: nat, base: nat, c0: Card)
    requires i <= |Attributes|
    ensures Fill(read, mask, i, base + 4 * Rank(mask, i), c0).Ok?
        <==> forall j :: i <= j < |Attributes| && Present(mask, j) ==> read(Attributes[j].0, base + 4 * Rank(mask, j)).Ok?
    decreases |Attributes| - i
  {
    if i < |Attributes| {
      var cursor := base + 4 * Rank(mask, i);
      assert Rank(mask, i + 1) == Rank(mask, i) + (if Present(mask, i) then 1 else 0);
      FillStep(read, mask, i, cursor, c0);
      if Present(mask, i) {
        var v := read(Attributes[i].0, cursor);
        if v.Ok? {
          FillSucceeds(read, mask, i + 1, base, Set(c0, Attributes[i].0, v.value));
        }
      } else {
        FillSucceeds(read, mask, i + 1, base, c0);
      }
    }
  }

  /** The table walk keeps the card number. */
  lemma {:induction false} FillNumber(read: Reader, mask: nat, i: nat, cursor: nat, c0: Card)
    requires i <= |Attributes|
    requires Fill(read, mask, i, cursor, c0).Ok?
    ensures Fill(read, mask, i, cursor, c0).value.number == c0.number
    decreases |Attributes| - i
  {
    if i < |Attributes| {
      if Present(mask, i) {
        var v := read(Attributes[i].0, cursor).value;
        FillNumber(read, mask, i + 1, cursor + 4, Set(c0, Attributes[i].0, v));
      } else {
        FillNumber(read, mask, i + 1, cursor, c0);
      }
    }
  }

  /** The table walk from entry `i` leaves the field of entry `j` as it was
      when `j` is already behind the walk or its bit is clear. */
  lemma {:induction false} FillKeeps(read: Reader, mask: nat, i: nat, cursor: nat, c0: Card, j: nat)
    requires i <= |Attributes| && j < |Attributes|
    requires Fill(read, mask, i, cursor, c0).Ok?
    requires j < i || !Present(mask, j)
    ensures Get(Fill(read, mask, i, cursor, c0).value, Attributes[j].0) == Get(c0, Attributes[j].0)
    decreases |Attributes| - i
  {
    if i < |Attributes| {
      FillStep(read, mask, i, cursor, c0);
      if Present(mask, i) {
        var v := read(Attributes[i].0, cursor).value;
        EntryOf(i);
        EntryOf(j);
        GetSet(c0, Attributes[i].0, v, Attributes[j].0);
        FillKeeps(read, mask, i + 1, cursor + 4, Set(c0, Attributes[i].0, v), j);
      } else {
        FillKeeps(read, mask, i + 1, cursor, c0, j);
      }
    }
  }

  /** The table walk from entry `i`, where `base` is the first slot, gives
      every present entry `j` ahead of it the value read through slot
      `Rank(mask, j)`. */
  lemma {:induction false} FillReads(read: Reader, mask: nat, i: nat, base: nat, c0: Card, j: nat)
    requires i <= j < |Attributes| && Present(mask, j)
    requires Fill(read, mask, i, base + 4 * Rank(mask, i), c0).Ok?
    ensures read(Attributes[j].0, base + 4 * Rank(mask, j))
         == Ok(Get(Fill(read, mask, i, base + 4 * Rank(mask, i), c0).value, Attributes[j].0))
    decreases |Attributes| - i
  {
    var cursor := base + 4 * Rank(mask, i);
    assert Rank(mask, i + 1) == Rank(mask, i) + (if Present(mask, i) then 1 else 0);
    var c := Fill(read, mask, i, cursor, c0);
    FillStep(read, mask, i, cursor, c0);
    if Present(mask, i) {
      var v := read(Attributes[i].0, cursor).value;
      var c1 := Set(c0, Attributes[i].0, v);
      if i == j {
        GetSet(c0, Attributes[i].0, v, Attributes[j].0);
        FillKeeps(read, mask, i + 1, cursor + 4, c1, j);
      } else {
        FillReads(read, mask, i + 1, base, c1, j);
      }
    } else {
      FillReads(read, mask, i + 1, base, c0, j);
    }
  }

  /** The table entry of each field: every field has one. */
  function Entry(f: CardField): (j: nat)
    ensures j < |Attributes| && Attributes[j].0 == f
  {
    match f
    case NativeTitle => 0
    case NativeSubtitle => 1
    case ForeignTitle => 2
    case ForeignSubtitle => 3
    case NativeAltAnswer => 4
    case ForeignAltAnswer => 5
    case ForeignTranslit => 6
    case NativeTooltip => 7
    case ForeignAudio => 8
    case NativeAudio => 9
    case Image => 10
  }

  /** A walk whose reader yields a value of the right kind for every field
      keeps a well-kinded card well-kinded, whatever the mask. */
  lemma FillKinded(read: Reader, mask: nat, base: nat, c0: Card)
    requires forall f, at :: read(f, at).Ok? ==> Fits(f, read(f, at).value)
    requires WellKinded(c0)
    requires Fill(read, mask, 0, base, c0).Ok?
    ensures WellKinded(Fill(read, mask, 0, base, c0).value)
  {
    var c := Fill(read, mask, 0, base, c0).value;
    assert base + 4 * Rank(mask, 0) == base;
    forall f
      ensures Get(c, f).Str? == !IsMedia(f)
    {
      var j := Entry(f);
      if Present(mask, j) {
        FillReads(read, mask, 0, base, c0, j);
        assert read(f, base + 4 * Rank(mask, j)) == Ok(Get(c, f));
      } else {
        FillKeeps(read, mask, 0, base, c0, j);
      }
    }
  }

  /** A decoded card holds text in its text fields and a blob or nothing in
      its media fields, whatever the mask. */
  lemma DecodedCardKinded(src: Source, dataPointer: nat, mask: nat)
    requires DecodedCard(src, dataPointer, mask).Ok?
    ensures WellKinded(DecodedCard(src, dataPointer, mask).value)
  {
    DecodedCardFill(src, dataPointer, mask);
    var number := U32(src, dataPointer + 4).value;
    BlankKinded(number);
    SlotReaderFits(src);
    FillKinded(SlotReader(src), mask, dataPointer + 8, Blank(number));
  }

  lemma DecodedCardFill(src: Source, dataPointer: nat, mask: nat)
    requires DecodedCard(src, dataPointer, mask).Ok?
    ensures U32(src, dataPointer + 4).Ok?
    ensures DecodedCard(src, dataPointer, mask)
         == Fill(SlotReader(src), mask, 0, dataPointer + 8, Blank(U32(src, dataPointer + 4).value))
  {
  }

  lemma BlankKinded(number: nat)
    ensures WellKinded(Blank(number))
  {
  }

  /** Reading through a slot yields a value of the field's kind. */
  lemma SlotReaderFits(src: Source)
    ensures forall f, at :: SlotReader(src)(f, at).Ok? ==> Fits(f, SlotReader(src)(f, at).value)
  {
    var read := SlotReader(src);
    forall f, at | read(f, at).Ok?
      ensures Fits(f, read(f, at).value)
    {
      assert read(f, at) == Slot(src, f, at);
    }
  }

  /** Each present field owns its own slot: slot numbers of present fields
      are consecutive from 0 in table order, so the slots consumed are
      exactly `Rank(mask, |Attributes|)`, the number of set bits. */
  lemma {:induction false} RankCounts(mask: nat, i: nat, j: nat)
    requires i < j <= |Attributes|
    ensures Present(mask, i) ==> Rank(mask, i) < Rank(mask, j)
    ensures Rank(mask, i) <= Rank(mask, j) <= Rank(mask, i) + (j - i)
    decreases j - i
  {
    if j > i + 1 {
      RankCounts(mask, i, j - 1);
    }
  }

  /** The mask 4 + 16 selects the native and the foreign title and no
      other entry of the table. */
  lemma TitlesMask()
    ensures Present(20, 0) && !Present(20, 1) && Present(20, 2)
    ensures !Present(20, 3) && !Present(20, 4) && !Present(20, 5) && !Present(20, 6)
    ensures !Present(20, 7) && !Present(20, 8) && !Present(20, 9) && !Present(20, 10)
    ensures Rank(20, 0) == 0 && Rank(20, 2) == 1
  {
    assert Present(20, 0) && !Present(20, 1) && Present(20, 2);
    assert !Present(20, 3) && !Present(20, 4) && !Present(20, 5) && !Present(20, 6);
    assert !Present(20, 7) && !Present(20, 8) && !Present(20, 9) && !Present(20, 10);
  }

  /** Under the mask 4 + 16 every entry other than the two titles is clear. */
  lemma OnlyTitlesPresent(j: nat)
    requires j < |Attributes| && j != 0 && j != 2
    ensures !Present(20, j)
  {
    TitlesMask();
  }

  /** A card whose mask sets only bits 4 and 16 reads its native title
      through the first slot and its foreign title through the second; every
      other field keeps its default. */
  lemma TitlesOnlyCard(read: Reader, mask: nat, base: nat, number: nat)
    requires mask == 4 + 16
    requires Fill(read, mask, 0, base, Blank(number)).Ok?
    ensures var c := Fill(read, mask, 0, base, Blank(number)).value;
      && read(NativeTitle, base) == Ok(Get(c, NativeTitle))
      && read(ForeignTitle, base + 4) == Ok(Get(c, ForeignTitle))
      && Get(c, NativeSubtitle) == Str([]) && Get(c, NativeTooltip) == Str([])
      && Get(c, ForeignAudio) == NoValue && Get(c, NativeAudio) == NoValue && Get(c, Image) == NoValue
    ensures var c := Fill(read, mask, 0, base, Blank(number)).value;
      forall j :: 0 <= j < |Attributes| && j != 0 && j != 2 ==> Get(c, Attributes[j].0) == Default(Attributes[j].0)
  {
    var c0 := Blank(number);
    TitlesMask();
    assert base + 4 * Rank(mask, 0) == base && base + 4 * Rank(mask, 2) == base + 4;
    assert Attributes[0].0 == NativeTitle && Attributes[1].0 == NativeSubtitle && Attributes[2].0 == ForeignTitle;
    assert Attributes[7].0 == NativeTooltip && Attributes[8].0 == ForeignAudio;
    assert Attributes[9].0 == NativeAudio && Attributes[10].0 == Image;
    FillReads(read, mask, 0, base, c0, 0);
    FillReads(read, mask, 0, base, c0, 2);
    forall j | 0 <= j < |Attributes| && j != 0 && j != 2
      ensures Get(Fill(read, mask, 0, base, c0).value, Attributes[j].0) == Default(Attributes[j].0)
    {
      OnlyTitlesPresent(j);
      FillKeeps(read, mask, 0, base, c0, j);
    }
  }
}
