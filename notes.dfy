/** The text of the five note fields a card becomes (`Card.setFields`):
    the front and back HTML, the two `[sound:…]` tags and the tooltip, and
    the media files the card's blobs are written to. */
module Notes {
  import opened Codec
  import opened Cards

  /** A literal whose characters are all 16-bit code units. */
  predicate Narrow(s: string) {
    forall i :: 0 <= i < |s| ==> s[i] as int < 0x1_0000
  }

  /** A literal as text (`unicode(prefix)`). */
  function Units(s: string): (t: Text)
    requires Narrow(s)
    ensures |t| == |s| && forall i :: 0 <= i < |s| ==> t[i] == s[i] as int
  {
    seq(|s|, i requires 0 <= i < |s| => s[i] as int)
  }

  /** The text of a text field (`Str`); any other value reads as empty. */
  function TextOf(c: Card, f: CardField): Text {
    match Get(c, f)
    case Str(t) => t
    case _ => []
  }

  /** `wrap(content, prefix, suffix)`: nothing for empty content, otherwise
      the content between the prefix and the suffix. */
  function Wrap(content: Text, prefix: Text, suffix: Text): (r: Text)
    ensures r == [] <==> content == []
    ensures content != [] ==>
      |r| == |prefix| + |content| + |suffix| &&
      r[..|prefix|] == prefix &&
      r[|prefix| .. |prefix| + |content|] == content &&
      r[|prefix| + |content| ..] == suffix
  {
    if content == [] then [] else prefix + content + suffix
  }

  // The fixed markup of the note fields.
  const Paragraph: Text := Units("<br/><p>")
  const AlsoParagraph: Text := Units("<br/><p>Also: ")
  const ParagraphEnd: Text := Units("</p>")
  const Small: Text := Units("<small>")
  const SmallEnd: Text := Units("</small>")
  const SoundOpen: Text := Units("[sound:")
  const SoundClose: Text := Units("]")
  const ImageOpen: Text := Units("<img src=\"")
  const ImageClose: Text := Units("\"><br/>")

  // ---------------------------------------------------------------------------
  // Card numbers in decimal

  const Zero: CodeUnit := 0x30

  predicate IsDigit(u: CodeUnit) {
    Zero <= u <= Zero + 9
  }

  /** `str(number)`: the decimal digits of `n`, most significant first. */
  function Decimal(n: nat): (r: Text)
    ensures |r| >= 1 && forall i :: 0 <= i < |r| ==> IsDigit(r[i])
    ensures n > 0 ==> r[0] != Zero
    ensures n == 0 ==> r == [Zero]
  {
    if n < 10 then [Zero + n] else Decimal(n / 10) + [Zero + n % 10]
  }

  /** The number a string of decimal digits denotes. */
  function DigitsValue(t: Text): nat {
    if t == [] then 0
    else 10 * DigitsValue(t[..|t| - 1]) + (if IsDigit(t[|t| - 1]) then t[|t| - 1] - Zero else 0)
  }

  /** Reading the digits of `str(n)` gives `n` back. */
  lemma {:induction false} DecimalValue(n: nat)
    ensures DigitsValue(Decimal(n)) == n
  {
    if n >= 10 {
      DecimalValue(n / 10);
      var r := Decimal(n);
      assert r[..|r| - 1] == Decimal(n / 10);
    }
  }

  /** Different numbers have different decimal forms. */
  lemma DecimalInjective(m: nat, n: nat)
    requires Decimal(m) == Decimal(n)
    ensures m == n
  {
    DecimalValue(m);
    DecimalValue(n);
  }

  // ---------------------------------------------------------------------------
  // Media file names and tags

  const ForeignAudioSuffix: Text := Units("_foreign.ogg")
  const NativeAudioSuffix: Text := Units("_native.ogg")
  const ImageSuffix: Text := Units("_image.jpg")

  /** The suffixes of the three media files. */
  predicate MediaSuffix(suffix: Text) {
    suffix == ForeignAudioSuffix || suffix == NativeAudioSuffix || suffix == ImageSuffix
  }

  /** `filePrefix + cardnum + suffix`, the name a card's blob is written under. */
  function MediaName(prefix: Text, number: nat, suffix: Text): (r: Text)
    requires MediaSuffix(suffix)
    ensures |r| == |prefix| + |Decimal(number)| + |suffix|
  {
    prefix + Decimal(number) + suffix
  }

  /** `[sound:<fn>]`. */
  function SoundTag(fn: Text): Text {
    SoundOpen + fn + SoundClose
  }

  /** `<img src="<fn>"><br/>`. */
  function ImageTag(fn: Text): Text {
    ImageOpen + fn + ImageClose
  }

  /** The tag of a blob field: empty when the field holds no blob. */
  function MediaTag(c: Card, f: CardField, prefix: Text, suffix: Text, image: bool): Text
    requires MediaSuffix(suffix)
  {
    if !Get(c, f).Media? then []
    else if image then ImageTag(MediaName(prefix, c.number, suffix))
    else SoundTag(MediaName(prefix, c.number, suffix))
  }

  // ---------------------------------------------------------------------------
  // The five note fields

  /** Front: the foreign title, its subtitle and its alternative answer. */
  function Front(c: Card): Text {
    TextOf(c, ForeignTitle)
    + Wrap(TextOf(c, ForeignSubtitle), Paragraph, ParagraphEnd)
    + Wrap(TextOf(c, ForeignAltAnswer), AlsoParagraph, ParagraphEnd)
  }

  /** Back: the image tag, the native title, its subtitle and its
      alternative answer. */
  function Back(c: Card, prefix: Text): Text {
    MediaTag(c, Image, prefix, ImageSuffix, true)
    + TextOf(c, NativeTitle)
    + Wrap(TextOf(c, NativeSubtitle), Paragraph, ParagraphEnd)
    + Wrap(TextOf(c, NativeAltAnswer), AlsoParagraph, ParagraphEnd)
  }

  /** The list `setFields` appends to the note's fields. */
  function NoteFields(c: Card, prefix: Text): seq<Text> {
    [ Front(c),
      Back(c, prefix),
      MediaTag(c, ForeignAudio, prefix, ForeignAudioSuffix, false),
      MediaTag(c, NativeAudio, prefix, NativeAudioSuffix, false),
      Wrap(TextOf(c, NativeTooltip), Small, SmallEnd) ]
  }

  /** The files `setFields` writes, in order: foreign audio, native audio,
      image, each only when the field holds a blob. */
  function MediaFiles(c: Card, prefix: Text): seq<(Text, Blob)> {
    (if Get(c, ForeignAudio).Media? then [(MediaName(prefix, c.number, ForeignAudioSuffix), Get(c, ForeignAudio).blob)] else [])
    + (if Get(c, NativeAudio).Media? then [(MediaName(prefix, c.number, NativeAudioSuffix), Get(c, NativeAudio).blob)] else [])
    + (if Get(c, Image).Media? then [(MediaName(prefix, c.number, ImageSuffix), Get(c, Image).blob)] else [])
  }

  /** The imported note: the card it was decoded from and its field list. */
  class Note {
    const card: Card
    var fields: seq<Text>

    /** A new note has no fields yet. */
    constructor (card: Card)
      ensures this.card == card && fields == []
    {
      this.card := card;
      fields := [];
    }

    /** `setFields(tofolder, filePrefix)`: writes the card's media and
        appends the five note fields. */
    method SetFields(prefix: Text) returns (written: seq<(Text, Blob)>)
      modifies this
      ensures fields == old(fields) + NoteFields(card, prefix)
      ensures written == MediaFiles(card, prefix)
    {
      written := [];
      var foreignAudio: Text := [];
      var nativeAudio: Text := [];
      var image: Text := [];
      if Get(card, ForeignAudio).Media? {
        var fn := MediaName(prefix, card.number, ForeignAudioSuffix);
        written := written + [(fn, Get(card, ForeignAudio).blob)];
        foreignAudio := SoundTag(fn);
      }
      if Get(card, NativeAudio).Media? {
        var fn := MediaName(prefix, card.number, NativeAudioSuffix);
        written := written + [(fn, Get(card, NativeAudio).blob)];
        nativeAudio := SoundTag(fn);
      }
      if Get(card, Image).Media? {
        var fn := MediaName(prefix, card.number, ImageSuffix);
        written := written + [(fn, Get(card, Image).blob)];
        image := ImageTag(fn);
      }
      fields := fields + [
        TextOf(card, ForeignTitle)
          + Wrap(TextOf(card, ForeignSubtitle), Paragraph, ParagraphEnd)
          + Wrap(TextOf(card, ForeignAltAnswer), AlsoParagraph, ParagraphEnd),
        image + TextOf(card, NativeTitle)
          + Wrap(TextOf(card, NativeSubtitle), Paragraph, ParagraphEnd)
          + Wrap(TextOf(card, NativeAltAnswer), AlsoParagraph, ParagraphEnd),
        foreignAudio,
        nativeAudio,
        Wrap(TextOf(card, NativeTooltip), Small, SmallEnd)
      ];
    }
  }

  // ---------------------------------------------------------------------------
  // Properties

  /** A note has five fields; the two audio fields hold a sound tag exactly
      when the card holds that blob, and the tooltip field is empty exactly
      when the card has no tooltip. */
  lemma NoteFieldsShape(c: Card, prefix: Text)
    ensures var r := NoteFields(c, prefix);
      && |r| == 5
      && (r[2] != [] <==> Get(c, ForeignAudio).Media?)
      && (r[3] != [] <==> Get(c, NativeAudio).Media?)
      && (r[4] == [] <==> TextOf(c, NativeTooltip) == [])
      && (Get(c, ForeignAudio).Media? ==> r[2] == SoundTag(MediaName(prefix, c.number, ForeignAudioSuffix)))
      && (Get(c, NativeAudio).Media? ==> r[3] == SoundTag(MediaName(prefix, c.number, NativeAudioSuffix)))
  {
  }

  /** The front starts with the foreign title and is exactly that title when
      the subtitle and the alternative answer are empty. */
  lemma FrontStartsWithTitle(c: Card)
    ensures var t := TextOf(c, ForeignTitle);
      && |t| <= |Front(c)| && Front(c)[..|t|] == t
      && (TextOf(c, ForeignSubtitle) == [] && TextOf(c, ForeignAltAnswer) == [] ==> Front(c) == t)
  {
  }

  /** The back starts with the image tag when the card holds an image and
      with the native title otherwise. */
  lemma BackStartsWithImage(c: Card, prefix: Text)
    ensures var tag := MediaTag(c, Image, prefix, ImageSuffix, true);
      && |tag| <= |Back(c, prefix)| && Back(c, prefix)[..|tag|] == tag
      && (tag != [] <==> Get(c, Image).Media?)
      && (!Get(c, Image).Media? ==>
            Back(c, prefix)[..|TextOf(c, NativeTitle)|] == TextOf(c, NativeTitle))
  {
    var tag := MediaTag(c, Image, prefix, ImageSuffix, true);
    Leading(tag, TextOf(c, NativeTitle),
      Wrap(TextOf(c, NativeSubtitle), Paragraph, ParagraphEnd),
      Wrap(TextOf(c, NativeAltAnswer), AlsoParagraph, ParagraphEnd));
    if Get(c, Image).Media? {
      assert |ImageOpen| > 0;
    }
  }

  /** The first piece of a concatenation, and the second after an empty first. */
  lemma Leading(a: Text, b: Text, c: Text, d: Text)
    ensures |a| <= |a + b + c + d| && (a + b + c + d)[..|a|] == a
    ensures a == [] ==> (a + b + c + d)[..|b|] == b
  {
    assert a + b + c + d == a + (b + c + d);
  }

  /** One file per blob the card holds, and each of them is referenced by
      the note's tags. */
  lemma MediaFilesReferenced(c: Card, prefix: Text)
    ensures var files := MediaFiles(c, prefix);
      && |files| == (if Get(c, ForeignAudio).Media? then 1 else 0)
                  + (if Get(c, NativeAudio).Media? then 1 else 0)
                  + (if Get(c, Image).Media? then 1 else 0)
      && forall file :: file in files ==>
           SoundTag(file.0) in NoteFields(c, prefix) || ImageTag(file.0) <= Back(c, prefix)
  {
    var fields := NoteFields(c, prefix);
    var foreign := if Get(c, ForeignAudio).Media? then [(MediaName(prefix, c.number, ForeignAudioSuffix), Get(c, ForeignAudio).blob)] else [];
    var native := if Get(c, NativeAudio).Media? then [(MediaName(prefix, c.number, NativeAudioSuffix), Get(c, NativeAudio).blob)] else [];
    var image := if Get(c, Image).Media? then [(MediaName(prefix, c.number, ImageSuffix), Get(c, Image).blob)] else [];
    assert MediaFiles(c, prefix) == foreign + native + image;
    forall file | file in foreign ensures SoundTag(file.0) in fields {
      assert fields[2] == SoundTag(file.0);
    }
    forall file | file in native ensures SoundTag(file.0) in fields {
      assert fields[3] == SoundTag(file.0);
    }
    forall file | file in image ensures ImageTag(file.0) <= Back(c, prefix) {
      BackStartsWithImage(c, prefix);
    }
  }

  /** A digit string ended by a non-digit is recovered from the
      concatenation: the split between number and suffix is unique. */
  lemma DigitRunSplit(a: Text, s: Text, b: Text, t: Text)
    requires forall i :: 0 <= i < |a| ==> IsDigit(a[i])
    requires forall i :: 0 <= i < |b| ==> IsDigit(b[i])
    requires s != [] && !IsDigit(s[0]) && t != [] && !IsDigit(t[0])
    requires a + s == b + t
    ensures a == b && s == t
  {
    var k := if |a| <= |b| then |a| else |b|;
    assert IsDigit((a + s)[k]) <==> k < |a|;
    assert IsDigit((b + t)[k]) <==> k < |b|;
    assert a == (a + s)[..|a|];
    assert b == (b + t)[..|b|];
  }

  lemma DropPrefix(p: Text, x: Text)
    ensures (p + x)[|p|..] == x
  {
  }

  /** Every media suffix starts with '_', which is not a digit. */
  lemma SuffixStart(s: Text)
    requires MediaSuffix(s)
    ensures s != [] && s[0] == '_' as int && !IsDigit(s[0])
  {
    assert "_foreign.ogg"[0] == '_' && "_native.ogg"[0] == '_' && "_image.jpg"[0] == '_';
  }

  /** Media files never collide: two files written under the same prefix
      have the same name only for the same card number and the same kind. */
  lemma MediaNamesDistinct(prefix: Text, m: nat, s1: Text, n: nat, s2: Text)
    requires MediaSuffix(s1) && MediaSuffix(s2)
    requires MediaName(prefix, m, s1) == MediaName(prefix, n, s2)
    ensures m == n && s1 == s2
  {
    SuffixStart(s1);
    SuffixStart(s2);
    NumberedDistinct(prefix, m, s1, n, s2);
  }

  /** A prefix, a card number in decimal and a suffix that starts with a
      non-digit: the name determines the number and the suffix. */
  lemma NumberedDistinct(prefix: Text, m: nat, s1: Text, n: nat, s2: Text)
    requires s1 != [] && !IsDigit(s1[0]) && s2 != [] && !IsDigit(s2[0])
    requires prefix + Decimal(m) + s1 == prefix + Decimal(n) + s2
    ensures m == n && s1 == s2
  {
    var a, b := Decimal(m), Decimal(n);
    assert prefix + a + s1 == prefix + (a + s1);
    assert prefix + b + s2 == prefix + (b + s2);
    DropPrefix(prefix, a + s1);
    DropPrefix(prefix, b + s2);
    DigitRunSplit(a, s1, b, s2);
    DecimalInjective(m, n);
  }

  /** A card with only its two titles set becomes the note holding the
      foreign title on the front, the native title on the back, and nothing
      else. */
  lemma TitlesOnlyNote(number: nat, prefix: Text, foreign: Text, native: Text)
    ensures var c := Set(Set(Blank(number), ForeignTitle, Str(foreign)), NativeTitle, Str(native));
      NoteFields(c, prefix) == [foreign, native, [], [], []]
  {
    var c := Set(Set(Blank(number), ForeignTitle, Str(foreign)), NativeTitle, Str(native));
    assert TextOf(c, ForeignTitle) == foreign;
    assert TextOf(c, NativeTitle) == native;
    assert !Get(c, Image).Media? && !Get(c, ForeignAudio).Media? && !Get(c, NativeAudio).Media?;
    assert TextOf(c, ForeignSubtitle) == [] && TextOf(c, ForeignAltAnswer) == [];
    assert TextOf(c, NativeSubtitle) == [] && TextOf(c, NativeAltAnswer) == [] && TextOf(c, NativeTooltip) == [];
    var r := NoteFields(c, prefix);
    assert r[0] == foreign + [] + [] == foreign;
    assert r[1] == [] + native + [] + [] == native;
    assert r[2] == [] && r[3] == [] && r[4] == [];
  }

  /** The card with foreign title "Hola" and native title "Hello" and
      nothing else becomes the note ["Hola", "Hello", "", "", ""]. */
  lemma HolaHello(number: nat, prefix: Text)
    ensures var c := Set(Set(Blank(number), ForeignTitle, Str(Units("Hola"))), NativeTitle, Str(Units("Hello")));
      NoteFields(c, prefix) == [Units("Hola"), Units("Hello"), [], [], []]
  {
    TitlesOnlyNote(number, prefix, Units("Hola"), Units("Hello"));
  }
}
