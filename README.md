# Byki .b4u deck decoder, modelled in Dafny

This project models the decoder that the Byki importer add-on (`Byki_Import.py`)
uses to read Byki `.b4u` flashcard decks, and proves properties of that model.
A deck file is one immutable byte buffer. The decoder works on it in four layers:

- **Buffer** (`buffer.dfy`). This is `Parser.read`: little-endian reads of `H`
  (u16), `L` (u32) and `s` (one byte) fields at an offset. It fails when the file
  never loaded (`SourceUnavailable`) and when a read would pass the end of the
  buffer (`OutOfBounds`).
- **Codec** (`codec.dfy`). This covers the three value decoders of `Parser`:
  - `string`: a u16 count, then that many u16 code units, each XORed with `0x7E`;
  - `plain_fixed_string`: a 24-byte label with the characters NUL, `x` and `0`
    stripped from both ends;
  - `blob`: a u32 length, then the payload after an 8-byte header, cut short at
    the end of the buffer.
- **Cards** (`cards.dfy`). This is `Card.__init__`. A card body holds the card
  number at `dataPointer + 4`. From `dataPointer + 8` it holds one 4-byte pointer
  per field whose bit (4, 8, …, 4096) is set in the attribute mask. The pointers
  are packed without gaps in the fixed order of an 11-entry table. Text fields
  are dereferenced as masked strings, and the two audio fields and the image as
  blobs.
- **Notes** (`notes.dfy`). This is the text produced by `Card.setFields`: `wrap`,
  the five note fields (front, back, two `[sound:…]` tags, tooltip) and the names
  of the media files written for the card's blobs.
- **Decks** (`decks.dfy`). This is `Deck.parse`:
  - it probes offsets 104, 108 and 112 for the literal `Cards`, and the caret lies
    32 bytes past the first match;
  - it walks the detail list from the pointer at offset 92, setting one of eight
    deck attributes per recognized label from the word at node `+40`;
  - it walks the card list of five-word nodes from the pointer at caret `+16`,
    building one card per node.

The loops of the source are methods with loop invariants. Each one is proved
equal to a reference function, and the properties are proved as lemmas about
those functions:

| Loop | Method | Reference function |
|---|---|---|
| `string` | `DecodeString` | `DecodedString` |
| the field loop of `Card.__init__` | `DecodeCard` | `DecodedCard`, built on `Fill` |
| the anchor probe | `FindCaret` | `AnchorFrom` |
| the detail loop | `Deck.ReadDetails` | `DetailsFrom` |
| the card loop | `Deck.ReadCards` | `CardsFrom` |
| `parse` as a whole | `Deck.Parse` | `ParseSpec` |

Two objects that the source updates in place are classes:
- `Deck` has the attributes, `valid` and `cards`;
- `Note` has the field list that `setFields` extends.

Some behaviours of the code are easy to misread; the model follows the code:
- **The label strip.** The strip argument `'\0x0'` is the three characters NUL,
  `x` and `0`, and they are stripped from both ends. It is not only the trailing
  NUL padding.
- **A read that fails raises.** A read past the end of the buffer inside a card
  raises. It does not skip the card. In the model the parse returns an error:
  - the attributes already assigned are kept;
  - `valid` is already true once the detail walk is done;
  - the cards appended so far are kept.

  This is what the Python object holds when the exception leaves `parse`. A
  caller of `Deck(filename)` never sees this partial state only because the
  exception escapes the constructor.
- **A missing file.** The first probe joins the absent read with `''.join(None)`,
  which raises. The model reports this as `Err(SourceUnavailable)`. It is not a
  quiet "invalid" result.
- **A blob past the end of the buffer.** The blob slice is Python's clamped
  slice. A payload that runs past the end is cut short, not rejected (`Slice`,
  `ExtractBlob`).
- **`card_count`.** The word at caret `+ 4` is read, so it can make the parse
  fail, but it is never used.
- **The unreachable branches.** The `GUID` and `Ordered` branches of the detail
  loop cannot be taken, because neither label is a key of the `fields` dictionary
  (`GuidAndOrderedIgnored`). The model does not include them.
- **The last card node.** The card walk processes every node, including the last
  one, whose next pointer is 0. `card.valid` is always true, so the
  `if card.valid` test drops nothing.

## Model

| member | source | states |
|---|---|---|
| Buffer.Read | Byki_Import.py:101-107 | An absent buffer gives the absent signal. A layout that runs past the end fails. Otherwise there is one value per field of the layout. |
| Buffer.U16 | Byki_Import.py:101-107 | `read('H', o)` succeeds exactly when two bytes lie inside the buffer, and gives a value below 2^16. |
| Buffer.U32 | Byki_Import.py:101-107 | `read('L', o)` succeeds exactly when four bytes lie inside the buffer, and gives a value below 2^32. |
| Buffer.Chars | Byki_Import.py:101-107 | `read('s' * n, o)` succeeds exactly when n bytes lie inside the buffer, and gives n bytes. |
| Buffer.U32s | Byki_Import.py:101-107 | `read('L' * n, o)` succeeds exactly when 4n bytes lie inside the buffer, and gives n words. |
| Buffer.U16IsRead | Byki_Import.py:101-107 | The u16 read is the general read of the one-field layout `H`: it succeeds in the same cases and gives the same value. |
| Buffer.U32IsRead | Byki_Import.py:101-107 | The u32 read is the general read of layout `L`: it succeeds in the same cases and gives the same value. |
| Buffer.CharsIsRead | Byki_Import.py:101-107 | The byte-run read is the general read of layout `'s' * n`, field by field. |
| Buffer.U32sIsRead | Byki_Import.py:101-107 | The word-run read is the general read of layout `'L' * n`, for example the five-word card node. |
| Buffer.U16RoundTrip | Byki_Import.py:104 | A 16-bit value written little-endian at any position reads back unchanged. |
| Buffer.U32RoundTrip | Byki_Import.py:104 | A 32-bit value written little-endian at any position reads back unchanged. |
| Codec.XorBound | Byki_Import.py:117 | XOR of two k-bit values is a k-bit value, so a masked unit is still a 16-bit code unit. |
| Codec.XorTwice | Byki_Import.py:117 | XORing twice with the same mask gives back the original value. |
| Codec.FlipFlip | Byki_Import.py:117 | Masking a code unit with `0x7E` twice gives back the unit, so the mask is its own inverse. |
| Codec.DecodeString | Byki_Import.py:109-119 | An absent buffer gives the absent signal. An offset of 0 or less gives the empty text. Otherwise the text has as many units as the u16 at `offset`, and unit i is the u16 at `offset + 2 + 2i` XOR `0x7E`. The result equals the reference `DecodedString`. |
| Codec.StringRoundTrip | Byki_Import.py:112-118 | A text encoded as count plus masked units, at any positive offset of any buffer, decodes back to the same text. |
| Codec.DecodedUnits | Byki_Import.py:113-118 | A count n at a positive offset, followed by n units that unmask to t, decodes to t. |
| Codec.TrimStartSpec | Byki_Import.py:125 | The leading strip keeps a suffix, drops only NUL, `x` and `0`, and stops at the first other byte. |
| Codec.TrimEndSpec | Byki_Import.py:125 | The trailing strip keeps a prefix, drops only NUL, `x` and `0`, and stops at the last other byte. |
| Codec.PlainFixedString | Byki_Import.py:121-126 | An absent buffer gives the absent signal. Otherwise the label read succeeds exactly when 24 bytes lie inside the buffer. |
| Codec.LabelTrimmed | Byki_Import.py:124-125 | A label is a contiguous run of the 24 stored bytes. Everything before and after it is NUL, `x` or `0`, and the run neither starts nor ends with one of them. |
| Codec.LabelRoundTrip | Byki_Import.py:124-125 | A name with strip characters on either side reads back as the name itself. |
| Codec.Slice | Byki_Import.py:130 | Python's slice `s[lo:hi]` clamps both ends to the length. Its length and every byte are stated. |
| Codec.ExtractBlob | Byki_Import.py:128-132 | The blob read fails only when the length word cannot be read. The payload is never longer than the length L, and it copies bytes from `offset + 8` on. It is exactly `[offset+8, offset+8+L)` when that range lies inside the buffer, and otherwise it is cut short at the end of the buffer. |
| Cards.TableBits | Byki_Import.py:167-179 | The bit of table entry i is 2^(i+2): 4, 8, …, 4096. |
| Cards.AndPow2 | Byki_Import.py:184 | `mask & 2^k` is non-zero exactly when binary digit k of the mask is 1. |
| Cards.PresentIsMaskAnd | Byki_Import.py:184 | The model's presence test is exactly the source's `card_attributes & attr[1]`. |
| Cards.GetSet | Byki_Import.py:197 | `setattr` changes the named field to the value, and no other field and not the number. |
| Cards.BlankKinded | Byki_Import.py:150-161 | The class defaults are of the right kind: empty text for the text fields, `None` for the media fields. |
| Cards.Load | Byki_Import.py:188-195 | Dereferencing gives a blob for the audio and image fields and text for every other field. |
| Cards.Slot | Byki_Import.py:185-195 | A value read through a pointer slot is of the field's kind. |
| Cards.ReadSlot | Byki_Import.py:185-195 | One present field reads the pointer at the cursor and dereferences it as its kind requires. |
| Cards.DecodeEntry | Byki_Import.py:183-199 | One pass of the field loop equals one step of the table walk. A set bit reads the slot at the cursor and moves the cursor by 4. A clear bit changes nothing. |
| Cards.DecodeCard | Byki_Import.py:181-199 | `Card.__init__` equals the reference `DecodedCard`. The number is the word at `dataPointer + 4`, then comes the table walk from `dataPointer + 8`. |
| Cards.FillSucceeds | Byki_Import.py:183-199 | The walk succeeds exactly when the slot of every present field can be read. The slot of field j is `base + 4 * Rank(mask, j)`. |
| Cards.FillNumber | Byki_Import.py:181-199 | The field walk keeps the card number. |
| Cards.FillKeeps | Byki_Import.py:183-199 | A field whose bit is clear keeps its class default. |
| Cards.FillReads | Byki_Import.py:183-199 | A present field j holds the value read through slot number `Rank(mask, j)`, the count of set bits before it. |
| Cards.RankCounts | Byki_Import.py:182-199 | Slots are consumed in table order, at most one per entry. A present field's slot comes before the slot of every later field. |
| Cards.Entry | Byki_Import.py:167-179 | Every field has an entry in the table. |
| Cards.EntryOf | Byki_Import.py:167-179 | Each table entry names a different field, so `Entry` undoes the table. |
| Cards.FillKinded | Byki_Import.py:184-197 | For any mask, when every read gives a value of the right kind, the walk leaves every field of the right kind. |
| Cards.SlotReaderFits | Byki_Import.py:185-195 | A read through a slot of the buffer always gives a value of the field's kind. |
| Cards.DecodedCardKinded | Byki_Import.py:164-199 | For any mask, a decoded card holds text in all text fields and `None` or a blob in the media fields. |
| Cards.TitlesMask | Byki_Import.py:167-179 | The mask 4 + 16 sets exactly the entries of the native title and the foreign title, and clears the other nine. The two titles get slots 0 and 1. |
| Cards.OnlyTitlesPresent | Byki_Import.py:167-179 | Under the mask 4 + 16, every entry other than the two titles is clear. |
| Cards.TitlesOnlyCard | Byki_Import.py:167-199 | Under mask 20, the native title comes through the first slot and the foreign title through the second. Every other field keeps its class default: the native subtitle, foreign subtitle, both alternative answers, transliteration, tooltip and the three media fields. |
| Notes.Wrap | Byki_Import.py:204-207 | `wrap` is empty exactly when the content is empty. Otherwise it is the prefix, then the content, then the suffix. |
| Notes.Decimal | Byki_Import.py:209 | `str(number)` is at least one digit, has no leading zero, and is `0` only for 0. |
| Notes.DecimalValue | Byki_Import.py:209 | The decimal digits of the card number denote that number. |
| Notes.DecimalInjective | Byki_Import.py:209 | Different card numbers have different decimal forms. |
| Notes.MediaName | Byki_Import.py:213-224 | A media file name is the prefix, then the decimal card number, then the suffix. Its length is stated. |
| Notes.Note.constructor | Byki_Import.py:165 | A new note has no fields yet. |
| Notes.Note.SetFields | Byki_Import.py:203-234 | `setFields` appends exactly the five note fields to the note's fields. It writes exactly the media files of the card, in the order foreign audio, native audio, image. |
| Notes.NoteFieldsShape | Byki_Import.py:210-234 | There are five fields. An audio field holds its `[sound:…]` tag exactly when the card holds that blob. The tooltip field is empty exactly when there is no tooltip. |
| Notes.FrontStartsWithTitle | Byki_Import.py:229 | The front starts with the foreign title. It is exactly the title when there is no subtitle and no alternative answer. |
| Notes.BackStartsWithImage | Byki_Import.py:223-230 | The back starts with the image tag, which is present exactly when the card holds an image. Without an image, the back starts with the native title. |
| Notes.MediaFilesReferenced | Byki_Import.py:213-234 | The card writes one file per blob it holds. Every file written is referenced by a sound tag in the note or by the image tag at the head of the back. |
| Notes.MediaNamesDistinct | Byki_Import.py:209-224 | Two media files under one prefix have the same name only for the same card number and the same kind. |
| Notes.NumberedDistinct | Byki_Import.py:209-224 | In prefix + decimal number + a suffix that starts with a non-digit, the name determines both the number and the suffix. |
| Notes.TitlesOnlyNote | Byki_Import.py:204-234 | A card with only its two titles set becomes `[foreign title, native title, "", "", ""]`. |
| Notes.HolaHello | Byki_Import.py:228-234 | The card with foreign title "Hola" and native title "Hello" and nothing else becomes `["Hola", "Hello", "", "", ""]`. |
| Decks.AttributeForLabel | Byki_Import.py:276-289 | The `fields` dictionary is one-to-one: a label sets attribute a exactly when it is a's label. |
| Decks.LabelShape | Byki_Import.py:277-284 | Each of the eight labels fits the 24-byte field, is not empty, and neither starts nor ends with NUL, `x` or `0`. |
| Decks.LabelRecognized | Byki_Import.py:288-289 | Each attribute's label, stored NUL-padded in a label field, is read back unchanged. |
| Decks.ZeroPadded | Byki_Import.py:121-126 | A name with no strip character at either end, NUL-filled to 24 bytes, reads back unchanged. |
| Decks.GuidAndOrderedIgnored | Byki_Import.py:289-300 | "GUID" and "Ordered" are not keys of the dictionary, so their branches are never taken. |
| Decks.DetailAtKeeps | Byki_Import.py:288-305 | A node whose label is not a's leaves attribute a unchanged. |
| Decks.DetailAtSets | Byki_Import.py:288-305 | A node labelled with a's label sets a to the value behind the word at `+40`. CreationDate uses the date formatter, any other attribute the masked string. The node fails exactly when that word or its value cannot be read. |
| Decks.ReadDetail | Byki_Import.py:288-305 | One detail node as the loop body processes it equals the reference `DetailAt`. |
| Decks.DetailNext | Byki_Import.py:288-308 | A node whose whole detail step succeeded also has a readable next pointer at offset 0. |
| Decks.DetailHop | Byki_Import.py:287-308 | One pass of the detail loop moves the walk to the node's next pointer with the updated attributes. It stops the walk with the error that the node raises. |
| Decks.DetailsFuel | Byki_Import.py:287-308 | Once a detail walk has ended other than by running out of hops, more hops change nothing. |
| Decks.DetailsKeep | Byki_Import.py:287-308 | An attribute keeps its value through a detail walk that holds no node with its label. |
| Decks.DetailsLast | Byki_Import.py:287-308 | After a detail walk without error, an attribute whose label some node carries holds the value behind the word at `+40` of the last such node, and that value could be read. |
| Decks.WalkKeeps | Byki_Import.py:287-308 | Over a chain none of whose nodes changes an attribute, the walk leaves it as it was, even when it stops with an error. |
| Decks.WalkLast | Byki_Import.py:287-308 | In a walk without error, node k reaches its step with attributes that the step accepts. When node k sets an attribute and no later node changes it, the walk ends with that value. |
| Decks.ChainStep | Byki_Import.py:287-308 | A non-empty node chain starts at the head pointer and goes on with the chain from that node's next pointer. |
| Decks.DetailsWalkStep | Byki_Import.py:287-308 | A walk from a non-null node that ends without error processed that node, read its next pointer and continued from there. |
| Decks.ReaderSets | Byki_Import.py:288-305 | Whatever the attributes before it, a node carrying an attribute's label sets it to the value behind its word at `+40`, which must be readable. |
| Decks.ReaderKeeps | Byki_Import.py:288-305 | Nodes that do not carry an attribute's label never change that attribute. |
| Decks.CardHop | Byki_Import.py:313-317 | One pass of the card loop reads the five-word node, decodes its card from words 3 and 4, and moves to word 0. |
| Decks.CardsFollowChain | Byki_Import.py:313-317 | The card walk ends without error exactly when the node chain ends within the hop bound and every node's card decodes. |
| Decks.CardsAppended | Byki_Import.py:313-317 | A card walk without error appends one card per chain node, in chain order, after the cards it started with. The last node, whose next pointer is 0, is included. |
| Decks.CardsFuel | Byki_Import.py:313-317 | Once a card walk has ended other than by running out of hops, more hops change nothing. |
| Decks.CardsSelfLoop | Byki_Import.py:313-317 | A node that links to itself uses up every hop and appends one card per hop, and the walk reports a malformed list. |
| Decks.AnchorBounds | Byki_Import.py:262-266 | A caret lies 32 bytes past one of the probe addresses, so at 136, 140 or 144, in a file that loaded. The marker's five bytes lie inside that file. |
| Decks.HeaderReadable | Byki_Import.py:262-271 | Once the caret is found, the details pointer at 92 can be read. |
| Decks.AnchorIsFirstMarker | Byki_Import.py:262-266 | Probe j gives the caret `104 + 4j + 32` exactly when its five bytes spell "Cards" and no earlier probe's bytes do. |
| Decks.AnchorAbsent | Byki_Import.py:262-269 | There is no caret exactly when all three probes can be read and none spells "Cards". |
| Decks.FindCaret | Byki_Import.py:262-269 | The probe loop equals the reference `AnchorFrom`. |
| Decks.ParseOutcome | Byki_Import.py:255-319 | The parse returns `None` exactly when no caret is found. In that case the attributes are untouched and the deck is invalid. An invalid deck has no cards, and the parse returns `True` only for a valid deck. |
| Decks.ParseValid | Byki_Import.py:268-310 | The deck is valid exactly when the caret is found, the words at 92 and at caret `+16` can be read, and the detail walk ends without error. |
| Decks.ParseCards | Byki_Import.py:310-319 | A parse that returns `True` holds one card per node of the chain that starts at caret `+16`, in order. |
| Decks.ParseTrue | Byki_Import.py:310-319 | A parse that returns `True` found the caret, read the pointer at caret `+16`, finished the card walk without error and holds its cards. |
| Decks.Deck.Empty | Byki_Import.py:250-251 | A deck before its first parse has no attributes assigned, is invalid and has no cards. |
| Decks.Deck.Open | Byki_Import.py:249-253 | `Deck(filename)` is a new deck, parsed once, whose state and result are those of `ParseSpec`, starting with no attribute assigned. |
| Decks.Deck.Parse | Byki_Import.py:255-319 | `parse` leaves the attributes, `valid`, the cards and its result exactly as `ParseSpec` says, starting from the deck's current attributes. |
| Decks.Deck.ReadDetails | Byki_Import.py:287-308 | The detail loop leaves the attributes and the error exactly as the reference walk `DetailsFrom` does. `valid` and the cards are unchanged. |
| Decks.Deck.ReadCards | Byki_Import.py:313-317 | The card loop leaves the cards and the error exactly as the reference walk `CardsFrom` does. The attributes and `valid` are unchanged. |

## Left out

- **Anki integration.** The importer classes, the file dialog and the collection calls are host plumbing around the decoder.
- **File loading.** Opening and reading the file in `Parser.__init__` is not modelled. The buffer is a parameter, either `Loaded(bytes)` or `Unavailable` for a file that could not be opened.
- **`Blob.write` and the file writes of `setFields`.** There is no file system. `SetFields` returns the list of (file name, blob) pairs that it would write, in order.
- **`Blob.filename` and `os.path.join(tofolder, fn)`.** The folder takes no part in the file names or the tags.
- **The creation date.** `datetime.fromtimestamp(...).strftime('%Y %B %d')` depends on the locale and the time zone. It is the function parameter `dateFormat`, applied to the u32 value.
- **`getAllCards`, `fieldsCount`, `slugify` and the `randint` file prefix.** These are nondeterministic or library-bound. The prefix is a parameter of `SetFields`.
- **`setFields` returning `self`.** It only serves chaining.
- **`ForeignNote`.** The Anki base class is reduced to the note's field list.
- **Python exceptions.** `struct.error` becomes `Err(OutOfBounds)`. For an absent buffer, `read`, `string` and `plain_fixed_string` return `None` instead of raising, and the model reports `Err(SourceUnavailable)` for it, which is what `parse` ends with through the `TypeError` of `''.join(None)`. The exception types and messages are not modelled.
- **Offsets.** Reads take non-negative offsets. Every offset the decoder computes is a u32, possibly plus a constant, so it is never negative. A raw u32 reaches `blob` and `string` as a pointer and can be 0. Only `string` treats 0 specially (the empty text), and `DecodeString` takes any integer; `ExtractBlob` at 0 reads the length word at offset 0, as `blob` does.
- Buffer.Read: always returns a sequence of values. For a one-field layout the source returns the bare scalar, which the model gets through `U16` and `U32`.
- Decks.Deck.Parse: needs a hop bound `fuel` on each linked list. A list that does not end within `fuel` nodes gives `Err(MalformedList)`. For a cyclic list the source would loop for ever. An acyclic list longer than `fuel` is finished by the source, and the model needs more fuel for it; once a walk has ended, more fuel changes nothing (`DetailsFuel`, `CardsFuel`).
- Decks.Deck.ReadDetails: stops after `fuel` nodes with `MalformedList`, for the same reason.
- Decks.Deck.ReadCards: stops after `fuel` nodes with `MalformedList`, for the same reason.
- Cards.DecodeCard: the `valid` attribute of a card is always true, so it is not a field and the `if card.valid` test is not modelled.
- Cards.DecodeCard: on an absent buffer the source does not fail. `read` and `string` return `None`, so a card whose mask sets no media bit is built with `None` as its number and as every text field whose bit is set. The other fields keep their class defaults, and only a media bit makes `blob` raise. The model returns `Err(SourceUnavailable)` for every card of an absent buffer. `parse` never decodes a card in that case, because its first probe already raises.
- **Unicode storage.** Text is a sequence of 16-bit code units, as `unichr` produces on a narrow Python 2 build. There is no normalisation and no encoding.
- Cards.TitlesOnlyCard: the layout lemmas (`FillSucceeds`, `FillKeeps`, `FillReads`, `FillKinded`, `TitlesOnlyCard`) are stated for any slot reader. `DecodedCardKinded` applies them to the buffer's own reader, while the others are used through `Fill` with that reader.
