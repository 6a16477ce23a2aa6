/** A whole .b4u deck (`Deck.parse`): the probe for the "Cards" anchor, the
    linked list of deck details (name, languages, description, copyright,
    creation date, creator) and the linked list of card nodes. Both lists
    link their nodes through a u32 pointer at offset 0 and end at pointer 0. */
module Decks {
  import opened Buffer
  import opened Codec
  import opened Cards

  /** An ASCII literal as the bytes the file stores. */
  function Bytes(s: string): (r: seq<byte>)
    requires forall i :: 0 <= i < |s| ==> s[i] as int < 0x100
    ensures |r| == |s| && forall i :: 0 <= i < |s| ==> r[i] == s[i] as int
  {
    seq(|s|, i requires 0 <= i < |s| => s[i] as int)
  }

  // ---------------------------------------------------------------------------
  // Deck details

  /** The deck attributes a detail node can set. */
  datatype DeckAttr =
    | Title | NativeLanguage | ForeignLanguage | Description
    | Copyright | CopyrightUrl | CreationDate | AppCreatorName

  /** The label that names each attribute in the file. */
  function LabelOf(a: DeckAttr): seq<byte> {
    match a
    case Title => Bytes("Name")
    case NativeLanguage => Bytes("Side1Lang")
    case ForeignLanguage => Bytes("Side2Lang")
    case Description => Bytes("Description")
    case Copyright => Bytes("Copyright")
    case CopyrightUrl => Bytes("CopyrightURL")
    case CreationDate => Bytes("CreationDate")
    case AppCreatorName => Bytes("AppCreatorName")
  }

  /** The `fields` dictionary of `Deck.parse`: the attribute a label sets,
      if any. Labels outside the dictionary (among them "GUID" and
      "Ordered") set nothing. */
  function AttributeFor(name: seq<byte>): Option<DeckAttr> {
    if name == LabelOf(Title) then Some(Title)
    else if name == LabelOf(NativeLanguage) then Some(NativeLanguage)
    else if name == LabelOf(ForeignLanguage) then Some(ForeignLanguage)
    else if name == LabelOf(Description) then Some(Description)
    else if name == LabelOf(Copyright) then Some(Copyright)
    else if name == LabelOf(CopyrightUrl) then Some(CopyrightUrl)
    else if name == LabelOf(CreationDate) then Some(CreationDate)
    else if name == LabelOf(AppCreatorName) then Some(AppCreatorName)
    else None
  }

  /** The dictionary is one-to-one: every attribute's label finds that
      attribute, and only its label does. */
  lemma AttributeForLabel(name: seq<byte>, a: DeckAttr)
    ensures AttributeFor(name) == Some(a) <==> name == LabelOf(a)
  {
    assert LabelOf(NativeLanguage)[4] != LabelOf(ForeignLanguage)[4];
    assert LabelOf(NativeLanguage)[0] != LabelOf(Copyright)[0];
    assert LabelOf(ForeignLanguage)[0] != LabelOf(Copyright)[0];
    assert LabelOf(CopyrightUrl)[0] != LabelOf(CreationDate)[1];
    assert LabelOf(CopyrightUrl)[1] != LabelOf(CreationDate)[1];
  }

  /** Each label fits the label field and neither starts nor ends with a
      byte that the label read strips. */
  lemma LabelShape(a: DeckAttr)
    ensures |LabelOf(a)| <= LabelWidth && LabelOf(a) != []
    ensures LabelOf(a)[0] !in Padding && LabelOf(a)[|LabelOf(a)| - 1] !in Padding
  {
    match a
    case Title =>
    case NativeLanguage =>
    case ForeignLanguage =>
    case Description =>
    case Copyright =>
    case CopyrightUrl =>
    case CreationDate =>
    case AppCreatorName =>
  }

  /** Every attribute's label, stored NUL-padded in the 24-byte label field
      of a detail node, is read back unchanged (and so, by
      `AttributeForLabel`, sets that attribute). */
  lemma LabelRecognized(pre: seq<byte>, a: DeckAttr, post: seq<byte>)
    ensures |LabelOf(a)| <= LabelWidth
    ensures var pad := seq(LabelWidth - |LabelOf(a)|, _ => 0);
      PlainFixedString(Loaded(pre + LabelOf(a) + pad + post), |pre|) == Ok(LabelOf(a))
  {
    LabelShape(a);
    ZeroPadded(pre, LabelOf(a), post);
  }

  /** A name that neither starts nor ends with padding, zero-filled to the
      field width, reads back as itself. */
  lemma ZeroPadded(pre: seq<byte>, name: seq<byte>, post: seq<byte>)
    requires |name| <= LabelWidth && name != []
    requires name[0] !in Padding && name[|name| - 1] !in Padding
    ensures var pad := seq(LabelWidth - |name|, _ => 0);
      PlainFixedString(Loaded(pre + name + pad + post), |pre|) == Ok(name)
  {
    var pad: seq<byte> := seq(LabelWidth - |name|, _ => 0);
    assert forall k :: 0 <= k < |pad| ==> pad[k] in Padding;
    LabelRoundTrip(pre, [], name, pad, post);
    assert pre + [] + name + pad + post == pre + name + pad + post;
  }

  /** The branches for "GUID" and "Ordered" in the detail loop are never
      taken: neither label is in the dictionary. */
  lemma GuidAndOrderedIgnored()
    ensures AttributeFor(Bytes("GUID")) == None
    ensures AttributeFor(Bytes("Ordered")) == None
  {
    assert Bytes("GUID")[0] != LabelOf(Title)[0];
  }

  /** The deck's attributes as assigned so far; an attribute never assigned
      reads as the class default, the empty string. */
  type Details = map<DeckAttr, Text>

  function Attr(d: Details, a: DeckAttr): Text {
    if a in d then d[a] else []
  }

  /** The value of a detail: the creation date is a timestamp, shown by
      `dateFormat` (`datetime.fromtimestamp(...).strftime('%Y %B %d')`);
      every other value is a pointer to a masked string. */
  function DetailValue(src: Source, a: DeckAttr, v: nat, dateFormat: nat -> Text): Result<Text> {
    if a == CreationDate then Ok(dateFormat(v)) else DecodedString(src, v)
  }

  /** One detail node at `p`: its label at `p + 4` and, for a recognized
      label, the value word at `p + 40`. */
  function DetailAt(src: Source, p: nat, d: Details, dateFormat: nat -> Text): Result<Details> {
    var name :- PlainFixedString(src, p + 4);
    match AttributeFor(name)
    case None => Ok(d)
    case Some(a) =>
      var v :- U32(src, p + 40);
      var t :- DetailValue(src, a, v, dateFormat);
      Ok(d[a := t])
  }

  /** A node whose label is not `a`'s leaves attribute `a` as it was. */
  lemma DetailAtKeeps(src: Source, p: nat, d: Details, dateFormat: nat -> Text, a: DeckAttr)
    requires PlainFixedString(src, p + 4) != Ok(LabelOf(a))
    ensures DetailAt(src, p, d, dateFormat).Ok? ==> Attr(DetailAt(src, p, d, dateFormat).value, a) == Attr(d, a)
  {
    var name := PlainFixedString(src, p + 4);
    if name.Ok? {
      AttributeForLabel(name.value, a);
    }
  }

  /** A node labelled with `a`'s label sets `a` to the value behind the word
      at `p + 40`, and a node with a recognized label fails only when that
      word or its value cannot be read. */
  lemma DetailAtSets(src: Source, p: nat, d: Details, dateFormat: nat -> Text, a: DeckAttr)
    requires PlainFixedString(src, p + 4) == Ok(LabelOf(a))
    ensures var r := DetailAt(src, p, d, dateFormat);
      r.Ok? <==> U32(src, p + 40).Ok? && DetailValue(src, a, U32(src, p + 40).value, dateFormat).Ok?
    ensures var r := DetailAt(src, p, d, dateFormat);
      r.Ok? ==> r.value == d[a := DetailValue(src, a, U32(src, p + 40).value, dateFormat).value]
  {
    AttributeForLabel(LabelOf(a), a);
  }

  /** One pass of the detail loop's body up to the `setattr`. */
  method ReadDetail(src: Source, p: nat, d: Details, dateFormat: nat -> Text) returns (r: Result<Details>)
    ensures r == DetailAt(src, p, d, dateFormat)
  {
    var name :- PlainFixedString(src, p + 4);
    var a := AttributeFor(name);
    if a.None? {
      return Ok(d);
    }
    var v :- U32(src, p + 40);
    var t: Result<Text>;
    if a.value == CreationDate {
      t := Ok(dateFormat(v));
    } else {
      t := DecodeString(src, v);
    }
    var text :- t;
    return Ok(d[a.value := text]);
  }

  /** How far a list walk got: the state it built and, when it stopped
      early, why. */
  datatype Walked<T> = Walked(state: T, error: Option<DecodeError>)

  /** How the detail walk processes one node. */
  type DetailStep = (nat, Details) -> Result<Details>

  /** `DetailAt` on the buffer `src`, as the walk's node step. */
  function DetailReader(src: Source, dateFormat: nat -> Text): DetailStep {
    (p: nat, d: Details) => DetailAt(src, p, d, dateFormat)
  }

  /** Reference definition of the detail loop, from the node at `p`, with
      at most `fuel` more nodes. A read that fails stops the walk and keeps
      the attributes set so far. */
  function DetailsFrom(src: Source, step: DetailStep, p: nat, fuel: nat, d: Details): Walked<Details>
    decreases fuel
  {
    if p == 0 then Walked(d, None)
    else if fuel == 0 then Walked(d, Some(MalformedList))
    else
      match step(p, d)
      case Err(e) => Walked(d, Some(e))
      case Ok(d') =>
        match U32(src, p)
        case Err(e) => Walked(d', Some(e))
        case Ok(q) => DetailsFrom(src, step, q, fuel - 1, d')
  }

  /** One pass of the detail loop at node `p`: applies the node to the
      attributes and follows its next pointer, which the label read already
      covered. */
  method DetailHop(src: Source, p: nat, d: Details, dateFormat: nat -> Text, ghost fuel: nat) returns (r: Result<(Details, nat)>)
    requires p != 0 && fuel > 0
    ensures var step := DetailReader(src, dateFormat);
      DetailsFrom(src, step, p, fuel, d)
        == if r.Ok? then DetailsFrom(src, step, r.value.1, fuel - 1, r.value.0) else Walked(d, Some(r.error))
  {
    var next := ReadDetail(src, p, d, dateFormat);
    ghost var step := DetailReader(src, dateFormat);
    assert next == step(p, d);
    DetailsHop(src, step, p, fuel, d);
    if next.Err? {
      return Err(next.error);
    }
    DetailNext(src, p, d, dateFormat);
    return Ok((next.value, U32(src, p).value));
  }

  /** The detail walk ends at a null pointer, and fails when the fuel runs
      out first. */
  lemma DetailsStop(src: Source, step: DetailStep, p: nat, fuel: nat, d: Details)
    ensures p == 0 ==> DetailsFrom(src, step, p, fuel, d) == Walked(d, None)
    ensures p != 0 && fuel == 0 ==> DetailsFrom(src, step, p, fuel, d) == Walked(d, Some(MalformedList))
  {
  }

  /** One node of the detail walk. */
  lemma DetailsHop(src: Source, step: DetailStep, p: nat, fuel: nat, d: Details)
    requires p != 0 && fuel > 0
    ensures step(p, d).Err? ==> DetailsFrom(src, step, p, fuel, d) == Walked(d, Some(step(p, d).error))
    ensures step(p, d).Ok? && U32(src, p).Ok? ==>
      DetailsFrom(src, step, p, fuel, d) == DetailsFrom(src, step, U32(src, p).value, fuel - 1, step(p, d).value)
  {
  }

  /** A node whose detail step succeeded also has a readable next pointer. */
  lemma DetailNext(src: Source, p: nat, d: Details, dateFormat: nat -> Text)
    requires DetailAt(src, p, d, dateFormat).Ok?
    ensures U32(src, p).Ok?
  {
  }

  // ---------------------------------------------------------------------------
  // Node chains and the card list

  /** The node addresses of a list from `p`, following the pointer at
      offset 0 of each node, with at most `fuel` nodes. */
  function Chain(src: Source, p: nat, fuel: nat): Result<seq<nat>>
    decreases fuel
  {
    if p == 0 then Ok([])
    else if fuel == 0 then Err(MalformedList)
    else
      var q :- U32(src, p);
      var rest :- Chain(src, q, fuel - 1);
      Ok([p] + rest)
  }

  /** The card of the node at `node`: words 3 and 4 of the node are the
      card's data pointer and attribute mask. */
  function NodeCard(src: Source, node: nat): Result<Card> {
    var v :- U32s(src, node, 5);
    DecodedCard(src, v[3], v[4])
  }

  /** Reference definition of the card loop, from the node at `next`, with
      at most `fuel` more nodes. Every node, the last one included, yields a
      card; a failing read stops the walk and keeps the cards so far. */
  function CardsFrom(src: Source, next: nat, fuel: nat, acc: seq<Card>): Walked<seq<Card>>
    decreases fuel
  {
    if next == 0 then Walked(acc, None)
    else if fuel == 0 then Walked(acc, Some(MalformedList))
    else
      match U32s(src, next, 5)
      case Err(e) => Walked(acc, Some(e))
      case Ok(v) =>
        match DecodedCard(src, v[3], v[4])
        case Err(e) => Walked(acc, Some(e))
        case Ok(c) => CardsFrom(src, v[0], fuel - 1, acc + [c])
  }

  /** One pass of the card loop at node `next`: reads the node's five words,
      decodes its card and follows its first word. */
  method CardHop(src: Source, next: nat, ghost fuel: nat, ghost acc: seq<Card>) returns (r: Result<(Card, nat)>)
    requires next != 0 && fuel > 0
    ensures CardsFrom(src, next, fuel, acc)
        == if r.Ok? then CardsFrom(src, r.value.1, fuel - 1, acc + [r.value.0]) else Walked(acc, Some(r.error))
  {
    var node := U32s(src, next, 5);
    if node.Err? {
      return Err(node.error);
    }
    var v := node.value;
    var card := DecodeCard(src, v[3], v[4]);
    if card.Err? {
      return Err(card.error);
    }
    return Ok((card.value, v[0]));
  }

  /** The first word of a node is the pointer the chain follows. */
  lemma NextOfNode(src: Source, node: nat)
    ensures U32s(src, node, 5).Ok? ==> U32(src, node) == Ok(U32s(src, node, 5).value[0])
  {
  }

  /** The card walk ends without error exactly when the chain from `next`
      ends within the fuel and every node's card decodes. */
  lemma {:induction false} CardsFollowChain(src: Source, next: nat, fuel: nat, acc: seq<Card>)
    ensures var nodes := Chain(src, next, fuel);
      (CardsFrom(src, next, fuel, acc).error.None? <==>
       nodes.Ok? && forall k :: 0 <= k < |nodes.value| ==> NodeCard(src, nodes.value[k]).Ok?)
    decreases fuel
  {
    if next != 0 && fuel > 0 {
      CardsStep(src, next, fuel, acc);
      var chain := Chain(src, next, fuel);
      if chain.Ok? {
        assert chain.value[0] == next;
      }
      var c := NodeCard(src, next);
      if c.Ok? {
        var q := U32(src, next).value;
        CardsFollowChain(src, q, fuel - 1, acc + [c.value]);
        var rest := Chain(src, q, fuel - 1);
        if rest.Ok? {
          var nodes := [next] + rest.value;
          assert Chain(src, next, fuel) == Ok(nodes);
          assert forall k :: 0 <= k < |rest.value| ==> nodes[k + 1] == rest.value[k];
        }
      }
    }
  }

  /** A card walk that ends without error has appended one card per node of
      the chain, in order, to the cards it started with. */
  lemma {:induction false} CardsAppended(src: Source, next: nat, fuel: nat, acc: seq<Card>)
    requires CardsFrom(src, next, fuel, acc).error.None?
    ensures var w := CardsFrom(src, next, fuel, acc); var nodes := Chain(src, next, fuel);
      && nodes.Ok? && |w.state| == |acc| + |nodes.value| && w.state[..|acc|] == acc
      && forall k :: 0 <= k < |nodes.value| ==> NodeCard(src, nodes.value[k]) == Ok(w.state[|acc| + k])
    decreases fuel
  {
    if next != 0 {
      CardsStep(src, next, fuel, acc);
      var c := NodeCard(src, next).value;
      var q := U32(src, next).value;
      var acc' := acc + [c];
      CardsAppended(src, q, fuel - 1, acc');
      var w := CardsFrom(src, q, fuel - 1, acc');
      var rest := Chain(src, q, fuel - 1).value;
      var nodes := [next] + rest;
      assert Chain(src, next, fuel) == Ok(nodes);
      assert w.state[..|acc|] == w.state[..|acc'|][..|acc|];
      assert w.state[|acc|] == acc'[|acc|];
      forall k | 0 <= k < |nodes|
        ensures NodeCard(src, nodes[k]) == Ok(w.state[|acc| + k])
      {
        if k > 0 {
          assert nodes[k] == rest[k - 1];
        }
      }
    }
  }

  /** One node of the card walk: its card is appended unless it fails to
      decode, and the walk goes on at the node's first word. */
  lemma CardsStep(src: Source, next: nat, fuel: nat, acc: seq<Card>)
    requires next != 0 && fuel > 0
    ensures NodeCard(src, next).Err? ==> CardsFrom(src, next, fuel, acc) == Walked(acc, Some(NodeCard(src, next).error))
    ensures NodeCard(src, next).Ok? ==> U32(src, next).Ok?
    ensures NodeCard(src, next).Ok? ==>
      CardsFrom(src, next, fuel, acc) == CardsFrom(src, U32(src, next).value, fuel - 1, acc + [NodeCard(src, next).value])
  {
    NextOfNode(src, next);
  }

  /** More fuel changes nothing once a card walk has ended for a reason
      other than running out of fuel. */
  lemma {:induction false} CardsFuel(src: Source, next: nat, fuel: nat, extra: nat, acc: seq<Card>)
    requires CardsFrom(src, next, fuel, acc).error != Some(MalformedList)
    ensures CardsFrom(src, next, fuel + extra, acc) == CardsFrom(src, next, fuel, acc)
    decreases fuel
  {
    if next != 0 && fuel > 0 {
      var v := U32s(src, next, 5);
      if v.Ok? {
        var c := DecodedCard(src, v.value[3], v.value[4]);
        if c.Ok? {
          CardsFuel(src, v.value[0], fuel - 1, extra, acc + [c.value]);
        }
      }
    }
  }

  /** A card node that links to itself would keep the loop of `Deck.parse`
      appending the same card for ever; the walk uses up all its fuel on
      it and reports a malformed list. */
  lemma {:induction false} CardsSelfLoop(src: Source, node: nat, fuel: nat, acc: seq<Card>)
    requires node != 0
    requires U32s(src, node, 5).Ok? && U32s(src, node, 5).value[0] == node
    requires NodeCard(src, node).Ok?
    ensures CardsFrom(src, node, fuel, acc).error == Some(MalformedList)
    ensures |CardsFrom(src, node, fuel, acc).state| == |acc| + fuel
    decreases fuel
  {
    if fuel > 0 {
      var v := U32s(src, node, 5).value;
      var c := NodeCard(src, node).value;
      assert DecodedCard(src, v[3], v[4]) == Ok(c);
      CardsSelfLoop(src, node, fuel - 1, acc + [c]);
    }
  }

  /** More fuel changes nothing once a detail walk has ended for a reason
      other than running out of fuel. */
  lemma {:induction false} DetailsFuel(src: Source, step: DetailStep, p: nat, fuel: nat, extra: nat, d: Details)
    requires DetailsFrom(src, step, p, fuel, d).error != Some(MalformedList)
    ensures DetailsFrom(src, step, p, fuel + extra, d) == DetailsFrom(src, step, p, fuel, d)
    decreases fuel
  {
    if p != 0 && fuel > 0 {
      var d' := step(p, d);
      if d'.Ok? {
        var q := U32(src, p);
        if q.Ok? {
          DetailsFuel(src, step, q.value, fuel - 1, extra, d'.value);
        }
      }
    }
  }

  /** Attribute `a` keeps its value through a detail walk over a chain none
      of whose labels is `a`'s. */
  lemma {:induction false} DetailsKeep(src: Source, dateFormat: nat -> Text, p: nat, fuel: nat, d: Details, a: DeckAttr)
    requires Chain(src, p, fuel).Ok?
    requires forall n :: n in Chain(src, p, fuel).value ==> PlainFixedString(src, n + 4) != Ok(LabelOf(a))
    ensures Attr(DetailsFrom(src, DetailReader(src, dateFormat), p, fuel, d).state, a) == Attr(d, a)
    decreases fuel
  {
    if p != 0 && fuel > 0 {
      var step := DetailReader(src, dateFormat);
      var rest := Chain(src, U32(src, p).value, fuel - 1);
      assert p in Chain(src, p, fuel).value;
      DetailAtKeeps(src, p, d, dateFormat, a);
      var d' := step(p, d);
      if d'.Ok? {
        assert forall n :: n in rest.value ==> n in Chain(src, p, fuel).value;
        DetailsKeep(src, dateFormat, U32(src, p).value, fuel - 1, d'.value, a);
      }
    }
  }

  /** A detail walk from a non-null node that ends without error has read
      the node and its next pointer and goes on from there. */
  lemma DetailsWalkStep(src: Source, step: DetailStep, p: nat, fuel: nat, d: Details)
    requires p != 0
    requires DetailsFrom(src, step, p, fuel, d).error.None?
    ensures fuel > 0 && step(p, d).Ok? && U32(src, p).Ok?
    ensures DetailsFrom(src, step, p, fuel, d) == DetailsFrom(src, step, U32(src, p).value, fuel - 1, step(p, d).value)
  {
  }

  /** A non-empty chain starts at its first node and goes on with the chain
      from that node's next pointer. */
  lemma ChainStep(src: Source, p: nat, fuel: nat, nodes: seq<nat>)
    requires Chain(src, p, fuel) == Ok(nodes) && |nodes| > 0
    ensures p != 0 && fuel > 0 && nodes[0] == p && U32(src, p).Ok?
    ensures Chain(src, U32(src, p).value, fuel - 1) == Ok(nodes[1..])
  {
  }

  /** Any detail walk over a chain none of whose nodes changes attribute `a`
      leaves `a` as it was, whether or not the walk ends in an error. */
  lemma {:induction false} WalkKeeps(src: Source, step: DetailStep, p: nat, fuel: nat, d: Details, nodes: seq<nat>, a: DeckAttr)
    requires Chain(src, p, fuel) == Ok(nodes)
    requires forall m, d0 :: 0 <= m < |nodes| && step(nodes[m], d0).Ok? ==> Attr(step(nodes[m], d0).value, a) == Attr(d0, a)
    ensures Attr(DetailsFrom(src, step, p, fuel, d).state, a) == Attr(d, a)
    decreases fuel
  {
    if |nodes| == 0 {
      assert p == 0;
      DetailsStop(src, step, p, fuel, d);
    } else {
      ChainStep(src, p, fuel, nodes);
      DetailsHop(src, step, p, fuel, d);
      if step(p, d).Ok? {
        var rest := nodes[1..];
        assert forall m :: 0 <= m < |rest| ==> rest[m] == nodes[m + 1];
        WalkKeeps(src, step, U32(src, p).value, fuel - 1, step(p, d).value, rest, a);
      }
    }
  }

  /** Any detail walk without error whose node `k` sets attribute `a` to
      `val`, and whose later nodes leave `a` alone, ends with `a == val`.
      The walk reaches node `k` with the attributes `dk`. */
  lemma {:induction false} WalkLast(src: Source, step: DetailStep, p: nat, fuel: nat, d: Details, nodes: seq<nat>, a: DeckAttr, k: nat, val: Text)
    returns (dk: Details)
    requires Chain(src, p, fuel) == Ok(nodes) && k < |nodes|
    requires DetailsFrom(src, step, p, fuel, d).error.None?
    requires forall d0 :: step(nodes[k], d0).Ok? ==> Attr(step(nodes[k], d0).value, a) == val
    requires forall m, d0 :: k < m < |nodes| && step(nodes[m], d0).Ok? ==> Attr(step(nodes[m], d0).value, a) == Attr(d0, a)
    ensures step(nodes[k], dk).Ok?
    ensures Attr(DetailsFrom(src, step, p, fuel, d).state, a) == val
    decreases k
  {
    ChainStep(src, p, fuel, nodes);
    DetailsWalkStep(src, step, p, fuel, d);
    var rest := nodes[1..];
    assert forall m :: 0 <= m < |rest| ==> rest[m] == nodes[m + 1];
    if k == 0 {
      dk := d;
      WalkKeeps(src, step, U32(src, p).value, fuel - 1, step(p, d).value, rest, a);
    } else {
      dk := WalkLast(src, step, U32(src, p).value, fuel - 1, step(p, d).value, rest, a, k - 1, val);
    }
  }

  /** The value a node labelled with `a`'s label gives `a`, or the empty text
      when that value cannot be read. */
  function LabelledValue(src: Source, n: nat, a: DeckAttr, dateFormat: nat -> Text): (t: Text)
    ensures U32(src, n + 40).Ok? && DetailValue(src, a, U32(src, n + 40).value, dateFormat).Ok? ==>
      t == DetailValue(src, a, U32(src, n + 40).value, dateFormat).value
  {
    var w := U32(src, n + 40);
    if w.Ok? && DetailValue(src, a, w.value, dateFormat).Ok? then DetailValue(src, a, w.value, dateFormat).value else []
  }

  /** Whatever the attributes before it, a node labelled with `a`'s label
      leaves `a` equal to the value behind its word at `+40`. */
  lemma ReaderSets(src: Source, dateFormat: nat -> Text, n: nat, a: DeckAttr)
    requires PlainFixedString(src, n + 4) == Ok(LabelOf(a))
    ensures forall d0 :: DetailReader(src, dateFormat)(n, d0).Ok? ==>
      && U32(src, n + 40).Ok? && DetailValue(src, a, U32(src, n + 40).value, dateFormat).Ok?
      && Attr(DetailReader(src, dateFormat)(n, d0).value, a) == LabelledValue(src, n, a, dateFormat)
  {
    forall d0 | DetailReader(src, dateFormat)(n, d0).Ok?
      ensures U32(src, n + 40).Ok? && DetailValue(src, a, U32(src, n + 40).value, dateFormat).Ok?
      ensures Attr(DetailReader(src, dateFormat)(n, d0).value, a) == LabelledValue(src, n, a, dateFormat)
    {
      DetailAtSets(src, n, d0, dateFormat, a);
    }
  }

  /** Nodes after position `k` of a chain whose labels are not `a`'s leave
      `a` alone. */
  lemma ReaderKeeps(src: Source, dateFormat: nat -> Text, nodes: seq<nat>, k: nat, a: DeckAttr)
    requires forall m :: k < m < |nodes| ==> PlainFixedString(src, nodes[m] + 4) != Ok(LabelOf(a))
    ensures forall m, d0 :: k < m < |nodes| && DetailReader(src, dateFormat)(nodes[m], d0).Ok? ==>
      Attr(DetailReader(src, dateFormat)(nodes[m], d0).value, a) == Attr(d0, a)
  {
    forall m, d0 | k < m < |nodes| && DetailReader(src, dateFormat)(nodes[m], d0).Ok?
      ensures Attr(DetailReader(src, dateFormat)(nodes[m], d0).value, a) == Attr(d0, a)
    {
      DetailAtKeeps(src, nodes[m], d0, dateFormat, a);
    }
  }

  /** The value attribute `a` ends with after a detail walk without error:
      the value behind the word at `+40` of the last node of the chain that
      carries `a`'s label. */
  lemma DetailsLast(src: Source, dateFormat: nat -> Text, p: nat, fuel: nat, d: Details, a: DeckAttr, nodes: seq<nat>, k: nat)
    requires Chain(src, p, fuel) == Ok(nodes) && k < |nodes|
    requires DetailsFrom(src, DetailReader(src, dateFormat), p, fuel, d).error.None?
    requires PlainFixedString(src, nodes[k] + 4) == Ok(LabelOf(a))
    requires forall m :: k < m < |nodes| ==> PlainFixedString(src, nodes[m] + 4) != Ok(LabelOf(a))
    ensures U32(src, nodes[k] + 40).Ok? && DetailValue(src, a, U32(src, nodes[k] + 40).value, dateFormat).Ok?
    ensures Attr(DetailsFrom(src, DetailReader(src, dateFormat), p, fuel, d).state, a)
         == DetailValue(src, a, U32(src, nodes[k] + 40).value, dateFormat).value
  {
    ReaderSets(src, dateFormat, nodes[k], a);
    ReaderKeeps(src, dateFormat, nodes, k, a);
    var dk := WalkLast(src, DetailReader(src, dateFormat), p, fuel, d, nodes, a, k, LabelledValue(src, nodes[k], a, dateFormat));
    assert DetailReader(src, dateFormat)(nodes[k], dk).Ok?;
  }

  // ---------------------------------------------------------------------------
  // The anchor

  const CardsMarker: seq<byte> := Bytes("Cards")

  /** The probe addresses 104, 108, 112. */
  function ProbeAddress(i: nat): nat {
    104 + 4 * i
  }

  /** Reference definition of the anchor probe from probe `i` on: the
      caret is 32 bytes past the first probe address holding "Cards". */
  function AnchorFrom(src: Source, i: nat): Result<Option<nat>>
    decreases 3 - i
  {
    if i >= 3 then Ok(None)
    else
      var s :- Chars(src, ProbeAddress(i), 5);
      if s == CardsMarker then Ok(Some(ProbeAddress(i) + 32)) else AnchorFrom(src, i + 1)
  }

  /** The bytes at probe `j` spell "Cards". */
  predicate MarkerAt(bytes: seq<byte>, j: nat) {
    ProbeAddress(j) + 5 <= |bytes| && bytes[ProbeAddress(j) .. ProbeAddress(j) + 5] == CardsMarker
  }

  /** A caret found from probe `i` on lies 32 bytes past one of the probe
      addresses `i` to 2, inside a loaded file that holds the marker there. */
  lemma {:induction false} AnchorBounds(src: Source, i: nat)
    ensures var r := AnchorFrom(src, i);
      r.Ok? && r.value.Some? ==>
        && src.Loaded? && i < 3
        && 136 + 4 * i <= r.value.value <= 144 && (r.value.value - 136) % 4 == 0
        && r.value.value - 27 <= |src.bytes|
    decreases 3 - i
  {
    if i < 3 {
      var s := Chars(src, ProbeAddress(i), 5);
      if s.Ok? && s.value != CardsMarker {
        AnchorBounds(src, i + 1);
      }
    }
  }

  /** Once the caret is found, the details pointer at 92 can be read. */
  lemma HeaderReadable(src: Source)
    ensures AnchorFrom(src, 0).Ok? && AnchorFrom(src, 0).value.Some? ==> U32(src, 92).Ok?
  {
    AnchorBounds(src, 0);
  }

  /** Probe `i` of the anchor search on a loaded file. */
  lemma AnchorStep(src: Source, i: nat)
    requires src.Loaded? && i < 3
    ensures AnchorFrom(src, i)
      == if ProbeAddress(i) + 5 > |src.bytes| then Err(OutOfBounds)
         else if MarkerAt(src.bytes, i) then Ok(Some(ProbeAddress(i) + 32))
         else AnchorFrom(src, i + 1)
  {
  }

  /** The caret comes from the first probe holding the marker: probe `j`
      gives the caret exactly when it holds "Cards" and no earlier probe
      does. */
  lemma AnchorIsFirstMarker(src: Source, j: nat)
    requires j < 3
    ensures AnchorFrom(src, 0) == Ok(Some(ProbeAddress(j) + 32))
        <==> src.Loaded? && MarkerAt(src.bytes, j) && forall k :: 0 <= k < j ==> !MarkerAt(src.bytes, k)
  {
    AnchorBounds(src, 0);
    if src.Loaded? {
      AnchorStep(src, 0);
      AnchorStep(src, 1);
      AnchorStep(src, 2);
      assert AnchorFrom(src, 3) == Ok(None);
    }
  }

  /** No caret (the source's early `return`) exactly when all three probes
      can be read and none holds "Cards". */
  lemma AnchorAbsent(src: Source)
    ensures AnchorFrom(src, 0) == Ok(None)
        <==> src.Loaded? && ProbeAddress(2) + 5 <= |src.bytes| && forall k :: 0 <= k < 3 ==> !MarkerAt(src.bytes, k)
  {
    if src.Loaded? {
      AnchorStep(src, 0);
      AnchorStep(src, 1);
      AnchorStep(src, 2);
      assert AnchorFrom(src, 3) == Ok(None);
    }
  }

  /** The anchor probe: tries the three addresses in order. */
  method FindCaret(src: Source) returns (r: Result<Option<nat>>)
    ensures r == AnchorFrom(src, 0)
  {
    for i := 0 to 3
      invariant AnchorFrom(src, i) == AnchorFrom(src, 0)
    {
      var addr := 104 + i * 4;
      var s :- Chars(src, addr, 5);
      if s == CardsMarker {
        return Ok(Some(addr + 32));
      }
    }
    return Ok(None);
  }

  // ---------------------------------------------------------------------------
  // The whole parse

  /** Everything `Deck.parse` leaves behind. */
  datatype Parsed = Parsed(details: Details, valid: bool, cards: seq<Card>, result: Result<bool>)

  /** Reference definition of `Deck.parse` on a deck whose attributes start
      as `d0`. `result` is `Ok(false)` where the source returns `None` (no
      anchor), `Ok(true)` where it returns `self.valid`, and an error where
      a read raises. */
  function ParseSpec(src: Source, dateFormat: nat -> Text, fuel: nat, d0: Details): Parsed {
    match AnchorFrom(src, 0)
    case Err(e) => Parsed(d0, false, [], Err(e))
    case Ok(None) => Parsed(d0, false, [], Ok(false))
    case Ok(Some(caret)) =>
      match U32(src, 92)
      case Err(e) => Parsed(d0, false, [], Err(e))
      case Ok(detailsPointer) =>
        // the card count at caret + 4 is read but not used
        match U32(src, caret + 4)
        case Err(e) => Parsed(d0, false, [], Err(e))
        case Ok(_) =>
          match U32(src, caret + 16)
          case Err(e) => Parsed(d0, false, [], Err(e))
          case Ok(next) =>
            var w := DetailsFrom(src, DetailReader(src, dateFormat), detailsPointer, fuel, d0);
            if w.error.Some? then Parsed(w.state, false, [], Err(w.error.value))
            else
              var cw := CardsFrom(src, next, fuel, []);
              Parsed(w.state, true, cw.state, if cw.error.Some? then Err(cw.error.value) else Ok(true))
  }

  /** What a parse leaves behind: no caret means the source's `None` with
      the attributes untouched; cards only once the detail walk succeeded;
      `True` only for a valid deck. */
  lemma ParseOutcome(src: Source, dateFormat: nat -> Text, fuel: nat, d0: Details)
    ensures var p := ParseSpec(src, dateFormat, fuel, d0);
      && (p.result == Ok(false) <==> AnchorFrom(src, 0) == Ok(None))
      && (p.result == Ok(false) ==> p.details == d0 && !p.valid)
      && (!p.valid ==> p.cards == [])
      && (p.result == Ok(true) ==> p.valid)
  {
  }

  /** The deck is valid exactly when the caret is found, the card list's
      head pointer can be read and the detail walk from the pointer at 92
      ends without error. */
  lemma ParseValid(src: Source, dateFormat: nat -> Text, fuel: nat, d0: Details)
    ensures var p := ParseSpec(src, dateFormat, fuel, d0); var a := AnchorFrom(src, 0);
      p.valid <==>
        && a.Ok? && a.value.Some? && U32(src, 92).Ok? && U32(src, a.value.value + 16).Ok?
        && DetailsFrom(src, DetailReader(src, dateFormat), U32(src, 92).value, fuel, d0).error.None?
  {
    HeaderReadable(src);
  }

  /** A parse that returns `True` holds one card per node of the card chain
      that starts at the pointer 16 bytes past the caret, in chain order. */
  lemma ParseCards(src: Source, dateFormat: nat -> Text, fuel: nat, d0: Details)
    ensures var p := ParseSpec(src, dateFormat, fuel, d0); var a := AnchorFrom(src, 0);
      p.result == Ok(true) ==>
        && a.Ok? && a.value.Some? && U32(src, a.value.value + 16).Ok?
        && var nodes := Chain(src, U32(src, a.value.value + 16).value, fuel);
           && nodes.Ok? && |p.cards| == |nodes.value|
           && forall k :: 0 <= k < |nodes.value| ==> NodeCard(src, nodes.value[k]) == Ok(p.cards[k])
  {
    if ParseSpec(src, dateFormat, fuel, d0).result == Ok(true) {
      ParseTrue(src, dateFormat, fuel, d0);
      var next := U32(src, AnchorFrom(src, 0).value.value + 16).value;
      CardsAppended(src, next, fuel, []);
    }
  }

  /** A parse that returns `True` found the caret, read the card list's head
      pointer and finished the card walk, whose cards it holds. */
  lemma ParseTrue(src: Source, dateFormat: nat -> Text, fuel: nat, d0: Details)
    requires ParseSpec(src, dateFormat, fuel, d0).result == Ok(true)
    ensures var a := AnchorFrom(src, 0); a.Ok? && a.value.Some? && U32(src, a.value.value + 16).Ok?
    ensures var w := CardsFrom(src, U32(src, AnchorFrom(src, 0).value.value + 16).value, fuel, []);
      w.error.None? && ParseSpec(src, dateFormat, fuel, d0).cards == w.state
  {
  }

  /** A deck: its attributes, whether the last parse got past the details,
      and its cards. */
  class Deck {
    var details: Details
    var valid: bool
    var cards: seq<Card>

    /** A deck before its first parse. */
    constructor Empty()
      ensures details == map[] && !valid && cards == []
    {
      details := map[];
      valid := false;
      cards := [];
    }

    /** `Deck(filename)`: a new deck, parsed once. */
    static method Open(src: Source, dateFormat: nat -> Text, fuel: nat) returns (deck: Deck, r: Result<bool>)
      ensures fresh(deck)
      ensures var p := ParseSpec(src, dateFormat, fuel, map[]);
        deck.details == p.details && deck.valid == p.valid && deck.cards == p.cards && r == p.result
    {
      deck := new Deck.Empty();
      r := deck.Parse(src, dateFormat, fuel);
    }

    /** `Deck.parse`, with at most `fuel` nodes per list. */
    method Parse(src: Source, dateFormat: nat -> Text, fuel: nat) returns (r: Result<bool>)
      modifies this
      ensures var p := ParseSpec(src, dateFormat, fuel, old(details));
        details == p.details && valid == p.valid && cards == p.cards && r == p.result
    {
      valid := false;
      cards := [];
      var anchor := FindCaret(src);
      if anchor.Err? {
        return Err(anchor.error);
      }
      if anchor.value.None? {
        return Ok(false);
      }
      var caret := anchor.value.value;
      // the probe already read past offset 96, so this read cannot fail
      HeaderReadable(src);
      var detailsPointer := U32(src, 92).value;
      var cardCount :- U32(src, caret + 4);
      var next :- U32(src, caret + 16);
      var error := ReadDetails(src, detailsPointer, dateFormat, fuel);
      if error.Some? {
        return Err(error.value);
      }
      valid := true;
      error := ReadCards(src, next, fuel);
      if error.Some? {
        return Err(error.value);
      }
      return Ok(true);
    }

    /** The detail loop of `Deck.parse`: sets each recognized attribute. */
    method ReadDetails(src: Source, start: nat, dateFormat: nat -> Text, fuel: nat) returns (error: Option<DecodeError>)
      modifies this
      ensures var w := DetailsFrom(src, DetailReader(src, dateFormat), start, fuel, old(details));
        details == w.state && error == w.error
      ensures valid == old(valid) && cards == old(cards)
    {
      var p := start;
      var left := fuel;
      ghost var step := DetailReader(src, dateFormat);
      ghost var target := DetailsFrom(src, step, p, left, details);
      while p != 0
        invariant DetailsFrom(src, step, p, left, details) == target
        invariant valid == old(valid) && cards == old(cards)
        decreases left
      {
        if left == 0 {
          DetailsStop(src, step, p, left, details);
          return Some(MalformedList);
        }
        var hop := DetailHop(src, p, details, dateFormat, left);
        if hop.Err? {
          return Some(hop.error);
        }
        details, p := hop.value.0, hop.value.1;
        left := left - 1;
      }
      DetailsStop(src, step, p, left, details);
      return None;
    }

    /** The card loop of `Deck.parse`: decodes and appends the card of every
      node. */
    method ReadCards(src: Source, start: nat, fuel: nat) returns (error: Option<DecodeError>)
      modifies this
      ensures var w := CardsFrom(src, start, fuel, old(cards));
        cards == w.state && error == w.error
      ensures details == old(details) && valid == old(valid)
    {
      var next := start;
      var left := fuel;
      ghost var target := CardsFrom(src, next, left, cards);
      while next != 0
        invariant CardsFrom(src, next, left, cards) == target
        invariant details == old(details) && valid == old(valid)
        decreases left
      {
        if left == 0 {
          return Some(MalformedList);
        }
        var hop := CardHop(src, next, left, cards);
        if hop.Err? {
          return Some(hop.error);
        }
        cards := cards + [hop.value.0];
        next := hop.value.1;
        left := left - 1;
      }
      return None;
    }
  }
}
