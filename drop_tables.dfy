/** The table readers both revisions share: `parse_deck`,
    `parse_drop_chances`, and the loop of `precompute_card_droppers` that
    gathers, for every card, the opponents whose drop tables list it. */
module DropTables {
  import opened Bytes
  import opened Text
  import opened GameData
  import opened TableSpec

  /** `parse_deck`: the cards with a non-zero 2-byte slot, stopping at the
      first slot the data does not hold. */
  method ParseDeck(data: seq<byte>) returns (chances: map<nat, nat>)
    ensures chances == Deck(data)
  {
    chances := map[];
    var cardId := 1;
    while cardId <= TotalCards
      invariant 1 <= cardId <= TotalCards + 1
      invariant cardId > 1 ==> SlotFits(data, cardId - 1)
      invariant forall k: nat :: k in chances <==> 1 <= k < cardId && SlotValue(data, k) > 0
      invariant forall k: nat :: k in chances ==> chances[k] == SlotValue(data, k)
    {
      var idx := (cardId - 1) * 2;
      if idx + 2 > |data| {
        break;
      }
      var chance := LE16At(data, idx);
      assert chance == SlotValue(data, cardId);
      if chance > 0 {
        chances := chances[cardId := chance];
      }
      cardId := cardId + 1;
    }
    DeckUpTo(data, chances, cardId);
  }

  /** `parse_drop_chances`: like ParseDeck, but each value is capped at 2048
      and kept as its decimal text. */
  method ParseDropChances(data: seq<byte>) returns (chances: map<nat, string>)
    ensures chances == DropChances(data)
  {
    chances := map[];
    var cardId := 1;
    while cardId <= TotalCards
      invariant 1 <= cardId <= TotalCards + 1
      invariant cardId > 1 ==> SlotFits(data, cardId - 1)
      invariant forall k: nat :: k in chances <==> 1 <= k < cardId && Chance(data, k) > 0
      invariant forall k: nat :: k in chances ==> k >= 1 && chances[k] == NatToString(Chance(data, k))
    {
      var idx := (cardId - 1) * 2;
      if idx + 2 > |data| {
        break;
      }
      var chanceRaw := LE16At(data, idx);
      assert chanceRaw == SlotValue(data, cardId);
      var chance := Min(chanceRaw, MaxChance);
      assert chance == Chance(data, cardId);
      if chance > 0 {
        chances := chances[cardId := NatToString(chance)];
      }
      cardId := cardId + 1;
    }
    DropChancesUpTo(data, chances, cardId);
  }

  /** One tier's appends for one opponent: every card with a chance gets
      `(name, chance)` at the end of its list for `tier`. The cards are taken
      in any order; each card's list receives at most one entry. */
  method AddDroppers(index0: map<nat, Droppers>, tier: Tier, name: string, chances: map<nat, string>)
    returns (index: map<nat, Droppers>)
    requires forall c: nat :: c in index0 <==> 1 <= c <= TotalCards
    requires forall c :: c in chances ==> 1 <= c <= TotalCards
    ensures forall c: nat :: c in index <==> 1 <= c <= TotalCards
    ensures forall c :: c in index ==> index[c] == Append(index0[c], tier, EntryFor(chances, name, c))
  {
    index := index0;
    var pending := chances.Keys;
    while pending != {}
      invariant pending <= chances.Keys
      invariant forall c: nat :: c in index <==> 1 <= c <= TotalCards
      invariant forall c :: c in index ==>
        index[c] == if c in chances && c !in pending then Append(index0[c], tier, [(name, chances[c])]) else index0[c]
      decreases pending
    {
      var c :| c in pending;
      index := index[c := Append(index[c], tier, [(name, chances[c])])];
      pending := pending - {c};
    }
    forall c | c in index && c !in chances
      ensures index[c] == Append(index0[c], tier, [])
    {
      assert TierList(index0[c], tier) + [] == TierList(index0[c], tier);
      AppendNothing(index0[c], tier);
    }
  }

  lemma AppendNothing(d: Droppers, tier: Tier)
    ensures Append(d, tier, []) == d
  {
    match tier
    case SaPow => assert d.saPow + [] == d.saPow;
    case Bcd => assert d.bcd + [] == d.bcd;
    case SaTec => assert d.saTec + [] == d.saTec;
  }

  lemma AppendAll(d: Droppers, e1: seq<(string, string)>, e2: seq<(string, string)>, e3: seq<(string, string)>)
    ensures Append(Append(Append(d, SaPow, e1), Bcd, e2), SaTec, e3) == Droppers(d.saPow + e1, d.bcd + e2, d.saTec + e3)
  {
  }

  /** Every card 1 .. 722 with three empty lists. */
  method EmptyIndex() returns (index: map<nat, Droppers>)
    ensures forall c: nat :: c in index <==> 1 <= c <= TotalCards
    ensures forall c :: c in index ==> index[c] == NoDroppers
  {
    index := map[];
    var cardId := 1;
    while cardId <= TotalCards
      invariant 1 <= cardId <= TotalCards + 1
      invariant forall c: nat :: c in index <==> 1 <= c < cardId
      invariant forall c :: c in index ==> index[c] == NoDroppers
    {
      index := index[cardId := NoDroppers];
      cardId := cardId + 1;
    }
  }

  /** The entry opponent `name` contributes to card `c` from `chances`. */
  function EntryFor(chances: map<nat, string>, name: string, c: nat): seq<(string, string)>
  {
    if c in chances then [(name, chances[c])] else []
  }

  /** The body of the opponent loop: opponent `o`'s three tables, read from
      its block, extend every card's lists from those of opponents
      `first .. o-1` to those of `first .. o`. */
  method AddOpponent(w: seq<byte>, names: seq<string>, first: nat, o: nat, readLength: nat, index0: map<nat, Droppers>)
    returns (index: map<nat, Droppers>)
    requires first <= o < |names|
    requires forall c: nat :: c in index0 <==> 1 <= c <= TotalCards
    requires forall c :: c in index0 ==> index0[c] == Partial(w, names, first, o, readLength, c)
    ensures forall c: nat :: c in index <==> 1 <= c <= TotalCards
    ensures forall c :: c in index ==> index[c] == Partial(w, names, first, o + 1, readLength, c)
  {
    var opponentName := names[o];
    var baseOffset := DropBlockBase + o * OpponentBlockSize;
    var index1 := AddTier(w, o, SaPow, baseOffset, opponentName, readLength, index0);
    var index2 := AddTier(w, o, Bcd, baseOffset, opponentName, readLength, index1);
    index := AddTier(w, o, SaTec, baseOffset, opponentName, readLength, index2);
    forall c | c in index
      ensures index[c] == Partial(w, names, first, o + 1, readLength, c)
    {
      AppendAll(index0[c], EntryFor(TierChances(w, o, SaPow, readLength), opponentName, c),
        EntryFor(TierChances(w, o, Bcd, readLength), opponentName, c),
        EntryFor(TierChances(w, o, SaTec, readLength), opponentName, c));
      PartialNext(w, names, first, o, readLength, c);
    }
  }

  /** One tier of the loop body: seek to the tier's table in the opponent's
      block, read it, parse its chances and append them. */
  method AddTier(w: seq<byte>, o: nat, tier: Tier, baseOffset: nat, name: string, readLength: nat,
                 index0: map<nat, Droppers>) returns (index: map<nat, Droppers>)
    requires baseOffset == DropBlockBase + o * OpponentBlockSize
    requires forall c: nat :: c in index0 <==> 1 <= c <= TotalCards
    ensures forall c: nat :: c in index <==> 1 <= c <= TotalCards
    ensures forall c :: c in index ==> index[c] == Append(index0[c], tier, EntryFor(TierChances(w, o, tier, readLength), name, c))
  {
    var at := baseOffset + TierOffset(tier);
    assert at == TierAt(o, tier);
    var chances := ParseDropChances(Slice(w, at, readLength));
    DropChancesInRange(Slice(w, at, readLength));
    index := AddDroppers(index0, tier, name, chances);
  }

  /** The loop of `precompute_card_droppers`: every card starts with empty
      lists; then, for each opponent from `first` on, the three drop tables
      are read (`readLength` bytes each, from the opponent's block) and each
      card they list gets the opponent appended. Without a WA_MRG file the
      `open` fails and every list stays empty. */
  method DroppersFor(wamrg: Option<seq<byte>>, names: seq<string>, first: nat, readLength: nat)
    returns (index: map<nat, Droppers>)
    ensures index == DropperIndex(wamrg, names, first, readLength)
  {
    index := EmptyIndex();
    if wamrg.None? {
      IndexIs(index, DropperIndex(wamrg, names, first, readLength));
      return;
    }
    var w := wamrg.value;
    // range(first, len(names)) is empty when first >= len(names)
    var opponentId := Min(first, |names|);
    forall c | c in index
      ensures index[c] == Partial(w, names, first, opponentId, readLength, c)
    {
      PartialNone(w, names, first, opponentId, readLength, c);
    }
    while opponentId < |names|
      invariant opponentId <= |names|
      invariant opponentId < |names| ==> first <= opponentId
      invariant forall c: nat :: c in index <==> 1 <= c <= TotalCards
      invariant forall c :: c in index ==> index[c] == Partial(w, names, first, opponentId, readLength, c)
    {
      index := AddOpponent(w, names, first, opponentId, readLength, index);
      opponentId := opponentId + 1;
    }
    IndexIs(index, DropperIndex(wamrg, names, first, readLength));
  }

  /** Two indexes over cards 1 .. 722 with the same lists are equal. */
  lemma IndexIs(index: map<nat, Droppers>, goal: map<nat, Droppers>)
    requires forall c: nat :: c in index <==> 1 <= c <= TotalCards
    requires forall c: nat :: c in goal <==> 1 <= c <= TotalCards
    requires forall c :: c in index ==> index[c] == goal[c]
    ensures index == goal
  {
  }

  /** Card `c`'s lists once opponents `first .. n-1` have been added. */
  function Partial(w: seq<byte>, names: seq<string>, first: nat, n: nat, readLength: nat, c: nat): Droppers
    requires n <= |names|
  {
    Droppers(DropList(names, TierTables(w, |names|, SaPow, readLength), first, n, c),
      DropList(names, TierTables(w, |names|, Bcd, readLength), first, n, c),
      DropList(names, TierTables(w, |names|, SaTec, readLength), first, n, c))
  }

  lemma PartialNone(w: seq<byte>, names: seq<string>, first: nat, n: nat, readLength: nat, c: nat)
    requires n <= first && n <= |names|
    ensures Partial(w, names, first, n, readLength, c) == NoDroppers
  {
  }

  lemma PartialNext(w: seq<byte>, names: seq<string>, first: nat, o: nat, readLength: nat, c: nat)
    requires first <= o < |names|
    ensures Partial(w, names, first, o + 1, readLength, c) ==
      Droppers(Partial(w, names, first, o, readLength, c).saPow + EntryFor(TierChances(w, o, SaPow, readLength), names[o], c),
        Partial(w, names, first, o, readLength, c).bcd + EntryFor(TierChances(w, o, Bcd, readLength), names[o], c),
        Partial(w, names, first, o, readLength, c).saTec + EntryFor(TierChances(w, o, SaTec, readLength), names[o], c))
  {
    TierListNext(w, names, first, o, SaPow, readLength, c);
    TierListNext(w, names, first, o, Bcd, readLength, c);
    TierListNext(w, names, first, o, SaTec, readLength, c);
  }

  lemma TierListNext(w: seq<byte>, names: seq<string>, first: nat, o: nat, tier: Tier, readLength: nat, c: nat)
    requires first <= o < |names|
    ensures DropList(names, TierTables(w, |names|, tier, readLength), first, o + 1, c) ==
      DropList(names, TierTables(w, |names|, tier, readLength), first, o, c) +
      EntryFor(TierChances(w, o, tier, readLength), names[o], c)
  {
  }

  /** A drop table names cards 1 .. 722 only. */
  lemma DropChancesInRange(data: seq<byte>)
    ensures forall c :: c in DropChances(data) ==> 1 <= c <= TotalCards
  {
  }
}
