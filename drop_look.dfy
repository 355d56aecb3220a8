/** The drop viewer's loading side: the methods that fill its tables from
    the bytes of SLUS_014.11 and WA_MRG.MRG, each proved to leave exactly the
    table the DecodeSpec or TableSpec function describes. The windows and
    widgets that show these tables are not modelled. */
module DropLook {
  import opened Bytes
  import opened Text
  import GameData
  import LegacySpec
  import DecodeSpec
  import TableSpec
  import DropTables

  class Viewer {
    /** `card_types_map` and `guardian_stars_map`. */
    var cardTypes: map<nat, string>
    var guardianStars: map<nat, string>
    /** `card_names` and `card_descriptions`. */
    var cardNames: map<nat, string>
    var cardDescriptions: map<nat, string>
    /** `card_stats` and `card_passwords_and_costs`. */
    var cardStats: map<nat, TableSpec.CardStats>
    var cardPasswords: map<nat, TableSpec.PasswordEntry>
    /** `opponents`: the names in pointer order. */
    var opponents: seq<string>
    /** `card_droppers`. */
    var cardDroppers: map<nat, TableSpec.Droppers>
    /** The WA_MRG file chosen in `select_wamrg`. */
    var wamrg: FileChoice
    /** `char_map`, the glyph table every text reader decodes with. */
    var charMap: map<byte, string>

    constructor(wamrg: FileChoice)
      ensures cardTypes == map[] && guardianStars == map[] && cardNames == map[] && cardDescriptions == map[]
      ensures cardStats == map[] && cardPasswords == map[] && opponents == [] && cardDroppers == map[]
      ensures this.wamrg == wamrg && charMap == CharMap
    {
      cardTypes := map[];
      guardianStars := map[];
      cardNames := map[];
      cardDescriptions := map[];
      cardStats := map[];
      cardPasswords := map[];
      opponents := [];
      cardDroppers := map[];
      this.wamrg := wamrg;
      charMap := CharMap;
    }

    // -------------------------------------------------------------------------
    // Text read from SLUS_014.11
    // -------------------------------------------------------------------------

    /** `load_type_guardian_star_names`: 24 type names, then the 10 guardian
        star names whose pointers follow, each loop stopping at the first
        pointer that lies past the data. */
    method LoadTypeGuardianStarNames(slus: seq<byte>)
      modifies this`cardTypes, this`guardianStars
      ensures cardTypes == DecodeSpec.TypeNames(TableGlyph(charMap), slus)
      ensures guardianStars == DecodeSpec.StarNames(TableGlyph(charMap), slus)
    {
      cardTypes := ReadTypeNames(TableGlyph(charMap), slus);
      guardianStars := ReadStarNames(TableGlyph(charMap), slus);
    }

    /** The type loop of `load_type_guardian_star_names`. */
    static method ReadTypeNames(glyph: byte -> string, slus: seq<byte>) returns (types: map<nat, string>)
      ensures types == DecodeSpec.TypeNames(glyph, slus)
    {
      types := map[];
      var typeId := 0;
      while typeId < DecodeSpec.TypeCount
        invariant typeId <= DecodeSpec.TypeCount
        invariant types == Collect(typeId, DecodeSpec.TypeNameEntries(glyph, slus))
      {
        var pointerOffset := DecodeSpec.LabelPointerBase + 2 * typeId;
        if pointerOffset + 2 > |slus| {
          break;
        }
        var name := TypeNameFor(glyph, slus, typeId, DecodeSpec.TextBase + LE16At(slus, pointerOffset));
        CollectNext(typeId, DecodeSpec.TypeNameEntries(glyph, slus));
        assert DecodeSpec.TypeNameEntries(glyph, slus)(typeId) == Some(name);
        types := types[typeId := name];
        typeId := typeId + 1;
      }
      DecodeSpec.TypeNamesStop(glyph, slus, typeId);
    }

    /** One type of the type loop: its label, finished, or
        "Unknown Type <id>" when empty. */
    static method TypeNameFor(glyph: byte -> string, slus: seq<byte>, typeId: nat, textOffset: nat) returns (name: string)
      requires typeId < DecodeSpec.TypeCount && DecodeSpec.LabelPointerFits(slus, typeId)
      requires textOffset == DecodeSpec.TextBase + LE16At(slus, DecodeSpec.LabelPointerBase + 2 * typeId)
      ensures DecodeSpec.TypeNameEntry(glyph, slus, typeId) == Some(name)
    {
      var text := ReadLabel(glyph, slus, textOffset);
      assert DecodeSpec.LabelText(glyph, slus, typeId) == text;
      name := DecodeSpec.FinishName(text, "Unknown Type " + NatToString(typeId));
    }

    /** The guardian-star loop of `load_type_guardian_star_names`; the ids
        are shifted to 1 .. 10. */
    static method ReadStarNames(glyph: byte -> string, slus: seq<byte>) returns (stars: map<nat, string>)
      ensures stars == DecodeSpec.StarNames(glyph, slus)
    {
      stars := map[];
      var starBase := DecodeSpec.LabelPointerBase + DecodeSpec.TypeCount * 2;
      var gsId := 0;
      CollectNext(0, DecodeSpec.StarNameEntries(glyph, slus));
      assert DecodeSpec.StarNameEntries(glyph, slus)(0) == None;
      while gsId < DecodeSpec.StarCount
        invariant gsId <= DecodeSpec.StarCount
        invariant stars == Collect(gsId + 1, DecodeSpec.StarNameEntries(glyph, slus))
      {
        var pointerOffset := starBase + 2 * gsId;
        if pointerOffset + 2 > |slus| {
          break;
        }
        assert pointerOffset == DecodeSpec.LabelPointerBase + 2 * (DecodeSpec.TypeCount + gsId);
        var name := StarNameFor(glyph, slus, gsId, DecodeSpec.TextBase + LE16At(slus, pointerOffset));
        CollectNext(gsId + 1, DecodeSpec.StarNameEntries(glyph, slus));
        assert DecodeSpec.StarNameEntries(glyph, slus)(gsId + 1) == Some(name);
        stars := stars[gsId + 1 := name];
        gsId := gsId + 1;
      }
      DecodeSpec.StarNamesStop(glyph, slus, gsId);
    }

    /** One guardian star of the star loop: its label, finished, or
        "Unknown Guardian Star <gs>" when empty, under key `gs + 1`. */
    static method StarNameFor(glyph: byte -> string, slus: seq<byte>, gsId: nat, textOffset: nat) returns (name: string)
      requires gsId < DecodeSpec.StarCount && DecodeSpec.LabelPointerFits(slus, DecodeSpec.TypeCount + gsId)
      requires textOffset == DecodeSpec.TextBase + LE16At(slus, DecodeSpec.LabelPointerBase + 2 * (DecodeSpec.TypeCount + gsId))
      ensures DecodeSpec.StarNameEntry(glyph, slus, gsId + 1) == Some(name)
    {
      var text := ReadLabel(glyph, slus, textOffset);
      assert DecodeSpec.LabelText(glyph, slus, DecodeSpec.TypeCount + gsId) == text;
      name := DecodeSpec.FinishName(text, "Unknown Guardian Star " + NatToString(gsId));
      assert DecodeSpec.StarName(glyph, slus, gsId) == name;
    }

    /** The label loop: at most 50 bytes, ended by 0xFF or the end of the
        data; a 0xF8 with two bytes after it inside both bounds is skipped
        with them. */
    static method ReadLabel(glyph: byte -> string, slus: seq<byte>, t: nat) returns (name: string)
      ensures name == DecodeSpec.LabelFrom(glyph, slus, t, 0)
    {
      ghost var goal := DecodeSpec.LabelFrom(glyph, slus, t, 0);
      name := "";
      var i := 0;
      while i < DecodeSpec.MaxLabelLength
        invariant name + DecodeSpec.LabelFrom(glyph, slus, t, i) == goal
        decreases DecodeSpec.MaxLabelLength - i
      {
        if t + i >= |slus| {
          break;
        }
        var b := slus[t + i];
        if b == 0xFF {
          break;
        } else if b == 0xF8 && i + 2 < DecodeSpec.MaxLabelLength && t + i + 2 < |slus| {
          DecodeSpec.LabelSkip(glyph, slus, t, i);
          i := i + 3;
          continue;
        }
        DecodeSpec.LabelNext(glyph, slus, t, i);
        var rest := DecodeSpec.LabelFrom(glyph, slus, t, i + 1);
        assert name + (glyph(b) + rest) == (name + glyph(b)) + rest;
        name := name + glyph(b);
        i := i + 1;
      }
      DecodeSpec.LabelStop(glyph, slus, t, i);
      assert name + "" == name;
    }

    /** The prefix check shared by the name, description and opponent
        readers: it indexes the two bytes after `t` (an IndexError, None,
        when they are missing) and reports 3 bytes to skip when the first
        byte is 0xF8. */
    static method PrefixLength(slus: seq<byte>, t: nat) returns (skip: Option<nat>)
      ensures skip == DecodeSpec.PrefixSkip(slus, t)
    {
      if t + 2 >= |slus| {
        return None;
      }
      if slus[t .. t + 3] == [0xF8, slus[t + 1], slus[t + 2]] {
        return Some(3);
      }
      assert slus[t .. t + 3][0] == slus[t];
      return Some(0);
    }

    /** `load_card_names`: cards 1 .. 722, stopping at the first pointer past
        the data; a card whose name raises IndexError gets no entry. */
    method LoadCardNames(slus: seq<byte>)
      modifies this`cardNames
      ensures cardNames == DecodeSpec.CardNames(TableGlyph(charMap), slus)
    {
      cardNames := ReadCardNames(TableGlyph(charMap), slus);
    }

    /** The card loop of `load_card_names`. */
    static method ReadCardNames(glyph: byte -> string, slus: seq<byte>) returns (names: map<nat, string>)
      ensures names == DecodeSpec.CardNames(glyph, slus)
    {
      names := map[];
      var cardId := 1;
      var pointerOffset := 2;
      while cardId <= GameData.TotalCards
        invariant 1 <= cardId <= GameData.TotalCards + 1 && pointerOffset == 2 * cardId
        invariant names == Collect(cardId, DecodeSpec.CardNameEntries(glyph, slus))
      {
        var idx := DecodeSpec.CardNamePointerBase + pointerOffset;
        if idx + 1 >= |slus| {
          break;
        }
        var entry := CardNameFor(glyph, slus, cardId, DecodeSpec.TextBase + LE16At(slus, idx));
        CollectNext(cardId, DecodeSpec.CardNameEntries(glyph, slus));
        assert DecodeSpec.CardNameEntries(glyph, slus)(cardId) == entry;
        if entry.Some? {
          names := names[cardId := entry.value];
        }
        cardId := cardId + 1;
        pointerOffset := pointerOffset + 2;
      }
      DecodeSpec.CardNamesStop(glyph, slus, cardId);
    }

    /** One card of the card-name loop: its name, stripped and title-cased,
        or none when decoding it raised IndexError. */
    static method CardNameFor(glyph: byte -> string, slus: seq<byte>, cardId: nat, textOffset: nat) returns (entry: Option<string>)
      requires 1 <= cardId && DecodeSpec.CardPointerFits(slus, cardId)
      requires textOffset == DecodeSpec.TextBase + LE16At(slus, DecodeSpec.CardNamePointerBase + 2 * cardId)
      ensures entry == DecodeSpec.CardNameEntry(glyph, slus, cardId)
    {
      var name := ReadCardName(glyph, slus, textOffset);
      assert DecodeSpec.CardNameText(glyph, slus, cardId) == DecodeSpec.CardNameAt(glyph, slus,
        DecodeSpec.TextBase + LE16At(slus, DecodeSpec.CardNamePointerBase + 2 * cardId));
      if name.None? {
        return None;
      }
      return Some(DecodeSpec.FinishName(name.value, DecodeSpec.UnknownName(cardId)));
    }

    /** The card-name loop: after the prefix, at most 100 bytes up to 0xFF;
        running off the data is an IndexError. */
    static method ReadCardName(glyph: byte -> string, slus: seq<byte>, t: nat) returns (r: Option<string>)
      ensures r == DecodeSpec.CardNameAt(glyph, slus, t)
    {
      var skip := PrefixLength(slus, t);
      if skip.None? {
        return None;
      }
      ghost var goal := DecodeSpec.CardNameFrom(glyph, slus, t, skip.value);
      assert DecodeSpec.CardNameAt(glyph, slus, t) == goal;
      var i := skip.value;
      var name := "";
      DecodeSpec.PrependNothing(goal);
      while i < DecodeSpec.MaxCardNameLength
        invariant DecodeSpec.Prepend(name, DecodeSpec.CardNameFrom(glyph, slus, t, i)) == goal
        decreases DecodeSpec.MaxCardNameLength - i
      {
        if t + i >= |slus| {
          DecodeSpec.CardNameOff(glyph, slus, t, i);
          return None;
        }
        var b := slus[t + i];
        if b == 0xFF {
          break;
        }
        DecodeSpec.CardNameNext(glyph, slus, t, i);
        DecodeSpec.PrependTwice(name, glyph(b), DecodeSpec.CardNameFrom(glyph, slus, t, i + 1));
        name := name + glyph(b);
        i := i + 1;
      }
      DecodeSpec.CardNameEnd(glyph, slus, t, i);
      DecodeSpec.PrependEnd(name);
      return Some(name);
    }

    /** `load_card_descriptions`: like LoadCardNames over the description
        pointers, with the description decoder and no title-casing. */
    method LoadCardDescriptions(slus: seq<byte>)
      modifies this`cardDescriptions
      ensures cardDescriptions == DecodeSpec.Descriptions(TableGlyph(charMap), slus)
    {
      cardDescriptions := ReadDescriptions(TableGlyph(charMap), slus);
    }

    /** The card loop of `load_card_descriptions`. */
    static method ReadDescriptions(glyph: byte -> string, slus: seq<byte>) returns (descriptions: map<nat, string>)
      ensures descriptions == DecodeSpec.Descriptions(glyph, slus)
    {
      descriptions := map[];
      var cardId := 1;
      var pointerOffset := 2;
      while cardId <= GameData.TotalCards
        invariant 1 <= cardId <= GameData.TotalCards + 1 && pointerOffset == 2 * cardId
        invariant descriptions == Collect(cardId, DecodeSpec.DescriptionEntries(glyph, slus))
      {
        var idx := GameData.DescPointerBase + pointerOffset;
        if idx + 1 >= |slus| {
          break;
        }
        var entry := DescriptionFor(glyph, slus, cardId, GameData.DescTextBase + LE16At(slus, idx));
        CollectNext(cardId, DecodeSpec.DescriptionEntries(glyph, slus));
        assert DecodeSpec.DescriptionEntries(glyph, slus)(cardId) == entry;
        if entry.Some? {
          descriptions := descriptions[cardId := entry.value];
        }
        cardId := cardId + 1;
        pointerOffset := pointerOffset + 2;
      }
      DecodeSpec.DescriptionsStop(glyph, slus, cardId);
    }

    /** One card of the description loop: its description, stripped, or none
        when decoding it raised IndexError. */
    static method DescriptionFor(glyph: byte -> string, slus: seq<byte>, cardId: nat, textOffset: nat) returns (entry: Option<string>)
      requires 1 <= cardId && GameData.DescPointerFits(slus, cardId)
      requires textOffset == GameData.DescTextBase + LE16At(slus, GameData.DescPointerBase + 2 * cardId)
      ensures entry == DecodeSpec.DescriptionEntry(glyph, slus, cardId)
    {
      var desc := ReadDescription(glyph, slus, textOffset);
      assert DecodeSpec.DescriptionText(glyph, slus, cardId) == DecodeSpec.DescriptionAt(glyph, slus,
        GameData.DescTextBase + LE16At(slus, GameData.DescPointerBase + 2 * cardId));
      if desc.None? {
        return None;
      }
      return Some(DecodeSpec.FinishDescription(desc.value, cardId));
    }

    /** The description loop: at most 200 bytes up to 0xFF; 0xF8 is dropped,
        0xFE is a soft space, and FC 71 D5 reads "for each". */
    static method ReadDescription(glyph: byte -> string, slus: seq<byte>, t: nat) returns (r: Option<string>)
      ensures r == DecodeSpec.DescriptionAt(glyph, slus, t)
    {
      var skip := PrefixLength(slus, t);
      if skip.None? {
        return None;
      }
      ghost var goal := DecodeSpec.DescFrom(glyph, slus, t, skip.value);
      assert DecodeSpec.DescriptionAt(glyph, slus, t) == goal;
      var i := skip.value;
      var desc := "";
      DecodeSpec.PrependNothing(goal);
      while i < GameData.MaxDescLength
        invariant DecodeSpec.Prepend(desc, DecodeSpec.DescFrom(glyph, slus, t, i)) == goal
        decreases GameData.MaxDescLength - i
      {
        if t + i >= |slus| {
          DecodeSpec.DescOff(glyph, slus, t, i);
          return None;
        }
        var b := slus[t + i];
        if b == 0xFF {
          break;
        }
        var piece, next, failed := DescriptionStep(glyph, slus, t, i);
        if failed {
          return None;
        }
        DecodeSpec.PrependTwice(desc, piece, DecodeSpec.DescFrom(glyph, slus, t, next));
        desc := desc + piece;
        i := next;
      }
      DecodeSpec.DescEnd(glyph, slus, t, i);
      DecodeSpec.PrependEnd(desc);
      return Some(desc);
    }

    /** One byte (or the three of "for each") of the description loop, other
        than the terminator: the text it adds and where decoding goes on, or
        `failed` where reading the bytes after 0xFC raises IndexError. */
    static method DescriptionStep(glyph: byte -> string, slus: seq<byte>, t: nat, i: nat) returns (piece: string, next: nat, failed: bool)
      requires i < GameData.MaxDescLength && t + i < |slus| && slus[t + i] != 0xFF
      ensures i < next
      ensures failed ==> DecodeSpec.DescFrom(glyph, slus, t, i).None?
      ensures !failed ==> DecodeSpec.DescFrom(glyph, slus, t, i) == DecodeSpec.Prepend(piece, DecodeSpec.DescFrom(glyph, slus, t, next))
    {
      var b := slus[t + i];
      if b == 0xF8 {
        // F8 bytes are ignored
        DecodeSpec.PrependNothing(DecodeSpec.DescFrom(glyph, slus, t, i + 1));
        return "", i + 1, false;
      }
      if b == 0xFE {
        var prevByte: byte := if i > 0 then slus[t + i - 1] else 0x00;
        var nextByte: byte := if t + i + 1 < |slus| then slus[t + i + 1] else 0x00;
        piece := if prevByte != 0x00 && nextByte != 0x00 then " " else "";
        return piece, i + 1, false;
      }
      if b == 0xFC && i + 2 < GameData.MaxDescLength {
        if t + i + 2 >= |slus| {
          return "", i + 1, true;
        }
        var next1 := slus[t + i + 1];
        var next2 := slus[t + i + 2];
        if next1 == 0x71 && next2 == 0xD5 {
          return "for each", i + 3, false;
        }
      }
      return glyph(b), i + 1, false;
    }

    /** `load_opponent_names`: one name per pointer, up to 40, stopping at the
        first pointer past the data; an IndexError gives "Unknown_<id>". */
    method LoadOpponentNames(slus: seq<byte>)
      modifies this`opponents
      ensures opponents == DecodeSpec.Opponents(TableGlyph(charMap), slus)
    {
      opponents := ReadOpponentNames(TableGlyph(charMap), slus);
    }

    /** The opponent loop of `load_opponent_names`. */
    static method ReadOpponentNames(glyph: byte -> string, slus: seq<byte>) returns (names: seq<string>)
      ensures names == DecodeSpec.Opponents(glyph, slus)
    {
      names := [];
      var opponentId := 0;
      while opponentId < DecodeSpec.OpponentCount
        invariant opponentId <= DecodeSpec.OpponentCount
        invariant opponentId > 0 ==> DecodeSpec.OpponentPointerFits(slus, opponentId - 1)
        invariant names == Tabulate(opponentId, DecodeSpec.OpponentNameEntries(glyph, slus))
      {
        var pointerOffset := DecodeSpec.OpponentPointerBase + 2 * opponentId;
        if pointerOffset + 2 > |slus| {
          break;
        }
        var name := OpponentNameFor(glyph, slus, opponentId, pointerOffset);
        TabulateNext(opponentId, DecodeSpec.OpponentNameEntries(glyph, slus));
        assert DecodeSpec.OpponentNameEntries(glyph, slus)(opponentId) == name;
        names := names + [name];
        opponentId := opponentId + 1;
      }
      DecodeSpec.OpponentsStop(glyph, slus, opponentId);
    }

    /** One opponent of the opponent loop: its name, finished, with
        "Unknown_<id>" after an IndexError. */
    static method OpponentNameFor(glyph: byte -> string, slus: seq<byte>, opponentId: nat, pointerOffset: nat)
      returns (name: string)
      requires pointerOffset == DecodeSpec.OpponentPointerBase + 2 * opponentId
      ensures name == DecodeSpec.OpponentName(glyph, slus, opponentId)
    {
      var textOffset := DecodeSpec.TextBase + LE16At(slus, pointerOffset);
      var read := ReadOpponentName(glyph, slus, textOffset);
      var raw := if read.Some? then read.value else DecodeSpec.UnknownName(opponentId);
      name := DecodeSpec.FinishName(raw, DecodeSpec.UnknownName(opponentId));
      DecodeSpec.OpponentNameIs(glyph, slus, opponentId, read);
    }

    /** The opponent-name loop: past a 0xF8 prefix both the index and the
        text offset move on by 3; at most 50 bytes, ended by 0xFF or 0xFD. */
    static method ReadOpponentName(glyph: byte -> string, slus: seq<byte>, t: nat) returns (r: Option<string>)
      ensures r == DecodeSpec.OpponentNameAt(glyph, slus, t)
    {
      var skip := PrefixLength(slus, t);
      if skip.None? {
        return None;
      }
      var i := skip.value;
      var textOffset := t + skip.value;
      ghost var goal := DecodeSpec.OpponentNameFrom(glyph, slus, textOffset, i);
      assert DecodeSpec.OpponentNameAt(glyph, slus, t) == goal;
      var name := "";
      DecodeSpec.PrependNothing(goal);
      while i < DecodeSpec.MaxOpponentNameLength
        invariant DecodeSpec.Prepend(name, DecodeSpec.OpponentNameFrom(glyph, slus, textOffset, i)) == goal
        decreases DecodeSpec.MaxOpponentNameLength - i
      {
        if textOffset + i >= |slus| {
          DecodeSpec.OpponentNameOff(glyph, slus, textOffset, i);
          return None;
        }
        var b := slus[textOffset + i];
        if b == 0xFF || b == 0xFD {
          break;
        }
        DecodeSpec.OpponentNameNext(glyph, slus, textOffset, i);
        DecodeSpec.PrependTwice(name, glyph(b), DecodeSpec.OpponentNameFrom(glyph, slus, textOffset, i + 1));
        name := name + glyph(b);
        i := i + 1;
      }
      DecodeSpec.OpponentNameEnd(glyph, slus, textOffset, i);
      DecodeSpec.PrependEnd(name);
      return Some(name);
    }

    // -------------------------------------------------------------------------
    // Tables
    // -------------------------------------------------------------------------

    /** `load_card_stats`: for cards 1 .. 722, stopping at the first whose
        stats entry or level byte lies past the data, the fields of the stat
        word and of the level byte, the type and stars named through the
        maps loaded so far. */
    method LoadCardStats(slus: seq<byte>)
      modifies this`cardStats
      ensures cardStats == TableSpec.StatsTable(slus, cardTypes, guardianStars)
    {
      cardStats := ReadCardStats(slus, cardTypes, guardianStars);
    }

    /** The card loop of `load_card_stats`. */
    static method ReadCardStats(slus: seq<byte>, types: map<nat, string>, stars: map<nat, string>)
      returns (stats: map<nat, TableSpec.CardStats>)
      ensures stats == TableSpec.StatsTable(slus, types, stars)
    {
      stats := map[];
      var cardId := 1;
      while cardId <= GameData.TotalCards
        invariant 1 <= cardId <= GameData.TotalCards + 1
        invariant stats == Collect(cardId, TableSpec.StatsEntries(slus, types, stars))
      {
        var idxStats := TableSpec.StatsBase + 4 * (cardId - 1);
        if idxStats + 4 > |slus| {
          break;
        }
        var idxLevel := TableSpec.LevelBase + (cardId - 1);
        if idxLevel + 1 > |slus| {
          break;
        }
        var entry := CardStatsFor(slus, types, stars, cardId);
        CollectNext(cardId, TableSpec.StatsEntries(slus, types, stars));
        assert TableSpec.StatsEntries(slus, types, stars)(cardId) == Some(entry);
        stats := stats[cardId := entry];
        cardId := cardId + 1;
      }
      TableSpec.StatsStop(slus, types, stars, cardId);
    }

    /** One card of the stats loop: the stat word read 2 bytes into its
        entry, split into its fields, and its level byte. */
    static method CardStatsFor(slus: seq<byte>, types: map<nat, string>, stars: map<nat, string>, cardId: nat)
      returns (entry: TableSpec.CardStats)
      requires cardId >= 1 && TableSpec.StatsFit(slus, cardId)
      ensures TableSpec.StatsEntry(slus, types, stars, cardId) == Some(entry)
    {
      var idxStats := TableSpec.StatsBase + 4 * (cardId - 1);
      LE32Bounds(slus, idxStats + 2);
      var dataStats := LE32At(slus, idxStats + 2) as bv32;
      var fields := TableSpec.Fields(dataStats);
      var dataLevel := slus[TableSpec.LevelBase + (cardId - 1)];
      var level := (dataLevel & 0x0F) as nat;
      var attributeName := TableSpec.AttributeName(((dataLevel >> 4) & 0xF) as nat);
      entry := TableSpec.CardStats(fields.atk, fields.def, TableSpec.TypeLabel(types, fields.typeId),
        TableSpec.StarLabel(stars, fields.guardStar1), TableSpec.StarLabel(stars, fields.guardStar2),
        attributeName, level);
      assert TableSpec.StatsWord(slus, cardId) == dataStats;
    }

    /** `load_card_passwords_and_costs`: without a WA_MRG path nothing
        changes. Otherwise the table is cleared first; a file that cannot be
        opened leaves it empty (the exception is caught), and a readable one
        fills it with the 8-byte entries of cards 1 .. 722, stopping at the
        first that cannot be read whole. */
    method LoadCardPasswordsAndCosts()
      modifies this`cardPasswords
      ensures wamrg.NotChosen? ==> cardPasswords == old(cardPasswords)
      ensures wamrg.Unopenable? ==> cardPasswords == map[]
      ensures wamrg.Readable? ==> cardPasswords == TableSpec.Passwords(wamrg.contents)
    {
      if wamrg.NotChosen? {
        return;
      }
      cardPasswords := map[];
      if wamrg.Unopenable? {
        return;
      }
      cardPasswords := ReadPasswords(wamrg.contents);
    }

    /** The card loop of `load_card_passwords_and_costs`. */
    static method ReadPasswords(w: seq<byte>) returns (entries: map<nat, TableSpec.PasswordEntry>)
      ensures entries == TableSpec.Passwords(w)
    {
      entries := map[];
      var cardId := 1;
      while cardId <= GameData.TotalCards
        invariant 1 <= cardId <= GameData.TotalCards + 1
        invariant entries == Collect(cardId, TableSpec.PasswordEntries(w))
      {
        var data := Slice(w, TableSpec.PasswordBase + 8 * (cardId - 1), 8);
        if |data| != 8 {
          break;
        }
        var entry := PasswordEntryFor(w, cardId, data);
        CollectNext(cardId, TableSpec.PasswordEntries(w));
        assert TableSpec.PasswordEntries(w)(cardId) == Some(entry);
        entries := entries[cardId := entry];
        cardId := cardId + 1;
      }
      TableSpec.PasswordsStop(w, cardId);
    }

    /** One card of the password loop: the cost from the first 4 bytes, the
        password from the last 4. */
    static method PasswordEntryFor(w: seq<byte>, cardId: nat, data: seq<byte>) returns (entry: TableSpec.PasswordEntry)
      requires cardId >= 1 && data == Slice(w, TableSpec.PasswordBase + 8 * (cardId - 1), 8) && |data| == 8
      ensures TableSpec.PasswordEntryAt(w, cardId) == Some(entry)
    {
      var cost := LittleEndian(data[0 .. 4]);
      var code := LittleEndian(data[4 .. 8]);
      var codeText := if code == TableSpec.NoPasswordCode then "No Password" else ZeroPadded(code, 8);
      entry := TableSpec.PasswordEntry(cost, codeText);
      assert TableSpec.PasswordEntryOf(w, cardId) == entry;
    }

    /** `precompute_card_droppers` (the definition in force): every opponent
        from 0 on, reading 1444 bytes (722 two-byte slots) per table. */
    method PrecomputeCardDroppers()
      modifies this`cardDroppers
      ensures cardDroppers == TableSpec.DropperIndex(Opened(wamrg), opponents, 0, 2 * GameData.TotalCards)
    {
      var expectedSize := GameData.TotalCards * 2;
      cardDroppers := DropTables.DroppersFor(Opened(wamrg), opponents, 0, expectedSize);
    }
  }
}
