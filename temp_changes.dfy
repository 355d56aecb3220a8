/** The patcher revision of `YGOISOPatcher`: the option parsers, the apply
    loop that rewrites the image and logs every write, the reversal that
    writes logged originals back, and the two readers (card descriptions and
    the equip index). The image is the in-memory contents of the selected
    file; what the methods return is what would be written out. */
module TempChanges {
  import opened Bytes
  import opened Text
  import opened GameData
  import opened PatchSpec
  import opened PatchRules
  import opened LegacySpec

  /** How a patch run ends. */
  datatype Outcome = NoOptionSelected | NothingToApply | Patched(image: seq<byte>)

  /** The 15- and 21-byte phrase codes the description decoder of this
      revision compares against. */
  const IncreasePowerCode: seq<byte> :=
    [0xF8, 0x0B, 0xFC, 0x4C, 0xF8, 0x0B, 0xD5, 0xFE, 0xF8, 0x0B, 0xFC, 0x5B, 0xF8, 0x0B, 0xD5]
  const WhenSummonedCode: seq<byte> :=
    [0xF8, 0x0A, 0x01, 0x00, 0x41, 0x38, 0x38, 0xF8, 0x0A, 0x00, 0x00, 0xFE, 0xF8, 0x0B, 0xFC,
     0xF8, 0x0B, 0xD0, 0xF8, 0x0B, 0xD4]

  class Patcher {
    /** The ticked options, the drop-rate value and the force flag. */
    var options: Options
    /** `self.applied_patches`. */
    var appliedPatches: seq<AppliedPatch>
    /** `self.card_names`, as loaded from the SLUS file. */
    var cardNames: map<nat, string>
    /** `self.card_descriptions`. */
    var cardDescriptions: map<nat, string>

    constructor(options: Options, cardNames: map<nat, string>)
      ensures this.options == options && this.cardNames == cardNames
      ensures appliedPatches == [] && cardDescriptions == map[]
    {
      this.options := options;
      this.cardNames := cardNames;
      appliedPatches := [];
      cardDescriptions := map[];
    }

    // -------------------------------------------------------------------------
    // Parsers
    // -------------------------------------------------------------------------

    /** The drop-rate parser: the rules in table order, each with the
        changes its cursor collects. */
    method ParseDropRateChanges(iso: seq<byte>) returns (changes: seq<Change>)
      ensures changes == DropRatePending(iso, options)
    {
      if !options.dropRate {
        return [];
      }
      var rules := DropRateRules(options.thousand);
      changes := [];
      var r := 0;
      while r < |rules|
        invariant 0 <= r <= |rules|
        invariant changes == DropRateChanges(iso, rules[..r], options.force)
      {
        assert rules[r] in rules;
        DropRateChangesSnoc(iso, rules, options.force, r);
        var found := ParseRule(iso, rules[r]);
        changes := changes + found;
        r := r + 1;
      }
      assert rules[..|rules|] == rules;
    }

    /** The cursor of one drop-rate rule: it stops at every non-overlapping
        occurrence of the rule's original bytes and keeps the rule's change
        there unless it is applied and not forced. */
    method ParseRule(iso: seq<byte>, rule: SignatureRule) returns (changes: seq<Change>)
      requires |rule.original| > 0
      ensures changes == RuleChanges(iso, rule, options.force, 0)
    {
      ghost var goal := RuleChanges(iso, rule, options.force, 0);
      changes := [];
      var offset := 0;
      while true
        invariant 0 <= offset <= |iso|
        invariant goal == changes + RuleChanges(iso, rule, options.force, offset)
        decreases |iso| - offset
      {
        var found := Find(iso, rule.original, offset);
        if found == -1 {
          RuleChangesStop(iso, rule, options.force, offset);
          break;
        }
        var next := found + |rule.original|;
        FindAdvances(iso, rule.original, offset, found, next);
        RuleChangesNext(iso, rule, options.force, offset, found, next);
        var change := SearchChange(rule.original, rule.modified, rule.name);
        var check := CheckOverlap(iso, change.original, change.modified);
        KeepUnappliedSingle(iso, change, options.force);
        var kept := if check.0 && !options.force then [] else [change];
        Regroup(goal, changes, kept, RuleChanges(iso, rule, options.force, next));
        changes := changes + kept;
        offset := next;
      }
    }

    /** The filter step the starchips, win and exodia parsers share: the
        candidate is appended unless it is applied and not forced. */
    method KeepIfUnapplied(iso: seq<byte>, changes0: seq<Change>, candidates: seq<Change>, i: nat)
      returns (changes: seq<Change>)
      requires i < |candidates| && changes0 == KeepUnapplied(iso, candidates[..i], options.force)
      ensures changes == KeepUnapplied(iso, candidates[..i + 1], options.force)
    {
      var change := candidates[i];
      var check := match change
        case SearchChange(original, modified, _) => CheckOverlap(iso, original, modified).0
        case AddressChange(address, modified, _) => CheckOverlapAddress(iso, address, modified).0;
      KeepUnappliedSingle(iso, change, options.force);
      KeepUnappliedAppend(iso, candidates[..i], [change], options.force);
      assert candidates[..i + 1] == candidates[..i] + [change];
      changes := changes0;
      if !(check && !options.force) {
        changes := changes + [change];
      }
    }

    /** The starchips parser: one candidate per rule, kept unless already
        applied and not forced. */
    method ParseStarchipsPatches(iso: seq<byte>) returns (changes: seq<Change>)
      ensures changes == StarchipsPending(iso, options)
    {
      if !options.starchips {
        return [];
      }
      var candidates := StarchipsCandidates(StarchipsRules);
      changes := [];
      var i := 0;
      while i < |candidates|
        invariant 0 <= i <= |candidates|
        invariant changes == KeepUnapplied(iso, candidates[..i], options.force)
      {
        changes := KeepIfUnapplied(iso, changes, candidates, i);
        i := i + 1;
      }
      assert candidates[..|candidates|] == candidates;
    }

    /** The password parser: its single change, applied or not. */
    method ParsePasswordPatch(iso: seq<byte>) returns (changes: seq<Change>)
      ensures changes == PasswordPending(iso, options)
    {
      if !options.password {
        return [];
      }
      var change := AddressChange(PasswordRule.address, PasswordRule.modified, PasswordName);
      var check := CheckOverlapAddress(iso, change.address, change.modified);
      // Whether or not `check.0` says the write is already there, the change is returned.
      changes := [change];
    }

    /** The shared shape of the win-requirements and exodia parsers: one
        candidate per pair under the option's name, kept unless already
        applied and not forced. */
    method ParsePairs(iso: seq<byte>, pairs: seq<BytePair>, name: string) returns (changes: seq<Change>)
      ensures changes == KeepUnapplied(iso, PairCandidates(pairs, name), options.force)
    {
      var candidates := PairCandidates(pairs, name);
      changes := [];
      var i := 0;
      while i < |candidates|
        invariant 0 <= i <= |candidates|
        invariant changes == KeepUnapplied(iso, candidates[..i], options.force)
      {
        changes := KeepIfUnapplied(iso, changes, candidates, i);
        i := i + 1;
      }
      assert candidates[..|candidates|] == candidates;
    }

    method ParseWinPatches(iso: seq<byte>) returns (changes: seq<Change>)
      ensures changes == WinPending(iso, options)
    {
      changes := [];
      if options.winRequirements {
        changes := ParsePairs(iso, WinPairs, WinName);
      }
    }

    method ParseExodiaPatches(iso: seq<byte>) returns (changes: seq<Change>)
      ensures changes == ExodiaPending(iso, options)
    {
      changes := [];
      if options.exodia {
        changes := ParsePairs(iso, ExodiaPairs, ExodiaName);
      }
    }

    // -------------------------------------------------------------------------
    // The apply loop
    // -------------------------------------------------------------------------

    /** The search branch: a cursor restarted at 0 rewrites every
        non-overlapping match and logs it. */
    method ApplySearchChange(image0: seq<byte>, original: seq<byte>, modified: seq<byte>, name: string)
      returns (image: seq<byte>)
      requires |original| > 0
      modifies this
      ensures image == ApplySearch(image0, original, modified, name, 0).0
      ensures appliedPatches == old(appliedPatches) + ApplySearch(image0, original, modified, name, 0).1
      ensures options == old(options) && cardNames == old(cardNames) && cardDescriptions == old(cardDescriptions)
    {
      image := image0;
      ghost var goal := ApplySearch(image0, original, modified, name, 0);
      ghost var log0, options0, names0, descriptions0 := appliedPatches, options, cardNames, cardDescriptions;
      var offset := 0;
      while true
        invariant 0 <= offset
        invariant goal.0 == ApplySearch(image, original, modified, name, offset).0
        invariant log0 + goal.1 == appliedPatches + ApplySearch(image, original, modified, name, offset).1
        invariant options == options0 && cardNames == names0 && cardDescriptions == descriptions0
        decreases if offset <= |image| then |image| - offset else 0
      {
        var found := Find(image, original, offset);
        if found == -1 {
          ApplySearchStop(image, original, modified, name, offset);
          break;
        }
        var next := found + |original|;
        FindAdvances(image, original, offset, found, next);
        var region := image[found .. next];
        var written := Take(modified, |original|);
        var after := Splice(image, found, |original|, written);
        ApplySearchNext(image, original, modified, name, offset, found, next, written, after);
        var record := AppliedPatch(SearchPatch, found, region, written, name);
        ghost var rest := ApplySearch(after, original, modified, name, next);
        Regroup(log0 + goal.1, appliedPatches, [record], rest.1);
        image := after;
        appliedPatches := appliedPatches + [record];
        offset := next;
      }
    }

    /** The address branch: a bounds-checked write, logged with the bytes it
        overwrote. */
    method ApplyAddressChange(image0: seq<byte>, address: nat, modified: seq<byte>, name: string)
      returns (image: seq<byte>)
      modifies this
      ensures image == ApplyAddress(image0, address, modified, name).0
      ensures appliedPatches == old(appliedPatches) + ApplyAddress(image0, address, modified, name).1
      ensures options == old(options) && cardNames == old(cardNames) && cardDescriptions == old(cardDescriptions)
    {
      image := image0;
      if address + |modified| <= |image| {
        var original := image[address .. address + |modified|];
        image := Splice(image, address, |modified|, modified);
        appliedPatches := appliedPatches + [AppliedPatch(AddressPatch, address, original, modified, name)];
      }
    }

    /** The apply loop over all pending changes, in order. */
    method ApplyChanges(iso: seq<byte>, changes: seq<Change>) returns (image: seq<byte>)
      requires forall c :: c in changes ==> WellFormed(c)
      modifies this
      ensures image == ApplyAll(iso, changes).0
      ensures appliedPatches == old(appliedPatches) + ApplyAll(iso, changes).1
      ensures options == old(options) && cardNames == old(cardNames) && cardDescriptions == old(cardDescriptions)
    {
      image := iso;
      ghost var goal := ApplyAll(iso, changes);
      ghost var log0 := appliedPatches;
      var i := 0;
      while i < |changes|
        invariant 0 <= i <= |changes|
        invariant forall c :: c in changes[i..] ==> WellFormed(c)
        invariant goal.0 == ApplyAll(image, changes[i..]).0
        invariant log0 + goal.1 == appliedPatches + ApplyAll(image, changes[i..]).1
        invariant options == old(options) && cardNames == old(cardNames) && cardDescriptions == old(cardDescriptions)
      {
        var c := changes[i];
        ApplyAllStep(image, changes[i..]);
        assert changes[i..][0] == c && changes[i..][1..] == changes[i + 1..];
        ghost var step := ApplyChange(image, c);
        ghost var rest := ApplyAll(step.0, changes[i + 1..]);
        ghost var log := appliedPatches;
        assert log + (step.1 + rest.1) == (log + step.1) + rest.1;
        match c {
          case AddressChange(address, modified, name) =>
            image := ApplyAddressChange(image, address, modified, name);
          case SearchChange(original, modified, name) =>
            image := ApplySearchChange(image, original, modified, name);
        }
        i := i + 1;
      }
    }

    /** A patch run: refuse when no option is ticked, collect the selected
        parsers' changes in the fixed order, stop when there are none, and
        otherwise start a fresh log and apply them all. */
    method CheckAndPatchIso(iso: seq<byte>) returns (outcome: Outcome)
      modifies this
      ensures !AnySelected(options) ==> outcome == NoOptionSelected && appliedPatches == old(appliedPatches)
      ensures AnySelected(options) && PendingChanges(iso, options) == [] ==>
                outcome == NothingToApply && appliedPatches == old(appliedPatches)
      ensures AnySelected(options) && PendingChanges(iso, options) != [] ==>
                outcome == Patched(ApplyAll(iso, PendingChanges(iso, options)).0) &&
                appliedPatches == ApplyAll(iso, PendingChanges(iso, options)).1
      ensures outcome.Patched? ==> |outcome.image| == |iso| && Captured(iso, appliedPatches) &&
                                   Replay(iso, appliedPatches) == outcome.image && SameSize(appliedPatches)
      ensures options == old(options) && cardNames == old(cardNames) && cardDescriptions == old(cardDescriptions)
    {
      if !AnySelected(options) {
        return NoOptionSelected;
      }
      var d := ParseDropRateChanges(iso);
      var s := ParseStarchipsPatches(iso);
      var p := ParsePasswordPatch(iso);
      var w := ParseWinPatches(iso);
      var e := ParseExodiaPatches(iso);
      var changes := d + s + p + w + e;
      assert changes == PendingChanges(iso, options);
      if changes == [] {
        return NothingToApply;
      }
      appliedPatches := [];
      ApplyAllLogs(iso, changes);
      var image := ApplyChanges(iso, changes);
      return Patched(image);
    }

    // -------------------------------------------------------------------------
    // Reversal
    // -------------------------------------------------------------------------

    /** `apply_reversal`: for each logged patch whose name is selected and
        whose region fits the image, write its original bytes back and count
        it. */
    method ApplyReversal(iso: seq<byte>, selected: set<string>) returns (image: seq<byte>, count: nat)
      ensures (image, count) == Revert(iso, appliedPatches, selected)
    {
      image := iso;
      count := 0;
      ghost var goal := Revert(iso, appliedPatches, selected);
      var i := 0;
      while i < |appliedPatches|
        invariant 0 <= i <= |appliedPatches|
        invariant goal.0 == Revert(image, appliedPatches[i..], selected).0
        invariant goal.1 == count + Revert(image, appliedPatches[i..], selected).1
      {
        var patch := appliedPatches[i];
        var next := i + 1;
        RevertFrom(image, appliedPatches, selected, i, next);
        // Address and search records carry their offset in `location` alike.
        if patch.name in selected && patch.location + |patch.original| <= |image| {
          image := Splice(image, patch.location, |patch.original|, patch.original);
          count := count + 1;
        }
        i := next;
      }
      assert appliedPatches[i..] == [];
    }

    /** `reverse_patches`: nothing to do without a log; otherwise the
        reversal of the selected names. */
    method ReversePatches(iso: seq<byte>, selected: set<string>) returns (result: Option<(seq<byte>, nat)>)
      ensures appliedPatches == [] <==> result == None
      ensures result.Some? ==> result.value == Revert(iso, appliedPatches, selected)
    {
      if appliedPatches == [] {
        return None;
      }
      var image, count := ApplyReversal(iso, selected);
      return Some((image, count));
    }

    // -------------------------------------------------------------------------
    // Card descriptions
    // -------------------------------------------------------------------------

    /** The description decoder of this revision. The two phrase matches
        compare an 8-byte window with 15- and 21-byte codes and the FC..D5
        branch needs room that the skip before it already used: all three
        are unreachable, as the `assert false` in each shows. */
    method DecodeDescription(slus: seq<byte>, t: nat) returns (desc: string)
      ensures desc == DecodeFrom(slus, t, 0)
    {
      ghost var goal := DecodeFrom(slus, t, 0);
      desc := "";
      var i := 0;
      while i < MaxDescLength
        invariant 0 <= i <= MaxDescLength
        invariant goal == desc + DecodeFrom(slus, t, i)
        decreases MaxDescLength - i
      {
        if t + i >= |slus| {
          break;
        }
        var b := slus[t + i];
        if b == 0xFF {
          break;
        }
        desc, i := DecodeStep(slus, t, i, desc, goal);
      }
      DecodeStop(slus, t, i);
    }

    /** One turn of the decoder loop at a byte that is neither past the end
        nor the terminator: a skipped code moves two bytes on, any other byte
        is decoded and the cursor moves one byte on. */
    static method DecodeStep(slus: seq<byte>, t: nat, i: nat, desc0: string, ghost goal: string) returns (desc: string, next: nat)
      requires i < MaxDescLength && t + i < |slus| && slus[t + i] != 0xFF
      requires goal == desc0 + DecodeFrom(slus, t, i)
      ensures i < next <= MaxDescLength
      ensures goal == desc + DecodeFrom(slus, t, next)
    {
      var b := slus[t + i];
      if b == 0xF8 && i + 7 < MaxDescLength && t + i + 7 < |slus| {
        var window := slus[t + i .. t + i + 8];
        WindowMissesPhrases(window);
        if window[..Min(15, |window|)] == IncreasePowerCode {
          assert false;
        } else if window[..Min(20, |window|)] == WhenSummonedCode {
          assert false;
        }
      }
      if IsSkipCode(b) && i + 1 < MaxDescLength && t + i + 1 < |slus| {
        DecodeSkip(slus, t, i);
        return desc0, i + 2;
      }
      desc := DecodeByte(slus, t, i, desc0, goal);
      next := i + 1;
    }

    /** An eight-byte window is shorter than either phrase code, so neither
        phrase comparison can succeed. */
    static lemma WindowMissesPhrases(window: seq<byte>)
      requires |window| == 8
      ensures window[..Min(15, |window|)] != IncreasePowerCode
      ensures window[..Min(20, |window|)] != WhenSummonedCode
    {
      assert |window[..Min(15, |window|)]| == 8 != |IncreasePowerCode|;
      assert |window[..Min(20, |window|)]| == 8 != |WhenSummonedCode|;
    }

    /** The byte at `i` is neither the terminator nor a skipped code: 0xFE
        becomes a soft space, anything else its glyph. */
    static method DecodeByte(slus: seq<byte>, t: nat, i: nat, desc0: string, ghost goal: string) returns (desc: string)
      requires i < MaxDescLength && t + i < |slus| && slus[t + i] != 0xFF
      requires !(IsSkipCode(slus[t + i]) && i + 1 < MaxDescLength && t + i + 1 < |slus|)
      requires goal == desc0 + DecodeFrom(slus, t, i)
      ensures goal == desc + DecodeFrom(slus, t, i + 1)
    {
      var b := slus[t + i];
      DecodeNext(slus, t, i);
      if b == 0xFE {
        Regroup(goal, desc0, SoftSpace(slus, t, i), DecodeFrom(slus, t, i + 1));
        desc := desc0 + SoftSpace(slus, t, i);
        return;
      }
      if b == 0xFC && i + 2 < MaxDescLength && t + i + 2 < |slus| {
        assert false;
      }
      Regroup(goal, desc0, Glyph(b), DecodeFrom(slus, t, i + 1));
      desc := desc0 + Glyph(b);
    }

    /** One card's description: the text its pointer leads to, with "388"
        read as "300" and "bye" as "by", stripped, or "Unknown_<card>" when
        nothing was decoded. */
    method ReadDescription(slus: seq<byte>, card: nat) returns (desc: string)
      requires DescPointerFits(slus, card)
      ensures desc == DescriptionOf(slus, card)
    {
      var pointer := LE16At(slus, DescPointerBase + 2 * card);
      desc := DecodeDescription(slus, DescTextBase + pointer);
      desc := ReplaceAll(desc, "388", "300");
      desc := ReplaceAll(desc, "bye", "by");
      desc := if desc != "" then Strip(desc) else "Unknown_" + NatToString(card);
    }

    /** `load_card_descriptions`: one entry per card 1..722 while its pointer
        fits, replaced and stripped. */
    method LoadCardDescriptions(slus: seq<byte>)
      modifies this
      ensures cardDescriptions == Descriptions(slus)
      ensures options == old(options) && cardNames == old(cardNames) && appliedPatches == old(appliedPatches)
    {
      var descriptions: map<nat, string> := map[];
      var card := 1;
      var pointerOffset := 2;
      while card <= TotalCards
        invariant 1 <= card <= TotalCards + 1 && pointerOffset == 2 * card
        invariant card > 1 ==> DescPointerFits(slus, card - 1)
        invariant unchanged(this)
        invariant DescriptionsBelow(slus, descriptions, card)
      {
        var idx := DescPointerBase + pointerOffset;
        if idx + 1 >= |slus| {
          break;
        }
        var desc := ReadDescription(slus, card);
        DescriptionsBelowNext(slus, descriptions, card, desc);
        descriptions := descriptions[card := desc];
        card := card + 1;
        pointerOffset := pointerOffset + 2;
      }
      DescriptionsUpTo(slus, descriptions, card);
      cardDescriptions := descriptions;
    }

    // -------------------------------------------------------------------------
    // Equip index
    // -------------------------------------------------------------------------

    /** `reverse_lookup_equips`: each field table is read record by record
        until its end offset or an equip id of 0, and every non-zero material
        gets the equip's `(id, name)` pair once. When `open` raises (None),
        the exception is caught and the index is empty. */
    method ReverseLookupEquips(wamrg: Option<seq<byte>>) returns (index: EquipIndex)
      ensures wamrg.None? ==> index == map[]
      ensures wamrg.Some? ==> index == EquipIndexOf(wamrg.value, cardNames)
    {
      index := map[];
      if wamrg.None? {
        return;
      }
      var w := wamrg.value;
      ghost var goal := EquipIndexOf(w, cardNames);
      var f := 0;
      while f < |EquipFields|
        invariant 0 <= f <= |EquipFields|
        invariant goal == AddRecords(index, cardNames, RecordsFrom(w, f))
      {
        var next := f + 1;
        AddRecordsFromNext(index, cardNames, w, f, next);
        index := ReadField(w, cardNames, EquipFields[f].0, EquipFields[f].1, index);
        f := next;
      }
    }

    /** One field table, from `start` to `end`, added to the index. */
    static method ReadField(wamrg: seq<byte>, names: map<nat, string>, start: nat, end: nat, index0: EquipIndex)
      returns (index: EquipIndex)
      ensures index == AddRecords(index0, names, FieldRecords(wamrg, start, end))
    {
      index := index0;
      ghost var goal := AddRecords(index0, names, FieldRecords(wamrg, start, end));
      var current: int := start;
      while current < end
        invariant start <= current
        invariant goal == AddRecords(index, names, FieldRecords(wamrg, current, end))
        decreases end - current
      {
        var equip := LE16At(wamrg, current);
        if equip == 0 {
          break;
        }
        var total := LE16At(wamrg, current + 2);
        var materials := ReadMaterials(wamrg, current + 4, total);
        var next := AddMaterials(index, (equip, EquipName(names, equip)), materials);
        var after := current + 2 * total + 4;
        AddFieldRecordsNext(goal, index, next, names, wamrg, current, end, equip, total, materials, after);
        index := next;
        current := after;
      }
      FieldRecordsStop(wamrg, current, end);
    }

    /** The non-zero material ids of one record, in order. */
    static method ReadMaterials(wamrg: seq<byte>, at: nat, total: nat) returns (materials: seq<nat>)
      ensures materials == Materials(wamrg, at, total)
    {
      materials := [];
      var m := 0;
      while m < total
        invariant 0 <= m <= total
        invariant materials == Materials(wamrg, at, m)
      {
        var card := LE16At(wamrg, at + 2 * m);
        if card != 0 {
          materials := materials + [card];
        }
        m := m + 1;
      }
    }

    /** Each material gets the equip's pair, once: the key is created when
        missing and the pair appended when absent. */
    static method AddMaterials(index0: EquipIndex, pair: (nat, string), materials: seq<nat>) returns (index: EquipIndex)
      ensures index == AddRecord(index0, pair, materials)
    {
      index := index0;
      var j := 0;
      while j < |materials|
        invariant 0 <= j <= |materials|
        invariant AddRecord(index0, pair, materials) == AddRecord(index, pair, materials[j..])
      {
        var card := materials[j];
        assert materials[j..][0] == card && materials[j..][1..] == materials[j + 1..];
        ghost var prior := index;
        if card !in index {
          index := index[card := []];
        }
        if pair !in index[card] {
          index := index[card := index[card] + [pair]];
        }
        assert index == AddPair(prior, card, pair);
        j := j + 1;
      }
    }
  }

  /** A run that patched the image can be undone: with every logged name
      selected and no two logged patches touching the same byte, reversing
      the log on the patched image gives back the input image and counts
      every patch. */
  lemma PatchedRunReverts(iso: seq<byte>, o: Options, selected: set<string>)
    requires Disjoint(ApplyAll(iso, PendingChanges(iso, o)).1)
    requires forall p :: p in ApplyAll(iso, PendingChanges(iso, o)).1 ==> p.name in selected
    ensures Revert(ApplyAll(iso, PendingChanges(iso, o)).0, ApplyAll(iso, PendingChanges(iso, o)).1, selected)
            == (iso, |ApplyAll(iso, PendingChanges(iso, o)).1|)
  {
    RoundTrip(iso, PendingChanges(iso, o), selected);
  }

  /** Reversing a run's log on the unpatched input (the file the patcher
      reads again when reversing) leaves it unchanged. */
  lemma ReversalOnInputIsIdentity(iso: seq<byte>, o: Options, selected: set<string>)
    requires Disjoint(ApplyAll(iso, PendingChanges(iso, o)).1)
    ensures Revert(iso, ApplyAll(iso, PendingChanges(iso, o)).1, selected).0 == iso
  {
    ApplyAllLogs(iso, PendingChanges(iso, o));
    RevertUnpatched(iso, ApplyAll(iso, PendingChanges(iso, o)).1, selected);
  }
}
