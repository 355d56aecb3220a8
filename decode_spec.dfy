/** The text readers of the drop viewer: the type and guardian-star labels,
    card names, opponent names and card descriptions. Each text is found
    through a table of 16-bit little-endian pointers in SLUS_014.11 and
    decoded with the game's glyph table. Where the viewer indexes past the end
    of the data it raises IndexError; here that outcome is `None`. */
module DecodeSpec {
  import opened Bytes
  import opened Text
  import opened GameData
  import LegacySpec

  /** Pointers of names and labels are relative to this offset. */
  const TextBase: nat := 0x1C0800

  /** A decoded piece in front of the rest of a decoding that may fail. */
  function Prepend(prefix: string, rest: Option<string>): (r: Option<string>)
    ensures r.Some? <==> rest.Some?
  {
    if rest.None? then None else Some(prefix + rest.value)
  }

  lemma PrependNothing(rest: Option<string>)
    ensures Prepend("", rest) == rest
  {
    if rest.Some? {
      assert "" + rest.value == rest.value;
    }
  }

  lemma PrependEnd(prefix: string)
    ensures Prepend(prefix, Some("")) == Some(prefix)
  {
    assert prefix + "" == prefix;
  }

  lemma PrependTwice(a: string, b: string, rest: Option<string>)
    ensures Prepend(a, Prepend(b, rest)) == Prepend(a + b, rest)
  {
    if rest.Some? {
      assert a + (b + rest.value) == (a + b) + rest.value;
    }
  }

  /** `name.strip().title() if name else fallback`. */
  function FinishName(raw: string, fallback: string): string
  {
    if raw != "" then Title(Strip(raw)) else fallback
  }

  /** A decoded name comes out without surrounding whitespace, and is empty
      only when all of it was whitespace; nothing decoded gives the
      fallback. */
  lemma FinishNameMeaning(raw: string, fallback: string)
    ensures raw == "" ==> FinishName(raw, fallback) == fallback
    ensures raw != "" ==> |FinishName(raw, fallback)| <= |raw| && (FinishName(raw, fallback) == "" <==> AllSpace(raw))
    ensures var r := FinishName(raw, fallback);
      raw != "" && r != "" ==> !IsSpace(r[0]) && !IsSpace(r[|r| - 1])
  {
    if raw != "" {
      StripMeaning(raw);
      TitleKeepsSpaces(Strip(raw));
    }
  }

  /** `f"Unknown_{n}"`. */
  function UnknownName(n: nat): string
  {
    "Unknown_" + NatToString(n)
  }

  /** An "Unknown_<n>" name survives the finishing unchanged. */
  lemma FinishUnknown(n: nat, fallback: string)
    ensures FinishName(UnknownName(n), fallback) == UnknownName(n)
  {
    var s := UnknownName(n);
    assert s[0] == 'U';
    assert s[|s| - 1] == NatToString(n)[|NatToString(n)| - 1];
    StripUnpadded(s);
    TitleUnknown(n);
  }

  /** The prefix check of the name, description and opponent readers reads
      the two bytes after `t`, so it fails unless they exist; then decoding
      starts 3 bytes in past a leading 0xF8, else at 0. */
  function PrefixSkip(slus: seq<byte>, t: nat): Option<nat>
  {
    if t + 2 >= |slus| then None else Some(if slus[t] == 0xF8 then 3 else 0)
  }

  // ---------------------------------------------------------------------------
  // Type and guardian-star labels
  // ---------------------------------------------------------------------------

  /** 24 type pointers, then 10 guardian-star pointers, from here. */
  const LabelPointerBase: nat := 0x1C6600
  const TypeCount: nat := 24
  const StarCount: nat := 10
  const MaxLabelLength: nat := 50

  /** The label text from position `i` of the text at `t`: at most 50 bytes,
      ended by 0xFF or the end of the data; a 0xF8 with its two following
      bytes inside both limits is dropped together with them. */
  function LabelFrom(glyph: byte -> string, slus: seq<byte>, t: nat, i: nat): string
    decreases MaxLabelLength - i
  {
    if i >= MaxLabelLength || t + i >= |slus| then ""
    else if slus[t + i] == 0xFF then ""
    else if slus[t + i] == 0xF8 && i + 2 < MaxLabelLength && t + i + 2 < |slus| then LabelFrom(glyph, slus, t, i + 3)
    else glyph(slus[t + i]) + LabelFrom(glyph, slus, t, i + 1)
  }

  /** The pointer in slot `slot` of the label table lies inside the data. */
  predicate LabelPointerFits(slus: seq<byte>, slot: nat)
  {
    LabelPointerBase + 2 * slot + 2 <= |slus|
  }

  function LabelText(glyph: byte -> string, slus: seq<byte>, slot: nat): string
  {
    LabelFrom(glyph, slus, TextBase + LE16At(slus, LabelPointerBase + 2 * slot), 0)
  }

  function TypeName(glyph: byte -> string, slus: seq<byte>, id: nat): string
  {
    FinishName(LabelText(glyph, slus, id), "Unknown Type " + NatToString(id))
  }

  /** Guardian star `gs` (0-based) has its pointer after the 24 type pointers. */
  function StarName(glyph: byte -> string, slus: seq<byte>, gs: nat): string
  {
    FinishName(LabelText(glyph, slus, TypeCount + gs), "Unknown Guardian Star " + NatToString(gs))
  }

  /** Type `id`'s entry in `card_types_map`: its name when `id` is one of
      the 24 and its pointer fits. */
  function TypeNameEntry(glyph: byte -> string, slus: seq<byte>, id: nat): Option<string>
  {
    if id < TypeCount && LabelPointerFits(slus, id) then Some(TypeName(glyph, slus, id)) else None
  }

  function TypeNameEntries(glyph: byte -> string, slus: seq<byte>): nat -> Option<string>
  {
    (id: nat) => TypeNameEntry(glyph, slus, id)
  }

  /** `card_types_map`. */
  function TypeNames(glyph: byte -> string, slus: seq<byte>): map<nat, string>
  {
    Collect(TypeCount, TypeNameEntries(glyph, slus))
  }

  /** Key `k` of `guardian_stars_map` is guardian star `k - 1`, whose pointer
      sits in slot `TypeCount + k - 1`. */
  function StarNameEntry(glyph: byte -> string, slus: seq<byte>, k: nat): Option<string>
  {
    if 1 <= k <= StarCount && LabelPointerFits(slus, TypeCount + k - 1) then Some(StarName(glyph, slus, k - 1)) else None
  }

  function StarNameEntries(glyph: byte -> string, slus: seq<byte>): nat -> Option<string>
  {
    (k: nat) => StarNameEntry(glyph, slus, k)
  }

  /** `guardian_stars_map`, keyed 1..10. */
  function StarNames(glyph: byte -> string, slus: seq<byte>): map<nat, string>
  {
    Collect(StarCount + 1, StarNameEntries(glyph, slus))
  }

  /** The type loop that stops at the first pointer past the data has loaded
      every type name. */
  lemma TypeNamesStop(glyph: byte -> string, slus: seq<byte>, n: nat)
    requires n <= TypeCount
    requires n < TypeCount ==> !LabelPointerFits(slus, n)
    ensures TypeNames(glyph, slus) == Collect(n, TypeNameEntries(glyph, slus))
  {
    CollectPastLast(n, TypeCount, TypeNameEntries(glyph, slus));
  }

  /** Likewise for the guardian stars, stopping after key `n`. */
  lemma StarNamesStop(glyph: byte -> string, slus: seq<byte>, n: nat)
    requires n <= StarCount
    requires n < StarCount ==> !LabelPointerFits(slus, TypeCount + n)
    ensures StarNames(glyph, slus) == Collect(n + 1, StarNameEntries(glyph, slus))
  {
    CollectPastLast(n + 1, StarCount + 1, StarNameEntries(glyph, slus));
  }

  /** `card_types_map` is keyed by the pointer's index 0..23 and holds
      exactly the types whose pointer fits. */
  lemma TypeNamesMeaning(glyph: byte -> string, slus: seq<byte>)
    ensures forall id: nat :: id in TypeNames(glyph, slus) <==> id < TypeCount && LabelPointerFits(slus, id)
    ensures forall id: nat :: id in TypeNames(glyph, slus) ==> TypeNames(glyph, slus)[id] == TypeName(glyph, slus, id)
  {
    CollectMeaning(TypeCount, TypeNameEntries(glyph, slus));
  }

  /** `guardian_stars_map` is keyed one higher than the stars, 1..10, and
      holds exactly the stars whose pointer fits. */
  lemma StarNamesMeaning(glyph: byte -> string, slus: seq<byte>)
    ensures forall k: nat :: k in StarNames(glyph, slus) <==> 1 <= k <= StarCount && LabelPointerFits(slus, TypeCount + k - 1)
    ensures forall k: nat :: k in StarNames(glyph, slus) ==> k >= 1 && StarNames(glyph, slus)[k] == StarName(glyph, slus, k - 1)
  {
    CollectMeaning(StarCount + 1, StarNameEntries(glyph, slus));
  }

  lemma LabelStop(glyph: byte -> string, slus: seq<byte>, t: nat, i: nat)
    requires i >= MaxLabelLength || t + i >= |slus| || slus[t + i] == 0xFF
    ensures LabelFrom(glyph, slus, t, i) == ""
  {
  }

  lemma LabelSkip(glyph: byte -> string, slus: seq<byte>, t: nat, i: nat)
    requires i < MaxLabelLength && t + i < |slus| && slus[t + i] == 0xF8
    requires i + 2 < MaxLabelLength && t + i + 2 < |slus|
    ensures LabelFrom(glyph, slus, t, i) == LabelFrom(glyph, slus, t, i + 3)
  {
  }

  lemma LabelNext(glyph: byte -> string, slus: seq<byte>, t: nat, i: nat)
    requires i < MaxLabelLength && t + i < |slus| && slus[t + i] != 0xFF
    requires !(slus[t + i] == 0xF8 && i + 2 < MaxLabelLength && t + i + 2 < |slus|)
    ensures LabelFrom(glyph, slus, t, i) == glyph(slus[t + i]) + LabelFrom(glyph, slus, t, i + 1)
  {
  }

  /** A label never looks past its 50-byte window: cutting the data off at
      the end of the window does not change it. */
  lemma {:induction false} LabelWindow(glyph: byte -> string, slus: seq<byte>, t: nat, i: nat, w: seq<byte>)
    requires w == slus[..Min(|slus|, t + MaxLabelLength)]
    ensures LabelFrom(glyph, slus, t, i) == LabelFrom(glyph, w, t, i)
    decreases MaxLabelLength - i
  {
    if i < MaxLabelLength && t + i < |slus| {
      assert t + i < |w| && w[t + i] == slus[t + i];
      if slus[t + i] != 0xFF {
        if slus[t + i] == 0xF8 && i + 2 < MaxLabelLength && t + i + 2 < |slus| {
          LabelWindow(glyph, slus, t, i + 3, w);
        } else {
          assert i + 2 < MaxLabelLength ==> (t + i + 2 < |slus| <==> t + i + 2 < |w|);
          LabelWindow(glyph, slus, t, i + 1, w);
        }
      }
    }
  }

  // ---------------------------------------------------------------------------
  // Card names
  // ---------------------------------------------------------------------------

  /** Card `k`'s pointer sits at `0x1C6000 + 2k` (slot 0 is a placeholder). */
  const CardNamePointerBase: nat := 0x1C6000
  const MaxCardNameLength: nat := 100

  /** The card name from position `i` of the text at `t`: ended by 0xFF or
      the 100-byte limit; reaching the end of the data first fails. */
  function CardNameFrom(glyph: byte -> string, slus: seq<byte>, t: nat, i: nat): Option<string>
    decreases MaxCardNameLength - i
  {
    if i >= MaxCardNameLength then Some("")
    else if t + i >= |slus| then None
    else if slus[t + i] == 0xFF then Some("")
    else Prepend(glyph(slus[t + i]), CardNameFrom(glyph, slus, t, i + 1))
  }

  lemma CardNameEnd(glyph: byte -> string, slus: seq<byte>, t: nat, i: nat)
    requires i >= MaxCardNameLength || (t + i < |slus| && slus[t + i] == 0xFF)
    ensures CardNameFrom(glyph, slus, t, i) == Some("")
  {
  }

  lemma CardNameOff(glyph: byte -> string, slus: seq<byte>, t: nat, i: nat)
    requires i < MaxCardNameLength && t + i >= |slus|
    ensures CardNameFrom(glyph, slus, t, i) == None
  {
  }

  lemma CardNameNext(glyph: byte -> string, slus: seq<byte>, t: nat, i: nat)
    requires i < MaxCardNameLength && t + i < |slus| && slus[t + i] != 0xFF
    ensures CardNameFrom(glyph, slus, t, i) == Prepend(glyph(slus[t + i]), CardNameFrom(glyph, slus, t, i + 1))
  {
  }

  predicate CardPointerFits(slus: seq<byte>, k: nat)
  {
    CardNamePointerBase + 2 * k + 1 < |slus|
  }

  /** The decoded name of card `k`, or None where the viewer hits IndexError. */
  function CardNameText(glyph: byte -> string, slus: seq<byte>, k: nat): Option<string>
  {
    CardNameAt(glyph, slus, TextBase + LE16At(slus, CardNamePointerBase + 2 * k))
  }

  /** The card name stored at text offset `t`. */
  function CardNameAt(glyph: byte -> string, slus: seq<byte>, t: nat): Option<string>
  {
    var skip := PrefixSkip(slus, t);
    if skip.None? then None else CardNameFrom(glyph, slus, t, skip.value)
  }

  /** Card `k`'s entry in `self.card_names`: its finished name when its
      pointer fits and its name decodes, else none. */
  function CardNameEntry(glyph: byte -> string, slus: seq<byte>, k: nat): Option<string>
  {
    if 1 <= k && CardPointerFits(slus, k) && CardNameText(glyph, slus, k).Some? then
      Some(FinishName(CardNameText(glyph, slus, k).value, UnknownName(k)))
    else None
  }

  function CardNameEntries(glyph: byte -> string, slus: seq<byte>): nat -> Option<string>
  {
    (k: nat) => CardNameEntry(glyph, slus, k)
  }

  /** `self.card_names`: the entries of cards 1..722. */
  function CardNames(glyph: byte -> string, slus: seq<byte>): map<nat, string>
  {
    Collect(TotalCards + 1, CardNameEntries(glyph, slus))
  }

  /** Once a card's pointer does not fit, no later card's does, so the loop
      that stops there has loaded every entry. */
  lemma CardNamesStop(glyph: byte -> string, slus: seq<byte>, card: nat)
    requires 1 <= card <= TotalCards + 1
    requires card <= TotalCards ==> !CardPointerFits(slus, card)
    ensures CardNames(glyph, slus) == Collect(card, CardNameEntries(glyph, slus))
  {
    CollectPastLast(card, TotalCards + 1, CardNameEntries(glyph, slus));
  }

  /** `self.card_names` has an entry for exactly the cards 1..722 whose
      pointer fits and whose name decodes: the decoded name, stripped and
      title-cased. */
  lemma CardNamesMeaning(glyph: byte -> string, slus: seq<byte>)
    ensures forall k :: k in CardNames(glyph, slus) <==>
      1 <= k <= TotalCards && CardPointerFits(slus, k) && CardNameText(glyph, slus, k).Some?
    ensures forall k :: k in CardNames(glyph, slus) ==>
      CardNames(glyph, slus)[k] == FinishName(CardNameText(glyph, slus, k).value, UnknownName(k))
  {
    CollectMeaning(TotalCards + 1, CardNameEntries(glyph, slus));
  }

  /** A card name fails to decode exactly when the 100-byte window runs past
      the end of the data and no 0xFF comes before the end. */
  lemma {:induction false} CardNameReadable(glyph: byte -> string, slus: seq<byte>, t: nat, i: nat)
    ensures CardNameFrom(glyph, slus, t, i).None? <==>
      i < MaxCardNameLength && |slus| < t + MaxCardNameLength &&
      forall p :: t + i <= p < |slus| ==> slus[p] != 0xFF
    decreases MaxCardNameLength - i
  {
    if i < MaxCardNameLength && t + i < |slus| && slus[t + i] != 0xFF {
      CardNameReadable(glyph, slus, t, i + 1);
      CardNameNext(glyph, slus, t, i);
    }
  }

  // ---------------------------------------------------------------------------
  // Card descriptions
  // ---------------------------------------------------------------------------

  /** The description from position `i` of the text at `t`: ended by 0xFF or
      the 200-byte limit; reaching the end of the data first fails. 0xF8 is
      dropped, 0xFE is a soft space, and 0xFC 0x71 0xD5 reads "for each"
      (checking it reads two bytes ahead, which fails past the end). */
  function DescFrom(glyph: byte -> string, slus: seq<byte>, t: nat, i: nat): Option<string>
    decreases MaxDescLength - i
  {
    if i >= MaxDescLength then Some("")
    else if t + i >= |slus| then None
    else
      var b := slus[t + i];
      if b == 0xFF then Some("")
      else if b == 0xF8 then DescFrom(glyph, slus, t, i + 1)
      else if b == 0xFE then Prepend(SoftSpace(slus, t, i), DescFrom(glyph, slus, t, i + 1))
      else if b == 0xFC && i + 2 < MaxDescLength then
        if t + i + 2 >= |slus| then None
        else if slus[t + i + 1] == 0x71 && slus[t + i + 2] == 0xD5 then Prepend("for each", DescFrom(glyph, slus, t, i + 3))
        else Prepend(glyph(b), DescFrom(glyph, slus, t, i + 1))
      else Prepend(glyph(b), DescFrom(glyph, slus, t, i + 1))
  }

  lemma DescEnd(glyph: byte -> string, slus: seq<byte>, t: nat, i: nat)
    requires i >= MaxDescLength || (t + i < |slus| && slus[t + i] == 0xFF)
    ensures DescFrom(glyph, slus, t, i) == Some("")
  {
  }

  lemma DescOff(glyph: byte -> string, slus: seq<byte>, t: nat, i: nat)
    requires i < MaxDescLength && t + i >= |slus|
    ensures DescFrom(glyph, slus, t, i) == None
  {
  }

  /** The decoded description of card `k`, or None on IndexError. */
  function DescriptionText(glyph: byte -> string, slus: seq<byte>, k: nat): Option<string>
  {
    DescriptionAt(glyph, slus, DescTextBase + LE16At(slus, DescPointerBase + 2 * k))
  }

  /** The description stored at text offset `t`. */
  function DescriptionAt(glyph: byte -> string, slus: seq<byte>, t: nat): Option<string>
  {
    var skip := PrefixSkip(slus, t);
    if skip.None? then None else DescFrom(glyph, slus, t, skip.value)
  }

  /** `desc.strip() if desc else f"Unknown_{k}"` (no title-casing here). */
  function FinishDescription(raw: string, k: nat): string
  {
    if raw != "" then Strip(raw) else UnknownName(k)
  }

  /** A decoded description comes out without surrounding whitespace and is
      empty only when all of it was whitespace; nothing decoded gives
      "Unknown_<k>". */
  lemma FinishDescriptionMeaning(raw: string, k: nat)
    ensures raw == "" ==> FinishDescription(raw, k) == UnknownName(k)
    ensures raw != "" ==> (FinishDescription(raw, k) == "" <==> AllSpace(raw))
    ensures var r := FinishDescription(raw, k);
      raw != "" && r != "" ==> !IsSpace(r[0]) && !IsSpace(r[|r| - 1])
  {
    StripMeaning(raw);
  }

  /** Card `k`'s entry in `self.card_descriptions`: its finished description
      when its pointer fits and its description decodes, else none. */
  function DescriptionEntry(glyph: byte -> string, slus: seq<byte>, k: nat): Option<string>
  {
    if 1 <= k && DescPointerFits(slus, k) && DescriptionText(glyph, slus, k).Some? then
      Some(FinishDescription(DescriptionText(glyph, slus, k).value, k))
    else None
  }

  function DescriptionEntries(glyph: byte -> string, slus: seq<byte>): nat -> Option<string>
  {
    (k: nat) => DescriptionEntry(glyph, slus, k)
  }

  /** `self.card_descriptions`: the entries of cards 1..722. */
  function Descriptions(glyph: byte -> string, slus: seq<byte>): map<nat, string>
  {
    Collect(TotalCards + 1, DescriptionEntries(glyph, slus))
  }

  lemma DescriptionsStop(glyph: byte -> string, slus: seq<byte>, card: nat)
    requires 1 <= card <= TotalCards + 1
    requires card <= TotalCards ==> !DescPointerFits(slus, card)
    ensures Descriptions(glyph, slus) == Collect(card, DescriptionEntries(glyph, slus))
  {
    CollectPastLast(card, TotalCards + 1, DescriptionEntries(glyph, slus));
  }

  /** `self.card_descriptions` has an entry for exactly the cards 1..722
      whose pointer fits and whose description decodes: the decoded text,
      stripped, or "Unknown_<k>" when nothing was decoded. */
  lemma DescriptionsMeaning(glyph: byte -> string, slus: seq<byte>)
    ensures forall k :: k in Descriptions(glyph, slus) <==>
      1 <= k <= TotalCards && DescPointerFits(slus, k) && DescriptionText(glyph, slus, k).Some?
    ensures forall k :: k in Descriptions(glyph, slus) ==>
      Descriptions(glyph, slus)[k] == FinishDescription(DescriptionText(glyph, slus, k).value, k)
  {
    CollectMeaning(TotalCards + 1, DescriptionEntries(glyph, slus));
  }

  /** A description whose 200-byte window lies inside the data always
      decodes. */
  lemma {:induction false} DescWindowReadable(glyph: byte -> string, slus: seq<byte>, t: nat, i: nat)
    requires t + MaxDescLength <= |slus|
    ensures DescFrom(glyph, slus, t, i).Some?
    decreases MaxDescLength - i
  {
    if i < MaxDescLength && slus[t + i] != 0xFF {
      var b := slus[t + i];
      if b == 0xF8 || b == 0xFE {
        DescWindowReadable(glyph, slus, t, i + 1);
      } else if b == 0xFC && i + 2 < MaxDescLength {
        assert t + i + 2 < |slus|;
        if slus[t + i + 1] == 0x71 && slus[t + i + 2] == 0xD5 {
          DescWindowReadable(glyph, slus, t, i + 3);
        } else {
          DescWindowReadable(glyph, slus, t, i + 1);
        }
      } else {
        DescWindowReadable(glyph, slus, t, i + 1);
      }
    }
  }

  /** On text without the control bytes 0xF8, 0xFC and 0xD5 whose window lies
      inside the data, the viewer's decoder and the patcher's older one give
      the same text. */
  lemma {:induction false} DecodersAgreeOnPlainText(glyph: byte -> string, slus: seq<byte>, t: nat, i: nat)
    requires forall b :: glyph(b) == Glyph(b)
    requires t + MaxDescLength <= |slus|
    requires forall p :: t + i <= p < t + MaxDescLength ==> !IsSkipCode(slus[p])
    ensures DescFrom(glyph, slus, t, i) == Some(LegacySpec.DecodeFrom(slus, t, i))
    decreases MaxDescLength - i
  {
    if i < MaxDescLength && slus[t + i] != 0xFF {
      DecodersAgreeOnPlainText(glyph, slus, t, i + 1);
    }
  }

  // ---------------------------------------------------------------------------
  // Opponent names
  // ---------------------------------------------------------------------------

  const OpponentPointerBase: nat := 0x1C6650
  const OpponentCount: nat := 40
  const MaxOpponentNameLength: nat := 50

  /** The opponent name read at `s + i`, `s + i + 1`, ... while `i < 50`:
      ended by 0xFF or 0xFD; reaching the end of the data first fails. */
  function OpponentNameFrom(glyph: byte -> string, slus: seq<byte>, s: nat, i: nat): Option<string>
    decreases MaxOpponentNameLength - i
  {
    if i >= MaxOpponentNameLength then Some("")
    else if s + i >= |slus| then None
    else if slus[s + i] == 0xFF || slus[s + i] == 0xFD then Some("")
    else Prepend(glyph(slus[s + i]), OpponentNameFrom(glyph, slus, s, i + 1))
  }

  lemma OpponentNameEnd(glyph: byte -> string, slus: seq<byte>, s: nat, i: nat)
    requires i >= MaxOpponentNameLength || (s + i < |slus| && (slus[s + i] == 0xFF || slus[s + i] == 0xFD))
    ensures OpponentNameFrom(glyph, slus, s, i) == Some("")
  {
  }

  lemma OpponentNameOff(glyph: byte -> string, slus: seq<byte>, s: nat, i: nat)
    requires i < MaxOpponentNameLength && s + i >= |slus|
    ensures OpponentNameFrom(glyph, slus, s, i) == None
  {
  }

  lemma OpponentNameNext(glyph: byte -> string, slus: seq<byte>, s: nat, i: nat)
    requires i < MaxOpponentNameLength && s + i < |slus| && slus[s + i] != 0xFF && slus[s + i] != 0xFD
    ensures OpponentNameFrom(glyph, slus, s, i) == Prepend(glyph(slus[s + i]), OpponentNameFrom(glyph, slus, s, i + 1))
  {
  }

  /** The name decoded from data position `p` up to, not including, `end`,
      ended early by 0xFF or 0xFD, failing at the end of the data. */
  function TextBetween(glyph: byte -> string, slus: seq<byte>, p: nat, end: nat): Option<string>
    decreases end - p
  {
    if p >= end then Some("")
    else if p >= |slus| then None
    else if slus[p] == 0xFF || slus[p] == 0xFD then Some("")
    else Prepend(glyph(slus[p]), TextBetween(glyph, slus, p + 1, end))
  }

  /** The decoded name of opponent `id`, or None on IndexError. */
  function OpponentNameText(glyph: byte -> string, slus: seq<byte>, id: nat): Option<string>
  {
    OpponentNameAt(glyph, slus, TextBase + LE16At(slus, OpponentPointerBase + 2 * id))
  }

  /** The opponent name stored at text offset `t`: past a leading 0xF8 both
      the offset and the index move on by 3, so decoding starts at `t + 6`. */
  function OpponentNameAt(glyph: byte -> string, slus: seq<byte>, t: nat): Option<string>
  {
    var skip := PrefixSkip(slus, t);
    if skip.None? then None else OpponentNameFrom(glyph, slus, t + skip.value, skip.value)
  }

  /** The decoded opponent name, or "Unknown_<id>" after an IndexError. */
  function RawOpponentName(glyph: byte -> string, slus: seq<byte>, id: nat): string
  {
    var raw := OpponentNameText(glyph, slus, id);
    if raw.None? then UnknownName(id) else raw.value
  }

  /** The name is then finished like any other. */
  function OpponentName(glyph: byte -> string, slus: seq<byte>, id: nat): string
  {
    FinishName(RawOpponentName(glyph, slus, id), UnknownName(id))
  }

  /** Opponent `id`'s name from what its text decodes to. */
  lemma OpponentNameIs(glyph: byte -> string, slus: seq<byte>, id: nat, read: Option<string>)
    requires read == OpponentNameAt(glyph, slus, TextBase + LE16At(slus, OpponentPointerBase + 2 * id))
    ensures OpponentName(glyph, slus, id) ==
      FinishName(if read.Some? then read.value else UnknownName(id), UnknownName(id))
  {
  }

  predicate OpponentPointerFits(slus: seq<byte>, id: nat)
  {
    OpponentPointerBase + 2 * id + 2 <= |slus|
  }

  function OpponentNameEntries(glyph: byte -> string, slus: seq<byte>): nat -> string
  {
    (id: nat) => OpponentName(glyph, slus, id)
  }

  /** How many of the 40 opponent pointers fit in the data. */
  function FittingOpponents(slus: seq<byte>): nat
  {
    if |slus| < OpponentPointerBase + 2 then 0
    else Min(OpponentCount, (|slus| - OpponentPointerBase) / 2)
  }

  /** `self.opponents`: one name per opponent pointer that fits, in order. */
  function Opponents(glyph: byte -> string, slus: seq<byte>): seq<string>
  {
    Tabulate(FittingOpponents(slus), OpponentNameEntries(glyph, slus))
  }

  /** The loop that stops at the first pointer past the data, or after 40,
      has read every opponent that fits. */
  lemma OpponentsStop(glyph: byte -> string, slus: seq<byte>, n: nat)
    requires n <= OpponentCount
    requires n > 0 ==> OpponentPointerFits(slus, n - 1)
    requires n < OpponentCount ==> !OpponentPointerFits(slus, n)
    ensures Opponents(glyph, slus) == Tabulate(n, OpponentNameEntries(glyph, slus))
  {
    assert FittingOpponents(slus) == n;
  }

  /** The opponent list has one entry for exactly the opponents whose pointer
      fits (at most 40), and entry `id` is opponent `id`'s name. */
  lemma OpponentsMeaning(glyph: byte -> string, slus: seq<byte>)
    ensures |Opponents(glyph, slus)| <= OpponentCount
    ensures forall id: nat :: id < |Opponents(glyph, slus)| <==> id < OpponentCount && OpponentPointerFits(slus, id)
    ensures forall id :: 0 <= id < |Opponents(glyph, slus)| ==>
      Opponents(glyph, slus)[id] == OpponentName(glyph, slus, id)
  {
    TabulateMeaning(FittingOpponents(slus), OpponentNameEntries(glyph, slus));
  }

  /** A name that runs off the data is shown as "Unknown_<id>". */
  lemma UnreadableOpponent(glyph: byte -> string, slus: seq<byte>, id: nat)
    requires OpponentNameText(glyph, slus, id).None?
    ensures OpponentName(glyph, slus, id) == UnknownName(id)
  {
    FinishUnknown(id, UnknownName(id));
  }

  /** Which bytes an opponent name is read from, for the text at `t` whose
      prefix check gives `skip`: with no 0xF8 prefix (`skip` 0) the 50 bytes
      from `t`; past a 0xF8 prefix (`skip` 3) the 47 bytes from `t + 6`, so
      the three bytes after the prefix are skipped as well. */
  lemma OpponentNameWindow(glyph: byte -> string, slus: seq<byte>, t: nat, skip: nat)
    requires PrefixSkip(slus, t) == Some(skip)
    ensures skip == 0 || skip == 3
    ensures OpponentNameFrom(glyph, slus, t + skip, skip) == TextBetween(glyph, slus, t + 2 * skip, t + skip + MaxOpponentNameLength)
  {
    NameFromIsBetween(glyph, slus, t + skip, skip, t + 2 * skip, t + skip + MaxOpponentNameLength);
  }

  lemma {:induction false} NameFromIsBetween(glyph: byte -> string, slus: seq<byte>, s: nat, i: nat, p: nat, end: nat)
    requires p == s + i && end == s + MaxOpponentNameLength
    ensures OpponentNameFrom(glyph, slus, s, i) == TextBetween(glyph, slus, p, end)
    decreases MaxOpponentNameLength - i
  {
    if i < MaxOpponentNameLength && s + i < |slus| && slus[s + i] != 0xFF && slus[s + i] != 0xFD {
      NameFromIsBetween(glyph, slus, s, i + 1, p + 1, end);
    }
  }
}
