# YGOISOPatcher, modelled in Dafny

YGOISOPatcher is a desktop tool for the PlayStation game *Yu-Gi-Oh! Forbidden
Memories*. Two revisions of its one class are modelled side by side.

- **The patcher** (`tempChanges.py`) patches a disc image.
  - It holds rule tables for five options: drop rate, starchips, no password
    limit, win requirements and Exodia S-Tec.
  - It decides whether each rule is already applied.
  - It turns the ticked options into a list of changes and rewrites the image
    byte by byte.
  - It logs every write with the bytes it replaced, and reversal writes those
    bytes back.
  - It has its own description decoder and an equip index.
- **The viewer** (`updated_dropLook.py`) decodes game data.
  - It reads type, guardian-star, card, description and opponent text from the
    executable `SLUS_014.11`, using the game's glyph table.
  - It reads card stats from the same file, and costs and passwords from the
    archive `WA_MRG.MRG`.
  - It reads deck and drop tables, and builds an index from each card to the
    opponents that drop it, per rarity tier.

Files are byte sequences (`seq<bv8>`). A read `f.seek(o); f.read(n)` is the
slice `buf[o .. min(o + n, |buf|)]` (`Bytes.Slice`). Both sides are modelled in
two layers:

- Functions over byte sequences state what each table *is*. These are the
  `*Spec` modules and `PatchRules`.
- Classes with the source's own fields load the tables with the source's own
  loops. `TempChanges.Patcher` and `DropLook.Viewer` are proved to leave
  exactly the table the spec function describes. `DropTables` holds the
  table-parsing loops the viewer shares.

Modules:

- `Bytes`: little-endian reads, slicing, `bytearray` slice assignment,
  `bytes.find`, the map and list a counting loop builds, and what `open`
  yields for a chosen file.
- `Text`: the glyph table and `?[0x..]` placeholders, `str(n)`,
  zero-padding, `hex`, `strip`, `title` and `replace`.
- `PatchSpec`: the applied test, the apply loop, the log, and reversal with
  its round trip.
- `PatchRules`: the rule tables and what each option's parser returns.
- `TempChanges`: class `Patcher`.
- `GameData`: the card count and the description table's layout, shared by
  both revisions.
- `LegacySpec`: the patcher's description decoder and equip index.
- `DecodeSpec`: the viewer's text decoders.
- `TableSpec`: stats, passwords, deck and drop tables, and the dropper
  index.
- `DropTables`: `parse_deck`, `parse_drop_chances` and the dropper loop.
- `DropLook`: class `Viewer`.

Three behaviours of the code are easy to misread:

- **Descriptions are not title-cased.** The viewer strips descriptions but
  does not title-case them (`updated_dropLook.py:424`). Only names are
  title-cased.
- **Opponent 0 has drop entries.** The dropper index in force includes
  opponent 0 (`updated_dropLook.py:970`); the patcher revision starts at 1.
  `TableSpec.RevisionsDiffer` states the difference exactly.
- **Decoding can fail.** A card name or description whose bytes run off the
  file raises `IndexError`, and the card gets no entry. Decoding does not
  always yield a glyph or a placeholder.

Three branches of the patcher's description decoder cannot run, and the model
shows this with an `assert false` in each:

- the "Increase the power of" phrase test;
- the "when summoned" phrase test;
- the `FC .. D5` word test.

Each phrase test compares an 8-byte window with a longer code. The `FC` test
is always preceded by the two-byte skip of `F8`/`D5`/`FC`.

Reversal (`apply_reversal`) re-reads the file at `iso_path`. That is the
unpatched input unless the user selected the patched file again. The model
takes that image as a parameter and proves two lemmas about it:

- `TempChanges.PatchedRunReverts`: on the patched image, reversal restores the
  input.
- `TempChanges.ReversalOnInputIsIdentity`: on the input itself, reversal
  leaves it unchanged.

## Model

| member | source | states |
|---|---|---|
| Bytes.Slice | updated_dropLook.py:750-751 | a seek-and-read returns at most n bytes, fewer or none past the end, each equal to the file's byte at that offset |
| Bytes.LittleEndian | updated_dropLook.py:238 | the little-endian value of k bytes is below 256^k |
| Bytes.Find | tempChanges.py:488 | `find` returns -1 or an offset at or after the cursor where the pattern matches |
| Bytes.FindFirst | tempChanges.py:488 | no match lies between the cursor and the offset found, nor anywhere past the cursor when -1 is returned |
| Bytes.FindFromStart | tempChanges.py:272-274 | `find(pat) != -1` exactly when the pattern occurs somewhere in the buffer |
| Bytes.Splice | tempChanges.py:492 | slice assignment changes the buffer's length by the difference between the new and replaced lengths |
| Bytes.SpliceParts | tempChanges.py:492 | slice assignment keeps the bytes before and after the region and puts the new bytes in its place |
| Bytes.SpliceAt | tempChanges.py:468 | a same-length slice assignment changes exactly the bytes of its region |
| Text.NatToStringValue | updated_dropLook.py:1115 | `f"{n}"` is a digit string that denotes n |
| Text.NatToStringInjective | updated_dropLook.py:1115 | distinct numbers have distinct decimal texts |
| Text.ZeroPaddedValue | updated_dropLook.py:764 | the zero-padded code still denotes the number |
| Text.ZeroPadded | updated_dropLook.py:764 | `f"{n:08d}"` is all digits and exactly max(8, digits of n) long |
| Text.HexDigitsValue | updated_dropLook.py:256 | `hex` writes lower-case hex digits that read back as the number |
| Text.PlaceholderRecoversByte | updated_dropLook.py:256 | an unmapped byte becomes `?[0x..]`, whose hex digits read back as the byte |
| Text.StripMeaning | updated_dropLook.py:263 | `strip()` is a middle part of the text, cut only at whitespace, with no whitespace at either end, and empty exactly when the text is all whitespace |
| Text.StripUnpadded | updated_dropLook.py:263 | stripping a text without whitespace at either end leaves it unchanged |
| Text.TitleFromMeaning | updated_dropLook.py:263 | `title()` lower-cases every character that follows a letter and upper-cases every other character |
| Text.TitleKeepsSpaces | updated_dropLook.py:263 | title-casing keeps the length and the positions of whitespace |
| Text.TitleUnknown | updated_dropLook.py:887 | `"Unknown_<n>".title()` is the text itself |
| Text.ReplaceAllMeaning | tempChanges.py:807-808 | `replace` leaves a text without the pattern unchanged, never lengthens it when the replacement is no longer, and keeps its length when both are equally long |
| Text.ReplaceAllFirst | tempChanges.py:807-808 | `replace` rewrites the first match: the text before it, then the replacement, then the rest of the text with its own matches replaced |
| PatchSpec.CheckOverlap | tempChanges.py:269-275 | a search rule counts as applied exactly when its modified bytes occur somewhere and its original bytes occur nowhere; the original bytes are returned |
| PatchSpec.CheckOverlapAddress | tempChanges.py:277-284 | an address rule yields the current bytes exactly when the region fits, and is applied exactly when they equal the modified bytes |
| PatchSpec.KeepUnappliedMeaning | tempChanges.py:386-390 | the parsers keep exactly the candidates that are not applied, or all of them when re-applying is forced |
| PatchSpec.Occurrences | tempChanges.py:316-332 | the drop-rate parser's cursor stops only at matches, in increasing order, never overlapping |
| PatchSpec.OccurrencesComplete | tempChanges.py:316-332 | every match past the parser's cursor overlaps one of its stops, so no match is missed |
| PatchSpec.ApplySearch | tempChanges.py:483-501 | the search branch never grows the image and keeps its length when the modified bytes are at least as long as the original |
| PatchSpec.ApplySearchLocations | tempChanges.py:486-501 | with a replacement at least as long as the pattern, the search branch writes at exactly the cursor's stops on the image it started from, although it rewrites the image as it goes |
| PatchSpec.ApplySearchReplacesEvery | tempChanges.py:486-501 | every match of the original bytes past the cursor lies inside a rewritten region |
| PatchSpec.ApplySearchLength | tempChanges.py:486-501 | with a shorter replacement the image shrinks by the difference per rewrite, so it keeps its length exactly when nothing matched |
| PatchSpec.ApplySearchShape | tempChanges.py:486-501 | each search record holds the rule's original bytes and `modified[:len(original)]`, and the records' offsets increase without overlapping |
| PatchSpec.ApplyAddress | tempChanges.py:465-482 | an address change out of range writes and logs nothing; otherwise it writes the modified bytes, changes nothing else, and logs the bytes it overwrote |
| PatchSpec.ApplyAll | tempChanges.py:464-503 | the apply loop keeps the image's length when every change is like-for-like |
| PatchSpec.ApplyAllLogs | tempChanges.py:464-503 | the log records exactly what was overwritten, and replaying it on the input gives the patched image |
| PatchSpec.ApplySearchLogs | tempChanges.py:486-501 | the search branch's records capture the replaced bytes, and replaying them gives its result |
| PatchSpec.CapturedOriginals | tempChanges.py:490-491 | every logged original is what the input image holds at that record's offset |
| PatchSpec.ReplayAt | tempChanges.py:464-503 | after patching, a byte holds what the record covering it wrote, or its old value when no record covers it |
| PatchSpec.Revert | tempChanges.py:536-556 | reversal keeps the image's length, counts at most one per record, counts every record when all are selected and fit, and does nothing when none is selected |
| PatchSpec.RevertCount | tempChanges.py:536-556 | the count is exactly the number of selected records that fit in the image; records past its end are skipped uncounted |
| PatchSpec.RevertAt | tempChanges.py:538-556 | for any log of non-overlapping records, after reversal a byte covered by a selected record that fits holds that record's original byte, whatever records lie past the end |
| PatchSpec.RevertOutside | tempChanges.py:538-556 | for any log, overlapping or not, a byte that no selected record fitting the image covers keeps its value through reversal |
| PatchSpec.RevertUnpatched | tempChanges.py:536-556 | reversing a log on the image it was taken from changes nothing |
| PatchSpec.RevertRestores | tempChanges.py:536-556 | with non-overlapping records all selected, reversal undoes the patches exactly and counts every record |
| PatchSpec.RoundTrip | tempChanges.py:536-556 | applying like-for-like changes and then reversing their non-overlapping log restores the input image |
| PatchSpec.SearchLogDisjoint | tempChanges.py:486-501 | one search rule's records never touch a byte twice and all carry the rule's name |
| PatchSpec.SingleChangeRoundTrip | tempChanges.py:536-556 | a single like-for-like change always round-trips |
| PatchRules.DropRateRules | tempChanges.py:292-314 | there are twelve drop-rate rules, each with non-empty, same-length original and modified bytes |
| PatchRules.StarchipsName | tempChanges.py:343 | a starchips change is named "Starchips at 0x" followed by hex digits that read back as its address |
| PatchRules.RuleChangesPerOccurrence | tempChanges.py:316-332 | the drop-rate parser yields one identical change per non-overlapping occurrence of the rule's original bytes, whatever `force_apply` says |
| PatchRules.StarchipsCandidates | tempChanges.py:339-344 | one address candidate per starchips rule, in table order, with its address, bytes and name |
| PatchRules.PairCandidates | tempChanges.py:380-384 | one search candidate per win or Exodia rule, in table order, named after the option |
| PatchRules.PasswordChanges | tempChanges.py:357-374 | the password parser returns its single change at 0x191E7B0 |
| PatchRules.PasswordNeverFiltered | tempChanges.py:369-374 | even when the password patch is applied and not forced, so the filter would drop it, the parser still returns it |
| PatchRules.PendingChanges | tempChanges.py:435-448 | every change the parsers hand to the apply loop can be run and keeps the image size |
| PatchRules.DropRateChangesShape | tempChanges.py:316-332 | drop-rate changes are all like-for-like search changes |
| PatchRules.StarchipsRunnable | tempChanges.py:119-127 | the starchips changes can all be run |
| PatchRules.PairsRunnable | tempChanges.py:128-136 | win and Exodia changes from like-for-like pairs can all be run |
| TempChanges.Patcher.ParseDropRateChanges | tempChanges.py:286-333 | the drop-rate parser returns nothing when its option is off, else each rule's changes in table order |
| TempChanges.Patcher.ParseRule | tempChanges.py:316-332 | the cursor loop over one rule yields the changes of `RuleChanges` |
| TempChanges.Patcher.KeepIfUnapplied | tempChanges.py:350-355 | one step of a parser's loop extends the filtered list by that candidate's verdict |
| TempChanges.Patcher.ParseStarchipsPatches | tempChanges.py:335-355 | the starchips parser returns the candidates that are not applied, or all when forced |
| TempChanges.Patcher.ParsePasswordPatch | tempChanges.py:357-374 | the password parser returns its change whenever its option is on |
| TempChanges.Patcher.ParsePairs | tempChanges.py:380-390 | a pair parser's loop keeps the candidates that are not applied, or all when forced |
| TempChanges.Patcher.ParseWinPatches | tempChanges.py:376-391 | the win parser returns the win pairs that are not applied |
| TempChanges.Patcher.ParseExodiaPatches | tempChanges.py:393-408 | the Exodia parser returns the Exodia pairs that are not applied |
| TempChanges.Patcher.ApplySearchChange | tempChanges.py:483-501 | the search branch leaves the image `ApplySearch` describes and appends its records to the log |
| TempChanges.Patcher.ApplyAddressChange | tempChanges.py:465-482 | the address branch leaves the image `ApplyAddress` describes and appends its record to the log |
| TempChanges.Patcher.ApplyChanges | tempChanges.py:464-503 | the apply loop leaves the image `ApplyAll` describes and appends its log |
| TempChanges.Patcher.CheckAndPatchIso | tempChanges.py:410-515 | with no option ticked, or nothing pending, nothing is patched; otherwise the log restarts, and the patched image has the input's length and is the replay of the new log on the input |
| TempChanges.Patcher.ApplyReversal | tempChanges.py:536-556 | the reversal loop returns the image and count `Revert` describes |
| TempChanges.Patcher.ReversePatches | tempChanges.py:517-569 | reversal refuses exactly when the log is empty |
| TempChanges.Patcher.DecodeDescription | tempChanges.py:736-798 | the decoding loop yields `LegacySpec.DecodeFrom`, with its three dead branches shown unreachable |
| TempChanges.Patcher.DecodeStep | tempChanges.py:742-798 | one pass of the loop body moves the cursor forward, at most to 200, and keeps the decoded text on course |
| TempChanges.Patcher.WindowMissesPhrases | tempChanges.py:747-759 | an 8-byte window never equals the 15-byte or 21-byte phrase code |
| TempChanges.Patcher.DecodeByte | tempChanges.py:764-798 | a byte that is not skipped adds a soft space or its glyph |
| TempChanges.Patcher.ReadDescription | tempChanges.py:724-809 | one card's description is its decoded, replaced and stripped text |
| TempChanges.Patcher.LoadCardDescriptions | tempChanges.py:712-816 | the loop leaves exactly `LegacySpec.Descriptions` and changes no other field |
| TempChanges.Patcher.ReverseLookupEquips | tempChanges.py:1332-1378 | the loop returns the equip index `EquipIndexOf`; when the archive cannot be opened the caught exception yields an empty index |
| TempChanges.Patcher.ReadField | tempChanges.py:1348-1372 | one field table's record loop adds exactly that table's records |
| TempChanges.Patcher.ReadMaterials | tempChanges.py:1356-1363 | the material loop returns the non-zero ids in slot order |
| TempChanges.Patcher.AddMaterials | tempChanges.py:1367-1372 | each material gets the equip's pair once, with the key created when missing |
| TempChanges.PatchedRunReverts | tempChanges.py:536-556 | reversing a run's non-overlapping log on the patched image restores the input and counts every patch |
| TempChanges.ReversalOnInputIsIdentity | tempChanges.py:537-538 | reversing a run's log on the unpatched input leaves it unchanged |
| GameData.SoftSpace | tempChanges.py:764-770 | 0xFE becomes one space exactly when the bytes before and after it exist and are non-zero, else nothing |
| LegacySpec.DecodeReadsWindow | tempChanges.py:739-798 | the decoder reads nothing outside the description's 200-byte window and the byte before the cursor |
| LegacySpec.FinishDescription | tempChanges.py:807-809 | an empty text becomes "Unknown_<card>"; any other text is replaced and stripped, with no whitespace left at either end |
| LegacySpec.Descriptions | tempChanges.py:723-727 | there is an entry for exactly the cards 1..722 whose pointer fits |
| LegacySpec.PointerFitsDownward | tempChanges.py:723-727 | once a pointer does not fit, no later one does |
| LegacySpec.DescriptionsUpTo | tempChanges.py:723-727 | the loop that stops at the first pointer past the data has loaded every description |
| LegacySpec.MaterialsMeaning | tempChanges.py:1356-1363 | the materials are exactly the non-zero 16-bit ids among the record's slots |
| LegacySpec.FieldRecordsNonZero | tempChanges.py:1352-1354 | no record carries equip id 0 |
| LegacySpec.AddPairKeeps | tempChanges.py:1369-1372 | adding a pair for one card keeps the lists duplicate-free and in order, and adds exactly that pair |
| LegacySpec.AddRecordKeeps | tempChanges.py:1367-1372 | adding a record gives each of its materials the equip's pair once and changes nothing else |
| LegacySpec.AddRecordsKeeps | tempChanges.py:1347-1372 | adding records keeps the lists duplicate-free and in order, and each card gets exactly the pairs of the records that list it |
| LegacySpec.EquipIndexMeaning | tempChanges.py:1332-1374 | the equip index lists, for each card, exactly the equips whose records name it, each once |
| DecodeSpec.FinishNameMeaning | updated_dropLook.py:263 | an empty name becomes the fallback; any other name is stripped, title-cased, no longer than before, with no whitespace left at either end, and empty exactly when it was all whitespace |
| DecodeSpec.FinishUnknown | updated_dropLook.py:885-887 | an "Unknown_<id>" name survives finishing unchanged |
| DecodeSpec.LabelWindow | updated_dropLook.py:243-258 | a label never reads past its 50-byte window |
| DecodeSpec.TypeNamesStop | updated_dropLook.py:232-236 | the type loop that stops at the first pointer past the data has loaded every type |
| DecodeSpec.StarNamesStop | updated_dropLook.py:271-275 | the same holds for the guardian-star loop |
| DecodeSpec.TypeNamesMeaning | updated_dropLook.py:232-264 | types are keyed 0..23, with an entry for exactly the types whose pointer fits, holding that type's finished label |
| DecodeSpec.StarNamesMeaning | updated_dropLook.py:271-303 | guardian stars are keyed 1..10, one above their pointer index, with an entry for exactly the stars whose pointer fits |
| DecodeSpec.CardNamesStop | updated_dropLook.py:319-323 | the card loop that stops at the first pointer past the data has loaded every card |
| DecodeSpec.CardNamesMeaning | updated_dropLook.py:316-358 | there is a name for exactly the cards 1..722 whose pointer fits and whose text decodes, and it is the stripped, title-cased text |
| DecodeSpec.CardNameReadable | updated_dropLook.py:336-351 | a name fails exactly when its 100-byte window runs off the data before any 0xFF |
| DecodeSpec.FinishDescriptionMeaning | updated_dropLook.py:424 | an empty description becomes "Unknown_<k>"; any other is stripped, not title-cased |
| DecodeSpec.DescriptionsStop | updated_dropLook.py:372-376 | the description loop that stops at the first pointer past the data has loaded every card |
| DecodeSpec.DescriptionsMeaning | updated_dropLook.py:369-432 | there is a description for exactly the cards whose pointer fits and whose text decodes |
| DecodeSpec.DescWindowReadable | updated_dropLook.py:391-416 | a description whose 200-byte window lies inside the data always decodes |
| DecodeSpec.DecodersAgreeOnPlainText | updated_dropLook.py:391-416 | on text without control codes, the two revisions' description decoders agree |
| DecodeSpec.OpponentsStop | updated_dropLook.py:853-858 | the opponent loop that stops at the first pointer past the data, or after 40, has read every opponent |
| DecodeSpec.OpponentsMeaning | updated_dropLook.py:851-892 | the list has at most 40 entries, one for exactly each opponent whose pointer fits, in pointer order |
| DecodeSpec.UnreadableOpponent | updated_dropLook.py:883-887 | a name that runs off the data is shown as "Unknown_<id>" |
| DecodeSpec.OpponentNameWindow | updated_dropLook.py:869-873 | after an 0xF8 prefix both the index and the offset move on by 3, so the name starts 6 bytes in |
| TableSpec.FieldsBounds | updated_dropLook.py:453-465 | ATK and DEF are multiples of 10 up to 5110; the guardian-star ids are below 16 and the type id below 32 |
| TableSpec.FieldsOfPack | updated_dropLook.py:453-465 | unpacking a packed stat word gives back the packed fields |
| TableSpec.PackOfFields | updated_dropLook.py:453-465 | the fields cover every bit of the word except bit 31 |
| TableSpec.StatsFitDownward | updated_dropLook.py:447-450 | once a card's stat entry does not fit, no later card's does |
| TableSpec.StatsStop | updated_dropLook.py:445-472 | the stats loop that stops at the first card that does not fit has loaded every card |
| TableSpec.StatsTableMeaning | updated_dropLook.py:445-487 | there are stats for exactly the cards 1..722 whose stat entry and level byte fit, read from them |
| TableSpec.StatsWordComplete | updated_dropLook.py:448-453 | the bounds check reads `rec+4`, yet the stat word read from `rec+2` is always whole for a card that fits |
| TableSpec.PasswordsStop | updated_dropLook.py:749-754 | the password loop that stops at the first short read has loaded every card |
| TableSpec.PasswordsMeaning | updated_dropLook.py:749-765 | there is an entry for exactly the cards whose 8 bytes can be read, holding the cost and code read from them |
| TableSpec.CodeTextMeaning | updated_dropLook.py:764 | 0xFFFFFFFE shows as "No Password"; any other code as at least 8 digits that denote it |
| TableSpec.CodeTextInjective | updated_dropLook.py:764 | two codes show the same text only when they are equal |
| TableSpec.DeckUpTo | updated_dropLook.py:1084-1093 | `parse_deck` keeps exactly the non-zero slots of the cards readable before the first short slot, uncapped |
| TableSpec.DropChancesUpTo | updated_dropLook.py:1095-1117 | `parse_drop_chances` does the same, with capped chances in decimal |
| TableSpec.DropChancesMeaning | updated_dropLook.py:1104-1115 | the drop table has the deck's keys, and each chance denotes the slot value capped at 2048, between 1 and 2048 |
| TableSpec.SlotsAgree | updated_dropLook.py:1104-1110 | slots read from a longer read of the same table agree with those of a 1444-byte read |
| TableSpec.DropReadLength | updated_dropLook.py:1104-1117 | reading more than 1444 bytes per table gives the same chances |
| TableSpec.TierTablesReadLength | updated_dropLook.py:976-977 | each tier's tables are the same whether 1444 bytes or more are read |
| TableSpec.DropListMeaning | updated_dropLook.py:970-1003 | each dropper entry names an opponent and carries a chance from 1 to 2048, with at most one entry per opponent |
| TableSpec.DropListFromZero | updated_dropLook.py:970 | starting at opponent 0 puts opponent 0's entry first and changes nothing else |
| TableSpec.RevisionsDiffer | updated_dropLook.py:970-1003 | a card's list in the viewer revision is the patcher revision's list with opponent 0's entry in front |
| DropTables.ParseDeck | updated_dropLook.py:1084-1093 | the loop returns `Deck` |
| DropTables.ParseDropChances | updated_dropLook.py:1095-1117 | the loop returns `DropChances` |
| DropTables.AddDroppers | updated_dropLook.py:982-983 | each listed card's list for the tier gets `(name, chance)` at its end, and every other list is unchanged |
| DropTables.EmptyIndex | updated_dropLook.py:963-965 | every card 1..722 starts with three empty lists |
| DropTables.AddOpponent | updated_dropLook.py:970-1003 | one opponent's three tables extend each list by that opponent's entry |
| DropTables.AddTier | updated_dropLook.py:975-983 | one tier's table, read from the opponent's block, is appended |
| DropTables.DroppersFor | updated_dropLook.py:961-1003 | the dropper loop returns `DropperIndex`; when the archive cannot be opened, every list stays empty |
| DropTables.DropChancesInRange | updated_dropLook.py:1104-1115 | a drop table names cards 1..722 only |
| DropLook.Viewer.LoadTypeGuardianStarNames | updated_dropLook.py:221-307 | loading leaves exactly `TypeNames` and `StarNames` under the viewer's glyph table |
| DropLook.Viewer.ReadTypeNames | updated_dropLook.py:230-264 | the type loop returns `TypeNames` |
| DropLook.Viewer.TypeNameFor | updated_dropLook.py:238-264 | one type's entry is its finished label, or "Unknown Type <id>" |
| DropLook.Viewer.ReadStarNames | updated_dropLook.py:268-303 | the guardian-star loop returns `StarNames` |
| DropLook.Viewer.StarNameFor | updated_dropLook.py:277-303 | one star's entry is its finished label under key `gs + 1` |
| DropLook.Viewer.ReadLabel | updated_dropLook.py:243-258 | the label loop returns `LabelFrom` |
| DropLook.Viewer.PrefixLength | updated_dropLook.py:869-870 | the 0xF8 prefix test skips 3 bytes or none, and fails when the bytes after the start are missing |
| DropLook.Viewer.LoadCardNames | updated_dropLook.py:310-360 | loading leaves exactly `CardNames` |
| DropLook.Viewer.ReadCardNames | updated_dropLook.py:316-358 | the card loop returns `CardNames` |
| DropLook.Viewer.CardNameFor | updated_dropLook.py:324-354 | one card's entry is its finished name, or none after IndexError |
| DropLook.Viewer.ReadCardName | updated_dropLook.py:333-351 | the name loop returns `CardNameAt` |
| DropLook.Viewer.LoadCardDescriptions | updated_dropLook.py:362-434 | loading leaves exactly `Descriptions` |
| DropLook.Viewer.ReadDescriptions | updated_dropLook.py:369-432 | the card loop returns `Descriptions` |
| DropLook.Viewer.DescriptionFor | updated_dropLook.py:377-425 | one card's entry is its stripped description, or none after IndexError |
| DropLook.Viewer.ReadDescription | updated_dropLook.py:386-422 | the description loop returns `DescriptionAt` |
| DropLook.Viewer.DescriptionStep | updated_dropLook.py:392-416 | one pass of the loop body moves the cursor forward, and fails only where the decoder fails |
| DropLook.Viewer.LoadOpponentNames | updated_dropLook.py:843-893 | loading leaves exactly `Opponents` |
| DropLook.Viewer.ReadOpponentNames | updated_dropLook.py:851-892 | the opponent loop returns `Opponents` |
| DropLook.Viewer.OpponentNameFor | updated_dropLook.py:855-887 | one opponent's entry is `OpponentName` |
| DropLook.Viewer.ReadOpponentName | updated_dropLook.py:865-885 | the name loop returns `OpponentNameAt` |
| DropLook.Viewer.LoadCardStats | updated_dropLook.py:436-497 | loading leaves exactly `StatsTable` over the type and star maps loaded so far |
| DropLook.Viewer.ReadCardStats | updated_dropLook.py:445-487 | the stats loop returns `StatsTable` |
| DropLook.Viewer.CardStatsFor | updated_dropLook.py:447-487 | one card's entry is its unpacked stat word and level byte |
| DropLook.Viewer.LoadCardPasswordsAndCosts | updated_dropLook.py:737-772 | without an archive path the table is left as it was; an archive that cannot be opened leaves it empty; a readable one makes it exactly `Passwords` |
| DropLook.Viewer.ReadPasswords | updated_dropLook.py:747-765 | the password loop returns `Passwords` |
| DropLook.Viewer.PasswordEntryFor | updated_dropLook.py:757-765 | one card's entry is its cost and code text |
| DropLook.Viewer.PrecomputeCardDroppers | updated_dropLook.py:961-1003 | the droppers become `DropperIndex` over every opponent from 0, reading 1444 bytes per table; with no archive or one that cannot be opened every list is empty |

## Left out

- The tkinter layer is not modelled: windows, buttons, treeviews, search and
  filter, message boxes, status labels and `root.update`.
- File handling is not modelled: paths, `open`, `os.path`, and the
  `_Patched`/`_Reversed` output files. Each file is a byte sequence given as a
  parameter, and a written file is the method's resulting image.
- `print` diagnostics are not modelled. They change no state.
- PIL images and `get_card_image_path` are not modelled. They involve image
  handling only.
- The patch methods of `updated_dropLook.py:590-603` are not modelled. They
  are stubs that touch no bytes.
- The first `precompute_card_droppers` of `updated_dropLook.py:499-534` is not
  modelled. The definition at line 961 shadows it.
- The patcher's unused tables `drop_rate_patches`, `drop_chances` and
  `game_info_offsets` (`tempChanges.py:60-115`) are not modelled. The
  drop-rate parser uses its own table.
- The patcher revision's copies of the other loaders (names, stats, opponents,
  passwords, deck and drop tables) are not modelled separately. The viewer's
  versions are. The patcher's dropper index differs only in its first
  opponent and its read length, as `TableSpec.RevisionsDiffer` states.
- The glyph table is a parameter of the text decoders. The viewer holds it in
  its `charMap` field, set to the game's table. The spec functions take the
  glyph function the viewer builds from that field.
- `Text.StripMeaning` treats only ASCII whitespace as whitespace, with `\x1c`
  to `\x1f` included as in `str.isspace`. All glyphs are ASCII.
- `Text.TitleFromMeaning` models ASCII-only title-casing, for the same
  reason.
- Exceptions are modelled only where the source catches them. An `IndexError`
  in a decoder is a failed decoding (`None`). The WA_MRG file the viewer is
  given is a `FileChoice`: none chosen, chosen but `open` raises, or readable
  contents. With none chosen the password table keeps its old contents. With
  one that cannot be opened, the password table and the dropper lists end up
  empty. The patcher's equip lookup takes `None` for a failed `open` and
  returns an empty index. Why `open` fails is not modelled.
- The "1000" drop-rate choice and `force_apply` are modelled as fields of
  `PatchRules.Options`, not as widget state.
- TempChanges.Patcher.CheckAndPatchIso: the check that the ISO path exists and
  the write of the output file are not modelled. The image is a parameter.
- TempChanges.Patcher.ReversePatches: the dialog that chooses names is not
  modelled. The selected names are a parameter.
- The three unreachable branches of the patcher's description decoder are not
  modelled beyond the proof that they cannot run. Neither is the
  `liNUMBERl`/`leWORDl`/`loPHRASEl` sub-decoder inside one of them.
