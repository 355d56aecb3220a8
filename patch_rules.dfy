/** The patcher's rule tables and what each option's parser returns for an
    image: the candidates it considers, in order, filtered by the applied test
    of `PatchSpec.KeepUnapplied`. */
module PatchRules {
  import opened Bytes
  import opened PatchSpec
  import Text

  /** A drop-rate rule: bytes to search for, bytes to write, and its name. */
  datatype SignatureRule = SignatureRule(original: seq<byte>, modified: seq<byte>, name: string)

  /** A fixed-offset rule. */
  datatype AddressRule = AddressRule(address: nat, modified: seq<byte>)

  /** A search rule whose name is given by the option it belongs to. */
  datatype BytePair = BytePair(original: seq<byte>, modified: seq<byte>)

  /** A rule table is usable by the apply loop and keeps the image size. */
  predicate LikeForLike(original: seq<byte>, modified: seq<byte>)
  {
    |original| > 0 && |modified| == |original|
  }

  /** The twelve drop-rate rules; `thousand` selects the values of the "1000"
      drop-rate setting for the three rules that depend on it. */
  function DropRateRules(thousand: bool): (rules: seq<SignatureRule>)
    ensures |rules| == 12
    ensures forall r :: r in rules ==> LikeForLike(r.original, r.modified)
  {
    var v0200D7: seq<byte> := if thousand then [0xE8, 0x03, 0x17, 0x24, 0x02, 0x00, 0xD7, 0x12]
                               else [0x64, 0x00, 0x17, 0x24, 0x02, 0x00, 0xD7, 0x12];
    var v1D00D7: seq<byte> := if thousand then [0xE9, 0x03, 0x17, 0x24, 0x1D, 0x00, 0xD7]
                               else [0x65, 0x00, 0x17, 0x24, 0x1D, 0x00, 0xD7];
    var v0C00D7: seq<byte> := if thousand then [0xE9, 0x03, 0x17, 0x24, 0x0C, 0x00, 0xD7]
                               else [0x65, 0x00, 0x17, 0x24, 0x0C, 0x00, 0xD7];
    [ SignatureRule([0x1B, 0x00, 0x1D, 0x3C, 0x00, 0xAC], [0x1E, 0x80, 0x1D, 0x3C, 0x00, 0xC0], "Drop Rate (1B001D3C00AC)"),
      SignatureRule([0xA3, 0x20, 0x00, 0xB6, 0x93], [0xA7, 0x20, 0x00, 0xB6, 0x97], "Drop Rate (A32000B693)"),
      SignatureRule([0x10, 0x00, 0x17, 0x24, 0x1D, 0x00, 0xD7], v1D00D7, "Drop Rate (1D00D7)"),
      SignatureRule([0xA3, 0x20, 0x00, 0xB6, 0xA3], [0xA7, 0x20, 0x00, 0xB6, 0xA7], "Drop Rate (A32000B6A3)"),
      SignatureRule([0x1B, 0x80, 0x04, 0x3C, 0x00, 0xAC], [0x1E, 0x80, 0x04, 0x3C, 0x00, 0xC0], "Drop Rate (1B80043C00AC)"),
      SignatureRule([0xA2, 0x20, 0x00, 0x56, 0x92], [0xA6, 0x20, 0x00, 0x56, 0x96], "Drop Rate (A220005692)"),
      SignatureRule([0x10, 0x00, 0x17, 0x24, 0x0C, 0x00, 0xD7], v0C00D7, "Drop Rate (0C00D7)"),
      SignatureRule([0xA2, 0x20, 0x00, 0x56, 0xA2], [0xA6, 0x20, 0x00, 0x56, 0xA6], "Drop Rate (A2200056A2)"),
      SignatureRule([0x1B, 0x80, 0x02, 0x3C, 0x00, 0xAC], [0x1E, 0x80, 0x02, 0x3C, 0x00, 0xC0], "Drop Rate (1B80023C00AC)"),
      SignatureRule([0x90, 0x00, 0x00, 0x00, 0x00, 0x01, 0x00, 0xD6, 0x26],
                    [0x94, 0x00, 0x00, 0x00, 0x00, 0x01, 0x00, 0xD6, 0x26], "Drop Rate (90000000000100D626)"),
      SignatureRule([0x0F, 0x00, 0x17, 0x24, 0x02, 0x00, 0xD7, 0x12], v0200D7, "Drop Rate (0200D7)"),
      SignatureRule([0xA0, 0x20, 0x00, 0x56, 0xA0], [0xA4, 0x20, 0x00, 0x56, 0xA4], "Drop Rate (A0200056A0)") ]
  }

  /** The two starchips writes. */
  const StarchipsRules: seq<AddressRule> :=
    [ AddressRule(0xB410, [0x98, 0xFF, 0x06, 0x08, 0x01, 0x00, 0x42, 0x24]),
      AddressRule(0x1B0660,
        [0x04, 0x00, 0x4B, 0x2C, 0x10, 0x00, 0x60, 0x15, 0x00, 0x00, 0x00, 0x00, 0xFF, 0xFF, 0x42, 0x24,
         0x1D, 0x80, 0x0C, 0x3C, 0xE0, 0x07, 0x8C, 0x25, 0x00, 0x00, 0x8D, 0x8D, 0x00, 0x00, 0x00, 0x0A,
         0x00, 0xAD, 0x25, 0x0F, 0x00, 0x0B, 0x3C, 0x3F, 0x42, 0x6B, 0x35, 0x00, 0x00, 0x8D, 0xAD, 0x00,
         0x00, 0x00, 0x00, 0x2B, 0x68, 0x6D, 0x01, 0x02, 0x00, 0xA0, 0x11, 0x00, 0x00, 0x00, 0x00, 0x00,
         0x8B, 0xAD, 0x00, 0x00, 0x0C, 0x24, 0x00, 0x00, 0x0D, 0x24, 0x00, 0x00, 0x0B, 0x24, 0x00, 0x00,
         0x62, 0xA0, 0x2D, 0x86, 0x00, 0x08]) ]

  /** The password-limit write at 0x191E7B0 (26339248). */
  const PasswordRule: AddressRule := AddressRule(0x191E7B0, [0xBE, 0xA9, 0x05, 0x08])

  const WinPairs: seq<BytePair> :=
    [ BytePair([0x90, 0x01, 0x06, 0x24, 0x2A, 0x38, 0xC5, 0x00, 0x03, 0x00, 0xE0, 0x10],
               [0x90, 0x01, 0x06, 0x24, 0x2A, 0x38, 0xC5, 0x00, 0x00, 0x00, 0x00, 0x00]),
      BytePair([0xB8, 0x0B, 0x06, 0x24, 0x2A, 0x38, 0xC5, 0x00, 0x03, 0x00, 0xE0, 0x10],
               [0xB8, 0x0B, 0x06, 0x24, 0x2A, 0x38, 0xC5, 0x00, 0x00, 0x00, 0x00, 0x00]) ]

  const ExodiaPairs: seq<BytePair> :=
    [ BytePair([0x28, 0x00, 0x02, 0x24, 0x23, 0x00, 0x62], [0x81, 0xFF, 0x02, 0x24, 0x23, 0x00, 0x62]),
      BytePair([0x28, 0x00, 0x03, 0x24, 0xFF, 0x00], [0x81, 0xFF, 0x03, 0x24, 0xFF, 0x00]),
      BytePair([0x28, 0x00, 0x02, 0x24, 0x02, 0x00, 0x62], [0x81, 0xFF, 0x02, 0x24, 0x02, 0x00, 0x62]) ]

  const PasswordName := "No Password Limit"
  const WinName := "Win Requirements"
  const ExodiaName := "Exodia S-Tec"

  /** The name a starchips change carries: "Starchips at " and the address in
      Python's `hex` form. */
  function StarchipsName(address: nat): (s: string)
    ensures |s| >= 16 && s[..15] == "Starchips at 0x"
    ensures Text.AllHexDigits(s[15..]) && Text.HexValue(s[15..]) == address
  {
    Text.HexDigitsValue(address);
    var s := "Starchips at " + Text.Hex(address);
    assert s[15..] == Text.HexDigits(address);
    s
  }

  // ---------------------------------------------------------------------------
  // Drop rate: one candidate per stop of the search cursor
  // ---------------------------------------------------------------------------

  /** The cursor loop for one rule, from offset `from`: each stop yields the
      rule's change unless it is applied and not forced. */
  function RuleChanges(iso: seq<byte>, rule: SignatureRule, force: bool, from: nat): (r: seq<Change>)
    requires |rule.original| > 0
    decreases |iso| - from
  {
    var k := Find(iso, rule.original, from);
    if k == -1 then []
    else
      var c := SearchChange(rule.original, rule.modified, rule.name);
      KeepUnapplied(iso, [c], force) + RuleChanges(iso, rule, force, k + |rule.original|)
  }

  /** The cursor stops when no occurrence is left. */
  lemma RuleChangesStop(iso: seq<byte>, rule: SignatureRule, force: bool, from: nat)
    requires |rule.original| > 0 && Find(iso, rule.original, from) == -1
    ensures RuleChanges(iso, rule, force, from) == []
  {
  }

  /** One stop of the cursor at `k`. */
  lemma RuleChangesNext(iso: seq<byte>, rule: SignatureRule, force: bool, from: nat, k: nat, next: nat)
    requires |rule.original| > 0 && Find(iso, rule.original, from) == k && next == k + |rule.original|
    ensures RuleChanges(iso, rule, force, from) ==
              KeepUnapplied(iso, [SearchChange(rule.original, rule.modified, rule.name)], force) +
              RuleChanges(iso, rule, force, next)
  {
  }

  /** What the drop-rate parser returns: the rules in table order, each with
      its cursor's changes. */
  function DropRateChanges(iso: seq<byte>, rules: seq<SignatureRule>, force: bool): seq<Change>
    requires forall r :: r in rules ==> |r.original| > 0
  {
    if rules == [] then []
    else DropRateChanges(iso, rules[..|rules| - 1], force) + RuleChanges(iso, rules[|rules| - 1], force, 0)
  }

  /** Growing the table by one rule appends that rule's changes. */
  lemma DropRateChangesSnoc(iso: seq<byte>, rules: seq<SignatureRule>, force: bool, r: nat)
    requires r < |rules| && forall x :: x in rules ==> |x.original| > 0
    ensures forall x :: x in rules[..r + 1] ==> x in rules
    ensures DropRateChanges(iso, rules[..r + 1], force) == DropRateChanges(iso, rules[..r], force) + RuleChanges(iso, rules[r], force, 0)
  {
    assert rules[..r + 1][..r] == rules[..r];
  }

  /** The applied test never holds at a cursor stop (the original bytes are
      right there), so each rule yields one change per non-overlapping
      occurrence of its original bytes, whether or not re-applying is forced. */
  lemma {:induction false} RuleChangesPerOccurrence(iso: seq<byte>, rule: SignatureRule, force: bool, from: nat)
    requires |rule.original| > 0
    ensures |RuleChanges(iso, rule, force, from)| == |Occurrences(iso, rule.original, from)|
    ensures forall c :: c in RuleChanges(iso, rule, force, from) ==> c == SearchChange(rule.original, rule.modified, rule.name)
    decreases |iso| - from
  {
    var k := Find(iso, rule.original, from);
    if k == -1 {
      RuleChangesStop(iso, rule, force, from);
      OccurrencesStop(iso, rule.original, from);
    } else {
      var next := k + |rule.original|;
      FindAdvances(iso, rule.original, from, k, next);
      RuleChangesNext(iso, rule, force, from, k, next);
      OccurrencesNext(iso, rule.original, from, k, next);
      var c := SearchChange(rule.original, rule.modified, rule.name);
      OccursAtStop(iso, rule.original, k);
      assert !Applied(iso, c);
      KeepUnappliedSingle(iso, c, force);
      RuleChangesPerOccurrence(iso, rule, force, next);
      SameChangeCons(c, RuleChanges(iso, rule, force, next));
    }
  }

  /** A stop of the cursor is an occurrence, so the original bytes occur. */
  lemma OccursAtStop(iso: seq<byte>, pat: seq<byte>, k: nat)
    requires MatchesAt(iso, pat, k)
    ensures Occurs(iso, pat)
  {
  }

  lemma SameChangeCons(c: Change, rest: seq<Change>)
    requires forall x :: x in rest ==> x == c
    ensures |[c] + rest| == 1 + |rest| && forall x :: x in [c] + rest ==> x == c
  {
  }

  // ---------------------------------------------------------------------------
  // Fixed-offset and per-option search rules
  // ---------------------------------------------------------------------------

  function StarchipsCandidates(rules: seq<AddressRule>): (cs: seq<Change>)
    ensures |cs| == |rules|
    ensures forall i :: 0 <= i < |rules| ==> cs[i] == AddressChange(rules[i].address, rules[i].modified, StarchipsName(rules[i].address))
  {
    seq(|rules|, i requires 0 <= i < |rules| => AddressChange(rules[i].address, rules[i].modified, StarchipsName(rules[i].address)))
  }

  function PairCandidates(pairs: seq<BytePair>, name: string): (cs: seq<Change>)
    ensures |cs| == |pairs|
    ensures forall i :: 0 <= i < |pairs| ==> cs[i] == SearchChange(pairs[i].original, pairs[i].modified, name)
  {
    seq(|pairs|, i requires 0 <= i < |pairs| => SearchChange(pairs[i].original, pairs[i].modified, name))
  }

  function PasswordChange(rule: AddressRule): Change
  {
    AddressChange(rule.address, rule.modified, PasswordName)
  }

  /** The password parser: its single change, whatever the image holds. */
  function PasswordChanges(iso: seq<byte>, rule: AddressRule, force: bool): (r: seq<Change>)
    ensures |r| == 1 && r[0].AddressChange? && r[0].address == rule.address && r[0].modified == rule.modified
  {
    [PasswordChange(rule)]
  }

  /** Unlike the other parsers, the password parser is not filtered: on an
      image that already carries the password write, with re-applying not
      forced, the filter would drop the change, yet the parser returns it. */
  lemma PasswordNeverFiltered(iso: seq<byte>, force: bool)
    requires MatchesAt(iso, PasswordRule.modified, PasswordRule.address) && !force
    ensures KeepUnapplied(iso, [PasswordChange(PasswordRule)], force) == []
    ensures PasswordChanges(iso, PasswordRule, force) == [PasswordChange(PasswordRule)]
  {
    assert Applied(iso, PasswordChange(PasswordRule));
  }

  // ---------------------------------------------------------------------------
  // The pending changes of one run
  // ---------------------------------------------------------------------------

  /** Which options are ticked, which drop-rate value is chosen and whether
      re-applying is forced. */
  datatype Options = Options(dropRate: bool, starchips: bool, password: bool, winRequirements: bool,
                             exodia: bool, thousand: bool, force: bool)

  /** Every change can be run by the apply loop and keeps the image size. */
  predicate Runnable(cs: seq<Change>)
  {
    forall c :: c in cs ==> WellFormed(c) && KeepsLength(c)
  }

  predicate AnySelected(o: Options)
  {
    o.dropRate || o.starchips || o.password || o.winRequirements || o.exodia
  }

  /** What each parser returns for the options: nothing when its option is
      not ticked. */
  function DropRatePending(iso: seq<byte>, o: Options): (r: seq<Change>)
    ensures Runnable(r)
  {
    if o.dropRate then
      DropRateChangesShape(iso, DropRateRules(o.thousand), o.force);
      DropRateChanges(iso, DropRateRules(o.thousand), o.force)
    else []
  }

  function StarchipsPending(iso: seq<byte>, o: Options): (r: seq<Change>)
    ensures Runnable(r)
  {
    if o.starchips then
      StarchipsRunnable(iso, o.force);
      KeepUnapplied(iso, StarchipsCandidates(StarchipsRules), o.force)
    else []
  }

  function PasswordPending(iso: seq<byte>, o: Options): (r: seq<Change>)
    ensures Runnable(r)
  {
    if o.password then PasswordChanges(iso, PasswordRule, o.force) else []
  }

  function WinPending(iso: seq<byte>, o: Options): (r: seq<Change>)
    ensures Runnable(r)
  {
    if o.winRequirements then
      PairsRunnable(iso, WinPairs, WinName, o.force);
      KeepUnapplied(iso, PairCandidates(WinPairs, WinName), o.force)
    else []
  }

  function ExodiaPending(iso: seq<byte>, o: Options): (r: seq<Change>)
    ensures Runnable(r)
  {
    if o.exodia then
      PairsRunnable(iso, ExodiaPairs, ExodiaName, o.force);
      KeepUnapplied(iso, PairCandidates(ExodiaPairs, ExodiaName), o.force)
    else []
  }

  /** The pending changes, collected from the selected parsers in the fixed
      order drop rate, starchips, password, win requirements, exodia. Every
      one of them can be run by the apply loop and keeps the image size. */
  function PendingChanges(iso: seq<byte>, o: Options): (r: seq<Change>)
    ensures Runnable(r)
  {
    var d := DropRatePending(iso, o);
    var s := StarchipsPending(iso, o);
    var p := PasswordPending(iso, o);
    var w := WinPending(iso, o);
    var e := ExodiaPending(iso, o);
    RunnableConcat(d, s);
    RunnableConcat(d + s, p);
    RunnableConcat(d + s + p, w);
    RunnableConcat(d + s + p + w, e);
    d + s + p + w + e
  }

  lemma RunnableConcat(a: seq<Change>, b: seq<Change>)
    requires Runnable(a) && Runnable(b)
    ensures Runnable(a + b)
  {
  }

  lemma {:induction false} DropRateChangesShape(iso: seq<byte>, rules: seq<SignatureRule>, force: bool)
    requires forall r :: r in rules ==> |r.original| > 0 && |r.modified| == |r.original|
    ensures Runnable(DropRateChanges(iso, rules, force))
  {
    if rules != [] {
      var last := rules[|rules| - 1];
      assert last in rules;
      assert forall r :: r in rules[..|rules| - 1] ==> r in rules;
      DropRateChangesShape(iso, rules[..|rules| - 1], force);
      RuleChangesPerOccurrence(iso, last, force, 0);
    }
  }

  lemma StarchipsRunnable(iso: seq<byte>, force: bool)
    ensures Runnable(KeepUnapplied(iso, StarchipsCandidates(StarchipsRules), force))
  {
    var cs := StarchipsCandidates(StarchipsRules);
    KeepUnappliedMeaning(iso, cs, force);
    forall c | c in KeepUnapplied(iso, cs, force) ensures WellFormed(c) && KeepsLength(c) {
      var i :| 0 <= i < |cs| && cs[i] == c;
    }
  }

  lemma PairsRunnable(iso: seq<byte>, pairs: seq<BytePair>, name: string, force: bool)
    requires forall i :: 0 <= i < |pairs| ==> LikeForLike(pairs[i].original, pairs[i].modified)
    ensures Runnable(KeepUnapplied(iso, PairCandidates(pairs, name), force))
  {
    var cs := PairCandidates(pairs, name);
    KeepUnappliedMeaning(iso, cs, force);
    forall c | c in KeepUnapplied(iso, cs, force) ensures WellFormed(c) && KeepsLength(c) {
      var i :| 0 <= i < |cs| && cs[i] == c;
    }
  }
}
