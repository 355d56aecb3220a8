/** The game's 8-bit text encoding (the glyph table shared by both revisions of
    the viewer) and the few Python string operations the decoders apply to
    their output: `hex`, `str` of an integer, zero padding, `strip`, `title`
    and `replace`. All glyphs are ASCII, so the string operations are modelled
    on ASCII exactly. */
module Text {
  import opened Bytes

  /** `self.char_map`: byte value to display string. 0xFF, the terminator,
      maps to the empty string; the decoders stop on it before looking it up. */
  const CharMap: map<byte, string> :=
    map[0x18 := "A", 0x2D := "B", 0x2B := "C", 0x20 := "D", 0x25 := "E", 0x31 := "F", 0x29 := "G",
      0x23 := "H", 0x1A := "I", 0x3B := "J", 0x33 := "K", 0x2A := "L", 0x1E := "M", 0x2C := "N",
      0x21 := "O", 0x2F := "P", 0x3E := "Q", 0x26 := "R", 0x1D := "S", 0x1C := "T", 0x35 := "U",
      0x39 := "V", 0x22 := "W", 0x46 := "X", 0x24 := "Y", 0x3F := "Z", 0x03 := "a", 0x15 := "b",
      0x0F := "c", 0x0C := "d", 0x01 := "e", 0x13 := "f", 0x10 := "g", 0x09 := "h", 0x05 := "i",
      0x34 := "j", 0x16 := "k", 0x0A := "l", 0x0E := "m", 0x06 := "n", 0x04 := "o", 0x14 := "p",
      0x37 := "q", 0x08 := "r", 0x07 := "s", 0x02 := "t", 0x0D := "u", 0x19 := "v", 0x12 := "w",
      0x36 := "x", 0x11 := "y", 0x32 := "z", 0x38 := "0", 0x3D := "1", 0x3A := "2", 0x41 := "3",
      0x4A := "4", 0x42 := "5", 0x4E := "6", 0x45 := "7", 0x57 := "8", 0x59 := "9", 0x00 := " ",
      0x30 := "-", 0x3C := "#", 0x43 := "&", 0x0B := ".", 0x1F := ",", 0x55 := "a", 0x17 := "!",
      0x1B := "'", 0x27 := "<", 0x28 := ">", 0x2E := "?", 0x44 := "/", 0x48 := ":", 0x4B := ")",
      0x4C := "(", 0x4F := "$", 0x50 := "*", 0x51 := ">", 0x54 := "<", 0x40 := "\"", 0x56 := "+",
      0x5B := "%", 0xFF := "", 0x5C := "@", 0x5D := "^", 0x5E := "~", 0x5F := "_", 0x60 := "`",
      0x61 := "{", 0x62 := "}", 0x63 := "[", 0x64 := "]", 0x65 := "=", 0x66 := ";", 0x67 := "\\",
      0x47 := " ", 0x6F := "?", 0x77 := "?", 0x7F := "?", 0x8F := "?", 0x97 := "?", 0x9F := "?",
      0xAF := "?", 0xB7 := "?", 0xC7 := "?", 0xE7 := "?", 0xEF := "?", 0xF7 := "?"]

  // ---------------------------------------------------------------- digits

  predicate IsDigit(c: char) { '0' <= c <= '9' }

  predicate AllDigits(s: string) { forall k :: 0 <= k < |s| ==> IsDigit(s[k]) }

  function DigitChar(d: nat): (c: char)
    requires d < 10
    ensures IsDigit(c)
  {
    "0123456789"[d]
  }

  function DigitValue(c: char): nat
    requires IsDigit(c)
  {
    c as int - '0' as int
  }

  /** `str(n)` / `f"{n}"` for a non-negative integer. */
  function NatToString(n: nat): (s: string)
    ensures |s| >= 1 && AllDigits(s)
    ensures |s| > 1 ==> s[0] != '0'
  {
    if n < 10 then [DigitChar(n)] else NatToString(n / 10) + [DigitChar(n % 10)]
  }

  /** The number a string of decimal digits denotes (leading zeros allowed). */
  function DigitsValue(s: string): nat
    requires AllDigits(s)
  {
    if s == [] then 0 else 10 * DigitsValue(s[..|s| - 1]) + DigitValue(s[|s| - 1])
  }

  /** `str(n)` denotes `n`. */
  lemma {:induction false} NatToStringValue(n: nat)
    ensures DigitsValue(NatToString(n)) == n
  {
    var s := NatToString(n);
    if n >= 10 {
      NatToStringValue(n / 10);
      assert s[..|s| - 1] == NatToString(n / 10);
      assert DigitValue("0123456789"[n % 10]) == n % 10;
    } else {
      assert DigitValue("0123456789"[n]) == n;
      assert s[..0] == [];
    }
  }

  /** `str` is injective on non-negative integers. */
  lemma NatToStringInjective(m: nat, n: nat)
    requires NatToString(m) == NatToString(n)
    ensures m == n
  {
    NatToStringValue(m);
    NatToStringValue(n);
  }

  function Zeros(n: nat): (s: string)
    ensures |s| == n && forall k :: 0 <= k < n ==> s[k] == '0'
  {
    if n == 0 then [] else "0" + Zeros(n - 1)
  }

  /** `f"{n:0{width}d}"`: the decimal digits of `n`, padded on the left with
      zeros to at least `width` characters. */
  function ZeroPadded(n: nat, width: nat): (s: string)
    ensures AllDigits(s)
    ensures |s| == if |NatToString(n)| < width then width else |NatToString(n)|
  {
    var digits := NatToString(n);
    if |digits| < width then Zeros(width - |digits|) + digits else digits
  }

  lemma {:induction false} LeadingZerosValue(z: nat, s: string)
    requires AllDigits(s)
    ensures AllDigits(Zeros(z) + s) && DigitsValue(Zeros(z) + s) == DigitsValue(s)
    decreases z + |s|
  {
    var t := Zeros(z) + s;
    if s == [] {
      assert t == Zeros(z);
      if z > 0 {
        assert t[..|t| - 1] == Zeros(z - 1) + [];
        LeadingZerosValue(z - 1, []);
      }
    } else {
      assert t[..|t| - 1] == Zeros(z) + s[..|s| - 1];
      LeadingZerosValue(z, s[..|s| - 1]);
    }
  }

  /** The zero-padded code still denotes `n`. */
  lemma ZeroPaddedValue(n: nat, width: nat)
    ensures DigitsValue(ZeroPadded(n, width)) == n
  {
    NatToStringValue(n);
    var digits := NatToString(n);
    if |digits| < width {
      assert ZeroPadded(n, width) == Zeros(width - |digits|) + digits;
      LeadingZerosValue(width - |digits|, digits);
    } else {
      assert ZeroPadded(n, width) == digits;
    }
  }

  // ---------------------------------------------------------------- hex

  predicate IsHexDigit(c: char) { '0' <= c <= '9' || 'a' <= c <= 'f' }

  predicate AllHexDigits(s: string) { forall k :: 0 <= k < |s| ==> IsHexDigit(s[k]) }

  function HexDigitChar(d: nat): (c: char)
    requires d < 16
    ensures IsHexDigit(c)
  {
    if d < 10 then ('0' as int + d) as char else ('a' as int + d - 10) as char
  }

  function HexDigitValue(c: char): nat
    requires IsHexDigit(c)
  {
    if c <= '9' then c as int - '0' as int else c as int - 'a' as int + 10
  }

  function HexDigits(n: nat): (s: string)
    ensures |s| >= 1
  {
    if n < 16 then [HexDigitChar(n)] else HexDigits(n / 16) + [HexDigitChar(n % 16)]
  }

  function HexValue(s: string): nat
    requires AllHexDigits(s)
  {
    if s == [] then 0 else 16 * HexValue(s[..|s| - 1]) + HexDigitValue(s[|s| - 1])
  }

  /** `HexDigits` writes lower-case hexadecimal digits only, and they read
      back as the number written. */
  lemma {:induction false} HexDigitsValue(n: nat)
    ensures AllHexDigits(HexDigits(n)) && HexValue(HexDigits(n)) == n
  {
    var s := HexDigits(n);
    if n >= 16 {
      HexDigitsValue(n / 16);
      var init := HexDigits(n / 16);
      assert s == init + [HexDigitChar(n % 16)];
      assert s[..|s| - 1] == init;
      forall k | 0 <= k < |s|
        ensures IsHexDigit(s[k])
      {
        if k < |init| {
          assert s[k] == init[k];
        }
      }
    } else {
      assert s[..0] == [];
    }
  }

  /** Python `hex(n)` for `n >= 0`: "0x", lower-case digits, no padding. */
  function Hex(n: nat): string
  {
    "0x" + HexDigits(n)
  }

  // ---------------------------------------------------------------- glyphs

  /** The escaped placeholder `f"?[{hex(b)}]"` shown for an unmapped byte. */
  function Placeholder(b: byte): string
  {
    "?[" + Hex(b as nat) + "]"
  }

  /** `char_map.get(b, f"?[{hex(b)}]")` for the table `charMap`: total over
      all byte values. */
  function GlyphIn(charMap: map<byte, string>, b: byte): string
  {
    if b in charMap then charMap[b] else Placeholder(b)
  }

  /** The glyph function a viewer with table `charMap` decodes with. */
  function TableGlyph(charMap: map<byte, string>): byte -> string
  {
    (b: byte) => GlyphIn(charMap, b)
  }

  /** The glyph of `b` under the game's own table. */
  function Glyph(b: byte): string
  {
    GlyphIn(CharMap, b)
  }

  /** An unmapped byte shows up as `?[0x..]`, from which the byte value can
      be read back. */
  lemma PlaceholderRecoversByte(b: byte)
    requires b !in CharMap
    ensures var g := Glyph(b);
      |g| >= 6 && g[..4] == "?[0x" && g[|g| - 1] == ']'
      && AllHexDigits(g[4 .. |g| - 1]) && HexValue(g[4 .. |g| - 1]) == b as nat
  {
    var g := Glyph(b);
    assert g == "?[0x" + HexDigits(b as nat) + "]";
    assert g[4 .. |g| - 1] == HexDigits(b as nat);
    HexDigitsValue(b as nat);
  }

  // ---------------------------------------------------------------- strip

  /** ASCII characters for which Python's `str.isspace` holds. */
  predicate IsSpace(c: char)
  {
    c == ' ' || (9 <= c as int <= 13) || (28 <= c as int <= 31)
  }

  predicate AllSpace(s: string) { forall k :: 0 <= k < |s| ==> IsSpace(s[k]) }

  function LeadingSpaces(s: string): (n: nat)
    ensures n <= |s|
  {
    if s == [] || !IsSpace(s[0]) then 0 else 1 + LeadingSpaces(s[1..])
  }

  /** The leading whitespace run is all whitespace and maximal. */
  lemma {:induction false} LeadingSpacesMeaning(s: string)
    ensures var n := LeadingSpaces(s); AllSpace(s[..n]) && (n < |s| ==> !IsSpace(s[n]))
  {
    if s != [] && IsSpace(s[0]) {
      LeadingSpacesMeaning(s[1..]);
      var n := LeadingSpaces(s);
      assert s[..n] == [s[0]] + s[1..][..n - 1];
      assert n < |s| ==> s[n] == s[1..][n - 1];
    }
  }

  function TrailingSpaces(s: string): (n: nat)
    ensures n <= |s|
  {
    if s == [] || !IsSpace(s[|s| - 1]) then 0 else 1 + TrailingSpaces(s[..|s| - 1])
  }

  /** The trailing whitespace run is all whitespace and maximal. */
  lemma {:induction false} TrailingSpacesMeaning(s: string)
    ensures var n := TrailingSpaces(s); AllSpace(s[|s| - n ..]) && (n < |s| ==> !IsSpace(s[|s| - n - 1]))
  {
    if s != [] && IsSpace(s[|s| - 1]) {
      var init := s[..|s| - 1];
      TrailingSpacesMeaning(init);
      var m := TrailingSpaces(init);
      assert s[|s| - 1 - m ..] == init[|init| - m ..] + [s[|s| - 1]];
      assert m < |init| ==> s[|s| - 1 - m - 1] == init[|init| - m - 1];
    }
  }

  /** `s.strip()`: `s` without its leading and trailing whitespace. */
  function Strip(s: string): (r: string)
    ensures |r| <= |s|
  {
    var i := LeadingSpaces(s);
    if i == |s| then []
    else
      LeadingSpacesMeaning(s);
      TrailingSpacesMeaning(s);
      assert !IsSpace(s[i]);
      s[i .. |s| - TrailingSpaces(s)]
  }

  /** What `strip` leaves is a run of `s` with only whitespace around it,
      which neither starts nor ends with whitespace, and is empty exactly
      when `s` is all whitespace. */
  lemma StripMeaning(s: string)
    ensures exists i, j :: 0 <= i <= j <= |s| && Strip(s) == s[i..j] && AllSpace(s[..i]) && AllSpace(s[j..])
    ensures Strip(s) != [] ==> !IsSpace(Strip(s)[0]) && !IsSpace(Strip(s)[|Strip(s)| - 1])
    ensures Strip(s) == [] <==> AllSpace(s)
  {
    var i := LeadingSpaces(s);
    var t := TrailingSpaces(s);
    LeadingSpacesMeaning(s);
    TrailingSpacesMeaning(s);
    if i == |s| {
      assert s[..|s|] == s;
      assert Strip(s) == s[i..i] && AllSpace(s[i..]);
    } else {
      assert !IsSpace(s[i]);
      assert |s| - t > i;
      assert !AllSpace(s);
      assert Strip(s) == s[i .. |s| - t];
    }
  }

  /** Stripping a string that neither starts nor ends with whitespace leaves
      it as it is. */
  lemma StripUnpadded(s: string)
    requires s != [] && !IsSpace(s[0]) && !IsSpace(s[|s| - 1])
    ensures Strip(s) == s
  {
    TrailingSpacesMeaning(s);
    assert LeadingSpaces(s) == 0;
    assert TrailingSpaces(s) == 0;
    assert s[0 .. |s|] == s;
  }

  // ---------------------------------------------------------------- title

  predicate IsUpper(c: char) { 'A' <= c <= 'Z' }
  predicate IsLower(c: char) { 'a' <= c <= 'z' }
  predicate IsCased(c: char) { IsUpper(c) || IsLower(c) }

  function ToUpper(c: char): char
  {
    if IsLower(c) then (c as int - 32) as char else c
  }

  function ToLower(c: char): char
  {
    if IsUpper(c) then (c as int + 32) as char else c
  }

  /** `TitleFrom(s, prev)` title-cases `s` as if it followed a character that
      is cased exactly when `prev` holds. */
  function TitleFrom(s: string, prevCased: bool): (r: string)
    ensures |r| == |s|
  {
    if s == [] then []
    else [if prevCased then ToLower(s[0]) else ToUpper(s[0])] + TitleFrom(s[1..], IsCased(s[0]))
  }

  /** Each character is lower-cased after a cased character and upper-cased
      otherwise. */
  lemma {:induction false} TitleFromMeaning(s: string, prevCased: bool)
    ensures forall k :: 0 <= k < |s| ==>
      TitleFrom(s, prevCased)[k] ==
        if (if k == 0 then prevCased else IsCased(s[k - 1])) then ToLower(s[k]) else ToUpper(s[k])
  {
    if s != [] {
      TitleFromMeaning(s[1..], IsCased(s[0]));
      var r := TitleFrom(s, prevCased);
      forall k | 1 <= k < |s|
        ensures r[k] == if IsCased(s[k - 1]) then ToLower(s[k]) else ToUpper(s[k])
      {
        assert r[k] == TitleFrom(s[1..], IsCased(s[0]))[k - 1];
        assert s[k] == s[1..][k - 1];
        if k > 1 {
          assert s[k - 1] == s[1..][k - 2];
        }
      }
    }
  }

  /** `s.title()` on ASCII text: a letter is upper-cased when it starts a word
      (the character before it is not a letter) and lower-cased otherwise. */
  function Title(s: string): string
  {
    TitleFrom(s, false)
  }

  /** Title-casing changes only letters, so whitespace stays where it was. */
  lemma TitleKeepsSpaces(s: string)
    ensures |Title(s)| == |s|
    ensures forall k :: 0 <= k < |s| ==> (IsSpace(Title(s)[k]) <==> IsSpace(s[k]))
  {
    var r := TitleFrom(s, false);
    TitleFromMeaning(s, false);
    forall k | 0 <= k < |s| ensures IsSpace(r[k]) <==> IsSpace(s[k]) {
      assert r[k] == if (if k == 0 then false else IsCased(s[k - 1])) then ToLower(s[k]) else ToUpper(s[k]);
      CaseKeepsSpace(s[k]);
    }
  }

  lemma CaseKeepsSpace(c: char)
    ensures IsSpace(ToUpper(c)) <==> IsSpace(c)
    ensures IsSpace(ToLower(c)) <==> IsSpace(c)
  {
  }

  /** `"Unknown_<n>".title()` is the string itself. */
  lemma TitleUnknown(n: nat)
    ensures Title("Unknown_" + NatToString(n)) == "Unknown_" + NatToString(n)
  {
    var s := "Unknown_" + NatToString(n);
    var r := Title(s);
    var digits := NatToString(n);
    TitleFromMeaning(s, false);
    forall k | 0 <= k < |s| ensures r[k] == s[k] {
      assert s[..8] == "Unknown_";
      if k > 8 {
        assert s[k] == digits[k - 8] && s[k - 1] == digits[k - 9];
        assert IsDigit(s[k]) && !IsCased(s[k - 1]);
      } else if k == 8 {
        assert s[k] == digits[0] && s[k - 1] == '_';
      } else if k == 7 {
        assert s[k] == '_' && s[k - 1] == 'n';
      } else if k > 0 {
        assert IsLower(s[k]) && IsCased(s[k - 1]);
      } else {
        assert s[0] == 'U';
      }
    }
  }

  // ---------------------------------------------------------------- replace

  lemma OccursTail<T>(s: seq<T>, pat: seq<T>)
    requires |s| >= 1
    ensures Occurs(s[1..], pat) ==> Occurs(s, pat)
  {
    if Occurs(s[1..], pat) {
      var k :| 0 <= k <= |s[1..]| && MatchesAt(s[1..], pat, k);
      assert s[k + 1 .. k + 1 + |pat|] == s[1..][k .. k + |pat|];
      assert MatchesAt(s, pat, k + 1);
    }
  }

  /** `s.replace(pat, rep)`: every non-overlapping occurrence of `pat`, found
      left to right, replaced by `rep`. */
  function ReplaceAll(s: string, pat: string, rep: string): string
    requires |pat| > 0
    decreases |s|
  {
    if |s| < |pat| then s
    else if s[..|pat|] == pat then rep + ReplaceAll(s[|pat|..], pat, rep)
    else [s[0]] + ReplaceAll(s[1..], pat, rep)
  }

  /** A text without the pattern comes back unchanged, and the result is no
      longer than the text when the replacement is no longer than the
      pattern (exactly as long when both are equally long). */
  lemma {:induction false} ReplaceAllMeaning(s: string, pat: string, rep: string)
    requires |pat| > 0
    ensures !Occurs(s, pat) ==> ReplaceAll(s, pat, rep) == s
    ensures |rep| == |pat| ==> |ReplaceAll(s, pat, rep)| == |s|
    ensures |rep| <= |pat| ==> |ReplaceAll(s, pat, rep)| <= |s|
    decreases |s|
  {
    if |s| >= |pat| {
      if s[..|pat|] == pat {
        assert MatchesAt(s, pat, 0);
        ReplaceAllMeaning(s[|pat|..], pat, rep);
      } else {
        OccursTail(s, pat);
        ReplaceAllMeaning(s[1..], pat, rep);
      }
    }
  }

  /** `replace` rewrites the first match and carries on after it: when the
      first occurrence of `pat` is at `k`, the result is the text before it,
      then `rep`, then the rest of the text with its own occurrences
      replaced. */
  lemma {:induction false} ReplaceAllFirst(s: string, pat: string, rep: string, k: nat)
    requires |pat| > 0 && MatchesAt(s, pat, k)
    requires forall j :: 0 <= j < k ==> !MatchesAt(s, pat, j)
    ensures ReplaceAll(s, pat, rep) == s[..k] + rep + ReplaceAll(s[k + |pat|..], pat, rep)
    decreases k, 1
  {
    if k == 0 {
      ReplaceAllHere(s, pat, rep);
      assert s[..k] + rep == rep;
    } else {
      ShiftMatches(s, pat, k, s[1..]);
      ReplaceAllFirstStep(s, pat, rep, k, s[1..]);
    }
  }

  /** The step of `ReplaceAllFirst`: what holds for `s[1..]` with its first
      match at `k - 1` holds for `s` with its first match at `k`. */
  lemma {:induction false} ReplaceAllFirstStep(s: string, pat: string, rep: string, k: nat, t: string)
    requires |pat| > 0 && 0 < k && k + |pat| <= |s| && t == s[1..]
    requires !MatchesAt(s, pat, 0)
    requires MatchesAt(t, pat, k - 1) && forall j :: 0 <= j < k - 1 ==> !MatchesAt(t, pat, j)
    ensures ReplaceAll(s, pat, rep) == s[..k] + rep + ReplaceAll(s[k + |pat|..], pat, rep)
    decreases k, 0
  {
    var j: nat := k - 1;
    ReplaceAllFirst(t, pat, rep, j);
    ReplaceAllSkip(s, pat, rep, t);
    var after := s[k + |pat|..];
    DropFirst(s, t, j, pat, after);
    ConsPrefix(s, t, j, ReplaceAll(s, pat, rep), ReplaceAll(t, pat, rep), rep,
               ReplaceAll(t[j + |pat| ..], pat, rep), ReplaceAll(after, pat, rep));
  }

  /** Past the match at `j + 1`, `s` and `s[1..]` (whose match is at `j`)
      have the same suffix. */
  lemma DropFirst(s: string, t: string, j: nat, pat: string, after: string)
    requires j + 1 + |pat| <= |s| && t == s[1..] && after == s[j + 1 + |pat|..]
    ensures t[j + |pat| ..] == after
  {
  }

  /** Putting the first character back in front of `t[..j] + rep + rest`. */
  lemma ConsPrefix(s: string, t: string, j: nat, whole: string, tail: string, rep: string, rest: string, rest': string)
    requires j < |s| && t == s[1..]
    requires whole == [s[0]] + tail && tail == t[..j] + rep + rest && rest == rest'
    ensures whole == s[..j + 1] + rep + rest'
  {
    assert s[..j + 1] == [s[0]] + t[..j];
  }

  /** With a match at the front, `replace` starts with the replacement. */
  lemma ReplaceAllHere(s: string, pat: string, rep: string)
    requires |pat| > 0 && MatchesAt(s, pat, 0)
    ensures ReplaceAll(s, pat, rep) == rep + ReplaceAll(s[|pat|..], pat, rep)
  {
    assert s[..|pat|] == s[0 .. |pat|];
  }

  /** Without a match at the front, `replace` keeps the first character. */
  lemma ReplaceAllSkip(s: string, pat: string, rep: string, t: string)
    requires |pat| > 0 && |s| >= |pat| && !MatchesAt(s, pat, 0) && t == s[1..]
    ensures ReplaceAll(s, pat, rep) == [s[0]] + ReplaceAll(t, pat, rep)
  {
    assert s[..|pat|] == s[0 .. |pat|];
  }

  /** Dropping the first character moves every match one place to the left. */
  lemma ShiftMatches(s: string, pat: string, k: nat, t: string)
    requires k > 0 && MatchesAt(s, pat, k) && t == s[1..]
    requires forall j :: 0 <= j < k ==> !MatchesAt(s, pat, j)
    ensures MatchesAt(t, pat, k - 1) && forall j :: 0 <= j < k - 1 ==> !MatchesAt(t, pat, j)
    ensures |s| >= |pat| && !MatchesAt(s, pat, 0)
  {
    assert t[k - 1 .. k - 1 + |pat|] == s[k .. k + |pat|];
    forall j | 0 <= j < k - 1 ensures !MatchesAt(t, pat, j) {
      if MatchesAt(t, pat, j) {
        assert s[j + 1 .. j + 1 + |pat|] == t[j .. j + |pat|];
        assert MatchesAt(s, pat, j + 1);
      }
    }
  }
}
