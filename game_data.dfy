/** Facts about the game's files that both revisions of the tool share: the
    number of cards, where the card descriptions live in SLUS_014.11 and how
    their bytes are read. */
module GameData {
  import opened Bytes

  /** Cards are numbered 1 .. TotalCards. */
  const TotalCards: nat := 722

  /** Card `k`'s description pointer is at `DescPointerBase + 2k`; pointers are
      relative to `DescTextBase`; a description is at most `MaxDescLength`
      bytes long. */
  const DescPointerBase: nat := 0x1B0A00
  const DescTextBase: nat := 0x1B0800
  const MaxDescLength: nat := 200

  /** The description pointer of card `k` lies inside the data. */
  predicate DescPointerFits(slus: seq<byte>, k: nat)
  {
    DescPointerBase + 2 * k + 1 < |slus|
  }

  /** Control bytes dropped together with the byte after them. */
  predicate IsSkipCode(b: byte)
  {
    b == 0xF8 || b == 0xD5 || b == 0xFC
  }

  /** The soft joiner 0xFE at `t + i` reads as one space when the byte before it
      (0 when it is the first byte) and the byte after it (0 past the end) are
      both non-zero, and as nothing otherwise. */
  function SoftSpace(slus: seq<byte>, t: nat, i: nat): (s: string)
    requires t + i < |slus|
    ensures s == " " <==> (i > 0 && slus[t + i - 1] != 0) && (t + i + 1 < |slus| && slus[t + i + 1] != 0)
    ensures s == "" || s == " "
  {
    var prev: byte := if i > 0 then slus[t + i - 1] else 0;
    var next: byte := if t + i + 1 < |slus| then slus[t + i + 1] else 0;
    if prev != 0 && next != 0 then " " else ""
  }
}
