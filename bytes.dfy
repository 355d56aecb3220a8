/** Byte strings and the bounded-read primitives shared by the decoders and the
    patch engine. A file read `f.seek(o); f.read(n)` and a Python slice
    `buf[o:o+n]` are both `Slice(buf, o, n)`: they never fail, they only come
    back short. */
module Bytes {

  type byte = bv8

  datatype Option<T> = None | Some(value: T)

  /** A file chosen in a dialog: none chosen, chosen but `open` raises, or
      readable with these contents. */
  datatype FileChoice = NotChosen | Unopenable | Readable(contents: seq<byte>)

  /** What `open(path, 'rb')` yields for a choice: the contents, or None when
      it raises (an empty path raises as well). */
  function Opened(f: FileChoice): Option<seq<byte>>
  {
    if f.Readable? then Some(f.contents) else None
  }

  function Min(a: int, b: int): int { if a <= b then a else b }

  function Pow256(n: nat): (p: nat)
    ensures p >= 1
  {
    if n == 0 then 1 else 256 * Pow256(n - 1)
  }

  /** `int.from_bytes(s, 'little')`: the unsigned little-endian value of `s`. */
  function LittleEndian(s: seq<byte>): (v: nat)
    ensures v < Pow256(|s|)
  {
    if s == [] then 0 else s[0] as nat + 256 * LittleEndian(s[1..])
  }

  /** `buf[o:o+n]` for non-negative `o` and `n`; equally `f.seek(o); f.read(n)`
      on a file whose contents are `buf`. Past the end it is short or empty. */
  function Slice(buf: seq<byte>, o: nat, n: nat): (r: seq<byte>)
    ensures |r| == if o >= |buf| then 0 else Min(n, |buf| - o)
    ensures forall k :: 0 <= k < |r| ==> r[k] == buf[o + k]
  {
    if o >= |buf| then [] else buf[o .. Min(o + n, |buf|)]
  }

  /** The 2-byte little-endian value read at `o` (0 when nothing can be read). */
  function LE16At(buf: seq<byte>, o: nat): nat
  {
    LittleEndian(Slice(buf, o, 2))
  }

  /** The 4-byte little-endian value read at `o`, from a possibly short slice. */
  function LE32At(buf: seq<byte>, o: nat): nat
  {
    LittleEndian(Slice(buf, o, 4))
  }

  lemma LE16Bounds(buf: seq<byte>, o: nat)
    ensures LE16At(buf, o) < 0x1_0000
    ensures o + 2 <= |buf| ==> LE16At(buf, o) == buf[o] as nat + 256 * buf[o + 1] as nat
  {
    var s := Slice(buf, o, 2);
    assert Pow256(|s|) <= 0x1_0000 by {
      assert Pow256(0) == 1 && Pow256(1) == 256 && Pow256(2) == 0x1_0000;
    }
    if o + 2 <= |buf| {
      assert s == [buf[o], buf[o + 1]];
      assert s[1..] == [buf[o + 1]];
      assert s[1..][1..] == [];
      assert LittleEndian(s[1..]) == buf[o + 1] as nat + 256 * LittleEndian([]);
    }
  }

  lemma LE32Bounds(buf: seq<byte>, o: nat)
    ensures LE32At(buf, o) < 0x1_0000_0000
  {
    assert Pow256(4) == 0x1_0000_0000 by {
      assert Pow256(0) == 1 && Pow256(1) == 256 && Pow256(2) == 0x1_0000 && Pow256(3) == 0x100_0000;
    }
    PowMonotone(|Slice(buf, o, 4)|, 4);
  }

  lemma {:induction false} PowMonotone(m: nat, n: nat)
    requires m <= n
    ensures Pow256(m) <= Pow256(n)
  {
    if m < n { PowMonotone(m, n - 1); }
  }

  /** Regrouping a concatenation of three parts. */
  lemma Regroup<T>(whole: seq<T>, a: seq<T>, b: seq<T>, c: seq<T>)
    requires whole == a + (b + c)
    ensures whole == (a + b) + c
  {
  }

  /** The tail of a sequence built by prepending one element. */
  lemma TailOfCons<T>(x: T, rest: seq<T>)
    ensures ([x] + rest)[0] == x && ([x] + rest)[1..] == rest
  {
  }

  /** `buf[at:at+len] = bytes` on a bytearray: the region is replaced, and the
      buffer grows or shrinks when `|bytes| != len`. */
  function Splice(buf: seq<byte>, at: nat, len: nat, bytes: seq<byte>): (r: seq<byte>)
    requires at + len <= |buf|
    ensures |r| == |buf| - len + |bytes|
  {
    buf[..at] + bytes + buf[at + len ..]
  }

  /** A splice keeps what lies before the region, holds `bytes` in its place
      and keeps what lies after it. */
  lemma SpliceParts(buf: seq<byte>, at: nat, len: nat, bytes: seq<byte>)
    requires at + len <= |buf|
    ensures var r := Splice(buf, at, len, bytes);
            r[..at] == buf[..at] && r[at .. at + |bytes|] == bytes && r[at + |bytes| ..] == buf[at + len ..]
  {
    var r := Splice(buf, at, len, bytes);
    assert r[..at] == buf[..at];
    assert r[at .. at + |bytes|] == bytes;
  }

  /** A splice that keeps the length changes exactly the bytes of its region. */
  lemma SpliceAt(buf: seq<byte>, at: nat, bytes: seq<byte>, j: int)
    requires at + |bytes| <= |buf| && 0 <= j < |buf|
    ensures Splice(buf, at, |bytes|, bytes)[j] == if at <= j < at + |bytes| then bytes[j - at] else buf[j]
  {
    var r := Splice(buf, at, |bytes|, bytes);
    if j < at {
      assert r[..at][j] == buf[..at][j];
    } else if j < at + |bytes| {
      assert r[at .. at + |bytes|][j - at] == bytes[j - at];
    } else {
      assert r[at + |bytes| ..][j - at - |bytes|] == buf[at + |bytes| ..][j - at - |bytes|];
    }
  }

  /** `pat` occurs in `buf` starting at index `k`. */
  predicate MatchesAt<T(==)>(buf: seq<T>, pat: seq<T>, k: int)
  {
    0 <= k && k + |pat| <= |buf| && buf[k .. k + |pat|] == pat
  }

  /** `pat` occurs somewhere in `buf`. */
  predicate Occurs<T(==)>(buf: seq<T>, pat: seq<T>)
  {
    exists k | 0 <= k <= |buf| :: MatchesAt(buf, pat, k)
  }

  /** `buf.find(pat, from)`: the first index at or after `from` where `pat`
      occurs, or -1 when there is none. */
  function Find(buf: seq<byte>, pat: seq<byte>, from: nat): (r: int)
    ensures r == -1 || (from <= r && MatchesAt(buf, pat, r))
    decreases |buf| - from
  {
    if from + |pat| > |buf| then -1
    else if buf[from .. from + |pat|] == pat then from
    else Find(buf, pat, from + 1)
  }

  /** Find returns the first match: there is none between `from` and the
      result, nor anywhere from `from` on when the result is -1. */
  lemma {:induction false} FindFirst(buf: seq<byte>, pat: seq<byte>, from: nat)
    ensures forall k :: from <= k && (Find(buf, pat, from) == -1 || k < Find(buf, pat, from)) ==> !MatchesAt(buf, pat, k)
    decreases |buf| - from
  {
    if from + |pat| <= |buf| && buf[from .. from + |pat|] != pat {
      FindFirst(buf, pat, from + 1);
    }
  }

  /** A cursor that resumes right after a match of a non-empty pattern moves
      forward and stays inside the buffer. */
  lemma FindAdvances(buf: seq<byte>, pat: seq<byte>, from: nat, k: nat, next: nat)
    requires |pat| > 0 && Find(buf, pat, from) == k && next == k + |pat|
    ensures from < next <= |buf|
  {
    assert MatchesAt(buf, pat, k);
  }

  /** `buf.find(pat) != -1` exactly when `pat` occurs in `buf`. */
  lemma FindFromStart(buf: seq<byte>, pat: seq<byte>)
    ensures Find(buf, pat, 0) != -1 <==> Occurs(buf, pat)
  {
    if Occurs(buf, pat) {
      var k :| MatchesAt(buf, pat, k);
      FindFirst(buf, pat, 0);
    }
  }

  /** Find only looks at the bytes from `from` on. */
  lemma {:induction false} FindSuffix(a: seq<byte>, b: seq<byte>, pat: seq<byte>, from: nat)
    requires from <= |a| && |a| == |b| && a[from..] == b[from..]
    ensures Find(a, pat, from) == Find(b, pat, from)
    decreases |a| - from
  {
    if from + |pat| <= |a| {
      assert a[from .. from + |pat|] == a[from..][.. |pat|];
      assert b[from .. from + |pat|] == b[from..][.. |pat|];
      if a[from .. from + |pat|] != pat {
        assert a[from + 1 ..] == a[from..][1..];
        assert b[from + 1 ..] == b[from..][1..];
        FindSuffix(a, b, pat, from + 1);
      }
    }
  }

  /** The map a loop over the ids 0 .. n-1 builds when it stores `entry(k)`
      under `k` for every id that has one. */
  function Collect<V>(n: nat, entry: nat -> Option<V>): map<nat, V>
  {
    if n == 0 then map[]
    else
      var m := Collect(n - 1, entry);
      if entry(n - 1).Some? then m[n - 1 := entry(n - 1).value] else m
  }

  /** One more id: its entry, when it has one, is added. */
  lemma CollectNext<V>(n: nat, entry: nat -> Option<V>)
    ensures Collect(n + 1, entry) ==
      if entry(n).Some? then Collect(n, entry)[n := entry(n).value] else Collect(n, entry)
  {
  }

  /** The collected map holds exactly the ids below `n` that have an entry,
      each with its entry. */
  lemma {:induction false} CollectMeaning<V>(n: nat, entry: nat -> Option<V>)
    ensures forall k: nat :: k in Collect(n, entry) <==> k < n && entry(k).Some?
    ensures forall k: nat :: k in Collect(n, entry) ==> Collect(n, entry)[k] == entry(k).value
  {
    if n > 0 {
      CollectMeaning(n - 1, entry);
    }
  }

  /** Ids without an entry add nothing: a loop may stop at the first id from
      which on none has one. */
  lemma {:induction false} CollectPastLast<V>(m: nat, n: nat, entry: nat -> Option<V>)
    requires m <= n
    requires forall k :: m <= k < n ==> entry(k).None?
    ensures Collect(n, entry) == Collect(m, entry)
  {
    if m < n {
      CollectPastLast(m, n - 1, entry);
    }
  }

  /** The sequence a loop over the ids 0 .. n-1 builds when it appends
      `entry(k)` for every id. */
  function Tabulate<V>(n: nat, entry: nat -> V): seq<V>
  {
    if n == 0 then [] else Tabulate(n - 1, entry) + [entry(n - 1)]
  }

  /** One more id appends its entry. */
  lemma TabulateNext<V>(n: nat, entry: nat -> V)
    ensures Tabulate(n + 1, entry) == Tabulate(n, entry) + [entry(n)]
  {
  }

  /** The tabulated sequence has `n` elements, element `k` being `entry(k)`. */
  lemma {:induction false} TabulateMeaning<V>(n: nat, entry: nat -> V)
    ensures |Tabulate(n, entry)| == n
    ensures forall k :: 0 <= k < n ==> Tabulate(n, entry)[k] == entry(k)
  {
    if n > 0 {
      TabulateMeaning(n - 1, entry);
      var prev := Tabulate(n - 1, entry);
      forall k | 0 <= k < n
        ensures Tabulate(n, entry)[k] == entry(k)
      {
        if k < n - 1 {
          assert (prev + [entry(n - 1)])[k] == prev[k];
        }
      }
    }
  }
}
