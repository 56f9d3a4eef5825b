/** The bitmaps of lib/kernel/bitmap.c: an array of 32-bit words that simulates an array of bits.
    The first part is about the array of bits, which the allocators are stated in. */
module Bitmaps {
  import opened Bits
  import opened Common

  // ---------- The array of bits ----------

  /** Bits `i` up to but not including `i + cnt` exist and are all `v`. */
  predicate RunOf(bits: seq<bool>, i: nat, cnt: nat, v: bool) {
    i + cnt <= |bits| && forall k | i <= k < i + cnt :: bits[k] == v
  }

  /** The least start, from `i` on, of `cnt` bits that are all `v`. */
  function Scan(bits: seq<bool>, i: nat, cnt: nat, v: bool): (r: Option<nat>)
    decreases |bits| - i
  {
    if i + cnt > |bits| then None
    else if RunOf(bits, i, cnt, v) then Some(i)
    else Scan(bits, i + 1, cnt, v)
  }

  /** Bits `i` up to but not including `i + cnt` set to `v`. */
  function Fill(bits: seq<bool>, i: nat, cnt: nat, v: bool): (r: seq<bool>)
    requires i + cnt <= |bits|
    ensures |r| == |bits|
    ensures forall k | 0 <= k < |bits| :: r[k] == if i <= k < i + cnt then v else bits[k]
  {
    seq(|bits|, k requires 0 <= k < |bits| => if i <= k < i + cnt then v else bits[k])
  }

  /** A scan finds a run, no start before it has one, and it fails only if there is none. */
  lemma {:induction false} ScanIsLeast(bits: seq<bool>, i: nat, cnt: nat, v: bool)
    ensures Scan(bits, i, cnt, v).Some? ==>
              var r := Scan(bits, i, cnt, v).value;
              i <= r && RunOf(bits, r, cnt, v) && forall j | i <= j < r :: !RunOf(bits, j, cnt, v)
    ensures Scan(bits, i, cnt, v).None? <==> forall j | i <= j :: !RunOf(bits, j, cnt, v)
    decreases |bits| - i
  {
    if i + cnt <= |bits| && !RunOf(bits, i, cnt, v) {
      ScanIsLeast(bits, i + 1, cnt, v);
    }
  }

  /** Scanning for one bit finds the first. */
  lemma {:induction false} ScanForOne(bits: seq<bool>, i: nat, k: nat, v: bool)
    requires i <= k < |bits| && bits[k] == v && forall j | i <= j < k :: bits[j] != v
    ensures Scan(bits, i, 1, v) == Some(k)
    decreases k - i
  {
    if i < k {
      assert bits[i] != v;
      ScanForOne(bits, i + 1, k, v);
    }
  }

  // ---------- Words and bytes ----------

  type Word = x: int | 0 <= x < 0x1_0000_0000

  /** The words needed for `n` bits. */
  function WordCount(n: nat): nat {
    (n + 31) / 32
  }

  function BitsOf(words: seq<Word>, n: nat): (bits: seq<bool>)
    requires n <= 32 * |words|
    ensures |bits| == n
  {
    seq(n, i requires 0 <= i < n => Bit(words[i / 32], i % 32))
  }

  /** A word whose only set bit is the one for bit number `i`. */
  function Mask(i: nat): (m: Word)
    ensures forall k: nat | k < 32 :: Bit(m, k) <==> k == i % 32
  {
    Pow2Large();
    Pow2Monotone(i % 32, 31);
    assert forall k: nat | k < 32 :: Bit(Pow2(i % 32), k) <==> k == i % 32 by {
      forall k: nat | k < 32 {
        Pow2Bits(i % 32, k);
      }
    }
    Pow2(i % 32)
  }

  /** The word operations of mark, reset and flip. */
  function SetBit(w: Word, i: nat): (r: Word)
    ensures forall k: nat | k < 32 :: Bit(r, k) <==> Bit(w, k) || k == i % 32
  {
    Pow2Large();
    OrFits(w, Mask(i), 32);
    assert forall k: nat | k < 32 :: Bit(Or(w, Mask(i)), k) <==> Bit(w, k) || k == i % 32 by {
      forall k: nat | k < 32 {
        OrBits(w, Mask(i), k);
      }
    }
    Or(w, Mask(i))
  }

  function ClearBit(w: Word, i: nat): (r: Word)
    ensures forall k: nat | k < 32 :: Bit(r, k) <==> Bit(w, k) && k != i % 32
  {
    Pow2Large();
    AndAtMost(w, Not32(Mask(i)));
    assert forall k: nat | k < 32 :: Bit(And(w, Not32(Mask(i))), k) <==> Bit(w, k) && k != i % 32 by {
      forall k: nat | k < 32
        ensures Bit(And(w, Not32(Mask(i))), k) <==> Bit(w, k) && k != i % 32
      {
        ComplementBits(Mask(i), 32, k);
        AndBits(w, Not32(Mask(i)), k);
      }
    }
    And(w, Not32(Mask(i)))
  }

  function FlipBit(w: Word, i: nat): (r: Word)
    ensures forall k: nat | k < 32 :: Bit(r, k) <==> Bit(w, k) != (k == i % 32)
  {
    Pow2Large();
    XorFits(w, Mask(i), 32);
    assert forall k: nat | k < 32 :: Bit(Xor(w, Mask(i)), k) <==> Bit(w, k) != (k == i % 32) by {
      forall k: nat | k < 32 {
        XorBits(w, Mask(i), k);
      }
    }
    Xor(w, Mask(i))
  }

  lemma {:induction false} BitTest(w: Word, i: nat)
    ensures And(w, Mask(i)) != 0 <==> Bit(w, i % 32)
  {
    AndBits(w, Mask(i), i % 32);
    ZeroBits(i % 32);
    if !Bit(w, i % 32) {
      MaskMiss(w, i % 32);
    }
  }

  lemma {:induction false} MaskMiss(w: nat, j: nat)
    requires !Bit(w, j)
    ensures And(w, Pow2(j)) == 0
    decreases j
  {
    if j > 0 {
      AndStep(w, Pow2(j));
      MaskMiss(w / 2, j - 1);
    } else {
      AndStep(w, 1);
    }
  }

  /** Writing one word changes the bits of that word only. */
  lemma BitsOfUpdate(words: seq<Word>, n: nat, i: nat, w: Word, v: bool)
    requires n <= 32 * |words| && i < n
    requires forall k: nat | k < 32 :: Bit(w, k) <==> if k == i % 32 then v else Bit(words[i / 32], k)
    ensures BitsOf(words[i / 32 := w], n) == BitsOf(words, n)[i := v]
  {
    var words' := words[i / 32 := w];
    forall j | 0 <= j < n
      ensures BitsOf(words', n)[j] == BitsOf(words, n)[i := v][j]
    {
      if j / 32 == i / 32 && j % 32 == i % 32 {
        assert j == i;
      }
    }
  }

  lemma FillMore(bits: seq<bool>, i: nat, k: nat, v: bool)
    requires i + k < |bits|
    ensures Fill(bits, i, k, v)[i + k := v] == Fill(bits, i, k + 1, v)
  {
  }

  // ---------- The image of a bitmap in a file ----------

  /** Byte `k` of a word in memory, least significant first. */
  function ByteOf(w: Word, k: nat): (b: Byte)
    requires k < 4
  {
    if k == 0 then w % 0x100
    else if k == 1 then w / 0x100 % 0x100
    else if k == 2 then w / 0x100 / 0x100 % 0x100
    else w / 0x100 / 0x100 / 0x100
  }

  function WordFrom(b0: Byte, b1: Byte, b2: Byte, b3: Byte): Word {
    b0 + 0x100 * b1 + 0x1_0000 * b2 + 0x100_0000 * b3
  }

  lemma WordRoundTrip(w: Word)
    ensures WordFrom(ByteOf(w, 0), ByteOf(w, 1), ByteOf(w, 2), ByteOf(w, 3)) == w
  {
  }

  /** The bytes of an array of words. */
  function Image(words: seq<Word>): (bytes: seq<Byte>)
    ensures |bytes| == 4 * |words|
  {
    seq(4 * |words|, i requires 0 <= i < 4 * |words| => ByteOf(words[i / 4], i % 4))
  }

  /** The words that the first `4 * n` bytes of a file hold. */
  function WordsIn(file: seq<Byte>, n: nat): (words: seq<Word>)
    requires 4 * n <= |file|
    ensures |words| == n
  {
    seq(n, i requires 0 <= i < n => WordFrom(file[4 * i], file[4 * i + 1], file[4 * i + 2], file[4 * i + 3]))
  }

  lemma ImageAt(words: seq<Word>, i: nat, k: nat)
    requires i < |words| && k < 4
    ensures Image(words)[4 * i + k] == ByteOf(words[i], k)
  {
    assert (4 * i + k) / 4 == i && (4 * i + k) % 4 == k;
  }

  lemma ImageRoundTrip(words: seq<Word>, file: seq<Byte>)
    requires Image(words) <= file
    ensures WordsIn(file, |words|) == words
  {
    forall i | 0 <= i < |words|
      ensures WordsIn(file, |words|)[i] == words[i]
    {
      ImageAt(words, i, 0);
      ImageAt(words, i, 1);
      ImageAt(words, i, 2);
      ImageAt(words, i, 3);
      WordRoundTrip(words[i]);
    }
  }

  /** Overwrites the beginning of `dst` with as much of `src` as fits. Files do not grow. */
  function Overwrite<T>(dst: seq<T>, src: seq<T>): (r: seq<T>)
    ensures |r| == |dst|
  {
    if |src| <= |dst| then src + dst[|src|..] else src[..|dst|]
  }

  /** The low `n` bits of a word, or all of them when `n` is 0. */
  function LastMask(n: nat): (m: Word)
    requires n < 32
  {
    Pow2Large();
    Pow2Monotone(n, 31);
    if n == 0 then 0xFFFF_FFFF else Pow2(n) - 1
  }

  lemma {:induction false} LastMaskBits(w: Word, n: nat, k: nat)
    requires n < 32 && k < 32 && (n == 0 || k < n)
    ensures Bit(And(w, LastMask(n)), k) <==> Bit(w, k)
  {
    Pow2Large();
    AndBits(w, LastMask(n), k);
    ComplementBits(0, if n == 0 then 32 else n, k);
    ZeroBits(k);
  }

  /** Clearing the bits of the last word that are not in use changes no bit in use. */
  lemma {:induction false} MaskedLast(words: seq<Word>, n: nat, w: Word)
    requires 0 < n && |words| == WordCount(n) && w == And(words[|words| - 1], LastMask(n % 32))
    ensures BitsOf(words[|words| - 1 := w], n) == BitsOf(words, n)
    ensures n % 32 != 0 ==> w < Pow2(n % 32)
  {
    var last := |words| - 1;
    forall i | 0 <= i < n
      ensures BitsOf(words[last := w], n)[i] == BitsOf(words, n)[i]
    {
      if i / 32 == last {
        LastMaskBits(words[last], n % 32, i % 32);
      }
    }
    if n % 32 != 0 {
      AndAtMost(words[last], LastMask(n % 32));
    }
  }

  class Bitmap {
    const bitCnt: nat
    const words: array<Word>

    ghost predicate Valid() {
      words.Length == WordCount(bitCnt)
    }

    ghost function Contents(): (bits: seq<bool>)
      requires Valid()
      reads words
      ensures |bits| == bitCnt
    {
      BitsOf(words[..], bitCnt)
    }

    /** A bitmap of `n` bits, all of them clear. What the storage held before does not matter. */
    constructor (n: nat)
      ensures Valid() && fresh(words) && bitCnt == n && Contents() == seq(n, _ => false)
    {
      bitCnt := n;
      words := new Word[WordCount(n)];
      new;
      SetMultiple(0, n, false);
    }

    method Mark(i: nat)
      requires Valid() && i < bitCnt
      modifies words
      ensures Contents() == old(Contents())[i := true]
    {
      ghost var before := words[..];
      words[i / 32] := SetBit(words[i / 32], i);
      assert words[..] == before[i / 32 := words[i / 32]];
      BitsOfUpdate(before, bitCnt, i, words[i / 32], true);
    }

    method Reset(i: nat)
      requires Valid() && i < bitCnt
      modifies words
      ensures Contents() == old(Contents())[i := false]
    {
      ghost var before := words[..];
      words[i / 32] := ClearBit(words[i / 32], i);
      assert words[..] == before[i / 32 := words[i / 32]];
      BitsOfUpdate(before, bitCnt, i, words[i / 32], false);
    }

    method Flip(i: nat)
      requires Valid() && i < bitCnt
      modifies words
      ensures Contents() == old(Contents())[i := !old(Contents())[i]]
    {
      ghost var before := words[..];
      words[i / 32] := FlipBit(words[i / 32], i);
      assert words[..] == before[i / 32 := words[i / 32]];
      BitsOfUpdate(before, bitCnt, i, words[i / 32], !Bit(before[i / 32], i % 32));
    }

    method Test(i: nat) returns (v: bool)
      requires Valid() && i < bitCnt
      ensures v == Contents()[i]
    {
      BitTest(words[i / 32], i);
      v := And(words[i / 32], Mask(i)) != 0;
    }

    method SetMultiple(start: nat, cnt: nat, v: bool)
      requires Valid() && start + cnt <= bitCnt
      modifies words
      ensures Contents() == Fill(old(Contents()), start, cnt, v)
    {
      ghost var before := Contents();
      assert Fill(before, start, 0, v) == before;
      for i := 0 to cnt
        invariant Contents() == Fill(before, start, i, v)
      {
        FillMore(before, start, i, v);
        if v {
          Mark(start + i);
        } else {
          Reset(start + i);
        }
      }
    }

    method Contains(start: nat, cnt: nat, v: bool) returns (found: bool)
      requires Valid() && start + cnt <= bitCnt
      ensures found <==> !RunOf(Contents(), start, cnt, !v)
    {
      for i := 0 to cnt
        invariant forall k | start <= k < start + i :: Contents()[k] != v
      {
        var b := Test(start + i);
        if b == v {
          return true;
        }
      }
      return false;
    }

    /** The first group of `cnt` bits from `start` on that are all `v`, if there is one. */
    method FirstGroup(start: nat, cnt: nat, v: bool) returns (r: Option<nat>)
      requires Valid() && start <= bitCnt
      ensures r == Scan(Contents(), start, cnt, v)
    {
      if cnt <= bitCnt {
        var last, i := bitCnt - cnt, start;
        while i <= last
          invariant start <= i
          invariant Scan(Contents(), start, cnt, v) == Scan(Contents(), i, cnt, v)
        {
          var other := Contains(i, cnt, !v);
          if !other {
            return Some(i);
          }
          i := i + 1;
        }
      }
      return None;
    }

    /** Finds that group and inverts its bits. */
    method ScanAndFlip(start: nat, cnt: nat, v: bool) returns (r: Option<nat>)
      requires Valid() && start <= bitCnt
      modifies words
      ensures r == Scan(old(Contents()), start, cnt, v)
      ensures r.Some? ==> r.value + cnt <= bitCnt && Contents() == Fill(old(Contents()), r.value, cnt, !v)
      ensures r.None? ==> Contents() == old(Contents())
    {
      r := FirstGroup(start, cnt, v);
      if r.Some? {
        ScanIsLeast(Contents(), start, cnt, v);
        SetMultiple(r.value, cnt, !v);
      }
    }

    /** Writes the words over the beginning of a file; succeeds if the file is long enough. */
    method Write(file: seq<Byte>) returns (after: seq<Byte>, ok: bool)
      requires Valid()
      ensures ok <==> 4 * WordCount(bitCnt) <= |file|
      ensures after == Overwrite(file, Image(words[..]))
    {
      after := Overwrite(file, Image(words[..]));
      ok := |Image(words[..])| <= |file|;
    }

    /** Reads the words from a file, and clears the bits of the last word that are not in use. */
    method Read(file: seq<Byte>) returns (ok: bool)
      requires Valid()
      modifies words
      ensures ok <==> 4 * WordCount(bitCnt) <= |file|
      ensures ok ==> Contents() == BitsOf(WordsIn(file, WordCount(bitCnt)), bitCnt)
      ensures bitCnt % 32 != 0 ==> words[words.Length - 1] < Pow2(bitCnt % 32)
    {
      ok := 4 * words.Length <= |file|;
      if bitCnt > 0 {
        var bytes := Overwrite(Image(words[..]), file);
        Load(bytes);
        assert ok ==> words[..] == WordsIn(file, words.Length);
        ClearUnused();
      }
    }

    method ClearUnused()
      requires Valid() && bitCnt > 0
      modifies words
      ensures Contents() == old(Contents())
      ensures bitCnt % 32 != 0 ==> words[words.Length - 1] < Pow2(bitCnt % 32)
    {
      ghost var before := words[..];
      var last := words.Length - 1;
      AndAtMost(words[last], LastMask(bitCnt % 32));
      words[last] := And(words[last], LastMask(bitCnt % 32));
      MaskedLast(before, bitCnt, words[last]);
      assert words[..] == before[last := words[last]];
    }

    /** Copies bytes into the words. */
    method Load(bytes: seq<Byte>)
      requires |bytes| == 4 * words.Length
      modifies words
      ensures words[..] == WordsIn(bytes, words.Length)
    {
      for i := 0 to words.Length
        invariant forall j | 0 <= j < i :: words[j] == WordsIn(bytes, words.Length)[j]
      {
        words[i] := WordFrom(bytes[4 * i], bytes[4 * i + 1], bytes[4 * i + 2], bytes[4 * i + 3]);
      }
    }
  }

  /** Saving one bitmap to a file and loading another of the same size from it copies the bits. */
  method SaveThenLoad(a: Bitmap, b: Bitmap, file: seq<Byte>) returns (ok: bool)
    requires a.Valid() && b.Valid() && a.bitCnt == b.bitCnt
    modifies b.words
    ensures ok <==> 4 * WordCount(a.bitCnt) <= |file|
    ensures ok ==> b.Contents() == old(a.Contents())
  {
    var after, written := a.Write(file);
    if !written {
      return false;
    }
    ImageRoundTrip(a.words[..], after);
    ok := b.Read(after);
  }

}
