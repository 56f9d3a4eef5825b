/** The tar headers of lib/ustar.c, in the "ustar Interchange Format" of IEEE Std 1003.1-2001. */
module Ustar {
  import opened Common
  import opened Bits
  import opened Printf

  const HEADER_SIZE: nat := 512

  /** Where the fields of a header start. */
  const NAME: nat := 0
  const MODE: nat := 100
  const UID: nat := 108
  const GID: nat := 116
  const SIZE: nat := 124
  const MTIME: nat := 136
  const CHKSUM: nat := 148
  const TYPEFLAG: nat := 156
  const MAGIC: nat := 257
  const VERSION: nat := 263
  const UNAME: nat := 265
  const GNAME: nat := 297
  const PREFIX: nat := 345

  datatype Kind = Regular | Directory {
    function Flag(): Octet {
      if Regular? then '0' else '5'
    }

    function Mode(): nat {
      if Regular? then 0x1a4 else 0x1ed
    }
  }

  // ---------- Names ----------

  /** The length of the "/", "./" or "../" that `name` starts with, or 0. */
  function Antisocial(name: seq<Octet>): (n: nat)
    ensures n <= |name|
  {
    if |name| >= 1 && name[0] == '/' then 1
    else if |name| >= 2 && name[0] == '.' && name[1] == '/' then 2
    else if |name| >= 3 && name[0] == '.' && name[1] == '.' && name[2] == '/' then 3
    else 0
  }

  function Suffix(name: seq<Octet>): seq<Octet> {
    if Antisocial(name) == 0 then name else Suffix(name[Antisocial(name)..])
  }

  function Strip(name: seq<Octet>): seq<Octet> {
    var s := Suffix(name);
    if s == "" || s == ".." then "." else s
  }

  /** A name that stays below the directory it is used in, as far as its start tells. */
  predicate Sociable(name: seq<Octet>) {
    !("/" <= name) && !("./" <= name) && !("../" <= name) && name != "" && name != ".."
  }

  lemma AntisocialStart(name: seq<Octet>)
    ensures Antisocial(name) == 0 <==> !("/" <= name) && !("./" <= name) && !("../" <= name)
  {
  }

  /** `s` is nothing but directories that name no place below: slashes, with at most two dots before each. */
  predicate OnlyDots(s: seq<Octet>) {
    s == [] ||
    if s[0] == '/' then OnlyDots(s[1..])
    else if |s| >= 2 && s[0] == '.' && s[1] == '/' then OnlyDots(s[2..])
    else |s| >= 3 && s[0] == '.' && s[1] == '.' && s[2] == '/' && OnlyDots(s[3..])
  }

  /** All that is stripped off the front are such directories, and what is left is the rest of the name, or "." if
      that is no name. */
  lemma {:induction false} StripTakesDots(name: seq<Octet>) returns (k: nat)
    ensures k <= |name| && OnlyDots(name[..k])
    ensures Strip(name) == if name[k..] == "" || name[k..] == ".." then "." else name[k..]
    ensures Antisocial(name[k..]) == 0 && Suffix(name) == name[k..]
    decreases |name|
  {
    var n := Antisocial(name);
    if n == 0 {
      k := 0;
      assert name[..0] == [] && name[0..] == name;
    } else {
      var m := StripTakesDots(name[n..]);
      k := n + m;
      assert name[n..][m..] == name[k..];
      assert name[..k][n..] == name[n..][..m];
    }
  }

  /** The stripped name is sociable, and a name is stripped to itself exactly if it is. */
  lemma {:induction false} StripIsSociable(name: seq<Octet>)
    ensures Sociable(Strip(name))
    ensures Strip(name) == name <==> Sociable(name)
    ensures Strip(Strip(name)) == Strip(name)
    decreases |name|
  {
    SuffixIsSuffix(name);
    AntisocialStart(name);
    AntisocialStart(Strip(name));
    if Antisocial(name) != 0 {
      StripIsSociable(name[Antisocial(name)..]);
    }
  }

  lemma {:induction false} SuffixIsSuffix(name: seq<Octet>)
    ensures |Suffix(name)| <= |name| && Suffix(name) == name[|name| - |Suffix(name)|..]
    ensures Antisocial(Suffix(name)) == 0
    decreases |name|
  {
    if Antisocial(name) != 0 {
      SuffixIsSuffix(name[Antisocial(name)..]);
    }
  }

  method StripAntisocialPrefixes(name: seq<Octet>) returns (r: seq<Octet>)
    ensures r == Strip(name)
  {
    r := name;
    while Antisocial(r) > 0
      invariant Suffix(r) == Suffix(name)
      decreases |r|
    {
      var slash := 0;
      while r[slash] != '/'
        invariant slash < Antisocial(r) && forall k | 0 <= k < slash :: r[k] != '/'
        decreases Antisocial(r) - slash
      {
        slash := slash + 1;
      }
      r := r[slash + 1..];
    }
    if r == "" || r == ".." {
      r := ".";
    }
  }

  // ---------- Checksum ----------

  /** The sum of the first `n` characters, where those of the checksum field count as spaces. */
  function Checksum(h: seq<Octet>, n: nat): nat
    requires n <= |h|
  {
    if n == 0 then 0
    else Checksum(h, n - 1) + (if CHKSUM <= n - 1 < CHKSUM + 8 then ' ' else h[n - 1]) as int
  }

  method CalculateChksum(h: array<Octet>) returns (sum: nat)
    requires h.Length == HEADER_SIZE
    ensures sum == Checksum(h[..], HEADER_SIZE) == Sum(Spaced(h[..]))
  {
    ChecksumIsSum(h[..], HEADER_SIZE);
    assert Spaced(h[..])[..HEADER_SIZE] == Spaced(h[..]);
    sum := 0;
    for i := 0 to HEADER_SIZE
      invariant sum == Checksum(h[..], i)
    {
      sum := sum + (if CHKSUM <= i < CHKSUM + 8 then ' ' else h[i]) as int;
    }
  }

  /** The sum of the characters. */
  function Sum(s: seq<Octet>): nat {
    if s == [] then 0 else Sum(s[..|s| - 1]) + s[|s| - 1] as int
  }

  /** The header with spaces for its checksum field. */
  function Spaced(h: seq<Octet>): (r: seq<Octet>)
    requires |h| == HEADER_SIZE
    ensures |r| == |h|
  {
    h[..CHKSUM] + "        " + h[CHKSUM + 8..]
  }

  lemma {:induction false} ChecksumIsSum(h: seq<Octet>, n: nat)
    requires n <= |h| == HEADER_SIZE
    ensures Checksum(h, n) == Sum(Spaced(h)[..n])
  {
    if n > 0 {
      ChecksumIsSum(h, n - 1);
      var r := Spaced(h);
      assert r[..n][..n - 1] == r[..n - 1];
      assert r[n - 1] == if CHKSUM <= n - 1 < CHKSUM + 8 then ' ' else h[n - 1];
    }
  }

  lemma {:induction false} ChecksumFits(h: seq<Octet>, n: nat)
    requires n <= |h|
    ensures Checksum(h, n) <= 255 * n
  {
    if n > 0 {
      ChecksumFits(h, n - 1);
    }
  }

  /** The checksum does not depend on the checksum field. */
  lemma {:induction false} ChecksumSame(g: seq<Octet>, h: seq<Octet>, n: nat)
    requires n <= |g| == |h| && forall k | 0 <= k < |g| && !(CHKSUM <= k < CHKSUM + 8) :: g[k] == h[k]
    ensures Checksum(g, n) == Checksum(h, n)
  {
    if n > 0 {
      ChecksumSame(g, h, n - 1);
    }
  }

  // ---------- Octal fields ----------

  /** The number in a field of `size` characters at `ofs`, of which `i` have been read as `value`. */
  function ParseOctal(h: seq<Octet>, ofs: nat, size: nat, i: nat, value: nat): Option<nat>
    requires ofs + size <= |h|
    decreases size - i
  {
    if i >= size then None
    else
      var c := h[ofs + i];
      if '0' <= c <= '7' then
        if value > (TWO_32 - 1) / 8 then None
        else ParseOctal(h, ofs, size, i + 1, c as int - '0' as int + value * 8)
      else if c == ' ' || c == '\0' then if i > 0 then Some(value) else None
      else None
  }

  method ParseOctalField(h: array<Octet>, ofs: nat, size: nat) returns (r: Option<nat>)
    requires ofs + size <= h.Length
    ensures r == ParseOctal(h[..], ofs, size, 0, 0)
  {
    var value := 0;
    for i := 0 to size
      invariant value >= 0 && ParseOctal(h[..], ofs, size, i, value) == ParseOctal(h[..], ofs, size, 0, 0)
    {
      var c := h[ofs + i];
      if '0' <= c <= '7' {
        if value > 0xffff_ffff / 8 {
          return None;
        }
        value := c as int - '0' as int + value * 8;
      } else if c == ' ' || c == '\0' {
        return if i > 0 then Some(value) else None;
      } else {
        return None;
      }
    }
    return None;
  }

  /** The characters of `s` stand at `ofs`. */
  ghost predicate At(h: seq<Octet>, ofs: nat, s: seq<Octet>) {
    ofs + |s| <= |h| && forall k | 0 <= k < |s| :: h[ofs + k] == s[k]
  }

  lemma {:induction false} ReadingGrows(s: seq<Octet>, i: nat)
    requires i < |s| && IsOctal(s)
    ensures Reading(Octal, s, i) * 8 <= Reading(Octal, s, |s|)
    decreases |s| - i
  {
    if i + 1 < |s| {
      ReadingGrows(s, i + 1);
    }
  }

  /** Reading an octal field gives the number that its digits stand for. */
  lemma {:induction false} ParsesDigits(h: seq<Octet>, ofs: nat, size: nat, s: seq<Octet>, i: nat)
    requires i <= |s| && 0 < |s| < size && ofs + size <= |h|
    requires At(h, ofs, s) && (h[ofs + |s|] == '\0' || h[ofs + |s|] == ' ') && IsOctal(s) && Reading(Octal, s, |s|) < TWO_32
    ensures ParseOctal(h, ofs, size, i, Reading(Octal, s, i)) == Some(Reading(Octal, s, |s|))
    decreases |s| - i
  {
    if i < |s| {
      assert h[ofs + i] == s[i];
      ReadingGrows(s, i);
      ParsesDigits(h, ofs, size, s, i + 1);
    }
  }

  /** A field holds `v`: octal digits that stand for it, of which there is at least one, and a space or a null
      character behind them within the field. */
  ghost predicate FieldIs(h: seq<Octet>, ofs: nat, size: nat, v: nat)
    requires ofs + size <= |h|
  {
    exists n: nat :: FieldEndsAt(h, ofs, size, v, n)
  }

  ghost predicate FieldEndsAt(h: seq<Octet>, ofs: nat, size: nat, v: nat, n: nat)
    requires ofs + size <= |h|
  {
    && 0 < n < size && (h[ofs + n] == ' ' || h[ofs + n] == '\0')
    && IsOctal(h[ofs..ofs + n]) && Reading(Octal, h[ofs..ofs + n], n) == v
  }

  /** A field parses to a number exactly if it holds it and it fits in 32 bits. */
  lemma {:induction false} ParsesIff(h: seq<Octet>, ofs: nat, size: nat, v: nat)
    requires ofs + size <= |h|
    ensures ParseOctal(h, ofs, size, 0, 0) == Some(v) <==> v < TWO_32 && FieldIs(h, ofs, size, v)
  {
    if ParseOctal(h, ofs, size, 0, 0) == Some(v) {
      var n := ParsedField(h, ofs, size, 0, v);
      assert FieldEndsAt(h, ofs, size, v, n);
    }
    if v < TWO_32 && FieldIs(h, ofs, size, v) {
      var n: nat :| FieldEndsAt(h, ofs, size, v, n);
      ParsesDigits(h, ofs, size, h[ofs..ofs + n], 0);
    }
  }

  lemma {:induction false} ParsedField(h: seq<Octet>, ofs: nat, size: nat, i: nat, v: nat) returns (n: nat)
    requires ofs + size <= |h| && i <= size && IsOctal(h[ofs..ofs + i])
    requires Reading(Octal, h[ofs..ofs + i], i) < TWO_32
    requires ParseOctal(h, ofs, size, i, Reading(Octal, h[ofs..ofs + i], i)) == Some(v)
    ensures i <= n && FieldEndsAt(h, ofs, size, v, n) && v < TWO_32
    decreases size - i
  {
    var c := h[ofs + i];
    if '0' <= c <= '7' {
      ReadingMore(h[ofs..ofs + i], h[ofs..ofs + i + 1]);
      n := ParsedField(h, ofs, size, i + 1, v);
    } else {
      n := i;
    }
  }

  lemma {:induction false} ReadingMore(s: seq<Octet>, t: seq<Octet>)
    requires |t| == |s| + 1 && t[..|s|] == s && '0' <= t[|s|] <= '7'
    ensures Reading(Octal, t, |t|) == Reading(Octal, s, |s|) * 8 + (t[|s|] as int - '0' as int)
  {
    ReadingSame(s, t, |s|);
  }

  lemma {:induction false} ReadingSame(s: seq<Octet>, t: seq<Octet>, n: nat)
    requires n <= |s| <= |t| && t[..|s|] == s
    ensures Reading(Octal, s, n) == Reading(Octal, t, n)
  {
    if n > 0 {
      ReadingSame(s, t, n - 1);
      assert t[..|s|][n - 1] == t[n - 1];
    }
  }

  // ---------- Writing a header ----------

  /** `s` are `w` octal digits that stand for `v`. */
  ghost predicate Spells(s: seq<Octet>, w: nat, v: nat) {
    |s| == w && IsOctal(s) && Reading(Octal, s, w) == v
  }

  /** A C int as the unsigned number that a conversion takes it for. */
  function Unsigned(size: int): nat
    requires -0x8000_0000 <= size < 0x8000_0000
  {
    if size < 0 then size + TWO_32 else size
  }

  /** `h` with `s` and a null terminator at `ofs`. */
  function Put(h: seq<Octet>, ofs: nat, s: seq<Octet>): (r: seq<Octet>)
    requires ofs + |s| < |h|
    ensures |r| == |h|
    ensures forall k | 0 <= k < |h| ::
              r[k] == if ofs <= k < ofs + |s| then s[k - ofs] else if k == ofs + |s| then '\0' else h[k]
  {
    seq(|h|, k requires 0 <= k < |h| =>
      if ofs <= k < ofs + |s| then s[k - ofs] else if k == ofs + |s| then '\0' else h[k])
  }

  method StrCopy(h: array<Octet>, ofs: nat, s: seq<Octet>)
    requires ofs + |s| < h.Length
    modifies h
    ensures h[..] == Put(old(h[..]), ofs, s)
  {
    for i := 0 to |s|
      invariant forall k | 0 <= k < h.Length :: h[k] == if ofs <= k < ofs + i then s[k - ofs] else old(h[k])
    {
      h[ofs + i] := s[i];
    }
    h[ofs + |s|] := '\0';
  }

  /** A number printed into a field of eight characters, which it fills with its terminator. */
  method PutSeven(h: array<Octet>, ofs: nat, v: nat) returns (ghost text: seq<Octet>)
    requires ofs + 8 <= h.Length && v < 0x20_0000
    modifies h
    ensures Spells(text, 7, v) && h[..] == Put(old(h[..]), ofs, text)
  {
    text := SevenDigits(v);
    PutNumber(h, ofs, "%07o", v, 8, text);
  }

  method PutEleven(h: array<Octet>, ofs: nat, v: nat) returns (ghost text: seq<Octet>)
    requires ofs + 12 <= h.Length && v < TWO_32
    modifies h
    ensures Spells(text, 11, v) && h[..] == Put(old(h[..]), ofs, text)
  {
    text := ElevenDigits(v);
    PutNumber(h, ofs, "%011o", v, 12, text);
  }

  method PutNumber(h: array<Octet>, ofs: nat, format: seq<Octet>, v: nat, size: nat, ghost text: seq<Octet>)
    requires OneUnsigned(format) && v < TWO_32 && text == Text(format, v)
    requires |text| + 1 == size && ofs + size <= h.Length
    modifies h
    ensures h[..] == Put(old(h[..]), ofs, text)
  {
    var n := Snprintf(h, ofs, size, format, v);
  }

  /** The text of a number of at most `w` octal digits under a format that asks for `w`. */
  lemma {:induction false} PaddedText(format: seq<Octet>, v: nat, w: nat)
    requires OneUnsigned(format) && format[|format| - 1] == 'o' && Specified(format, 1) == ZeroPad(w)
    requires w > 0 && v < Pow2(3 * w)
    ensures Spells(Text(format, v), w, v)
  {
    ZeroPaddedOctal(v, w);
  }

  lemma SevenDigits(v: nat) returns (text: seq<Octet>)
    requires v < 0x20_0000
    ensures OneUnsigned("%07o") && text == Text("%07o", v) && Spells(text, 7, v)
  {
    SevenOctal();
    assert v < Pow2(21) by {
      Pow2Sum(16, 5);
      Pow2Small();
    }
    PaddedText("%07o", v, 7);
    text := Text("%07o", v);
  }

  lemma ElevenDigits(v: nat) returns (text: seq<Octet>)
    requires v < TWO_32
    ensures OneUnsigned("%011o") && text == Text("%011o", v) && Spells(text, 11, v)
  {
    ElevenOctal();
    assert v < Pow2(33) by {
      Pow2Large();
      Pow2Monotone(32, 33);
    }
    PaddedText("%011o", v, 11);
    text := Text("%011o", v);
  }

  /** A header without its checksum, from the text of its fields. */
  function Layout(name: seq<Octet>, mode: seq<Octet>, size: seq<Octet>, mtime: seq<Octet>, flag: Octet): (h: seq<Octet>)
    requires |name| <= 99 && |mode| == 7 && |size| == |mtime| == 11
    ensures |h| == HEADER_SIZE
  {
    var h := Put(seq(HEADER_SIZE, i => '\0'), NAME, name);
    var h := Put(Put(Put(h, MODE, mode), UID, "0000000"), GID, "0000000");
    var h := Put(Put(h, SIZE, size), MTIME, mtime)[TYPEFLAG := flag];
    var h := Put(h, MAGIC, "ustar")[VERSION := '0'][VERSION + 1 := '0'];
    Put(Put(h, GNAME, "root"), UNAME, "root")
  }

  method FillHeader(name: seq<Octet>, kind: Kind, bytes: int, h: array<Octet>)
    returns (ghost mode: seq<Octet>, ghost size: seq<Octet>, ghost mtime: seq<Octet>)
    requires h.Length == HEADER_SIZE && |name| <= 99 && -0x8000_0000 <= bytes < 0x8000_0000
    modifies h
    ensures Spells(mode, 7, kind.Mode()) && Spells(size, 11, Unsigned(bytes)) && Spells(mtime, 11, 1136102400)
    ensures h[..] == Layout(name, mode, size, mtime, kind.Flag())
  {
    for i := 0 to HEADER_SIZE
      invariant forall k | 0 <= k < i :: h[k] == '\0'
    {
      h[i] := '\0';
    }
    assert h[..] == seq(HEADER_SIZE, i => '\0');
    StrCopy(h, NAME, name);
    mode := PutSeven(h, MODE, kind.Mode());
    StrCopy(h, UID, "0000000");
    StrCopy(h, GID, "0000000");
    size := PutEleven(h, SIZE, Unsigned(bytes));
    mtime := PutEleven(h, MTIME, 1136102400);
    ghost var before: seq<Octet> := h[..];
    h[TYPEFLAG] := kind.Flag();
    assert h[..] == before[TYPEFLAG := kind.Flag()];
    StrCopy(h, MAGIC, "ustar");
    before := h[..];
    h[VERSION], h[VERSION + 1] := '0', '0';
    assert h[..] == before[VERSION := '0'][VERSION + 1 := '0'];
    StrCopy(h, GNAME, "root");
    StrCopy(h, UNAME, "root");
  }

  /** A field of `w` octal digits that stand for `v`, with its terminator. */
  ghost predicate Number(h: seq<Octet>, ofs: nat, w: nat, v: nat) {
    ofs + w < |h| && Spells(h[ofs..ofs + w], w, v) && h[ofs + w] == '\0'
  }

  /** The positions that no field of a header with a name of `n` characters uses. */
  predicate Spare(k: nat, n: nat) {
    n <= k < MODE || TYPEFLAG < k < MAGIC || k == MAGIC + 5 || UNAME + 4 <= k < GNAME || GNAME + 4 <= k
  }

  /** `h` is the header of a file: what each of its characters is. */
  ghost predicate Encodes(h: seq<Octet>, name: seq<Octet>, kind: Kind, bytes: int)
    requires -0x8000_0000 <= bytes < 0x8000_0000
  {
    && |h| == HEADER_SIZE && |name| <= 99
    && At(h, NAME, name)
    && Number(h, MODE, 7, kind.Mode())
    && At(h, UID, "0000000\0") && At(h, GID, "0000000\0")
    && Number(h, SIZE, 11, Unsigned(bytes))
    && Number(h, MTIME, 11, 1136102400)
    && Number(h, CHKSUM, 7, Checksum(h, HEADER_SIZE))
    && h[TYPEFLAG] == kind.Flag()
    && At(h, MAGIC, "ustar") && At(h, VERSION, "00") && At(h, UNAME, "root") && At(h, GNAME, "root")
    && (forall k | 0 <= k < HEADER_SIZE && Spare(k, |name|) :: h[k] == '\0')
  }

  lemma LayoutFields(name: seq<Octet>, mode: seq<Octet>, size: seq<Octet>, mtime: seq<Octet>, flag: Octet, sum: seq<Octet>)
    requires |name| <= 99 && |mode| == |sum| == 7 && |size| == |mtime| == 11
    ensures var h := Put(Layout(name, mode, size, mtime, flag), CHKSUM, sum);
            && At(h, NAME, name) && At(h, MODE, mode) && At(h, UID, "0000000\0") && At(h, GID, "0000000\0")
            && At(h, SIZE, size) && At(h, MTIME, mtime) && At(h, CHKSUM, sum) && h[TYPEFLAG] == flag
            && At(h, MAGIC, "ustar") && At(h, VERSION, "00") && At(h, UNAME, "root") && At(h, GNAME, "root")
            && h[MODE + 7] == h[SIZE + 11] == h[MTIME + 11] == h[CHKSUM + 7] == '\0'
            && (forall k | 0 <= k < HEADER_SIZE && Spare(k, |name|) :: h[k] == '\0')
  {
  }

  lemma FieldNumber(h: seq<Octet>, ofs: nat, s: seq<Octet>, v: nat)
    requires At(h, ofs, s) && Spells(s, |s|, v) && ofs + |s| < |h| && h[ofs + |s|] == '\0'
    ensures Number(h, ofs, |s|, v)
  {
    assert h[ofs..ofs + |s|] == s;
  }

  method MakeHeader(fileName: seq<Octet>, kind: Kind, bytes: int, h: array<Octet>) returns (ok: bool)
    requires h.Length == HEADER_SIZE && -0x8000_0000 <= bytes < 0x8000_0000
    modifies h
    ensures ok <==> |Strip(fileName)| <= 99
    ensures if ok then Encodes(h[..], Strip(fileName), kind, bytes) else h[..] == old(h[..])
  {
    var name := StripAntisocialPrefixes(fileName);
    if |name| > 99 {
      return false;
    }
    ghost var mode, size, mtime := FillHeader(name, kind, bytes, h);
    var chksum := CalculateChksum(h);
    ghost var before := h[..];
    ChecksumFits(before, HEADER_SIZE);
    ghost var sum := PutSeven(h, CHKSUM, chksum);
    LayoutFields(name, mode, size, mtime, kind.Flag(), sum);
    ChecksumSame(before, h[..], HEADER_SIZE);
    FieldNumber(h[..], MODE, mode, kind.Mode());
    FieldNumber(h[..], SIZE, size, Unsigned(bytes));
    FieldNumber(h[..], MTIME, mtime, 1136102400);
    FieldNumber(h[..], CHKSUM, sum, chksum);
    return true;
  }

  // ---------- Reading a header ----------

  datatype Parsed = EndOfArchive | Entry(name: seq<Octet>, kind: Kind, size: nat) | Failed(message: string)

  predicate AllZeros(h: seq<Octet>) {
    forall k | 0 <= k < |h| :: h[k] == '\0'
  }

  /** The C string at the start of `h`, of which `i` characters are known not to end it. */
  function CString(h: seq<Octet>, i: nat): (s: seq<Octet>)
    requires i <= |h|
    ensures i <= |s| <= |h| && s == h[..|s|] && (forall k | i <= k < |s| :: s[k] != '\0')
    ensures |s| == |h| || h[|s|] == '\0'
    decreases |h| - i
  {
    if i == |h| || h[i] == '\0' then h[..i] else CString(h, i + 1)
  }

  function Parse(h: seq<Octet>): Parsed
    requires |h| == HEADER_SIZE
  {
    if AllZeros(h) then EndOfArchive
    else if h[MAGIC..MAGIC + 6] != "ustar\0" then Failed("not a ustar archive")
    else if h[VERSION] != '0' || h[VERSION + 1] != '0' then Failed("invalid ustar version")
    else if ParseOctal(h, CHKSUM, 8, 0, 0).None? then Failed("corrupt chksum field")
    else if ParseOctal(h, CHKSUM, 8, 0, 0).value != Checksum(h, HEADER_SIZE) then Failed("checksum mismatch")
    else if h[MODE - 1] != '\0' || h[PREFIX] != '\0' then Failed("file name too long")
    else if h[TYPEFLAG] == '5' then Entry(Strip(CString(h, 0)), Directory, 0)
    else if h[TYPEFLAG] != '0' then Failed("unimplemented file type")
    else if ParseOctal(h, SIZE, 12, 0, 0).None? then Failed("corrupt file size field")
    else if ParseOctal(h, SIZE, 12, 0, 0).value > 0x7fff_ffff then Failed("file too large")
    else Entry(Strip(CString(h, 0)), Regular, ParseOctal(h, SIZE, 12, 0, 0).value)
  }

  method IsAllZeros(h: array<Octet>) returns (zeros: bool)
    ensures zeros == AllZeros(h[..])
  {
    for i := 0 to h.Length
      invariant forall k | 0 <= k < i :: h[k] == '\0'
    {
      if h[i] != '\0' {
        return false;
      }
    }
    return true;
  }

  method NameOf(h: array<Octet>) returns (name: seq<Octet>)
    ensures name == CString(h[..], 0)
  {
    var i := 0;
    while i < h.Length && h[i] != '\0'
      invariant 0 <= i <= h.Length && CString(h[..], i) == CString(h[..], 0)
    {
      i := i + 1;
    }
    name := h[..i];
    assert h[..][..i] == h[..i];
  }

  method ParseHeader(h: array<Octet>) returns (r: Parsed)
    requires h.Length == HEADER_SIZE
    ensures r == Parse(h[..])
  {
    var zeros := IsAllZeros(h);
    if zeros {
      return EndOfArchive;
    }
    var chksum := ParseOctalField(h, CHKSUM, 8);
    var sum := CalculateChksum(h);
    if h[MAGIC..MAGIC + 6] != "ustar\0" {
      return Failed("not a ustar archive");
    } else if h[VERSION] != '0' || h[VERSION + 1] != '0' {
      return Failed("invalid ustar version");
    } else if chksum.None? {
      return Failed("corrupt chksum field");
    } else if chksum.value != sum {
      return Failed("checksum mismatch");
    } else if h[MODE - 1] != '\0' || h[PREFIX] != '\0' {
      return Failed("file name too long");
    } else if h[TYPEFLAG] != '0' && h[TYPEFLAG] != '5' {
      return Failed("unimplemented file type");
    }
    var size := 0;
    if h[TYPEFLAG] == '0' {
      var field := ParseOctalField(h, SIZE, 12);
      if field.None? {
        return Failed("corrupt file size field");
      } else if field.value > 0x7fff_ffff {
        return Failed("file too large");
      }
      size := field.value;
    }
    var name := NameOf(h);
    name := StripAntisocialPrefixes(name);
    return Entry(name, if h[TYPEFLAG] == '0' then Regular else Directory, size);
  }

  // ---------- Round trip ----------

  predicate NoNull(s: seq<Octet>) {
    forall k | 0 <= k < |s| :: s[k] != '\0'
  }

  lemma StripNoNull(name: seq<Octet>)
    requires NoNull(name)
    ensures NoNull(Strip(name))
  {
    SuffixIsSuffix(name);
  }

  lemma {:induction false} NameReadBack(h: seq<Octet>, name: seq<Octet>, i: nat)
    requires At(h, 0, name) && NoNull(name) && i <= |name| < |h| && h[|name|] == '\0'
    ensures CString(h, i) == name
    decreases |name| - i
  {
    if i < |name| {
      assert h[0 + i] == name[i];
      NameReadBack(h, name, i + 1);
    } else {
      assert h[..i] == name;
    }
  }

  lemma {:induction false} NumberReadBack(h: seq<Octet>, ofs: nat, w: nat, v: nat)
    requires Number(h, ofs, w, v) && w > 0 && v < TWO_32
    ensures ParseOctal(h, ofs, w + 1, 0, 0) == Some(v)
  {
    ParsesDigits(h, ofs, w + 1, h[ofs..ofs + w], 0);
  }

  /** Parsing the header made for a file gives back its stripped name, its type and its size, which
      is 0 for a directory; and it does so exactly if the file is a directory or its size is not
      negative. */
  lemma RoundTrip(h: seq<Octet>, fileName: seq<Octet>, kind: Kind, bytes: int)
    requires -0x8000_0000 <= bytes < 0x8000_0000 && NoNull(fileName)
    requires Encodes(h, Strip(fileName), kind, bytes)
    ensures kind.Directory? ==> Parse(h) == Entry(Strip(fileName), Directory, 0)
    ensures kind.Regular? && bytes >= 0 ==> Parse(h) == Entry(Strip(fileName), Regular, bytes)
    ensures kind.Regular? && bytes < 0 ==> Parse(h) == Failed("file too large")
  {
    var name := Strip(fileName);
    StripNoNull(fileName);
    StripIsSociable(fileName);
    NameReadBack(h, name, 0);
    ChecksumFits(h, HEADER_SIZE);
    NumberReadBack(h, CHKSUM, 7, Checksum(h, HEADER_SIZE));
    NumberReadBack(h, SIZE, 11, Unsigned(bytes));
    MagicReadBack(h, name, kind, bytes);
  }

  lemma MagicReadBack(h: seq<Octet>, name: seq<Octet>, kind: Kind, bytes: int)
    requires -0x8000_0000 <= bytes < 0x8000_0000 && Encodes(h, name, kind, bytes)
    ensures !AllZeros(h) && h[MAGIC..MAGIC + 6] == "ustar\0" && h[VERSION] == h[VERSION + 1] == '0'
    ensures h[MODE - 1] == h[PREFIX] == '\0'
  {
    assert h[MAGIC + 0] == "ustar"[0] && h[MAGIC + 1] == "ustar"[1] && h[MAGIC + 2] == "ustar"[2];
    assert h[MAGIC + 3] == "ustar"[3] && h[MAGIC + 4] == "ustar"[4];
    assert Spare(MAGIC + 5, |name|) && Spare(MODE - 1, |name|) && Spare(PREFIX, |name|);
    assert h[VERSION + 0] == "00"[0] && h[VERSION + 1] == "00"[1];
  }

  /** Making a header and parsing it, as one call after the other. */
  method MakeThenParse(fileName: seq<Octet>, kind: Kind, bytes: int) returns (ok: bool, r: Parsed)
    requires -0x8000_0000 <= bytes < 0x8000_0000 && NoNull(fileName)
    ensures ok <==> |Strip(fileName)| <= 99
    ensures ok ==> (r == Entry(Strip(fileName), kind, if kind.Directory? || bytes < 0 then 0 else bytes)
                    <==> kind.Directory? || bytes >= 0)
  {
    var h := new Octet[HEADER_SIZE];
    r := EndOfArchive;
    ok := MakeHeader(fileName, kind, bytes, h);
    if ok {
      r := ParseHeader(h);
      RoundTrip(h[..], fileName, kind, bytes);
    }
  }

  // ---------- What is accepted ----------

  /** The fields of a header are as the format demands, and the name fits in its own field. */
  ghost predicate Acceptable(h: seq<Octet>)
    requires |h| == HEADER_SIZE
  {
    && At(h, MAGIC, "ustar\0") && At(h, VERSION, "00")
    && FieldIs(h, CHKSUM, 8, Checksum(h, HEADER_SIZE))
    && h[MODE - 1] == '\0' && h[PREFIX] == '\0'
    && (h[TYPEFLAG] == '5' || (h[TYPEFLAG] == '0' && exists v: nat :: v <= 0x7fff_ffff && FieldIs(h, SIZE, 12, v)))
  }

  /** Exactly the acceptable headers are accepted, and all zeros is the end of an archive. The type and the size
      are those of the fields, and the name is the stripped text of its field. */
  lemma {:induction false} AcceptedIff(h: seq<Octet>)
    requires |h| == HEADER_SIZE
    ensures Parse(h).Entry? <==> Acceptable(h)
    ensures Parse(h).EndOfArchive? <==> AllZeros(h)
    ensures Parse(h).Entry? ==>
              && Parse(h).name == Strip(CString(h, 0))
              && (if h[TYPEFLAG] == '5' then Parse(h).kind.Directory? && Parse(h).size == 0
                  else Parse(h).kind.Regular? && FieldIs(h, SIZE, 12, Parse(h).size))
  {
    MagicIs(h);
    ChecksumFits(h, HEADER_SIZE);
    ParsesIff(h, CHKSUM, 8, Checksum(h, HEADER_SIZE));
    var size := ParseOctal(h, SIZE, 12, 0, 0);
    if size.Some? {
      ParsesIff(h, SIZE, 12, size.value);
    }
    if h[TYPEFLAG] == '0' && exists v: nat :: v <= 0x7fff_ffff && FieldIs(h, SIZE, 12, v) {
      var v: nat :| v <= 0x7fff_ffff && FieldIs(h, SIZE, 12, v);
      ParsesIff(h, SIZE, 12, v);
    }
  }

  lemma MagicIs(h: seq<Octet>)
    requires |h| == HEADER_SIZE
    ensures h[MAGIC..MAGIC + 6] == "ustar\0" <==> At(h, MAGIC, "ustar\0")
    ensures At(h, VERSION, "00") <==> h[VERSION] == h[VERSION + 1] == '0'
    ensures At(h, MAGIC, "ustar\0") ==> !AllZeros(h)
  {
    if At(h, MAGIC, "ustar\0") {
      assert "ustar\0"[0] == 'u' && h[MAGIC + 0] == "ustar\0"[0];
    }
    if At(h, VERSION, "00") {
      assert h[VERSION + 0] == "00"[0] && h[VERSION + 1] == "00"[1];
    }
    if h[MAGIC..MAGIC + 6] == "ustar\0" {
      forall k | 0 <= k < 6
        ensures h[MAGIC + k] == "ustar\0"[k]
      {
        assert h[MAGIC..MAGIC + 6][k] == "ustar\0"[k];
      }
    }
  }

  // ---------- Damage ----------

  lemma {:induction false} ChecksumChanges(h: seq<Octet>, k: nat, c: Octet, n: nat)
    requires n <= |h| && k < |h| && !(CHKSUM <= k < CHKSUM + 8)
    ensures Checksum(h[k := c], n) == Checksum(h, n) + (if k < n then c as int - h[k] as int else 0)
  {
    if n > 0 {
      ChecksumChanges(h, k, c, n - 1);
    }
  }

  lemma {:induction false} FieldUntouched(g: seq<Octet>, h: seq<Octet>, ofs: nat, size: nat, i: nat, value: nat)
    requires |g| == |h| && ofs + size <= |h| && forall k | ofs <= k < ofs + size :: g[k] == h[k]
    ensures ParseOctal(g, ofs, size, i, value) == ParseOctal(h, ofs, size, i, value)
    decreases size - i
  {
    if i < size && value <= (TWO_32 - 1) / 8 && '0' <= h[ofs + i] <= '7' {
      FieldUntouched(g, h, ofs, size, i + 1, h[ofs + i] as int - '0' as int + value * 8);
    }
  }

  /** A header with one character changed, outside the checksum field, is not accepted. */
  lemma DamageDetected(h: seq<Octet>, k: nat, c: Octet)
    requires |h| == HEADER_SIZE && Parse(h).Entry?
    requires k < HEADER_SIZE && !(CHKSUM <= k < CHKSUM + 8) && c != h[k]
    ensures Parse(h[k := c]).Failed?
  {
    var g := h[k := c];
    ChecksumChanges(h, k, c, HEADER_SIZE);
    FieldUntouched(g, h, CHKSUM, 8, 0, 0);
    assert !AllZeros(g) by {
      assert h[MAGIC..MAGIC + 6][0] == 'u' && h[MAGIC..MAGIC + 6][1] == 's';
      assert g[MAGIC] == 'u' || g[MAGIC + 1] == 's';
    }
  }
}
