/** The integer conversions of printf in lib/stdio.c, and the buffer that snprintf puts them in. */
module Printf {
  import opened Bits
  import opened Nonlinear

  /** A character of the C program. */
  type Octet = c: char | c as int < 256

  datatype Conversion = Conversion(minus: bool, plus: bool, space: bool, pound: bool, zero: bool, group: bool,
                                   width: nat, precision: int)

  datatype Base = Decimal | Octal | LowerHex | UpperHex {
    function Radix(): nat {
      match this
      case Decimal => 10
      case Octal => 8
      case _ => 16
    }

    /** The number of digits to a group. */
    function Group(): nat {
      if LowerHex? || UpperHex? then 4 else 3
    }

    /** What precedes a nonzero number under the flag '#'. */
    function Prefix(): seq<Octet> {
      match this
      case LowerHex => ['0', 'x']
      case UpperHex => ['0', 'X']
      case _ => []
    }

    function Digit(d: nat): Octet
      requires d < Radix()
    {
      if d < 10 then ('0' as int + d) as char
      else ((if UpperHex? then 'A' else 'a') as int + d - 10) as char
    }

    /** The digit that a character stands for. */
    function Worth(c: Octet): nat {
      if '0' <= c <= '9' then c as int - '0' as int
      else if 'A' <= c <= 'F' then c as int - 'A' as int + 10
      else if 'a' <= c <= 'f' then c as int - 'a' as int + 10
      else 0
    }
  }

  // ---------- The digits ----------

  /** The digits of `v`, lowest first, and a comma before each new group; `cnt` are out already. */
  function Digits(v: nat, b: Base, group: bool, cnt: nat): seq<Octet>
    decreases v
  {
    if v == 0 then []
    else Comma(b, group, cnt) + [b.Digit(v % b.Radix())] + Digits(v / b.Radix(), b, group, cnt + 1)
  }

  function Comma(b: Base, group: bool, cnt: nat): seq<Octet> {
    if group && cnt > 0 && cnt % b.Group() == 0 then [','] else []
  }

  function Dup(c: Octet, n: int): (s: seq<Octet>) {
    if n <= 0 then [] else seq(n, i => c)
  }

  /** Zeros up to the precision, as far as the buffer has room; without one, up to one digit. */
  function Precise(digits: seq<Octet>, precision: int): seq<Octet> {
    digits + Dup('0', (if precision < 0 then 1 else if precision > 63 then 63 else precision) - |digits|)
  }

  /** The buffer of a conversion, lowest place first. */
  function Body(v: nat, b: Base, c: Conversion): seq<Octet> {
    var s := Precise(Digits(v, b, c.group, 0), c.precision);
    s + Dup('0', if c.pound && b.Octal? && (s == [] || s[|s| - 1] != '0') then 1 else 0)
  }

  function Reversed(s: seq<Octet>): seq<Octet> {
    seq(|s|, i requires 0 <= i < |s| => s[|s| - 1 - i])
  }

  /** The number that the first `n` characters stand for, highest digit first; commas do not count. */
  function Reading(b: Base, s: seq<Octet>, n: nat): nat
    requires n <= |s|
  {
    if n == 0 then 0
    else if s[n - 1] == ',' then Reading(b, s, n - 1)
    else Reading(b, s, n - 1) * b.Radix() + b.Worth(s[n - 1])
  }

  /** The number that a buffer from position `i` on stands for, lowest digit first. */
  function Low(b: Base, s: seq<Octet>, i: nat): nat
    decreases |s| - i
  {
    if i >= |s| then 0
    else if s[i] == ',' then Low(b, s, i + 1)
    else Low(b, s, i + 1) * b.Radix() + b.Worth(s[i])
  }

  lemma {:induction false} ReadReversed(b: Base, s: seq<Octet>, i: nat)
    requires i <= |s|
    ensures Reading(b, Reversed(s), |s| - i) == Low(b, s, i)
    decreases |s| - i
  {
    if i < |s| {
      ReadReversed(b, s, i + 1);
    }
  }

  lemma {:induction false} LowBehind(b: Base, p: seq<Octet>, s: seq<Octet>, i: nat)
    ensures Low(b, p + s, |p| + i) == Low(b, s, i)
    decreases |s| - i
  {
    if i < |s| {
      LowBehind(b, p, s, i + 1);
    }
  }

  lemma DigitWorth(b: Base, d: nat)
    requires d < b.Radix()
    ensures b.Digit(d) != ',' && b.Worth(b.Digit(d)) == d
  {
  }

  /** The digits of a number stand for it, in every base and with or without groups. */
  lemma {:induction false} DigitsReadBack(v: nat, b: Base, group: bool, cnt: nat)
    ensures Low(b, Digits(v, b, group, cnt), 0) == v
    decreases v
  {
    if v > 0 {
      var r := b.Radix();
      var p, rest := Comma(b, group, cnt) + [b.Digit(v % r)], Digits(v / r, b, group, cnt + 1);
      DigitsReadBack(v / r, b, group, cnt + 1);
      DigitWorth(b, v % r);
      LowBehind(b, p, rest, 0);
    }
  }

  /** Zeros at the high end of a buffer do not count. */
  lemma {:induction false} LowZeros(b: Base, s: seq<Octet>, n: int, i: nat)
    ensures Low(b, s + Dup('0', n), i) == Low(b, s, i)
    decreases |s + Dup('0', n)| - i
  {
    if i < |s + Dup('0', n)| {
      LowZeros(b, s, n, i + 1);
    }
  }

  lemma {:induction false} PreciseLow(b: Base, digits: seq<Octet>, precision: int)
    ensures Low(b, Precise(digits, precision), 0) == Low(b, digits, 0)
  {
    LowZeros(b, digits, (if precision < 0 then 1 else if precision > 63 then 63 else precision) - |digits|, 0);
  }

  lemma {:induction false} BodyLow(v: nat, b: Base, c: Conversion)
    ensures Low(b, Body(v, b, c), 0) == v
  {
    var s := Precise(Digits(v, b, c.group, 0), c.precision);
    DigitsReadBack(v, b, c.group, 0);
    PreciseLow(b, Digits(v, b, c.group, 0), c.precision);
    LowZeros(b, s, if c.pound && b.Octal? && (s == [] || s[|s| - 1] != '0') then 1 else 0, 0);
  }

  /** What a conversion puts in its buffer stands for the number converted. */
  lemma {:induction false} BodyReadsBack(v: nat, b: Base, c: Conversion)
    ensures var s := Reversed(Body(v, b, c)); Reading(b, s, |s|) == v
  {
    BodyLow(v, b, c);
    ReadReversed(b, Body(v, b, c), 0);
  }

  /** The digits of a 64-bit number and their commas fit in the buffer. */
  lemma {:induction false} DigitsFit(v: nat, b: Base, group: bool, cnt: nat, n: nat)
    requires v < Pow2(3 * n)
    ensures |Digits(v, b, group, cnt)| <= 2 * n
    decreases v
  {
    if v > 0 {
      assert n > 0;
      Pow2Sum(3, 3 * n - 3);
      assert Pow2(3) == 8;
      assert v / b.Radix() < Pow2(3 * n - 3);
      DigitsFit(v / b.Radix(), b, group, cnt + 1, n - 1);
    }
  }

  // ---------- The text ----------

  function Sign(signed: bool, negative: bool, c: Conversion): seq<Octet> {
    if !signed then []
    else if negative then ['-']
    else if c.plus then ['+']
    else if c.space then [' ']
    else []
  }

  function Prefix(v: nat, b: Base, c: Conversion): seq<Octet> {
    if c.pound && v != 0 then b.Prefix() else []
  }

  /** A sign, a prefix and the digits of a number, `body`, filled up to the width. */
  function Laid(sign: seq<Octet>, prefix: seq<Octet>, body: seq<Octet>, c: Conversion): seq<Octet> {
    var pad := c.width - |body| - |prefix| - |sign|;
    Dup(' ', if c.minus || c.zero then 0 else pad) + sign + prefix
    + Dup('0', if c.zero then pad else 0) + Reversed(body) + Dup(' ', if c.minus then pad else 0)
  }

  /** The text of a number of magnitude `v`. */
  function Rendered(v: nat, signed: bool, negative: bool, b: Base, c: Conversion): seq<Octet> {
    Laid(Sign(signed, negative, c), Prefix(v, b, c), Body(v, b, c), c)
  }

  // ---------- What the text looks like ----------

  /** A digit in the letters of its base, or a comma between groups. */
  predicate Plain(ch: Octet, b: Base, group: bool) {
    || '0' <= ch <= '9'
    || (b.LowerHex? && 'a' <= ch <= 'f')
    || (b.UpperHex? && 'A' <= ch <= 'F')
    || (group && ch == ',')
  }

  ghost predicate AllPlain(s: seq<Octet>, b: Base, group: bool) {
    forall k | 0 <= k < |s| :: Plain(s[k], b, group)
  }

  lemma DigitPlain(b: Base, d: nat)
    requires d < b.Radix()
    ensures Plain(b.Digit(d), b, false) && b.Digit(d) != ',' && (d > 0 ==> b.Digit(d) != '0')
  {
  }

  lemma {:induction false} DigitsPlain(v: nat, b: Base, group: bool, cnt: nat)
    ensures AllPlain(Digits(v, b, group, cnt), b, group)
    decreases v
  {
    if v > 0 {
      DigitPlain(b, v % b.Radix());
      DigitsPlain(v / b.Radix(), b, group, cnt + 1);
    }
  }

  /** The digits of a number that is not zero begin, at the high end, with one that is not zero. */
  lemma {:induction false} DigitsTop(v: nat, b: Base, group: bool, cnt: nat)
    requires v > 0
    ensures var s := Digits(v, b, group, cnt); s != [] && s[|s| - 1] != '0' && s[|s| - 1] != ','
    decreases v
  {
    var r := b.Radix();
    DigitPlain(b, v % r);
    var rest := Digits(v / r, b, group, cnt + 1);
    assert Digits(v, b, group, cnt) == Comma(b, group, cnt) + [b.Digit(v % r)] + rest;
    if v / r > 0 {
      DigitsTop(v / r, b, group, cnt + 1);
    } else {
      assert v % r == v;
    }
  }

  /** In `s`, of which `run` digits have gone before since the last comma, a comma stands before every digit that would
      make a group of more than `g`, and nowhere else. */
  predicate Grouped(s: seq<Octet>, run: nat, g: nat) {
    s == [] || if s[0] == ',' then run == g && Grouped(s[1..], 0, g) else run < g && Grouped(s[1..], run + 1, g)
  }

  /** The digits that are out since the last comma, when `cnt` are out in all. */
  function Since(b: Base, cnt: nat): nat {
    if cnt == 0 then 0 else if cnt % b.Group() == 0 then b.Group() else cnt % b.Group()
  }

  lemma SinceMore(b: Base, cnt: nat)
    ensures Comma(b, true, cnt) != [] <==> Since(b, cnt) == b.Group()
    ensures Since(b, cnt + 1) == if Comma(b, true, cnt) != [] then 1 else Since(b, cnt) + 1
    ensures Since(b, cnt) <= b.Group()
  {
    var g := b.Group();
    assert 0 <= cnt % g < g && (cnt + 1) % g == if cnt % g == g - 1 then 0 else cnt % g + 1 by {
      NextRemainder(cnt, g);
    }
  }

  lemma NextRemainder(n: nat, g: nat)
    requires g > 0
    ensures 0 <= n % g < g && (n + 1) % g == if n % g == g - 1 then 0 else n % g + 1
  {
    var q, r := n / g, n % g;
    if r == g - 1 {
      RemainderIs(n + 1, g, q + 1, 0);
    } else {
      RemainderIs(n + 1, g, q, r + 1);
    }
  }

  lemma {:induction false} GroupedFront(comma: seq<Octet>, digit: Octet, rest: seq<Octet>, run: nat, g: nat)
    requires digit != ',' && run <= g && g > 0 && comma == (if run == g then [','] else [])
    requires Grouped(rest, if run == g then 1 else run + 1, g)
    ensures Grouped(comma + [digit] + rest, run, g)
  {
    var s := [digit] + rest;
    assert s[1..] == rest;
    if run == g {
      assert comma + [digit] + rest == [','] + s;
      assert ([','] + s)[1..] == s;
    } else {
      assert comma + [digit] + rest == s;
    }
  }

  /** The commas stand between groups of three digits, or four of a hexadecimal number, from the low end on. */
  lemma {:induction false} DigitsGrouped(v: nat, b: Base, cnt: nat)
    ensures Grouped(Digits(v, b, true, cnt), Since(b, cnt), b.Group())
    decreases v
  {
    if v > 0 {
      var digit, rest := b.Digit(v % b.Radix()), Digits(v / b.Radix(), b, true, cnt + 1);
      SinceMore(b, cnt);
      DigitWorth(b, v % b.Radix());
      DigitsGrouped(v / b.Radix(), b, cnt + 1);
      GroupedFront(Comma(b, true, cnt), digit, rest, Since(b, cnt), b.Group());
    }
  }

  /** The buffer of a conversion has at least as many digits as the precision asks for, as far as there is
      room, and no zeros that nobody asked for. */
  lemma {:induction false} BodyShape(v: nat, b: Base, c: Conversion)
    ensures var s, digits := Body(v, b, c), Digits(v, b, c.group, 0);
            && AllPlain(s, b, c.group) && digits <= s
            && (c.precision <= 63 ==> |s| >= c.precision) && (c.precision < 0 ==> |s| >= 1)
            && (v > 0 && c.precision <= |digits| && !(c.pound && b.Octal?) ==> s == digits)
            && (c.pound && b.Octal? ==> s != [] && s[|s| - 1] == '0')
  {
    DigitsPlain(v, b, c.group, 0);
  }

  /** The text of a number without padding. */
  function Bare(v: nat, signed: bool, negative: bool, b: Base, c: Conversion): seq<Octet> {
    Sign(signed, negative, c) + Prefix(v, b, c) + Reversed(Body(v, b, c))
  }

  /** The text is as long as the width asks for, or as it is without padding if that is longer. Spaces are on
      the side that the flag '-' asks for; the zeros of the flag '0' are before the digits, and behind the
      sign and the prefix. */
  lemma RenderedPadding(v: nat, signed: bool, negative: bool, b: Base, c: Conversion)
    requires !(c.minus && c.zero)
    ensures var s, bare := Rendered(v, signed, negative, b, c), Bare(v, signed, negative, b, c);
            && |s| == (if |bare| < c.width then c.width else |bare|)
            && (c.minus ==> s == bare + Dup(' ', c.width - |bare|))
            && (!c.minus && !c.zero ==> s == Dup(' ', c.width - |bare|) + bare)
            && (c.zero ==>
                  s == Sign(signed, negative, c) + Prefix(v, b, c) + Dup('0', c.width - |bare|) + Reversed(Body(v, b, c)))
  {
    var sign, prefix, body := Sign(signed, negative, c), Prefix(v, b, c), Body(v, b, c);
    LaidPadding(sign, prefix, body, c);
  }

  lemma LaidPadding(sign: seq<Octet>, prefix: seq<Octet>, body: seq<Octet>, c: Conversion)
    requires !(c.minus && c.zero)
    ensures var s, bare := Laid(sign, prefix, body, c), sign + prefix + Reversed(body);
            && |s| == (if |bare| < c.width then c.width else |bare|)
            && (c.minus ==> s == bare + Dup(' ', c.width - |bare|))
            && (!c.minus && !c.zero ==> s == Dup(' ', c.width - |bare|) + bare)
            && (c.zero ==> s == sign + prefix + Dup('0', c.width - |bare|) + Reversed(body))
  {
    Associates(Dup(' ', c.width - |sign + prefix + Reversed(body)|), sign, prefix, Reversed(body));
  }

  lemma Associates<T>(a: seq<T>, b: seq<T>, c: seq<T>, d: seq<T>)
    ensures [] + b + c + [] + d + a == b + c + d + a
    ensures a + b + c + [] + d + [] == a + (b + c + d)
    ensures [] + b + c + a + d + [] == b + c + a + d
  {
  }

  /** A minus sign stands for a signed number that is negative and for no other, a plus sign for one that is
      not, if it is asked for; an 'x' or 'X' for a hexadecimal number that is not zero, if '#' asks for it. */
  lemma BareMarks(v: nat, signed: bool, negative: bool, b: Base, c: Conversion)
    ensures var s := Bare(v, signed, negative, b, c);
            && ('-' in s <==> signed && negative)
            && ('+' in s <==> signed && !negative && c.plus)
            && (' ' in s <==> signed && !negative && !c.plus && c.space)
            && ('x' in s <==> c.pound && v != 0 && b.LowerHex?)
            && ('X' in s <==> c.pound && v != 0 && b.UpperHex?)
            && (signed && negative ==> s[0] == '-')
            && |s| == |Body(v, b, c)| + (if signed && (negative || c.plus || c.space) then 1 else 0)
                    + (if c.pound && v != 0 && (b.LowerHex? || b.UpperHex?) then 2 else 0)
  {
    BodyHasNone(v, b, c);
    var sign, prefix, r := Sign(signed, negative, c), Prefix(v, b, c), Reversed(Body(v, b, c));
    InConcat(sign, prefix, r, '-');
    InConcat(sign, prefix, r, '+');
    InConcat(sign, prefix, r, ' ');
    InConcat(sign, prefix, r, 'x');
    InConcat(sign, prefix, r, 'X');
  }

  lemma InConcat(a: seq<Octet>, b: seq<Octet>, c: seq<Octet>, ch: Octet)
    ensures ch in a + b + c <==> ch in a || ch in b || ch in c
  {
  }

  lemma BodyHasNone(v: nat, b: Base, c: Conversion)
    ensures var r := Reversed(Body(v, b, c)); '-' !in r && '+' !in r && ' ' !in r && 'x' !in r && 'X' !in r
  {
    BodyShape(v, b, c);
    var body, r := Body(v, b, c), Reversed(Body(v, b, c));
    forall k | 0 <= k < |r|
      ensures Plain(r[k], b, c.group)
    {
      assert r[k] == body[|body| - 1 - k];
    }
  }

  /** The same number in the four bases, least significant digit first. */
  lemma DecimalAndOctal()
    ensures Digits(254, Decimal, false, 0) == "452" && Digits(254, Octal, false, 0) == "673"
  {
    assert Digits(2, Decimal, false, 2) == "2" && Digits(25, Decimal, false, 1) == "52";
    assert Digits(3, Octal, false, 2) == "3" && Digits(31, Octal, false, 1) == "73";
  }

  lemma BothHexes()
    ensures Digits(254, LowerHex, false, 0) == "ef" && Digits(254, UpperHex, false, 0) == "EF"
  {
    assert Digits(15, LowerHex, false, 1) == "f" && Digits(15, UpperHex, false, 1) == "F";
  }

  lemma Regrouped<T>(s: seq<T>, a: seq<T>, b: seq<T>, c: seq<T>, d: seq<T>, e: seq<T>, f: seq<T>)
    ensures s + a + b + c + d + e + f == s + (a + b + c + d + e + f)
  {
  }

  // ---------- The buffer ----------

  /** Where vsnprintf sends its output: at most `maxLength` characters of it into `buffer`. */
  class Sink {
    const buffer: array<Octet>
    const start: nat
    const maxLength: nat
    var p: nat
    var length: nat
    ghost var text: seq<Octet>

    ghost predicate Valid()
      reads this, buffer
    {
      && start + maxLength <= buffer.Length
      && length == |text|
      && p == start + (if length < maxLength then length else maxLength)
      && (forall k | 0 <= k < p - start :: buffer[start + k] == text[k])
    }

    constructor (buffer: array<Octet>, start: nat, maxLength: nat)
      requires start + maxLength <= buffer.Length
      ensures Valid() && text == [] && this.buffer == buffer && this.start == start && this.maxLength == maxLength
    {
      this.buffer, this.start, this.maxLength := buffer, start, maxLength;
      p, length, text := start, 0, [];
    }

    method Put(ch: Octet)
      requires Valid()
      modifies this, buffer
      ensures Valid() && text == old(text) + [ch]
      ensures forall k | 0 <= k < buffer.Length && !(start <= k < start + maxLength) :: buffer[k] == old(buffer[k])
    {
      if length < maxLength {
        buffer[p] := ch;
        p := p + 1;
      }
      length := length + 1;
      text := text + [ch];
    }

    method PutDup(ch: Octet, cnt: int)
      requires Valid()
      modifies this, buffer
      ensures Valid() && text == old(text) + Dup(ch, cnt)
      ensures forall k | 0 <= k < buffer.Length && !(start <= k < start + maxLength) :: buffer[k] == old(buffer[k])
    {
      var i := 0;
      while i < cnt
        invariant Valid() && 0 <= i && (i <= cnt || i == 0) && text == old(text) + Dup(ch, i)
        invariant forall k | 0 <= k < buffer.Length && !(start <= k < start + maxLength) :: buffer[k] == old(buffer[k])
      {
        Put(ch);
        i := i + 1;
        assert Dup(ch, i) == Dup(ch, i - 1) + [ch];
      }
    }

    method PutAll(s: seq<Octet>)
      requires Valid()
      modifies this, buffer
      ensures Valid() && text == old(text) + s
      ensures forall k | 0 <= k < buffer.Length && !(start <= k < start + maxLength) :: buffer[k] == old(buffer[k])
    {
      for i := 0 to |s|
        invariant Valid() && text == old(text) + s[..i]
        invariant forall k | 0 <= k < buffer.Length && !(start <= k < start + maxLength) :: buffer[k] == old(buffer[k])
      {
        Put(s[i]);
        assert s[..i + 1] == s[..i] + [s[i]];
      }
      assert s[..|s|] == s;
    }

    /** Adds the null terminator, for which there is room in a buffer of `size` characters. */
    method Terminate(size: nat) returns (n: nat)
      requires Valid() && start + size <= buffer.Length && maxLength == if size > 0 then size - 1 else 0
      modifies buffer
      ensures n == |text|
      ensures size > 0 ==>
                var m := if n < size then n else size - 1;
                buffer[start + m] == '\0' && forall k | 0 <= k < m :: buffer[start + k] == text[k]
      ensures forall k | 0 <= k < buffer.Length && !(start <= k < start + size) :: buffer[k] == old(buffer[k])
    {
      if size > 0 {
        buffer[p] := '\0';
      }
      n := length;
    }

    /** Outputs the first `n` characters of `s`, last one first. */
    method PutReversed(s: array<Octet>, n: nat)
      requires Valid() && n <= s.Length && s != buffer
      modifies this, buffer
      ensures Valid() && text == old(text) + Reversed(s[..n])
      ensures forall k | 0 <= k < buffer.Length && !(start <= k < start + maxLength) :: buffer[k] == old(buffer[k])
    {
      var cp := n;
      ghost var r := Reversed(s[..n]);
      assert r[..0] == [] && r[..n] == r;
      while cp > 0
        invariant Valid() && 0 <= cp <= n && text == old(text) + r[..n - cp]
        invariant forall k | 0 <= k < buffer.Length && !(start <= k < start + maxLength) :: buffer[k] == old(buffer[k])
      {
        cp := cp - 1;
        Put(s[cp]);
        assert r[..n - cp] == r[..n - cp - 1] + [s[cp]];
      }
    }
  }

  // ---------- One conversion ----------

  /** The buffer of format_integer, which has room for every 64-bit number in every base, with
      commas, and for every precision. */
  method FillBuffer(v: nat, b: Base, c: Conversion) returns (buf: array<Octet>, cp: nat)
    requires v < TWO_64
    ensures fresh(buf) && cp <= buf.Length == 64 && buf[..cp] == Body(v, b, c)
  {
    buf, cp := PutDigits(v, b, c.group);
    cp := PutZeros(buf, cp, c.precision);
    if c.pound && b.Octal? && (cp == 0 || buf[cp - 1] != '0') {
      buf[cp] := '0';
      cp := cp + 1;
    }
  }

  method PutZeros(buf: array<Octet>, cnt: nat, precision: int) returns (cp: nat)
    requires cnt < buf.Length == 64
    modifies buf
    ensures cp < 64 && buf[..cp] == Precise(old(buf[..cnt]), precision)
  {
    cp := cnt;
    var rendered := if precision < 0 then 1 else precision;
    while cp < rendered && cp < buf.Length - 1
      invariant cnt <= cp < buf.Length && (cp <= rendered || cp == cnt)
      invariant buf[..cp] == old(buf[..cnt]) + Dup('0', cp - cnt)
    {
      buf[cp] := '0';
      cp := cp + 1;
    }
  }

  method PutDigits(v: nat, b: Base, group: bool) returns (buf: array<Octet>, cp: nat)
    requires v < TWO_64
    ensures fresh(buf) && cp < buf.Length == 64 && buf[..cp] == Digits(v, b, group, 0)
  {
    buf := new Octet[64];
    cp := 0;
    var value, digitCnt := v, 0;
    ghost var rest := Digits(v, b, group, 0);
    assert |rest| <= 44 by {
      Pow2Large();
      Pow2Monotone(64, 66);
      DigitsFit(v, b, group, 0, 22);
    }
    while value > 0
      invariant value >= 0 && digitCnt >= 0 && rest == Digits(value, b, group, digitCnt)
      invariant cp + |rest| <= 44 && buf[..cp] + rest == Digits(v, b, group, 0)
      decreases value
    {
      DigitsStep(buf[..cp], value, b, group, digitCnt);
      LessByDivision(value, b.Radix());
      cp := PutDigit(buf, cp, b.Digit(value % b.Radix()), group && digitCnt > 0 && digitCnt % b.Group() == 0);
      value := value / b.Radix();
      digitCnt := digitCnt + 1;
      rest := Digits(value, b, group, digitCnt);
    }
  }

  lemma DigitsStep(done: seq<Octet>, v: nat, b: Base, group: bool, cnt: nat)
    requires v > 0
    ensures var digit := b.Digit(v % b.Radix());
            var next := if Comma(b, group, cnt) == [] then [digit] else [',', digit];
            var rest := Digits(v / b.Radix(), b, group, cnt + 1);
            done + Digits(v, b, group, cnt) == (done + next) + rest
            && |Digits(v, b, group, cnt)| == |next| + |rest|
  {
  }

  method PutDigit(buf: array<Octet>, cp: nat, digit: Octet, comma: bool) returns (end: nat)
    requires cp + 2 <= buf.Length
    modifies buf
    ensures end == cp + (if comma then 2 else 1)
    ensures buf[..end] == old(buf[..cp]) + (if comma then [',', digit] else [digit])
  {
    end := cp;
    if comma {
      buf[end] := ',';
      end := end + 1;
    }
    buf[end] := digit;
    end := end + 1;
  }

  method FormatInteger(v: nat, signed: bool, negative: bool, b: Base, c: Conversion, sink: Sink)
    requires v < TWO_64 && sink.Valid()
    modifies sink, sink.buffer
    ensures sink.Valid() && sink.text == old(sink.text) + Rendered(v, signed, negative, b, c)
    ensures forall k | 0 <= k < sink.buffer.Length && !(sink.start <= k < sink.start + sink.maxLength) ::
              sink.buffer[k] == old(sink.buffer[k])
  {
    var sign := Sign(signed, negative, c);
    var prefix := Prefix(v, b, c);
    var buf, cp := FillBuffer(v, b, c);
    LayOut(sign, prefix, buf, cp, c, sink);
  }

  method LayOut(sign: seq<Octet>, prefix: seq<Octet>, buf: array<Octet>, cp: nat, c: Conversion, sink: Sink)
    requires cp <= buf.Length && sink.Valid() && buf != sink.buffer
    modifies sink, sink.buffer
    ensures sink.Valid() && sink.text == old(sink.text) + Laid(sign, prefix, buf[..cp], c)
    ensures forall k | 0 <= k < sink.buffer.Length && !(sink.start <= k < sink.start + sink.maxLength) ::
              sink.buffer[k] == old(sink.buffer[k])
  {
    var pad := c.width - cp - |prefix| - |sign|;
    sink.PutDup(' ', if c.minus || c.zero then 0 else pad);
    sink.PutAll(sign);
    sink.PutAll(prefix);
    sink.PutDup('0', if c.zero then pad else 0);
    sink.PutReversed(buf, cp);
    sink.PutDup(' ', if c.minus then pad else 0);
    Regrouped(old(sink.text), Dup(' ', if c.minus || c.zero then 0 else pad), sign, prefix,
              Dup('0', if c.zero then pad else 0), Reversed(buf[..cp]), Dup(' ', if c.minus then pad else 0));
  }

  // ---------- Conversion specifications ----------

  /** Character number `i` of a C string. */
  function CharAt(s: seq<Octet>, i: nat): Octet {
    if i < |s| then s[i] else '\0'
  }

  predicate IsFlag(ch: Octet) {
    ch in ['-', '+', ' ', '#', '0', '\'']
  }

  predicate IsDigit(ch: Octet) {
    '0' <= ch <= '9'
  }

  /** Where the flags that start at `i` end. */
  function FlagsEnd(format: seq<Octet>, i: nat): (end: nat)
    requires i <= |format|
    ensures i <= end <= |format|
    decreases |format| - i
  {
    if IsFlag(CharAt(format, i)) then FlagsEnd(format, i + 1) else i
  }

  function DigitsEnd(format: seq<Octet>, i: nat): (end: nat)
    requires i <= |format|
    ensures i <= end <= |format|
    decreases |format| - i
  {
    if IsDigit(CharAt(format, i)) then DigitsEnd(format, i + 1) else i
  }

  /** The flags, and the digits, go as far as they can. */
  lemma {:induction false} EndsAreFirst(format: seq<Octet>, i: nat)
    requires i <= |format|
    ensures !IsFlag(CharAt(format, FlagsEnd(format, i))) && forall k | i <= k < FlagsEnd(format, i) :: IsFlag(format[k])
    ensures !IsDigit(CharAt(format, DigitsEnd(format, i))) && forall k | i <= k < DigitsEnd(format, i) :: IsDigit(format[k])
    decreases |format| - i
  {
    if i < |format| {
      EndsAreFirst(format, i + 1);
    }
  }

  /** The number written in decimal between two positions. */
  function NumberIn(format: seq<Octet>, i: nat, end: nat): nat
    requires i <= end <= |format|
    decreases end - i
  {
    if i == end then 0 else NumberIn(format, i, end - 1) * 10 + Decimal.Worth(format[end - 1])
  }

  predicate Has(format: seq<Octet>, i: nat, end: nat, ch: Octet)
    requires i <= end <= |format|
  {
    exists k | i <= k < end :: format[k] == ch
  }

  /** Where the conversion specification at position `i` ends: after flags, a width, and a
      precision behind a period. */
  function SpecificationEnd(format: seq<Octet>, i: nat): (end: nat)
    requires i <= |format|
    ensures i <= end <= |format|
  {
    var w := DigitsEnd(format, FlagsEnd(format, i));
    if CharAt(format, w) == '.' then DigitsEnd(format, w + 1) else w
  }

  /** What it asks for. A flag '-' overrides '0' and '+' overrides ' '; a precision overrides '0'. */
  function Specified(format: seq<Octet>, i: nat): (c: Conversion)
    requires i <= |format|
    ensures !(c.minus && c.zero) && !(c.plus && c.space) && !(c.precision >= 0 && c.zero) && c.precision >= -1
  {
    var f := FlagsEnd(format, i);
    var w := DigitsEnd(format, f);
    var precise := CharAt(format, w) == '.';
    Conversion(
      minus := Has(format, i, f, '-'),
      plus := Has(format, i, f, '+'),
      space := Has(format, i, f, ' ') && !Has(format, i, f, '+'),
      pound := Has(format, i, f, '#'),
      zero := Has(format, i, f, '0') && !Has(format, i, f, '-') && !precise,
      group := Has(format, i, f, '\''),
      width := NumberIn(format, f, w),
      precision := if precise then NumberIn(format, w + 1, DigitsEnd(format, w + 1)) else -1)
  }

  method ParseConversion(format: seq<Octet>, i: nat) returns (c: Conversion, end: nat)
    requires i <= |format|
    ensures c == Specified(format, i) && end == SpecificationEnd(format, i)
  {
    c, end := ParseFlags(format, i);
    if c.minus {
      c := c.(zero := false);
    }
    if c.plus {
      c := c.(space := false);
    }
    var width;
    width, end := ParseNumber(format, end);
    c := c.(width := width);
    if CharAt(format, end) == '.' {
      var precision;
      precision, end := ParseNumber(format, end + 1);
      c := c.(precision := precision);
    }
    if c.precision >= 0 {
      c := c.(zero := false);
    }
  }

  method ParseFlags(format: seq<Octet>, i: nat) returns (c: Conversion, end: nat)
    requires i <= |format|
    ensures end == FlagsEnd(format, i)
    ensures c == Conversion(Has(format, i, end, '-'), Has(format, i, end, '+'), Has(format, i, end, ' '),
                            Has(format, i, end, '#'), Has(format, i, end, '0'), Has(format, i, end, '\''), 0, -1)
  {
    c := Conversion(false, false, false, false, false, false, 0, -1);
    end := i;
    while IsFlag(CharAt(format, end))
      invariant i <= end <= |format| && FlagsEnd(format, end) == FlagsEnd(format, i)
      invariant c == Conversion(Has(format, i, end, '-'), Has(format, i, end, '+'), Has(format, i, end, ' '),
                                Has(format, i, end, '#'), Has(format, i, end, '0'), Has(format, i, end, '\''), 0, -1)
      decreases |format| - end
    {
      match format[end] {
        case '-' => c := c.(minus := true);
        case '+' => c := c.(plus := true);
        case ' ' => c := c.(space := true);
        case '#' => c := c.(pound := true);
        case '0' => c := c.(zero := true);
        case _ => c := c.(group := true);
      }
      end := end + 1;
    }
  }

  method ParseNumber(format: seq<Octet>, i: nat) returns (n: nat, end: nat)
    requires i <= |format|
    ensures end == DigitsEnd(format, i) && n == NumberIn(format, i, end)
  {
    n, end := 0, i;
    while IsDigit(CharAt(format, end))
      invariant i <= end <= |format| && DigitsEnd(format, end) == DigitsEnd(format, i)
      invariant n == NumberIn(format, i, end)
      decreases |format| - end
    {
      n := n * 10 + (format[end] as int - '0' as int);
      end := end + 1;
    }
  }

  // ---------- snprintf of one unsigned number ----------

  predicate IsUnsigned(ch: Octet) {
    ch in ['o', 'u', 'x', 'X']
  }

  function BaseOf(ch: Octet): Base {
    match ch
    case 'o' => Octal
    case 'x' => LowerHex
    case 'X' => UpperHex
    case _ => Decimal
  }

  /** `format` is one conversion specification for an unsigned number and nothing else. */
  predicate OneUnsigned(format: seq<Octet>) {
    && |format| > 0 && format[0] == '%'
    && SpecificationEnd(format, 1) == |format| - 1
    && IsUnsigned(format[|format| - 1])
  }

  function Text(format: seq<Octet>, value: nat): seq<Octet>
    requires OneUnsigned(format)
  {
    Rendered(value, false, false, BaseOf(format[|format| - 1]), Specified(format, 1))
  }

  method Vprintf(format: seq<Octet>, value: nat, sink: Sink)
    requires OneUnsigned(format) && value < TWO_32 && sink.Valid() && sink.text == []
    modifies sink, sink.buffer
    ensures sink.Valid() && sink.text == Text(format, value)
    ensures forall k | 0 <= k < sink.buffer.Length && !(sink.start <= k < sink.start + sink.maxLength) ::
              sink.buffer[k] == old(sink.buffer[k])
  {
    var c, end := ParseConversion(format, 1);
    Convert(format, value, c, sink);
    AfterNothing(old(sink.text), Text(format, value));
  }

  /** The conversion that a format asks for, of an unsigned number. */
  method Convert(format: seq<Octet>, value: nat, c: Conversion, sink: Sink)
    requires OneUnsigned(format) && value < TWO_32 && c == Specified(format, 1) && sink.Valid()
    modifies sink, sink.buffer
    ensures sink.Valid() && sink.text == old(sink.text) + Text(format, value)
    ensures forall k | 0 <= k < sink.buffer.Length && !(sink.start <= k < sink.start + sink.maxLength) ::
              sink.buffer[k] == old(sink.buffer[k])
  {
    FormatInteger(value, false, false, BaseOf(format[|format| - 1]), c, sink);
  }

  lemma AfterNothing<T>(s: seq<T>, r: seq<T>)
    requires s == []
    ensures s + r == r
  {
  }

  /** At most `size - 1` characters of the text and a null terminator, and nothing beyond them. */
  method Snprintf(buffer: array<Octet>, start: nat, size: nat, format: seq<Octet>, value: nat) returns (length: nat)
    requires start + size <= buffer.Length && OneUnsigned(format) && value < TWO_32
    modifies buffer
    ensures length == |Text(format, value)|
    ensures size > 0 ==>
              var n := if length < size then length else size - 1;
              && buffer[start + n] == '\0'
              && (forall k | 0 <= k < n :: buffer[start + k] == Text(format, value)[k])
    ensures forall k | 0 <= k < buffer.Length && !(start <= k < start + size) :: buffer[k] == old(buffer[k])
  {
    var sink := new Sink(buffer, start, if size > 0 then size - 1 else 0);
    Vprintf(format, value, sink);
    length := sink.Terminate(size);
  }

  // ---------- Octal numbers padded with zeros ----------

  predicate IsOctal(s: seq<Octet>) {
    forall k | 0 <= k < |s| :: '0' <= s[k] <= '7'
  }

  lemma {:induction false} OctalDigits(v: nat, cnt: nat, n: nat)
    requires v < Pow2(3 * n)
    ensures IsOctal(Digits(v, Octal, false, cnt)) && |Digits(v, Octal, false, cnt)| <= n
    decreases n
  {
    if v > 0 {
      assert n > 0;
      Pow2Sum(3, 3 * n - 3);
      assert Pow2(3) == 8;
      OctalDigits(v / 8, cnt + 1, n - 1);
    }
  }

  function ZeroPad(width: nat): Conversion {
    Conversion(false, false, false, false, true, false, width, -1)
  }

  lemma {:induction false} OctalBody(v: nat, w: nat)
    requires w > 0 && v < Pow2(3 * w)
    ensures var s := Body(v, Octal, ZeroPad(w)); |s| <= w && IsOctal(s) && Low(Octal, s, 0) == v
  {
    var digits := Digits(v, Octal, false, 0);
    OctalDigits(v, 0, w);
    DigitsReadBack(v, Octal, false, 0);
    LowZeros(Octal, digits, 1 - |digits|, 0);
    assert Body(v, Octal, ZeroPad(w)) == digits + Dup('0', 1 - |digits|);
  }

  lemma LaidWithZeros(body: seq<Octet>, w: nat)
    requires |body| <= w
    ensures Laid([], [], body, ZeroPad(w)) == Reversed(body + Dup('0', w - |body|))
  {
  }

  /** A number of at most `w` octal digits comes out as `w` octal digits that stand for it. */
  lemma {:induction false} ZeroPaddedOctal(v: nat, w: nat)
    requires w > 0 && v < Pow2(3 * w)
    ensures var s := Rendered(v, false, false, Octal, ZeroPad(w));
            |s| == w && IsOctal(s) && Reading(Octal, s, w) == v
  {
    var body := Body(v, Octal, ZeroPad(w));
    OctalBody(v, w);
    LaidWithZeros(body, w);
    PaddedReading(v, body, w);
  }

  lemma PaddedReading(v: nat, body: seq<Octet>, w: nat)
    requires |body| <= w && IsOctal(body) && Low(Octal, body, 0) == v
    ensures var s := Reversed(body + Dup('0', w - |body|)); |s| == w && IsOctal(s) && Reading(Octal, s, w) == v
  {
    LowZeros(Octal, body, w - |body|, 0);
    ReadReversed(Octal, body + Dup('0', w - |body|), 0);
  }

  lemma SevenOctal()
    ensures OneUnsigned("%07o") && Specified("%07o", 1) == ZeroPad(7)
  {
    assert FlagsEnd("%07o", 2) == 2 && FlagsEnd("%07o", 1) == 2;
    assert DigitsEnd("%07o", 3) == 3 && DigitsEnd("%07o", 2) == 3;
    assert NumberIn("%07o", 2, 2) == 0;
    assert NumberIn("%07o", 2, 3) == 7;
    assert "%07o"[1] == '0';
  }

  lemma ElevenOctal()
    ensures OneUnsigned("%011o") && Specified("%011o", 1) == ZeroPad(11)
  {
    assert FlagsEnd("%011o", 2) == 2 && FlagsEnd("%011o", 1) == 2;
    assert DigitsEnd("%011o", 4) == 4 && DigitsEnd("%011o", 3) == 4 && DigitsEnd("%011o", 2) == 4;
    assert NumberIn("%011o", 2, 2) == 0;
    assert NumberIn("%011o", 2, 3) == 1;
    assert NumberIn("%011o", 2, 4) == 11;
    assert "%011o"[1] == '0';
  }
}
