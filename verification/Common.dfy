/** What several parts of the kernel share. */
module Common {

  datatype Option<T> = None | Some(value: T)

  type Byte = x: int | 0 <= x < 0x100

  /** The bytes of a disk sector and of a page of memory. */
  const SECTOR_SIZE: nat := 512
  const PAGE_SIZE: nat := 4096

  ghost predicate Distinct<T>(s: seq<T>) {
    forall i, j | 0 <= i < j < |s| :: s[i] != s[j]
  }

  /** `s` without its element at `i`. */
  function Without<T>(s: seq<T>, i: nat): (r: seq<T>)
    requires i < |s|
    ensures |r| == |s| - 1 && forall k | 0 <= k < |r| :: r[k] == s[if k < i then k else k + 1]
  {
    s[..i] + s[i + 1..]
  }

  /** How often `x` is in `s`. */
  ghost function Count<T>(s: seq<T>, x: T): nat {
    if s == [] then 0 else Count(s[..|s| - 1], x) + if s[|s| - 1] == x then 1 else 0
  }

  lemma {:induction false} CountConcat<T>(s: seq<T>, t: seq<T>, x: T)
    ensures Count(s + t, x) == Count(s, x) + Count(t, x)
  {
    if t == [] {
      assert s + t == s;
    } else {
      var m := |t| - 1;
      CountConcat(s, t[..m], x);
      assert (s + t)[..|s| + m] == s + t[..m];
    }
  }

  lemma {:induction false} CountWithout<T>(s: seq<T>, i: nat, x: T)
    requires i < |s|
    ensures Count(s, x) == Count(Without(s, i), x) + if s[i] == x then 1 else 0
  {
    var low, high := s[..i], s[i + 1..];
    Around(s, i);
    CountConcat(low, [s[i]], x);
    CountConcat(low + [s[i]], high, x);
    CountConcat(low, high, x);
    CountOne(s[i], x);
  }

  lemma Around<T>(s: seq<T>, i: nat)
    requires i < |s|
    ensures s == s[..i] + [s[i]] + s[i + 1..] && Without(s, i) == s[..i] + s[i + 1..]
  {
  }

  lemma {:induction false} CountOne<T>(y: T, x: T)
    ensures Count([y], x) == if x == y then 1 else 0
  {
    assert [y][..0] == [];
  }
}
