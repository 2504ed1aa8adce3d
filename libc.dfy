/**
 * The few C library services the prefix matcher relies on, stated over byte
 * sequences: C strings, unsigned 64-bit counters, `strncmp` and `strsep`.
 */
module LibC {

  /** One byte of a C `char` buffer. */
  newtype byte = b: int | 0 <= b < 256

  /** The terminator of a C string. */
  const NUL: byte := 0

  /** A pointer that may be NULL. */
  datatype Option<T> = None | Some(value: T)

  const U64_MODULUS: int := 0x1_0000_0000_0000_0000

  /** `uint64_t`. */
  type u64 = x: int | 0 <= x < U64_MODULUS

  /** `x++` on a `uint64_t`: wraps around to zero past the largest value. */
  function Inc64(x: u64): (r: u64)
    ensures x < U64_MODULUS - 1 ==> r == x + 1
    ensures x == U64_MODULUS - 1 ==> r == 0
  {
    (x + 1) % U64_MODULUS
  }

  /**
   * The contents of a C string: the bytes before its terminator, so none of
   * them is NUL. `strlen` of such a string is its length.
   */
  ghost predicate NoNul(s: seq<byte>)
  {
    forall i :: 0 <= i < |s| ==> s[i] != NUL
  }

  /** `p` is the first `|p|` bytes of `s`. */
  ghost predicate IsPrefix(p: seq<byte>, s: seq<byte>)
  {
    |p| <= |s| && s[..|p|] == p
  }

  /**
   * The byte at offset `i` of a buffer read as a C string: past the end of
   * the given bytes the reader sees a terminator.
   */
  function CharAt(s: seq<byte>, i: nat): byte
  {
    if i < |s| then s[i] else NUL
  }

  /**
   * `strncmp(s1 + i, s2 + i, n - i)`: compares bytes as unsigned chars, stops
   * at the first difference, at a common terminator or after `n` bytes.
   */
  function StrncmpFrom(s1: seq<byte>, s2: seq<byte>, i: nat, n: nat): (r: int)
    ensures -255 <= r <= 255
    decreases n - i
  {
    if n <= i then 0
    else if CharAt(s1, i) != CharAt(s2, i) then CharAt(s1, i) as int - CharAt(s2, i) as int
    else if CharAt(s1, i) == NUL then 0
    else StrncmpFrom(s1, s2, i + 1, n)
  }

  /** `strncmp(s1, s2, n)`. */
  function Strncmp(s1: seq<byte>, s2: seq<byte>, n: nat): (r: int)
    ensures -255 <= r <= 255
    ensures n == 0 ==> r == 0
  {
    StrncmpFrom(s1, s2, 0, n)
  }

  /** Read as a C string, `s` holds the bytes of `p` from offset `i` to the end of `p`. */
  ghost predicate AgreesFrom(s: seq<byte>, p: seq<byte>, i: nat)
  {
    forall j :: i <= j < |p| ==> CharAt(s, j) == p[j]
  }

  lemma {:induction false} StrncmpFromAgrees(s: seq<byte>, p: seq<byte>, i: nat)
    requires NoNul(p) && i <= |p|
    ensures StrncmpFrom(s, p, i, |p|) == 0 <==> AgreesFrom(s, p, i)
    decreases |p| - i
  {
    if i < |p| {
      assert p[i] != NUL;
      if CharAt(s, i) == p[i] {
        StrncmpFromAgrees(s, p, i + 1);
        if AgreesFrom(s, p, i + 1) {
          forall j | i <= j < |p| ensures CharAt(s, j) == p[j] {
            if j > i { assert i + 1 <= j; }
          }
        }
      }
    }
  }

  /**
   * Comparing a whole NUL-free pattern with `strncmp` bounded by the
   * pattern's own length is exactly a byte-prefix test, whatever the other
   * buffer holds (a NUL in it, or its end, is a mismatch).
   */
  lemma {:induction false} StrncmpIsPrefix(s: seq<byte>, p: seq<byte>)
    requires NoNul(p)
    ensures Strncmp(s, p, |p|) == 0 <==> IsPrefix(p, s)
  {
    StrncmpFromAgrees(s, p, 0);
    if IsPrefix(p, s) {
      forall j | 0 <= j < |p| ensures CharAt(s, j) == p[j] {
        assert s[..|p|][j] == p[j];
      }
    }
    if AgreesFrom(s, p, 0) {
      if |p| > 0 {
        assert CharAt(s, |p| - 1) == p[|p| - 1] != NUL;
      }
      forall j | 0 <= j < |p| ensures s[..|p|][j] == p[j] {
        assert CharAt(s, j) == p[j];
      }
    }
  }

  /**
   * `strsep(&next, delim)` on a non-NULL `next` holding `s`: the token is
   * everything before the first delimiter; `next` becomes what follows that
   * delimiter, or NULL when there is none.
   */
  function Strsep(s: seq<byte>, delim: byte): (r: (seq<byte>, Option<seq<byte>>))
    ensures delim !in r.0
    ensures r.1.None? ==> r.0 == s
    ensures r.1.Some? ==> s == r.0 + [delim] + r.1.value
  {
    if |s| == 0 then ([], None)
    else if s[0] == delim then ([], Some(s[1..]))
    else
      var (token, next) := Strsep(s[1..], delim);
      ([s[0]] + token, next)
  }
}
