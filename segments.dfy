/**
 * The meaning of a delimiter-separated specification string: the list of
 * segments between delimiters, and the non-empty ones among them. These are
 * the reference definitions that the matcher's `strsep` loop is proved
 * against.
 */
module Segments {
  import opened LibC

  /**
   * The segments of `s` between occurrences of `delim`, in order, including
   * the empty ones around a leading, trailing or doubled delimiter. There is
   * always one more segment than there are delimiters.
   */
  function Split(s: seq<byte>, delim: byte): (r: seq<seq<byte>>)
    ensures |r| >= 1
    ensures forall k :: 0 <= k < |r| ==> delim !in r[k]
  {
    if |s| == 0 then [[]]
    else if s[0] == delim then [[]] + Split(s[1..], delim)
    else
      var rest := Split(s[1..], delim);
      [[s[0]] + rest[0]] + rest[1..]
  }

  /** The segments written out again, one `delim` between neighbours. */
  function Join(segs: seq<seq<byte>>, delim: byte): seq<byte>
  {
    if |segs| == 0 then []
    else if |segs| == 1 then segs[0]
    else segs[0] + [delim] + Join(segs[1..], delim)
  }

  /** The segments that are not empty, in their original order. */
  function NonEmpty(segs: seq<seq<byte>>): (r: seq<seq<byte>>)
    ensures |r| <= |segs|
    ensures forall k :: 0 <= k < |r| ==> |r[k]| > 0
    ensures forall t :: t in r <==> t in segs && |t| > 0
  {
    if |segs| == 0 then []
    else if |segs[0]| == 0 then NonEmpty(segs[1..])
    else [segs[0]] + NonEmpty(segs[1..])
  }

  /** Joining the segments of `s` gives back `s`. */
  lemma {:induction false} JoinSplit(s: seq<byte>, delim: byte)
    ensures Join(Split(s, delim), delim) == s
  {
    if |s| > 0 {
      JoinSplit(s[1..], delim);
      var rest := Split(s[1..], delim);
      if s[0] == delim {
        assert Split(s, delim)[1..] == rest;
        assert s == [delim] + s[1..];
      } else {
        var r := Split(s, delim);
        assert r[0] == [s[0]] + rest[0] && r[1..] == rest[1..];
        if |rest| == 1 {
          assert s == [s[0]] + s[1..];
        } else {
          assert Join(rest, delim) == rest[0] + [delim] + Join(rest[1..], delim);
          assert s == [s[0]] + s[1..];
        }
      }
    }
  }

  /** A segment without a delimiter splits into itself alone. */
  lemma {:induction false} SplitSingle(a: seq<byte>, delim: byte)
    requires delim !in a
    ensures Split(a, delim) == [a]
  {
    if |a| > 0 {
      assert delim !in a[1..] by {
        forall k | 0 <= k < |a[1..]| ensures a[1..][k] != delim {
          assert a[1..][k] == a[k + 1];
        }
      }
      SplitSingle(a[1..], delim);
      assert [a[0]] + a[1..] == a;
    }
  }

  /** A leading delimiter-free segment `a` splits off as the first segment. */
  lemma {:induction false} SplitCons(a: seq<byte>, delim: byte, b: seq<byte>)
    requires delim !in a
    ensures Split(a + [delim] + b, delim) == [a] + Split(b, delim)
  {
    var s := a + [delim] + b;
    if |a| == 0 {
      assert s[1..] == b;
    } else {
      assert s[1..] == a[1..] + [delim] + b;
      assert delim !in a[1..] by {
        forall k | 0 <= k < |a[1..]| ensures a[1..][k] != delim {
          assert a[1..][k] == a[k + 1];
        }
      }
      SplitCons(a[1..], delim, b);
      assert [a[0]] + a[1..] == a;
    }
  }

  /**
   * Splitting a join gives back the segments, provided no segment holds the
   * delimiter (there is no escaping) and there is at least one segment.
   */
  lemma {:induction false} SplitJoin(segs: seq<seq<byte>>, delim: byte)
    requires |segs| >= 1
    requires forall k :: 0 <= k < |segs| ==> delim !in segs[k]
    ensures Split(Join(segs, delim), delim) == segs
  {
    if |segs| == 1 {
      SplitSingle(segs[0], delim);
    } else {
      SplitJoin(segs[1..], delim);
      SplitCons(segs[0], delim, Join(segs[1..], delim));
      assert [segs[0]] + segs[1..] == segs;
    }
  }

  /**
   * One `strsep` step takes off exactly the first segment: the token is it,
   * and the remainder (when not NULL) splits into the other segments.
   */
  lemma {:induction false} StrsepSplit(s: seq<byte>, delim: byte)
    ensures Split(s, delim) ==
      [Strsep(s, delim).0] + (match Strsep(s, delim).1 case None => [] case Some(rest) => Split(rest, delim))
  {
    var (token, next) := Strsep(s, delim);
    match next
    case None =>
      SplitSingle(s, delim);
    case Some(rest) =>
      SplitCons(token, delim, rest);
  }

  /** What is left to split of a `strsep` cursor: nothing once it is NULL. */
  function Pending(next: Option<seq<byte>>, delim: byte): seq<seq<byte>>
  {
    match next
    case None => []
    case Some(rest) => Split(rest, delim)
  }

  /**
   * One `strsep` step on a NUL-free cursor: the token and the new cursor are
   * NUL-free, and the non-empty segments still to come are the token (unless
   * it is empty) followed by those of the new cursor.
   */
  lemma StrsepStep(s: seq<byte>, delim: byte)
    requires NoNul(s)
    ensures NoNul(Strsep(s, delim).0)
    ensures Strsep(s, delim).1.Some? ==> NoNul(Strsep(s, delim).1.value)
    ensures NonEmpty(Split(s, delim)) ==
      (if |Strsep(s, delim).0| > 0 then [Strsep(s, delim).0] else []) + NonEmpty(Pending(Strsep(s, delim).1, delim))
  {
    var (token, next) := Strsep(s, delim);
    StrsepSplit(s, delim);
    NonEmptyAppend([token], Pending(next, delim));
    forall k | 0 <= k < |token| ensures token[k] != NUL {
      assert token[k] == s[k];
    }
    if next.Some? {
      forall k | 0 <= k < |next.value| ensures next.value[k] != NUL {
        assert next.value[k] == s[|token| + 1 + k];
      }
    }
  }

  /** Filtering a list that holds no empty segment changes nothing. */
  lemma {:induction false} NonEmptyAll(segs: seq<seq<byte>>)
    requires forall k :: 0 <= k < |segs| ==> |segs[k]| > 0
    ensures NonEmpty(segs) == segs
  {
    if |segs| > 0 {
      NonEmptyAll(segs[1..]);
      assert [segs[0]] + segs[1..] == segs;
    }
  }

  /**
   * Concatenation of segment lists is associative. Stated apart so that the
   * step is taken outside the context of the filtering proofs, where the
   * solver otherwise explores the contracts of `NonEmpty` at length.
   */
  lemma AppendAssoc(a: seq<seq<byte>>, b: seq<seq<byte>>, c: seq<seq<byte>>)
    ensures (a + b) + c == a + (b + c)
  {
  }

  /** Dropping the empty segments distributes over concatenation. */
  lemma {:induction false} NonEmptyAppend(a: seq<seq<byte>>, b: seq<seq<byte>>)
    ensures NonEmpty(a + b) == NonEmpty(a) + NonEmpty(b)
  {
    if |a| > 0 {
      assert (a + b)[1..] == a[1..] + b;
      NonEmptyAppend(a[1..], b);
    } else {
      assert a + b == b;
    }
  }
}
