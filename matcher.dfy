/**
 * The prefix matcher of matcher.c: an ordered, growable list of byte-string
 * prefixes kept in three parallel buffers (the patterns, their cached
 * lengths and a hit counter each), a global miss counter and a version
 * number that goes up with every pattern added.
 */
module PrefixMatcher {
  import opened LibC
  import opened Segments

  /** The sentinel that marks an initialised matcher; zeroed storage never holds it. */
  const MATCHER_MAGIC: int := 0xa135b21a

  /** The separator of prefixes in a specification string, ASCII `|`. */
  const BAR: byte := 0x7C

  /**
   * Pattern `p` matches the first `strLen` bytes of `str`: it is no longer
   * than `strLen`, and `str` starts with its bytes.
   */
  ghost predicate Matches(p: seq<byte>, str: seq<byte>, strLen: int)
  {
    |p| <= strLen && IsPrefix(p, str)
  }

  /**
   * The index of the pattern a check credits: the lowest index whose pattern
   * matches, or None when none does. Later patterns never win, even when they
   * are also prefixes of `str`.
   */
  ghost function FirstMatch(pats: seq<seq<byte>>, str: seq<byte>, strLen: int): (r: Option<nat>)
    ensures r.Some? ==> r.value < |pats| && Matches(pats[r.value], str, strLen)
    ensures r.Some? ==> forall j :: 0 <= j < r.value ==> !Matches(pats[j], str, strLen)
    ensures r.None? <==> forall j :: 0 <= j < |pats| ==> !Matches(pats[j], str, strLen)
  {
    if |pats| == 0 then None
    else if Matches(pats[0], str, strLen) then Some(0)
    else
      match FirstMatch(pats[1..], str, strLen)
      case None => None
      case Some(k) => Some(k + 1)
  }

  /** The patterns that `init` stores for a specification string (NULL for None). */
  ghost function SpecPatterns(spec: Option<seq<byte>>): seq<seq<byte>>
  {
    match spec
    case None => []
    case Some(s) => NonEmpty(Split(s, BAR))
  }

  /**
   * Initialising from the `|`-join of a list of non-empty, NUL-free patterns
   * that hold no `|` stores exactly that list, in that order.
   */
  lemma {:induction false} SpecPatternsJoin(pats: seq<seq<byte>>)
    requires forall k :: 0 <= k < |pats| ==> |pats[k]| > 0 && BAR !in pats[k]
    ensures SpecPatterns(Some(Join(pats, BAR))) == pats
  {
    if |pats| == 0 {
      assert Split([], BAR) == [[]];
    } else {
      SplitJoin(pats, BAR);
      NonEmptyAll(pats);
    }
  }

  /**
   * A pattern shadows every later pattern that it is a prefix of: the later
   * one is never credited, whatever the checked string.
   */
  lemma Shadowed(pats: seq<seq<byte>>, i: nat, j: nat, str: seq<byte>, strLen: int)
    requires i < j < |pats|
    requires IsPrefix(pats[i], pats[j])
    ensures FirstMatch(pats, str, strLen) != Some(j)
  {
  }

  /**
   * Appending a pattern never takes a match away from an earlier pattern;
   * the new pattern is credited exactly when no earlier one matches and it
   * does.
   */
  lemma {:induction false} FirstMatchAppend(pats: seq<seq<byte>>, p: seq<byte>, str: seq<byte>, strLen: int)
    ensures FirstMatch(pats + [p], str, strLen) ==
      match FirstMatch(pats, str, strLen)
      case Some(k) => Some(k)
      case None => if Matches(p, str, strLen) then Some(|pats|) else None
  {
    if |pats| > 0 {
      assert (pats + [p])[1..] == pats[1..] + [p];
      FirstMatchAppend(pats[1..], p, str, strLen);
    } else {
      assert pats + [p] == [p];
    }
  }

  /**
   * One round of the `strsep` loop of `init`: if the stored patterns went
   * from `before` to `after` by adding the token (unless it is empty), the
   * patterns stored so far followed by those still to come stay the same.
   */
  lemma InitStep(before: seq<seq<byte>>, after: seq<seq<byte>>, s: seq<byte>)
    requires NoNul(s)
    requires after == before + (if |Strsep(s, BAR).0| > 0 then [Strsep(s, BAR).0] else [])
    ensures after + NonEmpty(Pending(Strsep(s, BAR).1, BAR)) == before + NonEmpty(Split(s, BAR))
  {
    var (token, next) := Strsep(s, BAR);
    var added: seq<seq<byte>> := if |token| > 0 then [token] else [];
    StrsepStep(s, BAR);
    AppendAssoc(before, added, NonEmpty(Pending(next, BAR)));
  }

  /**
   * The matcher struct. Each of the three buffers is a sequence of
   * `patternsMax` slots (a NULL buffer is the empty sequence), of which the
   * first `patternsNum` are in use.
   */
  class Matcher {
    var initted: int
    var version: int
    var patterns: seq<seq<byte>>
    var lengths: seq<int>
    var hits: seq<u64>
    var patternsNum: nat
    var patternsMax: nat
    var misses: u64

    /** The parallel-buffer invariant. */
    ghost predicate Valid()
      reads this
    {
      && patternsNum <= patternsMax
      && |patterns| == patternsMax
      && |lengths| == patternsMax
      && |hits| == patternsMax
      && forall i :: 0 <= i < patternsNum ==>
           |patterns[i]| > 0 && NoNul(patterns[i]) && lengths[i] == |patterns[i]|
    }

    /** Every field is zero, as after `memset(m, 0, sizeof(matcher))`. */
    ghost predicate IsZeroed()
      reads this
    {
      && initted == 0 && version == 0
      && patternsNum == 0 && patternsMax == 0 && misses == 0
      && patterns == [] && lengths == [] && hits == []
    }

    /** The stored patterns, in insertion (that is, priority) order. */
    ghost function Patterns(): seq<seq<byte>>
      reads this
      requires patternsNum <= |patterns|
    {
      patterns[..patternsNum]
    }

    /** The cached pattern lengths. */
    ghost function Lengths(): seq<int>
      reads this
      requires patternsNum <= |lengths|
    {
      lengths[..patternsNum]
    }

    /** The hit counters of the stored patterns. */
    ghost function Hits(): seq<u64>
      reads this
      requires patternsNum <= |hits|
    {
      hits[..patternsNum]
    }

    /** Zero-filled storage for a matcher, not yet initialised. */
    constructor ()
      ensures Valid() && IsZeroed()
    {
      initted, version := 0, 0;
      patterns, lengths, hits := [], [], [];
      patternsNum, patternsMax, misses := 0, 0, 0;
    }

    /** `memset(m, 0, sizeof(matcher))`, with every buffer dropped. */
    method Reset()
      modifies this
      ensures Valid() && IsZeroed()
    {
      initted, version := 0, 0;
      patterns, lengths, hits := [], [], [];
      patternsNum, patternsMax, misses := 0, 0, 0;
    }

    /**
     * `matcher_init`: zero the struct, mark it initialised, take the clock
     * reading `now` as the version and add every `|`-separated segment of
     * `spec` in order (the empty ones are dropped by `Add`).
     */
    method Init(spec: Option<seq<byte>>, now: int)
      requires initted != MATCHER_MAGIC
      requires spec.Some? ==> NoNul(spec.value)
      modifies this
      ensures Valid() && Initted(this)
      ensures Patterns() == SpecPatterns(spec)
      ensures version == now + patternsNum
      ensures misses == 0
      ensures patternsNum == 0 ==> patternsMax == 0
    {
      Reset();
      initted := MATCHER_MAGIC;
      version := now;

      if spec.Some? && |spec.value| > 0 {
        var next := spec;
        assert Patterns() == [];
        assert Patterns() + NonEmpty(Pending(next, BAR)) == SpecPatterns(spec);
        while next.Some?
          invariant Valid() && Initted(this)
          invariant next.Some? ==> NoNul(next.value)
          invariant Patterns() + NonEmpty(Pending(next, BAR)) == SpecPatterns(spec)
          invariant version == now + patternsNum
          invariant misses == 0
          invariant patternsNum == 0 ==> patternsMax == 0
          decreases match next case None => 0 case Some(rest) => |rest| + 1
        {
          ghost var before := Patterns();
          var s := next.value;
          var (patt, rest) := Strsep(s, BAR);
          StrsepStep(s, BAR);
          next := rest;
          Add(patt);
          InitStep(before, Patterns(), s);
        }
      }
    }

    /**
     * `matcher_add`: append a non-empty pattern, growing the buffers to
     * `2 * patternsMax + 4` slots when they are full; an empty pattern
     * changes nothing. The new pattern's hit counter is not written.
     */
    method Add(pattern: seq<byte>)
      requires Valid() && Initted(this)
      requires NoNul(pattern)
      modifies this
      ensures Valid() && Initted(this)
      ensures |pattern| == 0 ==> unchanged(this)
      ensures Patterns() == old(Patterns()) + (if |pattern| > 0 then [pattern] else [])
      ensures |pattern| > 0 ==>
        && patternsNum == old(patternsNum) + 1
        && version == old(version) + 1
        && misses == old(misses)
        && patternsMax == (if old(patternsNum) >= old(patternsMax) then 2 * old(patternsMax) + 4 else old(patternsMax))
        && Lengths() == old(Lengths()) + [|pattern|]
        && hits[..old(patternsNum)] == old(Hits())
    {
      var length := |pattern|;
      if length == 0 {
        return;
      }

      if patternsNum >= patternsMax {
        Grow();
      }

      var num := patternsNum;
      ghost var ps, ls, hs := Patterns(), Lengths(), Hits();
      patterns := patterns[num := pattern];
      lengths := lengths[num := |pattern|];
      patternsNum := num + 1;
      version := version + 1;
      assert Patterns() == ps + [pattern];
      assert Lengths() == ls + [|pattern|];
      assert hits[..num] == hs;
    }

    /**
     * The `realloc` of a full matcher's three buffers to `2 * patternsMax + 4`
     * slots: the slots in use keep their contents, the new ones hold
     * placeholders that nothing relies on.
     */
    method Grow()
      requires Valid()
      modifies this
      ensures Valid()
      ensures patternsMax == 2 * old(patternsMax) + 4
      ensures patternsNum == old(patternsNum) && initted == old(initted)
      ensures version == old(version) && misses == old(misses)
      ensures Patterns() == old(Patterns()) && Lengths() == old(Lengths()) && Hits() == old(Hits())
    {
      var extra := patternsMax + 4;
      patterns := patterns + seq(extra, _ => []);
      lengths := lengths + seq(extra, _ => 0);
      hits := hits + seq(extra, _ => 0);
      patternsMax := patternsMax + extra;
    }

    /**
     * `matcher_check`: scan the patterns in insertion order and credit the
     * first one that matches the first `strLen` bytes of `str`; count a miss
     * when none does. An uninitialised matcher answers false and counts
     * nothing.
     */
    method Check(str: seq<byte>, strLen: int) returns (found: bool)
      requires Initted(this) ==> Valid()
      modifies this`hits, this`misses
      ensures !Initted(this) ==> !found && unchanged(this)
      ensures Initted(this) ==> Valid()
      ensures Initted(this) ==>
        (found <==> exists i :: 0 <= i < patternsNum && Matches(patterns[i], str, strLen))
      ensures Initted(this) ==>
        match FirstMatch(Patterns(), str, strLen)
        case Some(k) =>
          found && misses == old(misses) && hits == old(hits)[k := Inc64(old(hits)[k])]
        case None =>
          !found && misses == Inc64(old(misses)) && hits == old(hits)
      ensures strLen < 0 ==> !found
    {
      if !Initted(this) {
        return false;
      }

      var i := 0;
      while i < patternsNum
        invariant 0 <= i <= patternsNum
        invariant forall j :: 0 <= j < i ==> !Matches(patterns[j], str, strLen)
        invariant misses == old(misses) && hits == old(hits)
      {
        var n := lengths[i];
        if n <= strLen {
          StrncmpIsPrefix(str, patterns[i]);
          if Strncmp(str, patterns[i], n) == 0 {
            assert Patterns()[i] == patterns[i];
            assert forall j :: 0 <= j < i ==> !Matches(Patterns()[j], str, strLen);
            ghost var k := FirstMatch(Patterns(), str, strLen);
            assert k == Some(i);
            hits := hits[i := Inc64(hits[i])];
            return true;
          }
        }
        i := i + 1;
      }

      assert forall j :: 0 <= j < patternsNum ==> !Matches(Patterns()[j], str, strLen);
      misses := Inc64(misses);
      return false;
    }

    /**
     * `matcher_clone`: initialise `copy` with this matcher's version and a
     * deep copy of its patterns and lengths, in buffers of exactly
     * `patternsNum` slots, with every statistic at zero. Answers false (NULL)
     * and touches nothing when this matcher is not initialised.
     */
    method Clone(copy: Matcher) returns (ok: bool)
      requires Initted(this) ==> Valid()
      requires Initted(this) ==> copy.initted != MATCHER_MAGIC
      modifies copy
      ensures ok == Initted(this)
      ensures unchanged(this)
      ensures !ok ==> unchanged(copy)
      ensures ok ==> copy != this && copy.Valid() && Initted(copy)
      ensures ok ==> copy.version == version && copy.misses == 0
      ensures ok ==> copy.patternsNum == patternsNum && copy.patternsMax == patternsNum
      ensures ok ==> copy.Patterns() == Patterns() && copy.Lengths() == Lengths()
      ensures ok ==> forall i :: 0 <= i < |copy.hits| ==> copy.hits[i] == 0
    {
      if !Initted(this) {
        return false;
      }
      assert copy != this;

      copy.Init(None, 0);  // the clock reading is overwritten just below
      copy.version := version;
      copy.patternsMax := patternsNum;
      copy.patternsNum := patternsNum;

      if copy.patternsMax > 0 {
        // calloc: every slot starts as NULL / zero.
        copy.patterns := seq(copy.patternsMax, _ => []);
        copy.lengths := seq(copy.patternsMax, _ => 0);
        copy.hits := seq(copy.patternsMax, _ => 0);
        var i := 0;
        while i < copy.patternsNum
          invariant 0 <= i <= copy.patternsNum == copy.patternsMax == patternsNum
          invariant |copy.patterns| == |copy.lengths| == |copy.hits| == patternsNum
          invariant copy.initted == MATCHER_MAGIC && copy.version == version && copy.misses == 0
          invariant forall j :: 0 <= j < i ==> copy.patterns[j] == patterns[j] && copy.lengths[j] == lengths[j]
          invariant forall j :: 0 <= j < |copy.hits| ==> copy.hits[j] == 0
        {
          copy.patterns := copy.patterns[i := patterns[i]];
          copy.lengths := copy.lengths[i := lengths[i]];
          // statistics are not copied
          i := i + 1;
        }
      }
      assert copy.Patterns() == Patterns();
      assert copy.Lengths() == Lengths();
      return true;
    }
  }

  /**
   * `matcher_initted`: the storage is present and holds the sentinel. Zeroed
   * storage, as left by the constructor or by `Uninit`, is never initialised.
   */
  predicate Initted(m: Matcher?)
    reads m
    ensures m != null && m.initted == 0 ==> !Initted(m)
  {
    m != null && m.initted == MATCHER_MAGIC
  }

  /**
   * `matcher_uninit`: nothing for NULL; otherwise drop every buffer and zero
   * every field, so that the storage may be initialised again. Calling it on
   * zeroed storage leaves it zeroed.
   */
  method Uninit(m: Matcher?)
    modifies m
    ensures m != null ==> m.Valid() && m.IsZeroed()
    ensures !Initted(m)
  {
    if m == null {
      return;
    }
    m.Reset();
  }
}
