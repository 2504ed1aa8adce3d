# Prefix matcher, modelled in Dafny

This project models `matcher.c`: a matcher holding an ordered, growable list of
byte-string prefixes. It keeps three parallel buffers: the patterns, their
cached lengths, and a 64-bit hit counter per pattern. There is also a global
64-bit miss counter and a version number that starts at a clock reading and
goes up with every pattern added.

- `matcher_init` fills the list from a `|`-separated specification string,
  using `strsep`.
- `matcher_check` credits the first stored pattern that is a prefix of the
  first `str_len` bytes of the input, or counts a miss.
- `matcher_clone` deep-copies the patterns into right-sized buffers, with
  zeroed statistics.
- `matcher_uninit` releases everything and zeroes the struct.

The project has three modules:

- `LibC` (`libc.dfy`) holds the C services the matcher relies on, stated over
  byte sequences:
  - bytes, C strings (NUL-free contents), `uint64_t` with wrap-around;
  - `strncmp`, which reads a terminator past the end of a buffer;
  - `strsep`, as a pure function returning the token and the new cursor
    (`None` for NULL).
- `Segments` (`segments.dfy`) gives the reference meaning of a specification
  string. `Split` returns every segment between delimiters, and `NonEmpty`
  keeps the non-empty ones. It also proves the round trips between `Split`
  and `Join`, and shows that one `strsep` step takes off exactly the first
  segment.
- `PrefixMatcher` (`matcher.dfy`) holds the `Matcher` class, whose fields are
  the fields of the C struct, and its operations as methods. It also has the
  reference definition `FirstMatch` (the lowest matching index) and the
  module-level `Initted` and `Uninit`, which accept a NULL matcher.

Every buffer is a `seq` field with `patternsMax` slots. A NULL buffer is the
empty sequence. `Valid()` is the parallel-buffer invariant:
- `patternsNum <= patternsMax`;
- the three buffers have `patternsMax` slots each;
- each stored pattern is non-empty and NUL-free, and its cached length equals
  its length.

One might expect `add` to start the new slot's hit counter at zero, but the
code never writes that slot (matcher.c:136-140): after `realloc` it holds
whatever the buffer held. The model follows the code, so no contract says
what that slot holds.

## Model

| member | source | states |
|---|---|---|
| LibC.Inc64 | matcher.c:157 | `x++` on a `uint64_t` counter: one more, or 0 after the largest value |
| LibC.StrncmpFromAgrees | matcher.c:156 | `strncmp` from offset i, bounded by a NUL-free pattern's length, is 0 exactly when the buffer holds the pattern's bytes from i on |
| LibC.StrncmpIsPrefix | matcher.c:154-156 | `strncmp(str, p, strlen(p)) == 0` exactly when p is a byte prefix of str; a short buffer or a NUL in it is a mismatch |
| LibC.Strncmp | matcher.c:156 | `strncmp` over byte sequences, reading a terminator past the end of a buffer; the result is a difference of two unsigned chars |
| LibC.Strsep | matcher.c:33 | the token holds no delimiter; the cursor becomes NULL only when the token is the whole string; otherwise the string is token, delimiter, rest |
| Segments.Split | matcher.c:27-37 | there is at least one segment, and no segment holds the delimiter |
| Segments.NonEmpty | matcher.c:110-112 | keeps exactly the non-empty segments and never grows the list |
| Segments.JoinSplit | matcher.c:27-37 | joining the segments of s with the delimiter gives back s |
| Segments.SplitSingle | matcher.c:33 | a string without the delimiter is its own single segment |
| Segments.SplitCons | matcher.c:33 | a delimiter-free head before the first delimiter splits off as the first segment |
| Segments.SplitJoin | matcher.c:27-37 | splitting the join of delimiter-free segments gives back the segments |
| Segments.StrsepSplit | matcher.c:33 | the token is the first segment; the new cursor splits into the remaining segments, or there are none left when it is NULL |
| Segments.StrsepStep | matcher.c:31-36 | on a NUL-free cursor the token and the new cursor are NUL-free, and the non-empty segments to come are the token (unless empty) followed by those of the new cursor |
| Segments.NonEmptyAppend | matcher.c:32-37 | filtering out empty segments distributes over concatenation |
| Segments.NonEmptyAll | matcher.c:110-112 | a list without empty segments is unchanged by the filter |
| PrefixMatcher.FirstMatch | matcher.c:149-161 | the credited index is in range and its pattern matches; no earlier pattern matches; there is none exactly when no pattern matches |
| PrefixMatcher.Shadowed | matcher.c:149-159 | a pattern that is a prefix of a later pattern keeps the later one from ever being credited |
| PrefixMatcher.FirstMatchAppend | matcher.c:149-159 | appending a pattern keeps every earlier match; the new pattern is credited only when no earlier pattern matches and it does |
| PrefixMatcher.SpecPatternsJoin | matcher.c:29-38 | initialising from the `\|`-join of non-empty, NUL-free patterns without `\|` stores exactly those patterns in order |
| PrefixMatcher.InitStep | matcher.c:32-37 | one round of the `strsep` loop keeps the patterns stored so far, followed by the non-empty segments still to come, equal to the whole list |
| PrefixMatcher.Matcher.constructor | matcher.c:101 | zeroed storage: every field 0, every buffer NULL, the invariant holds |
| PrefixMatcher.Matcher.Reset | matcher.c:101 | `memset` to zero: every field 0, every buffer NULL |
| PrefixMatcher.Matcher.Init | matcher.c:16-39 | on storage not yet initialised: afterwards initialised and valid; the patterns are exactly the non-empty `\|`-segments of the spec in order (none for NULL or ""); version is the clock reading plus the pattern count; misses are 0; no buffer when there is no pattern |
| PrefixMatcher.Matcher.Add | matcher.c:104-142 | an empty pattern changes nothing. A non-empty one is appended to the patterns, with its length appended to the lengths. Count and version go up by one, misses and earlier hit counters are kept, and the capacity becomes `2*max+4` exactly when the buffers were full |
| PrefixMatcher.Matcher.Grow | matcher.c:114-125 | the capacity becomes `2*max+4`; the stored patterns, lengths, hit counters and every other field are kept |
| PrefixMatcher.Matcher.Check | matcher.c:144-166 | uninitialised: false, nothing changes. Initialised: true exactly when some stored pattern matches. The first matching pattern's counter goes up by one, wrapping, and nothing else changes; with no match, only misses goes up. A negative length never matches |
| PrefixMatcher.Matcher.Clone | matcher.c:45-85 | succeeds exactly when the source is initialised, and never changes the source. On failure the copy is untouched. On success the copy is valid and initialised, with the same version, count, patterns and lengths; its capacity equals the count, and every hit counter and misses are 0 |
| PrefixMatcher.Initted | matcher.c:41-43 | non-NULL and holding the sentinel `0xa135b21a`; zeroed storage is never initialised |
| PrefixMatcher.Uninit | matcher.c:87-102 | NULL: nothing. Otherwise every field 0, every buffer NULL, the invariant holds, no longer initialised; so a second call leaves it zeroed |

## Left out

- The clock: `gettimeofday` (matcher.c:22-25) becomes the parameter `now` of `Init`, already read in milliseconds. `Clone` passes 0 and then overwrites the version, as the source overwrites it at line 55.
- Width of `version`: `matcher.h` is not part of this model, so `version` is an unbounded integer and its increments never wrap. `hits` and `misses` are `uint64_t` and wrap.
- Allocation failure: every `realloc`, `calloc` and `strdup` succeeds. The failure paths of `add` (matcher.c:119-131, 137) and of `clone` (matcher.c:63-70, 81-84) are not modelled, so `Clone` fails only on an uninitialised source.
- Memory management: freeing the pattern strings and buffers (matcher.c:91-99) and strdup ownership are not modelled. Patterns are values and buffers are `seq` fields, so pointer identity, aliasing between matchers and in-place buffer updates are not captured; `Clone`'s deep copy is a copy of values.
- `strsep` writes a NUL over each delimiter in the caller's spec buffer. The model reads the spec as a value and does not capture that rewriting.
- C `int` overflow is not modelled: the `strlen` result in `int length`, `patterns_max * 2 + 4`, `patterns_num` and the loop indices are unbounded.
- The `assert` calls of the source are preconditions:
  - `Init` requires storage not yet initialised;
  - `Add` requires an initialised matcher and a NUL-free pattern;
  - the `patterns_num <= patterns_max` checks are part of `Valid()`;
  - NULL `m`, `copy`, `pattern` and `str` are excluded by the types, except `Initted` and `Uninit`, which accept NULL as the source does.
- `Clone` follows the runtime test at matcher.c:48 rather than the `assert` at line 47: an uninitialised source gives failure (NULL).
- PrefixMatcher.Matcher.Add: does not say what the new slot's hit counter holds, because the source never writes it.
- PrefixMatcher.Matcher.Grow: the slots past the old capacity hold placeholder values, since `realloc` leaves them undetermined; no contract mentions them.
