/**
  The pieces of Python's `str` (and `bytes`) behaviour the hook relies on:
  whitespace, `rstrip()`, `lstrip()`, `strip()` with no arguments,
  `split(sep)` and `sep.join(parts)` for a one-character separator, and
  the slice `xs[k:]`.
*/
module PyStr {

  /** Whether a value is text (`str`) or raw bytes (`bytes`); the two strip different characters. */
  datatype Mode = Text | Bytes

  /** The six ASCII whitespace bytes `bytes.strip()` removes: space, `\t`, `\n`, `\v`, `\f`, `\r`. */
  predicate IsByteSpace(c: char) {
    c == ' ' || ('\t' <= c <= '\r')
  }

  /**
    The characters for which `str.isspace()` holds, which `str.strip()` removes.
    They include every whitespace byte; among ASCII characters they add only
    the four separators `\x1c` to `\x1f`.
  */
  predicate IsTextSpace(c: char): (r: bool)
    ensures IsByteSpace(c) ==> r
    ensures c < '\U{80}' ==> (r <==> IsByteSpace(c) || ('\U{1C}' <= c <= '\U{1F}'))
  {
    c == ' ' || ('\t' <= c <= '\r') || ('\U{1C}' <= c <= '\U{1F}')
    || c == '\U{85}' || c == '\U{A0}' || c == '\U{1680}'
    || ('\U{2000}' <= c <= '\U{200A}')
    || c == '\U{2028}' || c == '\U{2029}' || c == '\U{202F}' || c == '\U{205F}' || c == '\U{3000}'
  }

  /** The characters `strip()` removes from a value in the given mode; nothing a text strip keeps is removed from bytes. */
  predicate IsSpace(c: char, mode: Mode): (r: bool)
    ensures r ==> IsTextSpace(c)
  {
    match mode
    case Bytes => IsByteSpace(c)
    case Text => IsTextSpace(c)
  }

  predicate AllSpace(s: string, mode: Mode) {
    forall i :: 0 <= i < |s| ==> IsSpace(s[i], mode)
  }

  /** `t` is what `s.rstrip()` must be: a prefix of `s`, followed only by whitespace, not itself ending in whitespace. */
  predicate IsRStripOf(s: string, t: string, mode: Mode) {
    t <= s && AllSpace(s[|t|..], mode) && (t == [] || !IsSpace(t[|t| - 1], mode))
  }

  /** `t` is what `s.lstrip()` must be: a suffix of `s`, preceded only by whitespace, not itself starting with whitespace. */
  predicate IsLStripOf(s: string, t: string, mode: Mode) {
    |t| <= |s| && t == s[|s| - |t|..] && AllSpace(s[..|s| - |t|], mode)
    && (t == [] || !IsSpace(t[0], mode))
  }

  /** `s.rstrip()` */
  function RStrip(s: string, mode: Mode): (r: string)
    ensures IsRStripOf(s, r, mode)
  {
    if s == [] || !IsSpace(s[|s| - 1], mode) then s
    else RStrip(s[..|s| - 1], mode)
  }

  /** `s.lstrip()` */
  function LStrip(s: string, mode: Mode): (r: string)
    ensures IsLStripOf(s, r, mode)
  {
    if s == [] || !IsSpace(s[0], mode) then s
    else LStrip(s[1..], mode)
  }

  /** `s.strip()`: whitespace removed from both ends. */
  function Strip(s: string, mode: Mode): (r: string)
    ensures r == [] <==> AllSpace(s, mode)
    ensures r != [] ==> !IsSpace(r[0], mode) && !IsSpace(r[|r| - 1], mode)
  {
    var t := RStrip(s, mode);
    assert t == [] ==> s[|t|..] == s;
    LStrip(t, mode)
  }

  /** The result of `rstrip()` is determined by its characterisation. */
  lemma {:induction false} RStripUnique(s: string, t: string, mode: Mode)
    requires IsRStripOf(s, t, mode)
    ensures RStrip(s, mode) == t
    decreases |s|
  {
    if s != [] && IsSpace(s[|s| - 1], mode) {
      assert |t| < |s|;
      assert t <= s[..|s| - 1];
      assert s[..|s| - 1][|t|..] == s[|t|..|s| - 1];
      RStripUnique(s[..|s| - 1], t, mode);
    }
  }

  /** The result of `lstrip()` is determined by its characterisation. */
  lemma {:induction false} LStripUnique(s: string, t: string, mode: Mode)
    requires IsLStripOf(s, t, mode)
    ensures LStrip(s, mode) == t
    decreases |s|
  {
    if s != [] && IsSpace(s[0], mode) {
      assert |t| < |s|;
      assert s[1..][|s| - 1 - |t|..] == s[|s| - |t|..];
      assert s[1..][..|s| - 1 - |t|] == s[1..|s| - |t|];
      LStripUnique(s[1..], t, mode);
    }
  }

  /** Stripping text padded with whitespace on both sides gives the text back. */
  lemma StripPadded(lead: string, t: string, trail: string, mode: Mode)
    requires AllSpace(lead, mode) && AllSpace(trail, mode)
    requires t != [] ==> !IsSpace(t[0], mode) && !IsSpace(t[|t| - 1], mode)
    ensures Strip(lead + t + trail, mode) == t
  {
    var s := lead + t + trail;
    var u := lead + t;
    if t == [] {
      assert AllSpace(s, mode) by {
        forall i | 0 <= i < |s| ensures IsSpace(s[i], mode) {
          if i < |lead| { assert s[i] == lead[i]; } else { assert s[i] == trail[i - |lead|]; }
        }
      }
    } else {
      assert s[..|u|] == u && s[|u|..] == trail;
      RStripUnique(s, u, mode);
      assert u[|u| - |t|..] == t && u[..|u| - |t|] == lead;
      LStripUnique(u, t, mode);
    }
  }

  /** Stripping the output of `rstrip()` again is the same as stripping the original. */
  lemma RStripThenStrip(s: string, mode: Mode)
    ensures Strip(RStrip(s, mode), mode) == Strip(s, mode)
  {
    var t := RStrip(s, mode);
    RStripUnique(t, t, mode);
  }

  /** `rstrip()` is empty exactly when the input is whitespace only. */
  lemma RStripEmpty(s: string, mode: Mode)
    ensures RStrip(s, mode) == [] <==> AllSpace(s, mode)
  {
    var t := RStrip(s, mode);
    if t != [] {
      assert s[|t| - 1] == t[|t| - 1];
    } else {
      assert s[|t|..] == s;
    }
  }

  /** The number of occurrences of `c` in `s`. */
  function Count(s: string, c: char): nat {
    if s == [] then 0 else (if s[0] == c then 1 else 0) + Count(s[1..], c)
  }

  /**
    `s.split(sep)`: the pieces between occurrences of `sep`, so consecutive
    separators give empty pieces and `"".split(sep)` is `[""]`.
  */
  function Split(s: string, sep: char): (r: seq<string>)
    ensures |r| == Count(s, sep) + 1
    ensures forall i :: 0 <= i < |r| ==> sep !in r[i]
  {
    if s == [] then [[]]
    else
      var rest := Split(s[1..], sep);
      if s[0] == sep then [[]] + rest
      else [[s[0]] + rest[0]] + rest[1..]
  }

  /** A join of three or more pieces is the first two, each followed by the separator, then the join of the rest. */
  lemma JoinFirstTwo(sep: char, parts: seq<string>)
    requires |parts| >= 3
    ensures Join(sep, parts) == parts[0] + [sep] + parts[1] + [sep] + Join(sep, parts[2..])
  {
    assert parts[1..][1..] == parts[2..];
  }

  /** `sep.join(parts)`: the pieces with one `sep` between neighbours; `""` for no pieces. */
  function Join(sep: char, parts: seq<string>): (r: string)
    ensures |parts| > 0 ==> parts[0] <= r
    ensures |parts| > 1 ==> |parts[0]| < |r| && r[|parts[0]|] == sep
  {
    if |parts| == 0 then []
    else if |parts| == 1 then parts[0]
    else parts[0] + [sep] + Join(sep, parts[1..])
  }

  /** The Python slice `xs[k:]`, which is empty rather than an error when `k` is past the end. */
  function From<T>(xs: seq<T>, k: nat): (r: seq<T>)
    ensures |r| == if k <= |xs| then |xs| - k else 0
    ensures forall i :: 0 <= i < |r| ==> r[i] == xs[k + i]
  {
    if k <= |xs| then xs[k..] else []
  }

  lemma JoinCons(sep: char, c: char, p: string, ps: seq<string>)
    ensures Join(sep, [[c] + p] + ps) == [c] + Join(sep, [p] + ps)
  {
    if |ps| > 0 {
      assert ([[c] + p] + ps)[1..] == ps && ([p] + ps)[1..] == ps;
    }
  }

  /** Joining the pieces of a split gives back the original string. */
  lemma {:induction false} JoinSplit(s: string, sep: char)
    ensures Join(sep, Split(s, sep)) == s
    decreases |s|
  {
    if s != [] {
      var rest := Split(s[1..], sep);
      JoinSplit(s[1..], sep);
      if s[0] == sep {
        assert ([[]] + rest)[1..] == rest;
      } else {
        assert rest == [rest[0]] + rest[1..];
        JoinCons(sep, s[0], rest[0], rest[1..]);
      }
    }
  }

  /** A piece free of the separator runs up to the first separator of what follows it. */
  lemma {:induction false} SplitPrefix(a: string, t: string, sep: char)
    requires sep !in a
    ensures Split(a + t, sep) == [a + Split(t, sep)[0]] + Split(t, sep)[1..]
    decreases |a|
  {
    if a != [] {
      assert (a + t)[0] == a[0] && (a + t)[1..] == a[1..] + t;
      SplitPrefix(a[1..], t, sep);
      assert [a[0]] + (a[1..] + Split(t, sep)[0]) == a + Split(t, sep)[0];
    } else {
      var r := Split(t, sep);
      assert a + t == t && a + r[0] == r[0];
      assert r == [r[0]] + r[1..];
    }
  }

  /** A leading separator-free piece and its separator split off as one piece. */
  lemma SplitAfterSep(a: string, t: string, sep: char)
    requires sep !in a
    ensures Split(a + [sep] + t, sep) == [a] + Split(t, sep)
  {
    assert a + [sep] + t == a + ([sep] + t);
    assert ([sep] + t)[1..] == t;
    SplitPrefix(a, [sep] + t, sep);
    assert a + [] == a;
  }

  /** Splitting a join of separator-free pieces gives back the pieces. */
  lemma {:induction false} SplitJoin(parts: seq<string>, sep: char)
    requires |parts| > 0
    requires forall i :: 0 <= i < |parts| ==> sep !in parts[i]
    ensures Split(Join(sep, parts), sep) == parts
    decreases |parts|
  {
    if |parts| == 1 {
      SplitPrefix(parts[0], [], sep);
      assert parts[0] + [] == parts[0];
    } else {
      SplitJoin(parts[1..], sep);
      SplitAfterSep(parts[0], Join(sep, parts[1..]), sep);
    }
  }
}
