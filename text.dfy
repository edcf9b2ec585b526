/**
 * The handful of Python string operations the quiz app applies to spreadsheet
 * cells: `str.strip()`, `str.upper()` and `str.split(',')`.
 */
module Text {

  /** Python's `str.isspace()` characters: the set `str.strip()` removes. */
  predicate IsSpace(c: char)
  {
    ('\U{9}' <= c <= '\U{D}') || ('\U{1C}' <= c <= '\U{20}')
    || c == '\U{85}' || c == '\U{A0}' || c == '\U{1680}'
    || ('\U{2000}' <= c <= '\U{200A}')
    || c == '\U{2028}' || c == '\U{2029}' || c == '\U{202F}' || c == '\U{205F}' || c == '\U{3000}'
  }

  /** The index of the first non-whitespace character at or after `i`, or `|s|`. */
  function SkipSpace(s: string, i: nat): (r: nat)
    requires i <= |s|
    ensures i <= r <= |s|
    decreases |s| - i
  {
    if i < |s| && IsSpace(s[i]) then SkipSpace(s, i + 1) else i
  }

  /** The end of `s[lo..j]` once trailing whitespace is dropped. */
  function BackSpace(s: string, lo: nat, j: nat): (r: nat)
    requires lo <= j <= |s|
    ensures lo <= r <= j
    decreases j
  {
    if j > lo && IsSpace(s[j - 1]) then BackSpace(s, lo, j - 1) else j
  }

  /** `SkipSpace` passes over whitespace only and stops before a non-whitespace character. */
  lemma {:induction false} SkipSpaceSkipsSpace(s: string, i: nat)
    requires i <= |s|
    ensures forall k :: i <= k < SkipSpace(s, i) ==> IsSpace(s[k])
    ensures SkipSpace(s, i) < |s| ==> !IsSpace(s[SkipSpace(s, i)])
    decreases |s| - i
  {
    if i < |s| && IsSpace(s[i]) {
      SkipSpaceSkipsSpace(s, i + 1);
    }
  }

  /** `BackSpace` passes over whitespace only and stops after a non-whitespace character. */
  lemma {:induction false} BackSpaceSkipsSpace(s: string, lo: nat, j: nat)
    requires lo <= j <= |s|
    ensures forall k :: BackSpace(s, lo, j) <= k < j ==> IsSpace(s[k])
    ensures BackSpace(s, lo, j) > lo ==> !IsSpace(s[BackSpace(s, lo, j) - 1])
    decreases j
  {
    if j > lo && IsSpace(s[j - 1]) {
      BackSpaceSkipsSpace(s, lo, j - 1);
    }
  }

  /** Where the text kept by `strip()` starts in `s`. */
  function StripStart(s: string): nat
    ensures StripStart(s) <= |s|
  {
    SkipSpace(s, 0)
  }

  /** Where the text kept by `strip()` ends in `s`. */
  function StripEnd(s: string): nat
    ensures StripStart(s) <= StripEnd(s) <= |s|
  {
    BackSpace(s, StripStart(s), |s|)
  }

  /** `s.strip()`: the slice left once whitespace is removed at both ends. */
  function Strip(s: string): string
  {
    s[StripStart(s)..StripEnd(s)]
  }

  /** `strip()` drops only whitespace, and keeps no whitespace at either end. */
  lemma StripDropsSpace(s: string)
    ensures forall k :: 0 <= k < StripStart(s) ==> IsSpace(s[k])
    ensures forall k :: StripEnd(s) <= k < |s| ==> IsSpace(s[k])
    ensures StripStart(s) < StripEnd(s) ==> !IsSpace(s[StripStart(s)]) && !IsSpace(s[StripEnd(s) - 1])
  {
    SkipSpaceSkipsSpace(s, 0);
    BackSpaceSkipsSpace(s, StripStart(s), |s|);
  }

  /** A string with no whitespace at either end. */
  predicate Stripped(s: string)
  {
    s == [] || (!IsSpace(s[0]) && !IsSpace(s[|s| - 1]))
  }

  /** The result of `strip()` has no whitespace at either end. */
  lemma StripIsStripped(s: string)
    ensures Stripped(Strip(s))
  {
    StripDropsSpace(s);
  }

  /** A string without whitespace at its ends is left as it is by `strip()`. */
  lemma StripStripped(s: string)
    requires Stripped(s)
    ensures Strip(s) == s
  {
    assert StripStart(s) == 0;
    if s != [] {
      assert StripEnd(s) == |s|;
    }
  }

  /** Stripping twice is stripping once. */
  lemma StripIdempotent(s: string)
    ensures Strip(Strip(s)) == Strip(s)
  {
    StripIsStripped(s);
    StripStripped(Strip(s));
  }

  /** A character survives `strip()` only if it was in the input. */
  lemma StripKeepsOnly(s: string, c: char)
    requires c in Strip(s)
    ensures c in s
  {
    var k :| 0 <= k < |Strip(s)| && Strip(s)[k] == c;
    assert s[StripStart(s) + k] == c;
  }

  /** ASCII upper-casing of one character. */
  function UpperChar(c: char): char
  {
    if 'a' <= c <= 'z' then (c as int - 32) as char else c
  }

  /** `s.upper()`, restricted to the ASCII letters. */
  function Upper(s: string): string
  {
    seq(|s|, k requires 0 <= k < |s| => UpperChar(s[k]))
  }

  /** `s.split(sep)`: the pieces between occurrences of `sep`; never empty. */
  function Split(s: string, sep: char): (r: seq<string>)
    ensures |r| >= 1
    decreases |s|
  {
    if s == [] then [""]
    else if s[0] == sep then [""] + Split(s[1..], sep)
    else
      var rest := Split(s[1..], sep);
      [[s[0]] + rest[0]] + rest[1..]
  }

  /** No piece of a split contains the separator. */
  lemma {:induction false} SplitNoSep(s: string, sep: char)
    ensures forall p :: p in Split(s, sep) ==> sep !in p
    decreases |s|
  {
    if s != [] {
      SplitNoSep(s[1..], sep);
      if s[0] != sep {
        var rest := Split(s[1..], sep);
        assert rest[0] in rest;
        forall p | p in Split(s, sep) ensures sep !in p {
          if p != [s[0]] + rest[0] {
            var k :| 1 <= k < |Split(s, sep)| && Split(s, sep)[k] == p;
            assert p == rest[k];
          }
        }
      }
    }
  }

  /** `sep.join(ps)`, the inverse of `Split`. */
  function Join(ps: seq<string>, sep: char): string
    requires |ps| >= 1
    decreases |ps|
  {
    if |ps| == 1 then ps[0] else ps[0] + [sep] + Join(ps[1..], sep)
  }

  /** Joining the pieces of a split gives back the original string. */
  lemma {:induction false} JoinSplit(s: string, sep: char)
    ensures Join(Split(s, sep), sep) == s
    decreases |s|
  {
    if s == [] {
    } else if s[0] == sep {
      JoinSplit(s[1..], sep);
      assert [sep] + s[1..] == s;
    } else {
      var rest := Split(s[1..], sep);
      JoinSplit(s[1..], sep);
      if |rest| == 1 {
        assert [s[0]] + rest[0] == s;
      } else {
        assert ([s[0]] + rest[0]) + [sep] + Join(rest[1..], sep) == [s[0]] + (rest[0] + [sep] + Join(rest[1..], sep));
        assert [s[0]] + s[1..] == s;
      }
    }
  }

  /** A join whose first piece is non-empty starts with that piece's first character. */
  lemma JoinFirstChar(ps: seq<string>, sep: char)
    requires |ps| >= 1 && ps[0] != []
    ensures Join(ps, sep) == [ps[0][0]] + Join([ps[0][1..]] + ps[1..], sep)
  {
    var tail := [ps[0][1..]] + ps[1..];
    assert ps[0] == [ps[0][0]] + ps[0][1..];
    assert tail[1..] == ps[1..];
  }

  /** Splitting a join of separator-free pieces gives back the pieces. */
  lemma {:induction false} SplitJoin(ps: seq<string>, sep: char)
    requires |ps| >= 1
    requires forall p :: p in ps ==> sep !in p
    ensures Split(Join(ps, sep), sep) == ps
    decreases |ps|, |ps[0]|
  {
    if ps[0] == [] {
      if |ps| == 1 {
      } else {
        SplitJoin(ps[1..], sep);
        assert Join(ps, sep) == [sep] + Join(ps[1..], sep);
        assert Join(ps, sep)[1..] == Join(ps[1..], sep);
        assert [""] + ps[1..] == ps;
      }
    } else {
      var tail := [ps[0][1..]] + ps[1..];
      assert forall p :: p in tail ==> sep !in p by {
        assert ps[0] in ps;
        forall p | p in tail ensures sep !in p {
          if p != ps[0][1..] {
            var k :| 1 <= k < |tail| && tail[k] == p;
            assert ps[k] == p;
          }
        }
      }
      SplitJoin(tail, sep);
      JoinFirstChar(ps, sep);
      var s := Join(ps, sep);
      assert s[0] == ps[0][0] && s[1..] == Join(tail, sep);
      assert s[0] != sep by {
        assert ps[0] in ps && ps[0][0] in ps[0];
      }
      assert [s[0]] + tail[0] == ps[0] && tail[1..] == ps[1..];
      assert [[s[0]] + tail[0]] + tail[1..] == ps;
    }
  }
}
