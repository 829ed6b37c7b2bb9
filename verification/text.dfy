/** The Python `str` operations the analyst pipeline and the web service rely on:
    `isspace`, `strip()`, `split(sep)`, `sep.join(parts)` and `replace(pat, repl)`.
    Strings are sequences of Unicode code points, as Python 3 strings are. */
module Text {

  /** `c.isspace()`: the code points Python 3 classifies as whitespace. */
  predicate IsSpace(c: char) {
    || c == ' '
    || ('\t' <= c <= '\r')
    || ('\U{1C}' <= c <= '\U{1F}')
    || c == '\U{85}' || c == '\U{A0}' || c == '\U{1680}'
    || ('\U{2000}' <= c <= '\U{200A}')
    || c == '\U{2028}' || c == '\U{2029}' || c == '\U{202F}' || c == '\U{205F}'
    || c == '\U{3000}'
  }

  predicate AllSpace(s: string) {
    forall i :: 0 <= i < |s| ==> IsSpace(s[i])
  }

  /** No whitespace at either end. */
  predicate Trimmed(s: string) {
    s == [] || (!IsSpace(s[0]) && !IsSpace(s[|s| - 1]))
  }

  predicate StartsWith(s: string, p: string) {
    |p| <= |s| && s[..|p|] == p
  }

  predicate EndsWith(s: string, p: string) {
    |p| <= |s| && s[|s| - |p|..] == p
  }

  /** `p in s`: some position of `s` starts an occurrence of `p`. */
  predicate Contains(s: string, p: string)
    decreases |s|
  {
    StartsWith(s, p) || (|s| > 0 && Contains(s[1..], p))
  }

  /** Number of positions of `s` at which an occurrence of `p` begins
      (overlapping occurrences are all counted). */
  function Occurrences(s: string, p: string): nat
    decreases |s|
  {
    (if StartsWith(s, p) then 1 else 0) + (if |s| == 0 then 0 else Occurrences(s[1..], p))
  }

  // ---------------------------------------------------------------- strip

  /** `r` is the part of `s` starting at `i`, and everything of `s` around it is
      whitespace. */
  predicate Kept(s: string, i: int, r: string) {
    && 0 <= i && i + |r| <= |s| && r == s[i..i + |r|]
    && AllSpace(s[..i]) && AllSpace(s[i + |r|..])
  }

  /** `s.lstrip()`: the longest suffix of `s` that does not start with whitespace. */
  function TrimLeft(s: string): (r: string)
    ensures |r| <= |s| && r == s[|s| - |r|..]
    ensures AllSpace(s[..|s| - |r|])
    ensures r == [] || !IsSpace(r[0])
    decreases |s|
  {
    if |s| > 0 && IsSpace(s[0]) then
      var r := TrimLeft(s[1..]);
      assert s[..|s| - |r|] == [s[0]] + s[1..][..|s[1..]| - |r|];
      r
    else s
  }

  /** `s.rstrip()`: the longest prefix of `s` that does not end with whitespace. */
  function TrimRight(s: string): (r: string)
    ensures |r| <= |s| && r == s[..|r|]
    ensures AllSpace(s[|r|..])
    ensures r == [] || !IsSpace(r[|r| - 1])
    decreases |s|
  {
    if |s| > 0 && IsSpace(s[|s| - 1]) then
      var r := TrimRight(s[..|s| - 1]);
      assert s[|r|..] == s[..|s| - 1][|r|..] + [s[|s| - 1]];
      r
    else s
  }

  /** `s.strip()`: whitespace removed from both ends. */
  function Strip(s: string): (r: string)
    ensures Trimmed(r)
    ensures r == [] <==> AllSpace(s)
  {
    var l := TrimLeft(s);
    var r := TrimRight(l);
    StripEnds(s, l, r);
    r
  }

  /** `strip()` keeps the middle of its input: what it returns is a part of `s` with
      only whitespace around it. */
  lemma {:induction false} StripMiddle(s: string)
    ensures exists i :: Kept(s, i, Strip(s))
  {
    var l := TrimLeft(s);
    StripKept(s, l, TrimRight(l));
    assert Strip(s) == TrimRight(l);
  }

  lemma {:induction false} StripKept(s: string, l: string, r: string)
    requires l == TrimLeft(s) && r == TrimRight(l)
    ensures Kept(s, |s| - |l|, r)
  {
    KeptOfTrims(s, |s| - |l|, l, r);
  }

  /** A prefix `r` of the suffix `l == s[k..]` is kept in `s` when what lies before
      `l` and after `r` is whitespace. */
  lemma {:induction false} KeptOfTrims(s: string, k: int, l: string, r: string)
    requires 0 <= k <= |s| && l == s[k..] && AllSpace(s[..k])
    requires |r| <= |l| && r == l[..|r|] && AllSpace(l[|r|..])
    ensures Kept(s, k, r)
  {
    assert r == s[k..k + |r|];
    assert s[k + |r|..] == l[|r|..];
  }

  /** The facts behind `Strip`'s contract, from those of `TrimLeft` and `TrimRight`. */
  lemma {:induction false} StripEnds(s: string, l: string, r: string)
    requires l == TrimLeft(s) && r == TrimRight(l)
    ensures Trimmed(r)
    ensures r == [] <==> AllSpace(s)
  {
    var k := |s| - |l|;
    if r == [] {
      assert AllSpace(l[|r|..]) && l[|r|..] == l;
      assert l == [];
      assert s[..k] == s;
    } else {
      assert r[0] == l[0] == s[k];
      assert !IsSpace(s[k]);
    }
  }

  lemma {:induction false} TrimLeftSpaces(a: string, s: string)
    requires AllSpace(a)
    ensures TrimLeft(a + s) == TrimLeft(s)
    decreases |a|
  {
    if |a| > 0 {
      assert (a + s)[0] == a[0] && (a + s)[1..] == a[1..] + s;
      TrimLeftSpaces(a[1..], s);
    } else {
      assert a + s == s;
    }
  }

  lemma {:induction false} TrimRightSpaces(s: string, b: string)
    requires AllSpace(b)
    ensures TrimRight(s + b) == TrimRight(s)
    decreases |b|
  {
    if |b| > 0 {
      assert (s + b)[|s + b| - 1] == b[|b| - 1];
      assert (s + b)[..|s + b| - 1] == s + b[..|b| - 1];
      TrimRightSpaces(s, b[..|b| - 1]);
    } else {
      assert s + b == s;
    }
  }

  lemma {:induction false} TrimLeftAppendSpaces(t: string, b: string)
    requires AllSpace(b)
    ensures TrimLeft(t + b) == if TrimLeft(t) == [] then [] else TrimLeft(t) + b
    decreases |t|
  {
    if |t| == 0 {
      assert t + b == b;
      TrimLeftSpaces(b, []);
      assert b + [] == b;
    } else if IsSpace(t[0]) {
      assert (t + b)[1..] == t[1..] + b;
      TrimLeftAppendSpaces(t[1..], b);
    }
  }

  /** Whitespace around a token does not change what `strip()` returns. */
  lemma {:induction false} StripPadded(a: string, t: string, b: string)
    requires AllSpace(a) && AllSpace(b)
    ensures Strip(a + t + b) == Strip(t)
  {
    var x := a + t + b;
    assert x == a + (t + b);
    TrimLeftSpaces(a, t + b);
    assert TrimLeft(x) == TrimLeft(t + b);
    TrimLeftAppendSpaces(t, b);
    StripOfPadded(TrimLeft(x), TrimLeft(t), b);
    assert Strip(x) == TrimRight(TrimLeft(x));
    assert Strip(t) == TrimRight(TrimLeft(t));
  }

  /** Right-trimming a left-trimmed string padded on the right by whitespace. */
  lemma {:induction false} StripOfPadded(x: string, l: string, b: string)
    requires AllSpace(b) && x == if l == [] then [] else l + b
    ensures TrimRight(x) == TrimRight(l)
  {
    if l != [] {
      TrimRightSpaces(l, b);
    }
  }

  /** `strip()` leaves a string unchanged exactly when it has no whitespace at
      either end. */
  lemma {:induction false} StripFixed(s: string)
    ensures Strip(s) == s <==> Trimmed(s)
  {
    if Trimmed(s) {
      StripKeeps(s);
    }
  }

  /** `strip()` is idempotent. */
  lemma {:induction false} StripIdempotent(s: string)
    ensures Strip(Strip(s)) == Strip(s)
  {
    StripKeeps(Strip(s));
  }

  /** A string with no whitespace at either end is its own strip. */
  lemma {:induction false} StripKeeps(r: string)
    requires Trimmed(r)
    ensures Strip(r) == r
  {
    assert TrimLeft(r) == r;
    assert TrimRight(r) == r;
    assert Strip(r) == TrimRight(TrimLeft(r));
  }

  // ---------------------------------------------------------------- split / join

  /** `s.split(sep)`: scan left to right, cutting at every non-overlapping
      occurrence of `sep`; empty pieces are kept, and `"".split(sep) == [""]`. */
  function Split(s: string, sep: string): (parts: seq<string>)
    requires |sep| > 0
    ensures |parts| >= 1
    decreases |s|
  {
    if StartsWith(s, sep) then [""] + Split(s[|sep|..], sep)
    else if |s| == 0 then [""]
    else
      var rest := Split(s[1..], sep);
      [[s[0]] + rest[0]] + rest[1..]
  }

  /** `sep.join(parts)`. */
  function Join(parts: seq<string>, sep: string): (r: string)
    ensures |parts| >= 1 ==> StartsWith(r, parts[0])
    decreases |parts|
  {
    if |parts| == 0 then ""
    else if |parts| == 1 then parts[0]
    else
      var r := parts[0] + sep + Join(parts[1..], sep);
      assert r[..|parts[0]|] == parts[0];
      r
  }

  /** `s.replace(pat, repl)`: every non-overlapping occurrence of `pat`, found left to
      right, is replaced by `repl`. */
  function Replace(s: string, pat: string, repl: string): (r: string)
    requires |pat| > 0
    ensures |repl| == |pat| ==> |r| == |s|
    decreases |s|
  {
    if StartsWith(s, pat) then repl + Replace(s[|pat|..], pat, repl)
    else if |s| == 0 then ""
    else [s[0]] + Replace(s[1..], pat, repl)
  }

  lemma {:induction false} JoinConsChar(c: char, parts: seq<string>, sep: string)
    requires |parts| >= 1
    ensures Join([[c] + parts[0]] + parts[1..], sep) == [c] + Join(parts, sep)
  {
    var ps := [[c] + parts[0]] + parts[1..];
    if |parts| > 1 {
      assert ps[1..] == parts[1..];
    }
  }

  lemma {:induction false} JoinConsEmpty(parts: seq<string>, sep: string)
    requires |parts| >= 1
    ensures Join([""] + parts, sep) == sep + Join(parts, sep)
  {
    assert ([""] + parts)[1..] == parts;
  }

  /** Splitting and joining again with the same separator gives back the input. */
  lemma {:induction false} SplitJoin(s: string, sep: string)
    requires |sep| > 0
    ensures Join(Split(s, sep), sep) == s
    decreases |s|
  {
    if StartsWith(s, sep) {
      var rest := Split(s[|sep|..], sep);
      SplitJoin(s[|sep|..], sep);
      assert Split(s, sep) == [""] + rest;
      JoinConsEmpty(rest, sep);
      assert s == sep + s[|sep|..];
    } else if |s| > 0 {
      var rest := Split(s[1..], sep);
      SplitJoin(s[1..], sep);
      assert Split(s, sep) == [[s[0]] + rest[0]] + rest[1..];
      JoinConsChar(s[0], rest, sep);
      assert s == [s[0]] + s[1..];
    }
  }

  /** No occurrence of `sep` in `s` begins before position `n`. */
  predicate NoneBefore(s: string, sep: string, n: int) {
    forall k :: 0 <= k < n && k <= |s| ==> !StartsWith(s[k..], sep)
  }

  lemma {:induction false} NoneBeforeCons(s: string, sep: string, n: int)
    requires |s| > 0 && !StartsWith(s, sep) && NoneBefore(s[1..], sep, n)
    ensures NoneBefore(s, sep, n + 1)
  {
    forall k | 0 <= k < n + 1 && k <= |s|
      ensures !StartsWith(s[k..], sep)
    {
      if k > 0 {
        assert s[k..] == s[1..][k - 1..];
      } else {
        assert s[k..] == s;
      }
    }
  }

  /** The first of `parts` runs up to the leftmost occurrence of `sep` in `s`, or is
      all of `s` when there is none; the remaining parts split what follows that
      occurrence. */
  predicate FirstPieceOf(s: string, sep: string, parts: seq<string>)
    requires |sep| > 0 && |parts| >= 1
  {
    var p := parts[0];
    && |p| <= |s| && p == s[..|p|] && NoneBefore(s, sep, |p|)
    && (|parts| == 1 ==> p == s)
    && (|parts| > 1 ==>
          StartsWith(s[|p|..], sep) && parts[1..] == Split(s[|p| + |sep|..], sep))
  }

  /** With `SplitJoin`, this pins the pieces of a split down even for a separator
      that overlaps itself. */
  lemma {:induction false} SplitFirst(s: string, sep: string)
    requires |sep| > 0
    ensures FirstPieceOf(s, sep, Split(s, sep))
    decreases |s|
  {
    if StartsWith(s, sep) {
      assert Split(s, sep) == [""] + Split(s[|sep|..], sep);
      assert s[0..] == s;
    } else if |s| > 0 {
      SplitFirst(s[1..], sep);
      SplitFirstCons(s, sep);
    }
  }

  lemma {:induction false} SplitFirstCons(s: string, sep: string)
    requires |sep| > 0 && |s| > 0 && !StartsWith(s, sep)
    requires FirstPieceOf(s[1..], sep, Split(s[1..], sep))
    ensures FirstPieceOf(s, sep, Split(s, sep))
  {
    var rest := Split(s[1..], sep);
    assert Split(s, sep) == [[s[0]] + rest[0]] + rest[1..];
    FirstPieceCons(s, sep, rest, Split(s, sep));
  }

  /** Putting a character that starts no occurrence in front of the first piece. */
  lemma {:induction false} FirstPieceCons(s: string, sep: string, rest: seq<string>,
                                          parts: seq<string>)
    requires |sep| > 0 && |s| > 0 && !StartsWith(s, sep) && |rest| >= 1
    requires FirstPieceOf(s[1..], sep, rest)
    requires parts == [[s[0]] + rest[0]] + rest[1..]
    ensures FirstPieceOf(s, sep, parts)
  {
    NoneBeforeCons(s, sep, |rest[0]|);
    ConsSlices(s, rest[0], |sep|);
    assert parts[1..] == rest[1..];
    if |rest| == 1 {
      assert s == [s[0]] + s[1..];
    }
  }

  /** Slices of `s` against slices of its tail, past a first character. */
  lemma {:induction false} ConsSlices(s: string, q: string, m: nat)
    requires |s| > 0 && |q| <= |s| - 1 && q == s[1..][..|q|]
    ensures var p := [s[0]] + q;
            && p == s[..|p|]
            && s[|p|..] == s[1..][|q|..]
            && (|q| + m <= |s| - 1 ==> s[|p| + m..] == s[1..][|q| + m..])
  {
  }

  lemma {:induction false} PrefixStartsWith(s: string, t: string, p: string)
    requires StartsWith(s, t) && StartsWith(t, p)
    ensures StartsWith(s, p)
  {
    assert s[..|p|] == s[..|t|][..|p|];
  }

  /** No piece of a split contains the separator, and the first piece is a prefix
      of the input. */
  lemma {:induction false} SplitPiecesFree(s: string, sep: string)
    requires |sep| > 0
    ensures StartsWith(s, Split(s, sep)[0])
    ensures forall i :: 0 <= i < |Split(s, sep)| ==> !Contains(Split(s, sep)[i], sep)
    decreases |s|
  {
    var parts := Split(s, sep);
    if StartsWith(s, sep) {
      SplitPiecesFree(s[|sep|..], sep);
      assert !Contains(parts[0], sep);
      assert forall i :: 1 <= i < |parts| ==> parts[i] == Split(s[|sep|..], sep)[i - 1];
    } else if |s| > 0 {
      var rest := Split(s[1..], sep);
      SplitPiecesFree(s[1..], sep);
      var t := [s[0]] + rest[0];
      assert t[1..] == rest[0];
      assert s == [s[0]] + s[1..];
      assert StartsWith(s, t);
      if StartsWith(t, sep) {
        PrefixStartsWith(s, t, sep);
        assert false;
      }
      assert !Contains(t, sep);
      assert forall i :: 1 <= i < |parts| ==> parts[i] == rest[i];
    }
  }

  /** A string that does not contain the separator splits into itself alone. */
  lemma {:induction false} SplitNoSeparator(t: string, sep: string)
    requires |sep| > 0 && !Contains(t, sep)
    ensures Split(t, sep) == [t]
    decreases |t|
  {
    if |t| > 0 {
      SplitNoSeparator(t[1..], sep);
      assert [t[0]] + t[1..] == t;
    }
  }

  /** The last piece of a split is a suffix of the input; it is the whole input when
      nothing was cut, and it is preceded by the separator otherwise. */
  lemma {:induction false} SplitLast(s: string, sep: string)
    requires |sep| > 0
    ensures LastPieceOf(s, sep, Split(s, sep))
  {
    var parts := Split(s, sep);
    SplitJoin(s, sep);
    if |parts| > 1 {
      JoinSnoc(parts, sep);
      LastAfterSeparator(Join(parts[..|parts| - 1], sep), sep, parts[|parts| - 1], s);
    }
  }

  /** The last of `parts` is a suffix of `s`; it is all of `s` when there is a single
      part, and it is preceded by `sep` otherwise. */
  predicate LastPieceOf(s: string, sep: string, parts: seq<string>)
    requires |parts| >= 1
  {
    var r := parts[|parts| - 1];
    && |r| <= |s| && r == s[|s| - |r|..]
    && (|parts| == 1 ==> r == s)
    && (|parts| > 1 ==> EndsWith(s[..|s| - |r|], sep))
  }

  /** Joining peels off at the end as well as at the front. */
  lemma {:induction false} JoinSnoc(parts: seq<string>, sep: string)
    requires |parts| > 1
    ensures Join(parts, sep) == Join(parts[..|parts| - 1], sep) + sep + parts[|parts| - 1]
    decreases |parts|
  {
    var n := |parts|;
    if n == 2 {
      assert parts[1..] == [parts[1]];
      assert parts[..1] == [parts[0]];
    } else {
      var tail := parts[1..];
      JoinSnoc(tail, sep);
      var init := parts[..n - 1];
      assert init[1..] == tail[..|tail| - 1];
      assert Join(init, sep) == parts[0] + sep + Join(tail[..|tail| - 1], sep);
    }
  }

  lemma {:induction false} LastAfterSeparator(x: string, sep: string, r: string, s: string)
    requires s == x + sep + r
    ensures |r| <= |s| && r == s[|s| - |r|..]
    ensures EndsWith(s[..|s| - |r|], sep)
  {
    assert s[..|s| - |r|] == x + sep;
    assert (x + sep)[|x + sep| - |sep|..] == sep;
  }

  /** Python's identity `s.replace(pat, repl) == repl.join(s.split(pat))`. */
  lemma {:induction false} ReplaceIsJoinOfSplit(s: string, pat: string, repl: string)
    requires |pat| > 0
    ensures Replace(s, pat, repl) == Join(Split(s, pat), repl)
    decreases |s|
  {
    if StartsWith(s, pat) {
      var rest := Split(s[|pat|..], pat);
      ReplaceIsJoinOfSplit(s[|pat|..], pat, repl);
      JoinConsEmpty(rest, repl);
    } else if |s| > 0 {
      ReplaceIsJoinOfSplit(s[1..], pat, repl);
      JoinConsChar(s[0], Split(s[1..], pat), repl);
    }
  }

  /** A string without the pattern is left as it is by `replace`. */
  lemma {:induction false} ReplaceAbsent(s: string, pat: string, repl: string)
    requires |pat| > 0 && !Contains(s, pat)
    ensures Replace(s, pat, repl) == s
  {
    ReplaceIsJoinOfSplit(s, pat, repl);
    SplitNoSeparator(s, pat);
  }

  /** `replace` introduces no character that is in neither the input nor the replacement. */
  lemma {:induction false} ReplaceCharAbsent(s: string, pat: string, repl: string, c: char)
    requires |pat| > 0 && c !in s && c !in repl
    ensures c !in Replace(s, pat, repl)
    decreases |s|
  {
    if StartsWith(s, pat) {
      ReplaceCharAbsent(s[|pat|..], pat, repl, c);
    } else if |s| > 0 {
      ReplaceCharAbsent(s[1..], pat, repl, c);
    }
  }
}
