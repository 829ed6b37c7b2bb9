/** Parsing the planner's `plan` string into the ordered agent names that
    `DataAnalyst.forward` looks up: `[name.strip() for name in plan.split('->')]`. */
module Plan {
  import opened Text

  /** The separator between agent names in a plan. */
  const Arrow := "->"

  /** The stripped pieces of `plan` between arrows, in order. Empty pieces are kept:
      an empty plan, a trailing arrow or `"A->->B"` yield the empty name. */
  function Tokens(plan: string): (names: seq<string>)
    ensures |names| == Occurrences(plan, Arrow) + 1
    ensures forall i :: 0 <= i < |names| ==> Trimmed(names[i])
  {
    var pieces := Split(plan, Arrow);
    ArrowCount(plan);
    seq(|pieces|, i requires 0 <= i < |pieces| => Strip(pieces[i]))
  }

  /** `"->"` cannot overlap itself, so splitting on it cuts at every occurrence:
      there is one piece more than there are arrows. */
  lemma {:induction false} ArrowCount(s: string)
    ensures |Split(s, Arrow)| == Occurrences(s, Arrow) + 1
    decreases |s|
  {
    if StartsWith(s, Arrow) {
      ArrowCount(s[2..]);
      assert s[1] == '>';
      assert !StartsWith(s[1..], Arrow);
      assert s[1..][1..] == s[2..];
    } else if |s| > 0 {
      ArrowCount(s[1..]);
    }
  }

  /** A piece without an arrow, followed by an arrow, is cut off as the first piece. */
  lemma {:induction false} SplitArrowPrefix(t: string, rest: string)
    requires !Contains(t, Arrow)
    ensures Split(t + Arrow + rest, Arrow) == [t] + Split(rest, Arrow)
    decreases |t|
  {
    var s := t + Arrow + rest;
    if |t| == 0 {
      assert s == Arrow + rest;
      assert s[2..] == rest;
    } else {
      assert s[1] == if |t| == 1 then '-' else t[1];
      if |t| > 1 {
        assert s[..2] == t[..2];
      }
      assert !StartsWith(s, Arrow);
      assert s[1..] == t[1..] + Arrow + rest;
      SplitArrowPrefix(t[1..], rest);
      var tail := Split(s[1..], Arrow);
      assert tail == [t[1..]] + Split(rest, Arrow);
      assert Split(s, Arrow) == [[s[0]] + tail[0]] + tail[1..];
      assert tail[1..] == Split(rest, Arrow);
      assert [s[0]] + t[1..] == t;
    }
  }

  /** Joining arrow-free pieces with arrows and splitting again gives the pieces back. */
  lemma {:induction false} SplitJoinArrow(ts: seq<string>)
    requires |ts| >= 1
    requires forall i :: 0 <= i < |ts| ==> !Contains(ts[i], Arrow)
    ensures Split(Join(ts, Arrow), Arrow) == ts
    decreases |ts|
  {
    if |ts| == 1 {
      SplitNoSeparator(ts[0], Arrow);
    } else {
      SplitJoinArrow(ts[1..]);
      SplitArrowPrefix(ts[0], Join(ts[1..], Arrow));
      assert [ts[0]] + ts[1..] == ts;
    }
  }

  /** A plan written as arrow-free pieces joined by arrows parses to the stripped pieces. */
  lemma {:induction false} TokensOfJoin(ts: seq<string>)
    requires |ts| >= 1
    requires forall i :: 0 <= i < |ts| ==> !Contains(ts[i], Arrow)
    ensures |Tokens(Join(ts, Arrow))| == |ts|
    ensures forall i :: 0 <= i < |ts| ==> Tokens(Join(ts, Arrow))[i] == Strip(ts[i])
  {
    SplitJoinArrow(ts);
  }

  /** Parsing does not depend on the whitespace around the arrows: two plans whose
      pieces agree after stripping parse to the same names. */
  lemma {:induction false} WhitespaceInsensitive(ts: seq<string>, us: seq<string>)
    requires |ts| == |us| >= 1
    requires forall i :: 0 <= i < |ts| ==> !Contains(ts[i], Arrow) && !Contains(us[i], Arrow)
    requires forall i :: 0 <= i < |ts| ==> Strip(ts[i]) == Strip(us[i])
    ensures Tokens(Join(ts, Arrow)) == Tokens(Join(us, Arrow))
  {
    TokensOfJoin(ts);
    TokensOfJoin(us);
  }

  /** A piece without a dash holds no arrow. */
  lemma {:induction false} NoDashNoArrow(t: string)
    requires '-' !in t
    ensures !Contains(t, Arrow)
    decreases |t|
  {
    if |t| > 0 {
      assert t[0] != '-';
      NoDashNoArrow(t[1..]);
    }
  }

  /** A name as the planner writes it: no dash, and no whitespace at either end. */
  predicate PlainName(n: string) {
    '-' !in n && Trimmed(n)
  }

  /** The planner's documented format `Agent1 -> Agent2 -> Agent3`: three names
      parse to themselves whether or not the arrows are surrounded by spaces. */
  lemma {:induction false} PlanFormat(n1: string, n2: string, n3: string)
    requires PlainName(n1) && PlainName(n2) && PlainName(n3)
    ensures Tokens(n1 + " -> " + n2 + "  ->" + n3) == [n1, n2, n3]
    ensures Tokens(n1 + "->" + n2 + "->" + n3) == [n1, n2, n3]
  {
    SpacedFormat(n1, n2, n3);
    TightFormat(n1, n2, n3);
  }

  lemma {:induction false} SpacedFormat(n1: string, n2: string, n3: string)
    requires PlainName(n1) && PlainName(n2) && PlainName(n3)
    ensures Tokens(n1 + " -> " + n2 + "  ->" + n3) == [n1, n2, n3]
  {
    var a, b := n1 + " ", " " + n2 + "  ";
    PaddedFirst(n1);
    PaddedSecond(n2);
    StripPlain(n3);
    ThreeNames(a, b, n3);
    SpacedText(n1, n2, n3, a, b);
  }

  lemma {:induction false} TightFormat(n1: string, n2: string, n3: string)
    requires PlainName(n1) && PlainName(n2) && PlainName(n3)
    ensures Tokens(n1 + "->" + n2 + "->" + n3) == [n1, n2, n3]
  {
    StripPlain(n1);
    StripPlain(n2);
    StripPlain(n3);
    ThreeNames(n1, n2, n3);
  }

  lemma {:induction false} StripPlain(n: string)
    requires PlainName(n)
    ensures Strip(n) == n && '-' !in n
  {
    StripFixed(n);
  }

  lemma {:induction false} PaddedFirst(n: string)
    requires PlainName(n)
    ensures Strip(n + " ") == n && '-' !in n + " "
  {
    StripPlain(n);
    Blanks();
    PadRight(n, " ");
  }

  lemma {:induction false} PaddedSecond(n: string)
    requires PlainName(n)
    ensures Strip(" " + n + "  ") == n && '-' !in " " + n + "  "
  {
    StripPlain(n);
    Blanks();
    StripPadded(" ", n, "  ");
  }

  lemma {:induction false} Blanks()
    ensures AllSpace(" ") && AllSpace("  ") && '-' !in " " && '-' !in "  "
  {
  }

  lemma {:induction false} PadRight(n: string, b: string)
    requires AllSpace(b)
    ensures Strip(n + b) == Strip(n)
  {
    TrimLeftAppendSpaces(n, b);
    if TrimLeft(n) != [] {
      TrimRightSpaces(TrimLeft(n), b);
    }
  }

  lemma {:induction false} SpacedText(n1: string, n2: string, n3: string, a: string, b: string)
    requires a == n1 + " " && b == " " + n2 + "  "
    ensures n1 + " -> " + n2 + "  ->" + n3 == a + Arrow + b + Arrow + n3
  {
  }

  /** Three dash-free pieces joined by arrows parse to their stripped forms. */
  lemma {:induction false} ThreeNames(t1: string, t2: string, t3: string)
    requires '-' !in t1 && '-' !in t2 && '-' !in t3
    ensures Tokens(t1 + Arrow + t2 + Arrow + t3) == [Strip(t1), Strip(t2), Strip(t3)]
  {
    var ts, want := [t1, t2, t3], [Strip(t1), Strip(t2), Strip(t3)];
    forall i | 0 <= i < 3 ensures !Contains(ts[i], Arrow) && Strip(ts[i]) == want[i] {
      if i == 0 { NoDashNoArrow(t1); } else if i == 1 { NoDashNoArrow(t2); } else { NoDashNoArrow(t3); }
    }
    PiecesParse(ts, want);
    JoinThree(t1, t2, t3);
  }

  /** Arrow-free pieces, joined by arrows, parse to the names they strip to. */
  lemma {:induction false} PiecesParse(ts: seq<string>, want: seq<string>)
    requires |ts| == |want| >= 1
    requires forall i :: 0 <= i < |ts| ==> !Contains(ts[i], Arrow) && Strip(ts[i]) == want[i]
    ensures Tokens(Join(ts, Arrow)) == want
  {
    TokensOfJoin(ts);
  }

  lemma {:induction false} JoinThree(a: string, b: string, c: string)
    ensures Join([a, b, c], Arrow) == a + Arrow + b + Arrow + c
  {
    var ts := [a, b, c];
    assert ts[1..] == [b, c];
    assert [b, c][1..] == [c];
    assert Join([b, c], Arrow) == b + Arrow + c;
    assert Join(ts, Arrow) == a + Arrow + (b + Arrow + c);
  }

  /** The empty plan is the single empty name: empty names are kept, not dropped. */
  lemma {:induction false} EmptyPlan()
    ensures Tokens("") == [""]
  {
    StripPlain([]);
    assert Tokens("") == [Strip("")];
  }

  /** An empty piece between two arrows is an empty name in its place. */
  lemma {:induction false} EmptyNamesKept(n1: string, n2: string)
    requires PlainName(n1) && PlainName(n2)
    ensures Tokens(n1 + "->->" + n2) == [n1, "", n2]
  {
    StripPlain(n1);
    StripPlain(n2);
    StripPlain([]);
    ThreeNames(n1, [], n2);
    DoubleArrowText(n1, n2);
  }

  lemma {:induction false} DoubleArrowText(n1: string, n2: string)
    ensures n1 + "->->" + n2 == n1 + Arrow + [] + Arrow + n2
  {
  }

  /** A plan that ends with an arrow ends with the empty name. */
  lemma {:induction false} TrailingArrow(p: string)
    ensures var names := Tokens(p + Arrow); names[|names| - 1] == ""
  {
    LastPieceEmpty(p + Arrow, Arrow);
    StripPlain([]);
  }

  /** Splitting a string that ends with a two-character separator whose characters
      differ, such as the arrow, leaves an empty last piece. */
  lemma {:induction false} LastPieceEmpty(s: string, sep: string)
    requires |sep| == 2 && sep[0] != sep[1] && EndsWith(s, sep)
    ensures var pieces := Split(s, sep); pieces[|pieces| - 1] == ""
  {
    var pieces := Split(s, sep);
    var r := pieces[|pieces| - 1];
    SplitLast(s, sep);
    LastPieceFree(s, sep);
    assert |r| <= |s| && r == s[|s| - |r|..];
    EmptyTail(s, sep, r, |pieces| > 1);
  }

  lemma {:induction false} LastPieceFree(s: string, sep: string)
    requires |sep| > 0
    ensures var pieces := Split(s, sep); !Contains(pieces[|pieces| - 1], sep)
  {
    SplitPiecesFree(s, sep);
  }

  /** The only separator-free suffix of a string ending with the separator that is
      preceded by the separator (or is the whole string) is the empty one. */
  lemma {:induction false} EmptyTail(s: string, sep: string, r: string, cut: bool)
    requires |sep| == 2 && sep[0] != sep[1]
    requires EndsWith(s, sep) && !Contains(r, sep)
    requires |r| <= |s| && r == s[|s| - |r|..]
    requires !cut ==> r == s
    requires cut ==> EndsWith(s[..|s| - |r|], sep)
    ensures r == ""
  {
    if |r| >= 2 {
      SuffixKeepsEnding(s, sep, r);
      ContainsEnding(r, sep);
    } else if |r| == 1 && cut {
      SepBeforeLast(s, sep);
    }
  }

  lemma {:induction false} SepBeforeLast(s: string, sep: string)
    requires |sep| == 2
    ensures |s| >= 1 && EndsWith(s[..|s| - 1], sep) ==> s[|s| - 2] == sep[1]
  {
    if |s| >= 1 && EndsWith(s[..|s| - 1], sep) {
      var x := s[..|s| - 1];
      assert x[|x| - 1] == sep[1];
    }
  }

  /** A suffix at least as long as the ending keeps it. */
  lemma {:induction false} SuffixKeepsEnding(s: string, p: string, r: string)
    requires EndsWith(s, p) && |p| <= |r| <= |s| && r == s[|s| - |r|..]
    ensures EndsWith(r, p)
  {
    assert r[|r| - |p|..] == s[|s| - |p|..];
  }

  /** A string contains its ending. */
  lemma {:induction false} ContainsEnding(s: string, p: string)
    requires EndsWith(s, p)
    ensures Contains(s, p)
  {
    var k := |s| - |p|;
    assert s[k..][..|p|] == p;
    assert StartsWith(s[k..], p);
    ContainsSuffix(s, p, k);
  }

  /** An occurrence at any position is an occurrence in the whole string. */
  lemma {:induction false} ContainsSuffix(s: string, p: string, k: nat)
    requires k <= |s| && Contains(s[k..], p)
    ensures Contains(s, p)
    decreases k
  {
    if k > 0 {
      assert s[1..][k - 1..] == s[k..];
      ContainsSuffix(s[1..], p, k - 1);
    }
  }
}
