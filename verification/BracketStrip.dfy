/** Shortening a demangled kernel name (analysis/mpi_gpu_energy_report.py, `simp`): template and
    call arguments are cut out by repeatedly deleting the leftmost bracket group. */
module BracketStrip {
  datatype Brackets = Brackets(open: char, close: char)

  const ANGLES := Brackets('<', '>')
  const PARENS := Brackets('(', ')')

  /** One pass over s, `depth` groups deep: characters inside a group and the openers are dropped,
      everything at depth zero stays, stray closers too. */
  function Outside(s: string, depth: nat, b: Brackets): string {
    if s == "" then ""
    else if s[0] == b.open then Outside(s[1..], depth + 1, b)
    else if depth > 0 then Outside(s[1..], if s[0] == b.close then depth - 1 else depth, b)
    else [s[0]] + Outside(s[1..], 0, b)
  }

  lemma {:induction false} OutsideKeepsPrefix(s: string, i: nat, b: Brackets)
    requires i <= |s| && b.open !in s[..i]
    ensures Outside(s, 0, b) == s[..i] + Outside(s[i..], 0, b)
    decreases i
  {
    if i == 0 {
      assert s[0..] == s;
    } else {
      assert s[..i][0] == s[0];
      assert s[1..][..i - 1] == s[..i][1..] && s[1..][i - 1..] == s[i..];
      OutsideKeepsPrefix(s[1..], i - 1, b);
      assert [s[0]] + s[..i][1..] == s[..i];
    }
  }

  lemma {:induction false} OutsideHasNoOpener(s: string, depth: nat, b: Brackets)
    ensures b.open !in Outside(s, depth, b)
    ensures forall c :: c in Outside(s, depth, b) ==> c in s
  {
    if s != "" {
      OutsideHasNoOpener(s[1..], depth + 1, b);
      OutsideHasNoOpener(s[1..], if depth > 0 && s[0] == b.close then depth - 1 else depth, b);
      OutsideHasNoOpener(s[1..], 0, b);
    }
  }

  lemma StripIsIdempotent(s: string, b: Brackets)
    ensures Outside(Outside(s, 0, b), 0, b) == Outside(s, 0, b)
  {
    var t := Outside(s, 0, b);
    OutsideHasNoOpener(s, 0, b);
    assert t[..|t|] == t && t[|t|..] == "";
    OutsideKeepsPrefix(t, |t|, b);
  }

  // ---------- The loop ----------

  method IndexOf(d: string, c: char) returns (i: nat)
    requires c in d
    ensures i < |d| && d[i] == c && c !in d[..i]
  {
    i := 0;
    while d[i] != c
      invariant i < |d| && c !in d[..i]
      decreases |d| - i
    {
      assert d[..i + 1] == d[..i] + [d[i]];
      i := i + 1;
    }
  }

  /** The end of the group opened at i: its last character, or the last one of d when it is never closed. */
  method GroupEnd(d: string, i: nat, b: Brackets) returns (j: nat)
    requires i < |d| && d[i] == b.open && b.open != b.close
    ensures i <= j < |d|
    ensures Outside(d[i..], 0, b) == Outside(d[j + 1..], 0, b)
  {
    var depth: nat := 1;
    j := i;
    assert d[i..][1..] == d[i + 1..];
    while depth != 0 && j + 1 < |d|
      invariant i <= j < |d|
      invariant Outside(d[i..], 0, b) == Outside(d[j + 1..], depth, b)
      decreases |d| - j
    {
      assert d[j + 1..][1..] == d[j + 2..];
      j := j + 1;
      depth := if d[j] == b.open then depth + 1 else if d[j] == b.close then depth - 1 else depth;
    }
  }

  /** The inner while loop of simp, for one kind of bracket: whatever the input, it stops, and
      deletes exactly what the single pass drops. */
  method StripGroups(name: string, b: Brackets) returns (d: string)
    requires b.open != b.close
    ensures d == Outside(name, 0, b) && b.open !in d
  {
    d := name;
    while b.open in d
      invariant Outside(d, 0, b) == Outside(name, 0, b)
      decreases |d|
    {
      var i := IndexOf(d, b.open);
      var j := GroupEnd(d, i, b);
      var shorter := d[..i] + d[j + 1..];
      OutsideKeepsPrefix(d, i, b);
      assert shorter[..i] == d[..i] && shorter[i..] == d[j + 1..];
      OutsideKeepsPrefix(shorter, i, b);
      d := shorter;
    }
    assert d[..|d|] == d && d[|d|..] == "";
    OutsideKeepsPrefix(d, |d|, b);
  }

  /** Both passes, angle brackets first. */
  method StripBrackets(name: string) returns (d: string)
    ensures d == Outside(Outside(name, 0, ANGLES), 0, PARENS)
    ensures '<' !in d && '(' !in d
  {
    d := StripGroups(name, ANGLES);
    OutsideHasNoOpener(d, 0, PARENS);
    d := StripGroups(d, PARENS);
  }

  // ---------- When a closer is left over ----------

  function Count(s: string, c: char): nat {
    if s == "" then 0 else (if s[0] == c then 1 else 0) + Count(s[1..], c)
  }

  /** Some prefix of s closes more groups than were open before s and opened in it. */
  ghost predicate Surplus(s: string, depth: nat, b: Brackets) {
    exists k: nat :: k <= |s| && Count(s[..k], b.close) > depth + Count(s[..k], b.open)
  }

  lemma SurplusStep(s: string, depth: nat, b: Brackets)
    requires s != "" && b.open != b.close
    ensures s[0] == b.open ==> (Surplus(s, depth, b) <==> Surplus(s[1..], depth + 1, b))
    ensures s[0] == b.close && depth > 0 ==> (Surplus(s, depth, b) <==> Surplus(s[1..], depth - 1, b))
    ensures s[0] == b.close && depth == 0 ==> Surplus(s, depth, b)
    ensures s[0] != b.open && s[0] != b.close ==> (Surplus(s, depth, b) <==> Surplus(s[1..], depth, b))
  {
    forall k: nat, c | 0 < k <= |s| ensures Count(s[..k], c) == (if s[0] == c then 1 else 0) + Count(s[1..][..k - 1], c) {
      assert s[..k][0] == s[0] && s[..k][1..] == s[1..][..k - 1];
    }
    var add := if s[0] == b.open then 1 else if s[0] == b.close then -1 else 0;
    if s[0] == b.close && depth == 0 {
      assert Count(s[..1], b.close) > Count(s[..1], b.open);
    } else {
      if k: nat :| k <= |s| && Count(s[..k], b.close) > depth + Count(s[..k], b.open) {
        assert k > 0;
        assert Count(s[1..][..k - 1], b.close) > depth + add + Count(s[1..][..k - 1], b.open);
      }
      if k: nat :| k <= |s[1..]| && Count(s[1..][..k], b.close) > depth + add + Count(s[1..][..k], b.open) {
        assert Count(s[..k + 1], b.close) > depth + Count(s[..k + 1], b.open);
      }
    }
  }

  /** A closing bracket survives exactly when some prefix of the name has more closers than
      openers: balanced names lose every bracket, "operator->" keeps its arrow head. */
  lemma {:induction false} CloserSurvives(s: string, depth: nat, b: Brackets)
    requires b.open != b.close
    ensures b.close in Outside(s, depth, b) <==> Surplus(s, depth, b)
  {
    if s != "" {
      SurplusStep(s, depth, b);
      if s[0] == b.open {
        CloserSurvives(s[1..], depth + 1, b);
      } else if depth > 0 {
        CloserSurvives(s[1..], if s[0] == b.close then depth - 1 else depth, b);
      } else {
        CloserSurvives(s[1..], 0, b);
      }
    } else {
      assert s[..0] == "";
    }
  }

  // ---------- Well-nested names ----------

  /** A name as a demangler builds it: plain characters and properly nested argument lists. */
  datatype Name = End | Plain(c: char, rest: Name) | Group(b: Brackets, inner: Name, rest: Name)

  ghost predicate WellNested(n: Name) {
    match n
    case End => true
    case Plain(c, rest) => c !in "<>()" && WellNested(rest)
    case Group(b, inner, rest) => (b == ANGLES || b == PARENS) && WellNested(inner) && WellNested(rest)
  }

  function Render(n: Name): string {
    match n
    case End => ""
    case Plain(c, rest) => [c] + Render(rest)
    case Group(b, inner, rest) => [b.open] + (Render(inner) + ([b.close] + Render(rest)))
  }

  /** The name without its groups of one kind. */
  function Without(n: Name, b: Brackets): Name {
    match n
    case End => End
    case Plain(c, rest) => Plain(c, Without(rest, b))
    case Group(g, inner, rest) => if g == b then Without(rest, b) else Group(g, Without(inner, b), Without(rest, b))
  }

  /** The characters outside every argument list. */
  function TopLevel(n: Name): string {
    match n
    case End => ""
    case Plain(c, rest) => [c] + TopLevel(rest)
    case Group(_, _, rest) => TopLevel(rest)
  }

  lemma OutsideStep(c: char, t: string, depth: nat, b: Brackets)
    ensures Outside([c] + t, depth, b) ==
            if c == b.open then Outside(t, depth + 1, b)
            else if depth > 0 then Outside(t, if c == b.close then depth - 1 else depth, b)
            else [c] + Outside(t, 0, b)
  {
    assert ([c] + t)[1..] == t;
  }

  /** One pass over a rendered name followed by t. */
  lemma {:induction false} OutsideOfName(n: Name, t: string, depth: nat, b: Brackets)
    requires WellNested(n) && (b == ANGLES || b == PARENS)
    ensures Outside(Render(n) + t, depth, b) ==
            if depth > 0 then Outside(t, depth, b) else Render(Without(n, b)) + Outside(t, 0, b)
    decreases n
  {
    hide Outside;
    match n
    case End =>
      assert "" + t == t;
      assert "" + Outside(t, 0, b) == Outside(t, 0, b);
    case Plain(c, rest) =>
      assert [c] + Render(rest) + t == [c] + (Render(rest) + t);
      OutsideStep(c, Render(rest) + t, depth, b);
      OutsideOfName(rest, t, depth, b);
      assert [c] + (Render(Without(rest, b)) + Outside(t, 0, b)) == [c] + Render(Without(rest, b)) + Outside(t, 0, b);
    case Group(g, inner, rest) =>
      var mid := [g.close] + (Render(rest) + t);
      var deep := if g == b then depth + 1 else depth;
      assert Render(n) + t == [g.open] + (Render(inner) + mid);
      OutsideStep(g.open, Render(inner) + mid, depth, b);
      OutsideOfName(inner, mid, deep, b);
      OutsideStep(g.close, Render(rest) + t, deep, b);
      OutsideOfName(rest, t, depth, b);
      Regroup(g, Render(Without(inner, b)), Render(Without(rest, b)), Outside(t, 0, b));
  }

  lemma Regroup(g: Brackets, inner: string, rest: string, t: string)
    ensures [g.open] + (inner + ([g.close] + (rest + t))) == [g.open] + (inner + ([g.close] + rest)) + t
  {
  }

  lemma {:induction false} WithoutBoth(n: Name)
    requires WellNested(n)
    ensures WellNested(Without(n, ANGLES))
    ensures Render(Without(Without(n, ANGLES), PARENS)) == TopLevel(n)
  {
    match n
    case End =>
    case Plain(_, rest) => WithoutBoth(rest);
    case Group(_, inner, rest) => WithoutBoth(inner); WithoutBoth(rest);
  }

  /** Stripping a well-nested name leaves exactly its characters outside every argument list. */
  lemma StripsToTopLevel(n: Name)
    requires WellNested(n)
    ensures Outside(Outside(Render(n), 0, ANGLES), 0, PARENS) == TopLevel(n)
  {
    var m := Without(n, ANGLES);
    assert Render(n) + "" == Render(n) && Render(m) + "" == Render(m);
    WithoutBoth(n);
    OutsideOfName(n, "", 0, ANGLES);
    OutsideOfName(m, "", 0, PARENS);
  }
}
