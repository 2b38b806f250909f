/**
 * The placeholder pattern `/{{(.+?)}}/g` of the text directive, written as a
 * left-to-right scanner. A match starts at `{{`, takes the shortest non-empty
 * run of characters that are not line terminators, and ends at the first `}}`
 * after it; a global replace tries the positions from left to right and resumes
 * after each match.
 */
module Interpolation {
  import opened Wrappers

  /** The characters `.` does not match: LF, CR, LINE SEPARATOR, PARAGRAPH SEPARATOR. */
  predicate IsLineTerminator(c: char) {
    c == '\n' || c == '\r' || c == '\U{2028}' || c == '\U{2029}'
  }

  /** `t[..n]` is a body `.+` can take and `t[n..n+2]` is `}}`. */
  predicate IsClose(t: string, n: nat) {
    && 1 <= n
    && n + 2 <= |t|
    && t[n] == '}' && t[n + 1] == '}'
    && forall j :: 0 <= j < n ==> !IsLineTerminator(t[j])
  }

  /** The lazy search: try the candidate body lengths n, n+1, ... in turn. */
  function CloseFrom(t: string, n: nat): (r: Option<nat>)
    requires 1 <= n <= |t|
    requires forall j :: 0 <= j < n ==> !IsLineTerminator(t[j])
    ensures r.Some? ==> n <= r.value && IsClose(t, r.value)
    decreases |t| - n
  {
    if n + 2 > |t| then None
    else if t[n] == '}' && t[n + 1] == '}' then Some(n)
    else if IsLineTerminator(t[n]) then None
    else CloseFrom(t, n + 1)
  }

  /** Length of the body of a placeholder whose text after `{{` is `t`, if it closes. */
  function Close(t: string): (r: Option<nat>)
    ensures r.Some? ==> IsClose(t, r.value)
  {
    if |t| >= 1 && !IsLineTerminator(t[0]) then CloseFrom(t, 1) else None
  }

  /** The regular expression matches at index `i` of `s`. */
  predicate MatchAt(s: string, i: nat) {
    i + 2 <= |s| && s[i] == '{' && s[i + 1] == '{' && Close(s[i + 2..]).Some?
  }

  /** `/{{(.+?)}}/.test(s)`: a match starts somewhere in `s`. */
  predicate Test(s: string) {
    exists i :: 0 <= i < |s| && MatchAt(s, i)
  }

  /** A scanned string is a sequence of literal characters and placeholders. */
  datatype Piece = Lit(c: char) | Hole(expr: string)

  /** The pieces a global match of the pattern cuts `s` into. */
  function Scan(s: string): seq<Piece>
    decreases |s|
  {
    if s == [] then []
    else if MatchAt(s, 0) then
      var n := Close(s[2..]).value;
      [Hole(s[2..2 + n])] + Scan(s[n + 4..])
    else [Lit(s[0])] + Scan(s[1..])
  }

  /** The inner texts (`args[1]` of the replace callback) in order. */
  function Holes(ps: seq<Piece>): seq<string>
  {
    if ps == [] then []
    else (if ps[0].Hole? then [ps[0].expr] else []) + Holes(ps[1..])
  }

  /** Writes the pieces back as text, placeholders with their braces. */
  function Unscan(ps: seq<Piece>): string
  {
    if ps == [] then []
    else (match ps[0] case Lit(c) => [c] case Hole(e) => "{{" + e + "}}") + Unscan(ps[1..])
  }

  /** The result of the replace: literal characters kept, the i-th placeholder replaced by `vals[i]`. */
  function Subst(ps: seq<Piece>, vals: seq<string>): string
    requires |vals| == |Holes(ps)|
  {
    if ps == [] then []
    else match ps[0]
      case Lit(c) => [c] + Subst(ps[1..], vals)
      case Hole(_) => vals[0] + Subst(ps[1..], vals[1..])
  }

  /** Each placeholder written back with its own braces. */
  function Quoted(es: seq<string>): (r: seq<string>)
    ensures |r| == |es|
  {
    if es == [] then [] else ["{{" + es[0] + "}}"] + Quoted(es[1..])
  }

  /** The lazy search finds the shortest close, and finds none only when there is none. */
  lemma {:induction false} CloseFromIsShortest(t: string, n: nat)
    requires 1 <= n <= |t|
    requires forall j :: 0 <= j < n ==> !IsLineTerminator(t[j])
    requires forall m :: 1 <= m < n ==> !IsClose(t, m)
    ensures CloseFrom(t, n).Some? ==> forall m :: 1 <= m < CloseFrom(t, n).value ==> !IsClose(t, m)
    ensures CloseFrom(t, n).None? ==> forall m :: !IsClose(t, m)
    decreases |t| - n
  {
    if n + 2 > |t| {
    } else if t[n] == '}' && t[n + 1] == '}' {
    } else if IsLineTerminator(t[n]) {
      forall m ensures !IsClose(t, m) {
        if n < m { assert !IsLineTerminator(t[n]) ==> false; }
      }
    } else {
      CloseFromIsShortest(t, n + 1);
    }
  }

  /** `Close` is the regular expression's lazy body: the least close, or none at all. */
  lemma CloseIsShortest(t: string)
    ensures Close(t).Some? ==> forall m :: 1 <= m < Close(t).value ==> !IsClose(t, m)
    ensures Close(t).None? ==> forall m :: !IsClose(t, m)
  {
    if |t| >= 1 && !IsLineTerminator(t[0]) {
      CloseFromIsShortest(t, 1);
    } else {
      if |t| >= 1 {
        assert IsLineTerminator(t[0]);
      }
    }
  }

  /** Scanning loses nothing: writing the pieces back gives the original text. */
  lemma {:induction false} UnscanScan(s: string)
    ensures Unscan(Scan(s)) == s
    decreases |s|
  {
    if s != [] {
      if MatchAt(s, 0) {
        var n := Close(s[2..]).value;
        UnscanScan(s[n + 4..]);
        UnscanHole(s, n);
      } else {
        UnscanScan(s[1..]);
        UnscanCons(Lit(s[0]), Scan(s[1..]));
        assert Scan(s) == [Lit(s[0])] + Scan(s[1..]);
        assert s == [s[0]] + s[1..];
      }
    }
  }

  lemma UnscanHole(s: string, n: nat)
    requires MatchAt(s, 0) && n == Close(s[2..]).value
    requires Unscan(Scan(s[n + 4..])) == s[n + 4..]
    ensures Unscan(Scan(s)) == s
  {
    var e, rest := s[2..2 + n], s[n + 4..];
    UnscanCons(Hole(e), Scan(rest));
    assert Scan(s) == [Hole(e)] + Scan(rest);
    assert Unscan([Hole(e)]) == "{{" + e + "}}";
    assert s[..2] == "{{" && s[2 + n..n + 4] == "}}";
    SplitFour(s, 2, 2 + n, n + 4);
  }

  lemma UnscanCons(p: Piece, ps: seq<Piece>)
    ensures Unscan([p] + ps) == Unscan([p]) + Unscan(ps)
  {
    assert ([p] + ps)[1..] == ps;
    assert [p][1..] == [];
  }

  lemma SplitFour(s: string, i: nat, j: nat, k: nat)
    requires i <= j <= k <= |s|
    ensures s == s[..i] + s[i..j] + s[j..k] + s[k..]
  {
    assert s[..j] == s[..i] + s[i..j];
    assert s[..k] == s[..j] + s[j..k];
    assert s == s[..k] + s[k..];
  }

  lemma MatchAtShift(s: string, k: nat, i: nat)
    requires k <= |s|
    ensures MatchAt(s[k..], i) == MatchAt(s, k + i)
  {
    if k + i + 2 <= |s| {
      assert s[k..][i + 2..] == s[k + i + 2..];
    }
  }

  /** `test` finds a match exactly when the global scan cuts out a placeholder. */
  lemma {:induction false} TestIffHole(s: string)
    ensures Test(s) <==> |Holes(Scan(s))| > 0
    decreases |s|
  {
    if s == [] {
    } else if MatchAt(s, 0) {
      HolesOfMatch(s);
    } else {
      TestIffHole(s[1..]);
      HolesOfLiteral(s);
      TestOfLiteral(s);
    }
  }

  lemma HolesOfMatch(s: string)
    requires MatchAt(s, 0)
    ensures Test(s) && |Holes(Scan(s))| > 0
  {
    var n := Close(s[2..]).value;
    assert Scan(s) == [Hole(s[2..2 + n])] + Scan(s[n + 4..]);
    assert Holes(Scan(s))[0] == s[2..2 + n];
  }

  lemma HolesOfLiteral(s: string)
    requires s != [] && !MatchAt(s, 0)
    ensures Holes(Scan(s)) == Holes(Scan(s[1..]))
  {
    assert Scan(s) == [Lit(s[0])] + Scan(s[1..]);
  }

  /** Without a match at the start, `test` looks at the rest of the string. */
  lemma TestOfLiteral(s: string)
    requires s != [] && !MatchAt(s, 0)
    ensures Test(s) <==> Test(s[1..])
  {
    if Test(s) {
      var i :| 0 <= i < |s| && MatchAt(s, i);
      MatchAtShift(s, 1, i - 1);
    }
    if Test(s[1..]) {
      var i :| 0 <= i < |s[1..]| && MatchAt(s[1..], i);
      MatchAtShift(s, 1, i);
      assert MatchAt(s, 1 + i);
    }
  }

  /** Placeholders are non-empty, hold no line terminator, and contain no earlier `}}` close. */
  lemma {:induction false} HoleShape(s: string, e: string)
    requires e in Holes(Scan(s))
    ensures |e| >= 1
    ensures forall j :: 0 <= j < |e| ==> !IsLineTerminator(e[j])
    ensures forall p :: 1 <= p < |e| ==> !((e + "}}")[p] == '}' && (e + "}}")[p + 1] == '}')
    decreases |s|
  {
    if MatchAt(s, 0) {
      var t := s[2..];
      var n := Close(t).value;
      assert Scan(s) == [Hole(s[2..2 + n])] + Scan(s[n + 4..]);
      if e == s[2..2 + n] {
        CloseIsShortest(t);
        assert e == t[..n] && e + "}}" == t[..n + 2];
        forall p | 1 <= p < |e| ensures !((e + "}}")[p] == '}' && (e + "}}")[p + 1] == '}') {
          assert !IsClose(t, p);
        }
      } else {
        HoleShape(s[n + 4..], e);
      }
    } else {
      assert Scan(s) == [Lit(s[0])] + Scan(s[1..]);
      assert Holes(Scan(s)) == Holes(Scan(s[1..]));
      HoleShape(s[1..], e);
    }
  }

  /** Substituting every placeholder by its own source text rebuilds the written-back text. */
  lemma {:induction false} SubstQuotedIsUnscan(ps: seq<Piece>)
    ensures Subst(ps, Quoted(Holes(ps))) == Unscan(ps)
  {
    if ps != [] {
      SubstQuotedIsUnscan(ps[1..]);
      if ps[0].Hole? {
        assert Holes(ps) == [ps[0].expr] + Holes(ps[1..]);
        assert Quoted(Holes(ps))[1..] == Quoted(Holes(ps[1..]));
      } else {
        assert Holes(ps) == Holes(ps[1..]);
      }
    }
  }

  /** getContentValue keeps the literal text between the matches, in order: filling each
      placeholder with its own text gives back the original string. */
  lemma LiteralsPreserved(s: string)
    ensures Subst(Scan(s), Quoted(Holes(Scan(s)))) == s
  {
    SubstQuotedIsUnscan(Scan(s));
    UnscanScan(s);
  }

  /** A string without a match is returned unchanged by the replace. */
  lemma NoMatchUnchanged(s: string)
    requires !Test(s)
    ensures |Holes(Scan(s))| == 0 && Subst(Scan(s), []) == s
  {
    TestIffHole(s);
    LiteralsPreserved(s);
  }
}
