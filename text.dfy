/** Character classes, runs and substring operations shared by the parser and the rewrite rules.
    Regular-expression classes are approximated on ASCII: `\w` is [A-Za-z0-9_], `\s` is the ten
    ASCII characters Python counts as white space (space, tab, line feed, carriage return,
    vertical tab, form feed and the separators U+001C to U+001F) and `\d` is [0-9]. */
module Text {

  predicate IsSpace(c: char) {
    c == ' ' || c == '\t' || c == '\n' || c == '\r' || c == '\U{B}' || c == '\U{C}'
    || ('\U{1C}' <= c <= '\U{1F}')
  }

  predicate IsWordChar(c: char) {
    ('a' <= c <= 'z') || ('A' <= c <= 'Z') || ('0' <= c <= '9') || c == '_'
  }

  predicate IsDigit(c: char) {
    '0' <= c <= '9'
  }

  /** `lit` occurs in `s` at index `i`. */
  predicate StartsAt(s: string, i: nat, lit: string) {
    i + |lit| <= |s| && s[i..i + |lit|] == lit
  }

  /** Python's `t in s` for strings. */
  predicate Contains(s: string, t: string) {
    exists i :: 0 <= i <= |s| - |t| && StartsAt(s, i, t)
  }

  /** The character classes the patterns use: `\w`, `\s`, `\d` and `[^c]`. */
  datatype CharClass = Word | Space | Digit | Except(c: char)

  predicate InClass(ch: char, k: CharClass) {
    match k
    case Word => IsWordChar(ch)
    case Space => IsSpace(ch)
    case Digit => IsDigit(ch)
    case Except(c) => ch != c
  }

  predicate AllIn(s: string, k: CharClass) {
    forall i :: 0 <= i < |s| ==> InClass(s[i], k)
  }

  lemma AllInExtend(s: string, i: nat, k: CharClass)
    requires i < |s| && AllIn(s[..i], k) && InClass(s[i], k)
    ensures AllIn(s[..i + 1], k)
  {
    assert forall j :: 0 <= j < i ==> s[..i + 1][j] == s[..i][j];
  }

  /** Splits `s` into its longest prefix of class `k` and the rest: a greedy `k*`. */
  function Span(s: string, k: CharClass): (r: (string, string))
    ensures r.0 + r.1 == s
    ensures AllIn(r.0, k)
    ensures r.1 == [] || !InClass(r.1[0], k)
    decreases |s|
  {
    if s != [] && InClass(s[0], k) then
      var (a, b) := Span(s[1..], k);
      ([s[0]] + a, b)
    else ([], s)
  }

  /** A greedy run is determined by where the class ends. */
  lemma {:induction false} SpanOf(a: string, b: string, k: CharClass)
    requires AllIn(a, k)
    requires b == [] || !InClass(b[0], k)
    ensures Span(a + b, k) == (a, b)
    decreases |a|
  {
    if a == [] {
      assert a + b == b;
    } else {
      assert (a + b)[0] == a[0];
      assert (a + b)[1..] == a[1..] + b;
      SpanOf(a[1..], b, k);
      assert [a[0]] + a[1..] == a;
    }
  }

  /** Python's `int()` of a string of ASCII digits. */
  function DecimalValue(d: string): (n: nat)
    requires AllIn(d, Digit)
    ensures d == [] ==> n == 0
    decreases |d|
  {
    if d == [] then 0
    else DecimalValue(d[..|d| - 1]) * 10 + ((d[|d| - 1] as int) - ('0' as int))
  }

  /** Python's `str.lstrip()` with no argument (the ASCII white space of `IsSpace`). */
  function TrimStart(s: string): (r: string)
    ensures |r| <= |s| && r == s[|s| - |r|..] && AllIn(s[..|s| - |r|], Space)
    ensures r == [] || !IsSpace(r[0])
    decreases |s|
  {
    if s != [] && IsSpace(s[0]) then TrimStart(s[1..]) else s
  }

  /** Python's `str.rstrip()` with no argument (the ASCII white space of `IsSpace`). */
  function TrimEnd(s: string): (r: string)
    ensures |r| <= |s| && r == s[..|r|] && AllIn(s[|r|..], Space)
    ensures r == [] || !IsSpace(r[|r| - 1])
    decreases |s|
  {
    if s != [] && IsSpace(s[|s| - 1]) then
      var t := s[..|s| - 1];
      var r := TrimEnd(t);
      assert r == s[..|r|] by {
        assert s[..|r|] == t[..|r|];
      }
      assert AllIn(s[|r|..], Space) by {
        forall i | 0 <= i < |s| - |r|
          ensures IsSpace(s[|r|..][i])
        {
          if i < |t| - |r| {
            assert s[|r|..][i] == t[|r|..][i];
          }
        }
      }
      r
    else s
  }

  /** Python's `str.strip()` with no argument (the ASCII white space of `IsSpace`). */
  function Strip(s: string): (r: string)
  {
    TrimEnd(TrimStart(s))
  }

  /** Python's `s.replace(pat, rep)`: every non-overlapping occurrence of `pat`, scanned left to
      right, is replaced; an empty `pat` inserts `rep` before every character and at the end. */
  function ReplaceAll(s: string, pat: string, rep: string): (r: string)
    decreases |s|
  {
    if pat == [] then Interleave(s, rep)
    else if s == [] then []
    else if StartsAt(s, 0, pat) then rep + ReplaceAll(s[|pat|..], pat, rep)
    else [s[0]] + ReplaceAll(s[1..], pat, rep)
  }

  /** `rep` before every character of `s` and once more at the end. */
  function Interleave(s: string, rep: string): string
    decreases |s|
  {
    if s == [] then rep else rep + [s[0]] + Interleave(s[1..], rep)
  }

  /** A text in which `pat` does not occur is left as it is by `ReplaceAll`. */
  lemma {:induction false} ReplaceAllAbsent(s: string, pat: string, rep: string)
    requires pat != [] && !Contains(s, pat)
    ensures ReplaceAll(s, pat, rep) == s
    decreases |s|
  {
    if s != [] {
      if StartsAt(s, 0, pat) {
        assert false;
      }
      if Contains(s[1..], pat) {
        var i :| 0 <= i <= |s[1..]| - |pat| && StartsAt(s[1..], i, pat);
        assert s[i + 1..i + 1 + |pat|] == s[1..][i..i + |pat|];
        assert StartsAt(s, i + 1, pat);
      }
      ReplaceAllAbsent(s[1..], pat, rep);
    }
  }

  /** When no occurrence of `pat` can start inside `a` (its first character does not appear in
      `a`), replacing in `a + x` leaves `a` as it is. */
  lemma {:induction false} ReplaceAllSkipsPrefix(a: string, x: string, pat: string, rep: string)
    requires pat != [] && AllIn(a, Except(pat[0]))
    ensures ReplaceAll(a + x, pat, rep) == a + ReplaceAll(x, pat, rep)
    decreases |a|
  {
    if a != [] {
      assert (a + x)[0] == a[0] != pat[0];
      Mismatch(a + x, 0, pat, 0);
      ReplaceAllStep(a, x, pat, rep);
      ReplaceAllSkipsPrefix(a[1..], x, pat, rep);
      assert a == [a[0]] + a[1..];
      Assoc([a[0]], a[1..], ReplaceAll(x, pat, rep));
    } else {
      assert a + x == x;
    }
  }

  /** Where no occurrence of `pat` starts inside `a`, replacing in `a + x` leaves `a` as it
      is. */
  lemma {:induction false} ReplaceAllNoEarly(a: string, x: string, pat: string, rep: string)
    requires pat != [] && forall i :: 0 <= i < |a| ==> !StartsAt(a + x, i, pat)
    ensures ReplaceAll(a + x, pat, rep) == a + ReplaceAll(x, pat, rep)
    decreases |a|
  {
    if a == [] {
      assert a + x == x;
    } else {
      NoEarlyTail(a, x, pat);
      ReplaceAllStep(a, x, pat, rep);
      ReplaceAllNoEarly(a[1..], x, pat, rep);
      assert a == [a[0]] + a[1..];
      Assoc([a[0]], a[1..], ReplaceAll(x, pat, rep));
    }
  }

  /** Without an occurrence at the start of `a + x`, the first character of `a` is kept. */
  lemma ReplaceAllStep(a: string, x: string, pat: string, rep: string)
    requires pat != [] && a != [] && !StartsAt(a + x, 0, pat)
    ensures ReplaceAll(a + x, pat, rep) == [a[0]] + ReplaceAll(a[1..] + x, pat, rep)
  {
    assert (a + x)[1..] == a[1..] + x;
  }

  lemma NoEarlyTail(a: string, x: string, pat: string)
    requires a != [] && forall i :: 0 <= i < |a| ==> !StartsAt(a + x, i, pat)
    ensures !StartsAt(a + x, 0, pat)
    ensures forall i :: 0 <= i < |a[1..]| ==> !StartsAt(a[1..] + x, i, pat)
  {
    assert !StartsAt(a + x, 0, pat);
    forall i | 0 <= i < |a[1..]|
      ensures !StartsAt(a[1..] + x, i, pat)
    {
      assert 0 <= i + 1 < |a|;
      assert !StartsAt(a + x, i + 1, pat);
      if i + |pat| <= |a[1..] + x| {
        assert (a + x)[i + 1..i + 1 + |pat|] == (a[1..] + x)[i..i + |pat|];
      }
    }
  }

  /** An occurrence at the start is replaced and the scan resumes after it. */
  lemma ReplaceAllHere(pat: string, y: string, rep: string)
    requires pat != []
    ensures ReplaceAll(pat + y, pat, rep) == rep + ReplaceAll(y, pat, rep)
  {
    assert StartsAt(pat + y, 0, pat);
    assert (pat + y)[|pat|..] == y;
  }

  /** A character outside a class does not occur in a run of that class. */
  lemma NotInClass(s: string, k: CharClass, c: char)
    requires AllIn(s, k) && !InClass(c, k)
    ensures c !in s
  {
  }

  /** An empty pattern inserts the replacement before every character and once at the end:
      the `i`-th character of `s` follows the `i`-th copy of `rep`, and the text ends with a
      last copy. */
  lemma ReplaceAllEmptyPattern(s: string, rep: string)
    ensures var r := ReplaceAll(s, [], rep);
      && |r| == Slot(|s|, rep) + |rep|
      && (forall i :: 0 <= i < |s| ==>
            && Slot(i, rep) + |rep| < |r|
            && r[Slot(i, rep)..Slot(i, rep) + |rep|] == rep
            && r[Slot(i, rep) + |rep|] == s[i])
      && r[Slot(|s|, rep)..] == rep
  {
    InterleaveAll(s, rep);
    InterleaveEnd(s, rep);
  }

  /** Where the `i`-th copy of `rep` starts when `rep` is put before every character: after `i`
      copies and `i` characters. */
  function Slot(i: nat, rep: string): nat {
    if i == 0 then 0 else Slot(i - 1, rep) + |rep| + 1
  }

  lemma InterleaveAll(s: string, rep: string)
    ensures var r := Interleave(s, rep);
      forall i :: 0 <= i < |s| ==>
        Slot(i, rep) + |rep| < |r| && r[Slot(i, rep)..Slot(i, rep) + |rep|] == rep && r[Slot(i, rep) + |rep|] == s[i]
  {
    forall i | 0 <= i < |s|
      ensures Slot(i, rep) + |rep| < |Interleave(s, rep)|
      ensures Interleave(s, rep)[Slot(i, rep)..Slot(i, rep) + |rep|] == rep
      ensures Interleave(s, rep)[Slot(i, rep) + |rep|] == s[i]
    {
      InterleaveAt(s, rep, i);
    }
  }

  /** The `i`-th character of `s` and the copy of `rep` before it, in `Interleave(s, rep)`. */
  lemma {:induction false} InterleaveAt(s: string, rep: string, i: nat)
    requires i < |s|
    ensures var r := Interleave(s, rep);
      && Slot(i, rep) + |rep| < |r|
      && r[Slot(i, rep)..Slot(i, rep) + |rep|] == rep && r[Slot(i, rep) + |rep|] == s[i]
    decreases i
  {
    var r := Interleave(s, rep);
    var head := rep + [s[0]];
    var t := Interleave(s[1..], rep);
    assert r == head + t && |head| == |rep| + 1;
    if i > 0 {
      InterleaveAt(s[1..], rep, i - 1);
      var j := Slot(i - 1, rep);
      assert Slot(i, rep) == j + |head|;
      assert r[Slot(i, rep)..Slot(i, rep) + |rep|] == t[j..j + |rep|];
      assert r[Slot(i, rep) + |rep|] == t[j + |rep|];
    }
  }

  /** `Interleave(s, rep)` ends with a copy of `rep`. */
  lemma {:induction false} InterleaveEnd(s: string, rep: string)
    ensures var r := Interleave(s, rep);
      |r| == Slot(|s|, rep) + |rep| && r[Slot(|s|, rep)..] == rep
    decreases |s|
  {
    if s != [] {
      var t := Interleave(s[1..], rep);
      InterleaveEnd(s[1..], rep);
      assert Slot(|s|, rep) == Slot(|s| - 1, rep) + |rep| + 1;
      assert Interleave(s, rep) == (rep + [s[0]]) + t;
    }
  }

  /** One differing character rules out an occurrence. */
  lemma Mismatch(s: string, i: nat, lit: string, k: nat)
    requires k < |lit| && (i + k >= |s| || s[i + k] != lit[k])
    ensures !StartsAt(s, i, lit)
  {
    if i + |lit| <= |s| {
      assert s[i..i + |lit|][k] == s[i + k];
    }
  }

  lemma Assoc(a: string, b: string, c: string)
    ensures (a + b) + c == a + (b + c)
  {
  }

  lemma SplitThree(s: string, i: nat, j: nat)
    requires i <= j <= |s|
    ensures s == s[..i] + (s[i..j] + s[j..])
  {
  }

  lemma StartsAtConcat(a: string, b: string, i: nat, lit: string)
    requires i + |lit| <= |a|
    ensures StartsAt(a + b, i, lit) <==> StartsAt(a, i, lit)
  {
    assert (a + b)[i..i + |lit|] == a[i..i + |lit|];
  }

  lemma ContainsAt(s: string, i: nat, t: string)
    requires StartsAt(s, i, t)
    ensures Contains(s, t)
  {
  }

  /** A text that contains `t` still contains it with anything added on either side. */
  lemma ContainsExtend(a: string, s: string, b: string, t: string)
    requires Contains(s, t)
    ensures Contains(a + s + b, t)
  {
    var i :| 0 <= i <= |s| - |t| && StartsAt(s, i, t);
    assert (a + s + b)[|a| + i..|a| + i + |t|] == s[i..i + |t|];
    assert StartsAt(a + s + b, |a| + i, t);
  }
}
