/** A catch nested in the block of another catch: the lazy block `[^}]*?` of the outer match
    runs over the inner `catch (w) { console.error('x', w)`, so the first pass rewrites only the
    outer catch, and the inner one is rewritten, and counted, by the second pass. The corrected
    block search, which stops at a catch head, rewrites the inner catch on the first pass and
    leaves nothing for a second. */
module CatchNesting {
  import opened Text
  import opened Options
  import opened Rules
  import opened CatchRule
  import opened Rewrite
  import opened CatchProperties

  // ---------------------------------------------------------------------------------------
  // The text

  /** `catch (u) {` */
  function Head(u: string): CatchHead {
    CatchHead(" ", u, " ")
  }

  /** A line break, `catch (w) ` and a blank: what comes before the inner call. */
  function Lead(w: string): string {
    "\n" + (HeadText(Head(w)) + " ")
  }

  /** The block the pattern settles on for the outer catch: a line break, then the whole inner
      `catch (w) { console.error('x', w)`, then a blank. */
  function NestedBlock(w: string): string {
    Lead(w) + (ExampleCall(w) + " ")
  }

  /** `catch (v) {`, a line break, `catch (w) { console.error('x', w) console.error('x', v)`. */
  function NestedCatch(v: string, w: string): string {
    HeadText(Head(v)) + (NestedBlock(w) + ExampleCall(v))
  }

  /** What a pass of the callback as written makes of it: the handler line after the outer
      head, and the outer call retargeted to `err`; the inner catch is left as it was. */
  function NestedOnce(v: string, w: string): string {
    HeadText(Head(v)) + (Handler("    ", v) + (NestedBlock(w) + ExampleCall("err")))
  }

  /** What a pass of the corrected rule makes of it: the outer head is kept, and the inner catch
      is rewritten. */
  function NestedFixed(v: string, w: string): string {
    HeadText(Head(v)) + ("\n" + (CatchOut(ExampleSite(w)) + (" " + ExampleCall(v))))
  }

  /** Two caught variables that start with different characters, neither of which is `err` or
      holds an `h`. */
  predicate Distinct(v: string, w: string) {
    && IsName(v) && IsName(w) && v[0] != w[0]
    && v != "err" && w != "err" && 'h' !in v && 'h' !in w
  }

  // ---------------------------------------------------------------------------------------
  // Where no logging call and no catch head starts

  /** Neither logger name starts here: `logger.error` has its `.` at index 6 and
      `console.error` at index 7. */
  predicate NoLoggerShape(x: string) {
    !(|x| > 7 && ((x[0] == 'l' && x[6] == '.') || (x[0] == 'c' && x[7] == '.')))
  }

  lemma CallAtShape(x: string, v: string)
    ensures CallAt(x, v).Some? ==> !NoLoggerShape(x)
  {
    if CallAt(x, v).Some? {
      var logger, wp, a := CallAtParts(x, v);
      LoggerShape(x, logger, wp + ("(" + a));
    }
  }

  lemma LoggerShape(x: string, logger: string, y: string)
    requires x == logger + y && (logger == LoggerCall || logger == ConsoleCall)
    ensures !NoLoggerShape(x)
  {
    assert |x| > 7 && x[0] == logger[0] && x[6] == logger[6] && x[7] == logger[7];
  }

  /** No logging call of `v` and no `}` starts at a position of `a`, followed by `y`. */
  predicate Quiet(a: string, y: string, v: string) {
    forall j :: 0 <= j < |a| ==> CallAt((a + y)[j..], v).None? && (a + y)[j] != '}'
  }

  lemma QuietJoin(a: string, b: string, y: string, v: string)
    requires Quiet(a, b + y, v) && Quiet(b, y, v)
    ensures Quiet(a + b, y, v)
  {
    assert (a + b) + y == a + (b + y);
    forall j | |a| <= j < |a + b|
      ensures CallAt(((a + b) + y)[j..], v).None? && ((a + b) + y)[j] != '}'
    {
      assert ((a + b) + y)[j..] == (b + y)[j - |a|..];
    }
  }

  /** Where no `.` stands at the index a logger name needs it, no call starts. */
  lemma DotQuiet(a: string, y: string, v: string)
    requires '}' !in a && forall i :: 6 <= i < |a| ==> a[i] != '.'
    requires forall i :: 0 <= i < |y| && i < 7 ==> y[i] != '.'
    ensures Quiet(a, y, v)
  {
    forall j | 0 <= j < |a|
      ensures CallAt((a + y)[j..], v).None? && (a + y)[j] != '}'
    {
      var x := (a + y)[j..];
      if |x| > 7 {
        assert x[6] == (a + y)[j + 6] && x[7] == (a + y)[j + 7];
      }
      CallAtShape(x, v);
    }
  }

  /** A blank starts no call. */
  lemma BlankQuiet(y: string, v: string)
    ensures Quiet(" ", y, v)
  {
    assert (" " + y)[0..] == " " + y;
    CallAtShape(" " + y, v);
  }

  /** The block search finds nothing in a text at no position of which a call or `}` starts. */
  lemma QuietNoCall(b: string, v: string)
    requires Quiet(b, [], v)
    ensures FindCall(b, v, 0).None?
  {
    assert b + [] == b;
    FindCallSkips(b, v, 0, |b|);
    assert b[|b|..] == [];
  }

  /** The catch rules, as written and corrected. */
  predicate CatchLike(r: Rule) {
    r.CatchBlock? || r.FlatCatchBlock?
  }

  /** A catch head has an `h` at index 4. */
  lemma NoHeadAt(x: string)
    requires |x| <= 4 || x[4] != 'h'
    ensures ParseHead(x).None?
  {
    Mismatch(x, 0, "catch", 4);
    assert !("catch" <= x);
  }

  lemma NoSiteAt(r: Rule, x: string)
    requires CatchLike(r) && (|x| <= 4 || x[4] != 'h')
    ensures MatchAt(r, x).None?
  {
    NoHeadAt(x);
  }

  /** No catch rule matches at the positions from `lo` of `p + q`, where `p` reaches at most
      four past `lo` and neither `q` nor the first four characters after it hold an `h`. */
  lemma HeadFree(r: Rule, p: string, q: string, y: string, lo: nat)
    requires CatchLike(r) && |p| <= lo + 4 && 'h' !in q
    requires forall i :: 0 <= i < |y| && i < 4 ==> y[i] != 'h'
    ensures forall i :: lo <= i < |p + q| ==> MatchAt(r, ((p + q) + y)[i..]).None?
  {
    forall i | lo <= i < |p + q|
      ensures MatchAt(r, ((p + q) + y)[i..]).None?
    {
      var x := ((p + q) + y)[i..];
      if |x| > 4 {
        assert x[4] == ((p + q) + y)[i + 4];
      }
      NoSiteAt(r, x);
    }
  }

  /** A text without `h` holds no catch head. */
  lemma HeadFreeText(b: string)
    requires 'h' !in b
    ensures forall j :: 0 <= j <= |b| ==> ParseHead(b[j..]).None?
  {
    forall j | 0 <= j <= |b|
      ensures ParseHead(b[j..]).None?
    {
      if |b[j..]| > 4 {
        assert b[j..][4] == b[j + 4];
      }
      NoHeadAt(b[j..]);
    }
  }

  // ---------------------------------------------------------------------------------------
  // Characters of the pieces

  lemma HeadLacks(u: string, c: char)
    requires c !in u && c !in "catch (){"
    ensures c !in HeadText(Head(u))
  {
  }

  /** What follows `catch` in `catch (u) {`. */
  lemma HeadTailLacks(u: string, c: char)
    requires c !in u && c !in " (){"
    ensures HeadText(Head(u))[..5] == "catch" && c !in HeadText(Head(u))[5..]
  {
    assert HeadText(Head(u))[5..] == " " + ("(" + (u + (")" + (" " + "{"))));
  }

  lemma CallLacks(u: string, c: char)
    requires c !in u && c !in "console.error('x', )"
    ensures c !in ExampleCall(u)
  {
  }

  /** Past the logger name, `console.error('x', u)` holds no `.`. */
  lemma ExampleDots(u: string)
    requires '.' !in u
    ensures forall i :: 8 <= i < |ExampleCall(u)| ==> ExampleCall(u)[i] != '.'
  {
    var t := "error(" + ("'x'" + (", " + (u + ")")));
    assert ExampleCall(u) == "console." + t;
    assert '.' !in t;
  }

  lemma HandlerLacksH(v: string)
    requires 'h' !in v
    ensures 'h' !in Handler("    ", v)
  {
    assert 'h' !in Marker(v);
  }

  lemma WordLacks(u: string, c: char)
    requires IsName(u) && !IsWordChar(c)
    ensures c !in u
  {
    NotInClass(u, Word, c);
  }

  /** A line break occurs in `a + ("\n" + b) + c` only at `|a|`. */
  lemma BreakAt(a: string, b: string, c: string, i: nat)
    requires '\n' !in a && '\n' !in b && '\n' !in c && i < |a + ("\n" + b) + c|
    ensures (a + ("\n" + b) + c)[i] == '\n' ==> i == |a|
  {
  }

  /** A text contains each character of a text it contains. */
  lemma ContainsChar(s: string, t: string, k: nat)
    ensures Contains(s, t) && k < |t| ==> t[k] in s
  {
    if Contains(s, t) && k < |t| {
      var i :| 0 <= i <= |s| - |t| && StartsAt(s, i, t);
      assert s[i + k] == s[i..i + |t|][k];
    }
  }

  // ---------------------------------------------------------------------------------------
  // The logging calls

  /** `console.error('x', u)` as the pattern reads it. */
  function ExampleLog(): LogCall {
    LogCall(ConsoleCall, "", "'x'", " ", "")
  }

  lemma ExampleLogged(u: string)
    requires IsName(u)
    ensures LogCallWellFormed(ExampleLog()) && ShortestArgs(ExampleLog(), u)
    ensures LogCallText(ExampleLog(), u) == ExampleCall(u)
  {
    var c := ExampleLog();
    assert IsBlank(" ") && IsBlank("");
    forall j | 0 <= j < |c.args|
      ensures !EndsArgs(c.args[j..] + ArgsTail(c.beforeVar, u, c.afterVar), u)
    {
      var y := c.args[j..] + ArgsTail(c.beforeVar, u, c.afterVar);
      assert y[0] == c.args[j] != ',';
      EndsArgsComma(y, u);
    }
  }

  /** The end of the arguments starts with `,`. */
  lemma EndsArgsComma(y: string, v: string)
    ensures EndsArgs(y, v) ==> y != [] && y[0] == ','
  {
    if EndsArgs(y, v) {
      var x1, x2 :| IsBlank(x1) && IsBlank(x2) && ArgsTail(x1, v, x2) <= y;
      assert y[0] == ArgsTail(x1, v, x2)[0];
    }
  }

  /** Where the arguments do not end at its comma, `console.error('x', u)` is no call of
      `v`, whatever follows. */
  lemma ExampleMisses(u: string, v: string, y: string)
    requires IsName(u) && ArgsEnd(", " + (u + (")" + y)), v).None?
    ensures CallAt(ExampleCall(u) + y, v).None?
  {
    var a := "'x'" + (", " + (u + (")" + y)));
    ExampleArgsMiss(u, v, y);
    ExampleJoin(ConsoleCall, u, y);
    CallAtOf(ConsoleCall, [], a, v);
  }

  lemma ExampleJoin(n: string, u: string, y: string)
    ensures (n + ("(" + ("'x'" + (", " + (u + ")"))))) + y
         == n + ([] + ("(" + ("'x'" + (", " + (u + (")" + y))))))
  {
  }

  /** The argument search on `'x', u)…` passes the comma, where the arguments do not end, and
      stops at the `)` after `u`. */
  lemma ExampleArgsMiss(u: string, v: string, y: string)
    requires IsName(u) && ArgsEnd(", " + (u + (")" + y)), v).None?
    ensures FindArgsEnd("'x'" + (", " + (u + (")" + y))), v, 0).None?
  {
    var t := ", " + (u + (")" + y));
    QuoteLead(t, v);
    CommaTail(u + (")" + y));
    NameThenParen("'x'" + t, v, 4, u, y);
  }

  lemma CommaTail(z: string)
    ensures (", " + z)[1..] == " " + z
  {
  }

  /** The search passes the quoted `'x'` and a comma after it where the arguments do not
      end. */
  lemma QuoteLead(t: string, v: string)
    requires t != [] && t[0] == ',' && ArgsEnd(t, v).None?
    ensures var a := "'x'" + t;
      a[4..] == t[1..] && FindArgsEnd(a, v, 0) == FindArgsEnd(a, v, 4)
  {
    var a := "'x'" + t;
    assert a[0] == '\'' && a[1] == 'x' && a[2] == '\'';
    ArgsStep(a, v, 0);
    ArgsStep(a, v, 1);
    ArgsStep(a, v, 2);
    assert a[3..] == t;
    CommaStep(a, v, 3);
  }

  /** From a blank, a name and a `)`, the search passes the name and stops at the `)`. */
  lemma NameThenParen(a: string, v: string, k: nat, u: string, y: string)
    requires IsName(u) && k <= |a| && a[k..] == " " + (u + (")" + y))
    ensures FindArgsEnd(a, v, k).None?
  {
    var b := a[k..];
    WordLacks(u, ',');
    WordLacks(u, ')');
    forall j | k <= j < k + 1 + |u|
      ensures a[j] != ',' && a[j] != ')'
    {
      assert a[j] == b[j - k];
      if j > k {
        assert b[j - k] == u[j - k - 1];
      }
    }
    ArgsRun(a, v, k, k + 1 + |u|);
    assert a[k + 1 + |u|] == b[1 + |u|] == ')';
    ParenStop(a, v, k + 1 + |u|);
  }

  /** The argument search passes a `,` where the arguments do not end. */
  lemma CommaStep(a: string, v: string, m: nat)
    requires m < |a| && a[m] == ',' && ArgsEnd(a[m..], v).None?
    ensures FindArgsEnd(a, v, m) == FindArgsEnd(a, v, m + 1)
  {
  }

  /** The argument search stops at a `)` where the arguments do not end. */
  lemma ParenStop(a: string, v: string, m: nat)
    requires m < |a| && a[m] == ')'
    ensures FindArgsEnd(a, v, m).None?
  {
    assert a[m..][0] == ')';
  }

  /** The argument search passes over a run without `,` and `)`. */
  lemma ArgsRun(a: string, v: string, lo: nat, hi: nat)
    requires lo <= hi <= |a| && forall j :: lo <= j < hi ==> a[j] != ',' && a[j] != ')'
    ensures FindArgsEnd(a, v, lo) == FindArgsEnd(a, v, hi)
  {
    forall j | lo <= j < hi
      ensures ArgsEnd(a[j..], v).None? && a[j] != ')'
    {
      assert a[j..][0] == a[j];
    }
    FindArgsEndSkips(a, v, lo, hi);
  }

  /** The arguments do not end at `, u)` for a variable that starts differently. */
  lemma ArgsEndOther(u: string, v: string, y: string)
    requires IsName(u) && v != [] && v[0] != u[0]
    ensures ArgsEnd(", " + (u + (")" + y)), v).None?
  {
    var r0 := u + (")" + y);
    assert (", " + r0)[1..] == " " + r0;
    assert r0[0] == u[0] && !IsSpace(u[0]);
    SpanOf(" ", r0, Space);
    assert r0[0] != v[0];
  }

  /** The arguments do not end at `, err)` for a variable other than `err`. */
  lemma ArgsEndErr(v: string, y: string)
    requires IsName(v) && v != "err"
    ensures ArgsEnd(", " + ("err" + (")" + y)), v).None?
  {
    var r0 := "err" + (")" + y);
    assert (", " + r0)[1..] == " " + r0;
    assert r0[0] == 'e';
    SpanOf(" ", r0, Space);
    if v <= r0 {
      ErrPrefix(v, y);
      var z := r0[|v|..];
      assert z[0] == 'r';
      SpanOf([], z, Space);
    }
  }

  /** A name other than `err` that starts `err)…` is `e` or `er`. */
  lemma ErrPrefix(v: string, y: string)
    requires IsName(v) && v != "err" && v <= "err" + (")" + y)
    ensures |v| <= 2 && ("err" + (")" + y))[|v|] == 'r'
  {
    var r0 := "err" + (")" + y);
    assert forall i :: 0 <= i < |v| ==> v[i] == r0[i];
    assert r0[..3] == "err" && r0[3] == ')';
  }

  /** No call of `v` starts in `console.error('x', u)` when the arguments do not end at its
      comma, followed by a text whose first seven characters hold no `.`. */
  lemma ExampleCallQuiet(u: string, v: string, y: string)
    requires IsName(u) && ArgsEnd(", " + (u + (")" + y)), v).None?
    requires forall i :: 0 <= i < |y| && i < 7 ==> y[i] != '.'
    ensures Quiet(ExampleCall(u), y, v)
  {
    var cw := ExampleCall(u);
    WordLacks(u, '}');
    WordLacks(u, '.');
    CallLacks(u, '}');
    ExampleDots(u);
    DotQuiet(cw[2..], y, v);
    ExampleCallStart(u, v, y);
    QuietJoin(cw[..2], cw[2..], y, v);
    assert cw[..2] + cw[2..] == cw;
  }

  /** Neither of the first two positions of `console.error('x', u)` starts a call of `v`. */
  lemma ExampleCallStart(u: string, v: string, y: string)
    requires IsName(u) && ArgsEnd(", " + (u + (")" + y)), v).None?
    ensures Quiet(ExampleCall(u)[..2], ExampleCall(u)[2..] + y, v)
  {
    ExampleMisses(u, v, y);
    ExampleSecond(u);
    TwoQuiet(ExampleCall(u), y, v);
  }

  lemma ExampleSecond(u: string)
    ensures |ExampleCall(u)| > 2 && ExampleCall(u)[0] == 'c' && ExampleCall(u)[1] == 'o'
  {
  }

  /** A text at whose start no call begins and whose second character is not a logger's
      first starts no call at its first two positions. */
  lemma TwoQuiet(t: string, y: string, v: string)
    requires |t| > 2 && CallAt(t + y, v).None? && t[0] != '}' && t[1] != 'l' && t[1] != 'c' && t[1] != '}'
    ensures Quiet(t[..2], t[2..] + y, v)
  {
    var s := t + y;
    assert t[..2] + (t[2..] + y) == s;
    assert s[0..] == s;
    assert s[1..][0] == t[1];
    CallAtShape(s[1..], v);
  }

  /** No call of `v` starts in the nested block, when the first seven characters after it
      hold no `.`. */
  lemma BlockQuiet(v: string, w: string, y: string)
    requires IsName(v) && IsName(w) && v[0] != w[0]
    requires forall i :: 0 <= i < |y| && i < 7 ==> y[i] != '.'
    ensures Quiet(NestedBlock(w), y, v)
  {
    var cw := ExampleCall(w);
    WordLacks(w, '}');
    WordLacks(w, '.');
    HeadLacks(w, '}');
    HeadLacks(w, '.');
    DotQuiet(Lead(w), cw + (" " + y), v);
    ArgsEndOther(w, v, " " + y);
    ExampleCallQuiet(w, v, " " + y);
    BlankQuiet(y, v);
    QuietJoin(cw, " ", y, v);
    assert (cw + " ") + y == cw + (" " + y);
    QuietJoin(Lead(w), cw + " ", y, v);
  }

  // ---------------------------------------------------------------------------------------
  // The first pass of the callback as written

  /** The nested block holds no `=`, so no marker. */
  lemma NestedUnmarked(v: string, w: string)
    requires IsName(w)
    ensures !Contains(NestedBlock(w), Marker(v))
  {
    WordLacks(w, '=');
    HeadLacks(w, '=');
    CallLacks(w, '=');
    assert '=' !in NestedBlock(w);
    ContainsChar(NestedBlock(w), Marker(v), 10);
    assert Marker(v)[10] == '=';
  }

  /** The nested block's text occurs in the outer span only as the block: it starts with the
      only line break there. */
  lemma NestedBlockOnce(v: string, w: string)
    requires IsName(v) && IsName(w)
    ensures BlockOnce(CatchMatch(Head(v), NestedBlock(w), ExampleCall(v)))
  {
    var m := CatchMatch(Head(v), NestedBlock(w), ExampleCall(v));
    var b1 := HeadText(Head(w)) + (" " + (ExampleCall(w) + " "));
    var hv := HeadText(Head(v));
    WordLacks(v, '\n');
    WordLacks(w, '\n');
    HeadLacks(v, '\n');
    HeadLacks(w, '\n');
    CallLacks(v, '\n');
    CallLacks(w, '\n');
    assert NestedBlock(w) == "\n" + b1;
    assert SpanText(m) == hv + ("\n" + b1) + ExampleCall(v);
    OnceAtBreak(hv, b1, ExampleCall(v));
  }

  /** A text that starts with the only line break of `a + ("\n" + b) + c` occurs there
      only. */
  lemma OnceAtBreak(a: string, b: string, c: string)
    requires '\n' !in a && '\n' !in b && '\n' !in c
    ensures var s := a + ("\n" + b) + c;
      forall i :: 0 <= i <= |s| - |"\n" + b| && StartsAt(s, i, "\n" + b) ==> i == |a|
  {
    var s := a + ("\n" + b) + c;
    forall i | 0 <= i <= |s| - |"\n" + b| && StartsAt(s, i, "\n" + b)
      ensures i == |a|
    {
      assert s[i] == s[i..i + |"\n" + b|][0];
      BreakAt(a, b, c, i);
    }
  }

  /** No line break of the nested block is followed by a blank, so the indentation is four
      spaces. */
  lemma NestedIndent(w: string)
    requires IsName(w)
    ensures Indent(NestedBlock(w)) == "    "
  {
    var b := NestedBlock(w);
    var b1 := HeadText(Head(w)) + (" " + (ExampleCall(w) + " "));
    WordLacks(w, '\n');
    HeadLacks(w, '\n');
    CallLacks(w, '\n');
    assert b == "\n" + b1 && b1[0] == 'c';
    forall j | 0 <= j < |b|
      ensures !IndentAt(b, j)
    {
      if j > 0 {
        assert b[j] == b1[j - 1];
      }
    }
    IndentDefault(b);
  }

  /** `console.error('x'`: the call up to the comma before its last argument. */
  function CallLead(): string {
    ConsoleCall + ("(" + "'x'")
  }

  lemma ExampleLead(u: string)
    ensures ExampleCall(u) == CallLead() + (", " + u + ")")
  {
  }

  /** Retargeting the nested block and the outer call replaces only the outer call's `, v)`:
      the inner call's `, w)` differs from it at its first letter. */
  lemma NestedRetarget(v: string, w: string)
    requires IsName(v) && IsName(w) && v[0] != w[0]
    ensures Retarget(NestedBlock(w) + ExampleCall(v), v) == NestedBlock(w) + ExampleCall("err")
  {
    ExampleLead(v);
    ExampleLead(w);
    ExampleLead("err");
    WordLacks(w, ',');
    HeadLacks(w, ',');
    assert ',' !in CallLead();
    RetargetTwo(Lead(w), CallLead(), w, v);
  }

  /** In `L q, w) q, v)` with no comma in `L` and `q`, retargeting `v` replaces the second
      `, v)` alone. */
  lemma RetargetTwo(l: string, q: string, w: string, v: string)
    requires ',' !in l && ',' !in q && IsName(w) && IsName(v) && v[0] != w[0]
    ensures Retarget((l + ((q + (", " + w + ")")) + " ")) + (q + (", " + v + ")")), v)
         == (l + ((q + (", " + w + ")")) + " ")) + (q + ", err)")
  {
    var pat := ", " + v + ")";
    var rep := ", err)";
    var xw := ", " + w + ")";
    var z := " " + q;
    assert AllIn(l + q, Except(','));
    Shuffle(l, q, xw, pat);
    Shuffle(l, q, xw, rep);
    ReplaceAllSkipsPrefix(l + q, xw + (z + pat), pat, rep);
    RetargetOther(w, v, z);
  }

  lemma Shuffle(l: string, q: string, x: string, y: string)
    ensures (l + ((q + x) + " ")) + (q + y) == (l + q) + (x + ((" " + q) + y))
  {
  }

  /** The retargeting passes `, w)` and a comma-free text, and replaces the `, v)` after
      them. */
  lemma RetargetOther(w: string, v: string, z: string)
    requires ',' !in z && IsName(w) && IsName(v) && v[0] != w[0]
    ensures ReplaceAll((", " + w + ")") + (z + (", " + v + ")")), ", " + v + ")", ", err)")
         == (", " + w + ")") + (z + ", err)")
  {
    var pat := ", " + v + ")";
    var p2 := (" " + w + ")") + z;
    WordLacks(w, ',');
    assert AllIn(p2, Except(','));
    CommaSplit(w, z, pat);
    CommaSplit(w, z, ", err)");
    assert ("," + (p2 + pat))[2] == w[0];
    Mismatch("," + (p2 + pat), 0, pat, 2);
    ReplaceCommaThen(p2, pat, ", err)");
  }

  lemma CommaSplit(w: string, z: string, y: string)
    ensures (", " + w + ")") + (z + y) == "," + (((" " + w + ")") + z) + y)
  {
  }

  /** A leading comma that does not start the pattern, then a comma-free text, then the
      pattern: only the pattern is replaced. */
  lemma ReplaceCommaThen(p: string, pat: string, rep: string)
    requires pat != [] && pat[0] == ',' && AllIn(p, Except(','))
    requires !StartsAt("," + (p + pat), 0, pat)
    ensures ReplaceAll("," + (p + pat), pat, rep) == "," + (p + rep)
  {
    ReplaceAllStep(",", p + pat, pat, rep);
    ReplaceAllSkipsPrefix(p, pat, pat, rep);
    ReplaceAllHere(pat, [], rep);
    assert pat + [] == pat;
    assert ReplaceAll([], pat, rep) == [];
    assert rep + [] == rep;
  }

  /** One pass of the catch rule as written over the nested text rewrites the outer catch
      alone, and counts one fix: its lazy block has swallowed the inner catch, and the pass
      resumes after the outer call. */
  lemma NestedFirstPass(v: string, w: string)
    requires Distinct(v, w)
    ensures Sub(CatchBlock(AsWritten), NestedCatch(v, w)) == Rewritten(NestedOnce(v, w), 1)
  {
    var m := CatchMatch(Head(v), NestedBlock(w), ExampleCall(v));
    NestedParsed(v, w);
    NestedUnmarked(v, w);
    WholeSite(NestedCatch(v, w), m);
    NestedOut(v, w);
  }

  /** A text the catch pattern takes whole, with no marker in its block, is rewritten by the
      callback as written and counted once. */
  lemma WholeSite(s: string, m: CatchMatch)
    requires ParseCatch(s) == Some((m, [])) && !Contains(m.block, Marker(m.head.errVar))
    ensures Sub(CatchBlock(AsWritten), s) == Rewritten(CatchOutAsWritten(m), 1)
  {
    CountedWhole(s, m);
    SubWhole(CatchBlock(AsWritten), s, CatchOutAsWritten(m), true);
  }

  lemma CountedWhole(s: string, m: CatchMatch)
    requires ParseCatch(s) == Some((m, [])) && !Contains(m.block, Marker(m.head.errVar))
    ensures MatchAt(CatchBlock(AsWritten), s) == Some(Site(|s|, CatchOutAsWritten(m), true))
  {
    var e: string := [];
    CountedSite(s, m, e);
    assert |s| - |e| == |s|;
  }

  /** A match whose block holds no marker is a counted site spanning what the match took. */
  lemma CountedSite(s: string, m: CatchMatch, rest: string)
    requires ParseCatch(s) == Some((m, rest)) && !Contains(m.block, Marker(m.head.errVar))
    ensures MatchAt(CatchBlock(AsWritten), s) == Some(Site(|s| - |rest|, CatchOutAsWritten(m), true))
  {
    CatchSiteCounted(AsWritten, s, m, rest);
  }

  lemma CatchSiteCounted(t: Template, s: string, m: CatchMatch, rest: string)
    requires ParseCatch(s) == Some((m, rest)) && !Contains(m.block, Marker(m.head.errVar))
    ensures CatchSite(t, s) == Some(Site(|s| - |rest|, CatchReplacement(t, m), true))
  {
  }

  /** The callback as written makes the outer site into the handler after the head and the
      nested block with the outer call retargeted. */
  lemma NestedOut(v: string, w: string)
    requires Distinct(v, w)
    ensures CatchOutAsWritten(CatchMatch(Head(v), NestedBlock(w), ExampleCall(v))) == NestedOnce(v, w)
  {
    var m := CatchMatch(Head(v), NestedBlock(w), ExampleCall(v));
    assert HeadWellFormed(Head(v)) by {
      assert IsBlank(" ");
    }
    NestedBlockOnce(v, w);
    CatchAgree(m);
    NestedIndent(w);
    NestedRetarget(v, w);
  }

  /** The pattern matches the whole nested text, with the nested block as the outer block. */
  lemma NestedParsed(v: string, w: string)
    requires Distinct(v, w)
    ensures ParseCatch(NestedCatch(v, w))
         == Some((CatchMatch(Head(v), NestedBlock(w), ExampleCall(v)), []))
  {
    var m := CatchMatch(Head(v), NestedBlock(w), ExampleCall(v));
    assert HeadWellFormed(Head(v)) by {
      assert IsBlank(" ");
    }
    WordLacks(w, '}');
    HeadLacks(w, '}');
    CallLacks(w, '}');
    assert '}' !in NestedBlock(w);
    BlockQuiet(v, w, ExampleCall(v) + []);
    assert SpanText(m) + [] == NestedCatch(v, w);
    QuietParsed(m, [], NestedCatch(v, w));
  }

  /** A well-formed head, a block without `}` where no logging call of the variable starts, and
      the example call of the variable: the pattern takes exactly these. */
  lemma QuietParsed(m: CatchMatch, rest: string, s: string)
    requires HeadWellFormed(m.head) && '}' !in m.block && IsName(m.head.errVar)
    requires m.call == ExampleCall(m.head.errVar) && Quiet(m.block, m.call + rest, m.head.errVar)
    requires s == SpanText(m) + rest
    ensures ParseCatch(s) == Some((m, rest))
  {
    ExampleLogged(m.head.errVar);
    CatchComplete(m, ExampleLog(), rest);
  }

  // ---------------------------------------------------------------------------------------
  // The second pass of the rule as written

  /** The first pass's text up to the inner catch: the outer head, the handler and the line
      break. */
  function OncePre(v: string): string {
    HeadText(Head(v)) + (Handler("    ", v) + "\n")
  }

  /** The inner catch, untouched by the first pass, and the retargeted outer call. */
  function OnceInner(w: string): string {
    HeadText(Head(w)) + (" " + (ExampleCall(w) + (" " + ExampleCall("err"))))
  }

  lemma OnceSplit(v: string, w: string)
    ensures NestedOnce(v, w) == OncePre(v) + OnceInner(w)
  {
    OnceShape(HeadText(Head(v)), Handler("    ", v), HeadText(Head(w)), ExampleCall(w), ExampleCall("err"));
  }

  lemma OnceShape(hv: string, hd: string, hw: string, cw: string, ce: string)
    ensures hv + (hd + ((("\n" + (hw + " ")) + (cw + " ")) + ce))
         == (hv + (hd + "\n")) + (hw + (" " + (cw + (" " + ce))))
  {
  }

  /** A second pass of the rule as written over the first pass's text counts one more fix: the
      inner catch the outer block swallowed is matched now. */
  lemma NestedSecondPass(v: string, w: string)
    requires Distinct(v, w)
    ensures Sub(CatchBlock(AsWritten), NestedOnce(v, w)).count == 1
  {
    var r := CatchBlock(AsWritten);
    OnceSplit(v, w);
    OncePreInert(v, w);
    SubInert(r, OncePre(v), OnceInner(w));
    InnerPass(w);
  }

  /** A pass of the rule as written is not idempotent on the nested text: the first pass counts
      one fix and the second counts another. */
  lemma NestedNotIdempotent(v: string, w: string)
    requires Distinct(v, w)
    ensures var once := Sub(CatchBlock(AsWritten), NestedCatch(v, w));
      once.count == 1 && Sub(CatchBlock(AsWritten), once.text).count == 1
  {
    NestedFirstPass(v, w);
    NestedSecondPass(v, w);
  }

  /** The rule matches at no position of the first pass's text before the inner catch. */
  lemma OncePreInert(v: string, w: string)
    requires Distinct(v, w)
    ensures forall i :: 0 <= i < |OncePre(v)| ==> MatchAt(CatchBlock(AsWritten), (OncePre(v) + OnceInner(w))[i..]).None?
  {
    HeadTailLacks(v, 'h');
    HandlerLacksH(v);
    PrefixLacks(HeadText(Head(v)), Handler("    ", v) + "\n", 'h');
    HeadTailLacks(w, 'h');
    PrefixLacks(HeadText(Head(w)), " " + (ExampleCall(w) + (" " + ExampleCall("err"))), 'h');
    OuterMiss(v, w);
    OnceSplit(v, w);
    InertAfterHead(CatchBlock(AsWritten), OncePre(v), OnceInner(w));
  }

  /** `catch` followed by a text without `h`, where the rule does not match at the start: the
      rule matches at none of its positions. */
  lemma InertAfterHead(r: Rule, pre: string, x: string)
    requires CatchLike(r) && |pre| >= 5 && pre[..5] == "catch" && 'h' !in pre[5..]
    requires |x| >= 5 && x[..5] == "catch" && MatchAt(r, pre + x).None?
    ensures forall i :: 0 <= i < |pre| ==> MatchAt(r, (pre + x)[i..]).None?
  {
    assert forall i :: 0 <= i < |x| && i < 4 ==> x[i] == x[..5][i];
    HeadFree(r, pre[..5], pre[5..], x, 1);
    assert pre[..5] + pre[5..] == pre;
    assert (pre + x)[0..] == pre + x;
  }

  lemma PrefixLacks(a: string, b: string, c: char)
    requires |a| >= 5 && c !in a[5..] && c !in b
    ensures (a + b)[..5] == a[..5] && c !in (a + b)[5..]
  {
    assert (a + b)[5..] == a[5..] + b;
  }

  /** At the outer head the block search finds no logging call of the outer variable: the
      handler, the inner catch and the retargeted call hold none, and no `}` stops it. */
  lemma OuterMiss(v: string, w: string)
    requires Distinct(v, w)
    ensures MatchAt(CatchBlock(AsWritten), NestedOnce(v, w)).None?
  {
    var body := Handler("    ", v) + (NestedBlock(w) + ExampleCall("err"));
    assert HeadWellFormed(Head(v)) by {
      assert IsBlank(" ");
    }
    OnceBodyQuiet(v, w);
    NoCallNoSite(AsWritten, Head(v), body, NestedOnce(v, w));
  }

  /** A head whose body holds no logging call of its variable before a `}` is no site. */
  lemma NoCallNoSite(t: Template, h: CatchHead, body: string, s: string)
    requires HeadWellFormed(h) && s == HeadText(h) + body && Quiet(body, [], h.errVar)
    ensures MatchAt(CatchBlock(t), s).None?
  {
    HeadComplete(h, body);
    ParseCatchOf(s, h, body);
    QuietNoCall(body, h.errVar);
  }

  lemma OnceBodyQuiet(v: string, w: string)
    requires Distinct(v, w)
    ensures Quiet(Handler("    ", v) + (NestedBlock(w) + ExampleCall("err")), [], v)
  {
    var e: string := [];
    var ce := ExampleCall("err");
    var nb := NestedBlock(w);
    ArgsEndErr(v, e);
    ExampleCallQuiet("err", v, e);
    CallStartNoDot("err");
    PrefixNoDot(ce, e);
    BlockQuiet(v, w, ce + e);
    BlockStartNoDot(w);
    PrefixNoDot(nb, ce + e);
    HandlerQuiet(v, nb + (ce + e));
    QuietChain(Handler("    ", v), nb, ce, v);
  }

  lemma QuietChain(hd: string, nb: string, ce: string, v: string)
    requires Quiet(ce, [], v) && Quiet(nb, ce + [], v) && Quiet(hd, nb + (ce + []), v)
    ensures Quiet(hd + (nb + ce), [], v)
  {
    var e: string := [];
    QuietJoin(nb, ce, e, v);
    assert nb + (ce + e) == (nb + ce) + e;
    QuietJoin(hd, nb + ce, e, v);
  }

  /** A text whose first seven characters hold no `.` keeps them in front of anything. */
  lemma PrefixNoDot(a: string, y: string)
    requires |a| >= 7 && forall i :: 0 <= i < 7 ==> a[i] != '.'
    ensures forall i :: 0 <= i < |a + y| && i < 7 ==> (a + y)[i] != '.'
  {
  }

  lemma CallStartNoDot(u: string)
    ensures |ExampleCall(u)| >= 7 && forall i :: 0 <= i < 7 ==> ExampleCall(u)[i] != '.'
  {
    var c := ExampleCall(u);
    assert c[..7] == ConsoleCall[..7];
  }

  lemma BlockStartNoDot(w: string)
    requires IsName(w)
    ensures |NestedBlock(w)| >= 7 && forall i :: 0 <= i < 7 ==> NestedBlock(w)[i] != '.'
  {
    WordLacks(w, '.');
    HeadTailLacks(w, '.');
    var hw := HeadText(Head(w));
    var b := NestedBlock(w);
    assert b == "\n" + (hw + (" " + (ExampleCall(w) + " ")));
    assert b[1..7] == hw[..6];
    assert hw[..6] == hw[..5] + [hw[5]];
  }

  /** No logging call of `v` and no `}` start inside the handler line. */
  lemma HandlerQuiet(v: string, y: string)
    requires IsName(v)
    ensures Quiet(Handler("    ", v), y, v)
  {
    assert IsBlank("    ");
    forall j | 0 <= j < |Handler("    ", v)|
      ensures CallAt((Handler("    ", v) + y)[j..], v).None? && (Handler("    ", v) + y)[j] != '}'
    {
      HandlerInert("    ", v, y, j);
    }
  }

  /** The inner catch with its one-blank block is a counted site, and nothing after it
      matches. */
  lemma InnerPass(w: string)
    requires IsName(w) && 'h' !in w
    ensures Sub(CatchBlock(AsWritten), OnceInner(w)).count == 1
  {
    var r := CatchBlock(AsWritten);
    var m := ExampleSite(w);
    var tail := " " + ExampleCall("err");
    InnerShape(HeadText(Head(w)), ExampleCall(w), ExampleCall("err"));
    InnerSite(w);
    CallLacks("err", 'h');
    TailInert(r, tail);
    CountOne(r, SpanText(m), CatchOutAsWritten(m), tail);
  }

  /** The inner catch, followed by the retargeted call, is a counted site. */
  lemma InnerSite(w: string)
    requires IsName(w)
    ensures var m := ExampleSite(w);
      MatchAt(CatchBlock(AsWritten), SpanText(m) + (" " + ExampleCall("err")))
      == Some(Site(|SpanText(m)|, CatchOutAsWritten(m), true))
  {
    var m := ExampleSite(w);
    var tail := " " + ExampleCall("err");
    assert HeadWellFormed(m.head) by {
      assert IsBlank(" ");
    }
    BlankQuiet(m.call + tail, w);
    QuietParsed(m, tail, SpanText(m) + tail);
    BlankUnmarked(w);
    CountedSite(SpanText(m) + tail, m, tail);
  }

  /** A counted site followed by a text the rule leaves alone: one fix. */
  lemma CountOne(r: Rule, a: string, out: string, x: string)
    requires a != [] && MatchAt(r, a + x) == Some(Site(|a|, out, true)) && Sub(r, x).count == 0
    ensures Sub(r, a + x).count == 1
  {
    SubAtSite(r, a, out, true, x);
  }

  lemma InnerShape(hw: string, cw: string, ce: string)
    ensures hw + (" " + (cw + (" " + ce))) == ((hw + " ") + cw) + (" " + ce)
  {
  }

  lemma BlankUnmarked(v: string)
    ensures !Contains(" ", Marker(v))
  {
    assert |Marker(v)| > 1;
  }

  /** The catch rule passes over a text without `h` unchanged and counts nothing. */
  lemma TailInert(r: Rule, t: string)
    requires CatchLike(r) && 'h' !in t
    ensures Sub(r, t) == Rewritten(t, 0)
  {
    var e: string := [];
    HeadFree(r, e, t, e, 0);
    assert (e + t) + e == t && e + t == t;
    SubNoMatch(r, t);
  }

  // ---------------------------------------------------------------------------------------
  // The block search stopped at a nested head

  /** With the block barred from running past a nested head, one pass over the nested text
      rewrites the inner catch alone, and a second pass finds nothing left to fix. */
  lemma NestedFlatStable(v: string, w: string)
    requires Distinct(v, w)
    ensures Sub(FlatCatchBlock, NestedCatch(v, w)) == Rewritten(NestedFixed(v, w), 1)
    ensures Sub(FlatCatchBlock, NestedFixed(v, w)) == Rewritten(NestedFixed(v, w), 0)
  {
    FlatFirstPass(v, w);
    FlatSecondPass(v, w);
  }

  /** The outer head and line break, followed by the inner catch as it stands. */
  lemma FlatSplit(v: string, w: string)
    ensures NestedCatch(v, w) == (HeadText(Head(v)) + "\n") + (SpanText(ExampleSite(w)) + (" " + ExampleCall(v)))
    ensures NestedFixed(v, w) == (HeadText(Head(v)) + "\n") + (CatchOut(ExampleSite(w)) + (" " + ExampleCall(v)))
  {
    FlatShape(HeadText(Head(v)), HeadText(Head(w)), ExampleCall(w), ExampleCall(v));
    FixedShape(HeadText(Head(v)), CatchOut(ExampleSite(w)), ExampleCall(v));
  }

  lemma FlatShape(hv: string, hw: string, cw: string, cv: string)
    ensures hv + ((("\n" + (hw + " ")) + (cw + " ")) + cv) == (hv + "\n") + (((hw + " ") + cw) + (" " + cv))
  {
  }

  lemma FixedShape(hv: string, o: string, cv: string)
    ensures hv + ("\n" + (o + (" " + cv))) == (hv + "\n") + (o + (" " + cv))
  {
  }

  lemma FlatFirstPass(v: string, w: string)
    requires Distinct(v, w)
    ensures Sub(FlatCatchBlock, NestedCatch(v, w)) == Rewritten(NestedFixed(v, w), 1)
  {
    var r := FlatCatchBlock;
    var pre := HeadText(Head(v)) + "\n";
    var m := ExampleSite(w);
    var tail := " " + ExampleCall(v);
    var z := " " + (ExampleCall(w) + tail);
    FlatSplit(v, w);
    OuterShape(HeadText(Head(w)), ExampleCall(w), ExampleCall(v));
    FlatOuterMiss(v, NestedBlock(w) + ExampleCall(v), w, z);
    InnerShape(HeadText(Head(w)), ExampleCall(w), ExampleCall(v));
    HeadAfterLead(v, pre, w, z);
    InertAfterHead(r, pre, SpanText(m) + tail);
    SubInert(r, pre, SpanText(m) + tail);
    FlatInnerSite(v, w);
    SubAtSite(r, SpanText(m), CatchOut(m), true, tail);
    CallLacks(v, 'h');
    TailInert(r, tail);
  }

  lemma OuterShape(hw: string, cw: string, cv: string)
    ensures (("\n" + (hw + " ")) + (cw + " ")) + cv == "\n" + (hw + (" " + (cw + (" " + cv))))
  {
  }

  /** The outer head's text and line break start with `catch` and hold no other `h`, and so
      does a text that starts with the inner head. */
  lemma HeadAfterLead(v: string, pre: string, w: string, z: string)
    requires Distinct(v, w) && pre == HeadText(Head(v)) + "\n"
    ensures |pre| >= 5 && pre[..5] == "catch" && 'h' !in pre[5..]
    ensures |HeadText(Head(w)) + z| >= 5 && (HeadText(Head(w)) + z)[..5] == "catch"
  {
    HeadTailLacks(v, 'h');
    PrefixLacks(HeadText(Head(v)), "\n", 'h');
    HeadTailLacks(w, 'h');
    assert (HeadText(Head(w)) + z)[..5] == HeadText(Head(w))[..5];
  }

  /** At the outer head the corrected search meets the inner head before any call of `v`, and
      stops. */
  lemma FlatOuterMiss(v: string, body: string, w: string, z: string)
    requires Distinct(v, w) && body == "\n" + (HeadText(Head(w)) + z)
    ensures MatchAt(FlatCatchBlock, HeadText(Head(v)) + body).None?
  {
    assert HeadWellFormed(Head(v)) by {
      assert IsBlank(" ");
    }
    FlatStopsAtHead(w, z, v);
    FlatNoSite(Head(v), body, HeadText(Head(v)) + body);
  }

  /** A head after which the corrected search finds nothing is no site. */
  lemma FlatNoSite(h: CatchHead, body: string, s: string)
    requires HeadWellFormed(h) && s == HeadText(h) + body && FindCallFlat(body, h.errVar, 0).None?
    ensures MatchAt(FlatCatchBlock, s).None?
  {
    HeadComplete(h, body);
    assert ParseFlat(s).None?;
  }

  /** The corrected search from a line break before a catch head finds nothing. */
  lemma FlatStopsAtHead(w: string, z: string, v: string)
    requires IsName(w)
    ensures FindCallFlat("\n" + (HeadText(Head(w)) + z), v, 0).None?
  {
    var hw := HeadText(Head(w));
    var b := "\n" + (hw + z);
    LeadPassed(b, v);
    assert b[1..] == hw + z;
    HeadStart(w, z);
    CallAtShape(hw + z, v);
    HeadThere(w, z);
    FlatStopAt(b, v, 1);
  }

  /** A line break where no head starts is passed by the corrected search. */
  lemma LeadPassed(b: string, v: string)
    requires |b| > 4 && b[0] == '\n' && b[4] != 'h'
    ensures FindCallFlat(b, v, 0) == FindCallFlat(b, v, 1)
  {
    assert b[0..] == b;
    CallAtShape(b, v);
    NoHeadAt(b);
  }

  lemma HeadThere(w: string, z: string)
    requires IsName(w)
    ensures ParseHead(HeadText(Head(w)) + z).Some?
  {
    assert HeadWellFormed(Head(w)) by {
      assert IsBlank(" ");
    }
    HeadComplete(Head(w), z);
  }

  /** The corrected search stops at a nested head where no call starts. */
  lemma FlatStopAt(b: string, v: string, p: nat)
    requires p < |b| && CallAt(b[p..], v).None? && ParseHead(b[p..]).Some?
    ensures FindCallFlat(b, v, p).None?
  {
  }

  /** A catch head has `c` first and a letter of its variable eighth. */
  lemma HeadStart(w: string, z: string)
    requires IsName(w)
    ensures NoLoggerShape(HeadText(Head(w)) + z)
  {
    var x := HeadText(Head(w)) + z;
    assert x[0] == 'c' && x[7] == w[0];
    WordLacks(w, '.');
  }

  /** The corrected search on the inner catch settles on the one-blank block and the inner
      call, as the intended splice rewrites them. */
  lemma FlatInnerSite(v: string, w: string)
    requires Distinct(v, w)
    ensures var m := ExampleSite(w);
      MatchAt(FlatCatchBlock, SpanText(m) + (" " + ExampleCall(v)))
      == Some(Site(|SpanText(m)|, CatchOut(m), true))
  {
    var m := ExampleSite(w);
    var tail := " " + ExampleCall(v);
    FlatInnerParsed(w, tail);
    BlankUnmarked(w);
    FlatCounted(SpanText(m) + tail, m, tail);
  }

  lemma FlatInnerParsed(w: string, tail: string)
    requires IsName(w)
    ensures ParseFlat(SpanText(ExampleSite(w)) + tail) == Some((ExampleSite(w), tail))
  {
    var m := ExampleSite(w);
    assert HeadWellFormed(m.head) by {
      assert IsBlank(" ");
    }
    BlankFlat(w, tail);
    FlatComplete(m, tail);
  }

  /** A well-formed head, and a corrected block search that found the call right after the
      block: the corrected pattern takes the block and the call. */
  lemma FlatComplete(m: CatchMatch, rest: string)
    requires HeadWellFormed(m.head)
    requires FindCallFlat(m.block + (m.call + rest), m.head.errVar, 0) == Some((|m.block|, |m.call|))
    ensures ParseFlat(SpanText(m) + rest) == Some((m, rest))
  {
    var body := m.block + (m.call + rest);
    Assoc(HeadText(m.head), m.block, m.call);
    Assoc(HeadText(m.head), m.block + m.call, rest);
    Assoc(m.block, m.call, rest);
    HeadComplete(m.head, body);
    BodyParts(m.block, m.call, rest);
    FlatParsed(SpanText(m) + rest, m, rest);
  }

  /** The corrected search from a blank before the example call of `w` takes the blank as the
      block and the call. */
  lemma BlankFlat(w: string, t: string)
    requires IsName(w)
    ensures FindCallFlat(" " + (ExampleCall(w) + t), w, 0) == Some((1, |ExampleCall(w)|))
  {
    var b := " " + (ExampleCall(w) + t);
    assert b[0..] == b;
    CallAtShape(b, w);
    NoHeadAt(b);
    assert b[1..] == ExampleCall(w) + t;
    ExampleLogged(w);
    CallAtComplete(ExampleLog(), w, t);
  }

  /** A head, and a corrected block search that found the call right after the block: the
      corrected pattern takes the block and the call. */
  lemma FlatParsed(s: string, m: CatchMatch, rest: string)
    requires ParseHead(s) == Some((m.head, m.block + (m.call + rest)))
    requires FindCallFlat(m.block + (m.call + rest), m.head.errVar, 0) == Some((|m.block|, |m.call|))
    requires var body := m.block + (m.call + rest);
      |body| >= |m.block| + |m.call| && body[..|m.block|] == m.block
      && body[|m.block|..|m.block| + |m.call|] == m.call && body[|m.block| + |m.call|..] == rest
    ensures ParseFlat(s) == Some((m, rest))
  {
  }

  /** A corrected match whose block holds no marker is a counted site. */
  lemma FlatCounted(s: string, m: CatchMatch, rest: string)
    requires ParseFlat(s) == Some((m, rest)) && !Contains(m.block, Marker(m.head.errVar))
    ensures MatchAt(FlatCatchBlock, s) == Some(Site(|SpanText(m)|, CatchOut(m), true))
  {
    FlatParseSplit(s);
    assert FlatCatchSite(s) == Some(Site(|s| - |rest|, CatchOut(m), true));
  }

  lemma BodyParts(b: string, c: string, rest: string)
    ensures var body := b + (c + rest);
      |body| >= |b| + |c| && body[..|b|] == b && body[|b|..|b| + |c|] == c && body[|b| + |c|..] == rest
  {
  }

  lemma FlatSecondPass(v: string, w: string)
    requires Distinct(v, w)
    ensures Sub(FlatCatchBlock, NestedFixed(v, w)) == Rewritten(NestedFixed(v, w), 0)
  {
    var r := FlatCatchBlock;
    var pre := HeadText(Head(v)) + "\n";
    var hw := HeadText(Head(w));
    var z := (Handler("    ", w) + (" " + ExampleCall("err"))) + (" " + ExampleCall(v));
    var y := CatchOut(ExampleSite(w)) + (" " + ExampleCall(v));
    FlatSplit(v, w);
    InnerFixed(w);
    FixedInner(hw, Handler("    ", w), ExampleCall("err"), ExampleCall(v));
    assert y == hw + z;
    FlatOuterMiss(v, "\n" + y, w, z);
    assert NestedFixed(v, w) == HeadText(Head(v)) + ("\n" + y);
    HeadAfterLead(v, pre, w, z);
    InertAfterHead(r, pre, y);
    FixedInnerQuiet(v, w);
    FixedNoMatch(w, z);
    NoMatchConcat(r, pre, y);
    SubNoMatch(r, pre + y);
  }

  lemma FixedInner(hw: string, hd: string, ce: string, cv: string)
    ensures ((hw + (hd + (" " + ce))) + (" " + cv)) == hw + ((hd + (" " + ce)) + (" " + cv))
  {
  }

  /** The intended splice of the inner catch: its head, the handler line with four blanks, and
      the inner call retargeted to `err`. */
  lemma InnerFixed(w: string)
    requires IsName(w)
    ensures CatchOut(ExampleSite(w)) == HeadText(Head(w)) + (Handler("    ", w) + (" " + ExampleCall("err")))
  {
    var m := ExampleSite(w);
    assert Indent(" ") == "    ";
    ExampleLead(w);
    ExampleLead("err");
    assert AllIn(" " + CallLead(), Except(','));
    RetargetCall(" " + CallLead(), w);
    assert m.block + m.call == (" " + CallLead()) + (", " + w + ")");
    assert " " + ExampleCall("err") == (" " + CallLead()) + ", err)";
  }

  /** After the inner head of the fixed text: no call of `w`, no `}` and no `h`. */
  lemma FixedInnerQuiet(v: string, w: string)
    requires Distinct(v, w)
    ensures var z := (Handler("    ", w) + (" " + ExampleCall("err"))) + (" " + ExampleCall(v));
      Quiet(z, [], w) && 'h' !in z
  {
    var e: string := [];
    var ce := ExampleCall("err");
    var cv := ExampleCall(v);
    ArgsEndOther(v, w, e);
    ExampleCallQuiet(v, w, e);
    BlankQuiet(cv + e, w);
    ArgsEndErr(w, (" " + cv) + e);
    SpaceCallNoDot(v);
    PrefixNoDot(" " + cv, e);
    ExampleCallQuiet("err", w, (" " + cv) + e);
    BlankQuiet(ce + ((" " + cv) + e), w);
    HandlerQuiet(w, (" " + ce) + ((" " + cv) + e));
    QuietFive(Handler("    ", w), ce, cv, w);
    HandlerLacksH(w);
    CallLacks("err", 'h');
    CallLacks(v, 'h');
  }

  lemma SpaceCallNoDot(u: string)
    ensures |" " + ExampleCall(u)| >= 7 && forall i :: 0 <= i < 7 ==> (" " + ExampleCall(u))[i] != '.'
  {
    CallStartNoDot(u);
  }

  lemma QuietFive(hd: string, ce: string, cv: string, v: string)
    requires Quiet(cv, [], v) && Quiet(" ", cv + [], v) && Quiet(ce, (" " + cv) + [], v)
    requires Quiet(" ", ce + ((" " + cv) + []), v) && Quiet(hd, (" " + ce) + ((" " + cv) + []), v)
    ensures Quiet((hd + (" " + ce)) + (" " + cv), [], v)
  {
    var e: string := [];
    QuietJoin(" ", cv, e, v);
    QuietJoin(" ", ce, (" " + cv) + e, v);
    QuietJoin(hd, " " + ce, (" " + cv) + e, v);
    assert (hd + (" " + ce)) + ((" " + cv) + e) == (hd + (" " + ce)) + (" " + cv) + e;
    QuietJoin(ce, " " + cv, e, v);
    QuietJoin(hd + (" " + ce), " " + cv, e, v);
  }

  /** The corrected search matches nowhere in the fixed inner catch: after its head there is no
      call of its variable, and no other head. */
  lemma FixedNoMatch(w: string, z: string)
    requires IsName(w) && 'h' !in w && Quiet(z, [], w) && 'h' !in z
    ensures NoMatch(FlatCatchBlock, HeadText(Head(w)) + z)
  {
    var x := HeadText(Head(w)) + z;
    FixedHeadMiss(w, z);
    HeadTailLacks(w, 'h');
    PrefixLacks(HeadText(Head(w)), z, 'h');
    NoMatchFromStart(FlatCatchBlock, x);
  }

  lemma FixedHeadMiss(w: string, z: string)
    requires IsName(w) && Quiet(z, [], w) && 'h' !in z
    ensures MatchAt(FlatCatchBlock, HeadText(Head(w)) + z).None?
  {
    assert HeadWellFormed(Head(w)) by {
      assert IsBlank(" ");
    }
    QuietNoFlat(z, w);
    FlatNoSite(Head(w), z, HeadText(Head(w)) + z);
  }

  /** Where no call, `}` or head starts, the corrected search runs to the end and finds
      nothing. */
  lemma QuietNoFlat(z: string, w: string)
    requires Quiet(z, [], w) && 'h' !in z
    ensures FindCallFlat(z, w, 0).None?
  {
    assert z + [] == z;
    HeadFreeText(z);
    FlatSkips(z, w, 0, |z|);
    assert z[|z|..] == [];
    CallAtShape([], w);
  }

  /** `catch` followed by a text without `h`, where the rule does not match at the start: the
      rule matches nowhere. */
  lemma NoMatchFromStart(r: Rule, x: string)
    requires CatchLike(r) && |x| >= 5 && x[..5] == "catch" && 'h' !in x[5..] && MatchAt(r, x).None?
    ensures NoMatch(r, x)
  {
    var e: string := [];
    HeadFree(r, x[..5], x[5..], e, 1);
    assert (x[..5] + x[5..]) + e == x;
    assert x[0..] == x;
  }
}
