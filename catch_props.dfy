/** Properties of `fix_catch`: the handler line it inserts, how it retargets the logging call,
    that a rewritten catch block is never rewritten again, and how the callback as written
    departs from the intended splice. */
module CatchProperties {
  import opened Text
  import opened Options
  import opened Rules
  import opened CatchRule
  import opened Rewrite

  /** The handler line holds no `.`, no `}` and no `,`, and ends with `;`. */
  lemma HandlerChars(indent: string, v: string)
    requires IsBlank(indent) && IsName(v)
    ensures '.' !in Handler(indent, v) && '}' !in Handler(indent, v) && ',' !in Handler(indent, v)
    ensures Handler(indent, v)[|Handler(indent, v)| - 1] == ';'
  {
    NotInHandler(indent, v, '.');
    NotInHandler(indent, v, '}');
    NotInHandler(indent, v, ',');
  }

  /** A character that is neither blank nor a word character nor in the handler's fixed text
      is not in the handler line. */
  lemma NotInHandler(indent: string, v: string, c: char)
    requires IsBlank(indent) && IsName(v) && (c == '.' || c == '}' || c == ',')
    ensures c !in Handler(indent, v)
  {
    NotInClass(indent, Space, c);
    NotInClass(v, Word, c);
    NotInJoin("\n", indent, c);
    NotInJoin("\n" + indent, Marker(v), c);
    NotInJoin("\n" + indent + Marker(v), " ? ", c);
    NotInJoin("\n" + indent + Marker(v) + " ? ", v, c);
    NotInJoin("\n" + indent + Marker(v) + " ? " + v, " : new Error(String(", c);
    NotInJoin("\n" + indent + Marker(v) + " ? " + v + " : new Error(String(", v, c);
    NotInJoin("\n" + indent + Marker(v) + " ? " + v + " : new Error(String(" + v, "));", c);
  }

  lemma NotInJoin(x: string, y: string, c: char)
    requires c !in x && c !in y
    ensures c !in x + y
  {
  }

  /** A logger name (whose `.` is at `d`, with no `;` before it) does not start inside a text
      without `.` that ends with `;`. */
  lemma NoNameAt(h: string, tail: string, p: nat, name: string, d: nat)
    requires '.' !in h && h != [] && h[|h| - 1] == ';' && p < |h|
    requires d < |name| && name[d] == '.' && forall j :: 0 <= j < d ==> name[j] != ';'
    ensures !(name <= (h + tail)[p..])
  {
    var x := (h + tail)[p..];
    var k := if p + d < |h| then d else |h| - 1 - p;
    assert x[k] == h[p + k];
    Mismatch(x, 0, name, k);
  }

  /** No logging call and no `}` starts inside the handler line. */
  lemma HandlerInert(indent: string, v: string, tail: string, p: nat)
    requires IsBlank(indent) && IsName(v) && p < |Handler(indent, v)|
    ensures CallAt((Handler(indent, v) + tail)[p..], v).None?
    ensures (Handler(indent, v) + tail)[p] != '}'
  {
    var h := Handler(indent, v);
    HandlerChars(indent, v);
    NoNameAt(h, tail, p, LoggerCall, 6);
    NoNameAt(h, tail, p, ConsoleCall, 7);
  }

  /** The handler line carries the marker the callback looks for. */
  lemma HandlerMarked(indent: string, v: string)
    ensures Contains(Handler(indent, v), Marker(v))
  {
    var h := Handler(indent, v);
    assert h == "\n" + indent + Marker(v) + (" ? " + v + " : new Error(String(" + v + "));");
    assert h[1 + |indent|..1 + |indent| + |Marker(v)|] == Marker(v);
    ContainsAt(h, 1 + |indent|, Marker(v));
  }

  /** The rewritten site keeps the head as matched and puts the handler line, with the
      block's indentation and the marker, right after the `{`. */
  lemma CatchOutLayout(m: CatchMatch)
    ensures HeadText(m.head) + "\n" + Indent(m.block) + Marker(m.head.errVar) <= CatchOut(m)
  {
    var v := m.head.errVar;
    var p := "\n" + Indent(m.block) + Marker(v);
    var x := " ? " + v + " : new Error(String(" + v + "));";
    var h := Handler(Indent(m.block), v);
    assert h == p + x;
    var r := Retarget(m.block + m.call, v);
    assert CatchOut(m) == HeadText(m.head) + h + r;
    Assoc(HeadText(m.head), p, x);
    Assoc(HeadText(m.head) + p, x, r);
    assert HeadText(m.head) + "\n" + Indent(m.block) + Marker(v) == HeadText(m.head) + p;
  }

  /** The same layout for the callback as written, where its replace-all agrees with the
      splice. */
  lemma CatchOutAsWrittenLayout(m: CatchMatch)
    requires HeadWellFormed(m.head) && BlockOnce(m)
    ensures HeadText(m.head) + "\n" + Indent(m.block) + Marker(m.head.errVar) <= CatchOutAsWritten(m)
  {
    CatchAgree(m);
    CatchOutLayout(m);
  }

  /** A site matched with a body that starts with a text holding the marker, inside which no
      call and no `}` starts, is kept and not counted. */
  lemma MarkedBodyKept(t: Template, s: string, head: CatchHead, lead: string, tail: string)
    requires ParseHead(s) == Some((head, lead + tail))
    requires Contains(lead, Marker(head.errVar))
    requires forall j :: 0 <= j < |lead| ==> CallAt((lead + tail)[j..], head.errVar).None? && (lead + tail)[j] != '}'
    ensures var r := MatchAt(CatchBlock(t), s); r.None? || !r.value.counted
  {
    var body := lead + tail;
    var v := head.errVar;
    FindCallSkips(body, v, 0, |lead|);
    if FindCall(body, v, 0).Some? {
      var p := FindCall(body, v, 0).value.0;
      MarkedLead(lead, tail, p, Marker(v));
    }
    MarkedBlockKept(t, s, head, body);
  }

  /** A site whose block holds the marker is kept and not counted. */
  lemma MarkedBlockKept(t: Template, s: string, h: CatchHead, body: string)
    requires ParseHead(s) == Some((h, body))
    requires FindCall(body, h.errVar, 0).Some? ==>
      Contains(body[..FindCall(body, h.errVar, 0).value.0], Marker(h.errVar))
    ensures var r := MatchAt(CatchBlock(t), s); r.None? || !r.value.counted
  {
    CatchSiteOf(t, s, h, body);
    assert MatchAt(CatchBlock(t), s) == CatchSite(t, s);
  }

  /** A block that extends a text holding the marker holds it too. */
  lemma MarkedLead(lead: string, tail: string, p: nat, marker: string)
    requires Contains(lead, marker) && |lead| <= p <= |lead + tail|
    ensures Contains((lead + tail)[..p], marker)
  {
    var body := lead + tail;
    var x := body[..p][|lead|..];
    assert body[..p] == lead + x;
    ContainsExtend([], lead, x, marker);
    assert [] + lead + x == body[..p];
  }

  /** A rewritten catch block is never rewritten again: a second pass over it (whatever follows)
      either matches no catch there, or matches one whose block now starts with the handler
      line, which it keeps unchanged and does not count. */
  lemma CatchRewriteStable(t: Template, m: CatchMatch, rest: string)
    requires HeadWellFormed(m.head)
    ensures var r := MatchAt(CatchBlock(t), CatchOut(m) + rest); r.None? || !r.value.counted
  {
    var v := m.head.errVar;
    var indent := Indent(m.block);
    var h := Handler(indent, v);
    var tail := Retarget(m.block + m.call, v) + rest;
    var s := CatchOut(m) + rest;
    Assoc(HeadText(m.head) + h, Retarget(m.block + m.call, v), rest);
    Assoc(HeadText(m.head), h, tail);
    assert s == HeadText(m.head) + (h + tail);
    HeadComplete(m.head, h + tail);
    forall j | 0 <= j < |h|
      ensures CallAt((h + tail)[j..], v).None? && (h + tail)[j] != '}'
    {
      HandlerInert(indent, v, tail, j);
    }
    HandlerMarked(indent, v);
    MarkedBodyKept(t, s, m.head, h, tail);
  }

  /** The same for the callback as written, where its replace-all agrees with the splice. */
  lemma CatchRewriteStableAsWritten(t: Template, m: CatchMatch, rest: string)
    requires HeadWellFormed(m.head) && BlockOnce(m)
    ensures var r := MatchAt(CatchBlock(t), CatchOutAsWritten(m) + rest); r.None? || !r.value.counted
  {
    CatchAgree(m);
    CatchRewriteStable(t, m, rest);
  }

  /** The corrected rule does not count again a catch it rewrote: the handler holds no call,
      so the corrected search settles on a block that holds the whole handler and its marker. */
  lemma FlatRewriteStable(m: CatchMatch, rest: string)
    requires HeadWellFormed(m.head)
    ensures var r := MatchAt(FlatCatchBlock, CatchOut(m) + rest); r.None? || !r.value.counted
  {
    var v := m.head.errVar;
    var indent := Indent(m.block);
    var h := Handler(indent, v);
    var tail := Retarget(m.block + m.call, v) + rest;
    var s := CatchOut(m) + rest;
    Assoc(HeadText(m.head) + h, Retarget(m.block + m.call, v), rest);
    Assoc(HeadText(m.head), h, tail);
    assert s == HeadText(m.head) + (h + tail);
    HeadComplete(m.head, h + tail);
    forall j | 0 <= j < |h|
      ensures CallAt((h + tail)[j..], v).None?
    {
      HandlerInert(indent, v, tail, j);
    }
    HandlerMarked(indent, v);
    FlatMarkedKept(s, m.head, h, tail);
  }

  /** Where no call starts inside a lead that holds the marker, the corrected rule keeps the
      site uncounted or does not match. */
  lemma FlatMarkedKept(s: string, head: CatchHead, lead: string, tail: string)
    requires ParseHead(s) == Some((head, lead + tail))
    requires Contains(lead, Marker(head.errVar))
    requires forall j :: 0 <= j < |lead| ==> CallAt((lead + tail)[j..], head.errVar).None?
    ensures var r := MatchAt(FlatCatchBlock, s); r.None? || !r.value.counted
  {
    var body := lead + tail;
    var v := head.errVar;
    if FindCallFlat(body, v, 0).Some? {
      FlatBlock(body, v, 0);
      var p := FindCallFlat(body, v, 0).value.0;
      assert |lead| <= p;
      MarkedLead(lead, tail, p, Marker(v));
    }
    FlatMarkedBlockKept(s, head, body);
  }

  /** A site whose block, as the corrected search settles on it, holds the marker is kept and
      not counted. */
  lemma FlatMarkedBlockKept(s: string, h: CatchHead, body: string)
    requires ParseHead(s) == Some((h, body))
    requires FindCallFlat(body, h.errVar, 0).Some? ==>
      Contains(body[..FindCallFlat(body, h.errVar, 0).value.0], Marker(h.errVar))
    ensures var r := MatchAt(FlatCatchBlock, s); r.None? || !r.value.counted
  {
    assert ParseFlat(s) == ParseFlatBlock(h, body);
    assert MatchAt(FlatCatchBlock, s) == FlatCatchSite(s);
  }

  /** Retargeting: after a block and call head without a comma, the closing `, v)` becomes
      `, err)` and nothing else changes. */
  lemma RetargetCall(lead: string, v: string)
    requires AllIn(lead, Except(','))
    ensures Retarget(lead + (", " + v + ")"), v) == lead + ", err)"
  {
    var pat := ", " + v + ")";
    ReplaceAllSkipsPrefix(lead, pat, pat, ", err)");
    ReplaceAllHere(pat, [], ", err)");
    assert pat + [] == pat;
  }

  // ---------------------------------------------------------------------------------------
  // The callback as written: `match.group(0).replace(block, handler + block)`

  /** The head of a catch holds no `,`. */
  lemma HeadNoComma(h: CatchHead)
    requires HeadWellFormed(h)
    ensures AllIn(HeadText(h), Except(','))
  {
    NotInClass(h.beforeParen, Space, ',');
    NotInClass(h.errVar, Word, ',');
    NotInClass(h.beforeBrace, Space, ',');
    assert ',' !in HeadText(h);
  }

  /** Replacing a text that occurs only at one place replaces it there alone. */
  lemma ReplaceOnce(a: string, pat: string, x: string, rep: string)
    requires pat != []
    requires forall i :: 0 <= i <= |a + (pat + x)| - |pat| && StartsAt(a + (pat + x), i, pat) ==> i == |a|
    ensures ReplaceAll(a + (pat + x), pat, rep) == a + (rep + x)
  {
    var s := a + (pat + x);
    forall i | 0 <= i < |a|
      ensures !StartsAt(s, i, pat)
    {
    }
    ReplaceAllNoEarly(a, pat + x, pat, rep);
    ReplaceAllHere(pat, x, rep);
    LaterAbsent(a, pat, x);
    ReplaceAllAbsent(x, pat, rep);
  }

  /** An occurrence in `x` would be one in `a + (pat + x)` past `pat`. */
  lemma LaterAbsent(a: string, pat: string, x: string)
    requires pat != []
    requires forall i :: 0 <= i <= |a + (pat + x)| - |pat| && StartsAt(a + (pat + x), i, pat) ==> i == |a|
    ensures !Contains(x, pat)
  {
    var s := a + (pat + x);
    forall i | 0 <= i <= |x| - |pat|
      ensures StartsAt(x, i, pat) ==> StartsAt(s, |a| + |pat| + i, pat)
    {
      if StartsAt(x, i, pat) {
        assert s[|a| + |pat| + i..|a| + |pat| + i + |pat|] == x[i..i + |pat|];
      }
    }
  }

  /** The block is not empty and its text occurs in the matched span only where the block
      stands. */
  predicate BlockOnce(m: CatchMatch) {
    && m.block != []
    && forall i :: 0 <= i <= |SpanText(m)| - |m.block| && StartsAt(SpanText(m), i, m.block)
         ==> i == |HeadText(m.head)|
  }

  /** Where the block occurs once, the callback as written inserts the handler exactly in front
      of the block, as intended. */
  lemma CatchAgree(m: CatchMatch)
    requires HeadWellFormed(m.head) && BlockOnce(m)
    ensures CatchOutAsWritten(m) == CatchOut(m)
  {
    var v := m.head.errVar;
    var ht := HeadText(m.head);
    var h := Handler(Indent(m.block), v);
    var rep := h + m.block;
    Assoc(ht, m.block, m.call);
    assert SpanText(m) == ht + (m.block + m.call);
    ReplaceOnce(ht, m.block, m.call, rep);
    HeadNoComma(m.head);
    HandlerChars(Indent(m.block), v);
    Assoc(h, m.block, m.call);
    Assoc(ht, h, m.block + m.call);
    assert ht + (rep + m.call) == (ht + h) + (m.block + m.call);
    ReplaceAllSkipsPrefix(ht + h, m.block + m.call, ", " + v + ")", ", err)");
  }

  /** `console.error('x', v)`: a logging call whose last argument is `v`. */
  function ExampleCall(v: string): string {
    ConsoleCall + ("(" + ("'x'" + (", " + (v + ")"))))
  }

  /** `catch (v) { console.error('x', v)`, split as the pattern splits it: the block is the
      single blank before the call. */
  function ExampleSite(v: string): CatchMatch {
    CatchMatch(CatchHead(" ", v, " "), " ", ExampleCall(v))
  }

  /** On `catch (v) { console.error('x', v)` the pattern settles on the single blank before the
      call as the block, which holds no marker. The callback as written replaces every blank of
      the matched span, the two in the head included, so its text no longer starts with the
      head; the intended splice keeps the head and starts the handler line right after `{`. */
  lemma CatchAsWrittenBreaksHead(v: string)
    requires IsName(v)
    ensures ParseCatch(SpanText(ExampleSite(v))) == Some((ExampleSite(v), ""))
    ensures !Contains(ExampleSite(v).block, Marker(v))
    ensures "catch\n" <= CatchOutAsWritten(ExampleSite(v))
    ensures !(HeadText(ExampleSite(v).head) <= CatchOutAsWritten(ExampleSite(v)))
    ensures HeadText(ExampleSite(v).head) + "\n" <= CatchOut(ExampleSite(v))
  {
    var m := ExampleSite(v);
    ExampleParsed(v);
    assert |Marker(v)| > |m.block|;
    AsWrittenSplitsHead(m);
    assert HeadText(m.head)[5] == ' ';
    ExampleIntended(v);
  }

  lemma ExampleParsed(v: string)
    requires IsName(v)
    ensures ParseCatch(SpanText(ExampleSite(v))) == Some((ExampleSite(v), ""))
  {
    var m := ExampleSite(v);
    var body := " " + m.call;
    assert HeadWellFormed(m.head) by {
      assert IsBlank(" ");
    }
    Assoc(HeadText(m.head), " ", m.call);
    HeadComplete(m.head, body);
    ExampleCallFound(v);
    ParseCatchOf(SpanText(m), m.head, body);
    Slices(" ", m.call);
  }

  lemma Slices(a: string, x: string)
    ensures (a + x)[..|a|] == a && (a + x)[|a|..|a| + |x|] == x && (a + x)[|a| + |x|..] == []
  {
  }

  /** The block search passes over the blank and finds the call right after it. */
  lemma ExampleCallFound(v: string)
    requires IsName(v)
    ensures FindCall(" " + ExampleCall(v), v, 0) == Some((1, |ExampleCall(v)|))
  {
    var body := " " + ExampleCall(v);
    ExampleCallAt(v);
    assert body[1..] == ExampleCall(v);
    assert FindCall(body, v, 1) == Some((1, |ExampleCall(v)|));
    assert body[0..][0] == ' ';
  }

  /** Whenever the block is a single blank and a blank follows `catch`, the callback as written
      puts the handler line right after `catch`, inside the head. */
  lemma AsWrittenSplitsHead(m: CatchMatch)
    requires m.block == " " && m.head.beforeParen != [] && m.head.beforeParen[0] == ' '
    ensures "catch\n" <= CatchOutAsWritten(m)
  {
    var ht := HeadText(m.head);
    var r := ht[5..];
    assert ht == "catch" + r && r[0] == ' ';
    var rest := r[1..] + (m.block + m.call);
    assert r == " " + r[1..];
    Assoc(ht, m.block, m.call);
    Assoc("catch", r, m.block + m.call);
    Assoc(" ", r[1..], m.block + m.call);
    assert SpanText(m) == "catch" + (" " + rest);
    var h := Handler(Indent(m.block), m.head.errVar);
    var rep := h + m.block;
    ReplaceAllSkipsPrefix("catch", " " + rest, " ", rep);
    ReplaceAllHere(" ", rest, rep);
    var tail := ReplaceAll(rest, " ", rep);
    var x := "catch" + (rep + tail);
    assert x[5] == h[0] == '\n';
    assert x[..6] == "catch\n";
    assert x == x[..6] + x[6..];
    RetargetKeepsLead(x[..6], x[6..], m.head.errVar);
  }

  /** Retargeting leaves a comma-free start of the text alone. */
  lemma RetargetKeepsLead(lead: string, y: string, v: string)
    requires AllIn(lead, Except(','))
    ensures lead <= Retarget(lead + y, v)
  {
    ReplaceAllSkipsPrefix(lead, y, ", " + v + ")", ", err)");
  }

  lemma ExampleIntended(v: string)
    ensures HeadText(ExampleSite(v).head) + "\n" <= CatchOut(ExampleSite(v))
  {
    var m := ExampleSite(v);
    CatchOutLayout(m);
    var lead := HeadText(m.head) + "\n";
    assert lead <= HeadText(m.head) + "\n" + Indent(m.block) + Marker(m.head.errVar);
  }

  /** The argument search passes over a character that is neither `,` nor `)`. */
  lemma ArgsStep(a: string, v: string, m: nat)
    requires m < |a| && a[m] != ',' && a[m] != ')'
    ensures FindArgsEnd(a, v, m) == FindArgsEnd(a, v, m + 1)
  {
    assert a[m..][0] == a[m];
  }

  /** `, v)` ends the arguments. */
  lemma ArgsEndOf(v: string)
    requires IsName(v)
    ensures ArgsEnd(", " + (v + ")"), v) == Some(|v| + 3)
  {
    var y := ", " + (v + ")");
    assert y[1..] == " " + (v + ")");
    assert !IsSpace((v + ")")[0]) by {
      assert (v + ")")[0] == v[0];
    }
    SpanOf(" ", v + ")", Space);
    assert (v + ")")[|v|..] == [] + ")";
    SpanOf([], ")", Space);
  }

  /** The lazy argument search on the example's call settles on its last argument. */
  lemma ExampleArgs(v: string)
    requires IsName(v)
    ensures FindArgsEnd("'x'" + (", " + (v + ")")), v, 0) == Some(|v| + 6)
  {
    var a := "'x'" + (", " + (v + ")"));
    ExampleArgsEnd(v);
    assert a[..3] == "'x'";
    ArgsStep(a, v, 2);
    ArgsStep(a, v, 1);
    ArgsStep(a, v, 0);
  }

  lemma ExampleArgsEnd(v: string)
    requires IsName(v)
    ensures FindArgsEnd("'x'" + (", " + (v + ")")), v, 3) == Some(|v| + 6)
  {
    var a := "'x'" + (", " + (v + ")"));
    assert a[3..] == ", " + (v + ")");
    ArgsEndOf(v);
    ArgsEndHere(a, v, 3, |v| + 3);
  }

  /** Where the end of the arguments matches, the search stops. */
  lemma ArgsEndHere(a: string, v: string, m: nat, k: nat)
    requires m <= |a| && ArgsEnd(a[m..], v) == Some(k)
    ensures FindArgsEnd(a, v, m) == Some(m + k)
  {
  }

  /** The logging call of the example spans all of its text. */
  lemma ExampleCallAt(v: string)
    requires IsName(v)
    ensures CallAt(ExampleCall(v), v) == Some(|ExampleCall(v)|)
  {
    var a := "'x'" + (", " + (v + ")"));
    ExampleArgs(v);
    assert ExampleCall(v) == ConsoleCall + ([] + ("(" + a));
    CallAtOf(ConsoleCall, [], a, v);
  }
}
