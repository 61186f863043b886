/** The catch-block rule: the pattern
      catch\s*\((\w+)\)\s*\{([^}]*?)(?:logger\.error|console\.error)\s*\([^\)]*?,\s*\1\s*\)
    with its two lazy searches written out in the order Python's `re` tries them, and the
    callback that inserts an `Error` normalisation line and retargets the logging call. */
module CatchRule {
  import opened Text
  import opened Options
  import opened Rules

  // ---------------------------------------------------------------------------------------
  // `catch\s*\((\w+)\)\s*\{`

  /** The blanks before `(` and before `{`, and the caught variable. */
  datatype CatchHead = CatchHead(beforeParen: string, errVar: string, beforeBrace: string)

  predicate HeadWellFormed(h: CatchHead) {
    IsBlank(h.beforeParen) && IsName(h.errVar) && IsBlank(h.beforeBrace)
  }

  function HeadText(h: CatchHead): string {
    "catch" + (h.beforeParen + ("(" + (h.errVar + (")" + (h.beforeBrace + "{")))))
  }

  function ParseHead(s: string): Option<(CatchHead, string)> {
    if !("catch" <= s) then None
    else
      var (w1, r0) := Span(s[5..], Space);
      if !("(" <= r0) then None
      else
        var (v, r1) := Span(r0[1..], Word);
        if v == [] || !(")" <= r1) then None
        else
          var (w2, r2) := Span(r1[1..], Space);
          if !("{" <= r2) then None else Some((CatchHead(w1, v, w2), r2[1..]))
  }

  lemma HeadAssoc(h: CatchHead, rest: string)
    ensures HeadText(h) + rest
         == "catch" + (h.beforeParen + ("(" + (h.errVar + (")" + (h.beforeBrace + ("{" + rest))))))
  {
    Assoc(h.beforeBrace, "{", rest);
    Assoc(")", h.beforeBrace + "{", rest);
    Assoc(h.errVar, ")" + (h.beforeBrace + "{"), rest);
    Assoc("(", h.errVar + (")" + (h.beforeBrace + "{")), rest);
    Assoc(h.beforeParen, "(" + (h.errVar + (")" + (h.beforeBrace + "{"))), rest);
    Assoc("catch", h.beforeParen + ("(" + (h.errVar + (")" + (h.beforeBrace + "{")))), rest);
  }

  lemma HeadSound(s: string)
    requires ParseHead(s).Some?
    ensures var (h, body) := ParseHead(s).value; HeadWellFormed(h) && s == HeadText(h) + body
  {
    var (w1, r0) := Span(s[5..], Space);
    var (v, r1) := Span(r0[1..], Word);
    var (w2, r2) := Span(r1[1..], Space);
    var (h, body) := ParseHead(s).value;
    assert r2 == "{" + body;
    assert r1 == ")" + r1[1..];
    assert r0 == "(" + r0[1..];
    assert s == "catch" + s[5..];
    HeadAssoc(h, body);
  }

  lemma HeadComplete(h: CatchHead, body: string)
    requires HeadWellFormed(h)
    ensures ParseHead(HeadText(h) + body) == Some((h, body))
  {
    var x2 := h.beforeBrace + ("{" + body);
    var x1 := h.errVar + (")" + x2);
    var x0 := h.beforeParen + ("(" + x1);
    HeadAssoc(h, body);
    assert (HeadText(h) + body)[5..] == x0;
    SpanOf(h.beforeParen, "(" + x1, Space);
    assert ("(" + x1)[1..] == x1;
    SpanOf(h.errVar, ")" + x2, Word);
    assert (")" + x2)[1..] == x2;
    SpanOf(h.beforeBrace, "{" + body, Space);
    assert ("{" + body)[1..] == body;
  }

  // ---------------------------------------------------------------------------------------
  // `(?:logger\.error|console\.error)\s*\([^\)]*?,\s*\1\s*\)`

  const LoggerCall: string := "logger.error"
  const ConsoleCall: string := "console.error"

  /** `,\s*\1\s*\)` at the start of `y`: the length it spans. */
  function ArgsEnd(y: string, v: string): (r: Option<nat>)
    ensures r.Some? ==> 0 < r.value <= |y|
  {
    if !("," <= y) then None
    else
      var (w1, r0) := Span(y[1..], Space);
      if !(v <= r0) then None
      else
        var (w2, r1) := Span(r0[|v|..], Space);
        if !(")" <= r1) then None else Some(|y| - |r1| + 1)
  }

  /** `,\s*v\s*\)`: the comma, the blanks around the caught variable, and the closing `)`. */
  function ArgsTail(w1: string, v: string, w2: string): string {
    "," + (w1 + (v + (w2 + ")")))
  }

  /** `,\s*v\s*\)` matches at the start of `y`. */
  ghost predicate EndsArgs(y: string, v: string) {
    exists w1, w2 :: IsBlank(w1) && IsBlank(w2) && ArgsTail(w1, v, w2) <= y
  }

  /** The end of the arguments that `ArgsEnd` takes is a comma, blanks, the variable, blanks
      and `)`. */
  lemma ArgsEndParts(y: string, v: string) returns (w1: string, w2: string)
    requires ArgsEnd(y, v).Some?
    ensures IsBlank(w1) && IsBlank(w2) && y[..ArgsEnd(y, v).value] == ArgsTail(w1, v, w2)
  {
    var (a1, r0) := Span(y[1..], Space);
    var (a2, r1) := Span(r0[|v|..], Space);
    w1, w2 := a1, a2;
    TailNest(y, w1, r0, v, w2, r1);
  }

  /** The comma, the blanks, the variable, the blanks and the `)` found one after the other
      make up the end of the arguments. */
  lemma TailNest(y: string, w1: string, r0: string, v: string, w2: string, r1: string)
    requires "," <= y && y[1..] == w1 + r0 && v <= r0 && r0[|v|..] == w2 + r1 && ")" <= r1
    ensures y[..|y| - |r1| + 1] == ArgsTail(w1, v, w2)
  {
    PrefixRest(y, ",");
    PrefixRest(r0, v);
    PrefixRest(r1, ")");
    TailJoin(y, w1, v, w2, r1[1..]);
  }

  lemma PrefixRest(x: string, p: string)
    requires p <= x
    ensures x == p + x[|p|..]
  {
  }

  lemma TailJoin(y: string, w1: string, v: string, w2: string, z: string)
    requires y == "," + (w1 + (v + (w2 + (")" + z))))
    ensures y[..|y| - |z|] == ArgsTail(w1, v, w2)
  {
    assert y == ArgsTail(w1, v, w2) + z;
  }

  /** Every end of the arguments is taken, with its length. */
  lemma ArgsEndComplete(w1: string, v: string, w2: string, rest: string)
    requires IsBlank(w1) && IsName(v) && IsBlank(w2)
    ensures ArgsEnd(ArgsTail(w1, v, w2) + rest, v) == Some(|ArgsTail(w1, v, w2)|)
  {
    var y := ArgsTail(w1, v, w2) + rest;
    var x2 := w2 + (")" + rest);
    var x1 := v + x2;
    assert y == "," + (w1 + x1);
    assert y[1..] == w1 + x1;
    assert x1[0] == v[0] && IsWordChar(v[0]);
    SpanOf(w1, x1, Space);
    assert x1[|v|..] == x2;
    SpanOf(w2, ")" + rest, Space);
  }

  /** `ArgsEnd` matches exactly where `,\s*v\s*\)` does. */
  lemma ArgsEndExact(y: string, v: string)
    requires IsName(v)
    ensures ArgsEnd(y, v).Some? <==> EndsArgs(y, v)
  {
    if ArgsEnd(y, v).Some? {
      var w1, w2 := ArgsEndParts(y, v);
      assert ArgsTail(w1, v, w2) <= y;
    }
    if EndsArgs(y, v) {
      var w1, w2 :| IsBlank(w1) && IsBlank(w2) && ArgsTail(w1, v, w2) <= y;
      var t := ArgsTail(w1, v, w2);
      assert y == t + y[|t|..];
      ArgsEndComplete(w1, v, w2, y[|t|..]);
    }
  }

  /** The end of the arguments holds `)` only as its last character. */
  lemma TailParen(w1: string, v: string, w2: string)
    requires IsBlank(w1) && AllIn(v, Word) && IsBlank(w2)
    ensures var t := ArgsTail(w1, v, w2); t[|t| - 1] == ')' && AllIn(t[..|t| - 1], Except(')'))
  {
    var t := ArgsTail(w1, v, w2);
    assert t[..|t| - 1] == "," + (w1 + (v + w2));
    NotInClass(w1, Space, ')');
    NotInClass(v, Word, ')');
    NotInClass(w2, Space, ')');
  }

  /** An end of the arguments that starts before the `)` of a run without `)` followed by an
      end of the arguments is that end itself: both run to the first `)`. */
  lemma EndsArgsCut(p: string, w1: string, v: string, w2: string, rest: string)
    requires AllIn(p, Except(')')) && IsBlank(w1) && IsName(v) && IsBlank(w2)
    ensures EndsArgs(p + ArgsTail(w1, v, w2) + rest, v) ==> EndsArgs(p + ArgsTail(w1, v, w2), v)
  {
    if EndsArgs(p + ArgsTail(w1, v, w2) + rest, v) {
      var t := ArgsTail(w1, v, w2);
      var y := p + t + rest;
      var x1, x2 :| IsBlank(x1) && IsBlank(x2) && ArgsTail(x1, v, x2) <= y;
      var u := ArgsTail(x1, v, x2);
      var l, n := |u|, |p + t|;
      TailParen(w1, v, w2);
      TailParen(x1, v, x2);
      assert y[..l - 1] == u[..l - 1] && y[l - 1] == ')';
      assert y[..n - 1] == p + t[..|t| - 1] && y[n - 1] == ')';
      SameParen(y, l, n);
      assert u == y[..n] == p + t;
    }
  }

  /** Two positions of `)` before which there is none are the same. */
  lemma SameParen(y: string, l: nat, n: nat)
    requires 1 <= l <= |y| && 1 <= n <= |y| && y[l - 1] == ')' && y[n - 1] == ')'
    requires AllIn(y[..l - 1], Except(')')) && AllIn(y[..n - 1], Except(')'))
    ensures l == n
  {
    assert forall i :: 0 <= i < n - 1 ==> y[i] != ')' by {
      forall i | 0 <= i < n - 1
        ensures y[i] != ')'
      {
        assert y[..n - 1][i] == y[i];
      }
    }
    assert forall i :: 0 <= i < l - 1 ==> y[i] != ')' by {
      forall i | 0 <= i < l - 1
        ensures y[i] != ')'
      {
        assert y[..l - 1][i] == y[i];
      }
    }
  }

  /** `[^\)]*?` followed by `,\s*\1\s*\)`: the shortest run of `m` or more characters other
      than `)` after which the end of the arguments matches; the length up to that end. */
  function FindArgsEnd(a: string, v: string, m: nat): (r: Option<nat>)
    requires m <= |a|
    ensures r.Some? ==> m < r.value <= |a|
    decreases |a| - m
  {
    match ArgsEnd(a[m..], v)
    case Some(k) => Some(m + k)
    case None => if m < |a| && a[m] != ')' then FindArgsEnd(a, v, m + 1) else None
  }

  /** Where the argument search from `m0` succeeds, it stopped at the first position from which
      the end of the arguments matches, passing only characters other than `)`. */
  lemma {:induction false} FindArgsEndStop(a: string, v: string, m0: nat) returns (m: nat)
    requires m0 <= |a| && FindArgsEnd(a, v, m0).Some?
    ensures m0 <= m <= |a| && ArgsEnd(a[m..], v).Some?
    ensures FindArgsEnd(a, v, m0).value == m + ArgsEnd(a[m..], v).value
    ensures forall j :: m0 <= j < m ==> ArgsEnd(a[j..], v).None? && a[j] != ')'
    decreases |a| - m0
  {
    if ArgsEnd(a[m0..], v).Some? {
      m := m0;
    } else {
      m := FindArgsEndStop(a, v, m0 + 1);
    }
  }

  /** Positions from which the end of the arguments does not match and that hold no `)` are
      passed over by the argument search. */
  lemma {:induction false} FindArgsEndSkips(a: string, v: string, m0: nat, m: nat)
    requires m0 <= m <= |a|
    requires forall j :: m0 <= j < m ==> ArgsEnd(a[j..], v).None? && a[j] != ')'
    ensures FindArgsEnd(a, v, m0) == FindArgsEnd(a, v, m)
    decreases m - m0
  {
    if m0 < m {
      FindArgsEndSkips(a, v, m0 + 1, m);
    }
  }

  /** A logging call of `v` as the pattern reads it: the logger, the blanks before `(`, the
      arguments before the comma that ends them, and the blanks around the variable. */
  datatype LogCall = LogCall(logger: string, beforeParen: string, args: string, beforeVar: string, afterVar: string)

  predicate LogCallWellFormed(c: LogCall) {
    && (c.logger == LoggerCall || c.logger == ConsoleCall)
    && IsBlank(c.beforeParen) && AllIn(c.args, Except(')'))
    && IsBlank(c.beforeVar) && IsBlank(c.afterVar)
  }

  function LogCallText(c: LogCall, v: string): string {
    c.logger + (c.beforeParen + ("(" + (c.args + ArgsTail(c.beforeVar, v, c.afterVar))))
  }

  /** The lazy `[^\)]*?` settles on the first place where the arguments can end: from no
      earlier position of the argument run does `,\s*v\s*\)` match. */
  ghost predicate ShortestArgs(c: LogCall, v: string) {
    forall j :: 0 <= j < |c.args| ==> !EndsArgs(c.args[j..] + ArgsTail(c.beforeVar, v, c.afterVar), v)
  }

  /** `t` is a whole logging call of `v`, with the argument run the lazy search takes. */
  ghost predicate IsLogCall(t: string, v: string) {
    exists c :: LogCallWellFormed(c) && ShortestArgs(c, v) && t == LogCallText(c, v)
  }

  /** A logging call at the start of `x` whose last argument is `v`: the length it spans. */
  function CallAt(x: string, v: string): (r: Option<nat>)
    ensures r.Some? ==> 0 < r.value <= |x|
  {
    var n := if LoggerCall <= x then |LoggerCall| else if ConsoleCall <= x then |ConsoleCall| else 0;
    if n == 0 then None
    else
      var (w, r0) := Span(x[n..], Space);
      if !("(" <= r0) then None
      else
        match FindArgsEnd(r0[1..], v, 0)
        case None => None
        case Some(k) => Some(|x| - |r0| + 1 + k)
  }

  /** `([^}]*?)` followed by a logging call: the shortest block of `p` or more characters other
      than `}` after which a call matches; the block's length and the call's length. */
  function FindCall(b: string, v: string, p: nat): (r: Option<(nat, nat)>)
    requires p <= |b|
    ensures r.Some? ==> p <= r.value.0 && r.value.0 + r.value.1 <= |b|
    decreases |b| - p
  {
    match CallAt(b[p..], v)
    case Some(k) => Some((p, k))
    case None => if p < |b| && b[p] != '}' then FindCall(b, v, p + 1) else None
  }

  /** The block the lazy search settles on holds no `}`. */
  lemma {:induction false} FindCallBlock(b: string, v: string, p: nat)
    requires p <= |b| && FindCall(b, v, p).Some? && AllIn(b[..p], Except('}'))
    ensures AllIn(b[..FindCall(b, v, p).value.0], Except('}'))
    decreases |b| - p
  {
    if FindCall(b, v, p).value.0 != p {
      FindCallNext(b, v, p);
      AllInExtend(b, p, Except('}'));
      FindCallBlock(b, v, p + 1);
    }
  }

  /** A successful search that does not stop at once goes on past a character other than `}`. */
  lemma FindCallNext(b: string, v: string, p: nat)
    requires p <= |b| && FindCall(b, v, p).Some? && FindCall(b, v, p).value.0 != p
    ensures p < |b| && b[p] != '}' && FindCall(b, v, p) == FindCall(b, v, p + 1)
  {
  }

  /** Positions where no call starts and no `}` stands are passed over by the search. */
  lemma {:induction false} FindCallSkips(b: string, v: string, p: nat, q: nat)
    requires p <= q <= |b|
    requires forall j :: p <= j < q ==> CallAt(b[j..], v).None? && b[j] != '}'
    ensures FindCall(b, v, p) == FindCall(b, v, q)
    decreases q - p
  {
    if p < q {
      FindCallSkips(b, v, p + 1, q);
    }
  }

  /** What the whole pattern matched: the head, the block and the logging call. */
  datatype CatchMatch = CatchMatch(head: CatchHead, block: string, call: string)

  function SpanText(m: CatchMatch): string {
    HeadText(m.head) + m.block + m.call
  }

  function ParseCatch(s: string): Option<(CatchMatch, string)> {
    match ParseHead(s)
    case None => None
    case Some((h, body)) => ParseBlock(h, body)
  }

  /** After the head: the lazy block up to the first logging call of the caught variable. */
  function ParseBlock(h: CatchHead, body: string): Option<(CatchMatch, string)> {
    match FindCall(body, h.errVar, 0)
    case None => None
    case Some((p, k)) => Some((CatchMatch(h, body[..p], body[p..p + k]), body[p + k..]))
  }

  /** The block search keeps the head and splits what follows it into the block, the call and
      the rest. */
  lemma BlockSplit(h: CatchHead, body: string)
    requires ParseBlock(h, body).Some?
    ensures var (m, rest) := ParseBlock(h, body).value;
      m.head == h && body == m.block + (m.call + rest)
  {
    var (p, k) := FindCall(body, h.errVar, 0).value;
    SplitThree(body, p, p + k);
  }

  /** The matcher consumes a well-formed head, a block without `}` and a logging call whose last
      argument is the caught variable. */
  lemma CatchSound(s: string)
    requires ParseCatch(s).Some?
    ensures var (m, rest) := ParseCatch(s).value;
      && HeadWellFormed(m.head) && AllIn(m.block, Except('}'))
      && IsLogCall(m.call, m.head.errVar)
      && s == SpanText(m) + rest
  {
    HeadSound(s);
    var (h, body) := ParseHead(s).value;
    FindCallBlock(body, h.errVar, 0);
    CallFound(body, h.errVar, 0);
    CatchSplit(s);
  }

  /** A well-formed head, a block without `}` at no position of which a logging call of the
      variable starts, and a well-formed logging call of the variable with the shortest argument
      run: the pattern matches exactly these, whatever follows. */
  lemma CatchComplete(m: CatchMatch, c: LogCall, rest: string)
    requires HeadWellFormed(m.head) && AllIn(m.block, Except('}'))
    requires LogCallWellFormed(c) && ShortestArgs(c, m.head.errVar) && m.call == LogCallText(c, m.head.errVar)
    requires forall j :: 0 <= j < |m.block| ==> CallAt((m.block + (m.call + rest))[j..], m.head.errVar).None?
    ensures ParseCatch(SpanText(m) + rest) == Some((m, rest))
  {
    var v := m.head.errVar;
    var body := m.block + (m.call + rest);
    var s := SpanText(m) + rest;
    Assoc(HeadText(m.head), m.block, m.call);
    Assoc(HeadText(m.head), m.block + m.call, rest);
    Assoc(m.block, m.call, rest);
    assert s == HeadText(m.head) + body;
    HeadComplete(m.head, body);
    ParseCatchOf(s, m.head, body);
    FindCallSkips(body, v, 0, |m.block|);
    assert body[|m.block|..] == m.call + rest;
    CallAtComplete(c, v, rest);
    assert FindCall(body, v, |m.block|) == Some((|m.block|, |m.call|));
    SplitThree(body, |m.block|, |m.block| + |m.call|);
    assert body[..|m.block|] == m.block;
    assert body[|m.block|..|m.block| + |m.call|] == m.call;
    assert body[|m.block| + |m.call|..] == rest;
  }

  lemma CatchSplit(s: string)
    requires ParseCatch(s).Some?
    ensures var (m, rest) := ParseCatch(s).value; s == SpanText(m) + rest
  {
    HeadSound(s);
    var (h, body) := ParseHead(s).value;
    ParseCatchOf(s, h, body);
    BlockSplit(h, body);
    var (m, rest) := ParseBlock(h, body).value;
    Assoc(HeadText(h), m.block, m.call + rest);
    Assoc(HeadText(h) + m.block, m.call, rest);
  }

  /** The call the search settles on is a whole logging call of the variable. */
  lemma CallFound(b: string, v: string, p: nat)
    requires IsName(v) && p <= |b| && FindCall(b, v, p).Some?
    ensures var (q, k) := FindCall(b, v, p).value; IsLogCall(b[q..q + k], v)
  {
    FindCallIsCall(b, v, p);
    var (q, k) := FindCall(b, v, p).value;
    CallIn(b, q, k, v);
  }

  /** A logging call of length `k` found at position `q` is a whole logging call there. */
  lemma CallIn(b: string, q: nat, k: nat, v: string)
    requires IsName(v) && q <= |b| && CallAt(b[q..], v) == Some(k)
    ensures q + k <= |b| && IsLogCall(b[q..q + k], v)
  {
    CallAtSound(b[q..], v);
    assert b[q..q + k] == b[q..][..k];
  }

  /** The search settles on a position where a call of the length it reports starts. */
  lemma {:induction false} FindCallIsCall(b: string, v: string, p: nat)
    requires p <= |b| && FindCall(b, v, p).Some?
    ensures var (q, k) := FindCall(b, v, p).value; CallAt(b[q..], v) == Some(k)
    decreases |b| - p
  {
    if CallAt(b[p..], v).None? {
      FindCallIsCall(b, v, p + 1);
    }
  }

  /** A logging call found at the start of `x` is a whole logging call of `v`, with the
      shortest argument run. */
  lemma CallAtSound(x: string, v: string)
    requires IsName(v) && CallAt(x, v).Some?
    ensures IsLogCall(x[..CallAt(x, v).value], v)
  {
    var logger, wp, a := CallAtParts(x, v);
    var args, w1, w2 := ArgsSound(a, v);
    var c := LogCall(logger, wp, args, w1, w2);
    CallPrefix(logger, wp, a, FindArgsEnd(a, v, 0).value);
    LogCallOf(c, v, x[..CallAt(x, v).value]);
  }

  lemma CallPrefix(logger: string, wp: string, a: string, k: nat)
    requires k <= |a|
    ensures (logger + (wp + ("(" + a)))[..|logger| + |wp| + 1 + k] == logger + (wp + ("(" + a[..k]))
  {
  }

  lemma LogCallOf(c: LogCall, v: string, t: string)
    requires LogCallWellFormed(c) && ShortestArgs(c, v) && t == LogCallText(c, v)
    ensures IsLogCall(t, v)
  {
  }

  /** The logger, the blanks and the `(` that `CallAt` reads, and the text after them. */
  lemma CallAtParts(x: string, v: string) returns (logger: string, wp: string, a: string)
    requires CallAt(x, v).Some?
    ensures (logger == LoggerCall || logger == ConsoleCall) && IsBlank(wp)
    ensures x == logger + (wp + ("(" + a)) && FindArgsEnd(a, v, 0).Some?
    ensures CallAt(x, v).value == |logger| + |wp| + 1 + FindArgsEnd(a, v, 0).value
  {
    logger := if LoggerCall <= x then LoggerCall else ConsoleCall;
    var y := x[|logger|..];
    var (w, r0) := Span(y, Space);
    wp, a := w, r0[1..];
    assert r0 == "(" + a;
    assert y == wp + ("(" + a);
    assert x == logger + y;
  }

  /** What the argument search takes is a run without `)` and the end of the arguments, and
      from no earlier position of the run do the arguments end. */
  lemma ArgsSound(a: string, v: string) returns (args: string, w1: string, w2: string)
    requires IsName(v) && FindArgsEnd(a, v, 0).Some?
    ensures AllIn(args, Except(')')) && IsBlank(w1) && IsBlank(w2)
    ensures a[..FindArgsEnd(a, v, 0).value] == args + ArgsTail(w1, v, w2)
    ensures forall j :: 0 <= j < |args| ==> !EndsArgs(args[j..] + ArgsTail(w1, v, w2), v)
  {
    var m := FindArgsEndStop(a, v, 0);
    w1, w2 := ArgsEndParts(a[m..], v);
    args := a[..m];
    var t := ArgsTail(w1, v, w2);
    assert a[..FindArgsEnd(a, v, 0).value] == args + t;
    forall j | 0 <= j < m
      ensures !EndsArgs(args[j..] + t, v)
    {
      EarlierNoEnd(a, v, j, m, t);
    }
  }

  /** A position before the end of the arguments from which they do not end in `a` does not
      end them in the shorter text either. */
  lemma EarlierNoEnd(a: string, v: string, j: nat, m: nat, t: string)
    requires IsName(v) && j < m <= |a| && ArgsEnd(a[j..], v).None? && m + |t| <= |a| && a[m..m + |t|] == t
    ensures !EndsArgs(a[..m][j..] + t, v)
  {
    ArgsEndExact(a[j..], v);
    var y := a[..m][j..] + t;
    assert y == a[j..][..|y|];
    EndsArgsPrefix(y, a[j..], v);
  }

  /** Where the arguments end at the start of a text, they end at the start of any longer
      text. */
  lemma EndsArgsPrefix(y: string, z: string, v: string)
    requires y <= z
    ensures EndsArgs(y, v) ==> EndsArgs(z, v)
  {
    if EndsArgs(y, v) {
      var x1, x2 :| IsBlank(x1) && IsBlank(x2) && ArgsTail(x1, v, x2) <= y;
      assert ArgsTail(x1, v, x2) <= z;
    }
  }

  /** Every well-formed logging call of `v` with the shortest argument run is found, whatever
      follows it. */
  lemma CallAtComplete(c: LogCall, v: string, rest: string)
    requires IsName(v) && LogCallWellFormed(c) && ShortestArgs(c, v)
    ensures CallAt(LogCallText(c, v) + rest, v) == Some(|LogCallText(c, v)|)
  {
    var t := ArgsTail(c.beforeVar, v, c.afterVar);
    var a := c.args + (t + rest);
    CallJoin(c, v, rest);
    ArgsComplete(c.args, c.beforeVar, v, c.afterVar, rest);
    CallAtOf(c.logger, c.beforeParen, a, v);
  }

  lemma CallJoin(c: LogCall, v: string, rest: string)
    ensures var a := c.args + (ArgsTail(c.beforeVar, v, c.afterVar) + rest);
      && LogCallText(c, v) + rest == c.logger + (c.beforeParen + ("(" + a))
      && |LogCallText(c, v)| == |c.logger| + |c.beforeParen| + 1 + |c.args| + |ArgsTail(c.beforeVar, v, c.afterVar)|
  {
  }

  /** A logger, blanks and `(`: the call is what the argument search after them finds. */
  lemma CallAtOf(logger: string, wp: string, a: string, v: string)
    requires (logger == LoggerCall || logger == ConsoleCall) && IsBlank(wp)
    ensures CallAt(logger + (wp + ("(" + a)), v)
         == if FindArgsEnd(a, v, 0).Some? then Some(|logger| + |wp| + 1 + FindArgsEnd(a, v, 0).value) else None
  {
    var x := logger + (wp + ("(" + a));
    if logger == ConsoleCall {
      assert x[0] != LoggerCall[0];
    }
    assert x[..|logger|] == logger;
    assert x[|logger|..] == wp + ("(" + a);
    SpanOf(wp, "(" + a, Space);
    assert ("(" + a)[1..] == a;
  }

  /** The argument search takes a run without `)` from no position of which the arguments end,
      and the end that follows it. */
  lemma ArgsComplete(args: string, w1: string, v: string, w2: string, rest: string)
    requires IsName(v) && AllIn(args, Except(')')) && IsBlank(w1) && IsBlank(w2)
    requires forall j :: 0 <= j < |args| ==> !EndsArgs(args[j..] + ArgsTail(w1, v, w2), v)
    ensures FindArgsEnd(args + (ArgsTail(w1, v, w2) + rest), v, 0) == Some(|args| + |ArgsTail(w1, v, w2)|)
  {
    var t := ArgsTail(w1, v, w2);
    var a := args + (t + rest);
    NoEndInRun(args, w1, v, w2, rest);
    FindArgsEndSkips(a, v, 0, |args|);
    assert a[|args|..] == t + rest;
    ArgsEndComplete(w1, v, w2, rest);
  }

  lemma NoEndInRun(args: string, w1: string, v: string, w2: string, rest: string)
    requires IsName(v) && AllIn(args, Except(')')) && IsBlank(w1) && IsBlank(w2)
    requires forall j :: 0 <= j < |args| ==> !EndsArgs(args[j..] + ArgsTail(w1, v, w2), v)
    ensures var a := args + (ArgsTail(w1, v, w2) + rest);
      forall j :: 0 <= j < |args| ==> ArgsEnd(a[j..], v).None? && a[j] != ')'
  {
    var a := args + (ArgsTail(w1, v, w2) + rest);
    forall j | 0 <= j < |args|
      ensures ArgsEnd(a[j..], v).None? && a[j] != ')'
    {
      NoEarlierEnd(args, w1, v, w2, rest, j);
    }
  }

  /** From a position of the run where the arguments do not end, they do not end whatever
      follows the call. */
  lemma NoEarlierEnd(args: string, w1: string, v: string, w2: string, rest: string, j: nat)
    requires IsName(v) && AllIn(args, Except(')')) && IsBlank(w1) && IsBlank(w2) && j < |args|
    requires !EndsArgs(args[j..] + ArgsTail(w1, v, w2), v)
    ensures ArgsEnd((args + (ArgsTail(w1, v, w2) + rest))[j..], v).None?
    ensures (args + (ArgsTail(w1, v, w2) + rest))[j] != ')'
  {
    var a := args + (ArgsTail(w1, v, w2) + rest);
    assert a[j] == args[j];
    assert a[j..] == args[j..] + ArgsTail(w1, v, w2) + rest;
    assert AllIn(args[j..], Except(')'));
    ArgsEndExact(a[j..], v);
    EndsArgsCut(args[j..], w1, v, w2, rest);
  }

  // ---------------------------------------------------------------------------------------
  // The callback

  /** The line that marks a block as already handled. */
  function Marker(v: string): string {
    "const err = " + v + " instanceof Error"
  }

  /** `re.search(r'\n(\s+)', block)`: the blank run after the first line break that a blank
      follows, or four spaces when there is none. */
  function Indent(b: string): (r: string)
    ensures r != [] && IsBlank(r)
    decreases |b|
  {
    if |b| < 2 then "    "
    else if b[0] == '\n' && IsSpace(b[1]) then Span(b[1..], Space).0
    else Indent(b[1..])
  }

  /** A line break followed by a blank starts at `i`. */
  predicate IndentAt(b: string, i: nat) {
    i + 1 < |b| && b[i] == '\n' && IsSpace(b[i + 1])
  }

  /** The indentation is the blank run after the first line break followed by a blank. */
  lemma {:induction false} IndentFirst(b: string, i: nat)
    requires IndentAt(b, i) && forall j :: 0 <= j < i ==> !IndentAt(b, j)
    ensures Indent(b) == Span(b[i + 1..], Space).0
    decreases i
  {
    if i > 0 {
      assert !IndentAt(b, 0);
      forall j | 0 <= j < i - 1
        ensures !IndentAt(b[1..], j)
      {
        assert !IndentAt(b, j + 1);
      }
      assert IndentAt(b[1..], i - 1);
      IndentFirst(b[1..], i - 1);
      assert b[1..][i - 1 + 1..] == b[i + 1..];
    }
  }

  /** Without such a line break the indentation is four spaces. */
  lemma {:induction false} IndentDefault(b: string)
    requires forall j :: 0 <= j < |b| ==> !IndentAt(b, j)
    ensures Indent(b) == "    "
    decreases |b|
  {
    if |b| >= 2 {
      assert !IndentAt(b, 0);
      forall j | 0 <= j < |b| - 1
        ensures !IndentAt(b[1..], j)
      {
        assert !IndentAt(b, j + 1);
      }
      IndentDefault(b[1..]);
    }
  }

  /** The normalisation line put in front of the block. */
  function Handler(indent: string, v: string): string {
    "\n" + indent + Marker(v) + " ? " + v + " : new Error(String(" + v + "));"
  }

  /** `, v)` becomes `, err)`. */
  function Retarget(t: string, v: string): string {
    ReplaceAll(t, ", " + v + ")", ", err)")
  }

  /** The rewritten site: the head as matched, the handler, then the block and the call with
      the call's last argument retargeted. */
  function CatchOut(m: CatchMatch): string {
    var v := m.head.errVar;
    HeadText(m.head) + Handler(Indent(m.block), v) + Retarget(m.block + m.call, v)
  }

  /** The callback as written: it replaces every occurrence of the block's text in the whole
      matched span (not only the block itself), then retargets. */
  function CatchOutAsWritten(m: CatchMatch): string {
    var v := m.head.errVar;
    Retarget(ReplaceAll(SpanText(m), m.block, Handler(Indent(m.block), v) + m.block), v)
  }

  /** The rewrite of one site: the callback's text as written, or the intended splice. */
  function CatchReplacement(t: Template, m: CatchMatch): string {
    match t
    case AsWritten => CatchOutAsWritten(m)
    case Intended => CatchOut(m)
  }

  function CatchSite(t: Template, s: string): (r: Option<Site>)
    ensures r.Some? ==> 1 <= r.value.len <= |s|
    ensures r.Some? && !r.value.counted ==> r.value.out == s[..r.value.len]
  {
    match ParseCatch(s)
    case None => None
    case Some((m, rest)) =>
      CatchSplit(s);
      var n := |s| - |rest|;
      if Contains(m.block, Marker(m.head.errVar)) then Some(Site(n, s[..n], false))
      else Some(Site(n, CatchReplacement(t, m), true))
  }

  // ---------------------------------------------------------------------------------------
  // The block search corrected to stop at a nested catch head

  /** The lazy block search with the block also barred from running past another
      `catch\s*\((\w+)\)\s*\{`, as `(?:(?!catch\s*\(\w+\)\s*\{)[^}])*?` would be. */
  function FindCallFlat(b: string, v: string, p: nat): (r: Option<(nat, nat)>)
    requires p <= |b|
    ensures r.Some? ==> p <= r.value.0 && r.value.0 + r.value.1 <= |b|
    decreases |b| - p
  {
    match CallAt(b[p..], v)
    case Some(k) => Some((p, k))
    case None =>
      if p < |b| && b[p] != '}' && ParseHead(b[p..]).None? then FindCallFlat(b, v, p + 1) else None
  }

  /** The pattern with the corrected block search. */
  function ParseFlat(s: string): Option<(CatchMatch, string)> {
    match ParseHead(s)
    case None => None
    case Some((h, body)) => ParseFlatBlock(h, body)
  }

  /** After the head: the block up to the first logging call of the caught variable, stopping
      at a `}` or a nested head. */
  function ParseFlatBlock(h: CatchHead, body: string): Option<(CatchMatch, string)> {
    match FindCallFlat(body, h.errVar, 0)
    case None => None
    case Some((p, k)) => Some((CatchMatch(h, body[..p], body[p..p + k]), body[p + k..]))
  }

  lemma FlatParseSplit(s: string)
    requires ParseFlat(s).Some?
    ensures var (m, rest) := ParseFlat(s).value; s == SpanText(m) + rest
  {
    HeadSound(s);
    var (h, body) := ParseHead(s).value;
    var (p, k) := FindCallFlat(body, h.errVar, 0).value;
    SplitThree(body, p, p + k);
    var (m, rest) := ParseFlatBlock(h, body).value;
    Assoc(HeadText(h), m.block, m.call + rest);
    Assoc(HeadText(h) + m.block, m.call, rest);
  }

  /** The corrected rule: the corrected block search, and the handler spliced in front of the
      block. */
  function FlatCatchSite(s: string): (r: Option<Site>)
    ensures r.Some? ==> 1 <= r.value.len <= |s|
    ensures r.Some? && !r.value.counted ==> r.value.out == s[..r.value.len]
  {
    match ParseFlat(s)
    case None => None
    case Some((m, rest)) =>
      FlatParseSplit(s);
      var n := |s| - |rest|;
      if Contains(m.block, Marker(m.head.errVar)) then Some(Site(n, s[..n], false))
      else Some(Site(n, CatchOut(m), true))
  }

  /** The block the corrected search settles on holds no `}` and no catch head. */
  lemma {:induction false} FlatBlock(b: string, v: string, p: nat)
    requires p <= |b| && FindCallFlat(b, v, p).Some?
    ensures forall j :: p <= j < FindCallFlat(b, v, p).value.0 ==> b[j] != '}' && ParseHead(b[j..]).None?
    ensures CallAt(b[FindCallFlat(b, v, p).value.0..], v) == Some(FindCallFlat(b, v, p).value.1)
    decreases |b| - p
  {
    if CallAt(b[p..], v).None? {
      FlatStep(b, v, p);
      FlatBlock(b, v, p + 1);
    }
  }

  /** Where the corrected search succeeds without a call at `p`, it passed `p`. */
  lemma FlatStep(b: string, v: string, p: nat)
    requires p <= |b| && FindCallFlat(b, v, p).Some? && CallAt(b[p..], v).None?
    ensures p < |b| && b[p] != '}' && ParseHead(b[p..]).None?
    ensures FindCallFlat(b, v, p) == FindCallFlat(b, v, p + 1)
  {
  }

  /** Where the block the pattern settles on holds no catch head, the corrected search settles
      on the same block and call. */
  lemma {:induction false} FlatAgree(b: string, v: string, p: nat)
    requires p <= |b| && FindCall(b, v, p).Some?
    requires forall j :: p <= j < FindCall(b, v, p).value.0 ==> ParseHead(b[j..]).None?
    ensures FindCallFlat(b, v, p) == FindCall(b, v, p)
    decreases |b| - p
  {
    if CallAt(b[p..], v).None? {
      FindCallNext(b, v, p);
      FlatAgree(b, v, p + 1);
    }
  }

  /** Positions where no call, no `}` and no catch head starts are passed over by the
      corrected search. */
  lemma {:induction false} FlatSkips(b: string, v: string, p: nat, q: nat)
    requires p <= q <= |b|
    requires forall j :: p <= j < q ==> CallAt(b[j..], v).None? && b[j] != '}' && ParseHead(b[j..]).None?
    ensures FindCallFlat(b, v, p) == FindCallFlat(b, v, q)
    decreases q - p
  {
    if p < q {
      FlatSkips(b, v, p + 1, q);
    }
  }

  /** The catch rule's outcome in terms of the head and the block search. */
  lemma CatchSiteOf(t: Template, s: string, h: CatchHead, body: string)
    requires ParseHead(s) == Some((h, body))
    ensures FindCall(body, h.errVar, 0).None? ==> CatchSite(t, s).None?
    ensures FindCall(body, h.errVar, 0).Some? ==>
      CatchSite(t, s).Some?
      && (CatchSite(t, s).value.counted
          <==> !Contains(body[..FindCall(body, h.errVar, 0).value.0], Marker(h.errVar)))
  {
  }

  /** The match in terms of the head and the block search. */
  lemma ParseCatchOf(s: string, h: CatchHead, body: string)
    requires ParseHead(s) == Some((h, body))
    ensures ParseCatch(s) == ParseBlock(h, body)
  {
  }
}
