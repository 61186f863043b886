/** The diagnostic-line parser and the grouping of records by file (`parse_errors`).
    A line is kept when it reads `<path>(<line>,<col>): error TS<digits>: <message>` where the
    path ends in `.ts` or `.tsx`; the path is the SHORTEST prefix for which the rest of the line
    parses (the lazy `.+?` group). `.` excludes the newline and `$` also matches before one final
    newline, as in Python's `re`. */
module Diagnostics {
  import opened Text
  import opened Options

  /** One record as `parse_errors` stores it: decimal line and column, the code and the message. */
  datatype Diagnostic = Diagnostic(line: nat, col: nat, code: string, message: string)

  /** A parsed line: the grouping key (the path as written) and its record. */
  datatype Entry = Entry(path: string, diag: Diagnostic)

  /** The text after the path, kept as written. */
  datatype Tail = Tail(lineDigits: string, colDigits: string, codeDigits: string, message: string, newline: bool)

  /** The pieces a matching line is made of. */
  datatype LineParts = LineParts(path: string, tail: Tail)

  const CodeLead: string := "): error TS"

  function TailText(t: Tail): string {
    "(" + (t.lineDigits + ("," + (t.colDigits + (CodeLead + (t.codeDigits + (": " + (t.message + (if t.newline then "\n" else ""))))))))
  }

  function Render(q: LineParts): string {
    q.path + TailText(q.tail)
  }

  predicate WellFormedTail(t: Tail) {
    && t.lineDigits != [] && AllIn(t.lineDigits, Digit)
    && t.colDigits != [] && AllIn(t.colDigits, Digit)
    && t.codeDigits != [] && AllIn(t.codeDigits, Digit)
    && t.message != [] && AllIn(t.message, Except('\n'))
  }

  /** At least one character, then `.ts` or `.tsx`, and no newline anywhere. */
  predicate ValidPath(p: string) {
    && AllIn(p, Except('\n'))
    && ((|p| >= 4 && p[|p| - 3..] == ".ts") || (|p| >= 5 && p[|p| - 4..] == ".tsx"))
  }

  predicate WellFormed(q: LineParts) {
    ValidPath(q.path) && WellFormedTail(q.tail)
  }

  /** `\((\d+),(\d+)\): error (TS\d+): (.+)$` anchored at the start of `t`. */
  function ParseTail(t: string): Option<Tail> {
    if !("(" <= t) then None
    else
      var (l, r1) := Span(t[1..], Digit);
      if l == [] || !("," <= r1) then None
      else
        var (c, r2) := Span(r1[1..], Digit);
        if c == [] || !(CodeLead <= r2) then None
        else
          var (d, r3) := Span(r2[|CodeLead|..], Digit);
          if d == [] || !(": " <= r3) then None
          else
            var (m, r4) := Span(r3[2..], Except('\n'));
            if m == [] then None
            else if r4 == [] then Some(Tail(l, c, d, m, false))
            else if r4 == "\n" then Some(Tail(l, c, d, m, true))
            else None
  }

  /** The lazy path search: tries `.+?` of length `n`, `n + 1`, ... and, for each, `.tsx` before
      `.ts` (the greedy `x?`). `line[..n - 1]` is known to hold no newline. */
  function FindPath(line: string, n: nat): Option<LineParts>
    requires 1 <= n
    decreases |line| - n, 1
  {
    if n + 3 > |line| || line[n - 1] == '\n' then None else TryPath(line, n)
  }

  /** The attempt at stem length `n`: `.tsx` and a tail, else `.ts` and a tail, else the next
      length. */
  function TryPath(line: string, n: nat): Option<LineParts>
    requires 1 <= n && n + 3 <= |line|
    decreases |line| - n, 0
  {
    if ".tsx" <= line[n..] && ParseTail(line[n + 4..]).Some? then
      Some(LineParts(line[..n + 4], ParseTail(line[n + 4..]).value))
    else if ".ts" <= line[n..] && ParseTail(line[n + 3..]).Some? then
      Some(LineParts(line[..n + 3], ParseTail(line[n + 3..]).value))
    else FindPath(line, n + 1)
  }

  function ParseParts(line: string): Option<LineParts> {
    FindPath(line, 1)
  }

  function ToEntry(q: LineParts): Entry
    requires WellFormed(q)
  {
    Entry(q.path, Diagnostic(DecimalValue(q.tail.lineDigits), DecimalValue(q.tail.colDigits),
                             "TS" + q.tail.codeDigits, q.tail.message))
  }

  /** `re.match` of the diagnostic pattern on one line, turned into a record: its path is a
      `.ts`/`.tsx` path without line break that the line starts with, its code is `TS` and
      digits, and its message is a non-empty text without line break. */
  function ParseLine(line: string): (r: Option<Entry>)
    ensures r.Some? ==> ValidPath(r.value.path) && r.value.path <= line
    ensures r.Some? ==> "TS" <= r.value.diag.code && |r.value.diag.code| > 2 && AllIn(r.value.diag.code[2..], Digit)
    ensures r.Some? ==> r.value.diag.message != [] && AllIn(r.value.diag.message, Except('\n'))
  {
    match ParseParts(line)
    case None => None
    case Some(q) =>
      ParseLineSound(line);
      Some(ToEntry(q))
  }

  // ---------------------------------------------------------------------------------------
  // The tail parser reads back exactly what TailText writes.

  lemma TailSound(t: string)
    requires ParseTail(t).Some?
    ensures WellFormedTail(ParseTail(t).value)
    ensures TailText(ParseTail(t).value) == t
  {
    var (l, r1) := Span(t[1..], Digit);
    var (c, r2) := Span(r1[1..], Digit);
    var (d, r3) := Span(r2[|CodeLead|..], Digit);
    var (m, r4) := Span(r3[2..], Except('\n'));
    assert r3 == ": " + r3[2..];
    assert r2 == CodeLead + r2[|CodeLead|..];
    assert r1 == "," + r1[1..];
    assert t == "(" + t[1..];
  }

  lemma {:induction false} TailComplete(tp: Tail)
    requires WellFormedTail(tp)
    ensures ParseTail(TailText(tp)) == Some(tp)
  {
    var nl: string := if tp.newline then "\n" else "";
    var x4 := tp.message + nl;
    var x3 := ": " + x4;
    var x2 := CodeLead + (tp.codeDigits + x3);
    var x1 := "," + (tp.colDigits + x2);
    var t := "(" + (tp.lineDigits + x1);
    assert t == TailText(tp);
    assert t[1..] == tp.lineDigits + x1;
    SpanOf(tp.lineDigits, x1, Digit);
    assert x1[1..] == tp.colDigits + x2;
    SpanOf(tp.colDigits, x2, Digit);
    assert x2[|CodeLead|..] == tp.codeDigits + x3;
    SpanOf(tp.codeDigits, x3, Digit);
    assert x3[2..] == x4;
    SpanOf(tp.message, nl, Except('\n'));
  }

  // ---------------------------------------------------------------------------------------
  // The line parser: it accepts exactly the well-formed lines and picks the shortest path.

  /** A path found at stem length `n` with extension `ext` renders back to the line. */
  lemma FoundSound(line: string, n: nat, ext: string)
    requires ext == ".ts" || ext == ".tsx"
    requires 1 <= n && n + |ext| <= |line| && AllIn(line[..n], Except('\n'))
    requires ext <= line[n..] && ParseTail(line[n + |ext|..]).Some?
    ensures WellFormed(LineParts(line[..n + |ext|], ParseTail(line[n + |ext|..]).value))
    ensures Render(LineParts(line[..n + |ext|], ParseTail(line[n + |ext|..]).value)) == line
  {
    var t := line[n + |ext|..];
    TailSound(t);
    ExtPathValid(line, n, ext);
    RenderFound(line, n + |ext|, ParseTail(t).value);
  }

  /** A valid path and a well-formed tail that split the line render back to it. */
  lemma RenderFound(line: string, k: nat, tp: Tail)
    requires k <= |line| && ValidPath(line[..k]) && WellFormedTail(tp) && TailText(tp) == line[k..]
    ensures WellFormed(LineParts(line[..k], tp)) && Render(LineParts(line[..k], tp)) == line
  {
    assert line == line[..k] + line[k..];
  }

  /** A newline-free stem followed by the extension is a valid path. */
  lemma ExtPathValid(line: string, n: nat, ext: string)
    requires ext == ".ts" || ext == ".tsx"
    requires 1 <= n && n + |ext| <= |line| && AllIn(line[..n], Except('\n'))
    requires ext <= line[n..]
    ensures ValidPath(line[..n + |ext|])
  {
    var path := line[..n + |ext|];
    assert path == line[..n] + ext;
    assert path[|path| - |ext|..] == ext;
  }

  lemma {:induction false} FindPathSound(line: string, n: nat)
    requires 1 <= n <= |line| + 1 && AllIn(line[..n - 1], Except('\n'))
    requires FindPath(line, n).Some?
    ensures WellFormed(FindPath(line, n).value)
    ensures Render(FindPath(line, n).value) == line
    decreases |line| - n
  {
    assert n + 3 <= |line| && line[n - 1] != '\n';
    assert line[..n] == line[..n - 1] + [line[n - 1]];
    if ".tsx" <= line[n..] && ParseTail(line[n + 4..]).Some? {
      FoundSound(line, n, ".tsx");
    } else if ".ts" <= line[n..] && ParseTail(line[n + 3..]).Some? {
      FoundSound(line, n, ".ts");
    } else {
      FindPathSound(line, n + 1);
    }
  }

  lemma ParseLineSound(line: string)
    requires ParseParts(line).Some?
    ensures WellFormed(ParseParts(line).value)
    ensures Render(ParseParts(line).value) == line
  {
    FindPathSound(line, 1);
  }

  /** Length of the lazily matched part of a valid path (the path without its extension). */
  function StemLength(p: string): (k: nat)
    requires ValidPath(p)
    ensures 1 <= k && k + 3 <= |p|
  {
    if |p| >= 5 && p[|p| - 4..] == ".tsx" then |p| - 4 else |p| - 3
  }

  /** At the stem length of a well-formed line's own path, the search succeeds with that path. */
  lemma FoundAtStem(q: LineParts)
    requires WellFormed(q)
    ensures FindPath(Render(q), StemLength(q.path)).Some?
    ensures |FindPath(Render(q), StemLength(q.path)).value.path| == |q.path|
  {
    TailComplete(q.tail);
    if |q.path| >= 5 && q.path[|q.path| - 4..] == ".tsx" {
      StemTsx(q);
    } else {
      StemTs(q);
    }
  }

  lemma StemTsx(q: LineParts)
    requires WellFormed(q) && |q.path| >= 5 && q.path[|q.path| - 4..] == ".tsx"
    requires ParseTail(TailText(q.tail)) == Some(q.tail)
    ensures FindPath(Render(q), StemLength(q.path)) == Some(q)
  {
    var line := Render(q);
    var k := |q.path| - 4;
    var tt := TailText(q.tail);
    assert line[k - 1] == q.path[k - 1];
    assert line[k..k + 4] == ".tsx";
    assert line[k + 4..] == tt;
    FindPathTsx(line, k, q.tail);
    assert line[..k + 4] == q.path;
  }

  /** `.tsx` and a tail at `n`: the search stops there. */
  lemma FindPathTsx(line: string, n: nat, tail: Tail)
    requires 1 <= n && n + 4 <= |line| && line[n - 1] != '\n'
    requires line[n..n + 4] == ".tsx" && ParseTail(line[n + 4..]) == Some(tail)
    ensures FindPath(line, n) == Some(LineParts(line[..n + 4], tail))
  {
    assert ".tsx" <= line[n..];
  }

  lemma StemTs(q: LineParts)
    requires WellFormed(q) && !(|q.path| >= 5 && q.path[|q.path| - 4..] == ".tsx")
    requires ParseTail(TailText(q.tail)) == Some(q.tail)
    ensures FindPath(Render(q), StemLength(q.path)).Some?
    ensures |FindPath(Render(q), StemLength(q.path)).value.path| == |q.path|
  {
    var line := Render(q);
    var k := |q.path| - 3;
    var tt := TailText(q.tail);
    assert line[k - 1] == q.path[k - 1];
    assert q.path[|q.path| - 3..] == ".ts";
    assert line[k..k + 3] == ".ts";
    assert line[k + 3..] == tt;
    assert line[k + 3] == tt[0] == '(';
    FindPathTs(line, k, q.tail);
  }

  /** `.ts`, no `x` after it, and a tail at `n`: the search stops there. */
  lemma FindPathTs(line: string, n: nat, tail: Tail)
    requires 1 <= n && n + 3 <= |line| && line[n - 1] != '\n'
    requires line[n..n + 3] == ".ts" && (n + 3 == |line| || line[n + 3] != 'x')
    requires ParseTail(line[n + 3..]) == Some(tail)
    ensures FindPath(line, n) == Some(LineParts(line[..n + 3], tail))
  {
    assert ".ts" <= line[n..];
    assert !(".tsx" <= line[n..]);
  }

  lemma {:induction false} FindPathComplete(q: LineParts, n: nat)
    requires WellFormed(q)
    requires 1 <= n <= StemLength(q.path)
    ensures FindPath(Render(q), n).Some?
    ensures |FindPath(Render(q), n).value.path| <= |q.path|
    decreases StemLength(q.path) - n
  {
    if n == StemLength(q.path) {
      AtStem(q, n);
    } else {
      FindPathComplete(q, n + 1);
      BelowStem(q, n);
    }
  }

  /** At the stem length itself the search succeeds with a path no longer than the line's. */
  lemma AtStem(q: LineParts, n: nat)
    requires WellFormed(q) && n == StemLength(q.path)
    ensures FindPath(Render(q), n).Some? && |FindPath(Render(q), n).value.path| <= |q.path|
  {
    FoundAtStem(q);
  }

  /** Below the stem length the search goes on to the next length and finds what it finds. */
  lemma BelowStem(q: LineParts, n: nat)
    requires WellFormed(q) && 1 <= n < StemLength(q.path)
    requires FindPath(Render(q), n + 1).Some? && |FindPath(Render(q), n + 1).value.path| <= |q.path|
    ensures FindPath(Render(q), n).Some? && |FindPath(Render(q), n).value.path| <= |q.path|
  {
    PathCharAt(q, n - 1);
    FindPathStep(Render(q), n, |q.path|);
  }

  /** A character of a well-formed line's path is that of the line, and no line break. */
  lemma PathCharAt(q: LineParts, i: nat)
    requires WellFormed(q) && i < |q.path|
    ensures Render(q)[i] == q.path[i] && Render(q)[i] != '\n'
  {
  }

  /** One position earlier: a path found from the next position, or one ending right here, is
      found from this one. */
  lemma FindPathStep(line: string, n: nat, bound: nat)
    requires 1 <= n && n + 4 <= bound && n + 3 <= |line| && line[n - 1] != '\n'
    requires FindPath(line, n + 1).Some? && |FindPath(line, n + 1).value.path| <= bound
    ensures FindPath(line, n).Some? && |FindPath(line, n).value.path| <= bound
  {
  }


  /** A line yields a record exactly when it has the diagnostic shape. */
  lemma ParseLineExact(line: string)
    ensures ParseLine(line).Some? <==> exists q :: WellFormed(q) && Render(q) == line
  {
    if ParseParts(line).Some? {
      ParseLineSound(line);
    }
    if exists q :: WellFormed(q) && Render(q) == line {
      var q :| WellFormed(q) && Render(q) == line;
      FindPathComplete(q, 1);
    }
  }

  /** The record of a matching line: its path is the shortest possible one, and line, column,
      code and message are the decimal values and texts the line holds. */
  lemma ParseLineRecord(q: LineParts)
    requires WellFormed(q)
    ensures ParseLine(Render(q)).Some?
    ensures var e := ParseLine(Render(q)).value;
      && |e.path| <= |q.path|
      && (|e.path| == |q.path| ==> e == ToEntry(q))
  {
    FindPathComplete(q, 1);
    var line := Render(q);
    var q' := ParseParts(line).value;
    ParseLineSound(line);
    if |q'.path| == |q.path| {
      assert q'.path == line[..|q.path|] == q.path;
      assert TailText(q'.tail) == line[|q.path|..] == TailText(q.tail);
      TailComplete(q.tail);
      TailComplete(q'.tail);
    }
  }

  // ---------------------------------------------------------------------------------------
  // Grouping by file: a dictionary keyed by the path as written, in first-seen order.

  /** The records of the matching lines, in input order; other lines are dropped. */
  function Matches(lines: seq<string>): seq<Entry>
    decreases |lines|
  {
    if lines == [] then []
    else
      var earlier := Matches(lines[..|lines| - 1]);
      match ParseLine(lines[|lines| - 1])
      case Some(e) => earlier + [e]
      case None => earlier
  }

  function Paths(es: seq<Entry>): (ps: seq<string>)
    ensures |ps| == |es| && forall i :: 0 <= i < |es| ==> ps[i] == es[i].path
    decreases |es|
  {
    if es == [] then [] else Paths(es[..|es| - 1]) + [es[|es| - 1].path]
  }

  /** The distinct elements of `xs` in order of first occurrence (a dictionary's key order). */
  function FirstSeen(xs: seq<string>): seq<string>
    decreases |xs|
  {
    if xs == [] then []
    else
      var f := FirstSeen(xs[..|xs| - 1]);
      if xs[|xs| - 1] in f then f else f + [xs[|xs| - 1]]
  }

  /** The records filed under `p`, in input order. */
  function RecordsFor(es: seq<Entry>, p: string): seq<Diagnostic>
    decreases |es|
  {
    if es == [] then []
    else RecordsFor(es[..|es| - 1], p) + (if es[|es| - 1].path == p then [es[|es| - 1].diag] else [])
  }

  /** The `errors_by_file` dictionary: its key order and its lists. */
  datatype Groups = Groups(order: seq<string>, byFile: map<string, seq<Diagnostic>>)

  predicate Distinct(xs: seq<string>) {
    forall i, j :: 0 <= i < j < |xs| ==> xs[i] != xs[j]
  }

  /** The key order and lists hold exactly the records `es`, grouped by file. */
  ghost predicate Grouped(order: seq<string>, byFile: map<string, seq<Diagnostic>>, es: seq<Entry>) {
    && order == FirstSeen(Paths(es))
    && (forall p :: p in byFile <==> p in order)
    && (forall p :: p in byFile ==> byFile[p] == RecordsFor(es, p))
  }

  /** `parse_errors`: one pass over the lines, appending each record to its file's list. */
  method ParseErrors(lines: seq<string>) returns (g: Groups)
    ensures g.order == FirstSeen(Paths(Matches(lines)))
    ensures forall p :: p in g.byFile <==> p in g.order
    ensures forall p :: p in g.byFile ==> g.byFile[p] == RecordsFor(Matches(lines), p)
  {
    var order: seq<string> := [];
    var byFile: map<string, seq<Diagnostic>> := map[];
    for i := 0 to |lines|
      invariant Grouped(order, byFile, Matches(lines[..i]))
    {
      ghost var before := Matches(lines[..i]);
      MatchesNext(lines, i);
      match ParseLine(lines[i]) {
        case Some(e) =>
          assert Matches(lines[..i + 1]) == before + [e];
          order, byFile := AddRecord(order, byFile, before, e);
        case None =>
          assert Matches(lines[..i + 1]) == before + [];
          assert before + [] == before;
      }
    }
    assert lines[..|lines|] == lines;
    g := Groups(order, byFile);
  }

  /** The body of the loop for a line that matched: a new file gets a list holding the record,
      a known file gets the record appended. */
  method AddRecord(order: seq<string>, byFile: map<string, seq<Diagnostic>>, ghost es: seq<Entry>, e: Entry)
    returns (order': seq<string>, byFile': map<string, seq<Diagnostic>>)
    requires Grouped(order, byFile, es)
    ensures Grouped(order', byFile', es + [e])
  {
    EntriesNext(es, e);
    if e.path in byFile {
      order', byFile' := order, byFile[e.path := byFile[e.path] + [e.diag]];
    } else {
      FirstSeenMembers(Paths(es));
      RecordsForAbsent(es, e.path);
      order', byFile' := order + [e.path], byFile[e.path := [e.diag]];
    }
  }

  /** One more line adds its record, if it has one. */
  lemma MatchesNext(lines: seq<string>, i: nat)
    requires i < |lines|
    ensures Matches(lines[..i + 1])
         == Matches(lines[..i]) + (if ParseLine(lines[i]).Some? then [ParseLine(lines[i]).value] else [])
  {
    assert lines[..i + 1][..i] == lines[..i];
  }

  /** One more record: its path is appended, a new path joins the key order, and the record is
      appended to its own file's list. */
  lemma EntriesNext(es: seq<Entry>, e: Entry)
    ensures Paths(es + [e]) == Paths(es) + [e.path]
    ensures FirstSeen(Paths(es + [e]))
         == if e.path in FirstSeen(Paths(es)) then FirstSeen(Paths(es)) else FirstSeen(Paths(es)) + [e.path]
    ensures forall p :: RecordsFor(es + [e], p) == RecordsFor(es, p) + (if e.path == p then [e.diag] else [])
  {
    assert (es + [e])[..|es|] == es;
    assert (Paths(es) + [e.path])[..|es|] == Paths(es);
  }

  lemma {:induction false} FirstSeenMembers(xs: seq<string>)
    ensures forall x :: x in FirstSeen(xs) <==> x in xs
    decreases |xs|
  {
    if xs != [] {
      FirstSeenMembers(xs[..|xs| - 1]);
      assert xs == xs[..|xs| - 1] + [xs[|xs| - 1]];
    }
  }

  /** The key order holds each path once. */
  lemma {:induction false} FirstSeenDistinct(xs: seq<string>)
    ensures Distinct(FirstSeen(xs))
    decreases |xs|
  {
    if xs != [] {
      FirstSeenDistinct(xs[..|xs| - 1]);
    }
  }

  lemma {:induction false} RecordsForAbsent(es: seq<Entry>, p: string)
    requires p !in Paths(es)
    ensures RecordsFor(es, p) == []
    decreases |es|
  {
    if es != [] {
      assert Paths(es) == Paths(es[..|es| - 1]) + [es[|es| - 1].path];
      RecordsForAbsent(es[..|es| - 1], p);
    }
  }

  /** Every group is non-empty: a key exists only because a record was filed under it. */
  lemma {:induction false} RecordsForPresent(es: seq<Entry>, p: string)
    requires p in Paths(es)
    ensures |RecordsFor(es, p)| >= 1
    decreases |es|
  {
    assert Paths(es) == Paths(es[..|es| - 1]) + [es[|es| - 1].path];
    if es[|es| - 1].path != p {
      RecordsForPresent(es[..|es| - 1], p);
    }
  }

  /** Sum of the group sizes over the keys in `order`. */
  function GroupTotal(order: seq<string>, es: seq<Entry>): nat
    decreases |order|
  {
    if order == [] then 0 else GroupTotal(order[..|order| - 1], es) + |RecordsFor(es, order[|order| - 1])|
  }

  /** Filing one more record adds one to the group total when its path is a key. */
  lemma {:induction false} GroupTotalStep(order: seq<string>, es: seq<Entry>, e: Entry)
    requires Distinct(order)
    ensures GroupTotal(order, es + [e]) == GroupTotal(order, es) + (if e.path in order then 1 else 0)
    decreases |order|
  {
    assert (es + [e])[..|es|] == es;
    if order != [] {
      var init := order[..|order| - 1];
      assert order == init + [order[|order| - 1]];
      assert Distinct(init);
      GroupTotalStep(init, es, e);
    }
  }

  /** `total_errors`: the group sizes add up to the number of parsed records. */
  lemma {:induction false} GroupTotalIsCount(es: seq<Entry>)
    ensures GroupTotal(FirstSeen(Paths(es)), es) == |es|
    decreases |es|
  {
    if es != [] {
      var init := es[..|es| - 1];
      var e := es[|es| - 1];
      assert es == init + [e];
      assert Paths(es) == Paths(init) + [e.path];
      GroupTotalIsCount(init);
      var f := FirstSeen(Paths(init));
      FirstSeenDistinct(Paths(init));
      FirstSeenMembers(Paths(init));
      GroupTotalStep(f, init, e);
      if e.path !in f {
        RecordsForAbsent(init, e.path);
        FirstSeenDistinct(Paths(es));
        GroupTotalStep(f + [e.path], init, e);
        assert (f + [e.path])[..|f|] == f;
      }
    }
  }
}
