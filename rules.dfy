/** The patterns of the three rewrite rules, each as a matcher anchored at the start of a text
    (what `re.sub` tries at every position) together with the replacement its callback or
    template produces. Each matcher follows the backtracking order of Python's `re` for its
    pattern; a reference description of the text it accepts (`...Text` over well-formed parts)
    is proved to agree with it. */
module Rules {
  import opened Text
  import opened Options

  /** What `re.sub` does at one position: the length of the matched text, the text put in its
      place, and whether the callback counted a fix. */
  datatype Site = Site(len: nat, out: string, counted: bool)

  /** `[\'"]` */
  predicate IsQuote(c: char) {
    c == '\'' || c == '"'
  }

  const TypeEscape: string := " as any"
  const AsMarker: string := " as "

  // =======================================================================================
  // `.eq('c', v)` and `.in('c', v)`:  \.eq\([\'"](\w+)[\'"]\s*,\s*(\w+)\)

  /** The parts of a filter call: the two quotes, the column, the blanks around the comma and
      the value. */
  datatype FilterParts = FilterParts(open: char, column: string, close: char,
                                     before: string, after: string, value: string)

  predicate FilterWellFormed(p: FilterParts) {
    && IsQuote(p.open) && IsQuote(p.close)
    && p.column != [] && AllIn(p.column, Word)
    && AllIn(p.before, Space) && AllIn(p.after, Space)
    && p.value != [] && AllIn(p.value, Word)
  }

  function FilterHead(name: string): string {
    "." + name + "("
  }

  /** `[\'"](\w+)[\'"]`: a quoted column name, and what follows it. */
  function QuotedWord(x: string): Option<(char, string, char, string)> {
    if x == [] || !IsQuote(x[0]) then None
    else
      var (col, r) := Span(x[1..], Word);
      if col == [] || r == [] || !IsQuote(r[0]) then None
      else Some((x[0], col, r[0], r[1..]))
  }

  lemma QuotedWordSound(x: string)
    requires QuotedWord(x).Some?
    ensures var (o, col, c, rest) := QuotedWord(x).value;
      IsQuote(o) && IsQuote(c) && col != [] && AllIn(col, Word) && x == [o] + (col + ([c] + rest))
  {
    var (col, r) := Span(x[1..], Word);
    assert r == [r[0]] + r[1..];
    assert x == [x[0]] + x[1..];
  }

  lemma QuotedWordComplete(o: char, col: string, c: char, rest: string)
    requires IsQuote(o) && IsQuote(c) && col != [] && AllIn(col, Word)
    ensures QuotedWord([o] + (col + ([c] + rest))) == Some((o, col, c, rest))
  {
    var x := [o] + (col + ([c] + rest));
    assert x[1..] == col + ([c] + rest);
    SpanOf(col, [c] + rest, Word);
    assert ([c] + rest)[1..] == rest;
  }

  /** `\s*,\s*(\w+)\)`: the blanks around the comma, the value, and what follows the `)`. */
  function CommaValue(x: string): Option<(string, string, string, string)> {
    var (ws1, r1) := Span(x, Space);
    if !("," <= r1) then None
    else
      var (ws2, r2) := Span(r1[1..], Space);
      var (v, r3) := Span(r2, Word);
      if v == [] || !(")" <= r3) then None
      else Some((ws1, ws2, v, r3[1..]))
  }

  lemma CommaValueSound(x: string)
    requires CommaValue(x).Some?
    ensures var (ws1, ws2, v, rest) := CommaValue(x).value;
      AllIn(ws1, Space) && AllIn(ws2, Space) && v != [] && AllIn(v, Word)
      && x == ws1 + ("," + (ws2 + (v + (")" + rest))))
  {
    var (ws1, r1) := Span(x, Space);
    var (ws2, r2) := Span(r1[1..], Space);
    var (v, r3) := Span(r2, Word);
    assert r3 == ")" + r3[1..];
    assert r1 == "," + r1[1..];
  }

  lemma CommaValueComplete(ws1: string, ws2: string, v: string, rest: string)
    requires AllIn(ws1, Space) && AllIn(ws2, Space) && v != [] && AllIn(v, Word)
    ensures CommaValue(ws1 + ("," + (ws2 + (v + (")" + rest))))) == Some((ws1, ws2, v, rest))
  {
    var x3 := v + (")" + rest);
    var x2 := ws2 + x3;
    var x1 := "," + x2;
    SpanOf(ws1, x1, Space);
    assert x1[1..] == x2;
    SpanOf(ws2, x3, Space);
    SpanOf(v, ")" + rest, Word);
    assert (")" + rest)[1..] == rest;
  }

  /** The text of a filter call as the pattern accepts it. */
  function FilterText(name: string, p: FilterParts): string {
    FilterHead(name) + ([p.open] + (p.column + ([p.close] + (p.before + ("," + (p.after + (p.value + ")")))))))
  }

  /** The filter call at the start of `s`, if any, and the text after it. */
  function ParseFilter(name: string, s: string): Option<(FilterParts, string)> {
    var head := FilterHead(name);
    if !(head <= s) then None
    else match QuotedWord(s[|head|..])
      case None => None
      case Some((o, col, c, r)) =>
        match CommaValue(r)
        case None => None
        case Some((ws1, ws2, v, rest)) => Some((FilterParts(o, col, c, ws1, ws2, v), rest))
  }

  /** The matcher accepts only well-formed filter calls, and what it consumes is their text. */
  lemma FilterSound(name: string, s: string)
    requires ParseFilter(name, s).Some?
    ensures var (p, rest) := ParseFilter(name, s).value;
      FilterWellFormed(p) && s == FilterText(name, p) + rest
  {
    var head := FilterHead(name);
    QuotedWordSound(s[|head|..]);
    var (o, col, c, r) := QuotedWord(s[|head|..]).value;
    CommaValueSound(r);
    var (ws1, ws2, v, rest) := CommaValue(r).value;
    var p := FilterParts(o, col, c, ws1, ws2, v);
    assert ParseFilter(name, s).value == (p, rest);
    assert s == head + s[|head|..];
    var e7 := v + ")";
    var e6 := ws2 + e7;
    var e5 := "," + e6;
    var e4 := ws1 + e5;
    var e3 := [c] + e4;
    var e2 := col + e3;
    var e1 := [o] + e2;
    Assoc(v, ")", rest);
    Assoc(ws2, e7, rest);
    Assoc(",", e6, rest);
    Assoc(ws1, e5, rest);
    Assoc([c], e4, rest);
    Assoc(col, e3, rest);
    Assoc([o], e2, rest);
    Assoc(head, e1, rest);
  }

  /** Every well-formed filter call is matched, whatever follows it. */
  lemma FilterComplete(name: string, p: FilterParts, rest: string)
    requires FilterWellFormed(p)
    ensures ParseFilter(name, FilterText(name, p) + rest) == Some((p, rest))
  {
    var head := FilterHead(name);
    var x2 := p.before + ("," + (p.after + (p.value + (")" + rest))));
    var x1 := [p.open] + (p.column + ([p.close] + x2));
    var s := FilterText(name, p) + rest;
    assert s == head + x1;
    assert s[|head|..] == x1;
    QuotedWordComplete(p.open, p.column, p.close, x2);
    CommaValueComplete(p.before, p.after, p.value, rest);
  }

  /** The replacement the `.eq`/`.in` templates were meant to produce: `.eq('c', v as any)`. */
  function FilterOut(name: string, p: FilterParts): string {
    FilterHead(name) + ("'" + (p.column + ("', " + (p.value + (TypeEscape + ")")))))
  }

  /** The replacement the templates produce as written: Python keeps the backslash of the
      unknown escape `\'` in a replacement template, giving `.eq(\'c\', v as any)`. */
  function FilterOutAsWritten(name: string, p: FilterParts): string {
    FilterHead(name) + ("\\'" + (p.column + ("\\', " + (p.value + (TypeEscape + ")")))))
  }

  /** Which replacement a rewrite writes: the text the script's template or callback produces,
      or the one it was meant to produce. */
  datatype Template = AsWritten | Intended

  function FilterReplacement(t: Template, name: string, p: FilterParts): string {
    match t
    case AsWritten => FilterOutAsWritten(name, p)
    case Intended => FilterOut(name, p)
  }

  function FilterSite(name: string, t: Template, s: string): (m: Option<Site>)
    ensures m.Some? ==> 1 <= m.value.len <= |s| && m.value.counted
  {
    match ParseFilter(name, s)
    case None => None
    case Some((p, rest)) =>
      FilterSound(name, s);
      Some(Site(|s| - |rest|, FilterReplacement(t, name, p), true))
  }

  // =======================================================================================
  // The destructuring of a select query:
  //   const\s+\{\s*data:\s*(\w+)(?:,\s*error:\s*(\w+))?\s*\}\s*=\s*await\s+supabase\s*
  //   \.from\([\'"](\w+)[\'"]\)\s*\.select\(

  /** The three names the pattern captures. */
  datatype SelectParts = SelectParts(data: string, error: Option<string>, table: string)

  /** The blanks of a select destructuring, named after what they follow (the two around
      `error:` are unused without an error variable), and the quotes around the table. */
  datatype SelectLayout = SelectLayout(
    afterConst: string, afterBrace: string, afterData: string,
    beforeError: string, afterError: string,
    beforeClose: string, afterClose: string, afterEquals: string, afterAwait: string,
    afterClient: string, open: char, close: char, beforeSelect: string)

  predicate IsName(s: string) {
    s != [] && AllIn(s, Word)
  }

  predicate IsBlank(s: string) {
    AllIn(s, Space)
  }

  predicate SelectWellFormed(p: SelectParts, l: SelectLayout) {
    && IsName(p.data) && (p.error.Some? ==> IsName(p.error.value)) && IsName(p.table)
    && l.afterConst != [] && IsBlank(l.afterConst) && IsBlank(l.afterBrace) && IsBlank(l.afterData)
    && IsBlank(l.beforeError) && IsBlank(l.afterError)
    && IsBlank(l.beforeClose) && IsBlank(l.afterClose) && IsBlank(l.afterEquals)
    && l.afterAwait != [] && IsBlank(l.afterAwait) && IsBlank(l.afterClient)
    && IsQuote(l.open) && IsQuote(l.close) && IsBlank(l.beforeSelect)
    // without an error variable the blanks around `error:` are empty, so a text has one layout
    && (p.error.None? ==> l.beforeError == [] && l.afterError == [])
  }

  /** `const\s+\{\s*data:\s*(\w+)` */
  function LeadText(g0: string, g1: string, g2: string, d: string): string {
    "const" + (g0 + ("{" + (g1 + ("data:" + (g2 + d)))))
  }

  function ParseLead(s: string): Option<(string, string, string, string, string)> {
    if !("const" <= s) then None
    else
      var (g0, r0) := Span(s[5..], Space);
      if g0 == [] || !("{" <= r0) then None
      else
        var (g1, r1) := Span(r0[1..], Space);
        if !("data:" <= r1) then None
        else
          var (g2, r2) := Span(r1[5..], Space);
          var (d, r3) := Span(r2, Word);
          if d == [] then None else Some((g0, g1, g2, d, r3))
  }

  lemma LeadSound(s: string)
    requires ParseLead(s).Some?
    ensures var (g0, g1, g2, d, rest) := ParseLead(s).value;
      && g0 != [] && AllIn(g0, Space) && AllIn(g1, Space) && AllIn(g2, Space) && IsName(d)
      && (rest == [] || !IsWordChar(rest[0]))
      && s == LeadText(g0, g1, g2, d) + rest
  {
    var (g0, r0) := Span(s[5..], Space);
    var (g1, r1) := Span(r0[1..], Space);
    var (g2, r2) := Span(r1[5..], Space);
    var (d, r3) := Span(r2, Word);
    assert r1 == "data:" + r1[5..];
    assert r0 == "{" + r0[1..];
    assert s == "const" + s[5..];
    Assoc(g2, d, r3);
    Assoc("data:", g2 + d, r3);
    Assoc(g1, "data:" + (g2 + d), r3);
    Assoc("{", g1 + ("data:" + (g2 + d)), r3);
    Assoc(g0, "{" + (g1 + ("data:" + (g2 + d))), r3);
    Assoc("const", g0 + ("{" + (g1 + ("data:" + (g2 + d)))), r3);
  }

  lemma LeadComplete(g0: string, g1: string, g2: string, d: string, rest: string)
    requires g0 != [] && AllIn(g0, Space) && AllIn(g1, Space) && AllIn(g2, Space) && IsName(d)
    requires rest == [] || !IsWordChar(rest[0])
    ensures ParseLead(LeadText(g0, g1, g2, d) + rest) == Some((g0, g1, g2, d, rest))
  {
    var x3 := d + rest;
    var x2 := g2 + x3;
    var x1 := "data:" + x2;
    var x0 := g1 + x1;
    var s := LeadText(g0, g1, g2, d) + rest;
    Assoc(g2, d, rest);
    Assoc("data:", g2 + d, rest);
    Assoc(g1, "data:" + (g2 + d), rest);
    Assoc("{", g1 + ("data:" + (g2 + d)), rest);
    Assoc(g0, "{" + (g1 + ("data:" + (g2 + d))), rest);
    Assoc("const", g0 + ("{" + (g1 + ("data:" + (g2 + d)))), rest);
    assert s == "const" + (g0 + ("{" + x0));
    assert s[5..] == g0 + ("{" + x0);
    SpanOf(g0, "{" + x0, Space);
    assert ("{" + x0)[1..] == x0;
    SpanOf(g1, x1, Space);
    assert x1[5..] == x2;
    SpanOf(g2, x3, Space);
    SpanOf(d, rest, Word);
  }

  /** `(?:,\s*error:\s*(\w+))?`: when the text goes on with a comma, the group has to match for
      the pattern to match at all (the `\s*\}` that would follow cannot start at a comma). The
      outer `None` is a failed match; the inner option is the group. */
  function ParseErrorVar(s: string): Option<(Option<(string, string, string)>, string)> {
    if !("," <= s) then Some((None, s))
    else
      var (g3, r0) := Span(s[1..], Space);
      if !("error:" <= r0) then None
      else
        var (g4, r1) := Span(r0[6..], Space);
        var (e, r2) := Span(r1, Word);
        if e == [] then None else Some((Some((g3, g4, e)), r2))
  }

  function ErrorVarText(e: Option<(string, string, string)>): string {
    match e
    case None => ""
    case Some((g3, g4, v)) => "," + (g3 + ("error:" + (g4 + v)))
  }

  lemma ErrorVarSound(s: string)
    requires ParseErrorVar(s).Some?
    ensures var (e, rest) := ParseErrorVar(s).value;
      && (e.Some? ==> AllIn(e.value.0, Space) && AllIn(e.value.1, Space) && IsName(e.value.2)
                      && (rest == [] || !IsWordChar(rest[0])))
      && (e.None? ==> rest == s && !("," <= s))
      && s == ErrorVarText(e) + rest
  {
    if "," <= s {
      ErrorGroupSound(s);
    } else {
      assert "" + s == s;
    }
  }

  lemma ErrorGroupSound(s: string)
    requires "," <= s && ParseErrorVar(s).Some?
    ensures var (e, rest) := ParseErrorVar(s).value;
      && e.Some? && AllIn(e.value.0, Space) && AllIn(e.value.1, Space) && IsName(e.value.2)
      && (rest == [] || !IsWordChar(rest[0]))
      && s == ErrorVarText(e) + rest
  {
    var (g3, r0) := Span(s[1..], Space);
    var (g4, r1) := Span(r0[6..], Space);
    var (e, r2) := Span(r1, Word);
    var tail := "error:" + (g4 + (e + r2));
    assert r0 == "error:" + r0[6..];
    assert r0 == tail;
    assert s == "," + (g3 + tail);
    Assoc(g4, e, r2);
    Assoc("error:", g4 + e, r2);
    Assoc(g3, "error:" + (g4 + e), r2);
    Assoc(",", g3 + ("error:" + (g4 + e)), r2);
  }

  lemma ErrorVarComplete(e: Option<(string, string, string)>, rest: string)
    requires e.Some? ==> AllIn(e.value.0, Space) && AllIn(e.value.1, Space) && IsName(e.value.2)
                         && (rest == [] || !IsWordChar(rest[0]))
    requires e.None? ==> !("," <= rest)
    ensures ParseErrorVar(ErrorVarText(e) + rest) == Some((e, rest))
  {
    if e.Some? {
      var (g3, g4, v) := e.value;
      Assoc(g4, v, rest);
      Assoc("error:", g4 + v, rest);
      Assoc(g3, "error:" + (g4 + v), rest);
      Assoc(",", g3 + ("error:" + (g4 + v)), rest);
      var x1 := g4 + (v + rest);
      var x0 := g3 + ("error:" + x1);
      var s := ErrorVarText(e) + rest;
      assert s == "," + x0;
      assert s[1..] == x0;
      SpanOf(g3, "error:" + x1, Space);
      assert ("error:" + x1)[6..] == x1;
      SpanOf(g4, v + rest, Space);
      SpanOf(v, rest, Word);
    } else {
      assert ErrorVarText(e) + rest == rest;
    }
  }

  /** `\s*\}\s*=\s*await\s+supabase\s*\.from\(` */
  function MidText(g5: string, g6: string, g7: string, g8: string, g9: string): string {
    g5 + ("}" + (g6 + ("=" + (g7 + ("await" + (g8 + ("supabase" + (g9 + ".from("))))))))
  }

  function ParseMid(s: string): Option<(string, string, string, string, string, string)> {
    var (g5, r0) := Span(s, Space);
    if !("}" <= r0) then None
    else
      var (g6, r1) := Span(r0[1..], Space);
      if !("=" <= r1) then None
      else
        var (g7, r2) := Span(r1[1..], Space);
        if !("await" <= r2) then None
        else
          var (g8, r3) := Span(r2[5..], Space);
          if g8 == [] || !("supabase" <= r3) then None
          else
            var (g9, r4) := Span(r3[8..], Space);
            if !(".from(" <= r4) then None
            else Some((g5, g6, g7, g8, g9, r4[6..]))
  }

  lemma MidAssoc(g5: string, g6: string, g7: string, g8: string, g9: string, rest: string)
    ensures MidText(g5, g6, g7, g8, g9) + rest
         == g5 + ("}" + (g6 + ("=" + (g7 + ("await" + (g8 + ("supabase" + (g9 + (".from(" + rest)))))))))
  {
    var t8 := "supabase" + (g9 + ".from(");
    var t6 := "=" + (g7 + ("await" + (g8 + t8)));
    Assoc(g9, ".from(", rest);
    Assoc("supabase", g9 + ".from(", rest);
    Assoc(g8, t8, rest);
    Assoc("await", g8 + t8, rest);
    Assoc(g7, "await" + (g8 + t8), rest);
    Assoc("=", g7 + ("await" + (g8 + t8)), rest);
    Assoc(g6, t6, rest);
    Assoc("}", g6 + t6, rest);
    Assoc(g5, "}" + (g6 + t6), rest);
  }

  lemma MidSound(s: string)
    requires ParseMid(s).Some?
    ensures var (g5, g6, g7, g8, g9, rest) := ParseMid(s).value;
      && IsBlank(g5) && IsBlank(g6) && IsBlank(g7) && g8 != [] && IsBlank(g8) && IsBlank(g9)
      && s == MidText(g5, g6, g7, g8, g9) + rest
  {
    var (g5, r0) := Span(s, Space);
    var (g6, r1) := Span(r0[1..], Space);
    var (g7, r2) := Span(r1[1..], Space);
    var (g8, r3) := Span(r2[5..], Space);
    var (g9, r4) := Span(r3[8..], Space);
    var rest := r4[6..];
    assert r4 == ".from(" + rest;
    assert r3 == "supabase" + r3[8..];
    assert r2 == "await" + r2[5..];
    assert r1 == "=" + r1[1..];
    assert r0 == "}" + r0[1..];
    MidAssoc(g5, g6, g7, g8, g9, rest);
  }

  lemma MidComplete(g5: string, g6: string, g7: string, g8: string, g9: string, rest: string)
    requires IsBlank(g5) && IsBlank(g6) && IsBlank(g7) && g8 != [] && IsBlank(g8) && IsBlank(g9)
    ensures ParseMid(MidText(g5, g6, g7, g8, g9) + rest) == Some((g5, g6, g7, g8, g9, rest))
  {
    var x9 := g9 + (".from(" + rest);
    var x8 := g8 + ("supabase" + x9);
    var x7 := g7 + ("await" + x8);
    var x6 := g6 + ("=" + x7);
    MidAssoc(g5, g6, g7, g8, g9, rest);
    SpanOf(g5, "}" + x6, Space);
    assert ("}" + x6)[1..] == x6;
    SpanOf(g6, "=" + x7, Space);
    assert ("=" + x7)[1..] == x7;
    SpanOf(g7, "await" + x8, Space);
    assert ("await" + x8)[5..] == x8;
    SpanOf(g8, "supabase" + x9, Space);
    assert ("supabase" + x9)[8..] == x9;
    SpanOf(g9, ".from(" + rest, Space);
    assert (".from(" + rest)[6..] == rest;
  }

  /** The middle of a select destructuring starts with a blank or the closing brace. */
  lemma MidStart(g5: string, g6: string, g7: string, g8: string, g9: string, x: string)
    requires IsBlank(g5)
    ensures var s := MidText(g5, g6, g7, g8, g9) + x; s != [] && (IsSpace(s[0]) || s[0] == '}')
  {
    MidAssoc(g5, g6, g7, g8, g9, x);
    var s := MidText(g5, g6, g7, g8, g9) + x;
    if g5 == [] {
      assert s[0] == '}';
    } else {
      assert s[0] == g5[0];
    }
  }

  /** `[\'"](\w+)[\'"]\)\s*\.select\(` */
  function TableText(open: char, t: string, close: char, g10: string): string {
    [open] + (t + ([close] + (")" + (g10 + ".select("))))
  }

  function ParseTable(s: string): Option<(char, string, char, string, string)> {
    match QuotedWord(s)
    case None => None
    case Some((o, t, c, r0)) =>
      if !(")" <= r0) then None
      else
        var (g10, r1) := Span(r0[1..], Space);
        if !(".select(" <= r1) then None else Some((o, t, c, g10, r1[8..]))
  }

  lemma TableSound(s: string)
    requires ParseTable(s).Some?
    ensures var (o, t, c, g10, rest) := ParseTable(s).value;
      && IsQuote(o) && IsQuote(c) && IsName(t) && AllIn(g10, Space)
      && s == TableText(o, t, c, g10) + rest
  {
    QuotedWordSound(s);
    var (o, t, c, r0) := QuotedWord(s).value;
    var (g10, r1) := Span(r0[1..], Space);
    var rest := r1[8..];
    assert r1 == ".select(" + rest;
    assert r0 == ")" + r0[1..];
    Assoc(g10, ".select(", rest);
    Assoc(")", g10 + ".select(", rest);
    Assoc([c], ")" + (g10 + ".select("), rest);
    Assoc(t, [c] + (")" + (g10 + ".select(")), rest);
    Assoc([o], t + ([c] + (")" + (g10 + ".select("))), rest);
  }

  lemma TableComplete(o: char, t: string, c: char, g10: string, rest: string)
    requires IsQuote(o) && IsQuote(c) && IsName(t) && AllIn(g10, Space)
    ensures ParseTable(TableText(o, t, c, g10) + rest) == Some((o, t, c, g10, rest))
  {
    var x1 := g10 + (".select(" + rest);
    Assoc(g10, ".select(", rest);
    Assoc(")", g10 + ".select(", rest);
    Assoc([c], ")" + (g10 + ".select("), rest);
    Assoc(t, [c] + (")" + (g10 + ".select(")), rest);
    Assoc([o], t + ([c] + (")" + (g10 + ".select("))), rest);
    QuotedWordComplete(o, t, c, ")" + x1);
    assert (")" + x1)[1..] == x1;
    SpanOf(g10, ".select(" + rest, Space);
    assert (".select(" + rest)[8..] == rest;
  }

  /** The error group of a destructuring with its two blanks, as `ParseErrorVar` returns it. */
  function ErrorGroup(p: SelectParts, l: SelectLayout): Option<(string, string, string)> {
    if p.error.Some? then Some((l.beforeError, l.afterError, p.error.value)) else None
  }

  /** The text of a select destructuring as the pattern accepts it. */
  function SelectText(p: SelectParts, l: SelectLayout): string {
    LeadText(l.afterConst, l.afterBrace, l.afterData, p.data)
      + (ErrorVarText(ErrorGroup(p, l))
         + (MidText(l.beforeClose, l.afterClose, l.afterEquals, l.afterAwait, l.afterClient)
            + TableText(l.open, p.table, l.close, l.beforeSelect)))
  }

  function ParseSelect(s: string): Option<(SelectParts, SelectLayout, string)> {
    match ParseLead(s)
    case None => None
    case Some((g0, g1, g2, d, r0)) => SelectAfterLead((g0, g1, g2, d), r0)
  }

  /** The blanks of `const {  data:  ` and the data variable. */
  type Lead = (string, string, string, string)

  /** The blanks of `}  =  await  supabase  .from(`. */
  type Mid = (string, string, string, string, string)

  /** After the data variable: the optional error variable, then the rest. */
  function SelectAfterLead(lead: Lead, r0: string): Option<(SelectParts, SelectLayout, string)> {
    match ParseErrorVar(r0)
    case None => None
    case Some((e, r1)) => SelectAfterError(lead, e, r1)
  }

  /** After the error variable: `} = await supabase.from(`, then the rest. */
  function SelectAfterError(lead: Lead, e: Option<(string, string, string)>, r1: string)
    : Option<(SelectParts, SelectLayout, string)>
  {
    match ParseMid(r1)
    case None => None
    case Some((g5, g6, g7, g8, g9, r2)) => SelectAfterMid(lead, e, (g5, g6, g7, g8, g9), r2)
  }

  /** After `.from(`: the quoted table and `).select(`, which complete the match. */
  function SelectAfterMid(lead: Lead, e: Option<(string, string, string)>, mid: Mid, r2: string)
    : Option<(SelectParts, SelectLayout, string)>
  {
    match ParseTable(r2)
    case None => None
    case Some((o, t, c, g10, rest)) =>
      var g3 := if e.Some? then e.value.0 else "";
      var g4 := if e.Some? then e.value.1 else "";
      var err := if e.Some? then Some(e.value.2) else None;
      Some((SelectParts(lead.3, err, t),
            SelectLayout(lead.0, lead.1, lead.2, g3, g4, mid.0, mid.1, mid.2, mid.3, mid.4, o, c, g10), rest))
  }

  lemma SelectAssoc(p: SelectParts, l: SelectLayout, rest: string)
    ensures SelectText(p, l) + rest
         == LeadText(l.afterConst, l.afterBrace, l.afterData, p.data)
            + (ErrorVarText(ErrorGroup(p, l))
               + (MidText(l.beforeClose, l.afterClose, l.afterEquals, l.afterAwait, l.afterClient)
                  + (TableText(l.open, p.table, l.close, l.beforeSelect) + rest)))
  {
    var tb := TableText(l.open, p.table, l.close, l.beforeSelect);
    var md := MidText(l.beforeClose, l.afterClose, l.afterEquals, l.afterAwait, l.afterClient);
    var ld := LeadText(l.afterConst, l.afterBrace, l.afterData, p.data);
    var et := ErrorVarText(ErrorGroup(p, l));
    Assoc(md, tb, rest);
    Assoc(et, md + tb, rest);
    Assoc(ld, et + (md + tb), rest);
  }

  /** The matcher accepts only well-formed select destructurings, and what it consumes is their
      text. */
  lemma SelectSound(s: string)
    requires ParseSelect(s).Some?
    ensures var (p, l, rest) := ParseSelect(s).value;
      SelectWellFormed(p, l) && s == SelectText(p, l) + rest
  {
    LeadSound(s);
    var (g0, g1, g2, d, r0) := ParseLead(s).value;
    ErrorVarSound(r0);
    var (e, r1) := ParseErrorVar(r0).value;
    MidSound(r1);
    var (g5, g6, g7, g8, g9, r2) := ParseMid(r1).value;
    TableSound(r2);
    assert ParseSelect(s) == SelectAfterMid((g0, g1, g2, d), e, (g5, g6, g7, g8, g9), r2);
    var (p, l, rest) := ParseSelect(s).value;
    assert ErrorGroup(p, l) == e;
    SelectAssoc(p, l, rest);
  }

  /** Every well-formed select destructuring is matched, whatever follows it. */
  lemma SelectComplete(p: SelectParts, l: SelectLayout, rest: string)
    requires SelectWellFormed(p, l)
    ensures ParseSelect(SelectText(p, l) + rest) == Some((p, l, rest))
  {
    var lead := (l.afterConst, l.afterBrace, l.afterData, p.data);
    var e := ErrorGroup(p, l);
    var mid := (l.beforeClose, l.afterClose, l.afterEquals, l.afterAwait, l.afterClient);
    var x2 := TableText(l.open, p.table, l.close, l.beforeSelect) + rest;
    var x1 := MidText(mid.0, mid.1, mid.2, mid.3, mid.4) + x2;
    var x0 := ErrorVarText(e) + x1;
    SelectAssoc(p, l, rest);
    LeadStage(lead, x0);
    ErrorStage(lead, e, mid, x2);
    MidStage(lead, e, mid, x2);
    TableStage(p, l, rest);
  }

  /** The lead of a well-formed destructuring is matched up to what follows the data variable. */
  lemma LeadStage(lead: Lead, x0: string)
    requires lead.0 != [] && IsBlank(lead.0) && IsBlank(lead.1) && IsBlank(lead.2) && IsName(lead.3)
    requires x0 != [] && (x0[0] == ',' || IsSpace(x0[0]) || x0[0] == '}')
    ensures ParseSelect(LeadText(lead.0, lead.1, lead.2, lead.3) + x0) == SelectAfterLead(lead, x0)
  {
    LeadComplete(lead.0, lead.1, lead.2, lead.3, x0);
  }

  /** The error variable, when there is one, is matched up to the `}` part. */
  lemma ErrorStage(lead: Lead, e: Option<(string, string, string)>, mid: Mid, x2: string)
    requires e.Some? ==> IsBlank(e.value.0) && IsBlank(e.value.1) && IsName(e.value.2)
    requires IsBlank(mid.0)
    ensures var x1 := MidText(mid.0, mid.1, mid.2, mid.3, mid.4) + x2;
      && ErrorVarText(e) + x1 != []
      && var x0 := ErrorVarText(e) + x1;
      && (x0[0] == ',' || IsSpace(x0[0]) || x0[0] == '}')
      && SelectAfterLead(lead, x0) == SelectAfterError(lead, e, x1)
  {
    var x1 := MidText(mid.0, mid.1, mid.2, mid.3, mid.4) + x2;
    MidStart(mid.0, mid.1, mid.2, mid.3, mid.4, x2);
    var x0 := ErrorVarText(e) + x1;
    if e.Some? {
      assert x0[0] == ',';
    } else {
      assert x0 == x1;
    }
    ErrorVarComplete(e, x1);
  }

  /** `} = await supabase.from(` is matched up to the table. */
  lemma MidStage(lead: Lead, e: Option<(string, string, string)>, mid: Mid, x2: string)
    requires IsBlank(mid.0) && IsBlank(mid.1) && IsBlank(mid.2) && mid.3 != [] && IsBlank(mid.3) && IsBlank(mid.4)
    ensures SelectAfterError(lead, e, MidText(mid.0, mid.1, mid.2, mid.3, mid.4) + x2) == SelectAfterMid(lead, e, mid, x2)
  {
    MidComplete(mid.0, mid.1, mid.2, mid.3, mid.4, x2);
  }

  /** The table completes the match with the parts and the layout it was built from. */
  lemma TableStage(p: SelectParts, l: SelectLayout, rest: string)
    requires SelectWellFormed(p, l)
    ensures SelectAfterMid((l.afterConst, l.afterBrace, l.afterData, p.data), ErrorGroup(p, l),
                           (l.beforeClose, l.afterClose, l.afterEquals, l.afterAwait, l.afterClient),
                           TableText(l.open, p.table, l.close, l.beforeSelect) + rest)
         == Some((p, l, rest))
  {
    TableComplete(l.open, p.table, l.close, l.beforeSelect, rest);
  }

  /** The canonical destructuring the callback writes back: single blanks, single quotes and
      no type assertion. */
  function SelectOut(p: SelectParts): string {
    "const { data: " + p.data + (if p.error.Some? then ", error: " + p.error.value else "")
      + " } = await supabase.from('" + p.table + "').select("
  }

  function CanonicalLayout(p: SelectParts): SelectLayout {
    var e := if p.error.Some? then " " else "";
    SelectLayout(" ", " ", " ", e, e, " ", " ", " ", " ", "", '\'', '\'', "")
  }

  /** The canonical text is a destructuring in the canonical layout. */
  lemma SelectOutIsText(p: SelectParts)
    requires IsName(p.data) && (p.error.Some? ==> IsName(p.error.value)) && IsName(p.table)
    ensures SelectWellFormed(p, CanonicalLayout(p))
    ensures SelectOut(p) == SelectText(p, CanonicalLayout(p))
  {
    CanonicalWellFormed(p);
    var x := " } = await supabase.from('";
    var y := "').select(";
    var a := "const { data: " + p.data;
    var e := if p.error.Some? then ", error: " + p.error.value else "";
    CanonicalPieces(p);
    assert SelectOut(p) == (((a + e) + x) + p.table) + y;
    Assoc(a + e, x, p.table);
    Assoc(a + e, x + p.table, y);
    Assoc(a, e, x + p.table + y);
  }

  lemma CanonicalWellFormed(p: SelectParts)
    requires IsName(p.data) && (p.error.Some? ==> IsName(p.error.value)) && IsName(p.table)
    ensures SelectWellFormed(p, CanonicalLayout(p))
  {
    assert IsBlank(" ") && IsBlank("");
  }

  /** The three pieces of the canonical text. */
  lemma CanonicalPieces(p: SelectParts)
    ensures LeadText(" ", " ", " ", p.data) == "const { data: " + p.data
    ensures ErrorVarText(ErrorGroup(p, CanonicalLayout(p)))
         == if p.error.Some? then ", error: " + p.error.value else ""
    ensures MidText(" ", " ", " ", " ", "") + TableText('\'', p.table, '\'', "")
         == " } = await supabase.from('" + p.table + "').select("
  {
    CanonicalLead(p.data);
    CanonicalError(p);
    CanonicalTail(p.table);
  }

  lemma CanonicalLead(d: string)
    ensures LeadText(" ", " ", " ", d) == "const { data: " + d
  {
    Assoc("const { data:", " ", d);
  }

  lemma CanonicalError(p: SelectParts)
    ensures ErrorVarText(ErrorGroup(p, CanonicalLayout(p)))
         == if p.error.Some? then ", error: " + p.error.value else ""
  {
    if p.error.Some? {
      Assoc(", error:", " ", p.error.value);
    }
  }

  lemma CanonicalTail(t: string)
    ensures MidText(" ", " ", " ", " ", "") + TableText('\'', t, '\'', "")
         == " } = await supabase.from('" + t + "').select("
  {
    var m := " } = await supabase.from(";
    assert MidText(" ", " ", " ", " ", "") == m;
    var c := "').select(";
    assert TableText('\'', t, '\'', "") == "'" + (t + c);
    assert m + "'" == " } = await supabase.from('";
    Assoc(m, "'", t + c);
    Assoc(m + "'", t, c);
  }

  function SelectSite(s: string): (m: Option<Site>)
    ensures m.Some? ==> 1 <= m.value.len <= |s|
    ensures m.Some? && !m.value.counted ==> m.value.out == s[..m.value.len]
  {
    match ParseSelect(s)
    case None => None
    case Some((p, l, rest)) =>
      SelectSound(s);
      var n := |s| - |rest|;
      if Contains(s[..n], AsMarker) then Some(Site(n, s[..n], false))
      else Some(Site(n, SelectOut(p), true))
  }

  // =======================================================================================
  // `.insert(arg)` and `.update(arg)`:  \.(insert|update)\(([^)]+)\)

  /** The argument text up to the first `)` (greedy `[^)]+` followed by `)`). */
  function MatchCall(s: string): Option<(string, string)> {
    var verb := if ".insert(" <= s then "insert" else if ".update(" <= s then "update" else "";
    if verb == "" then None
    else
      var (arg, r) := Span(s[8..], Except(')'));
      if arg == [] || r == [] then None else Some((verb, arg))
  }

  predicate IsWriteMethod(m: string) {
    m == "insert" || m == "update"
  }

  function CallText(verb: string, arg: string): string {
    "." + verb + "(" + arg + ")"
  }

  lemma CallSound(s: string)
    requires MatchCall(s).Some?
    ensures var (m, arg) := MatchCall(s).value;
      && IsWriteMethod(m) && arg != [] && AllIn(arg, Except(')'))
      && |CallText(m, arg)| <= |s| && s[..|CallText(m, arg)|] == CallText(m, arg)
  {
    var (m, arg) := MatchCall(s).value;
    var (a, r) := Span(s[8..], Except(')'));
    assert s[..8] == "." + m + "(";
    assert s == s[..8] + a + r;
    assert s == CallText(m, arg) + r[1..];
  }

  lemma CallComplete(m: string, arg: string, rest: string)
    requires IsWriteMethod(m) && arg != [] && AllIn(arg, Except(')'))
    ensures MatchCall(CallText(m, arg) + rest) == Some((m, arg))
  {
    var s := CallText(m, arg) + rest;
    var head := "." + m + "(";
    assert s == head + (arg + (")" + rest));
    assert s[..8] == head;
    if m == "insert" {
      assert ".insert(" <= s;
    } else {
      assert s[1] == 'u';
      assert ".update(" <= s;
    }
    assert s[8..] == arg + (")" + rest);
    SpanOf(arg, ")" + rest, Except(')'));
  }

  /** Only an object literal or a bare identifier is given the escape (after stripping). */
  predicate Eligible(arg: string) {
    var t := Strip(arg);
    t != [] && (t[0] == '{' || AllIn(t, Word))
  }

  function CallSite(s: string): (m: Option<Site>)
    ensures m.Some? ==> 1 <= m.value.len <= |s|
    ensures m.Some? && !m.value.counted ==> m.value.out == s[..m.value.len]
  {
    match MatchCall(s)
    case None => None
    case Some((verb, arg)) =>
      CallSound(s);
      var n := |CallText(verb, arg)|;
      if Contains(arg, AsMarker) || !Eligible(arg) then Some(Site(n, s[..n], false))
      else Some(Site(n, CallText(verb, arg + TypeEscape), true))
  }
}
