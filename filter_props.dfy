/** Properties of the `.eq(...)` / `.in(...)` substitutions of `fix_any_to_never_errors`: what a
    call becomes, and that after either substitution (and after both, in the script's order)
    neither pattern matches anywhere in the text. */
module FilterProperties {
  import opened Text
  import opened Options
  import opened Rules
  import opened Rewrite

  predicate IsFilter(r: Rule) {
    r.EqFilter? || r.InFilter?
  }

  function FilterName(r: Rule): string
    requires IsFilter(r)
  {
    if r.EqFilter? then "eq" else "in"
  }

  /** A well-formed call is replaced by the rule's template, `.eq(\'c\', v as any)` as written
      or `.eq('c', v as any)` as intended (resp. `.in`), and counted. */
  lemma FilterRewrite(r: Rule, p: FilterParts, rest: string)
    requires IsFilter(r) && FilterWellFormed(p)
    ensures var n := FilterName(r);
      MatchAt(r, FilterText(n, p) + rest)
        == Some(Site(|FilterText(n, p)|, FilterReplacement(r.template, n, p), true))
  {
    FilterComplete(FilterName(r), p, rest);
  }

  /** Past its first character, a filter call holds no `.`. */
  lemma FilterTextDots(name: string, p: FilterParts)
    requires (name == "eq" || name == "in") && FilterWellFormed(p)
    ensures forall i :: 1 <= i < |FilterText(name, p)| ==> FilterText(name, p)[i] != '.'
  {
    NotInClass(p.column, Word, '.');
    NotInClass(p.value, Word, '.');
    NotInClass(p.before, Space, '.');
    NotInClass(p.after, Space, '.');
    var d := name + ("(" + ([p.open] + (p.column + ([p.close] + (p.before + ("," + (p.after + (p.value + ")"))))))));
    assert '.' !in d;
    assert FilterText(name, p) == "." + d;
  }

  /** Past its first character, a rewritten call holds no `.`, whichever the template. */
  lemma ReplacementDots(t: Template, name: string, p: FilterParts)
    requires (name == "eq" || name == "in") && FilterWellFormed(p)
    ensures var out := FilterReplacement(t, name, p);
      forall i :: 1 <= i < |out| ==> out[i] != '.'
  {
    NotInClass(p.column, Word, '.');
    NotInClass(p.value, Word, '.');
    var q := if t == AsWritten then "\\'" else "'";
    ReplacementAfterDot(t, name, p, q);
  }

  lemma ReplacementAfterDot(t: Template, name: string, p: FilterParts, q: string)
    requires q == if t == AsWritten then "\\'" else "'"
    ensures var d := name + "(" + q + p.column + q + ", " + p.value + TypeEscape + ")";
      FilterReplacement(t, name, p) == "." + d
  {
  }

  /** A rewritten call does not match its own pattern, whichever the template. */
  lemma ReplacementNoRematch(t: Template, name: string, p: FilterParts, rest: string)
    requires (name == "eq" || name == "in") && FilterWellFormed(p)
    ensures ParseFilter(name, FilterReplacement(t, name, p) + rest).None?
  {
    match t
    case Intended => FilterOutNoRematch(name, p, rest);
    case AsWritten => AsWrittenNoRematch(name, p, rest);
  }

  /** The call the templates write as written does not match its pattern: after `(` comes a
      backslash, not a quote. */
  lemma AsWrittenNoRematch(name: string, p: FilterParts, rest: string)
    requires (name == "eq" || name == "in") && FilterWellFormed(p)
    ensures ParseFilter(name, FilterOutAsWritten(name, p) + rest).None?
  {
    var s := FilterOutAsWritten(name, p) + rest;
    var head := FilterHead(name);
    assert s[|head|] == '\\';
    assert s[|head|..][0] == '\\';
  }

  /** A rewritten call does not match its own pattern: after the value comes ` as any)`, not
      `)`. */
  lemma FilterOutNoRematch(name: string, p: FilterParts, rest: string)
    requires (name == "eq" || name == "in") && FilterWellFormed(p)
    ensures ParseFilter(name, FilterOut(name, p) + rest).None?
  {
    var tail := " as any)" + rest;
    var r := ", " + (p.value + tail);
    var x := "'" + (p.column + ("'" + r));
    var s := FilterOut(name, p) + rest;
    FilterOutAssoc(name, p, rest);
    assert s[|FilterHead(name)|..] == x;
    QuotedWordComplete('\'', p.column, '\'', r);
    TypedValueStops(p.value, rest);
  }

  /** `, v as any)` is not `\s*,\s*(\w+)\)`: after the value comes a blank, not `)`. */
  lemma TypedValueStops(v: string, rest: string)
    requires v != [] && AllIn(v, Word)
    ensures CommaValue(", " + (v + (" as any)" + rest))).None?
  {
    var tail := " as any)" + rest;
    var r := ", " + (v + tail);
    SpanOf([], r, Space);
    assert [] + r == r;
    assert r[1..] == " " + (v + tail);
    SpanOf(" ", v + tail, Space);
    SpanOf(v, tail, Word);
  }

  lemma FilterOutAssoc(name: string, p: FilterParts, rest: string)
    ensures FilterOut(name, p) + rest
         == FilterHead(name) + ("'" + (p.column + ("'" + (", " + (p.value + (" as any)" + rest))))))
  {
    var e := " as any)";
    assert TypeEscape + ")" == e;
    Assoc(p.value, e, rest);
    assert "', " + (p.value + e) + rest == "', " + (p.value + (e + rest));
    assert "', " + (p.value + (e + rest)) == "'" + (", " + (p.value + (e + rest)));
    Assoc(p.column, "', " + (p.value + e), rest);
    Assoc("'", p.column + ("', " + (p.value + e)), rest);
    Assoc(FilterHead(name), "'" + (p.column + ("', " + (p.value + e))), rest);
  }

  /** Neither filter pattern matches at any position of a rewritten call. */
  lemma FilterOutInert(r: Rule, q: Rule, p: FilterParts, rest: string)
    requires IsFilter(r) && IsFilter(q) && FilterWellFormed(p)
    ensures var out := FilterReplacement(r.template, FilterName(r), p);
      forall i :: 0 <= i < |out| ==> MatchAt(q, (out + rest)[i..]).None?
  {
    var out := FilterReplacement(r.template, FilterName(r), p);
    ReplacementDots(r.template, FilterName(r), p);
    forall i | 0 <= i < |out|
      ensures MatchAt(q, (out + rest)[i..]).None?
    {
      var x := (out + rest)[i..];
      if i == 0 {
        assert x == out + rest;
        if FilterName(q) == FilterName(r) {
          ReplacementNoRematch(r.template, FilterName(r), p, rest);
        } else {
          assert x[1] != FilterHead(FilterName(q))[1];
          Mismatch(x, 0, FilterHead(FilterName(q)), 1);
        }
      } else {
        assert x[0] == out[i];
        DotLedNoMatch(q, x);
      }
    }
  }

  /** What a dot-led substitution does after the first character cannot create a filter call
      starting at that character. */
  lemma FilterLocal(name: string, c: char, t: string, r: Rule)
    requires (name == "eq" || name == "in") && DotLed(r)
    requires ParseFilter(name, [c] + t).None?
    ensures ParseFilter(name, [c] + Sub(r, t).text).None?
  {
    var (a, b) := Span(t, Except('.'));
    DotSplit(r, t);
    var z := Sub(r, b).text;
    var y := Sub(r, t).text;
    assert y == a + z;
    if ParseFilter(name, [c] + y).Some? {
      FilterSound(name, [c] + y);
      var (p, rest) := ParseFilter(name, [c] + y).value;
      var f := FilterText(name, p);
      FilterTextDots(name, p);
      var w := PrefixWithin(c, a, z, f, rest);
      Regroup(c, a, b, f, w);
      FilterComplete(name, p, w + b);
      assert false;
    }
  }

  /** A prefix of `[c] + a + z` that holds no `.` after its first character, where `z` is
      empty or starts with `.`, lies within `[c] + a`. */
  lemma PrefixWithin(c: char, a: string, z: string, f: string, rest: string) returns (w: string)
    requires [c] + (a + z) == f + rest
    requires z == [] || z[0] == '.'
    requires forall i :: 1 <= i < |f| ==> f[i] != '.'
    ensures [c] + a == f + w
  {
    var s := [c] + (a + z);
    assert forall i :: 0 <= i < |f| ==> s[i] == f[i];
    assert 1 + |a| < |s| ==> s[1 + |a|] == z[0] == '.';
    assert |f| <= 1 + |a|;
    var ca := [c] + a;
    assert ca == ([c] + (a + z))[..1 + |a|];
    assert ca[..|f|] == f;
    w := ca[|f|..];
    assert ca == ca[..|f|] + w;
  }

  lemma Regroup(c: char, a: string, b: string, f: string, w: string)
    requires [c] + a == f + w
    ensures [c] + (a + b) == f + (w + b)
  {
    Assoc([c], a, b);
    Assoc(f, w, b);
  }

  /** After a filter substitution, neither filter pattern matches in the result — the same one
      because rewritten calls and the text between them no longer match it, the other provided
      it matched nowhere before. */
  lemma {:induction false} FilterNoMatchAfter(q: Rule, r: Rule, s: string)
    requires IsFilter(q) && IsFilter(r)
    requires q == r || NoMatch(q, s)
    ensures NoMatch(q, Sub(r, s).text)
    decreases |s|
  {
    if s != [] {
      match MatchAt(r, s)
      case Some(site) =>
        FilterSound(FilterName(r), s);
        var (p, _) := ParseFilter(FilterName(r), s).value;
        if q != r {
          NoMatchSuffix(q, s, site.len);
        }
        FilterNoMatchAfter(q, r, s[site.len..]);
        var y := Sub(r, s[site.len..]).text;
        FilterOutInert(r, q, p, y);
        NoMatchConcat(q, site.out, y);
      case None =>
        if q != r {
          NoMatchSuffix(q, s, 1);
          assert s[0..] == s;
        }
        FilterNoMatchAfter(q, r, s[1..]);
        var y := Sub(r, s[1..]).text;
        assert s == [s[0]] + s[1..];
        FilterLocal(FilterName(q), s[0], s[1..], r);
        assert ([s[0]] + y)[0..] == [s[0]] + y;
        NoMatchConcat(q, [s[0]], y);
    }
  }

  /** A second pass of a filter substitution changes nothing and counts nothing. */
  lemma FilterIdempotent(r: Rule, s: string)
    requires IsFilter(r)
    ensures Sub(r, Sub(r, s).text) == Rewritten(Sub(r, s).text, 0)
  {
    FilterNoMatchAfter(r, r, s);
    SubNoMatch(r, Sub(r, s).text);
  }

  /** The templates as written leave a backslash before each quote around the column, a
      character the intended replacement never holds. */
  lemma FilterTemplateBackslash(name: string, p: FilterParts)
    requires (name == "eq" || name == "in") && FilterWellFormed(p)
    ensures FilterOutAsWritten(name, p)[|FilterHead(name)|] == '\\'
    ensures '\\' !in FilterOut(name, p)
    ensures FilterOutAsWritten(name, p) != FilterOut(name, p)
  {
    NotInClass(p.column, Word, '\\');
    NotInClass(p.value, Word, '\\');
    var d := name + "(" + "'" + p.column + "', " + p.value + TypeEscape + ")";
    assert '\\' !in d;
    assert FilterOut(name, p) == "." + d;
    assert FilterOutAsWritten(name, p)[|FilterHead(name)|] == '\\';
  }
}
