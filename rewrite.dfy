/** `re.sub(pattern, repl, text)`: scanning left to right, the pattern is tried at each
    position; a match is replaced by what the callback or template returns and the scan resumes
    after it, otherwise the character is kept and the scan moves on by one. The callbacks'
    `nonlocal fixes` counter is returned beside the text. */
module Rewrite {
  import opened Text
  import opened Options
  import opened Rules
  import opened CatchRule

  /** The five substitutions the script performs. */
  datatype Rule =
    | SelectQuery       // pattern1 with `add_type_assertion`
    | WriteCall         // `.insert(...)` / `.update(...)` with `fix_insert_update`
    | EqFilter(template: Template)    // `.eq(...)` with its template
    | InFilter(template: Template)    // `.in(...)` with its template
    | CatchBlock(template: Template)  // the catch pattern with `fix_catch`
    | FlatCatchBlock                  // the catch pattern with its block search corrected

  /** The outcome of trying a rule at the start of `s`. */
  function MatchAt(r: Rule, s: string): (m: Option<Site>)
    ensures m.Some? ==> 1 <= m.value.len <= |s|
    ensures m.Some? && !m.value.counted ==> m.value.out == s[..m.value.len]
  {
    match r
    case SelectQuery => SelectSite(s)
    case WriteCall => CallSite(s)
    case EqFilter(t) => FilterSite("eq", t, s)
    case InFilter(t) => FilterSite("in", t, s)
    case CatchBlock(t) => CatchSite(t, s)
    case FlatCatchBlock => FlatCatchSite(s)
  }

  /** The new text and the number of fixes the callback counted. */
  datatype Rewritten = Rewritten(text: string, count: nat)

  function Sub(r: Rule, s: string): Rewritten
    decreases |s|
  {
    if s == [] then Rewritten([], 0)
    else match MatchAt(r, s)
      case Some(site) =>
        var rest := Sub(r, s[site.len..]);
        Rewritten(site.out + rest.text, rest.count + (if site.counted then 1 else 0))
      case None =>
        var rest := Sub(r, s[1..]);
        Rewritten([s[0]] + rest.text, rest.count)
  }

  /** Sites where the callback counts nothing are returned unchanged, so a substitution that
      counted nothing left the text as it was. */
  lemma {:induction false} SubUncounted(r: Rule, s: string)
    requires Sub(r, s).count == 0
    ensures Sub(r, s).text == s
    decreases |s|
  {
    if s != [] {
      match MatchAt(r, s)
      case Some(site) =>
        SubUncounted(r, s[site.len..]);
        UncountedAtSite(r, s, site);
      case None =>
        SubUncounted(r, s[1..]);
        UncountedAtChar(r, s);
    }
  }

  /** Where nothing matches the character is kept, so the text is kept when it is kept after
      the character. */
  lemma UncountedAtChar(r: Rule, s: string)
    requires s != [] && MatchAt(r, s).None?
    requires Sub(r, s[1..]).text == s[1..]
    ensures Sub(r, s).text == s
  {
    assert s == [s[0]] + s[1..];
  }

  /** An uncounted site is kept, so the text is kept when it is kept after the site. */
  lemma UncountedAtSite(r: Rule, s: string, site: Site)
    requires MatchAt(r, s) == Some(site) && !site.counted
    requires Sub(r, s[site.len..]).text == s[site.len..]
    ensures Sub(r, s).text == s
  {
    assert s == s[..site.len] + s[site.len..];
  }

  /** The rule matches nowhere in `s`. */
  predicate NoMatch(r: Rule, s: string) {
    forall i :: 0 <= i < |s| ==> MatchAt(r, s[i..]).None?
  }

  /** Where the rule matches nowhere, the substitution keeps the text and counts nothing. */
  lemma {:induction false} SubNoMatch(r: Rule, s: string)
    requires NoMatch(r, s)
    ensures Sub(r, s) == Rewritten(s, 0)
    decreases |s|
  {
    if s != [] {
      assert MatchAt(r, s[0..]).None?;
      assert s[0..] == s;
      forall i | 0 <= i < |s[1..]|
        ensures MatchAt(r, s[1..][i..]).None?
      {
        assert s[1..][i..] == s[i + 1..];
      }
      SubNoMatch(r, s[1..]);
      assert s == [s[0]] + s[1..];
    }
  }

  /** A prefix at none of whose positions the rule matches is passed over unchanged. */
  lemma {:induction false} SubInert(r: Rule, a: string, x: string)
    requires forall i :: 0 <= i < |a| ==> MatchAt(r, (a + x)[i..]).None?
    ensures Sub(r, a + x) == Rewritten(a + Sub(r, x).text, Sub(r, x).count)
    decreases |a|
  {
    if a == [] {
      assert a + x == x;
    } else {
      InertTail(r, a, x);
      SubInert(r, a[1..], x);
      SubSkipPrefix(r, a, x);
      assert a == [a[0]] + a[1..];
      Assoc([a[0]], a[1..], Sub(r, x).text);
    }
  }

  /** An inert prefix stays inert without its first character, and the rule does not match at
      its start. */
  lemma InertTail(r: Rule, a: string, x: string)
    requires a != []
    requires forall i :: 0 <= i < |a| ==> MatchAt(r, (a + x)[i..]).None?
    ensures MatchAt(r, a + x).None? && (a + x)[0] == a[0]
    ensures forall i :: 0 <= i < |a[1..]| ==> MatchAt(r, (a[1..] + x)[i..]).None?
  {
    var s := a + x;
    assert MatchAt(r, s[0..]).None?;
    assert s[0..] == s;
    forall i | 0 <= i < |a[1..]|
      ensures MatchAt(r, (a[1..] + x)[i..]).None?
    {
      assert (a[1..] + x)[i..] == s[i + 1..];
    }
  }

  /** Where the rule does not match at the start, the first character is kept. */
  lemma SubSkipPrefix(r: Rule, a: string, x: string)
    requires a != [] && MatchAt(r, a + x).None?
    ensures Sub(r, a + x) == Rewritten([a[0]] + Sub(r, a[1..] + x).text, Sub(r, a[1..] + x).count)
  {
    assert (a + x)[1..] == a[1..] + x;
  }

  /** A site matched at the start is replaced by the callback's text, counted when the
      callback counted, and the scan resumes right after the matched text. */
  lemma SubAtSite(r: Rule, a: string, out: string, counted: bool, x: string)
    requires a != [] && MatchAt(r, a + x) == Some(Site(|a|, out, counted))
    ensures Sub(r, a + x) == Rewritten(out + Sub(r, x).text, Sub(r, x).count + (if counted then 1 else 0))
  {
    assert (a + x)[|a|..] == x;
  }

  /** A site that takes the whole text is the whole outcome. */
  lemma SubWhole(r: Rule, s: string, out: string, counted: bool)
    requires MatchAt(r, s) == Some(Site(|s|, out, counted))
    ensures Sub(r, s) == Rewritten(out, if counted then 1 else 0)
  {
    assert s[|s|..] == [];
    assert out + [] == out;
  }

  /** A second pass leaves the output at a site alone when the rule keeps, uncounted, what it
      wrote there and leaves the output after the site alone. */
  lemma StableAtSite(r: Rule, s: string, site: Site)
    requires MatchAt(r, s) == Some(site)
    requires var y := Sub(r, s[site.len..]).text;
      && MatchAt(r, site.out + y) == Some(Site(|site.out|, site.out, false))
      && Sub(r, y) == Rewritten(y, 0)
    ensures Sub(r, Sub(r, s).text) == Rewritten(Sub(r, s).text, 0)
  {
    SubAtSite(r, site.out, site.out, false, Sub(r, s[site.len..]).text);
  }

  /** Matches nowhere in `a`'s positions and nowhere in `y` give no match in `a + y`. */
  lemma NoMatchConcat(r: Rule, a: string, y: string)
    requires forall i :: 0 <= i < |a| ==> MatchAt(r, (a + y)[i..]).None?
    requires NoMatch(r, y)
    ensures NoMatch(r, a + y)
  {
    forall i | |a| <= i < |a + y|
      ensures MatchAt(r, (a + y)[i..]).None?
    {
      var k := i - |a|;
      assert MatchAt(r, y[k..]).None?;
      assert (a + y)[i..] == y[k..];
    }
  }

  lemma NoMatchSuffix(r: Rule, s: string, k: nat)
    requires NoMatch(r, s) && k <= |s|
    ensures NoMatch(r, s[k..])
  {
    forall i | 0 <= i < |s[k..]|
      ensures MatchAt(r, s[k..][i..]).None?
    {
      assert s[k..][i..] == s[k + i..];
    }
  }

  /** The rules whose pattern starts with a `.` and whose replacement does too. */
  predicate DotLed(r: Rule) {
    r.WriteCall? || r.EqFilter? || r.InFilter?
  }

  lemma DotLedSite(r: Rule, x: string)
    requires DotLed(r) && MatchAt(r, x).Some?
    ensures x[0] == '.' && MatchAt(r, x).value.out != [] && MatchAt(r, x).value.out[0] == '.'
  {
    if r.WriteCall? {
      CallSound(x);
    } else {
      var name := if r.EqFilter? then "eq" else "in";
      FilterSound(name, x);
    }
  }

  /** A dot-led rule does not match at a position that does not hold a `.`. */
  lemma DotLedNoMatch(r: Rule, x: string)
    requires DotLed(r) && (x == [] || x[0] != '.')
    ensures MatchAt(r, x).None?
  {
    if MatchAt(r, x).Some? {
      DotLedSite(r, x);
    }
  }

  /** A dot-led rule passes over a text without `.` unchanged. */
  lemma DotFreeInert(r: Rule, a: string, x: string)
    requires DotLed(r) && AllIn(a, Except('.'))
    ensures Sub(r, a + x) == Rewritten(a + Sub(r, x).text, Sub(r, x).count)
  {
    forall i | 0 <= i < |a|
      ensures MatchAt(r, (a + x)[i..]).None?
    {
      DotLedNoMatch(r, (a + x)[i..]);
    }
    SubInert(r, a, x);
  }

  /** A dot-led rule keeps a text that starts with `.` starting with `.`. */
  lemma DotLedStart(r: Rule, b: string)
    requires DotLed(r) && (b == [] || b[0] == '.')
    ensures Sub(r, b).text == [] || Sub(r, b).text[0] == '.'
  {
    if b != [] && MatchAt(r, b).Some? {
      DotLedSite(r, b);
    }
  }

  /** A dot-led rule leaves the longest `.`-free prefix of a text in place and puts a text
      that is empty or starts with `.` after it. */
  lemma DotSplit(r: Rule, t: string)
    requires DotLed(r)
    ensures var (a, b) := Span(t, Except('.'));
      && Sub(r, t).text == a + Sub(r, b).text
      && (Sub(r, b).text == [] || Sub(r, b).text[0] == '.')
  {
    var (a, b) := Span(t, Except('.'));
    DotFreeInert(r, a, b);
    DotLedStart(r, b);
  }
}
