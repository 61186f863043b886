/** Properties of the two substitutions of `fix_supabase_never_types`: what a destructuring and an
    `.insert(...)`/`.update(...)` call become, and that a second pass leaves the result alone. */
module SupabaseProperties {
  import opened Text
  import opened Options
  import opened Rules
  import opened Rewrite

  // =======================================================================================
  // `.insert(arg)` / `.update(arg)`

  /** The callback leaves the call alone: the argument already holds ` as `, or it is neither an
      object literal nor a bare identifier. */
  predicate Skipped(arg: string) {
    Contains(arg, AsMarker) || !Eligible(arg)
  }

  /** A skipped call is kept and not counted; any other gets ` as any` after its argument and
      counts once. */
  lemma CallRewrite(verb: string, arg: string, rest: string)
    requires IsWriteMethod(verb) && arg != [] && AllIn(arg, Except(')'))
    ensures MatchAt(WriteCall, CallText(verb, arg) + rest)
         == Some(if Skipped(arg) then Site(|CallText(verb, arg)|, CallText(verb, arg), false)
                 else Site(|CallText(verb, arg)|, CallText(verb, arg + TypeEscape), true))
  {
    CallComplete(verb, arg, rest);
    var s := CallText(verb, arg) + rest;
    assert s[..|CallText(verb, arg)|] == CallText(verb, arg);
  }

  /** What a call is rewritten to is kept, and not counted, by a second pass, whatever follows
      it. */
  lemma CallRewriteStable(verb: string, arg: string, rest: string, rest2: string)
    requires IsWriteMethod(verb) && arg != [] && AllIn(arg, Except(')'))
    ensures var out := if Skipped(arg) then CallText(verb, arg) else CallText(verb, arg + TypeEscape);
      MatchAt(WriteCall, out + rest2) == Some(Site(|out|, out, false))
  {
    if Skipped(arg) {
      CallRewrite(verb, arg, rest2);
    } else {
      EscapedStable(verb, arg, rest2);
    }
  }

  /** An argument that ends with ` as any` is skipped. */
  lemma EscapedStable(verb: string, arg: string, rest2: string)
    requires IsWriteMethod(verb) && arg != [] && AllIn(arg, Except(')'))
    ensures var out := CallText(verb, arg + TypeEscape);
      MatchAt(WriteCall, out + rest2) == Some(Site(|out|, out, false))
  {
    var arg2 := arg + TypeEscape;
    assert StartsAt(arg2, |arg|, AsMarker) by {
      assert arg2[|arg|..|arg| + |AsMarker|] == AsMarker;
    }
    ContainsAt(arg2, |arg|, AsMarker);
    assert AllIn(arg2, Except(')'));
    CallRewrite(verb, arg2, rest2);
  }

  /** Every call the pattern matches ends with `)`. */
  lemma CallNeedsParen(x: string)
    requires MatchAt(WriteCall, x).Some?
    ensures ')' in x
  {
    CallSound(x);
    var (verb, arg) := MatchCall(x).value;
    var n := |CallText(verb, arg)|;
    assert x[..n][n - 1] == ')';
  }

  /** A text without `)` holds no call. */
  lemma ParenFree(t: string)
    requires ')' !in t
    ensures Sub(WriteCall, t) == Rewritten(t, 0)
  {
    forall i | 0 <= i < |t|
      ensures MatchAt(WriteCall, t[i..]).None?
    {
      if MatchAt(WriteCall, t[i..]).Some? {
        CallNeedsParen(t[i..]);
      }
    }
    SubNoMatch(WriteCall, t);
  }

  predicate CallPrefix(x: string) {
    ".insert(" <= x || ".update(" <= x
  }

  /** With a call prefix and a `)` after it, the pattern fails only on an empty argument. */
  lemma EmptyArgument(c: char, t: string)
    requires CallPrefix([c] + t) && ')' in t && MatchCall([c] + t).None?
    ensures |t| > 7 && t[7] == ')'
  {
    var s := [c] + t;
    assert forall j :: 0 <= j < 7 ==> t[j] == s[..8][j + 1] != ')';
    var i :| 0 <= i < |t| && t[i] == ')';
    assert s[8..][i - 7] == ')';
    CallPrefixFails(s);
    FirstParen(s[8..]);
    assert s[8..][0] == t[7];
  }

  /** After a call prefix the pattern fails only on an empty argument or a missing `)`. */
  lemma CallPrefixFails(s: string)
    requires CallPrefix(s) && MatchCall(s).None?
    ensures |s| >= 8 && (Span(s[8..], Except(')')).0 == [] || Span(s[8..], Except(')')).1 == [])
  {
  }

  /** A text holding `)` whose run of non-`)` characters is empty, or reaches the end, starts
      with `)`. */
  lemma FirstParen(x: string)
    requires ')' in x
    requires Span(x, Except(')')).0 == [] || Span(x, Except(')')).1 == []
    ensures x[0] == ')'
  {
    var (a, r) := Span(x, Except(')'));
    if r == [] {
      NotInClass(x, Except(')'), ')');
    }
  }

  /** `a` is the longest prefix of `t` without a `.`. */
  predicate DotFreeStretch(a: string, t: string) {
    AllIn(a, Except('.')) && a <= t && (|a| == |t| || t[|a|] == '.')
  }

  /** Rewriting what follows a position cannot create a call prefix at it: the prefix holds no
      `.` past its first character, and the rewrite keeps the `.`-free stretch after that
      character and puts a `.` (or nothing) after it. */
  lemma PrefixNotCreated(c: char, t: string, a: string, z: string)
    requires DotFreeStretch(a, t) && (z == [] || z[0] == '.')
    requires !CallPrefix([c] + t)
    ensures !CallPrefix([c] + (a + z))
  {
    var x := [c] + (a + z);
    if |a| >= 7 {
      assert x[..8] == ([c] + t)[..8];
    } else if z != [] {
      assert x[1 + |a|] == '.';
    }
  }

  /** A call prefix followed by `)` stays so when what follows the `.` is rewritten. */
  lemma EmptyArgumentKept(c: char, t: string, a: string, z: string)
    requires DotFreeStretch(a, t) && (z == [] || z[0] == '.')
    requires CallPrefix([c] + t) && |t| > 7 && t[7] == ')'
    ensures MatchCall([c] + (a + z)).None?
  {
    var s := [c] + t;
    var x := [c] + (a + z);
    assert forall i :: 0 <= i < 8 ==> t[i] == s[i + 1] != '.';
    assert |a| >= 8;
    assert x[..9] == s[..9];
    assert x[8] == ')';
  }

  /** Where no call starts at a position, rewriting what follows does not create one there. */
  lemma WriteLocal(c: char, t: string)
    requires MatchCall([c] + t).None?
    ensures MatchCall([c] + Sub(WriteCall, t).text).None?
  {
    var s := [c] + t;
    if ')' !in t {
      ParenFree(t);
    } else {
      var (a, b) := Span(t, Except('.'));
      DotSplit(WriteCall, t);
      var z := Sub(WriteCall, b).text;
      assert Sub(WriteCall, t).text == a + z;
      assert DotFreeStretch(a, t);
      if !CallPrefix(s) {
        PrefixNotCreated(c, t, a, z);
      } else {
        EmptyArgument(c, t);
        EmptyArgumentKept(c, t, a, z);
      }
    }
  }

  /** A second `.insert`/`.update` pass over the result changes nothing and counts nothing. */
  lemma {:induction false} WriteIdempotent(s: string)
    ensures WriteStable(s)
    decreases |s|
  {
    if s != [] {
      match MatchAt(WriteCall, s)
      case Some(site) =>
        WriteIdempotent(s[site.len..]);
        WriteStableAtSite(s, site);
      case None =>
        WriteIdempotent(s[1..]);
        WriteStableAtChar(s);
    }
  }

  /** The second pass over the first pass's output changes nothing and counts nothing. */
  predicate WriteStable(s: string) {
    Sub(WriteCall, Sub(WriteCall, s).text) == Rewritten(Sub(WriteCall, s).text, 0)
  }

  /** Where a call starts, stability carries over from the text after the call. */
  lemma WriteStableAtSite(s: string, site: Site)
    requires MatchAt(WriteCall, s) == Some(site) && WriteStable(s[site.len..])
    ensures WriteStable(s)
  {
    SiteOutStable(s, site, Sub(WriteCall, s[site.len..]).text);
    StableAtSite(WriteCall, s, site);
  }

  /** What a call site is rewritten to is kept, and not counted, by a second pass. */
  lemma SiteOutStable(s: string, site: Site, y: string)
    requires MatchAt(WriteCall, s) == Some(site)
    ensures MatchAt(WriteCall, site.out + y) == Some(Site(|site.out|, site.out, false))
  {
    CallSound(s);
    var (verb, arg) := MatchCall(s).value;
    CallRewriteStable(verb, arg, [], y);
  }

  /** Where no call starts, stability carries over from the text after the first character. */
  lemma WriteStableAtChar(s: string)
    requires s != [] && MatchAt(WriteCall, s).None? && WriteStable(s[1..])
    ensures WriteStable(s)
  {
    var y := Sub(WriteCall, s[1..]).text;
    assert s == [s[0]] + s[1..];
    WriteLocal(s[0], s[1..]);
    assert ([s[0]] + y)[1..] == y;
  }

  // =======================================================================================
  // `const { data: X[, error: Y] } = await supabase.from('T').select(`

  /** A destructuring whose matched text holds ` as ` is kept and not counted; any other is
      replaced by the canonical text and counts once, even when it was canonical already. */
  lemma SelectRewrite(p: SelectParts, l: SelectLayout, rest: string)
    requires SelectWellFormed(p, l)
    ensures var span := SelectText(p, l);
      MatchAt(SelectQuery, span + rest)
        == Some(if Contains(span, AsMarker) then Site(|span|, span, false)
                else Site(|span|, SelectOut(p), true))
  {
    SelectComplete(p, l, rest);
    var s := SelectText(p, l) + rest;
    assert s[..|SelectText(p, l)|] == SelectText(p, l);
  }

  /** The canonical text is a fixed point of the rewrite: a second pass matches exactly it and
      writes it back unchanged (counting it again unless it holds ` as `). */
  lemma SelectFixedPoint(p: SelectParts, rest: string)
    requires IsName(p.data) && (p.error.Some? ==> IsName(p.error.value)) && IsName(p.table)
    ensures MatchAt(SelectQuery, SelectOut(p) + rest)
         == Some(Site(|SelectOut(p)|, SelectOut(p), !Contains(SelectOut(p), AsMarker)))
  {
    SelectOutIsText(p);
    SelectRewrite(p, CanonicalLayout(p), rest);
  }

  /** Rewriting a destructuring and rewriting the result give the same text. */
  lemma SelectStable(p: SelectParts, l: SelectLayout, rest2: string)
    requires SelectWellFormed(p, l)
    ensures var span := SelectText(p, l);
      var out := if Contains(span, AsMarker) then span else SelectOut(p);
      MatchAt(SelectQuery, out + rest2).Some?
      && MatchAt(SelectQuery, out + rest2).value.len == |out|
      && MatchAt(SelectQuery, out + rest2).value.out == out
  {
    if Contains(SelectText(p, l), AsMarker) {
      SelectRewrite(p, l, rest2);
    } else {
      SelectFixedPoint(p, rest2);
    }
  }
}
