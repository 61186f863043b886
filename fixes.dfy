/** The three fix functions as transformations of a file's text, each with the counter its
    callbacks or loop kept, and what the function returns. */
module Fixes {
  import opened Rules
  import opened Rewrite
  import opened FilterProperties

  /** `fix_supabase_never_types`: the select destructurings, then the `.insert`/`.update`
      calls; the counter holds what both callbacks counted. */
  function SupabaseFix(s: string): Rewritten {
    var selects := Sub(SelectQuery, s);
    var calls := Sub(WriteCall, selects.text);
    Rewritten(calls.text, selects.count + calls.count)
  }

  /** The pattern list of `fix_any_to_never_errors`, in its order. */
  const FilterPatterns: seq<Rule> := [EqFilter(AsWritten), InFilter(AsWritten)]

  /** The loop of `fix_any_to_never_errors`: each substitution that changed the text adds one to
      the counter, however many calls it rewrote. */
  function ApplyPatterns(ps: seq<Rule>, s: string): Rewritten
    decreases |ps|
  {
    if ps == [] then Rewritten(s, 0)
    else
      var before := ApplyPatterns(ps[..|ps| - 1], s);
      var after := Sub(ps[|ps| - 1], before.text).text;
      if after != before.text then Rewritten(after, before.count + 1) else before
  }

  function AnyToNeverFix(s: string): Rewritten {
    ApplyPatterns(FilterPatterns, s)
  }

  /** `fix_error_handling`: the catch substitution. */
  function ErrorHandlingFix(s: string): Rewritten {
    Sub(CatchBlock(AsWritten), s)
  }

  /** What a fix function returns: its counter when it wrote the file, 0 when it did not. */
  function Returned(s: string, r: Rewritten): nat {
    if r.text != s then r.count else 0
  }

  /** A counter of 0 means the text was left alone, so a fix function returns a positive count
      exactly when it writes. */
  lemma ReturnedPositive(s: string, r: Rewritten)
    requires r.count == 0 ==> r.text == s
    ensures Returned(s, r) > 0 <==> r.text != s
  {
  }

  /** Both substitutions of `fix_supabase_never_types` counted nothing only if the text is
      unchanged. */
  lemma SupabaseUncounted(s: string)
    ensures SupabaseFix(s).count == 0 ==> SupabaseFix(s).text == s
  {
    var selects := Sub(SelectQuery, s);
    if SupabaseFix(s).count == 0 {
      SubUncounted(SelectQuery, s);
      SubUncounted(WriteCall, selects.text);
    }
  }

  lemma ErrorHandlingUncounted(s: string)
    ensures ErrorHandlingFix(s).count == 0 ==> ErrorHandlingFix(s).text == s
  {
    if ErrorHandlingFix(s).count == 0 {
      SubUncounted(CatchBlock(AsWritten), s);
    }
  }

  /** The pattern loop counts at most one per pattern, and counts nothing only when no pattern
      changed the text. */
  lemma {:induction false} ApplyPatternsBound(ps: seq<Rule>, s: string)
    ensures ApplyPatterns(ps, s).count <= |ps|
    ensures ApplyPatterns(ps, s).count == 0 ==> ApplyPatterns(ps, s).text == s
    decreases |ps|
  {
    if ps != [] {
      ApplyPatternsBound(ps[..|ps| - 1], s);
    }
  }

  /** `fix_any_to_never_errors` counts 0, 1 or 2, and 0 only when nothing changed. */
  lemma AnyToNeverBound(s: string)
    ensures AnyToNeverFix(s).count <= 2
    ensures AnyToNeverFix(s).count == 0 ==> AnyToNeverFix(s).text == s
  {
    ApplyPatternsBound(FilterPatterns, s);
  }

  /** Two patterns applied one after the other: the text is the second substitution of the
      first; a pair that changes nothing counts nothing. */
  lemma ApplyPair(q: Rule, r: Rule, s: string)
    ensures ApplyPatterns([q, r], s).text == Sub(r, Sub(q, s).text).text
    ensures Sub(q, s).text == s && Sub(r, s).text == s ==> ApplyPatterns([q, r], s) == Rewritten(s, 0)
  {
    ApplyLast([], q, s);
    assert [] + [q] == [q];
    ApplyLast([q], r, s);
    assert [q] + [r] == [q, r];
  }

  /** One more pattern at the end of the list. */
  lemma ApplyLast(ps: seq<Rule>, r: Rule, s: string)
    ensures var before := ApplyPatterns(ps, s);
      var after := Sub(r, before.text).text;
      ApplyPatterns(ps + [r], s) == if after != before.text then Rewritten(after, before.count + 1) else before
  {
    assert (ps + [r])[..|ps|] == ps;
  }

  /** After `fix_any_to_never_errors` neither pattern matches anywhere, so running it again
      changes nothing and counts nothing. */
  lemma AnyToNeverIdempotent(s: string)
    ensures AnyToNeverFix(AnyToNeverFix(s).text) == Rewritten(AnyToNeverFix(s).text, 0)
  {
    var eqf, inf := EqFilter(AsWritten), InFilter(AsWritten);
    var t := Sub(eqf, s).text;
    var u := Sub(inf, t).text;
    ApplyPair(eqf, inf, s);
    FilterNoMatchAfter(eqf, eqf, s);
    FilterNoMatchAfter(eqf, inf, t);
    FilterNoMatchAfter(inf, inf, t);
    SubNoMatch(eqf, u);
    SubNoMatch(inf, u);
    ApplyPair(eqf, inf, u);
  }
}
