/** The patch loop of `main` as a function of the file contents: the ranked file list, the three
    fixes applied to each existing file in turn, and the two counters. */
module Patch {
  import opened Diagnostics
  import opened Ranking
  import opened Rewrite
  import opened Fixes

  // =======================================================================================
  // The ranked file list

  /** The `errors_by_file` dictionary `parse_errors` returns for these lines. */
  function GroupsOf(lines: seq<string>): Groups {
    var order := FirstSeen(Paths(Matches(lines)));
    Groups(order, map p | p in order :: RecordsFor(Matches(lines), p))
  }

  /** `sorted_files`: the (path, number of records) pairs, most records first. */
  function RankedCounts(lines: seq<string>): seq<FileCount> {
    Rank(Counts(GroupsOf(lines)))
  }

  function PathsOf(cs: seq<FileCount>): (ps: seq<string>)
    ensures |ps| == |cs| && forall i :: 0 <= i < |cs| ==> ps[i] == cs[i].path
  {
    seq(|cs|, i requires 0 <= i < |cs| => cs[i].path)
  }

  /** The paths in the order the loop visits them. */
  function RankedPaths(lines: seq<string>): seq<string> {
    PathsOf(RankedCounts(lines))
  }

  /** The loop visits every file named by a diagnostic and no other, each entry carrying its
      number of records; files with more records come first, and files with equal numbers keep
      the order in which they were first named. Without diagnostics there is nothing to visit. */
  lemma RankedPathsOrder(lines: seq<string>)
    ensures var es := Matches(lines);
      var rk := RankedCounts(lines);
      && |rk| == |FirstSeen(Paths(es))|
      && (forall i :: 0 <= i < |rk| ==> rk[i].count == |RecordsFor(es, rk[i].path)|)
      && (forall p :: p in RankedPaths(lines) <==> p in Paths(es))
      && (forall i, j :: 0 <= i < j < |rk| ==> rk[i].count >= rk[j].count)
      && (forall k :: WithCount(rk, k) == WithCount(Counts(GroupsOf(lines)), k))
      && (es == [] ==> RankedPaths(lines) == [])
  {
    var cs := Counts(GroupsOf(lines));
    RankSorted(cs);
    RankedEntries(lines);
    RankedCovers(lines);
    forall k
      ensures WithCount(RankedCounts(lines), k) == WithCount(cs, k)
    {
      RankStable(cs, k);
    }
  }

  /** Every ranked entry is a file named by a diagnostic, with its number of records. */
  lemma RankedEntries(lines: seq<string>)
    ensures var es := Matches(lines);
      var rk := RankedCounts(lines);
      && |rk| == |FirstSeen(Paths(es))|
      && forall i :: 0 <= i < |rk| ==> rk[i].count == |RecordsFor(es, rk[i].path)| && rk[i].path in Paths(es)
  {
    var es := Matches(lines);
    var cs := Counts(GroupsOf(lines));
    var rk := RankedCounts(lines);
    RankPermutation(cs);
    FirstSeenMembers(Paths(es));
    assert |rk| == |multiset(rk)| == |multiset(cs)| == |cs|;
    forall i | 0 <= i < |rk|
      ensures rk[i].count == |RecordsFor(es, rk[i].path)| && rk[i].path in Paths(es)
    {
      assert rk[i] in multiset(rk);
      assert rk[i] in cs;
    }
  }

  /** Every file named by a diagnostic is ranked. */
  lemma RankedCovers(lines: seq<string>)
    ensures forall p :: p in Paths(Matches(lines)) ==> p in RankedPaths(lines)
  {
    var es := Matches(lines);
    var g := GroupsOf(lines);
    var cs := Counts(g);
    var rk := RankedCounts(lines);
    RankPermutation(cs);
    FirstSeenMembers(Paths(es));
    forall p | p in Paths(es)
      ensures p in RankedPaths(lines)
    {
      var j :| 0 <= j < |g.order| && g.order[j] == p;
      assert cs[j] in multiset(cs);
      assert cs[j] in rk;
      var i :| 0 <= i < |rk| && rk[i] == cs[j];
      assert RankedPaths(lines)[i] == p;
    }
  }

  // =======================================================================================
  // The loop

  /** The files, the paths written so far (one entry per write), and `files_modified` and
      `total_fixes`. */
  datatype Patched = Patched(files: map<string, string>, writes: seq<string>, modified: nat, fixes: nat)

  /** The write a fix function makes: one, of `path`, when the text changed. */
  function Wrote(path: string, before: string, after: string): seq<string> {
    if after != before then [path] else []
  }

  /** One iteration: a missing file is skipped; otherwise the three fixes run in order, each
      on what the previous one left, and the file counts as modified when they returned a
      positive sum. */
  function PatchFile(st: Patched, path: string): Patched {
    if path !in st.files then st
    else
      var c0 := st.files[path];
      var r1 := SupabaseFix(c0);
      var r2 := AnyToNeverFix(r1.text);
      var r3 := ErrorHandlingFix(r2.text);
      Chained(st, path, r1, r2, r3)
  }

  /** The loop over a list of paths. */
  function PatchAll(st: Patched, paths: seq<string>): Patched
    decreases |paths|
  {
    if paths == [] then st else PatchFile(PatchAll(st, paths[..|paths| - 1]), paths[|paths| - 1])
  }

  /** The loop over one more path. */
  lemma PatchAllNext(st: Patched, paths: seq<string>, i: nat)
    requires i < |paths|
    ensures PatchAll(st, paths[..i + 1]) == PatchFile(PatchAll(st, paths[..i]), paths[i])
  {
    assert paths[..i + 1][..i] == paths[..i];
  }

  /** One iteration touches only its own file, keeps the set of files, writes only an existing
      file, and counts the file as modified exactly when it wrote it — and then with at least one
      fix; without a write the totals stay as they were. */
  lemma PatchFileStep(st: Patched, path: string)
    ensures StepFacts(st, path, PatchFile(st, path))
  {
    if path in st.files {
      var c0 := st.files[path];
      var r1 := SupabaseFix(c0);
      var r2 := AnyToNeverFix(r1.text);
      var r3 := ErrorHandlingFix(r2.text);
      SupabaseUncounted(c0);
      AnyToNeverBound(r1.text);
      ErrorHandlingUncounted(r2.text);
      ChainStep(st, path, r1, r2, r3);
    }
  }

  /** What one iteration guarantees about the state it leaves. */
  predicate StepFacts(st: Patched, path: string, r: Patched) {
    && r.files.Keys == st.files.Keys
    && (forall p :: p in st.files && p != path ==> r.files[p] == st.files[p])
    && st.writes <= r.writes && |r.writes| <= |st.writes| + 3
    && (forall i :: |st.writes| <= i < |r.writes| ==> r.writes[i] == path && path in st.files)
    && (r.modified == st.modified + 1 <==> |r.writes| > |st.writes|)
    && (r.modified == st.modified || r.modified == st.modified + 1)
    && (r.fixes == st.fixes <==> r.modified == st.modified)
    && r.fixes >= st.fixes
  }

  /** The state an iteration leaves after three fixes that returned `r1`, `r2`, `r3`. */
  function Chained(st: Patched, path: string, r1: Rewritten, r2: Rewritten, r3: Rewritten): Patched
    requires path in st.files
  {
    var c0 := st.files[path];
    var fixes := Returned(c0, r1) + Returned(r1.text, r2) + Returned(r2.text, r3);
    Patched(st.files[path := r3.text],
            st.writes + Wrote(path, c0, r1.text) + Wrote(path, r1.text, r2.text) + Wrote(path, r2.text, r3.text),
            if fixes > 0 then st.modified + 1 else st.modified,
            if fixes > 0 then st.fixes + fixes else st.fixes)
  }

  /** Three fixes that each count nothing only when they leave the text alone leave a state
      with the facts of one iteration. */
  lemma ChainStep(st: Patched, path: string, r1: Rewritten, r2: Rewritten, r3: Rewritten)
    requires path in st.files
    requires r1.count == 0 ==> r1.text == st.files[path]
    requires r2.count == 0 ==> r2.text == r1.text
    requires r3.count == 0 ==> r3.text == r2.text
    ensures StepFacts(st, path, Chained(st, path, r1, r2, r3))
  {
    var c0 := st.files[path];
    ReturnedPositive(c0, r1);
    ReturnedPositive(r1.text, r2);
    ReturnedPositive(r2.text, r3);
  }

  /** What the whole loop does: the same set of files, only visited files changed, only visited
      existing files written, at most one modified file per visit, every modified file adding at
      least one fix, and no fixes counted exactly when no file was modified, exactly when nothing
      was written. */
  lemma {:induction false} PatchAllSummary(st: Patched, paths: seq<string>)
    ensures var r := PatchAll(st, paths);
      && r.files.Keys == st.files.Keys
      && (forall p :: p in st.files && p !in paths ==> r.files[p] == st.files[p])
      && st.writes <= r.writes
      && (forall i :: |st.writes| <= i < |r.writes| ==> r.writes[i] in paths && r.writes[i] in st.files)
      && st.modified <= r.modified <= st.modified + |paths|
      && r.fixes - st.fixes >= r.modified - st.modified
      && (r.modified == st.modified <==> r.writes == st.writes)
      && (r.fixes == st.fixes <==> r.modified == st.modified)
    decreases |paths|
  {
    if paths != [] {
      var init := paths[..|paths| - 1];
      var path := paths[|paths| - 1];
      var mid := PatchAll(st, init);
      PatchAllSummary(st, init);
      PatchFileStep(mid, path);
      assert forall p :: p in init ==> p in paths;
      assert forall p :: p !in paths ==> p !in init && p != path;
    }
  }

  /** An iteration adds to the counters what it would add to zero counters. */
  lemma PatchFileShift(st: Patched, path: string)
    ensures var r := PatchFile(Patched(st.files, st.writes, 0, 0), path);
      PatchFile(st, path) == Patched(r.files, r.writes, st.modified + r.modified, st.fixes + r.fixes)
  {
  }

  /** The loop over the ranked files: nothing is touched when there are no diagnostics, every
      modified file adds at least one fix, and a file counts as modified exactly when something
      was written. */
  lemma RunOutcome(lines: seq<string>, st: Patched)
    requires st.modified == 0 && st.fixes == 0
    ensures var r := PatchAll(st, RankedPaths(lines));
      && (Matches(lines) == [] ==> r == st)
      && r.modified <= r.fixes
      && (r.modified == 0 <==> r.writes == st.writes)
  {
    RankedPathsOrder(lines);
    PatchAllSummary(st, RankedPaths(lines));
  }
}
