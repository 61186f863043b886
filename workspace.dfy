/** The script's effect on the working tree: the three fix functions, each reading a file,
    rewriting it and writing it back only when the text changed, and `main`'s loop over the
    ranked files. */
module Patcher {
  import opened Rules
  import opened Rewrite
  import opened Diagnostics
  import opened Ranking
  import opened Fixes
  import opened Patch

  class Workspace {
    /** The text of every existing file, by path. */
    var files: map<string, string>
    /** Every `write_text`, by path, in order. */
    var writes: seq<string>

    constructor(initial: map<string, string>)
      ensures files == initial && writes == []
    {
      files := initial;
      writes := [];
    }

    /** `fix_supabase_never_types`. */
    method FixSupabaseNeverTypes(path: string) returns (fixes: nat)
      requires path in files
      modifies this
      ensures var r := SupabaseFix(old(files)[path]);
        && files == old(files)[path := r.text]
        && writes == old(writes) + Wrote(path, old(files)[path], r.text)
        && fixes == Returned(old(files)[path], r)
      ensures fixes > 0 <==> files[path] != old(files)[path]
    {
      var content := files[path];
      var original := content;
      var counted := 0;
      var selects := Sub(SelectQuery, content);
      content, counted := selects.text, counted + selects.count;
      var calls := Sub(WriteCall, content);
      content, counted := calls.text, counted + calls.count;
      SupabaseUncounted(original);
      fixes := 0;
      if content != original {
        files := files[path := content];
        writes := writes + [path];
        fixes := counted;
      }
    }

    /** `fix_any_to_never_errors`: one substitution per pattern, counting each that changed the
        text. */
    method FixAnyToNeverErrors(path: string) returns (fixes: nat)
      requires path in files
      modifies this
      ensures var r := AnyToNeverFix(old(files)[path]);
        && files == old(files)[path := r.text]
        && writes == old(writes) + Wrote(path, old(files)[path], r.text)
        && fixes == Returned(old(files)[path], r)
      ensures fixes > 0 <==> files[path] != old(files)[path]
      ensures fixes <= 2
    {
      var content := files[path];
      var original := content;
      var counted := 0;
      var patterns := FilterPatterns;
      for i := 0 to |patterns|
        invariant Rewritten(content, counted) == ApplyPatterns(patterns[..i], original)
        invariant files == old(files) && writes == old(writes)
      {
        ApplyLast(patterns[..i], patterns[i], original);
        assert patterns[..i + 1] == patterns[..i] + [patterns[i]];
        var newContent := Sub(patterns[i], content).text;
        if newContent != content {
          counted := counted + 1;
          content := newContent;
        }
      }
      assert patterns[..|patterns|] == patterns;
      assert Rewritten(content, counted) == AnyToNeverFix(original);
      AnyToNeverBound(original);
      fixes := 0;
      if content != original {
        files := files[path := content];
        writes := writes + [path];
        fixes := counted;
      }
    }

    /** `fix_error_handling`. */
    method FixErrorHandling(path: string) returns (fixes: nat)
      requires path in files
      modifies this
      ensures var r := ErrorHandlingFix(old(files)[path]);
        && files == old(files)[path := r.text]
        && writes == old(writes) + Wrote(path, old(files)[path], r.text)
        && fixes == Returned(old(files)[path], r)
      ensures fixes > 0 <==> files[path] != old(files)[path]
    {
      var content := files[path];
      var original := content;
      var catches := Sub(CatchBlock(AsWritten), content);
      content := catches.text;
      ErrorHandlingUncounted(original);
      fixes := 0;
      if content != original {
        files := files[path := content];
        writes := writes + [path];
        fixes := catches.count;
      }
    }

    /** The body of `main`'s loop for a file that exists: the three fixes in order, and the sum
        of what they returned. */
    method FixFile(path: string) returns (fixes: nat)
      requires path in files
      modifies this
      ensures var r := PatchFile(Patched(old(files), old(writes), 0, 0), path);
        files == r.files && writes == r.writes && r.fixes == fixes && r.modified == (if fixes > 0 then 1 else 0)
    {
      ghost var c0 := files[path];
      ghost var r1 := SupabaseFix(c0);
      ghost var r2 := AnyToNeverFix(r1.text);
      ghost var r3 := ErrorHandlingFix(r2.text);
      assert PatchFile(Patched(files, writes, 0, 0), path) == Chained(Patched(files, writes, 0, 0), path, r1, r2, r3);
      fixes := 0;
      var f := FixSupabaseNeverTypes(path);
      fixes := fixes + f;
      f := FixAnyToNeverErrors(path);
      fixes := fixes + f;
      f := FixErrorHandling(path);
      fixes := fixes + f;
    }

    /** One iteration of `main`'s loop: a missing file is skipped; otherwise the three fixes
        run and a positive sum counts the file as modified and adds to the total. */
    method Visit(path: string, modified: nat, fixes: nat) returns (modified': nat, fixes': nat)
      modifies this
      ensures Patched(files, writes, modified', fixes')
           == PatchFile(Patched(old(files), old(writes), modified, fixes), path)
    {
      modified', fixes' := modified, fixes;
      if path !in files {
        return;
      }
      PatchFileShift(Patched(files, writes, modified, fixes), path);
      var f := FixFile(path);
      if f > 0 {
        modified', fixes' := modified + 1, fixes + f;
      }
    }

    /** `main` from the first compiler run to the fix summary: group the diagnostics, total
        them, stop when there are none, and otherwise run the three fixes on every existing
        file, most diagnostics first. */
    method Run(lines: seq<string>) returns (totalErrors: nat, filesModified: nat, totalFixes: nat)
      modifies this
      ensures totalErrors == |Matches(lines)|
      ensures Patched(files, writes, filesModified, totalFixes)
           == PatchAll(Patched(old(files), old(writes), 0, 0), RankedPaths(lines))
      ensures Matches(lines) == [] ==> files == old(files) && writes == old(writes)
      ensures filesModified <= totalFixes
      ensures filesModified == 0 <==> writes == old(writes)
    {
      ghost var start := Patched(files, writes, 0, 0);
      var g := ParseErrors(lines);
      assert g.byFile == GroupsOf(lines).byFile;
      var counts := Counts(g);
      totalErrors := Total(counts);
      CountsTotal(lines, g);
      filesModified, totalFixes := 0, 0;
      if g.order == [] {
        RunOutcome(lines, start);
        return;
      }
      var ranked := Rank(counts);
      ghost var paths := PathsOf(ranked);
      for i := 0 to |ranked|
        invariant Patched(files, writes, filesModified, totalFixes) == PatchAll(start, paths[..i])
      {
        PatchAllNext(start, paths, i);
        filesModified, totalFixes := Visit(ranked[i].path, filesModified, totalFixes);
      }
      assert paths[..|ranked|] == paths;
      RunOutcome(lines, start);
    }
  }
}
