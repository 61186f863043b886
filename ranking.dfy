/** Ranking files by number of diagnostics: `sorted(..., key=len, reverse=True)`, which is a
    stable sort in descending order (files with equal counts keep their first-seen order). */
module Ranking {
  import opened Diagnostics

  datatype FileCount = FileCount(path: string, count: nat)

  /** The dictionary items as (path, number of records), in key order. */
  function Counts(g: Groups): (cs: seq<FileCount>)
    requires forall p :: p in g.order ==> p in g.byFile
    ensures |cs| == |g.order|
    ensures forall i :: 0 <= i < |cs| ==> cs[i] == FileCount(g.order[i], |g.byFile[g.order[i]]|)
  {
    seq(|g.order|, i requires 0 <= i < |g.order| => FileCount(g.order[i], |g.byFile[g.order[i]]|))
  }

  /** `sum(len(errors) for errors in errors_by_file.values())`. */
  function Total(cs: seq<FileCount>): nat
    decreases |cs|
  {
    if cs == [] then 0 else Total(cs[..|cs| - 1]) + cs[|cs| - 1].count
  }

  predicate SortedDesc(cs: seq<FileCount>) {
    forall i, j :: 0 <= i < j < |cs| ==> cs[i].count >= cs[j].count
  }

  /** The entries with a given count, in their order. */
  function WithCount(cs: seq<FileCount>, k: nat): seq<FileCount>
    decreases |cs|
  {
    if cs == [] then []
    else (if cs[0].count == k then [cs[0]] else []) + WithCount(cs[1..], k)
  }

  /** Puts `x` in front of the first entry whose count is not larger than its own. */
  function Insert(x: FileCount, t: seq<FileCount>): seq<FileCount>
    decreases |t|
  {
    if t == [] then [x]
    else if x.count >= t[0].count then [x] + t
    else [t[0]] + Insert(x, t[1..])
  }

  /** The ranking: a stable insertion sort by descending count. */
  function Rank(cs: seq<FileCount>): seq<FileCount>
    decreases |cs|
  {
    if cs == [] then [] else Insert(cs[0], Rank(cs[1..]))
  }

  lemma {:induction false} InsertPermutation(x: FileCount, t: seq<FileCount>)
    ensures multiset(Insert(x, t)) == multiset([x] + t)
    decreases |t|
  {
    if t != [] && x.count < t[0].count {
      InsertPermutation(x, t[1..]);
      assert t == [t[0]] + t[1..];
    }
  }

  predicate AtMost(cs: seq<FileCount>, b: nat) {
    forall i :: 0 <= i < |cs| ==> cs[i].count <= b
  }

  lemma {:induction false} InsertAtMost(x: FileCount, t: seq<FileCount>, b: nat)
    requires AtMost(t, b) && x.count <= b
    ensures AtMost(Insert(x, t), b)
    decreases |t|
  {
    if t != [] && x.count < t[0].count {
      InsertAtMost(x, t[1..], b);
    }
  }

  lemma {:induction false} InsertSorted(x: FileCount, t: seq<FileCount>)
    requires SortedDesc(t)
    ensures SortedDesc(Insert(x, t))
    decreases |t|
  {
    if t != [] && x.count < t[0].count {
      InsertSorted(x, t[1..]);
      InsertAtMost(x, t[1..], t[0].count);
    }
  }

  lemma {:induction false} InsertStable(x: FileCount, t: seq<FileCount>, k: nat)
    requires SortedDesc(t)
    ensures WithCount(Insert(x, t), k) == WithCount([x] + t, k)
    decreases |t|
  {
    if t != [] && x.count < t[0].count {
      InsertStable(x, t[1..], k);
      var rest := Insert(x, t[1..]);
      assert ([t[0]] + rest)[1..] == rest;
      assert ([x] + t)[1..] == t;
      assert ([x] + t[1..])[1..] == t[1..];
    } else if t == [] {
      assert ([x] + t) == [x];
    }
  }

  /** The ranking is in descending order of count. */
  lemma {:induction false} RankSorted(cs: seq<FileCount>)
    ensures SortedDesc(Rank(cs))
    decreases |cs|
  {
    if cs != [] {
      RankSorted(cs[1..]);
      InsertSorted(cs[0], Rank(cs[1..]));
    }
  }

  /** The ranking holds the same entries, each as often as before. */
  lemma {:induction false} RankPermutation(cs: seq<FileCount>)
    ensures multiset(Rank(cs)) == multiset(cs)
    decreases |cs|
  {
    if cs != [] {
      RankPermutation(cs[1..]);
      InsertPermutation(cs[0], Rank(cs[1..]));
      assert cs == [cs[0]] + cs[1..];
    }
  }

  /** Stability: the entries with any given count appear in the ranking in their input order. */
  lemma {:induction false} RankStable(cs: seq<FileCount>, k: nat)
    ensures WithCount(Rank(cs), k) == WithCount(cs, k)
    decreases |cs|
  {
    if cs != [] {
      RankStable(cs[1..], k);
      RankSorted(cs[1..]);
      InsertStable(cs[0], Rank(cs[1..]), k);
      assert ([cs[0]] + Rank(cs[1..]))[1..] == Rank(cs[1..]);
    }
  }

  /** The reported total is the number of parsed records. */
  lemma CountsTotal(lines: seq<string>, g: Groups)
    requires g.order == FirstSeen(Paths(Matches(lines)))
    requires forall p :: p in g.byFile <==> p in g.order
    requires forall p :: p in g.byFile ==> g.byFile[p] == RecordsFor(Matches(lines), p)
    ensures Total(Counts(g)) == |Matches(lines)|
  {
    CountsMatchGroups(g.order, g, Matches(lines));
    GroupTotalIsCount(Matches(lines));
  }

  lemma {:induction false} CountsMatchGroups(order: seq<string>, g: Groups, es: seq<Entry>)
    requires forall p :: p in order ==> p in g.byFile && g.byFile[p] == RecordsFor(es, p)
    ensures Total(Counts(Groups(order, g.byFile))) == GroupTotal(order, es)
    decreases |order|
  {
    if order != [] {
      var init := order[..|order| - 1];
      CountsMatchGroups(init, g, es);
      assert Counts(Groups(order, g.byFile))[..|init|] == Counts(Groups(init, g.byFile));
    }
  }
}
