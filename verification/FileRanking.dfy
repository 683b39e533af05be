/** The most used files, most used first. */
module FileRanking {
  import opened Graphs
  import opened Sorting

  datatype FileRank = FileRank(path: string, count: nat)

  function MoreUsed(): (FileRank, FileRank) -> bool {
    (a: FileRank, b: FileRank) => a.count >= b.count
  }

  ghost function Ranks(counts: map<string, nat>, paths: set<string>): set<FileRank> {
    set path | path in paths && path in counts :: FileRank(path, counts[path])
  }

  /** The first `n` entries of the table by count; files left out were used no more often than those listed. */
  ghost predicate IsTop(counts: map<string, nat>, n: nat, top: seq<FileRank>) {
    && |top| == (if n < |counts| then n else |counts|)
    && NoDuplicates(top) && SortedBy(MoreUsed(), top)
    && (forall f :: f in top ==> f.path in counts && counts[f.path] == f.count)
    && forall path, f :: path in counts && FileRank(path, counts[path]) !in top && f in top ==> counts[path] <= f.count
  }

  lemma MoreUsedIsTotal()
    ensures TotalPreorder(MoreUsed())
  {
  }

  method Collect(counts: map<string, nat>) returns (files: seq<FileRank>)
    ensures Lists(files, Ranks(counts, counts.Keys)) && |files| == |counts|
  {
    files := [];
    var todo := counts.Keys;
    ghost var seen: set<string> := {};
    while todo != {}
      invariant seen + todo == counts.Keys && seen !! todo
      invariant Lists(files, Ranks(counts, seen)) && |files| == |seen|
    {
      var path :| path in todo;
      ListsOneMore(files, Ranks(counts, seen), FileRank(path, counts[path]));
      assert Ranks(counts, seen + {path}) == Ranks(counts, seen) + {FileRank(path, counts[path])};
      files := files + [FileRank(path, counts[path])];
      todo, seen := todo - {path}, seen + {path};
    }
    assert seen == counts.Keys;
  }

  /** Sort by descending count, then truncate. */
  method TopFiles(counts: map<string, nat>, n: nat) returns (top: seq<FileRank>)
    ensures IsTop(counts, n, top)
  {
    hide Sort;
    var files := Collect(counts);
    MoreUsedIsTotal();
    SortKeepsElements(MoreUsed(), files);
    SortSorts(MoreUsed(), files);
    var sorted := Sort(MoreUsed(), files);
    assert |sorted| == |multiset(sorted)| == |multiset(files)| == |files|;
    top := sorted[..if n < |sorted| then n else |sorted|];
    forall path, f | path in counts && FileRank(path, counts[path]) !in top && f in top ensures counts[path] <= f.count {
      assert FileRank(path, counts[path]) in Ranks(counts, counts.Keys);
      var j :| 0 <= j < |sorted| && sorted[j] == FileRank(path, counts[path]);
      var i :| 0 <= i < |top| && top[i] == f;
      assert j >= |top| by {
        assert forall k :: 0 <= k < |top| ==> sorted[k] == top[k] && top[k] in top;
      }
      assert MoreUsed()(sorted[i], sorted[j]);
    }
    forall f | f in top ensures f.path in counts && counts[f.path] == f.count {
      assert f in sorted;
    }
  }

  /** A list shorter than asked for holds the whole table. */
  lemma NoneMissing(counts: map<string, nat>, n: nat, top: seq<FileRank>)
    requires IsTop(counts, n, top)
    ensures |top| < n ==> forall path :: path in counts ==> FileRank(path, counts[path]) in top
  {
    if |top| < n {
      var listed := set f | f in top :: f.path;
      PathsListed(top, counts);
      SameSize(listed, counts.Keys);
    }
  }

  lemma {:induction false} PathsListed(top: seq<FileRank>, counts: map<string, nat>)
    requires NoDuplicates(top) && forall f :: f in top ==> f.path in counts && counts[f.path] == f.count
    ensures |set f | f in top :: f.path| == |top|
  {
    if top != [] {
      var before, last := top[..|top| - 1], top[|top| - 1];
      assert top == before + [last];
      PathsListed(before, counts);
      assert last !in before;
      assert (set f | f in top :: f.path) == (set f | f in before :: f.path) + {last.path};
      assert last.path !in set f | f in before :: f.path;
    }
  }

  lemma SameSize<T>(a: set<T>, b: set<T>)
    requires a <= b && |a| == |b|
    ensures a == b
  {
    if a != b {
      assert exists x :: x in b && x !in a;
      var x :| x in b && x !in a;
      SubsetCardinality(a, b - {x});
    }
  }
}
