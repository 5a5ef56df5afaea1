/**
 * The retention sweep that ends `Rotate`: list every path ending in ".zip",
 * and while there are at least `keep` of them delete the lexicographically
 * smallest and list again. Deletion is modelled as always succeeding.
 *
 * `skip` names paths the sweep must not count or delete. The loop as the
 * source writes it skips nothing (`skip == {}`); the rotator passes the
 * path of its own active file (see `Rotation.AsWrittenSweepDeletesActiveFile`).
 */
module Retention {
  import opened Strings
  import opened FileSystem

  const ARCHIVE_SUFFIX: string := ".zip"

  /** The paths the sweep counts. */
  ghost function Candidates(files: map<string, Entry>, skip: set<string>): set<string> {
    set p | p in files && HasSuffix(p, ARCHIVE_SUFFIX) && p !in skip
  }

  lemma MinExists(c: set<string>)
    requires c != {}
    ensures exists m :: m in c && forall x :: x in c ==> Le(m, x)
    decreases c
  {
    var y :| y in c;
    LeReflexive(y);
    if c != {y} {
      MinExists(c - {y});
      var m :| m in c - {y} && forall x :: x in c - {y} ==> Le(m, x);
      LeTotal(y, m);
      if Le(y, m) {
        forall x | x in c
          ensures Le(y, x)
        {
          if x != y {
            LeTransitive(y, m, x);
          }
        }
      } else {
        assert forall x :: x in c ==> Le(m, x);
      }
    }
  }

  /** The lexicographically smallest path of a non-empty set. */
  ghost function MinOf(c: set<string>): (m: string)
    requires c != {}
    ensures m in c
    ensures forall x :: x in c ==> Le(m, x)
  {
    MinExists(c);
    var m :| m in c && forall x :: x in c ==> Le(m, x);
    m
  }

  /** The directory once the sweep has finished. */
  ghost function Sweep(files: map<string, Entry>, keep: int, skip: set<string>): map<string, Entry>
    requires keep >= 1
    decreases files.Keys
  {
    var c := Candidates(files, skip);
    if |c| < keep then files
    else
      var m := MinOf(c);
      assert (files - {m}).Keys < files.Keys;
      Sweep(files - {m}, keep, skip)
  }

  lemma CandidatesAfterRemove(files: map<string, Entry>, skip: set<string>, m: string)
    ensures Candidates(files - {m}, skip) == Candidates(files, skip) - {m}
  {
  }

  lemma CandidatesOfSubmap(small: map<string, Entry>, large: map<string, Entry>, skip: set<string>)
    requires small.Keys <= large.Keys
    ensures Candidates(small, skip) <= Candidates(large, skip)
  {
  }

  /**
   * The sweep only deletes: what is left is part of the directory it started
   * from, every file it does not count is left, and the contents are untouched.
   */
  lemma {:induction false} SweepOnlyDeletesCandidates(files: map<string, Entry>, keep: int, skip: set<string>)
    requires keep >= 1
    ensures var r := Sweep(files, keep, skip);
            && r.Keys <= files.Keys
            && (forall p :: p in r ==> r[p] == files[p])
            && (forall p :: p in files && p !in Candidates(files, skip) ==> p in r)
    decreases files.Keys
  {
    var c := Candidates(files, skip);
    if |c| >= keep {
      var m := MinOf(c);
      assert (files - {m}).Keys < files.Keys;
      SweepOnlyDeletesCandidates(files - {m}, keep, skip);
      CandidatesAfterRemove(files, skip, m);
    }
  }

  /**
   * The sweep stops once fewer than `keep` counted paths remain, and deletes
   * no more than that: with `keep` or more at the start, exactly `keep - 1`
   * are left; with fewer, nothing changes.
   */
  lemma {:induction false} SweepCount(files: map<string, Entry>, keep: int, skip: set<string>)
    requires keep >= 1
    ensures |Candidates(Sweep(files, keep, skip), skip)| < keep
    ensures |Candidates(files, skip)| < keep ==> Sweep(files, keep, skip) == files
    ensures |Candidates(files, skip)| >= keep ==> |Candidates(Sweep(files, keep, skip), skip)| == keep - 1
    decreases files.Keys
  {
    var c := Candidates(files, skip);
    if |c| >= keep {
      var m := MinOf(c);
      assert (files - {m}).Keys < files.Keys;
      CandidatesAfterRemove(files, skip, m);
      SweepCount(files - {m}, keep, skip);
    }
  }

  /** Oldest first: every deleted path sorts before every counted path that is kept. */
  lemma {:induction false} SweepDeletesSmallest(files: map<string, Entry>, keep: int, skip: set<string>)
    requires keep >= 1
    ensures var r := Sweep(files, keep, skip);
            forall d, k :: d in files && d !in r && k in Candidates(r, skip) ==> Le(d, k)
    decreases files.Keys
  {
    var c := Candidates(files, skip);
    if |c| >= keep {
      var m := MinOf(c);
      var rest := files - {m};
      assert rest.Keys < files.Keys;
      var r := Sweep(rest, keep, skip);
      SweepDeletesSmallest(rest, keep, skip);
      SweepOnlyDeletesCandidates(rest, keep, skip);
      CandidatesOfSubmap(r, files, skip);
      forall d, k | d in files && d !in r && k in Candidates(r, skip)
        ensures Le(d, k)
      {
        if d != m {
          assert d in rest;
        }
      }
    }
  }

  /**
   * With `keep >= 2`, a counted path that sorts after every other counted
   * path survives the sweep.
   */
  lemma SweepKeepsGreatest(files: map<string, Entry>, keep: int, skip: set<string>, x: string)
    requires keep >= 2
    requires x in Candidates(files, skip)
    requires forall y :: y in Candidates(files, skip) ==> Le(y, x)
    ensures x in Sweep(files, keep, skip)
  {
    var r := Sweep(files, keep, skip);
    SweepCount(files, keep, skip);
    if |Candidates(files, skip)| >= keep && x !in r {
      var k :| k in Candidates(r, skip);
      SweepDeletesSmallest(files, keep, skip);
      SweepOnlyDeletesCandidates(files, keep, skip);
      CandidatesOfSubmap(r, files, skip);
      LeAntisymmetric(x, k);
      assert false;
    }
  }

  /** When skipping `skip` makes no difference to what is counted, the two sweeps agree. */
  lemma {:induction false} SweepSkipIrrelevant(files: map<string, Entry>, keep: int, skip: set<string>)
    requires keep >= 1
    requires forall p :: p in skip ==> !HasSuffix(p, ARCHIVE_SUFFIX)
    ensures Sweep(files, keep, skip) == Sweep(files, keep, {})
    decreases files.Keys
  {
    assert Candidates(files, skip) == Candidates(files, {});
    var c := Candidates(files, skip);
    if |c| >= keep {
      var m := MinOf(c);
      assert (files - {m}).Keys < files.Keys;
      SweepSkipIrrelevant(files - {m}, keep, skip);
    }
  }

  /**
   * `filepath.Walk` over the directory collecting the paths that end in
   * ".zip" (and are not in `skip`), in whatever order it visits them.
   */
  method ListArchives(files: map<string, Entry>, skip: set<string>) returns (list: seq<string>)
    ensures forall p :: p in list <==> p in Candidates(files, skip)
    ensures |list| == |Candidates(files, skip)|
  {
    ghost var c := Candidates(files, skip);
    list := [];
    var rest := files.Keys;
    while rest != {}
      invariant rest <= files.Keys
      invariant forall p :: p in list <==> p in c && p !in rest
      invariant |list| == |c - rest|
      decreases rest
    {
      var p :| p in rest;
      RemoveFromRest(c, rest, p);
      if HasSuffix(p, ARCHIVE_SUFFIX) && p !in skip {
        list := list + [p];
      }
      rest := rest - {p};
    }
    assert c - {} == c;
  }

  lemma RemoveFromRest(c: set<string>, rest: set<string>, p: string)
    requires p in rest
    ensures p in c ==> |c - (rest - {p})| == |c - rest| + 1
    ensures p !in c ==> c - (rest - {p}) == c - rest
  {
    if p in c {
      assert p !in c - rest;
      assert c - (rest - {p}) == (c - rest) + {p};
    }
  }

  /** The first of the sorted list is the smallest counted path. */
  lemma LeastIsMinOf(list: seq<string>, c: set<string>)
    requires |list| > 0 && c != {}
    requires forall p :: p in list <==> p in c
    ensures Least(list) == MinOf(c)
  {
    LeastIsUnique(list, MinOf(c));
  }
}
