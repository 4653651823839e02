/** Duplicate resolution over a catalog (RemoveDuplicateImages): every pair of
    equal records in which neither is marked yet gets the older one marked for
    removal; the marked records are then reported, and removed on request. */
module Dedup {
  import opened Wrappers
  import opened ImgInfo

  /** The marked records, in catalog order. */
  function Marked(s: seq<ImgFileInfo>): seq<ImgFileInfo> {
    if s == [] then []
    else Marked(s[..|s| - 1]) + (if s[|s| - 1].doClean then [s[|s| - 1]] else [])
  }

  lemma {:induction false} MarkedMembers(s: seq<ImgFileInfo>, x: ImgFileInfo)
    ensures x in Marked(s) <==> x in s && x.doClean
  {
    if s != [] {
      var init := s[..|s| - 1];
      MarkedMembers(init, x);
      assert s == init + [s[|s| - 1]];
    }
  }

  /** A catalog without marks has no marked records. */
  lemma {:induction false} NoMarksNoneMarked(s: seq<ImgFileInfo>)
    requires forall k :: 0 <= k < |s| ==> !s[k].doClean
    ensures Marked(s) == []
  {
    if s != [] {
      NoMarksNoneMarked(s[..|s| - 1]);
    }
  }

  /** Marking one unmarked record adds exactly one marked record. */
  lemma {:induction false} MarkOneMore(s: seq<ImgFileInfo>, k: nat)
    requires k < |s| && !s[k].doClean
    ensures |Marked(s[k := s[k].(doClean := true)])| == |Marked(s)| + 1
  {
    var t := s[k := s[k].(doClean := true)];
    var n := |s| - 1;
    if k == n {
      assert t[..n] == s[..n];
    } else {
      assert t[..n] == s[..n][k := s[k].(doClean := true)];
      MarkOneMore(s[..n], k);
    }
  }

  /** Record `p` of catalog `s` is one that record `k` lost to: the two are equal,
      and `p` is newer, or as new when `p` was the outer record of the comparison
      (the earlier index). */
  predicate WonOver(s: seq<ImgFileInfo>, p: int, k: int) {
    && 0 <= p < |s| && 0 <= k < |s| && p != k
    && Equals(Some(s[p]), Some(s[k]))
    && (if k < p then s[p].modTime > s[k].modTime else s[p].modTime >= s[k].modTime)
  }

  /** `t` differs from `s` at most in the marks. */
  ghost predicate OnlyMarks(s: seq<ImgFileInfo>, t: seq<ImgFileInfo>) {
    |s| == |t| && forall k :: 0 <= k < |t| ==> t[k] == s[k].(doClean := t[k].doClean)
  }

  /** Every mark of `s` is still set in `t`. */
  ghost predicate KeepsMarks(s: seq<ImgFileInfo>, t: seq<ImgFileInfo>) {
    |s| == |t| && forall k :: 0 <= k < |t| && s[k].doClean ==> t[k].doClean
  }

  /** Every record of `s` equal to record `x` (among the first `upto`) has, in `t`,
      itself or `x` marked. */
  ghost predicate SettledUpTo(s: seq<ImgFileInfo>, t: seq<ImgFileInfo>, x: int, upto: int)
    requires |s| == |t| && 0 <= x < |s|
  {
    forall y :: 0 <= y < upto && y < |s| && y != x && Equals(Some(s[x]), Some(s[y])) ==> t[x].doClean || t[y].doClean
  }

  /** No two distinct records equal in `s` are both unmarked in `t`. */
  ghost predicate AllSettled(s: seq<ImgFileInfo>, t: seq<ImgFileInfo>)
    requires |s| == |t|
  {
    forall x :: 0 <= x < |s| ==> SettledUpTo(s, t, x, |s|)
  }

  /** Every record marked in `t` but not in `s` lost to a record it equals. */
  ghost predicate Explained(s: seq<ImgFileInfo>, t: seq<ImgFileInfo>) {
    |s| == |t| && forall k :: 0 <= k < |t| && t[k].doClean && !s[k].doClean ==> exists p :: WonOver(s, p, k)
  }

  /** Marking record `m`, which lost to `p`, keeps the pass's invariants. */
  lemma MarkStep(s: seq<ImgFileInfo>, t: seq<ImgFileInfo>, m: nat, p: int)
    requires OnlyMarks(s, t) && KeepsMarks(s, t) && Explained(s, t)
    requires m < |t| && !t[m].doClean && WonOver(s, p, m)
    ensures var t' := t[m := t[m].(doClean := true)];
      && OnlyMarks(s, t') && KeepsMarks(s, t') && Explained(s, t')
      && |Marked(t')| == |Marked(t)| + 1
      && forall k :: 0 <= k < |t| && t[k].doClean ==> t'[k].doClean
  {
    MarkOneMore(t, m);
  }

  lemma SettledPair(s: seq<ImgFileInfo>, t: seq<ImgFileInfo>, x: int, y: int)
    requires |s| == |t| && 0 <= x < |s| && 0 <= y < |s| && x != y
    requires SettledUpTo(s, t, x, |s|) && Equals(Some(s[y]), Some(s[x]))
    ensures t[x].doClean || t[y].doClean
  {
  }

  /** Settledness survives adding marks. */
  lemma SettledMonotone(s: seq<ImgFileInfo>, t: seq<ImgFileInfo>, t': seq<ImgFileInfo>, x: int, upto: int)
    requires |s| == |t| == |t'| && 0 <= x < |s|
    requires forall k :: 0 <= k < |t| && t[k].doClean ==> t'[k].doClean
    requires SettledUpTo(s, t, x, upto)
    ensures SettledUpTo(s, t', x, upto)
  {
  }

  /** The marking pass, in place. It changes only marks; it never clears one; it
      leaves no two distinct equal records both unmarked; each record it marks lost
      to an equal record that is newer (or as new and earlier in the catalog); and
      `cleancount` is the number of records it marked. */
  method MarkDuplicates(a: array<ImgFileInfo>) returns (cleancount: nat)
    modifies a
    ensures OnlyMarks(old(a[..]), a[..])
    ensures KeepsMarks(old(a[..]), a[..])
    ensures AllSettled(old(a[..]), a[..])
    ensures Explained(old(a[..]), a[..])
    ensures cleancount + |Marked(old(a[..]))| == |Marked(a[..])|
  {
    ghost var s := a[..];
    var n := a.Length;
    cleancount := 0;
    for i := 0 to n
      invariant OnlyMarks(s, a[..]) && KeepsMarks(s, a[..]) && Explained(s, a[..])
      invariant forall x :: 0 <= x < i ==> SettledUpTo(s, a[..], x, n)
      invariant cleancount + |Marked(s)| == |Marked(a[..])|
    {
      for j := 0 to n
        invariant OnlyMarks(s, a[..]) && KeepsMarks(s, a[..]) && Explained(s, a[..])
        invariant forall x :: 0 <= x < i ==> SettledUpTo(s, a[..], x, n)
        invariant SettledUpTo(s, a[..], i, j)
        invariant cleancount + |Marked(s)| == |Marked(a[..])|
      {
        ghost var t := a[..];
        if i != j && Equals(Some(a[i]), Some(a[j])) && !a[i].doClean && !a[j].doClean {
          assert Equals(Some(s[i]), Some(s[j])) by {
            assert a[i] == s[i].(doClean := a[i].doClean);
            assert a[j] == s[j].(doClean := a[j].doClean);
          }
          EqualsSymmetric(Some(s[i]), Some(s[j]));
          // the pair was settled when the earlier of the two was the outer record
          assert i < j by {
            if j < i {
              SettledPair(s, t, j, i);
            }
          }
          var m, p := if a[j].modTime > a[i].modTime then i else j, if a[j].modTime > a[i].modTime then j else i;
          assert WonOver(s, p, m);
          MarkStep(s, t, m, p);
          a[m] := a[m].(doClean := true);
          assert a[..] == t[m := t[m].(doClean := true)];
          forall x | 0 <= x < i ensures SettledUpTo(s, a[..], x, n) {
            SettledMonotone(s, t, a[..], x, n);
          }
          SettledMonotone(s, t, a[..], i, j);
          cleancount := cleancount + 1;
        }
      }
    }
  }

  /** Two equal, unmarked records: after any outcome the marking pass promises,
      exactly one is marked, and it is the second unless the second is strictly
      newer, so the newer file (the first on a tie) is the one kept. */
  lemma TwoCopiesOneKept(s: seq<ImgFileInfo>, t: seq<ImgFileInfo>)
    requires |s| == 2 && !s[0].doClean && !s[1].doClean && Equals(Some(s[0]), Some(s[1]))
    requires OnlyMarks(s, t) && AllSettled(s, t) && Explained(s, t)
    ensures t[0].doClean != t[1].doClean
    ensures t[0].doClean <==> s[1].modTime > s[0].modTime
  {
    assert SettledUpTo(s, t, 0, 2);
    if t[0].doClean {
      var p :| WonOver(s, p, 0);
      assert p == 1;
    }
    if t[1].doClean {
      var p :| WonOver(s, p, 1);
      assert p == 0;
    }
  }

  /** No two records of the catalog share a file name, as in a catalog of one
      directory listing. */
  predicate DistinctNames(s: seq<ImgFileInfo>) {
    forall i, j :: 0 <= i < j < |s| ==> s[i].fileName != s[j].fileName
  }

  /** Record `p` is preferred over record `q`: newer, or as new and earlier. */
  predicate Better(s: seq<ImgFileInfo>, p: int, q: int)
    requires 0 <= p < |s| && 0 <= q < |s|
  {
    s[p].modTime > s[q].modTime || (s[p].modTime == s[q].modTime && p < q)
  }

  /** The preferred record among `k` and the records before index `n` whose
      contents equal those of record `k`. */
  function Best(s: seq<ImgFileInfo>, k: int, n: int): (b: int)
    requires 0 <= k < |s| && 0 <= n <= |s|
    ensures 0 <= b < |s| && ContentOf(s[b]) == ContentOf(s[k])
    ensures forall i :: 0 <= i < n && i != b && ContentOf(s[i]) == ContentOf(s[k]) ==> !Better(s, i, b)
  {
    if n == 0 then k
    else
      var b := Best(s, k, n - 1);
      if ContentOf(s[n - 1]) == ContentOf(s[k]) && Better(s, n - 1, b) then n - 1 else b
  }

  lemma DistinctEquals(s: seq<ImgFileInfo>, x: int, y: int)
    requires DistinctNames(s) && 0 <= x < |s| && 0 <= y < |s| && x != y
    ensures Equals(Some(s[x]), Some(s[y])) <==> ContentOf(s[x]) == ContentOf(s[y])
  {
  }

  /** Some record equal to record `k` (possibly `k` itself) stays unmarked in `t`. */
  ghost predicate GroupHasKept(s: seq<ImgFileInfo>, t: seq<ImgFileInfo>, k: int)
    requires |s| == |t| && 0 <= k < |s|
  {
    exists b :: 0 <= b < |s| && Equals(Some(s[b]), Some(s[k])) && !t[b].doClean
  }

  /** On a catalog with distinct names and no marks, any outcome the marking pass
      promises resolves every group of equal records the same way: a record ends
      marked exactly when an equal record is preferred over it, so each group keeps
      exactly its newest record, the earliest of them on a tie. */
  lemma {:induction false} GroupKeepsBest(s: seq<ImgFileInfo>, t: seq<ImgFileInfo>)
    requires DistinctNames(s) && forall k :: 0 <= k < |s| ==> !s[k].doClean
    requires OnlyMarks(s, t) && AllSettled(s, t) && Explained(s, t)
    ensures forall k :: 0 <= k < |s| ==> (t[k].doClean <==> exists p :: WonOver(s, p, k))
    ensures forall k :: 0 <= k < |s| ==> GroupHasKept(s, t, k)
  {
    forall k | 0 <= k < |s|
      ensures t[k].doClean <==> exists p :: WonOver(s, p, k)
      ensures GroupHasKept(s, t, k)
    {
      var b := Best(s, k, |s|);
      BestKept(s, t, k, b);
      assert 0 <= b < |s| && Equals(Some(s[b]), Some(s[k])) && !t[b].doClean;
      if !t[k].doClean && exists p :: WonOver(s, p, k) {
        var p :| WonOver(s, p, k);
        BestUnbeaten(s, k, p);
        // so b != k, and b and k are two equal unmarked records
        DistinctEquals(s, b, k);
        SettledPair(s, t, b, k);
      }
    }
  }

  /** No record wins over the preferred record of its group. */
  lemma BestUnbeaten(s: seq<ImgFileInfo>, k: int, p: int)
    requires DistinctNames(s) && 0 <= k < |s| && 0 <= p < |s|
    ensures !WonOver(s, p, Best(s, k, |s|))
  {
    var b := Best(s, k, |s|);
    if p != b {
      DistinctEquals(s, p, b);
    }
  }

  /** The preferred record of a group is never marked: nothing can be preferred over it. */
  lemma BestKept(s: seq<ImgFileInfo>, t: seq<ImgFileInfo>, k: int, b: int)
    requires DistinctNames(s) && forall i :: 0 <= i < |s| ==> !s[i].doClean
    requires OnlyMarks(s, t) && Explained(s, t)
    requires 0 <= k < |s| && b == Best(s, k, |s|)
    ensures !t[b].doClean
  {
    if t[b].doClean {
      var q :| WonOver(s, q, b);
      BestUnbeaten(s, k, q);
    }
  }

  /** The reporting and removal step: nothing when no record was marked by this
      pass; otherwise every marked record is reported and, when removal is asked
      for, its file is removed. */
  method ReportMarked(fileInfo: seq<ImgFileInfo>, cleancount: nat, removefiles: bool)
    returns (reported: seq<ImgFileInfo>, removed: seq<string>)
    ensures cleancount == 0 ==> reported == [] && removed == []
    ensures cleancount != 0 ==> reported == Marked(fileInfo)
    ensures cleancount != 0 ==> removed == if removefiles then FileNames(Marked(fileInfo)) else []
  {
    reported, removed := [], [];
    if cleancount == 0 {
      return;
    }
    for i := 0 to |fileInfo|
      invariant reported == Marked(fileInfo[..i])
      invariant removed == if removefiles then FileNames(reported) else []
    {
      var fi := fileInfo[i];
      assert fileInfo[..i + 1][..i] == fileInfo[..i];
      if fi.doClean {
        reported := reported + [fi];
        if removefiles {
          removed := removed + [fi.fileName];
        }
      }
    }
    assert fileInfo[..|fileInfo|] == fileInfo;
  }

  /** Resolves the duplicates of a catalog in place: what MarkDuplicates promises;
      nothing is reported when the pass marked nothing, and otherwise the records
      reported (and removed, on request) are exactly the marked ones. On a freshly
      catalogued directory, where no record starts marked, the pass marked nothing
      exactly when no record ends marked, and when the names are distinct each group
      of equal records keeps exactly its preferred record. */
  method RemoveDuplicateImages(fileInfo: array<ImgFileInfo>, removefiles: bool)
    returns (reported: seq<ImgFileInfo>, removed: seq<string>)
    modifies fileInfo
    ensures OnlyMarks(old(fileInfo[..]), fileInfo[..])
    ensures KeepsMarks(old(fileInfo[..]), fileInfo[..])
    ensures AllSettled(old(fileInfo[..]), fileInfo[..])
    ensures Explained(old(fileInfo[..]), fileInfo[..])
    ensures reported == if |Marked(fileInfo[..])| == |Marked(old(fileInfo[..]))| then [] else Marked(fileInfo[..])
    ensures removed == if removefiles then FileNames(reported) else []
    ensures (forall k :: 0 <= k < fileInfo.Length ==> !old(fileInfo[k]).doClean) ==> reported == Marked(fileInfo[..])
    ensures DistinctNames(old(fileInfo[..])) && (forall k :: 0 <= k < fileInfo.Length ==> !old(fileInfo[k]).doClean) ==>
              forall k :: 0 <= k < fileInfo.Length ==> (fileInfo[k].doClean <==> exists p :: WonOver(old(fileInfo[..]), p, k))
  {
    ghost var before := fileInfo[..];
    var cleancount := MarkDuplicates(fileInfo);
    reported, removed := ReportMarked(fileInfo[..], cleancount, removefiles);
    if forall k :: 0 <= k < fileInfo.Length ==> !before[k].doClean {
      if DistinctNames(before) {
        GroupKeepsBest(before, fileInfo[..]);
      }
      NoMarksNoneMarked(before);
      if cleancount == 0 {
        assert |Marked(fileInfo[..])| == 0;
      }
    }
  }
}
