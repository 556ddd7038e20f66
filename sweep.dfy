/** What a `for` loop over a Python list does when its body removes the
    current element: the list iterator keeps counting, so the element that
    slides into the freed position is never visited in that pass.

    `hit[i]` says whether the body would remove element `i` if it visited it;
    `Fates(hit)` says what actually happens to each element. */
module Sweep {

  /** The fate of one element in one pass: visited and kept, visited and
      removed, or never visited because the element before it was removed. */
  datatype Fate = Kept | Removed | Skipped

  /** `f` is what a removing pass can do given `hit`: only hit elements are
      removed, no visited element is kept when hit, the first element is
      always visited, and an element is skipped exactly when the one before
      it was removed. */
  ghost predicate PassFates(hit: seq<bool>, f: seq<Fate>)
  {
    && |f| == |hit|
    && (forall i :: 0 <= i < |f| ==> (f[i] == Removed ==> hit[i]) && (f[i] == Kept ==> !hit[i]))
    && (|f| > 0 ==> f[0] != Skipped)
    && (forall i, k :: 0 <= i && k == i + 1 && k < |f| ==> (f[k] == Skipped <==> f[i] == Removed))
  }

  /** The fates produced by walking the list with an index that advances
      after every visit, removal or not. */
  function Fates(hit: seq<bool>): (f: seq<Fate>)
    ensures |f| == |hit|
  {
    if hit == [] then []
    else if hit[0] then
      if |hit| == 1 then [Removed] else [Removed, Skipped] + Fates(hit[2..])
    else [Kept] + Fates(hit[1..])
  }

  /** The walk meets the conditions of a removing pass. */
  lemma {:induction false} FatesPass(hit: seq<bool>)
    ensures PassFates(hit, Fates(hit))
  {
    if hit == [] {
    } else if hit[0] {
      if |hit| > 1 {
        FatesPass(hit[2..]);
        var f, tail := Fates(hit), Fates(hit[2..]);
        assert f == [Removed, Skipped] + tail;
        forall i, k | 0 <= i && k == i + 1 && k < |f|
          ensures f[k] == Skipped <==> f[i] == Removed
        {
          if i >= 2 {
            assert f[i] == tail[i - 2] && f[k] == tail[k - 2];
          }
        }
      }
    } else {
      FatesPass(hit[1..]);
      var f, tail := Fates(hit), Fates(hit[1..]);
      assert f == [Kept] + tail;
      forall i, k | 0 <= i && k == i + 1 && k < |f|
        ensures f[k] == Skipped <==> f[i] == Removed
      {
        if i >= 1 {
          assert f[i] == tail[i - 1] && f[k] == tail[k - 1];
        }
      }
    }
  }

  /** The conditions of `PassFates` pin the fates down completely. */
  lemma {:induction false} FatesUnique(hit: seq<bool>, f: seq<Fate>)
    requires PassFates(hit, f)
    ensures f == Fates(hit)
  {
    if hit == [] {
    } else if hit[0] {
      assert f[0] == Removed;
      if |hit| > 1 {
        var tail := f[2..];
        assert PassFates(hit[2..], tail) by {
          assert |tail| > 0 ==> tail[0] == f[2] && f[1] == Skipped;
          forall i | 0 < i < |tail|
            ensures tail[i] == Skipped <==> tail[i - 1] == Removed
          {
            assert tail[i] == f[i + 2] && tail[i - 1] == f[i + 1];
          }
        }
        FatesUnique(hit[2..], tail);
        assert f == [Removed, Skipped] + tail;
      }
    } else {
      assert f[0] == Kept;
      var tail := f[1..];
      assert PassFates(hit[1..], tail) by {
        forall i | 0 < i < |tail|
          ensures tail[i] == Skipped <==> tail[i - 1] == Removed
        {
          assert tail[i] == f[i + 1] && tail[i - 1] == f[i];
        }
      }
      FatesUnique(hit[1..], tail);
      assert f == [Kept] + tail;
    }
  }

  /** How many elements a pass removes. */
  function RemovedCount(f: seq<Fate>): (n: nat)
    ensures n <= |f|
    decreases |f|
  {
    if f == [] then 0
    else RemovedCount(f[..|f| - 1]) + (if f[|f| - 1] == Removed then 1 else 0)
  }

  /** Removals of two consecutive stretches of a pass add up. */
  lemma {:induction false} RemovedCountAppend(a: seq<Fate>, b: seq<Fate>)
    ensures RemovedCount(a + b) == RemovedCount(a) + RemovedCount(b)
    decreases |b|
  {
    if b == [] {
      assert a + b == a;
    } else {
      var n := |b| - 1;
      RemovedCountAppend(a, b[..n]);
      assert (a + b)[..|a + b| - 1] == a + b[..n];
    }
  }

  /** A pass removes nothing exactly when no fate is `Removed`. */
  lemma {:induction false} RemovedCountZero(f: seq<Fate>)
    ensures RemovedCount(f) == 0 <==> Removed !in f
    decreases |f|
  {
    if f != [] {
      var n := |f| - 1;
      RemovedCountZero(f[..n]);
      assert f == f[..n] + [f[n]];
    }
  }

  /** A pass removes nothing exactly when no element is hit: the first hit
      element is always visited, so it is always removed. */
  lemma {:induction false} NothingRemovedIffNoHit(hit: seq<bool>)
    ensures RemovedCount(Fates(hit)) == 0 <==> forall i :: 0 <= i < |hit| ==> !hit[i]
  {
    if hit != [] {
      var f := Fates(hit);
      RemovedCountZero(f);
      if hit[0] {
        assert f[0] == Removed;
      } else {
        assert f == [Kept] + Fates(hit[1..]);
        NothingRemovedIffNoHit(hit[1..]);
        RemovedCountZero(Fates(hit[1..]));
        assert forall i :: 1 <= i < |hit| ==> hit[i] == hit[1..][i - 1];
      }
    }
  }

  /** The elements a pass leaves in the list, in their original order. */
  function Survivors<T>(s: seq<T>, f: seq<Fate>): (r: seq<T>)
    requires |s| == |f|
    decreases |s|
  {
    if s == [] then []
    else
      var n := |s| - 1;
      assert f == f[..n] + [f[n]];
      Survivors(s[..n], f[..n]) + (if f[n] == Removed then [] else [s[n]])
  }

  /** The list shrinks by exactly the number of removals. */
  lemma {:induction false} SurvivorsLength<T>(s: seq<T>, f: seq<Fate>)
    requires |s| == |f|
    ensures |Survivors(s, f)| + RemovedCount(f) == |s|
    decreases |s|
  {
    if s != [] {
      var n := |s| - 1;
      SurvivorsLength(s[..n], f[..n]);
    }
  }

  /** Extending the list by one element extends the survivors by that
      element unless it is removed. */
  lemma SurvivorsSnoc<T>(s: seq<T>, f: seq<Fate>, x: T, g: Fate)
    requires |s| == |f|
    ensures Survivors(s + [x], f + [g]) == Survivors(s, f) + (if g == Removed then [] else [x])
  {
    assert (s + [x])[..|s|] == s;
    assert (f + [g])[..|f|] == f;
  }

  /** A visit at index `j` that misses keeps the element. */
  lemma FatesStepKept(hit: seq<bool>, done: seq<Fate>, j: nat)
    requires j < |hit| && |done| == j && !hit[j]
    requires done + Fates(hit[j..]) == Fates(hit)
    ensures done + [Kept] + Fates(hit[j + 1..]) == Fates(hit)
  {
    assert hit[j..] == [hit[j]] + hit[j + 1..];
  }

  /** A visit at index `j` that hits, with an element after it, removes the
      element and skips the next one. */
  lemma FatesStepRemoved(hit: seq<bool>, done: seq<Fate>, j: nat)
    requires j + 1 < |hit| && |done| == j && hit[j]
    requires done + Fates(hit[j..]) == Fates(hit)
    ensures done + [Removed, Skipped] + Fates(hit[j + 2..]) == Fates(hit)
  {
    assert hit[j..][2..] == hit[j + 2..];
  }

  /** A visit that hits the last element removes it and ends the pass. */
  lemma FatesStepLast(hit: seq<bool>, done: seq<Fate>, j: nat)
    requires j + 1 == |hit| && |done| == j && hit[j]
    requires done + Fates(hit[j..]) == Fates(hit)
    ensures done + [Removed] == Fates(hit)
  {
    assert hit[j..] == [hit[j]];
  }

  /** The survivors of one more element of the list. */
  lemma SurvivorsPrefix<T>(s: seq<T>, f: seq<Fate>, j: nat, g: Fate)
    requires |f| == j < |s|
    ensures Survivors(s[..j + 1], f + [g]) == Survivors(s[..j], f) + (if g == Removed then [] else [s[j]])
  {
    assert s[..j + 1] == s[..j] + [s[j]];
    SurvivorsSnoc(s[..j], f, s[j], g);
  }

  /** `sub` can be obtained from `s` by deleting elements. */
  predicate IsSubsequence<T(==)>(sub: seq<T>, s: seq<T>)
    decreases |s|
  {
    if sub == [] then true
    else if s == [] then false
    else
      (sub[|sub| - 1] == s[|s| - 1] && IsSubsequence(sub[..|sub| - 1], s[..|s| - 1]))
      || IsSubsequence(sub, s[..|s| - 1])
  }

  /** No element occurs twice: the last element does not occur before it,
      and the same holds of the rest. */
  predicate Distinct<T(==)>(s: seq<T>)
    decreases |s|
  {
    s == [] || (s[|s| - 1] !in s[..|s| - 1] && Distinct(s[..|s| - 1]))
  }

  /** The recursive definition of `Distinct` says that no two positions hold
      the same element. */
  lemma {:induction false} DistinctIndices<T>(s: seq<T>)
    ensures Distinct(s) <==> forall i, j :: 0 <= i < j < |s| ==> s[i] != s[j]
    decreases |s|
  {
    if s != [] {
      var n := |s| - 1;
      DistinctIndices(s[..n]);
      if forall i, j :: 0 <= i < j < |s| ==> s[i] != s[j] {
        assert s[n] !in s[..n] by {
          forall i | 0 <= i < n ensures s[..n][i] != s[n] {
            assert s[..n][i] == s[i];
          }
        }
        assert forall i, j :: 0 <= i < j < n ==> s[..n][i] != s[..n][j] by {
          forall i, j | 0 <= i < j < n ensures s[..n][i] != s[..n][j] {
            assert s[..n][i] == s[i] && s[..n][j] == s[j];
          }
        }
      }
      if Distinct(s) {
        forall i, j | 0 <= i < j < |s| ensures s[i] != s[j] {
          if j == n {
            assert s[i] in s[..n] by { assert s[..n][i] == s[i]; }
          } else {
            assert s[..n][i] == s[i] && s[..n][j] == s[j];
          }
        }
      }
    }
  }

  /** In a list without repeats, no other position holds the element at `j`. */
  lemma DistinctAt<T>(s: seq<T>, j: int)
    requires Distinct(s) && 0 <= j < |s|
    ensures forall k :: 0 <= k < |s| && k != j ==> s[k] != s[j]
  {
    DistinctIndices(s);
  }

  /** The position of the first occurrence of `x` in `s`. */
  function IndexOf<T(==)>(s: seq<T>, x: T): (k: int)
    requires x in s
    ensures 0 <= k < |s| && s[k] == x
    ensures forall i :: 0 <= i < k ==> s[i] != x
  {
    if s[0] == x then 0 else 1 + IndexOf(s[1..], x)
  }

  /** Python's `list.remove(x)`: drop the first element equal to `x`, keeping
      the others in order. */
  function RemoveFirst<T(==)>(s: seq<T>, x: T): (r: seq<T>)
    requires x in s
    ensures r == s[..IndexOf(s, x)] + s[IndexOf(s, x) + 1..]
  {
    if s[0] == x then s[1..]
    else
      var k := IndexOf(s[1..], x);
      assert s[..k + 1] == [s[0]] + s[1..][..k] && s[k + 2..] == s[1..][k + 1..];
      [s[0]] + RemoveFirst(s[1..], x)
  }

  /** In a list without repeats, the first occurrence of the element at `j`
      is position `j`, so `list.remove` of that element deletes position `j`. */
  lemma RemoveFirstAt<T>(s: seq<T>, j: int)
    requires Distinct(s) && 0 <= j < |s|
    ensures IndexOf(s, s[j]) == j
    ensures RemoveFirst(s, s[j]) == s[..j] + s[j + 1..]
  {
    var k := IndexOf(s, s[j]);
    DistinctAt(s, j);
    assert s[k] == s[j];
  }

  /** The survivors are an order-preserving subsequence of the list, and so
      contain nothing that was not there and no element twice if the list had none. */
  lemma {:induction false} SurvivorsSubsequence<T>(s: seq<T>, f: seq<Fate>)
    requires |s| == |f|
    ensures IsSubsequence(Survivors(s, f), s)
    ensures forall x :: x in Survivors(s, f) ==> x in s
    decreases |s|
  {
    if s != [] {
      var n := |s| - 1;
      var prev := Survivors(s[..n], f[..n]);
      SurvivorsSubsequence(s[..n], f[..n]);
      if f[n] != Removed {
        var r := prev + [s[n]];
        assert r[..|r| - 1] == prev;
      } else {
        assert Survivors(s, f) == prev;
      }
    }
  }

  /** A pass over a list without repeats leaves a list without repeats. */
  lemma {:induction false} SurvivorsDistinct<T>(s: seq<T>, f: seq<Fate>)
    requires |s| == |f| && Distinct(s)
    ensures Distinct(Survivors(s, f))
    decreases |s|
  {
    if s != [] {
      var n := |s| - 1;
      var prev := Survivors(s[..n], f[..n]);
      SurvivorsDistinct(s[..n], f[..n]);
      SurvivorsSubsequence(s[..n], f[..n]);
      if f[n] != Removed {
        var r := prev + [s[n]];
        assert r[..|r| - 1] == prev;
      } else {
        assert Survivors(s, f) == prev;
      }
    }
  }

  /** A pass that removes nothing leaves the list as it was. */
  lemma {:induction false} SurvivorsAll<T>(s: seq<T>, f: seq<Fate>)
    requires |s| == |f| && RemovedCount(f) == 0
    ensures Survivors(s, f) == s
    decreases |s|
  {
    if s != [] {
      var n := |s| - 1;
      assert f[n] != Removed;
      SurvivorsAll(s[..n], f[..n]);
      assert Survivors(s, f) == s[..n] + [s[n]];
    }
  }
  /** The state of a removing pass over `orig` after `j` elements have been
      decided: `fates` are their fates, `cur` is the list as the pass has left
      it (the survivors so far followed by the untouched rest), and `i` is the
      index the walk visits next. Once the last element has been removed, `i`
      is one past the end of the shortened list. */
  ghost predicate Walking<T>(orig: seq<T>, hit: seq<bool>, cur: seq<T>, i: int, fates: seq<Fate>, j: int)
  {
    && 0 <= j <= |orig| == |hit| && |fates| == j
    && fates + Fates(hit[j..]) == Fates(hit)
    && cur == Survivors(orig[..j], fates) + orig[j..]
    && (i == |Survivors(orig[..j], fates)| || (i == |cur| + 1 && j == |orig|))
  }

  /** Part way through a pass over a list without repeats, the list still
      has no repeats. */
  lemma WalkDistinct<T>(orig: seq<T>, hit: seq<bool>, cur: seq<T>, i: int, fates: seq<Fate>, j: int)
    requires Walking(orig, hit, cur, i, fates, j) && Distinct(orig)
    ensures Distinct(cur)
  {
    var a := Survivors(orig[..j], fates);
    DistinctIndices(orig);
    DistinctIndices(orig[..j]);
    SurvivorsDistinct(orig[..j], fates);
    SurvivorsSubsequence(orig[..j], fates);
    DistinctIndices(a);
    DistinctIndices(cur);
    forall p, q | 0 <= p < q < |cur| ensures cur[p] != cur[q] {
      if q < |a| {
        assert cur[p] == a[p] && cur[q] == a[q];
      } else {
        assert cur[q] == orig[j + q - |a|];
        if p < |a| {
          assert cur[p] in orig[..j] by { assert cur[p] == a[p]; }
        } else {
          assert cur[p] == orig[j + p - |a|];
        }
      }
    }
  }

  /** A pass that has not started yet. */
  lemma WalkStart<T>(orig: seq<T>, hit: seq<bool>)
    requires |orig| == |hit|
    ensures Walking(orig, hit, orig, 0, [], 0)
  {
    assert hit[0..] == hit;
    assert orig[..0] == [] && orig[0..] == orig;
  }

  /** The index being visited points at the next undecided element. */
  lemma WalkVisit<T>(orig: seq<T>, hit: seq<bool>, cur: seq<T>, i: int, fates: seq<Fate>, j: int)
    requires Walking(orig, hit, cur, i, fates, j) && 0 <= i < |cur|
    ensures j < |orig| && cur[i] == orig[j]
    ensures i == |Survivors(orig[..j], fates)|
  {
  }

  /** Visiting an element that is not hit keeps it and moves on. */
  lemma WalkKeep<T>(orig: seq<T>, hit: seq<bool>, cur: seq<T>, i: int, fates: seq<Fate>, j: int)
    requires Walking(orig, hit, cur, i, fates, j) && 0 <= i < |cur| && j < |orig| && !hit[j]
    ensures Walking(orig, hit, cur, i + 1, fates + [Kept], j + 1)
    ensures RemovedCount(fates + [Kept]) == RemovedCount(fates)
  {
    FatesStepKept(hit, fates, j);
    SurvivorsPrefix(orig, fates, j, Kept);
    assert orig[j..] == [orig[j]] + orig[j + 1..];
    RemovedCountAppend(fates, [Kept]);
  }

  /** Removing the visited element leaves the survivors so far followed by
      the elements after it. */
  lemma WalkCut<T>(orig: seq<T>, hit: seq<bool>, cur: seq<T>, i: int, fates: seq<Fate>, j: int)
    requires Walking(orig, hit, cur, i, fates, j) && 0 <= i < |cur|
    ensures j < |orig|
    ensures cur[..i] + cur[i + 1..] == Survivors(orig[..j], fates) + orig[j + 1..]
  {
    var kept := Survivors(orig[..j], fates);
    assert cur[..i] == kept;
    assert cur[i + 1..] == orig[j + 1..];
  }

  /** Visiting a hit element that has a successor removes it; the successor
      slides into its place and is skipped. */
  lemma WalkRemove<T>(orig: seq<T>, hit: seq<bool>, cur: seq<T>, i: int, fates: seq<Fate>, j: int)
    requires Walking(orig, hit, cur, i, fates, j) && 0 <= i < |cur| && j + 1 < |orig| && hit[j]
    ensures Walking(orig, hit, cur[..i] + cur[i + 1..], i + 1, fates + [Removed, Skipped], j + 2)
    ensures RemovedCount(fates + [Removed, Skipped]) == RemovedCount(fates) + 1
  {
    WalkCut(orig, hit, cur, i, fates, j);
    FatesStepRemoved(hit, fates, j);
    SurvivorsRemoveSkip(orig, fates, j);
    assert orig[j + 1..] == [orig[j + 1]] + orig[j + 2..];
    RemovedCountAppend(fates, [Removed, Skipped]);
    assert [Removed, Skipped][..1] == [Removed];
  }

  /** Removing element `j` and skipping element `j + 1` adds only the latter
      to the survivors. */
  lemma SurvivorsRemoveSkip<T>(s: seq<T>, f: seq<Fate>, j: nat)
    requires |f| == j && j + 1 < |s|
    ensures Survivors(s[..j + 2], f + [Removed, Skipped]) == Survivors(s[..j], f) + [s[j + 1]]
  {
    var a := s[..j] + [s[j]];
    SurvivorsSnoc(s[..j], f, s[j], Removed);
    SurvivorsSnoc(a, f + [Removed], s[j + 1], Skipped);
    assert s[..j + 2] == a + [s[j + 1]];
    assert f + [Removed] + [Skipped] == f + [Removed, Skipped];
  }

  /** Visiting the last element when it is hit removes it and ends the walk. */
  lemma WalkRemoveLast<T>(orig: seq<T>, hit: seq<bool>, cur: seq<T>, i: int, fates: seq<Fate>, j: int)
    requires Walking(orig, hit, cur, i, fates, j) && 0 <= i < |cur| && j + 1 == |orig| && hit[j]
    ensures Walking(orig, hit, cur[..i] + cur[i + 1..], i + 1, fates + [Removed], j + 1)
    ensures RemovedCount(fates + [Removed]) == RemovedCount(fates) + 1
  {
    WalkCut(orig, hit, cur, i, fates, j);
    SurvivorsPrefix(orig, fates, j, Removed);
    FatesStepLast(hit, fates, j);
    RemovedCountAppend(fates, [Removed]);
  }

  /** One visit of the walk, whatever its outcome: the element at `i` is
      the next undecided one; it is removed exactly when it is hit, and the
      walk moves on to `i + 1` with the fates extended accordingly. */
  lemma WalkStep<T>(orig: seq<T>, hit: seq<bool>, cur: seq<T>, i: int, fates: seq<Fate>, j: int)
      returns (fates': seq<Fate>, j': int)
    requires Walking(orig, hit, cur, i, fates, j) && 0 <= i < |cur|
    ensures j < |orig| && cur[i] == orig[j]
    ensures Walking(orig, hit, if hit[j] then cur[..i] + cur[i + 1..] else cur, i + 1, fates', j')
    ensures RemovedCount(fates') == RemovedCount(fates) + (if hit[j] then 1 else 0)
    ensures fates' == fates + (if !hit[j] then [Kept] else if j + 1 < |orig| then [Removed, Skipped] else [Removed])
    ensures j' == |fates'|
  {
    WalkVisit(orig, hit, cur, i, fates, j);
    if !hit[j] {
      WalkKeep(orig, hit, cur, i, fates, j);
      fates', j' := fates + [Kept], j + 1;
    } else if j + 1 < |orig| {
      WalkRemove(orig, hit, cur, i, fates, j);
      fates', j' := fates + [Removed, Skipped], j + 2;
    } else {
      WalkRemoveLast(orig, hit, cur, i, fates, j);
      fates', j' := fates + [Removed], j + 1;
    }
  }

  /** When the walk runs off the end, every element is decided and the list
      is the survivors of the whole pass. */
  lemma WalkDone<T>(orig: seq<T>, hit: seq<bool>, cur: seq<T>, i: int, fates: seq<Fate>, j: int)
    requires Walking(orig, hit, cur, i, fates, j) && i >= |cur|
    ensures j == |orig| && fates == Fates(hit) && cur == Survivors(orig, fates)
  {
    assert hit[j..] == [];
    assert orig[..j] == orig;
  }
}
