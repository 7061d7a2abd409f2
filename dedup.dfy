/**
  Removal of duplicate images from the pool: every image that has an identical
  image later in the list is marked, and the marked positions are then deleted
  from the highest to the lowest.
 */
module Dedup {
  import opened Wrappers
  import opened Images

  /**
    All images are valid and of one size and one band count. The pool loader
    checks the size only; images of one size but different band counts make
    the source's duplicate filter raise, a case this model does not cover.
   */
  ghost predicate Uniform(ims: seq<Image>) {
    forall a, b :: 0 <= a < |ims| && 0 <= b < |ims| ==> SameShape(ims[a], ims[b])
  }

  /** The positions listed in `s`, as a set. */
  ghost function Members(s: seq<nat>): set<int> {
    set m: int | m in s
  }

  /** Image i has an identical image somewhere after it in the list. */
  ghost predicate HasLaterTwin(ims: seq<Image>, i: nat)
    requires Uniform(ims) && i < |ims|
  {
    exists j :: i < j < |ims| && ImagesAreIdentical(ims[i], ims[j])
  }

  /** The positions the filter marks for deletion. */
  ghost function DuplicateIndices(ims: seq<Image>): set<int>
    requires Uniform(ims)
  {
    set i | 0 <= i < |ims| && HasLaterTwin(ims, i)
  }

  /** `s` without the elements at the positions in `D`, the others in their order. */
  ghost function Drop<T>(s: seq<T>, D: set<int>): seq<T>
  {
    if s == [] then []
    else Drop(s[..|s| - 1], D) + (if |s| - 1 in D then [] else [s[|s| - 1]])
  }

  /** Dropping positions that are all past the end changes nothing. */
  lemma {:induction false} DropNothing<T>(s: seq<T>, D: set<int>)
    requires forall d :: d in D ==> d >= |s|
    ensures Drop(s, D) == s
  {
    if s != [] {
      DropNothing(s[..|s| - 1], D);
    }
  }

  /**
    When every position in D lies after p, dropping p as well removes exactly
    the element at position p of the already shortened list.
   */
  lemma {:induction false} DropOneMore<T>(s: seq<T>, D: set<int>, p: int)
    requires 0 <= p < |s| && p !in D
    requires forall d :: d in D ==> d > p
    ensures p < |Drop(s, D)|
    ensures Drop(s, D + {p}) == Drop(s, D)[..p] + Drop(s, D)[p + 1..]
  {
    var n := |s| - 1;
    var init := s[..n];
    if p == n {
      DropNothing(init, D);
      DropNothing(init, D + {p});
      assert Drop(s, D) == init + [s[n]];
      assert Drop(s, D + {p}) == init;
    } else {
      DropOneMore(init, D, p);
      var tail := if n in D then [] else [s[n]];
      var r := Drop(init, D);
      assert Drop(s, D) == r + tail;
      assert Drop(s, D + {p}) == Drop(init, D + {p}) + tail;
      assert (r + tail)[..p] == r[..p];
      assert (r + tail)[p + 1..] == r[p + 1..] + tail;
    }
  }

  /**
    The elements kept by Drop are the elements of `s` at positions outside D,
    listed by a strictly increasing index map `f`: the kept elements stay in
    their original relative order.
   */
  lemma {:induction false} DropSelects<T>(s: seq<T>, D: set<int>) returns (f: seq<nat>)
    ensures |f| == |Drop(s, D)|
    ensures forall a :: 0 <= a < |f| ==> f[a] < |s| && f[a] !in D && Drop(s, D)[a] == s[f[a]]
    ensures forall a, b :: 0 <= a < b < |f| ==> f[a] < f[b]
  {
    if s == [] {
      f := [];
    } else {
      var n := |s| - 1;
      var init := s[..n];
      var f0 := DropSelects(init, D);
      var r := Drop(init, D);
      var k := Drop(s, D);
      forall a | 0 <= a < |f0|
        ensures r[a] == s[f0[a]]
      {
        assert r[a] == init[f0[a]];
      }
      if n !in D {
        assert k == r + [s[n]];
        f := f0 + [n];
        assert forall a :: 0 <= a < |f0| ==> k[a] == r[a];
      } else {
        assert k == r;
        f := f0;
      }
    }
  }

  /** An element at a position outside D survives Drop. */
  lemma {:induction false} DropKeeps<T>(s: seq<T>, D: set<int>, m: nat) returns (a: nat)
    requires m < |s| && m !in D
    ensures a < |Drop(s, D)| && Drop(s, D)[a] == s[m]
  {
    var n := |s| - 1;
    var init := s[..n];
    var r := Drop(init, D);
    if m == n {
      assert Drop(s, D) == r + [s[n]];
      a := |r|;
    } else {
      a := DropKeeps(init, D, m);
      assert Drop(s, D)[..|r|] == r;
    }
  }

  /**
    The first phase of the filter (CreatePictureFromTiles.py:242-249): the
    positions of the images that have an identical later image, each recorded
    once and in increasing order.
   */
  method MarkDuplicates(ims: seq<Image>) returns (toDelete: seq<nat>)
    requires Uniform(ims)
    ensures Increasing(toDelete)
    ensures forall k :: 0 <= k < |toDelete| ==> toDelete[k] < |ims|
    ensures Members(toDelete) == DuplicateIndices(ims)
  {
    toDelete := [];
    for i := 0 to |ims|
      invariant Increasing(toDelete)
      invariant forall k :: 0 <= k < |toDelete| ==> toDelete[k] < i
      invariant forall m :: 0 <= m < i ==> (m in toDelete <==> HasLaterTwin(ims, m))
    {
      ghost var before := toDelete;
      for j := i + 1 to |ims|
        invariant toDelete == before
        invariant forall k :: i < k < j ==> !ImagesAreIdentical(ims[i], ims[k])
      {
        if ImagesAreIdentical(ims[i], ims[j]) {
          toDelete := toDelete + [i];
          break;
        }
      }
      assert i in toDelete <==> HasLaterTwin(ims, i);
    }
  }

  /**
    Marks every image that has an identical later image, then deletes the marked
    positions from the highest to the lowest (CreatePictureFromTiles.py:241-255).
   */
  method DeleteDuplicateImages(ims: seq<Image>) returns (kept: seq<Image>)
    requires Uniform(ims)
    ensures kept == Drop(ims, DuplicateIndices(ims))
    ensures Uniform(kept)
    ensures forall a, b :: 0 <= a < b < |kept| ==> !ImagesAreIdentical(kept[a], kept[b])
  {
    var toDelete := MarkDuplicates(ims);
    kept := ims;
    var k := |toDelete|;
    DropNothing(ims, Members(toDelete[k..]));
    while k > 0
      invariant 0 <= k <= |toDelete|
      invariant kept == Drop(ims, Members(toDelete[k..]))
    {
      k := k - 1;
      var idx := toDelete[k];
      ghost var later := Members(toDelete[k + 1..]);
      assert toDelete[k..] == [idx] + toDelete[k + 1..];
      assert Members(toDelete[k..]) == later + {idx};
      assert forall d :: d in later ==> d > idx;
      DropOneMore(ims, later, idx);
      kept := kept[..idx] + kept[idx + 1..];
    }
    assert toDelete[0..] == toDelete;
    SurvivorsDistinct(ims);
  }

  /** No two images left by the filter are identical. */
  lemma SurvivorsDistinct(ims: seq<Image>)
    requires Uniform(ims)
    ensures Uniform(Drop(ims, DuplicateIndices(ims)))
    ensures var kept := Drop(ims, DuplicateIndices(ims));
            forall a, b :: 0 <= a < b < |kept| ==> !ImagesAreIdentical(kept[a], kept[b])
  {
    var D := DuplicateIndices(ims);
    var kept := Drop(ims, D);
    var f := DropSelects(ims, D);
    forall a, b | 0 <= a < b < |kept|
      ensures !ImagesAreIdentical(kept[a], kept[b])
    {
      assert f[a] !in D && f[a] < f[b] < |ims|;
    }
  }

  /**
    Nothing is lost up to identity: every image of the input is identical to
    some image the filter keeps (the image itself, or the last of its copies).
   */
  lemma {:induction false} EveryImageKeptUpToIdentity(ims: seq<Image>, m: nat) returns (a: nat)
    requires Uniform(ims) && m < |ims|
    ensures a < |Drop(ims, DuplicateIndices(ims))|
    ensures var kept := Drop(ims, DuplicateIndices(ims));
            SameShape(ims[m], kept[a]) && ImagesAreIdentical(ims[m], kept[a])
    decreases |ims| - m
  {
    var D := DuplicateIndices(ims);
    var kept := Drop(ims, D);
    if m in D {
      var j :| m < j < |ims| && ImagesAreIdentical(ims[m], ims[j]);
      a := EveryImageKeptUpToIdentity(ims, j);
    } else {
      a := DropKeeps(ims, D, m);
    }
  }

  /** Image i has a later image that the identity test as written accepts. */
  ghost predicate HasLaterTwinAsWritten(ims: seq<Image>, i: nat)
    requires Uniform(ims) && i < |ims|
  {
    exists j :: i < j < |ims| && ImagesAreIdenticalAsWritten(ims[i], ims[j])
  }

  /** The positions the filter as written (CreatePictureFromTiles.py:242-249) marks. */
  ghost function DuplicateIndicesAsWritten(ims: seq<Image>): set<int>
    requires Uniform(ims)
  {
    set i | 0 <= i < |ims| && HasLaterTwinAsWritten(ims, i)
  }

  /**
    With the identity test as written, a pool of images that are not four-band
    has no image marked, so the filter returns its input unchanged: duplicate
    RGB or greyscale images are all kept.
   */
  lemma AsWrittenFilterKeepsNonRgbaPool(ims: seq<Image>)
    requires Uniform(ims)
    requires forall k :: 0 <= k < |ims| ==> ims[k].bands != 4
    ensures DuplicateIndicesAsWritten(ims) == {}
    ensures Drop(ims, DuplicateIndicesAsWritten(ims)) == ims
  {
    DropNothing(ims, {});
  }

  /** On a pool of four-band images the filter as written marks the same positions as this model's. */
  lemma AsWrittenFilterAgreesOnRgbaPool(ims: seq<Image>)
    requires Uniform(ims)
    requires forall k :: 0 <= k < |ims| ==> ims[k].bands == 4
    ensures DuplicateIndicesAsWritten(ims) == DuplicateIndices(ims)
  {
    forall i, j | 0 <= i < j < |ims|
      ensures ImagesAreIdenticalAsWritten(ims[i], ims[j]) <==> ImagesAreIdentical(ims[i], ims[j])
    {
      AsWrittenAgreesOnFourBands(ims[i], ims[j]);
    }
  }
}
