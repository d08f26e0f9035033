/** `assign_files`: keep the listed objects whose name contains the source
    blob name anywhere, in listing order, and return the share of one worker. The
    object-storage listing is an input sequence; an object is seen only
    through its name. */
module Assignment {
  import opened Partition

  /** Python's `pat in s`: `pat` occurs in `s` at some offset (the empty
      pattern occurs in every string). */
  predicate Contains(s: string, pat: string): (b: bool)
    ensures pat <= s ==> b
    ensures b ==> |pat| <= |s|
  {
    assert s[0..] == s;
    exists i :: 0 <= i <= |s| && pat <= s[i..]
  }

  /** The objects of `objs` whose name contains `pat`, in their order. */
  function Matching<T>(objs: seq<T>, name: T -> string, pat: string): (m: seq<T>)
    ensures |m| <= |objs|
    ensures forall x :: x in m ==> x in objs && Contains(name(x), pat)
  {
    if objs == [] then []
    else
      var last := objs[|objs| - 1];
      Matching(objs[..|objs| - 1], name, pat) + (if Contains(name(last), pat) then [last] else [])
  }

  /** Nothing that matches is dropped. */
  lemma {:induction false} MatchingComplete<T>(objs: seq<T>, name: T -> string, pat: string, x: T)
    requires x in objs && Contains(name(x), pat)
    ensures x in Matching(objs, name, pat)
  {
    var init := objs[..|objs| - 1];
    assert objs == init + [objs[|objs| - 1]];
    if x != objs[|objs| - 1] {
      MatchingComplete(init, name, pat, x);
    }
  }

  /** Filtering distributes over concatenation: relative order is kept and
      each object is judged on its own. */
  lemma {:induction false} MatchingConcat<T>(a: seq<T>, b: seq<T>, name: T -> string, pat: string)
    ensures Matching(a + b, name, pat) == Matching(a, name, pat) + Matching(b, name, pat)
    decreases |b|
  {
    if b != [] {
      var init := b[..|b| - 1];
      assert (a + b)[..|a + b| - 1] == a + init;
      MatchingConcat(a, init, name, pat);
    } else {
      assert a + b == a;
    }
  }

  /** Filtering twice by the same pattern changes nothing. */
  lemma {:induction false} MatchingIdempotent<T>(objs: seq<T>, name: T -> string, pat: string)
    ensures Matching(Matching(objs, name, pat), name, pat) == Matching(objs, name, pat)
  {
    if objs != [] {
      var init := objs[..|objs| - 1];
      var last := objs[|objs| - 1];
      var tail := if Contains(name(last), pat) then [last] else [];
      MatchingIdempotent(init, name, pat);
      MatchingConcat(Matching(init, name, pat), tail, name, pat);
      if tail != [] {
        assert Matching(tail, name, pat) == Matching([], name, pat) + [last] by {
          assert tail[..0] == [];
        }
      }
    }
  }

  /** The files assigned to worker `instanceNo` of `totalInstances`: filter
      the listing by `pat`, then slice it at the worker's range. */
  method AssignFiles<T>(instanceNo: nat, totalInstances: nat, pat: string,
                        listing: seq<T>, name: T -> string)
    returns (files: seq<T>)
    requires 1 <= totalInstances && instanceNo < totalInstances
    ensures files == Share(Matching(listing, name, pat), totalInstances, instanceNo)
    ensures forall x :: x in files ==> x in listing && Contains(name(x), pat)
  {
    var reqBlob := [];
    for i := 0 to |listing|
      invariant reqBlob == Matching(listing[..i], name, pat)
    {
      var blob := listing[i];
      assert listing[..i + 1][..i] == listing[..i];
      if Contains(name(blob), pat) {
        reqBlob := reqBlob + [blob];
      }
    }
    assert listing[..|listing|] == listing;
    var rg := Assign(|reqBlob|, totalInstances, instanceNo);
    files := reqBlob[rg.start..rg.end];
  }

  /** Every matching object is assigned to exactly one worker: the worker
      `Owner` of its position, and to no other. */
  lemma AssignedOnce<T>(listing: seq<T>, name: T -> string, pat: string, w: nat, i: nat)
    requires 1 <= w && i < |Matching(listing, name, pat)|
    ensures var m := Matching(listing, name, pat);
            var o := Owner(|m|, w, i);
            m[i] in Share(m, w, o)
            && forall k :: 0 <= k < w && k != o ==> !Assign(|m|, w, k).Holds(i)
  {
    var m := Matching(listing, name, pat);
    var o := Owner(|m|, w, i);
    var rg := Assign(|m|, w, o);
    assert Share(m, w, o)[i - rg.start] == m[i];
    forall k | 0 <= k < w && k != o
      ensures !Assign(|m|, w, k).Holds(i)
    {
      OwnerUnique(|m|, w, i, k);
    }
  }
}
