/**
 * The excluded-path list as the store edits it: the decoded list, the edit
 * one exclusion request makes to it, and what it means for a path to be
 * excluded under a stored string.
 */
module ExclusionList {
  import opened PathCodec

  // ---------------------------------------------------------------------------
  // List edits
  // ---------------------------------------------------------------------------

  /** The position of the first occurrence of `x` in `xs`, or `|xs|` when `x`
      does not occur. */
  function IndexOf(xs: seq<string>, x: string): (k: nat)
    ensures k <= |xs|
    ensures x !in xs[..k]
    ensures k < |xs| ==> xs[k] == x
    ensures k == |xs| <==> x !in xs
  {
    if xs == [] then 0
    else if xs[0] == x then 0
    else
      var k' := IndexOf(xs[1..], x);
      assert xs[..1 + k'] == [xs[0]] + xs[1..][..k'];
      assert x in xs[1..] ==> x in xs;
      1 + k'
  }

  /** The list with the first occurrence of `x` taken out, as removal by
      value from a list does it; the list unchanged when `x` does not occur.
      Exactly one `x` leaves the multiset of elements when there is one. */
  function RemoveFirst(xs: seq<string>, x: string): (r: seq<string>)
    ensures x !in xs ==> r == xs
    ensures multiset(r) == multiset(xs) - multiset{x}
  {
    if xs == [] then []
    else
      assert xs == [xs[0]] + xs[1..];
      if xs[0] == x then xs[1..]
      else [xs[0]] + RemoveFirst(xs[1..], x)
  }

  /** The list after one exclusion request: `path` appended when it is to be
      excluded and is missing, its first occurrence taken out when it is not
      to be excluded and is present, and otherwise the list as it was. */
  function Toggled(xs: seq<string>, path: string, exclude: bool): seq<string>
  {
    if exclude && path !in xs then xs + [path]
    else if !exclude && path in xs then RemoveFirst(xs, path)
    else xs
  }

  // ---------------------------------------------------------------------------
  // What a stored string means
  // ---------------------------------------------------------------------------

  /** A path the stored format can carry: non-empty and without separators. */
  predicate StorablePath(p: string)
  {
    p != "" && Separator !in p
  }

  /** A list of storable paths, each occurring at most once. */
  predicate WellFormed(ps: seq<string>)
  {
    && (forall p | p in ps :: StorablePath(p))
    && (forall p | p in multiset(ps) :: multiset(ps)[p] <= 1)
  }

  /** The excluded paths a stored string stands for: none for the empty
      string, its decoding otherwise. */
  function Paths(stored: string): seq<string>
  {
    if stored == "" then [] else Decode(stored)
  }

  /** A stored string that stands for a list of distinct storable paths, as
      every string the store writes from such a list does. */
  predicate ValidStored(stored: string)
  {
    WellFormed(Paths(stored))
  }

  /** Whether `path` is excluded under the stored string: never the empty
      path, which names the project itself; otherwise membership in the
      decoded list. */
  predicate Member(stored: string, path: string)
  {
    path != "" && path in Decode(stored)
  }

  // ---------------------------------------------------------------------------
  // Lemmas
  // ---------------------------------------------------------------------------

  /** The project itself is never excluded, whatever is stored. */
  lemma RootNeverExcluded(stored: string)
    ensures !Member(stored, "")
  {
  }

  /** Membership is membership in the list the stored string stands for. */
  lemma MemberIsInPaths(stored: string, path: string)
    ensures Member(stored, path) <==> path != "" && path in Paths(stored)
  {
  }

  /** A list of distinct storable paths is read back from its encoding as
      exactly that list, the empty list included. */
  lemma PathsEncode(ps: seq<string>)
    requires WellFormed(ps)
    ensures Paths(Encode(ps)) == ps
  {
    if ps != [] {
      assert ps[0] in ps;
      EncodeIsJoin(ps);
      assert DropLeadingEmpty(ps) == ps;
      JoinEmpty(ps);
      forall i | 0 <= i < |ps|
        ensures ps[i] != "" && Separator !in ps[i]
      {
        assert ps[i] in ps;
      }
      DecodeEncode(ps);
    }
  }

  /** The occurrence taken out is the first one: what stands before it and
      what stands after it are kept in order. */
  lemma {:induction false} RemoveFirstAt(xs: seq<string>, x: string)
    requires x in xs
    ensures RemoveFirst(xs, x) == xs[..IndexOf(xs, x)] + xs[IndexOf(xs, x) + 1..]
  {
    if xs[0] != x {
      var t := xs[1..];
      IndexOfTail(xs, x);
      RemoveFirstAt(t, x);
      var k := IndexOf(t, x);
      assert RemoveFirst(xs, x) == [xs[0]] + (t[..k] + t[k + 1..]);
      AppendAssoc([xs[0]], t[..k], t[k + 1..]);
      SliceTail(xs, k);
    }
  }

  /** Past a head that differs from `x`, `x` is found one place further in
      the tail. */
  lemma IndexOfTail(xs: seq<string>, x: string)
    requires x in xs && xs[0] != x
    ensures x in xs[1..] && IndexOf(xs, x) == IndexOf(xs[1..], x) + 1
  {
    assert xs == [xs[0]] + xs[1..];
  }

  /** Slices of a list in terms of slices of its tail. */
  lemma SliceTail(xs: seq<string>, k: nat)
    requires k + 1 < |xs|
    ensures xs[..k + 1] == [xs[0]] + xs[1..][..k]
    ensures xs[k + 2..] == xs[1..][k + 1..]
  {
  }

  /** Taking out the first occurrence of a path from a list of distinct
      storable paths leaves a list of distinct storable paths without it, and
      every other path where it was. */
  lemma RemoveFirstFromWellFormed(xs: seq<string>, x: string)
    requires WellFormed(xs)
    requires x in xs
    ensures WellFormed(RemoveFirst(xs, x))
    ensures x !in RemoveFirst(xs, x)
    ensures forall y :: y != x ==> (y in RemoveFirst(xs, x) <==> y in xs)
  {
    var r := RemoveFirst(xs, x);
    assert multiset(r)[x] == 0;
    forall y | y != x
      ensures y in r <==> y in xs
    {
      assert multiset(r)[y] == multiset(xs)[y];
    }
  }

  /** One exclusion request on a list of distinct storable paths, for a
      storable path: the path is in the result exactly when it was to be
      excluded, every other path is where it was, and the result is again a
      list of distinct storable paths. */
  lemma ToggledWellFormed(xs: seq<string>, path: string, exclude: bool)
    requires WellFormed(xs) && StorablePath(path)
    ensures WellFormed(Toggled(xs, path, exclude))
    ensures path in Toggled(xs, path, exclude) <==> exclude
    ensures forall q :: q != path ==> (q in Toggled(xs, path, exclude) <==> q in xs)
  {
    if !exclude && path in xs {
      RemoveFirstFromWellFormed(xs, path);
    }
  }

  /** The edit `setExcluded` makes to a stored string written by the store,
      for a storable path: the new string is again one the store could have
      written, it stands for the edited list, the path is excluded exactly as
      requested, and no other path changes. */
  lemma ExclusionUpdate(stored: string, path: string, exclude: bool)
    requires ValidStored(stored) && StorablePath(path)
    ensures var updated := Encode(Toggled(Decode(stored), path, exclude));
      && ValidStored(updated)
      && Paths(updated) == Toggled(Paths(stored), path, exclude)
      && Member(updated, path) == exclude
      && forall q :: q != path ==> Member(updated, q) == Member(stored, q)
  {
    var updated := Encode(Toggled(Decode(stored), path, exclude));
    var ps := Paths(stored);
    var edited := Toggled(ps, path, exclude);
    ToggledWellFormed(ps, path, exclude);
    if stored == "" {
      assert Decode(stored) == [""];
      if exclude {
        assert Toggled([""], path, exclude) == [""] + [path];
        assert Encode([""] + [path]) == path by {
          assert ([""] + [path])[..1] == [""];
        }
        DecodeWithoutSeparator(path);
        assert updated == path && Paths(updated) == [path] == edited;
      } else {
        assert Toggled([""], path, exclude) == [""];
        assert Encode([""]) == "";
        assert updated == "" && edited == [];
      }
    } else {
      PathsEncode(edited);
    }
    MemberIsInPaths(updated, path);
    forall q | q != path
      ensures Member(updated, q) == Member(stored, q)
    {
      MemberIsInPaths(updated, q);
      MemberIsInPaths(stored, q);
    }
  }

  /** Removal takes out only the first occurrence: under a stored string that
      lists a path twice, a request to stop excluding it leaves it excluded. */
  lemma RemovalKeepsDuplicate()
    ensures Decode("a:a") == ["a", "a"]
    ensures Member(Encode(Toggled(Decode("a:a"), "a", false)), "a")
  {
    assert Encode(["a", "a"]) == "a:a" by {
      assert ["a", "a"][..1] == ["a"];
      assert Encode(["a"]) == "a";
    }
    DecodeEncode(["a", "a"]);
    assert RemoveFirst(["a", "a"], "a") == ["a"];
    assert Encode(["a"]) == "a";
    DecodeWithoutSeparator("a");
  }

  /** A path containing the separator is split apart when read back, so
      excluding it has no effect on whether it is excluded. */
  lemma SeparatorInPathIsLost()
    ensures Encode(Toggled(Decode(""), "a:b", true)) == "a:b"
    ensures !Member("a:b", "a:b")
  {
    assert Decode("") == [""];
    assert Separator in "a:b";
    assert Toggled([""], "a:b", true) == ["", "a:b"];
    assert Encode(["", "a:b"]) == "a:b" by {
      assert ["", "a:b"][..1] == [""];
    }
    assert Encode(["a", "b"]) == "a:b" by {
      assert ["a", "b"][..1] == ["a"];
    }
    DecodeEncode(["a", "b"]);
  }
}
