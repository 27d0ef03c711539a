/**
 * The storage format of the excluded-path list of a project: the whole list is
 * kept under one preference key as a single string, the paths separated by ':'.
 * There is no escaping, so a path that itself contains ':' does not survive
 * the round trip.
 */
module PathCodec {

  /** The character that separates two paths in the stored string. */
  const Separator: char := ':'

  // ---------------------------------------------------------------------------
  // Reference definitions
  // ---------------------------------------------------------------------------

  /** The pieces found so far, after one more character is read: a separator
      opens a new, empty piece; any other character extends the last piece. */
  function Extend(pieces: seq<string>, c: char): (r: seq<string>)
    requires |pieces| >= 1
    ensures |r| >= 1
  {
    if c == Separator then pieces + [""]
    else pieces[..|pieces| - 1] + [pieces[|pieces| - 1] + [c]]
  }

  /** Every piece of `s[..n]` between separators, empty pieces included (a
      split with no limit and no trimming), read from the left. */
  function PrefixSegments(s: string, n: nat): (r: seq<string>)
    requires n <= |s|
    ensures |r| >= 1
  {
    if n == 0 then [""] else Extend(PrefixSegments(s, n - 1), s[n - 1])
  }

  /** Every piece of `s` between separators, empty pieces included. */
  function Segments(s: string): seq<string>
  {
    PrefixSegments(s, |s|)
  }

  /** The paths with exactly one separator between each two neighbours. */
  function Join(ps: seq<string>): string
  {
    if ps == [] then ""
    else if |ps| == 1 then ps[0]
    else Join(ps[..|ps| - 1]) + [Separator] + ps[|ps| - 1]
  }

  /** `ps` without its trailing run of empty strings. */
  function DropTrailingEmpty(ps: seq<string>): (r: seq<string>)
    ensures |r| <= |ps| && r == ps[..|r|]
    ensures forall i :: |r| <= i < |ps| ==> ps[i] == ""
    ensures r == [] || r[|r| - 1] != ""
  {
    if ps != [] && ps[|ps| - 1] == "" then DropTrailingEmpty(ps[..|ps| - 1]) else ps
  }

  /** `ps` without its leading run of empty strings. */
  function DropLeadingEmpty(ps: seq<string>): (r: seq<string>)
    ensures |r| <= |ps| && r == ps[|ps| - |r|..]
    ensures forall i :: 0 <= i < |ps| - |r| ==> ps[i] == ""
    ensures r == [] || r[0] != ""
  {
    if ps != [] && ps[0] == "" then
      var r := DropLeadingEmpty(ps[1..]);
      assert ps[1..][|ps| - 1 - |r|..] == ps[|ps| - |r|..];
      r
    else ps
  }

  // ---------------------------------------------------------------------------
  // The format itself
  // ---------------------------------------------------------------------------

  /** The output after one more path is appended: a separator goes first only
      when the output built so far is non-empty. */
  function Emit(built: string, path: string): string
  {
    if |built| > 0 then built + [Separator] + path else path
  }

  /** The stored form of a path list. Because a separator is written only
      after a non-empty output, empty paths at the front leave no trace. */
  function Encode(ps: seq<string>): string
  {
    if ps == [] then "" else Emit(Encode(ps[..|ps| - 1]), ps[|ps| - 1])
  }

  /** The path list read back from its stored form, as a split on ':' with
      limit 0 gives it: a string without ':' is the one-element list of
      itself (so "" gives [""]); otherwise the pieces between separators,
      with the trailing empty pieces removed. */
  function Decode(s: string): seq<string>
  {
    if Separator !in s then [s] else DropTrailingEmpty(Segments(s))
  }

  // ---------------------------------------------------------------------------
  // The loops that build and split the stored string
  // ---------------------------------------------------------------------------

  /** Appends the paths one by one to a growing buffer, writing a separator
      first whenever the buffer is already non-empty. */
  method EncodePaths(paths: seq<string>) returns (encoded: string)
    ensures encoded == Encode(paths)
    ensures encoded == Join(DropLeadingEmpty(paths))
  {
    var builder: string := "";
    for i := 0 to |paths|
      invariant builder == Encode(paths[..i])
    {
      assert paths[..i + 1][..i] == paths[..i];
      if |builder| > 0 {
        builder := builder + [Separator];
      }
      builder := builder + paths[i];
    }
    assert paths[..|paths|] == paths;
    encoded := builder;
    EncodeIsJoin(paths);
  }

  /** The scan of a split on ':': every piece between separators, and whether
      any separator was met at all. */
  method ScanSegments(s: string) returns (pieces: seq<string>, found: bool)
    ensures pieces == Segments(s)
    ensures found == (Separator in s)
  {
    pieces := [];
    var off, i := 0, 0;
    while i < |s|
      invariant i <= |s|
      invariant Scanned(s, pieces, off, i)
    {
      ScanStep(s, pieces, off, i);
      if s[i] == Separator {
        pieces := pieces + [s[off..i]];
        off := i + 1;
      }
      i := i + 1;
    }
    ScanDone(s, pieces, off);
    pieces := pieces + [s[off..]];
    found := off != 0;
  }

  /** The number of pieces left once the trailing empty ones are dropped. */
  method TrimTrailingEmpty(pieces: seq<string>) returns (size: nat)
    ensures size <= |pieces| && pieces[..size] == DropTrailingEmpty(pieces)
  {
    size := |pieces|;
    assert pieces[..size] == pieces;
    while size > 0 && pieces[size - 1] == ""
      invariant size <= |pieces|
      invariant DropTrailingEmpty(pieces[..size]) == DropTrailingEmpty(pieces)
    {
      assert pieces[..size][..size - 1] == pieces[..size - 1];
      size := size - 1;
    }
  }

  /** Splits the stored string on ':' with limit 0 (a string with no separator
      is returned whole; otherwise the pieces without the trailing empty ones)
      and copies the pieces into a fresh list. */
  method DecodePaths(encodedPaths: string) returns (list: seq<string>)
    ensures list == Decode(encodedPaths)
  {
    var pieces, found := ScanSegments(encodedPaths);
    var split: seq<string>;
    if !found {
      split := [encodedPaths];
    } else {
      var size := TrimTrailingEmpty(pieces);
      split := pieces[..size];
    }
    list := [];
    for k := 0 to |split|
      invariant list == split[..k]
    {
      list := list + [split[k]];
    }
    assert split[..|split|] == split;
  }

  // ---------------------------------------------------------------------------
  // Lemmas about the pieces of a string
  // ---------------------------------------------------------------------------

  /** Reading a character extends only the last pieces; pieces already closed
      in front are kept as they are. */
  lemma ExtendAfterFront(front: seq<string>, back: seq<string>, c: char)
    requires |back| >= 1
    ensures Extend(front + back, c) == front + Extend(back, c)
  {
    var x := front + back;
    if c != Separator {
      assert x[..|x| - 1] == front + back[..|back| - 1];
    }
  }

  /** The state of the scan in `ScanSegments` after `i` characters: the
      closed pieces and the open one starting at `off` are the pieces of
      `s[..i]`, and `off` is still 0 exactly when no separator was met. */
  ghost predicate Scanned(s: string, pieces: seq<string>, off: nat, i: nat)
  {
    && off <= i <= |s|
    && pieces + [s[off..i]] == PrefixSegments(s, i)
    && (off == 0 <==> Separator !in s[..i])
  }

  /** One character of the scan: a separator closes the current piece and
      opens an empty one; any other character extends the current piece. */
  lemma ScanStep(s: string, pieces: seq<string>, off: nat, i: nat)
    requires i < |s| && Scanned(s, pieces, off, i)
    ensures s[i] == Separator ==> Scanned(s, pieces + [s[off..i]], i + 1, i + 1)
    ensures s[i] != Separator ==> Scanned(s, pieces, off, i + 1)
  {
    ScanPieces(s, pieces, off, i);
    SeparatorInPrefix(s, i);
  }

  /** The pieces half of `ScanStep`. */
  lemma ScanPieces(s: string, pieces: seq<string>, off: nat, i: nat)
    requires off <= i < |s|
    requires pieces + [s[off..i]] == PrefixSegments(s, i)
    ensures s[i] == Separator ==> (pieces + [s[off..i]]) + [s[i + 1..i + 1]] == PrefixSegments(s, i + 1)
    ensures s[i] != Separator ==> pieces + [s[off..i + 1]] == PrefixSegments(s, i + 1)
  {
    var cur, c := s[off..i], s[i];
    assert PrefixSegments(s, i + 1) == Extend(pieces + [cur], c);
    ExtendAfterFront(pieces, [cur], c);
    SliceStep(s, off, i);
    if c == Separator {
      assert Extend([cur], c) == [cur] + [""];
      AppendAssoc(pieces, [cur], [""]);
    } else {
      assert Extend([cur], c) == [cur + [c]];
    }
  }

  /** Taking one more character into a slice. */
  lemma SliceStep(s: string, off: nat, i: nat)
    requires off <= i < |s|
    ensures s[off..i + 1] == s[off..i] + [s[i]]
    ensures s[i + 1..i + 1] == ""
  {
  }

  /** A separator occurs in `s[..i + 1]` exactly when it occurs in `s[..i]`
      or is `s[i]`. */
  lemma SeparatorInPrefix(s: string, i: nat)
    requires i < |s|
    ensures Separator in s[..i + 1] <==> Separator in s[..i] || s[i] == Separator
  {
    assert s[..i + 1] == s[..i] + [s[i]];
  }

  /** The end of the scan: the open piece is the last piece of `s`. */
  lemma ScanDone(s: string, pieces: seq<string>, off: nat)
    requires Scanned(s, pieces, off, |s|)
    ensures pieces + [s[off..]] == Segments(s)
    ensures off != 0 <==> Separator in s
  {
    assert s[..|s|] == s;
  }

  /** The pieces of a prefix depend only on that prefix. */
  lemma {:induction false} PrefixSegmentsAgree(s: string, t: string, n: nat)
    requires n <= |s| && n <= |t| && s[..n] == t[..n]
    ensures PrefixSegments(s, n) == PrefixSegments(t, n)
  {
    if n > 0 {
      assert s[n - 1] == t[n - 1] by {
        assert s[n - 1] == s[..n][n - 1] && t[n - 1] == t[..n][n - 1];
      }
      assert s[..n - 1] == t[..n - 1] by {
        assert s[..n - 1] == s[..n][..n - 1] && t[..n - 1] == t[..n][..n - 1];
      }
      PrefixSegmentsAgree(s, t, n - 1);
    }
  }

  /** Reading a character into the pieces adds that character to their join. */
  lemma JoinExtend(pieces: seq<string>, c: char)
    requires |pieces| >= 1
    ensures Join(Extend(pieces, c)) == Join(pieces) + [c]
  {
    if c == Separator {
      JoinAppend(pieces, "");
      AppendAssoc(Join(pieces), [Separator], "");
    } else if |pieces| == 1 {
      assert Extend(pieces, c) == [pieces[0] + [c]];
    } else {
      var front, last := pieces[..|pieces| - 1], pieces[|pieces| - 1];
      ExtendWord(pieces, c);
      JoinLast(pieces);
      JoinAppend(front, last + [c]);
      AppendAssoc(Join(front) + [Separator], last, [c]);
    }
  }

  /** Extending by a non-separator grows the last piece. */
  lemma ExtendWord(pieces: seq<string>, c: char)
    requires |pieces| >= 1 && c != Separator
    ensures Extend(pieces, c) == pieces[..|pieces| - 1] + [pieces[|pieces| - 1] + [c]]
  {
  }

  /** The last piece of a join of several pieces follows a separator. */
  lemma JoinLast(ps: seq<string>)
    requires |ps| > 1
    ensures Join(ps) == Join(ps[..|ps| - 1]) + [Separator] + ps[|ps| - 1]
  {
  }

  /** Concatenation of sequences is associative. */
  lemma AppendAssoc<T>(a: seq<T>, b: seq<T>, c: seq<T>)
    ensures a + (b + c) == (a + b) + c
  {
  }

  /** Joining one more path adds a separator and the path. */
  lemma JoinAppend(ps: seq<string>, p: string)
    requires ps != []
    ensures Join(ps + [p]) == Join(ps) + [Separator] + p
  {
    assert (ps + [p])[..|ps|] == ps;
  }

  /** The pieces of `s[..n]` are those of `s[..n - 1]` extended by `s[n - 1]`. */
  lemma PrefixSegmentsStep(s: string, n: nat)
    requires 0 < n <= |s|
    ensures PrefixSegments(s, n) == Extend(PrefixSegments(s, n - 1), s[n - 1])
  {
  }

  /** A separator adds a piece; any other character keeps the count. */
  lemma ExtendLength(pieces: seq<string>, c: char)
    requires |pieces| >= 1
    ensures |Extend(pieces, c)| == if c == Separator then |pieces| + 1 else |pieces|
  {
  }

  /** Joining the pieces of `s[..n]` gives `s[..n]` back. */
  lemma {:induction false} JoinPrefixSegments(s: string, n: nat)
    requires n <= |s|
    ensures Join(PrefixSegments(s, n)) == s[..n]
  {
    if n > 0 {
      var p, c := PrefixSegments(s, n - 1), s[n - 1];
      PrefixSegmentsStep(s, n);
      JoinPrefixSegments(s, n - 1);
      JoinExtend(p, c);
      SliceStep(s, 0, n - 1);
    }
  }

  /** Joining the pieces of `s` gives `s` back. */
  lemma JoinSegments(s: string)
    ensures Join(Segments(s)) == s
  {
    JoinPrefixSegments(s, |s|);
    assert s[..|s|] == s;
  }

  /** A prefix has a single piece exactly when it has no separator. */
  lemma {:induction false} SinglePrefixSegment(s: string, n: nat)
    requires n <= |s|
    ensures |PrefixSegments(s, n)| == 1 <==> Separator !in s[..n]
  {
    if n == 0 {
      assert s[..0] == [];
      assert PrefixSegments(s, 0) == [""];
    } else {
      var p, c := PrefixSegments(s, n - 1), s[n - 1];
      PrefixSegmentsStep(s, n);
      ExtendLength(p, c);
      SinglePrefixSegment(s, n - 1);
      SeparatorInPrefix(s, n - 1);
    }
  }

  /** A string has a single piece exactly when it has no separator. */
  lemma SingleSegment(s: string)
    ensures |Segments(s)| == 1 <==> Separator !in s
  {
    SinglePrefixSegment(s, |s|);
    assert s[..|s|] == s;
  }

  /** A string without separators is its own single piece. */
  lemma SegmentsWithoutSeparator(s: string)
    requires Separator !in s
    ensures Segments(s) == [s]
  {
    SingleSegment(s);
    JoinSegments(s);
  }

  /** The pieces of `a:b[..k]` are the pieces of `a` followed by those of `b[..k]`. */
  lemma {:induction false} PrefixSegmentsAppend(a: string, b: string, k: nat)
    requires k <= |b|
    ensures PrefixSegments(a + [Separator] + b, |a| + 1 + k) == Segments(a) + PrefixSegments(b, k)
  {
    var s := a + [Separator] + b;
    if k == 0 {
      assert PrefixSegments(s, |a|) == Segments(a) by {
        assert s[..|a|] == a[..|a|] by { assert a[..|a|] == a; }
        PrefixSegmentsAgree(s, a, |a|);
      }
      assert s[|a|] == Separator;
      assert PrefixSegments(s, |a| + 1) == Segments(a) + [""];
    } else {
      PrefixSegmentsAppend(a, b, k - 1);
      assert s[|a| + k] == b[k - 1];
      assert PrefixSegments(s, |a| + 1 + k) == Extend(Segments(a) + PrefixSegments(b, k - 1), b[k - 1]);
      ExtendAfterFront(Segments(a), PrefixSegments(b, k - 1), b[k - 1]);
    }
  }

  /** The pieces of `a:b` are the pieces of `a` followed by those of `b`. */
  lemma SegmentsAppend(a: string, b: string)
    ensures Segments(a + [Separator] + b) == Segments(a) + Segments(b)
  {
    PrefixSegmentsAppend(a, b, |b|);
  }

  /** Splitting a join of separator-free paths gives the paths back. */
  lemma {:induction false} SegmentsJoin(ps: seq<string>)
    requires |ps| >= 1
    requires forall i :: 0 <= i < |ps| ==> Separator !in ps[i]
    ensures Segments(Join(ps)) == ps
    decreases |ps|
  {
    if |ps| == 1 {
      SegmentsWithoutSeparator(ps[0]);
    } else {
      var init, last := ps[..|ps| - 1], ps[|ps| - 1];
      SegmentsJoin(init);
      SegmentsAppend(Join(init), last);
      SegmentsWithoutSeparator(last);
      assert init + [last] == ps;
    }
  }

  /** The first piece of a non-empty prefix is empty exactly when the string
      starts with a separator. */
  lemma {:induction false} FirstPrefixSegment(s: string, n: nat)
    requires 0 < n <= |s|
    ensures PrefixSegments(s, n)[0] == "" <==> s[0] == Separator
  {
    if n > 1 {
      FirstPrefixSegment(s, n - 1);
      SinglePrefixSegment(s, n - 1);
      assert s[0] in s[..n - 1];
    }
  }

  // ---------------------------------------------------------------------------
  // Lemmas about the stored format
  // ---------------------------------------------------------------------------

  /** Appending one more path to the input of `DropLeadingEmpty`. */
  lemma {:induction false} DropLeadingEmptyAppend(ps: seq<string>, p: string)
    ensures DropLeadingEmpty(ps + [p]) ==
            if DropLeadingEmpty(ps) == [] then DropLeadingEmpty([p]) else DropLeadingEmpty(ps) + [p]
  {
    if ps == [] {
      assert ps + [p] == [p];
    } else if ps[0] == "" {
      assert DropLeadingEmpty(ps + [p]) == DropLeadingEmpty(ps[1..] + [p]) by {
        assert (ps + [p])[0] == "";
        assert (ps + [p])[1..] == ps[1..] + [p];
      }
      DropLeadingEmptyAppend(ps[1..], p);
    } else {
      assert (ps + [p])[0] != "";
    }
  }

  /** A join is empty only for no paths or the one empty path. */
  lemma JoinEmpty(ps: seq<string>)
    ensures Join(ps) == "" <==> ps == [] || ps == [""]
  {
    if |ps| > 1 {
      assert |Join(ps)| >= 1;
    }
  }

  /** Independent description of `Encode`: a plain join of the paths once the
      leading empty paths are dropped. */
  lemma {:induction false} EncodeIsJoin(ps: seq<string>)
    ensures Encode(ps) == Join(DropLeadingEmpty(ps))
    decreases |ps|
  {
    if ps != [] {
      EncodeIsJoin(ps[..|ps| - 1]);
      EncodeLast(ps);
      EmitJoin(ps);
    }
  }

  /** Emitting the last path after the join of the others, with their leading
      empty paths dropped, gives the join of the whole list without its
      leading empty paths. */
  lemma EmitJoin(ps: seq<string>)
    requires ps != []
    ensures Emit(Join(DropLeadingEmpty(ps[..|ps| - 1])), ps[|ps| - 1]) == Join(DropLeadingEmpty(ps))
  {
    var q, p := DropLeadingEmpty(ps[..|ps| - 1]), ps[|ps| - 1];
    DropLeadingEmptyLast(ps);
    if q == [] {
      assert Emit(Join(q), p) == p;
      if p == "" {
        assert DropLeadingEmpty([p]) == [];
      } else {
        assert DropLeadingEmpty([p]) == [p];
      }
    } else {
      JoinEmpty(q);
      JoinAppend(q, p);
    }
  }

  /** `DropLeadingEmptyAppend` for the last path of a non-empty list. */
  lemma DropLeadingEmptyLast(ps: seq<string>)
    requires ps != []
    ensures var q, p := DropLeadingEmpty(ps[..|ps| - 1]), ps[|ps| - 1];
      DropLeadingEmpty(ps) == if q == [] then DropLeadingEmpty([p]) else q + [p]
  {
    SplitLast(ps);
    DropLeadingEmptyAppend(ps[..|ps| - 1], ps[|ps| - 1]);
  }

  /** A non-empty list is its front followed by its last element. */
  lemma SplitLast(ps: seq<string>)
    requires ps != []
    ensures ps[..|ps| - 1] + [ps[|ps| - 1]] == ps
  {
  }

  /** The encoding of a non-empty list emits its last path after the rest. */
  lemma EncodeLast(ps: seq<string>)
    requires ps != []
    ensures Encode(ps) == Emit(Encode(ps[..|ps| - 1]), ps[|ps| - 1])
  {
  }


  /** Round trip: a non-empty list of non-empty, separator-free paths is read
      back exactly as it was written. */
  lemma DecodeEncode(ps: seq<string>)
    requires |ps| >= 1
    requires forall i :: 0 <= i < |ps| ==> ps[i] != "" && Separator !in ps[i]
    ensures Decode(Encode(ps)) == ps
  {
    EncodeIsJoin(ps);
    assert DropLeadingEmpty(ps) == ps;
    SegmentsJoin(ps);
    SingleSegment(Join(ps));
  }

  /** The other round trip: a stored string that neither starts nor ends with a
      separator is written back unchanged after being read. */
  lemma EncodeDecode(s: string)
    requires s == "" || (s[0] != Separator && s[|s| - 1] != Separator)
    ensures Encode(Decode(s)) == s
  {
    if s == "" {
      assert Decode(s) == [""];
      assert Encode([""]) == "";
    } else if Separator !in s {
      assert Encode([s]) == Emit("", s);
    } else {
      var pieces := Segments(s);
      FirstPrefixSegment(s, |s|);
      JoinSegments(s);
      assert pieces[|pieces| - 1] != "";
      assert DropTrailingEmpty(pieces) == pieces;
      assert DropLeadingEmpty(pieces) == pieces;
      EncodeIsJoin(pieces);
    }
  }

  /** What the format does at its edges. */
  lemma EncodeExamples()
    ensures Encode([]) == ""
    ensures Encode([""]) == ""
    ensures Encode(["", "x"]) == "x"
    ensures Encode(["a/b", "c"]) == "a/b:c"
    ensures Encode(["a", "", "b"]) == "a::b"
  {
    assert ["", "x"][..1] == [""];
    assert ["a/b", "c"][..1] == ["a/b"];
    assert ["a", "", "b"][..2] == ["a", ""];
    assert ["a", ""][..1] == ["a"];
  }

  /** The empty string reads back as one empty path, not as no paths. */
  lemma DecodeEmpty()
    ensures Decode("") == [""]
  {
  }

  /** A string without separators reads back as the one path it is. */
  lemma DecodeWithoutSeparator(s: string)
    requires Separator !in s
    ensures Decode(s) == [s]
  {
  }

  /** A lone separator gives two empty pieces, both trailing, so no paths. */
  lemma DecodeLoneSeparator()
    ensures Decode(":") == []
  {
    assert Segments(":") == ["", ""];
  }

  /** A trailing separator leaves no trace in the decoded list. */
  lemma DecodeTrailingSeparator()
    ensures Decode("a:") == ["a"]
  {
    assert "" + ['a'] == "a";
    assert PrefixSegments("a:", 1) == Extend([""], 'a') == ["a"];
    assert Segments("a:") == Extend(["a"], Separator);
  }

  /** A leading separator does: it gives a leading empty path. */
  lemma DecodeLeadingSeparator()
    ensures Decode(":a") == ["", "a"]
  {
    assert "" + ['a'] == "a";
    assert PrefixSegments(":a", 1) == ["", ""];
    assert Segments(":a") == Extend(["", ""], 'a');
  }

  /** The two-path example: "a/b" and "c" are stored as "a/b:c" and read back. */
  lemma TwoPathRoundTrip()
    ensures Encode(["a/b", "c"]) == "a/b:c"
    ensures Decode("a/b:c") == ["a/b", "c"]
  {
    EncodeExamples();
    DecodeEncode(["a/b", "c"]);
  }
}
