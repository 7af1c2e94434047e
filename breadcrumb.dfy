/**
 * The breadcrumb trail of the `CustomBreadcrumb` component: the current
 * pathname is split on '/', empty pieces are dropped, an implicit "Home"
 * entry links to the root, and every remaining segment links to the path made
 * of the segments up to and including it, except the last one, which is shown
 * as the passive, active item.
 */
module Breadcrumb {

  /** The path separator. */
  const Sep: char := '/'

  /** The root path, the target of the implicit "Home" entry. */
  const Root: string := [Sep]

  /** One entry of the decomposition: decoded label, link target, terminal flag. */
  datatype PathSegment = PathSegment(text: string, fullPath: string, isLast: bool)

  /** One rendered item of the trail: a link, or the passive item for the last segment. */
  datatype Item = Link(text: string, to: string) | Active(text: string)

  /** Number of occurrences of `c` in `s`. */
  function Count(s: string, c: char): nat
  {
    if s == [] then 0 else (if s[0] == c then 1 else 0) + Count(s[1..], c)
  }

  /**
   * `s.split("/")` in JavaScript: the pieces between separators, keeping the
   * empty pieces before a leading, after a trailing and between doubled
   * separators; the empty string splits into one empty piece.
   */
  function Split(s: string): (pieces: seq<string>)
    ensures |pieces| == Count(s, Sep) + 1
    ensures forall k :: 0 <= k < |pieces| ==> Sep !in pieces[k]
  {
    if s == [] then [""]
    else if s[0] == Sep then [""] + Split(s[1..])
    else
      var rest := Split(s[1..]);
      [[s[0]] + rest[0]] + rest[1..]
  }

  /**
   * `xs.join("/")` in JavaScript; the empty array joins to the empty string.
   * A non-empty join starts with the first piece.
   */
  function Join(xs: seq<string>): (s: string)
    ensures |xs| >= 1 ==> xs[0] <= s
  {
    if |xs| == 0 then ""
    else if |xs| == 1 then xs[0]
    else xs[0] + [Sep] + Join(xs[1..])
  }

  /** `xs.filter((x) => x)`: the only falsy string is the empty one. */
  function NonEmpty(xs: seq<string>): (ys: seq<string>)
    ensures |ys| <= |xs|
    ensures forall k :: 0 <= k < |ys| ==> ys[k] != "" && ys[k] in xs
    ensures (forall k :: 0 <= k < |xs| ==> xs[k] != "") ==> ys == xs
  {
    if xs == [] then []
    else (if xs[0] == "" then [] else [xs[0]]) + NonEmpty(xs[1..])
  }

  /** Segments a breadcrumb can be made of: non-empty and free of separators. */
  ghost predicate WellFormed(segs: seq<string>)
  {
    forall k :: 0 <= k < |segs| ==> segs[k] != "" && Sep !in segs[k]
  }

  /** `pathname.split("/").filter((x) => x)`. */
  function Segments(path: string): (segs: seq<string>)
    ensures WellFormed(segs)
    ensures |segs| <= Count(path, Sep) + 1
  {
    NonEmpty(Split(path))
  }

  /**
   * The link target of segment `i`: `"/" + segs.slice(0, i + 1).join("/")`.
   * It is the separator followed by a string that starts with the first segment.
   */
  function FullPath(segs: seq<string>, i: nat): (target: string)
    requires i < |segs|
    ensures |target| >= 1 + |segs[0]| && target[0] == Sep && segs[0] <= target[1..]
  {
    [Sep] + Join(segs[..i + 1])
  }

  /**
   * The segment entries, one per non-empty segment, in order: entry `i` is
   * labelled with the decoded segment `i` and targets the path of segments
   * `0..i`, only the final entry is terminal, and each target is a strict
   * prefix of every later one.
   */
  function Decompose(path: string, decode: string -> string): (entries: seq<PathSegment>)
    ensures |entries| == |Segments(path)|
    ensures forall i :: 0 <= i < |entries| ==> entries[i].text == decode(Segments(path)[i])
    ensures forall i :: 0 <= i < |entries| ==> entries[i].fullPath == FullPath(Segments(path), i)
    ensures forall i :: 0 <= i < |entries| ==> (entries[i].isLast <==> i == |entries| - 1)
    ensures forall i, j :: 0 <= i < j < |entries| ==> entries[i].fullPath < entries[j].fullPath
  {
    var segs := Segments(path);
    FullPathsIncreasing(segs);
    seq(|segs|, i requires 0 <= i < |segs| =>
      PathSegment(decode(segs[i]), FullPath(segs, i), i == |segs| - 1))
  }

  /**
   * The React keys of the segment entries: their link targets. Key `i` is
   * the target of segment `i` and decomposes back into the first `i + 1`
   * segments of the path.
   */
  function Keys(path: string): (keys: seq<string>)
    ensures |keys| == |Segments(path)|
    ensures forall i :: 0 <= i < |keys| ==> keys[i] == FullPath(Segments(path), i)
    ensures forall i :: 0 <= i < |keys| ==> Segments(keys[i]) == Segments(path)[..i + 1]
  {
    var segs := Segments(path);
    FullPathsRoundTrip(segs);
    seq(|segs|, i requires 0 <= i < |segs| => FullPath(segs, i))
  }

  /**
   * What is rendered: a "Home" link to the root, then one item per segment
   * entry, of which only the final one is the passive item.
   */
  function Trail(path: string, decode: string -> string): (items: seq<Item>)
    ensures |items| == 1 + |Segments(path)| && items[0] == Link("Home", Root)
    ensures forall i :: 1 <= i < |items| ==> (items[i].Active? <==> i == |items| - 1)
  {
    var d := Decompose(path, decode);
    [Link("Home", Root)] + seq(|d|, i requires 0 <= i < |d| =>
      if d[i].isLast then Active(d[i].text) else Link(d[i].text, d[i].fullPath))
  }

  // ---------------------------------------------------------------------------
  // Split and Join

  lemma {:induction false} CountConcat(a: string, b: string)
    ensures Count(a + b, Sep) == Count(a, Sep) + Count(b, Sep)
  {
    if a != [] {
      assert (a + b)[1..] == a[1..] + b;
      CountConcat(a[1..], b);
    } else {
      assert a + b == b;
    }
  }

  lemma {:induction false} CountWithout(s: string)
    ensures Sep !in s ==> Count(s, Sep) == 0
  {
    if s != [] {
      CountWithout(s[1..]);
    }
  }

  lemma {:induction false} SplitWithoutSep(s: string)
    requires Sep !in s
    ensures Split(s) == [s]
  {
    if s != [] {
      SplitWithoutSep(s[1..]);
      assert [s[0]] + s[1..] == s;
    }
  }

  /** Splitting at one separator splits the two sides independently. */
  lemma {:induction false} SplitConcat(a: string, b: string)
    ensures Split(a + [Sep] + b) == Split(a) + Split(b)
  {
    if a == [] {
      assert a + [Sep] + b == [Sep] + b;
      assert ([Sep] + b)[1..] == b;
    } else {
      var s := a + [Sep] + b;
      assert s[0] == a[0];
      assert s[1..] == a[1..] + [Sep] + b;
      SplitConcat(a[1..], b);
    }
  }

  lemma JoinCons(h: string, t: seq<string>)
    requires |t| >= 1
    ensures Join([h] + t) == h + [Sep] + Join(t)
  {
    assert ([h] + t)[1..] == t;
  }

  /** Joining the pieces of a split gives back the original string. */
  lemma {:induction false} JoinSplit(s: string)
    ensures Join(Split(s)) == s
  {
    if s == [] {
    } else if s[0] == Sep {
      JoinSplit(s[1..]);
      JoinCons("", Split(s[1..]));
      assert [s[0]] + s[1..] == s;
    } else {
      var rest := Split(s[1..]);
      JoinSplit(s[1..]);
      assert [s[0]] + s[1..] == s;
      if |rest| > 1 {
        JoinCons([s[0]] + rest[0], rest[1..]);
        JoinCons(rest[0], rest[1..]);
        assert [rest[0]] + rest[1..] == rest;
      }
    }
  }

  /** Splitting a join of separator-free pieces gives back the pieces. */
  lemma {:induction false} SplitJoin(xs: seq<string>)
    requires |xs| >= 1
    requires forall k :: 0 <= k < |xs| ==> Sep !in xs[k]
    ensures Split(Join(xs)) == xs
  {
    if |xs| == 1 {
      SplitWithoutSep(xs[0]);
    } else {
      SplitWithoutSep(xs[0]);
      SplitJoin(xs[1..]);
      SplitConcat(xs[0], Join(xs[1..]));
      assert [xs[0]] + xs[1..] == xs;
    }
  }

  /** A join of `n` separator-free pieces holds exactly `n - 1` separators. */
  lemma {:induction false} JoinCount(xs: seq<string>)
    requires |xs| >= 1
    requires forall k :: 0 <= k < |xs| ==> Sep !in xs[k]
    ensures Count(Join(xs), Sep) == |xs| - 1
  {
    CountWithout(xs[0]);
    if |xs| > 1 {
      JoinCount(xs[1..]);
      CountConcat(xs[0] + [Sep], Join(xs[1..]));
      CountConcat(xs[0], [Sep]);
    }
  }

  /** Appending a piece to a non-empty join adds one separator and the piece. */
  lemma {:induction false} JoinSnoc(xs: seq<string>, y: string)
    requires |xs| >= 1
    ensures Join(xs + [y]) == Join(xs) + [Sep] + y
  {
    if |xs| == 1 {
      JoinCons(xs[0], [y]);
    } else {
      assert (xs + [y])[1..] == xs[1..] + [y];
      JoinSnoc(xs[1..], y);
    }
  }

  // ---------------------------------------------------------------------------
  // Filtering and the segment list

  lemma {:induction false} NonEmptyConcat(a: seq<string>, b: seq<string>)
    ensures NonEmpty(a + b) == NonEmpty(a) + NonEmpty(b)
  {
    if a == [] {
      assert a + b == b;
    } else {
      assert (a + b)[0] == a[0];
      assert (a + b)[1..] == a[1..] + b;
      NonEmptyConcat(a[1..], b);
    }
  }

  /** A separator cuts the path into two independently decomposed halves. */
  lemma SegmentsConcat(a: string, b: string)
    ensures Segments(a + [Sep] + b) == Segments(a) + Segments(b)
  {
    SplitConcat(a, b);
    NonEmptyConcat(Split(a), Split(b));
  }

  lemma SegmentsOfEmpty()
    ensures Segments("") == []
  {
    assert Split("") == [""];
  }

  /** A leading separator does not change the segments. */
  lemma LeadingSlashIgnored(a: string)
    ensures Segments([Sep] + a) == Segments(a)
  {
    SegmentsConcat([], a);
    SegmentsOfEmpty();
    assert [] + [Sep] + a == [Sep] + a;
  }

  /** A trailing separator does not change the segments. */
  lemma TrailingSlashIgnored(a: string)
    ensures Segments(a + [Sep]) == Segments(a)
  {
    SegmentsConcat(a, []);
    SegmentsOfEmpty();
    assert a + [Sep] + [] == a + [Sep];
  }

  /** A doubled separator counts as a single one. */
  lemma DoubledSlashIgnored(a: string, b: string)
    ensures Segments(a + [Sep, Sep] + b) == Segments(a + [Sep] + b)
  {
    SegmentsConcat(a, [Sep] + b);
    assert a + [Sep] + ([Sep] + b) == a + [Sep, Sep] + b;
    LeadingSlashIgnored(b);
    SegmentsConcat(a, b);
  }

  lemma TwoSegmentsExample()
    ensures Segments("a/b") == ["a", "b"]
  {
    SplitWithoutSep("a");
    SplitWithoutSep("b");
    SegmentsConcat("a", "b");
    assert "a" + [Sep] + "b" == "a/b";
  }

  lemma DoubledSlashesExample()
    ensures Segments("/a//b/") == Segments("/a/b") == ["a", "b"]
  {
    AbsoluteTwoSegmentsExample();
    TrailingSlashIgnored("/a/b");
    assert "/a/b" + [Sep] == "/a/b/";
    DoubledSlashIgnored("/a", "b/");
    assert "/a" + [Sep, Sep] + "b/" == "/a//b/";
    assert "/a" + [Sep] + "b/" == "/a/b/";
  }

  lemma AbsoluteTwoSegmentsExample()
    ensures Segments("/a/b") == ["a", "b"]
  {
    TwoSegmentsExample();
    LeadingSlashIgnored("a/b");
    assert [Sep] + "a/b" == "/a/b";
  }

  // ---------------------------------------------------------------------------
  // Link targets

  /** The first target is "/" + the first segment; each next one extends the previous. */
  lemma FullPathStep(segs: seq<string>, i: nat)
    requires |segs| >= 1
    ensures FullPath(segs, 0) == [Sep] + segs[0]
    ensures i + 1 < |segs| ==> FullPath(segs, i + 1) == FullPath(segs, i) + [Sep] + segs[i + 1]
  {
    assert segs[..1] == [segs[0]];
    if i + 1 < |segs| {
      assert segs[..i + 2] == segs[..i + 1] + [segs[i + 1]];
      JoinSnoc(segs[..i + 1], segs[i + 1]);
    }
  }

  /** Each target is a strict prefix of every later one. */
  lemma {:induction false} FullPathStrictPrefix(segs: seq<string>, i: nat, j: nat)
    requires i < j < |segs|
    ensures FullPath(segs, i) < FullPath(segs, j)
    decreases j - i
  {
    FullPathStep(segs, j - 1);
    if i < j - 1 {
      FullPathStrictPrefix(segs, i, j - 1);
    }
  }

  lemma FullPathsIncreasing(segs: seq<string>)
    ensures forall i, j :: 0 <= i < j < |segs| ==> FullPath(segs, i) < FullPath(segs, j)
  {
    forall i, j | 0 <= i < j < |segs|
      ensures FullPath(segs, i) < FullPath(segs, j)
    {
      FullPathStrictPrefix(segs, i, j);
    }
  }

  /** Distinct segments have distinct targets. */
  lemma FullPathsDistinct(segs: seq<string>, i: nat, j: nat)
    requires i < |segs| && j < |segs| && i != j
    ensures FullPath(segs, i) != FullPath(segs, j)
  {
    if i < j {
      FullPathStrictPrefix(segs, i, j);
    } else {
      FullPathStrictPrefix(segs, j, i);
    }
  }

  /** The React keys of one trail are pairwise distinct. */
  lemma KeysUnique(path: string)
    ensures forall i, j :: 0 <= i < j < |Keys(path)| ==> Keys(path)[i] != Keys(path)[j]
  {
    var segs := Segments(path);
    forall i, j | 0 <= i < j < |Keys(path)|
      ensures Keys(path)[i] != Keys(path)[j]
    {
      FullPathsDistinct(segs, i, j);
    }
  }

  /** The key of each fragment is the target of its entry, whatever the labels. */
  lemma KeysAreTargets(path: string, decode: string -> string)
    ensures |Keys(path)| == |Decompose(path, decode)|
    ensures forall i :: 0 <= i < |Keys(path)| ==> Keys(path)[i] == Decompose(path, decode)[i].fullPath
  {
  }

  /** Decomposing the target of segment `i` gives exactly the segments up to `i`. */
  lemma FullPathRoundTrip(segs: seq<string>, i: nat)
    requires WellFormed(segs)
    requires i < |segs|
    ensures Segments(FullPath(segs, i)) == segs[..i + 1]
  {
    var prefix := segs[..i + 1];
    SplitJoin(prefix);
    SegmentsConcat([], Join(prefix));
    assert [] + [Sep] + Join(prefix) == FullPath(segs, i);
    assert Segments([]) == [];
  }

  lemma FullPathsRoundTrip(segs: seq<string>)
    requires WellFormed(segs)
    ensures forall i :: 0 <= i < |segs| ==> Segments(FullPath(segs, i)) == segs[..i + 1]
  {
    forall i | 0 <= i < |segs|
      ensures Segments(FullPath(segs, i)) == segs[..i + 1]
    {
      FullPathRoundTrip(segs, i);
    }
  }

  /** The last target decomposes back to the path's own segments. */
  lemma LastFullPathRoundTrip(path: string)
    requires Segments(path) != []
    ensures Segments(FullPath(Segments(path), |Segments(path)| - 1)) == Segments(path)
  {
    var segs := Segments(path);
    FullPathRoundTrip(segs, |segs| - 1);
    assert segs[..|segs|] == segs;
  }

  /**
   * Following the link of entry `i` gives a trail whose entries agree with the
   * first `i + 1` entries of this one, and whose last entry is entry `i`, now
   * terminal.
   */
  lemma DecomposeRoundTrip(path: string, decode: string -> string, i: nat)
    requires i < |Decompose(path, decode)|
    ensures var d, e := Decompose(path, decode), Decompose(Decompose(path, decode)[i].fullPath, decode);
      && |e| == i + 1
      && (forall k :: 0 <= k <= i ==> e[k].text == d[k].text && e[k].fullPath == d[k].fullPath)
      && e[i].isLast
  {
    var segs := Segments(path);
    FullPathRoundTrip(segs, i);
    var t := FullPath(segs, i);
    assert Segments(t) == segs[..i + 1];
    forall k | 0 <= k <= i
      ensures FullPath(Segments(t), k) == FullPath(segs, k)
    {
      assert Segments(t)[..k + 1] == segs[..k + 1];
    }
  }

  // ---------------------------------------------------------------------------
  // The rendered trail

  /**
   * The trail has one item more than there are segments, starts with the Home
   * link to the root, and the item for segment `i` is the passive one exactly
   * when `i` is the last segment; every other item links to its target.
   */
  lemma TrailShape(path: string, decode: string -> string)
    ensures var t, segs := Trail(path, decode), Segments(path);
      && |t| == 1 + |segs|
      && t[0] == Link("Home", Root)
      && (forall i :: 0 <= i < |segs| ==>
            (t[i + 1].Active? <==> i == |segs| - 1) &&
            t[i + 1].text == decode(segs[i]) &&
            (t[i + 1].Link? ==> t[i + 1].to == FullPath(segs, i)))
  {
  }

  /** Exactly one entry is terminal when there are segments, and it is the final one. */
  lemma ExactlyOneLast(path: string, decode: string -> string)
    requires Segments(path) != []
    ensures var d := Decompose(path, decode);
      d[|d| - 1].isLast && forall i :: 0 <= i < |d| && d[i].isLast ==> i == |d| - 1
  {
  }

  /** At the root there are no segments: only the Home link, nothing active. */
  lemma RootTrail(path: string, decode: string -> string)
    requires forall k :: 0 <= k < |path| ==> path[k] == Sep
    ensures Trail(path, decode) == [Link("Home", Root)]
  {
    RootSegments(path);
  }

  lemma {:induction false} RootSegments(path: string)
    requires forall k :: 0 <= k < |path| ==> path[k] == Sep
    ensures Segments(path) == []
  {
    if path == [] {
      SegmentsOfEmpty();
    } else {
      RootSegments(path[1..]);
      LeadingSlashIgnored(path[1..]);
      assert [Sep] + path[1..] == path;
    }
  }

  lemma ThreeSegmentsExample()
    ensures Segments("/a/b/c") == ["a", "b", "c"]
  {
    var segs := ["a", "b", "c"];
    assert FullPath(segs, 2) == "/a/b/c" by {
      assert segs[..3] == segs;
    }
    FullPathRoundTrip(segs, 2);
    assert segs[..3] == segs;
  }

  /** "/a/b/c" renders Home, links to "/a" and "/a/b", and "c" as the active item. */
  lemma ThreeSegmentTrailExample()
    ensures Trail("/a/b/c", s => s) ==
      [Link("Home", "/"), Link("a", "/a"), Link("b", "/a/b"), Active("c")]
  {
    var segs := ["a", "b", "c"];
    ThreeSegmentsExample();
    assert segs[..1] == ["a"];
    assert segs[..2] == ["a", "b"];
    assert FullPath(segs, 0) == "/a";
    assert FullPath(segs, 1) == "/a/b";
  }
}
