// What the walk before parsing bounds: the parts of a message as the paths to
// them, how many there are and how deep they lie (crates/notm-mail/src/mime.rs).
module PartTree {
  import opened Preflight

  /** A way down from part to part, by the places of children among their siblings. */
  ghost predicate IsPath(raw: string, path: seq<nat>, read: string -> Headers)
    decreases |path|
  {
    path == [] || (path[0] < |Children(raw, read)| && IsPath(Children(raw, read)[path[0]], path[1..], read))
  }

  ghost function PartAt(raw: string, path: seq<nat>, read: string -> Headers): string
    requires IsPath(raw, path, read)
    decreases |path|
  {
    if path == [] then raw else PartAt(Children(raw, read)[path[0]], path[1..], read)
  }

  // ---- Depth

  ghost predicate PathFits(raw: string, path: seq<nat>, levels: int, read: string -> Headers)
    requires IsPath(raw, path, read)
  {
    |path| <= levels && !read(PartAt(raw, path, read)).Unreadable?
  }

  ghost predicate AllFit(raw: string, levels: int, read: string -> Headers) {
    forall path: seq<nat> | IsPath(raw, path, read) :: PathFits(raw, path, levels, read)
  }

  lemma {:induction false} FirstFit(raw: string, n: nat, levels: int, read: string -> Headers)
    requires n <= |Children(raw, read)|
    ensures FirstFitDepth(raw, n, levels, read) <==>
      forall k | 0 <= k < n :: FitsDepth(Children(raw, read)[k], levels, read)
    decreases n
  {
    hide Children, FitsDepth;
    if n > 0 {
      FirstFit(raw, n - 1, levels, read);
    }
  }

  lemma PathInto(raw: string, k: nat, path: seq<nat>, read: string -> Headers)
    requires k < |Children(raw, read)|
    ensures IsPath(raw, [k] + path, read) <==> IsPath(Children(raw, read)[k], path, read)
    ensures IsPath(raw, [k] + path, read) ==>
      PartAt(raw, [k] + path, read) == PartAt(Children(raw, read)[k], path, read)
  {
    hide Children;
    assert ([k] + path)[1..] == path;
  }

  lemma NoPath(raw: string, read: string -> Headers)
    ensures IsPath(raw, [], read) && PartAt(raw, [], read) == raw
  {
  }

  /** The depth limit is kept exactly if every way down is no longer than it and
      ends at a part whose headers can be read. */
  lemma {:induction false} DepthIsExact(raw: string, levels: int, read: string -> Headers)
    ensures FitsDepth(raw, levels, read) <==> AllFit(raw, levels, read)
    decreases |raw|
  {
    hide *;
    var children := Children(raw, read);
    forall k | 0 <= k < |children|
      ensures FitsDepth(children[k], levels - 1, read) <==> AllFit(children[k], levels - 1, read)
    {
      DepthIsExact(children[k], levels - 1, read);
    }
    AcceptsUnfolds(raw, levels, 0, read);
    FirstFit(raw, |children|, levels - 1, read);
    AllFitUnfolds(raw, levels, read);
  }

  lemma AllFitUnfolds(raw: string, levels: int, read: string -> Headers)
    ensures AllFit(raw, levels, read) <==>
      && levels >= 0 && !read(raw).Unreadable?
      && forall k | 0 <= k < |Children(raw, read)| :: AllFit(Children(raw, read)[k], levels - 1, read)
  {
    hide Children;
    var children := Children(raw, read);
    NoPath(raw, read);
    if AllFit(raw, levels, read) {
      assert PathFits(raw, [], levels, read);
      forall k, path: seq<nat> | 0 <= k < |children| && IsPath(children[k], path, read)
        ensures PathFits(children[k], path, levels - 1, read)
      {
        PathInto(raw, k, path, read);
        assert PathFits(raw, [k] + path, levels, read);
      }
    }
    if && levels >= 0 && !read(raw).Unreadable?
       && forall k | 0 <= k < |children| :: AllFit(children[k], levels - 1, read) {
      forall path: seq<nat> | IsPath(raw, path, read)
        ensures PathFits(raw, path, levels, read)
      {
        if path != [] {
          assert path == [path[0]] + path[1..];
          PathInto(raw, path[0], path[1..], read);
          assert PathFits(children[path[0]], path[1..], levels - 1, read);
        }
      }
    }
  }

  // ---- Count

  function Under(k: nat, paths: seq<seq<nat>>): (under: seq<seq<nat>>)
    ensures |under| == |paths|
  {
    seq(|paths|, i requires 0 <= i < |paths| => [k] + paths[i])
  }

  ghost predicate AreDistinct(paths: seq<seq<nat>>) {
    forall i, j | 0 <= i < j < |paths| :: paths[i] != paths[j]
  }

  /** The ways down, each once, and no others. */
  ghost predicate AreThePaths(paths: seq<seq<nat>>, raw: string, read: string -> Headers) {
    && AreDistinct(paths)
    && (forall path: seq<nat> :: path in paths <==> IsPath(raw, path, read))
  }

  /** The same below the first children. */
  ghost predicate AreTheFirst(paths: seq<seq<nat>>, raw: string, n: nat, read: string -> Headers) {
    && AreDistinct(paths)
    && (forall path: seq<nat> :: path in paths <==> path != [] && path[0] < n && IsPath(raw, path, read))
  }

  lemma UnderHolds(k: nat, paths: seq<seq<nat>>, path: seq<nat>)
    ensures path in Under(k, paths) <==> path != [] && path[0] == k && path[1..] in paths
  {
    var under := Under(k, paths);
    if path in under {
      var i :| 0 <= i < |under| && under[i] == path;
      assert path[1..] == paths[i];
    }
    if path != [] && path[0] == k && path[1..] in paths {
      var i :| 0 <= i < |paths| && paths[i] == path[1..];
      assert under[i] == path;
    }
  }

  lemma UnderDiffers(k: nat, paths: seq<seq<nat>>)
    requires AreDistinct(paths)
    ensures AreDistinct(Under(k, paths))
  {
    var under := Under(k, paths);
    forall i, j | 0 <= i < j < |under|
      ensures under[i] != under[j]
    {
      assert under[i][1..] == paths[i] && under[j][1..] == paths[j];
    }
  }

  lemma DistinctConcat(a: seq<seq<nat>>, b: seq<seq<nat>>)
    requires AreDistinct(a) && AreDistinct(b) && forall path | path in a :: path !in b
    ensures AreDistinct(a + b)
  {
    var c := a + b;
    forall i, j | 0 <= i < j < |c|
      ensures c[i] != c[j]
    {
      if i < |a| <= j {
        assert c[i] in a && c[j] == b[j - |a|];
      }
    }
  }

  lemma OneMore(first: seq<seq<nat>>, below: seq<seq<nat>>, raw: string, n: nat, read: string -> Headers)
    requires n < |Children(raw, read)| && AreTheFirst(first, raw, n, read)
    requires AreThePaths(below, Children(raw, read)[n], read)
    ensures AreTheFirst(first + Under(n, below), raw, n + 1, read)
  {
    hide Children, IsPath, Under;
    var more := Under(n, below);
    UnderDiffers(n, below);
    forall path: seq<nat>
      ensures path in more <==> path != [] && path[0] == n && IsPath(raw, path, read)
    {
      UnderHolds(n, below, path);
      if path != [] && path[0] == n {
        assert path == [n] + path[1..];
        PathInto(raw, n, path[1..], read);
      }
    }
    DistinctConcat(first, more);
    hide AreDistinct;
  }

  lemma {:induction false} PathsOfFirst(raw: string, n: nat, read: string -> Headers) returns (paths: seq<seq<nat>>)
    requires n <= |Children(raw, read)|
    ensures AreTheFirst(paths, raw, n, read) && |paths| == CountFirst(raw, n, read)
    decreases |raw|, 0, n
  {
    hide IsPath, AreThePaths, CountParts, Under;
    if n == 0 {
      paths := [];
    } else {
      var child := Children(raw, read)[n - 1];
      paths := PathsOfFirst(raw, n - 1, read);
      var below := CountIsExact(child, read);
      hide Children, AreTheFirst;
      OneMore(paths, below, raw, n - 1, read);
      paths := paths + Under(n - 1, below);
    }
  }

  lemma WithItself(first: seq<seq<nat>>, raw: string, read: string -> Headers)
    requires AreTheFirst(first, raw, |Children(raw, read)|, read)
    ensures AreThePaths([[]] + first, raw, read)
  {
    hide Children;
    var none: seq<nat> := [];
    DistinctConcat([none], first);
    forall path: seq<nat> | path != [] && IsPath(raw, path, read)
      ensures path[0] < |Children(raw, read)|
    {
    }
    hide AreDistinct;
  }

  /** The count is that of the ways down. */
  lemma {:induction false} CountIsExact(raw: string, read: string -> Headers) returns (paths: seq<seq<nat>>)
    ensures AreThePaths(paths, raw, read) && |paths| == CountParts(raw, read)
    decreases |raw|, 1, 0
  {
    hide *;
    AcceptsUnfolds(raw, 0, 0, read);
    var first := PathsOfFirst(raw, |Children(raw, read)|, read);
    WithItself(first, raw, read);
    paths := [[]] + first;
  }
}
