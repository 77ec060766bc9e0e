/**
 The POSIX path operations the browser uses: `os.path.join` of two parts,
 `Path(p).name` and `Path(p).parent`. A path is read as its list of
 components: the `/`-separated pieces that are neither empty nor `.`.
 */
module Paths {
  import opened Text

  predicate IsAbsolute(p: string) {
    |p| > 0 && p[0] == '/'
  }

  /** A single path component: non-empty, not `.`, without `/`. */
  predicate IsComponent(c: string) {
    |c| > 0 && c != "." && '/' !in c
  }

  /** The pieces of `xs` that are components, in order. */
  function KeepComponents(xs: seq<string>): (r: seq<string>)
    ensures |r| <= |xs|
    ensures forall i :: 0 <= i < |r| ==> IsComponent(r[i])
  {
    if |xs| == 0 then []
    else (if IsComponent(xs[0]) then [xs[0]] else []) + KeepComponents(xs[1..])
  }

  lemma {:induction false} KeepComponentsAppend(xs: seq<string>, ys: seq<string>)
    ensures KeepComponents(xs + ys) == KeepComponents(xs) + KeepComponents(ys)
    decreases |xs|
  {
    if |xs| == 0 {
      assert xs + ys == ys;
    } else {
      assert (xs + ys)[0] == xs[0];
      assert (xs + ys)[1..] == xs[1..] + ys;
      KeepComponentsAppend(xs[1..], ys);
    }
  }

  lemma {:induction false} KeepComponentsOfComponents(xs: seq<string>)
    requires forall i :: 0 <= i < |xs| ==> IsComponent(xs[i])
    ensures KeepComponents(xs) == xs
    decreases |xs|
  {
    if |xs| > 0 {
      KeepComponentsOfComponents(xs[1..]);
    }
  }

  function Components(p: string): (r: seq<string>)
    ensures forall i :: 0 <= i < |r| ==> IsComponent(r[i])
  {
    KeepComponents(Split(p, '/'))
  }

  /** `os.path.join(a, b)`: an absolute `b` wins, otherwise one `/` goes between them. */
  function PathJoin(a: string, b: string): (r: string)
    ensures IsAbsolute(b) ==> r == b
  {
    if IsAbsolute(b) then b
    else if |a| == 0 || a[|a| - 1] == '/' then a + b
    else a + "/" + b
  }

  /** `Path(p).name`: the last component, or the empty string for `/` and ``. */
  function Name(p: string): (r: string)
    ensures r == "" || IsComponent(r)
    ensures |Components(p)| > 0 ==> r == Components(p)[|Components(p)| - 1]
  {
    var cs := Components(p);
    if |cs| == 0 then "" else cs[|cs| - 1]
  }

  /**
   `Path(p).parent`: the path without its last component; the root is its own
   parent and a relative path of one component has parent `.`.
   */
  function Parent(p: string): (r: string) {
    var cs := Components(p);
    if |cs| <= 1 then (if IsAbsolute(p) then "/" else ".")
    else (if IsAbsolute(p) then "/" else "") + Join(cs[..|cs| - 1], '/')
  }

  // ---------------------------------------------------------------------------
  // Properties
  // ---------------------------------------------------------------------------

  lemma ComponentsOfJoined(cs: seq<string>)
    requires |cs| >= 1
    requires forall i :: 0 <= i < |cs| ==> IsComponent(cs[i])
    ensures Components(Join(cs, '/')) == cs
  {
    SplitJoin(cs, '/');
    KeepComponentsOfComponents(cs);
  }

  /** `Path(p).parent` drops exactly the last component (the root stays the root). */
  lemma ParentComponents(p: string)
    ensures var cs := Components(p);
            Components(Parent(p)) == if |cs| == 0 then [] else cs[..|cs| - 1]
  {
    var cs := Components(p);
    if |cs| <= 1 {
      assert Split("/", '/') == Split([] + ['/'] + [], '/');
      SplitAround([], [], '/');
      assert Split(".", '/') == ["."] by { SplitFree(".", '/'); }
      assert Split("/", '/') == ["", ""];
    } else {
      var body := Join(cs[..|cs| - 1], '/');
      ComponentsOfJoined(cs[..|cs| - 1]);
      if IsAbsolute(p) {
        assert "/" + body == [] + ['/'] + body;
        SplitAround([], body, '/');
        KeepComponentsAppend([""], Split(body, '/'));
      } else {
        assert "" + body == body;
      }
    }
  }

  /** Joining a plain name onto a directory appends that one component. */
  lemma ComponentsOfPathJoin(a: string, b: string)
    requires IsComponent(b)
    ensures Components(PathJoin(a, b)) == Components(a) + [b]
  {
    SplitFree(b, '/');
    if |a| == 0 {
      assert a + b == b;
    } else if a[|a| - 1] == '/' {
      var a' := a[..|a| - 1];
      assert a == a' + ['/'] + [];
      assert a + b == a' + ['/'] + b;
      SplitAround(a', [], '/');
      SplitAround(a', b, '/');
      KeepComponentsAppend(Split(a', '/'), [""]);
      KeepComponentsAppend(Split(a', '/'), [b]);
    } else {
      assert a + "/" + b == a + ['/'] + b;
      SplitAround(a, b, '/');
      KeepComponentsAppend(Split(a, '/'), [b]);
    }
  }

  /** Entering a directory and then going up leads back to the same components. */
  lemma EnterThenUp(current: string, dir: string)
    requires IsComponent(dir)
    ensures Components(Parent(PathJoin(current, dir))) == Components(current)
    ensures Name(PathJoin(current, dir)) == dir
  {
    ComponentsOfPathJoin(current, dir);
    ParentComponents(PathJoin(current, dir));
    var cs := Components(current) + [dir];
    assert cs[..|cs| - 1] == Components(current);
  }
}
