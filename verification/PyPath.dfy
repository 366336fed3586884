/**
 os.path.abspath on POSIX: joining to the working directory and normalising.
 */
module PyPath {
  import opened PyText

  predicate Absolute(p: string) {
    p != "" && p[0] == '/'
  }

  /** Components so far; "" and "." are dropped and ".." takes the last one back. */
  function Resolve(comps: seq<string>, stack: seq<string>): seq<string> {
    if comps == [] then stack
    else if comps[0] == "" || comps[0] == "." then Resolve(comps[1..], stack)
    else if comps[0] == ".." then Resolve(comps[1..], if stack == [] then [] else stack[..|stack| - 1])
    else Resolve(comps[1..], stack + [comps[0]])
  }

  /** Exactly two leading slashes are kept. */
  function Root(p: string): string {
    if |p| >= 2 && p[1] == '/' && (|p| == 2 || p[2] != '/') then "//" else "/"
  }

  /** os.path.normpath of an absolute path. */
  function NormPath(p: string): (r: string)
    requires Absolute(p)
    ensures Absolute(r)
  {
    Root(p) + Join(Resolve(SplitOn(p, '/'), []), '/')
  }

  function Joined(cwd: string, p: string): (r: string)
    requires Absolute(cwd)
    ensures Absolute(r)
  {
    if Absolute(p) then p
    else if cwd[|cwd| - 1] == '/' then cwd + p
    else cwd + "/" + p
  }

  function AbsPath(cwd: string, p: string): (r: string)
    requires Absolute(cwd)
    ensures Absolute(r)
  {
    NormPath(Joined(cwd, p))
  }

  // ---------------------------------------------------------------- normalising twice is normalising once

  ghost predicate Plain(comps: seq<string>) {
    forall i :: 0 <= i < |comps| ==> comps[i] != "" && comps[i] != "." && comps[i] != ".." && '/' !in comps[i]
  }

  lemma {:induction false} ResolvePlain(comps: seq<string>, stack: seq<string>)
    requires Plain(stack) && forall i :: 0 <= i < |comps| ==> '/' !in comps[i]
    ensures Plain(Resolve(comps, stack))
    decreases |comps|
  {
    if comps == [] {
    } else if comps[0] == "" || comps[0] == "." {
      ResolvePlain(comps[1..], stack);
    } else if comps[0] == ".." {
      ResolvePlain(comps[1..], if stack == [] then [] else stack[..|stack| - 1]);
    } else {
      ResolvePlain(comps[1..], stack + [comps[0]]);
    }
  }

  lemma {:induction false} ResolveFixed(comps: seq<string>, stack: seq<string>)
    requires Plain(comps)
    ensures Resolve(comps, stack) == stack + comps
    decreases |comps|
  {
    if comps != [] {
      ResolveFixed(comps[1..], stack + [comps[0]]);
      assert stack + [comps[0]] + comps[1..] == stack + comps;
    }
  }

  lemma {:induction false} ResolveOfRooted(root: string, comps: seq<string>)
    requires (root == "/" || root == "//") && Plain(comps)
    ensures Resolve(SplitOn(root + Join(comps, '/'), '/'), []) == comps
  {
    var rest := Join(comps, '/');
    var parts := SplitOn(rest, '/');
    SplitFirst("", '/', rest);
    assert "" + ['/'] + rest == "/" + rest;
    if root == "//" {
      SplitFirst("", '/', "/" + rest);
      assert "" + ['/'] + ("/" + rest) == root + rest;
      assert ([""] + SplitOn("/" + rest, '/'))[1..] == SplitOn("/" + rest, '/');
    }
    assert ([""] + parts)[1..] == parts;
    assert Resolve(SplitOn(root + rest, '/'), []) == Resolve(parts, []);
    if comps == [] {
      assert parts == [""] && parts[1..] == [];
      assert Resolve(parts, []) == Resolve([], []);
    } else {
      SplitJoin(comps, '/');
      ResolveFixed(comps, []);
      assert [] + comps == comps;
    }
  }

  lemma {:induction false} RootKept(root: string, comps: seq<string>)
    requires (root == "/" || root == "//") && Plain(comps)
    ensures Root(root + Join(comps, '/')) == root
  {
    var rest := Join(comps, '/');
    if comps != [] {
      assert rest[0] == comps[0][0] && comps[0][0] in comps[0];
    }
  }

  lemma {:induction false} NormTwice(p: string)
    requires Absolute(p)
    ensures NormPath(NormPath(p)) == NormPath(p)
  {
    var comps := Resolve(SplitOn(p, '/'), []);
    SplitParts(p, '/');
    ResolvePlain(SplitOn(p, '/'), []);
    ResolveOfRooted(Root(p), comps);
    RootKept(Root(p), comps);
  }

  lemma {:induction false} AbsTwice(cwd: string, p: string)
    requires Absolute(cwd)
    ensures AbsPath(cwd, AbsPath(cwd, p)) == AbsPath(cwd, p)
  {
    NormTwice(Joined(cwd, p));
  }

  // ---------------------------------------------------------------- what normalising does to components

  lemma {:induction false} ResolveAppend(a: seq<string>, b: seq<string>, stack: seq<string>)
    ensures Resolve(a + b, stack) == Resolve(b, Resolve(a, stack))
    decreases |a|
  {
    if a == [] {
      assert a + b == b;
    } else {
      assert (a + b)[1..] == a[1..] + b;
      var c := a[0];
      ResolveAppend(a[1..], b, if c == "" || c == "." then stack
                               else if c == ".." then (if stack == [] then [] else stack[..|stack| - 1])
                               else stack + [c]);
    }
  }

  /** A path by its components; the first one is not empty. */
  ghost predicate Components(comps: seq<string>) {
    comps != [] && comps[0] != "" && forall i :: 0 <= i < |comps| ==> '/' !in comps[i]
  }

  lemma {:induction false} NormIs(comps: seq<string>)
    requires Components(comps)
    ensures NormPath("/" + Join(comps, '/')) == "/" + Join(Resolve(comps, []), '/')
  {
    var rest := Join(comps, '/');
    SplitJoin(comps, '/');
    SplitFirst("", '/', rest);
    assert "" + ['/'] + rest == "/" + rest;
    assert ([""] + comps)[1..] == comps;
    assert rest[0] == comps[0][0] && comps[0][0] in comps[0];
  }

  /** Empty components and "." make no difference, ".." takes the component before it back, and above the root there is nothing. */
  lemma {:induction false} ComponentsMean(a: seq<string>, x: string, b: seq<string>)
    requires Components(a) && (forall i :: 0 <= i < |b| ==> '/' !in b[i]) && x != "" && x != "." && x != ".." && '/' !in x
    ensures NormPath("/" + Join(a + [""] + b, '/')) == NormPath("/" + Join(a + b, '/'))
    ensures NormPath("/" + Join(a + ["."] + b, '/')) == NormPath("/" + Join(a + b, '/'))
    ensures NormPath("/" + Join(a + [x, ".."] + b, '/')) == NormPath("/" + Join(a + b, '/'))
    ensures NormPath("/" + Join([".."] + a, '/')) == NormPath("/" + Join(a, '/'))
    ensures Plain(a) ==> NormPath("/" + Join(a, '/')) == "/" + Join(a, '/')
  {
    hide NormPath, Join;
    NormIs(a);
    NormIs(a + b);
    NormIs(a + [""] + b);
    NormIs(a + ["."] + b);
    NormIs(a + [x, ".."] + b);
    NormIs([".."] + a);
    ResolveAppend(a, b, []);
    ResolveSkips(a, "", b);
    ResolveSkips(a, ".", b);
    ResolveBack(a, x, b);
    assert ([".."] + a)[1..] == a;
    if Plain(a) {
      ResolveFixed(a, []);
      assert [] + a == a;
    }
  }

  lemma {:induction false} ResolveSkips(a: seq<string>, y: string, b: seq<string>)
    requires y == "" || y == "."
    ensures Resolve(a + [y] + b, []) == Resolve(b, Resolve(a, []))
  {
    ResolveAppend(a + [y], b, []);
    ResolveAppend(a, [y], []);
    assert [y][1..] == [];
  }

  lemma {:induction false} ResolveBack(a: seq<string>, x: string, b: seq<string>)
    requires x != "" && x != "." && x != ".."
    ensures Resolve(a + [x, ".."] + b, []) == Resolve(b, Resolve(a, []))
  {
    var at := Resolve(a, []);
    ResolveAppend(a + [x, ".."], b, []);
    ResolveAppend(a, [x, ".."], []);
    assert [x, ".."][1..] == [".."] && [".."][1..] == [];
    assert Resolve([x, ".."], at) == Resolve([".."], at + [x]);
    assert (at + [x])[..|at|] == at;
    assert Resolve([".."], at + [x]) == Resolve([], at);
  }

  // ---------------------------------------------------------------- nothing new appears in an absolute path

  lemma {:induction false} ResolveDrawn(comps: seq<string>, stack: seq<string>, t: string)
    requires forall i :: 0 <= i < |comps| ==> DrawnFrom(comps[i], t)
    requires forall i :: 0 <= i < |stack| ==> DrawnFrom(stack[i], t)
    ensures forall i :: 0 <= i < |Resolve(comps, stack)| ==> DrawnFrom(Resolve(comps, stack)[i], t)
    decreases |comps|
  {
    if comps == [] {
    } else if comps[0] == "" || comps[0] == "." {
      ResolveDrawn(comps[1..], stack, t);
    } else if comps[0] == ".." {
      ResolveDrawn(comps[1..], if stack == [] then [] else stack[..|stack| - 1], t);
    } else {
      ResolveDrawn(comps[1..], stack + [comps[0]], t);
    }
  }

  lemma {:induction false} JoinDrawn(parts: seq<string>, c: char, t: string)
    requires c in t && forall i :: 0 <= i < |parts| ==> DrawnFrom(parts[i], t)
    ensures DrawnFrom(Join(parts, c), t)
  {
    if |parts| > 1 {
      JoinDrawn(parts[1..], c, t);
    }
  }

  lemma {:induction false} AbsDrawn(cwd: string, p: string)
    requires Absolute(cwd) && Absolute(p)
    ensures DrawnFrom(AbsPath(cwd, p), p)
  {
    SplitParts(p, '/');
    ResolveDrawn(SplitOn(p, '/'), [], p);
    assert '/' in p;
    JoinDrawn(Resolve(SplitOn(p, '/'), []), '/', p);
  }
}
