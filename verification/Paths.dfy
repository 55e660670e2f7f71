/** Slash-separated names and their lexical cleaning, as path/filepath does it on POSIX. */
module Paths {

  type Comps = seq<string>

  /** strings.Split(s, "/"): one more piece than there are slashes. */
  function Split(s: string): (r: Comps)
    ensures |r| >= 1
  {
    if s == [] then [""]
    else
      var rest := Split(s[1..]);
      if s[0] == '/' then [""] + rest else [[s[0]] + rest[0]] + rest[1..]
  }

  function Join(c: Comps): string {
    if c == [] then "" else if |c| == 1 then c[0] else c[0] + "/" + Join(c[1..])
  }

  predicate HasPrefix(s: string, prefix: string) { prefix <= s }

  predicate Contains(s: string, sub: string) {
    exists i :: 0 <= i <= |s| && OccursAt(s, sub, i)
  }

  predicate OccursAt(s: string, sub: string, i: nat)
    requires i <= |s|
  {
    sub <= s[i..]
  }

  /** One component meets the stack of components kept so far. */
  function Push(stack: Comps, c: string, rooted: bool): Comps {
    if c == "" || c == "." then stack
    else if c == ".." then
      if stack != [] && stack[|stack| - 1] != ".." then stack[..|stack| - 1]
      else if rooted then stack
      else stack + [c]
    else stack + [c]
  }

  function CleanOnto(stack: Comps, raw: Comps, rooted: bool): Comps
    decreases |raw|
  {
    if raw == [] then stack else CleanOnto(Push(stack, raw[0], rooted), raw[1..], rooted)
  }

  /** filepath.Clean of a relative name, as components. */
  function Cleaned(name: string): Comps { CleanOnto([], Split(name), false) }

  function CleanName(name: string): string {
    var c := Cleaned(name);
    if c == [] then "." else Join(c)
  }

  /** The absolute path with the given components. */
  function Absolute(c: Comps): string { "/" + Join(c) }

  /** filepath.Join(root, name): the components of Clean(root + "/" + name). */
  function JoinOnto(root: string, name: string): Comps {
    CleanOnto([], Split(root + "/" + name), true)
  }

  function Common(a: Comps, b: Comps): nat {
    if a == [] || b == [] || a[0] != b[0] then 0 else 1 + Common(a[1..], b[1..])
  }

  function Ups(k: nat): (u: Comps)
    ensures |u| == k && forall i :: 0 <= i < k ==> u[i] == ".."
  {
    seq(k, _ => "..")
  }

  /** filepath.Rel of two absolute paths given by components. */
  function Rel(base: Comps, target: Comps): string
  {
    var c := Common(base, target);
    CommonBound(base, target);
    var rel := Ups(|base| - c) + target[c..];
    if rel == [] then "." else Join(rel)
  }

  lemma CommonBound(a: Comps, b: Comps)
    ensures Common(a, b) <= |a| && Common(a, b) <= |b|
  {
  }

  ghost predicate Slashless(c: Comps) {
    forall x :: x in c ==> '/' !in x
  }

  /** Components a clean path may have, apart from leading "..". */
  ghost predicate Plain(c: Comps) {
    forall x :: x in c ==> x != "" && x != "." && x != ".." && '/' !in x
  }

  // ---------------------------------------------------------------- splitting and joining

  lemma {:induction false} SplitIsSlashless(s: string)
    ensures Slashless(Split(s))
  {
    if s != [] {
      SplitIsSlashless(s[1..]);
      var rest := Split(s[1..]);
      assert rest[0] in rest;
      assert forall x :: x in rest[1..] ==> x in rest;
    }
  }

  /** A slash separates exactly. */
  lemma {:induction false} SplitConcat(a: string, b: string)
    ensures Split(a + "/" + b) == Split(a) + Split(b)
  {
    if a == [] {
      assert a + "/" + b == "/" + b;
      assert ("/" + b)[1..] == b;
    } else {
      assert (a + "/" + b)[1..] == a[1..] + "/" + b;
      SplitConcat(a[1..], b);
    }
  }

  lemma {:induction false} SplitWord(w: string)
    requires '/' !in w
    ensures Split(w) == [w]
  {
    if w != [] {
      SplitWord(w[1..]);
      assert [w[0]] + w[1..] == w;
    }
  }

  lemma {:induction false} SplitJoin(c: Comps)
    requires c != [] && Slashless(c)
    ensures Split(Join(c)) == c
  {
    assert c[0] in c;
    SplitWord(c[0]);
    if |c| > 1 {
      assert forall x :: x in c[1..] ==> x in c;
      SplitJoin(c[1..]);
      SplitConcat(c[0], Join(c[1..]));
    }
  }

  // ---------------------------------------------------------------- cleaning

  /** The heart of containment. Cleaning a relative name yields k leading ".." and then plain
      components; cleaning the same name on top of a root goes up k levels, but never above
      "/", and appends the same components. */
  lemma {:induction false} CleanRelativeAndRooted(root: Comps, k: nat, rest: Comps, raw: Comps)
    returns (k': nat, rest': Comps)
    requires Plain(root) && Plain(rest) && Slashless(raw)
    ensures Plain(rest')
    ensures CleanOnto(Ups(k) + rest, raw, false) == Ups(k') + rest'
    ensures CleanOnto(Climb(root, k) + rest, raw, true) == Climb(root, k') + rest'
    decreases |raw|
  {
    if raw == [] {
      return k, rest;
    }
    var c := raw[0];
    assert c in raw;
    assert forall x :: x in raw[1..] ==> x in raw;
    var k1, rest1 := k, rest;
    if c == ".." {
      if rest == [] { k1 := k + 1; } else { rest1 := rest[..|rest| - 1]; }
    } else if c != "" && c != "." {
      rest1 := rest + [c];
    }
    PushRelative(k, rest, c, k1, rest1);
    PushRooted(root, k, rest, c, k1, rest1);
    k', rest' := CleanRelativeAndRooted(root, k1, rest1, raw[1..]);
  }

  function Climb(root: Comps, k: nat): Comps {
    if k <= |root| then root[..|root| - k] else []
  }

  ghost predicate Moves(k: nat, rest: Comps, c: string, k1: nat, rest1: Comps) {
    if c == "" || c == "." then k1 == k && rest1 == rest
    else if c == ".." then
      if rest == [] then k1 == k + 1 && rest1 == [] else k1 == k && rest1 == rest[..|rest| - 1]
    else k1 == k && rest1 == rest + [c]
  }

  lemma PushRelative(k: nat, rest: Comps, c: string, k1: nat, rest1: Comps)
    requires Plain(rest) && Moves(k, rest, c, k1, rest1)
    ensures Push(Ups(k) + rest, c, false) == Ups(k1) + rest1
  {
    var stack := Ups(k) + rest;
    if c == ".." {
      if rest == [] {
        assert stack == Ups(k);
        assert Ups(k) + [".."] == Ups(k1) + [];
      } else {
        assert stack[|stack| - 1] == rest[|rest| - 1] && rest[|rest| - 1] in rest;
        assert stack[..|stack| - 1] == Ups(k) + rest[..|rest| - 1];
      }
    } else if c != "" && c != "." {
      assert stack + [c] == Ups(k) + (rest + [c]);
    }
  }

  lemma PushRooted(root: Comps, k: nat, rest: Comps, c: string, k1: nat, rest1: Comps)
    requires Plain(root) && Plain(rest) && Moves(k, rest, c, k1, rest1)
    ensures Push(Climb(root, k) + rest, c, true) == Climb(root, k1) + rest1
  {
    var up := Climb(root, k);
    var stack := up + rest;
    if c == ".." {
      if stack != [] {
        assert stack[|stack| - 1] in root || stack[|stack| - 1] in rest;
        if rest == [] {
          assert stack[..|stack| - 1] == Climb(root, k1) + [];
        } else {
          assert stack[..|stack| - 1] == up + rest[..|rest| - 1];
        }
      }
    } else if c != "" && c != "." {
      assert stack + [c] == up + (rest + [c]);
    }
  }

  lemma {:induction false} CleanOntoConcat(stack: Comps, a: Comps, b: Comps, rooted: bool)
    ensures CleanOnto(stack, a + b, rooted) == CleanOnto(CleanOnto(stack, a, rooted), b, rooted)
    decreases |a|
  {
    if a == [] {
      assert a + b == b;
    } else {
      assert (a + b)[1..] == a[1..] + b;
      CleanOntoConcat(Push(stack, a[0], rooted), a[1..], b, rooted);
    }
  }

  /** A clean path is left as it is. */
  lemma {:induction false} CleanPlain(stack: Comps, c: Comps)
    requires Plain(c)
    ensures CleanOnto(stack, c, true) == stack + c
    decreases |c|
  {
    if c != [] {
      assert c[0] in c;
      assert forall x :: x in c[1..] ==> x in c;
      CleanPlain(stack + [c[0]], c[1..]);
      assert stack + [c[0]] + c[1..] == stack + c;
    } else {
      assert stack + c == stack;
    }
  }

  lemma CleanRoot(root: Comps)
    requires Plain(root)
    ensures CleanOnto([], Split(Absolute(root)), true) == root
  {
    var s := Absolute(root);
    assert s[1..] == Join(root);
    if root == [] {
      assert Split(s) == ["", ""];
      assert Split(s)[1..] == [""];
      assert [""][1..] == [];
    } else {
      SplitJoin(root);
      assert Split(s) == [""] + root;
      assert Split(s)[1..] == root;
      CleanPlain([], root);
      assert [] + root == root;
    }
  }

  /** Joining any name onto a clean root, in terms of the cleaned name. */
  lemma JoinCleaned(root: Comps, name: string) returns (k: nat, rest: Comps)
    requires Plain(root)
    ensures Plain(rest)
    ensures Cleaned(name) == Ups(k) + rest
    ensures JoinOnto(Absolute(root), name) == Climb(root, k) + rest
  {
    SplitConcat(Absolute(root), name);
    CleanOntoConcat([], Split(Absolute(root)), Split(name), true);
    CleanRoot(root);
    SplitIsSlashless(name);
    assert Ups(0) + [] == [] && Climb(root, 0) + [] == root;
    k, rest := CleanRelativeAndRooted(root, 0, [], Split(name));
  }

  lemma {:induction false} CommonOfExtension(root: Comps, rest: Comps)
    ensures Common(root, root + rest) == |root|
  {
    if root != [] {
      assert (root + rest)[1..] == root[1..] + rest;
      CommonOfExtension(root[1..], rest);
    }
  }
}
