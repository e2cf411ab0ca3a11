/** Collection and data object paths, as the strings the microservices concatenate and cut. */
module Paths {

  /** A single path component: no separator, not empty. */
  predicate IsComponent(s: string) {
    s != "" && '/' !in s
  }

  /** `dir + "/" + name`. */
  function Join(dir: string, name: string): string {
    dir + "/" + name
  }

  /** The position of the last separator, -1 when there is none. */
  function LastSlash(p: string): (i: int)
    ensures -1 <= i < |p|
    ensures i >= 0 ==> p[i] == '/'
    ensures forall k :: i < k < |p| ==> p[k] != '/'
  {
    if p == "" then -1
    else if p[|p| - 1] == '/' then |p| - 1
    else LastSlash(p[..|p| - 1])
  }

  /** The collection that has to exist before `p` can be created. */
  function Parent(p: string): (q: string)
    ensures q == "/" || |q| < |p|
  {
    var i := LastSlash(p);
    if i <= 0 then "/" else p[..i]
  }

  /** `p` lies below the collection `dir`. */
  predicate IsBelow(p: string, dir: string) {
    |dir| < |p| && dir + "/" == p[..|dir| + 1]
  }

  /** The part of `p` below `dir`; nothing when `p` is too short to be below it. */
  function Relative(dir: string, p: string): (r: string)
    ensures IsBelow(p, dir) ==> Join(dir, r) == p && |r| == |p| - |dir| - 1
  {
    if |dir| < |p| then p[|dir| + 1..] else ""
  }

  lemma {:induction false} LastSlashUnique(p: string, i: int)
    requires -1 <= i < |p|
    requires i >= 0 ==> p[i] == '/'
    requires forall k :: i < k < |p| ==> p[k] != '/'
    ensures LastSlash(p) == i
  {
  }

  lemma {:induction false} LastSlashOfJoin(dir: string, name: string)
    ensures LastSlash(Join(dir, name)) == |dir| + 1 + LastSlash(name)
  {
    var p, i := Join(dir, name), LastSlash(name);
    assert p == dir + ("/" + name);
    assert forall k :: |dir| < k < |p| ==> p[k] == name[k - |dir| - 1];
    LastSlashUnique(p, |dir| + 1 + i);
  }

  /** The parent of `dir/name` is found inside `name`, or is `dir` itself. */
  lemma {:induction false} ParentOfJoin(dir: string, name: string)
    requires dir != ""
    ensures Parent(Join(dir, name)) ==
            if LastSlash(name) < 0 then dir else Join(dir, name[..LastSlash(name)])
  {
    LastSlashOfJoin(dir, name);
    JoinPrefix(dir, name, LastSlash(name));
  }

  lemma {:induction false} JoinPrefix(dir: string, name: string, i: int)
    requires -1 <= i <= |name|
    ensures Join(dir, name)[..|dir| + 1 + i] == if i < 0 then dir else Join(dir, name[..i])
  {
  }

  /** Relative to `root`, a member of a collection below `root` is named after that collection. */
  lemma {:induction false} RelativeOfJoin(root: string, dir: string, comp: string)
    requires IsBelow(dir, root) && IsComponent(comp)
    ensures Relative(root, Join(dir, comp)) == Join(Relative(root, dir), comp)
    ensures LastSlash(Relative(root, Join(dir, comp))) == |Relative(root, dir)|
    ensures Relative(root, Join(dir, comp))[..|Relative(root, dir)|] == Relative(root, dir)
  {
    var d := Relative(root, dir);
    assert Relative(root, Join(dir, comp)) == Join(d, comp);
    ComponentHasNoSlash(comp);
    LastSlashOfJoin(d, comp);
    assert Join(d, comp)[..|d|] == d;
  }

  lemma {:induction false} ComponentHasNoSlash(name: string)
    requires IsComponent(name)
    ensures LastSlash(name) == -1
  {
  }

  lemma {:induction false} BelowTransitive(p: string, q: string, r: string)
    requires IsBelow(p, q) && IsBelow(q, r)
    ensures IsBelow(p, r)
  {
    assert p[..|r| + 1] == p[..|q| + 1][..|r| + 1] == q[..|r| + 1];
  }

  lemma {:induction false} JoinIsBelow(dir: string, name: string)
    ensures IsBelow(Join(dir, name), dir)
    ensures Relative(dir, Join(dir, name)) == name
  {
    assert Join(dir, name)[..|dir| + 1] == dir + "/";
  }

  lemma {:induction false} JoinInjective(dir: string, a: string, b: string)
    ensures Join(dir, a) == Join(dir, b) <==> a == b
  {
    assert a == Join(dir, a)[|dir| + 1..];
    assert b == Join(dir, b)[|dir| + 1..];
  }

  /** What is below `path` and sits at `dir/comp` has `dir` at or below `path`. */
  lemma {:induction false} BelowSplits(dir: string, comp: string, path: string)
    requires IsComponent(comp) && IsBelow(Join(dir, comp), path)
    ensures dir == path || IsBelow(dir, path)
  {
    var p := Join(dir, comp);
    assert forall k :: 0 <= k < |comp| ==> p[|dir| + 1 + k] == comp[k] && comp[k] in comp;
    assert p[|path|] == p[..|path| + 1][|path|] == '/';
    assert |path| <= |dir|;
    assert p[..|path| + 1] == (dir + "/")[..|path| + 1];
    if |path| == |dir| {
      assert (path + "/")[..|dir|] == path && (dir + "/")[..|dir|] == dir;
    } else {
      assert (dir + "/")[..|path| + 1] == dir[..|path| + 1];
    }
  }

  /** A path below `dir` runs through exactly one component of `dir`. */
  lemma {:induction false} ComponentUnique(dir: string, a: string, b: string, p: string)
    requires IsComponent(a) && IsComponent(b)
    requires p == Join(dir, a) || IsBelow(p, Join(dir, a))
    requires p == Join(dir, b) || IsBelow(p, Join(dir, b))
    ensures a == b
  {
    SegmentAt(dir, a, p);
    SegmentAt(dir, b, p);
    var r := p[|dir| + 1..];
    assert forall k :: 0 <= k < |a| ==> r[..|a|][k] == a[k] && a[k] in a;
    assert forall k :: 0 <= k < |b| ==> r[..|b|][k] == b[k] && b[k] in b;
    assert |a| == |b|;
  }

  lemma {:induction false} SegmentAt(dir: string, a: string, p: string)
    requires p == Join(dir, a) || IsBelow(p, Join(dir, a))
    ensures |p| >= |dir| + 1 + |a|
    ensures p[|dir| + 1..][..|a|] == a
    ensures |p| > |dir| + 1 + |a| ==> p[|dir| + 1..][|a|] == '/'
  {
    var q := Join(dir, a);
    assert q[|dir| + 1..] == a;
    if p == q {
    } else {
      assert p[..|q|] == (q + "/")[..|q|] == q;
      assert p[|dir| + 1..][..|a|] == p[..|q|][|dir| + 1..];
      assert p[|q|] == p[..|q| + 1][|q|] == (q + "/")[|q|];
    }
  }
}
