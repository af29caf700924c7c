/**
The directory lock files live in (`locks.rs`): the database's parent with its nearest existing
ancestor canonicalized.  The file system is a tree with symbolic links; `limit` is the number of
links one resolution may follow before the OS gives up.
*/
module LockDir {
  import opened Options

  datatype Component = Name(name: string) | Up

  /** An absolute path as it is spelled. */
  type Path = seq<Component>

  /** An absolute path without links or `..`. */
  type Place = seq<string>

  datatype Node = Dir | File | Link(absolute: bool, target: Path)

  /** What exists, by place; the root directory always does. */
  type Tree = map<Place, Node>

  function At(fs: Tree, p: Place): Option<Node> {
    if p == [] then Some(Dir) else if p in fs then Some(fs[p]) else None
  }

  /** Everything that exists sits in an existing directory. */
  ghost predicate WellFormed(fs: Tree) {
    && [] !in fs
    && forall p :: p in fs && |p| > 1 ==> p[..|p| - 1] in fs && fs[p[..|p| - 1]] == Dir
  }

  function Rendered(p: Place): (r: Path)
    ensures |r| == |p| && forall i :: 0 <= i < |p| ==> r[i] == Name(p[i])
  {
    seq(|p|, i requires 0 <= i < |p| => Name(p[i]))
  }

  // ---------------------------------------------------------------------------------------------
  // Resolving a path

  datatype Resolution = Found(place: Place, hops: nat) | NoEntry | NotADirectory | TooManyLinks

  /** Follow `todo` from the directory `at`, with `hops` links left to follow. */
  function Resolve(fs: Tree, at: Place, todo: Path, hops: nat): Resolution
    decreases hops, |todo|
  {
    if todo == [] then Found(at, hops)
    else if At(fs, at) != Some(Dir) then NotADirectory
    else match todo[0]
         case Up => Resolve(fs, if at == [] then [] else at[..|at| - 1], todo[1..], hops)
         case Name(name) =>
           match At(fs, at + [name])
           case None => NoEntry
           case Some(Link(absolute, target)) =>
             if hops == 0 then TooManyLinks
             else Resolve(fs, if absolute then [] else at, target + todo[1..], hops - 1)
           case Some(_) => Resolve(fs, at + [name], todo[1..], hops)
  }

  /** `canonicalize`. */
  function Canonicalize(fs: Tree, limit: nat, path: Path): Resolution {
    Resolve(fs, [], path, limit)
  }

  /** A path resolves by resolving its first part and then the rest from there. */
  lemma {:induction false} ResolveInParts(fs: Tree, at: Place, a: Path, b: Path, hops: nat)
    ensures var first := Resolve(fs, at, a, hops);
            Resolve(fs, at, a + b, hops) ==
            if first.Found? then Resolve(fs, first.place, b, first.hops) else first
    decreases hops, |a|
  {
    if a == [] {
      assert a + b == b;
    } else {
      assert (a + b)[0] == a[0] && (a + b)[1..] == a[1..] + b;
      if At(fs, at) == Some(Dir) {
        match a[0]
        case Up => ResolveInParts(fs, if at == [] then [] else at[..|at| - 1], a[1..], b, hops);
        case Name(name) =>
          match At(fs, at + [name])
          case None =>
          case Some(Link(absolute, target)) =>
            if hops > 0 {
              assert target + (a[1..] + b) == (target + a[1..]) + b;
              ResolveInParts(fs, if absolute then [] else at, target + a[1..], b, hops - 1);
            }
          case Some(_) => ResolveInParts(fs, at + [name], a[1..], b, hops);
      }
    }
  }

  ghost predicate Extends(fs: Tree, fs': Tree) {
    forall p :: p in fs ==> p in fs' && fs'[p] == fs[p]
  }

  /** Creating things never changes where a resolvable path leads. */
  lemma {:induction false} ResolveKept(fs: Tree, fs': Tree, at: Place, todo: Path, hops: nat)
    requires Extends(fs, fs') && Resolve(fs, at, todo, hops).Found?
    ensures Resolve(fs', at, todo, hops) == Resolve(fs, at, todo, hops)
    decreases hops, |todo|
  {
    if todo != [] {
      match todo[0]
      case Up => ResolveKept(fs, fs', if at == [] then [] else at[..|at| - 1], todo[1..], hops);
      case Name(name) =>
        match At(fs, at + [name])
        case None =>
        case Some(Link(absolute, target)) =>
          ResolveKept(fs, fs', if absolute then [] else at, target + todo[1..], hops - 1);
        case Some(_) => ResolveKept(fs, fs', at + [name], todo[1..], hops);
    }
  }

  // ---------------------------------------------------------------------------------------------
  // The lock directory

  /** How many leading components of `path[..n]` form its longest resolvable prefix. */
  function Existing(fs: Tree, limit: nat, path: Path, n: nat): (k: nat)
    requires n <= |path|
    ensures k <= n && Canonicalize(fs, limit, path[..k]).Found?
    ensures forall m :: k < m <= n ==> !Canonicalize(fs, limit, path[..m]).Found?
  {
    if n == 0 || Canonicalize(fs, limit, path[..n]).Found? then n else Existing(fs, limit, path, n - 1)
  }

  /** The part of `path` that cannot be resolved yet. */
  function MissingTail(fs: Tree, limit: nat, path: Path): Path {
    path[Existing(fs, limit, path, |path|)..]
  }

  predicate NoUps(path: Path) {
    forall i :: 0 <= i < |path| ==> path[i].Name?
  }

  /** The key: the canonical nearest existing ancestor, then the missing tail as it is spelled. */
  function Key(fs: Tree, limit: nat, parent: Path): Path {
    var k := Existing(fs, limit, parent, |parent|);
    if NoUps(parent[k..]) then Rendered(Canonicalize(fs, limit, parent[..k]).place) + parent[k..]
    else parent
  }

  /** `lock_dir` on the database's parent directory: walk up until something canonicalizes. */
  method LockDirOf(fs: Tree, limit: nat, parent: Path) returns (dir: Path)
    ensures dir == Key(fs, limit, parent)
  {
    ghost var k := Existing(fs, limit, parent, |parent|);
    var tail: seq<string> := [];
    var cur := parent;
    while true
      invariant k <= |cur| <= |parent| && cur == parent[..|cur|]
      invariant |tail| == |parent| - |cur|
      invariant forall i :: 0 <= i < |tail| ==> parent[|parent| - 1 - i] == Name(tail[i])
      decreases |cur|
    {
      var canonical := Canonicalize(fs, limit, cur);
      if canonical.Found? {
        assert |cur| == k;
        dir := Rendered(canonical.place) + Reversed(tail);
        ReversedTail(parent, tail, k);
        return;
      }
      if cur == [] || cur[|cur| - 1].Up? {
        assert cur != [] && parent[k..][|cur| - 1 - k].Up?;
        return parent;
      }
      tail := tail + [cur[|cur| - 1].name];
      cur := cur[..|cur| - 1];
    }
  }

  /** The stashed names, last first, as the path they came from. */
  function Reversed(tail: seq<string>): (r: Path)
    ensures |r| == |tail| && forall i :: 0 <= i < |tail| ==> r[i] == Name(tail[|tail| - 1 - i])
  {
    seq(|tail|, i requires 0 <= i < |tail| => Name(tail[|tail| - 1 - i]))
  }

  lemma ReversedTail(parent: Path, tail: seq<string>, k: nat)
    requires k <= |parent| && |tail| == |parent| - k
    requires forall i :: 0 <= i < |tail| ==> parent[|parent| - 1 - i] == Name(tail[i])
    ensures Reversed(tail) == parent[k..] && NoUps(parent[k..])
  {
    forall i | 0 <= i < |tail|
      ensures parent[k..][i] == Reversed(tail)[i]
    {
      assert parent[|parent| - 1 - (|tail| - 1 - i)] == Name(tail[|tail| - 1 - i]);
    }
  }
}
