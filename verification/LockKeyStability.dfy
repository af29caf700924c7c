/**
The lock key does not move when the missing directories are created.  `CreateDirAll` is the
standard library's recursive directory creation, which runs before the lock file is opened.
*/
module LockKeyStability {
  import opened Options
  import opened LockDir
  import opened Sequences

  datatype Made = Made | ParentMissing | Refused

  /** `mkdir`: links in the parent are followed, an existing entry of any kind refuses. */
  function Mkdir(fs: Tree, limit: nat, path: Path): (Tree, Made) {
    if path == [] then (fs, Refused)
    else
      match Canonicalize(fs, limit, path[..|path| - 1])
      case NoEntry => (fs, ParentMissing)
      case Found(at, _) =>
        if At(fs, at) == Some(Dir) && path[|path| - 1].Name? && At(fs, at + [path[|path| - 1].name]).None?
        then (fs[at + [path[|path| - 1].name] := Dir], Made.Made)
        else (fs, Refused)
      case _ => (fs, Refused)
  }

  predicate IsDir(fs: Tree, limit: nat, path: Path) {
    var r := Canonicalize(fs, limit, path);
    r.Found? && At(fs, r.place) == Some(Dir)
  }

  /** `create_dir_all`: the resulting tree, and whether it succeeded. */
  function CreateDirAll(fs: Tree, limit: nat, path: Path): (Tree, bool)
    decreases |path|
  {
    var (made, status) := Mkdir(fs, limit, path);
    if status == Made.Made then (made, true)
    else if status == Refused then (fs, IsDir(fs, limit, path))
    else
      var (fs1, ok) := CreateDirAll(fs, limit, path[..|path| - 1]);
      if !ok then (fs1, false)
      else
        var (fs2, again) := Mkdir(fs1, limit, path);
        (fs2, again == Made.Made || IsDir(fs1, limit, path))
  }

  // ---------------------------------------------------------------------------------------------
  // A path that resolves already

  lemma ResolvableCreatesNothing(fs: Tree, limit: nat, path: Path)
    requires Canonicalize(fs, limit, path).Found?
    ensures CreateDirAll(fs, limit, path).0 == fs
  {
    if path != [] {
      var n := |path| - 1;
      ResolveInParts(fs, [], path[..n], path[n..], limit);
      assert path[..n] + path[n..] == path;
    }
  }

  /** A prefix that does not resolve creates nothing by itself. */
  lemma UnresolvedParentMakesNothing(fs: Tree, limit: nat, path: Path)
    requires path != [] && !Canonicalize(fs, limit, path[..|path| - 1]).Found?
    ensures Mkdir(fs, limit, path).0 == fs
    ensures Mkdir(fs, limit, path).1 != Made.Made
  {
  }

  // ---------------------------------------------------------------------------------------------
  // A path with a missing tail of plain names

  /** `path[..k]` leads to `at` with `hops` left, and everything after is a plain name. */
  ghost predicate Starts(fs: Tree, limit: nat, path: Path, k: nat, at: Place, hops: nat) {
    && k < |path|
    && Canonicalize(fs, limit, path[..k]) == Found(at, hops)
    && NoUps(path[k..])
  }

  /** And no more of the path resolves. */
  ghost predicate Anchored(fs: Tree, limit: nat, path: Path, k: nat, at: Place, hops: nat) {
    && Starts(fs, limit, path, k, at, hops)
    && forall m :: k < m <= |path| ==> !Canonicalize(fs, limit, path[..m]).Found?
  }

  function Names(path: Path): (r: Place)
    requires NoUps(path)
    ensures |r| == |path| && forall i :: 0 <= i < |path| ==> path[i] == Name(r[i])
  {
    seq(|path|, i requires 0 <= i < |path| => path[i].name)
  }

  /** The first missing name really is absent from a directory (and not, say, a dangling link). */
  ghost predicate CanGrow(fs: Tree, path: Path, k: nat, at: Place)
    requires k < |path| && path[k].Name?
  {
    At(fs, at) == Some(Dir) && At(fs, at + [path[k].name]).None?
  }

  lemma ResolvePast(fs: Tree, limit: nat, path: Path, k: nat, m: nat)
    requires k <= m <= |path| && Canonicalize(fs, limit, path[..k]).Found?
    ensures var r := Canonicalize(fs, limit, path[..k]);
            Canonicalize(fs, limit, path[..m]) == Resolve(fs, r.place, path[k..m], r.hops)
  {
    ResolveInParts(fs, [], path[..k], path[k..m], limit);
    assert path[..k] + path[k..m] == path[..m];
  }

  /** If the first missing name cannot be created, creation fails and changes nothing. */
  lemma {:induction false} BlockedCreatesNothing(fs: Tree, limit: nat, path: Path, k: nat, at: Place, hops: nat, m: nat)
    requires Anchored(fs, limit, path, k, at, hops) && !CanGrow(fs, path, k, at) && k < m <= |path|
    ensures CreateDirAll(fs, limit, path[..m]) == (fs, false)
  {
    var p := path[..m];
    assert p[..m - 1] == path[..m - 1];
    assert path[k..][0] == path[k];
    if m == k + 1 {
      assert p[m - 1] == path[k];
    } else {
      UnresolvedParentMakesNothing(fs, limit, p);
      BlockedCreatesNothing(fs, limit, path, k, at, hops, m - 1);
    }
  }

  /** `fs` plus the directories `at + names[..1]`, ..., `at + names`. */
  function Grown(fs: Tree, at: Place, names: Place): Tree {
    if names == [] then fs
    else Grown(fs, at, names[..|names| - 1])[at + names := Dir]
  }

  lemma {:induction false} GrownHas(fs: Tree, at: Place, names: Place, j: nat)
    requires 0 < j <= |names|
    ensures at + names[..j] in Grown(fs, at, names) && Grown(fs, at, names)[at + names[..j]] == Dir
  {
    var shorter := names[..|names| - 1];
    if j < |names| {
      GrownHas(fs, at, shorter, j);
      assert shorter[..j] == names[..j];
    } else {
      assert names[..j] == names;
    }
  }

  lemma {:induction false} GrownExtends(fs: Tree, at: Place, names: Place)
    requires WellFormed(fs) && names != [] && At(fs, at + [names[0]]).None?
    ensures Extends(fs, Grown(fs, at, names))
    ensures forall p :: p in Grown(fs, at, names) ==> p in fs || |p| <= |at| + |names|
    decreases |names|
  {
    NothingBelowMissing(fs, at, names);
    if |names| > 1 {
      GrownExtends(fs, at, names[..|names| - 1]);
    } else {
      assert names == [names[0]];
    }
  }

  /** Below a missing entry nothing exists. */
  lemma {:induction false} NothingBelowMissing(fs: Tree, at: Place, names: Place)
    requires WellFormed(fs) && names != [] && At(fs, at + [names[0]]).None?
    ensures at + names !in fs
    decreases |names|
  {
    if |names| == 1 {
      assert names == [names[0]];
    } else {
      var shorter := names[..|names| - 1];
      NothingBelowMissing(fs, at, shorter);
      assert (at + names)[..|at + names| - 1] == at + shorter;
    }
  }

  /** In the grown tree the new directories lead where they say. */
  lemma {:induction false} ResolveGrown(fs: Tree, fs': Tree, at: Place, names: Place, done: nat, todo: Path, hops: nat)
    requires fs' == Grown(fs, at, names) && done + |todo| <= |names|
    requires At(fs', at) == Some(Dir)
    requires forall i :: 0 <= i < |todo| ==> todo[i] == Name(names[done + i])
    ensures Resolve(fs', at + names[..done], todo, hops) == Found(at + names[..done + |todo|], hops)
    decreases |todo|
  {
    assert done == 0 ==> at + names[..done] == at;
    if done > 0 { GrownHas(fs, at, names, done); }
    if todo != [] {
      GrownHas(fs, at, names, done + 1);
      assert at + names[..done] + [names[done]] == at + names[..done + 1];
      ResolveGrown(fs, fs', at, names, done + 1, todo[1..], hops);
    }
  }

  lemma NoUpsSlice(path: Path, k: nat, m: nat)
    requires k <= m <= |path| && NoUps(path[k..])
    ensures NoUps(path[k..m])
  {
    forall i | 0 <= i < m - k
      ensures path[k..m][i].Name?
    {
      assert path[k..m][i] == path[k..][i];
    }
  }

  /** The whole missing tail leads to its place once its directories exist. */
  lemma CanonicalizeGrown(fs: Tree, limit: nat, path: Path, k: nat, at: Place, hops: nat, m: nat)
    requires WellFormed(fs) && Starts(fs, limit, path, k, at, hops) && CanGrow(fs, path, k, at)
    requires k < m <= |path|
    ensures NoUps(path[k..m])
    ensures var names := Names(path[k..m]);
            Canonicalize(Grown(fs, at, names), limit, path[..m]) == Found(at + names, hops)
  {
    NoUpsSlice(path, k, m);
    var names := Names(path[k..m]);
    var fs' := Grown(fs, at, names);
    assert path[k..m][0] == path[k];
    GrownExtends(fs, at, names);
    ResolveKept(fs, fs', [], path[..k], limit);
    ResolvePast(fs', limit, path, k, m);
    assert at + names[..0] == at;
    ResolveGrown(fs, fs', at, names, 0, path[k..m], hops);
    assert names[..|names|] == names;
  }

  /** Otherwise creation succeeds and adds exactly the missing directories. */
  lemma {:induction false} GrowingCreates(fs: Tree, limit: nat, path: Path, k: nat, at: Place, hops: nat)
    requires WellFormed(fs) && Starts(fs, limit, path, k, at, hops) && CanGrow(fs, path, k, at)
    ensures CreateDirAll(fs, limit, path) == (Grown(fs, at, Names(path[k..])), true)
    decreases |path|
  {
    if |path| == k + 1 {
      GrowingFirst(fs, limit, path, k, at, hops);
    } else {
      ShorterStarts(fs, limit, path, k, at, hops);
      GrowingCreates(fs, limit, path[..|path| - 1], k, at, hops);
      GrowingStep(fs, limit, path, k, at, hops);
    }
  }

  lemma ShorterStarts(fs: Tree, limit: nat, path: Path, k: nat, at: Place, hops: nat)
    requires Starts(fs, limit, path, k, at, hops) && k + 1 < |path|
    ensures var p := path[..|path| - 1];
            Starts(fs, limit, p, k, at, hops) && p[k] == path[k] && p[k..] == path[k..|path| - 1]
  {
    var p := path[..|path| - 1];
    assert p[..k] == path[..k] && p[k..] == path[k..|path| - 1];
    NoUpsSlice(path, k, |path| - 1);
  }

  lemma GrowingFirst(fs: Tree, limit: nat, path: Path, k: nat, at: Place, hops: nat)
    requires Starts(fs, limit, path, k, at, hops) && CanGrow(fs, path, k, at) && |path| == k + 1
    ensures CreateDirAll(fs, limit, path) == (Grown(fs, at, Names(path[k..])), true)
  {
    var names := Names(path[k..]);
    assert path[k..][0] == path[k];
    assert names == [path[k].name] && names[..0] == [];
    assert Grown(fs, at, []) == fs;
  }

  lemma GrowingStep(fs: Tree, limit: nat, path: Path, k: nat, at: Place, hops: nat)
    requires WellFormed(fs) && Starts(fs, limit, path, k, at, hops) && CanGrow(fs, path, k, at) && k + 1 < |path|
    requires NoUps(path[k..|path| - 1])
    requires CreateDirAll(fs, limit, path[..|path| - 1]) == (Grown(fs, at, Names(path[k..|path| - 1])), true)
    ensures CreateDirAll(fs, limit, path) == (Grown(fs, at, Names(path[k..])), true)
  {
    assert path[..|path|] == path;
    ParentIsMissing(fs, limit, path, k, at, hops, |path|);
    LastMkdir(fs, limit, path, k, at, hops);
    OneMoreLevel(fs, limit, path, Grown(fs, at, Names(path[k..|path| - 1])), Grown(fs, at, Names(path[k..])));
  }

  lemma LastMkdir(fs: Tree, limit: nat, path: Path, k: nat, at: Place, hops: nat)
    requires WellFormed(fs) && Starts(fs, limit, path, k, at, hops) && CanGrow(fs, path, k, at) && k + 1 < |path|
    requires NoUps(path[k..|path| - 1])
    ensures Mkdir(Grown(fs, at, Names(path[k..|path| - 1])), limit, path)
         == (Grown(fs, at, Names(path[k..])), Made.Made)
  {
    var m := |path|;
    var shorter := Names(path[k..m - 1]);
    assert path[k..m] == path[k..] && path[k..m - 1][0] == path[k];
    NamesSnoc(path, k, m);
    CanonicalizeGrown(fs, limit, path, k, at, hops, m - 1);
    MkdirInGrown(fs, limit, path, at, shorter, path[m - 1].name);
  }

  lemma NamesSnoc(path: Path, k: nat, m: nat)
    requires k < m <= |path| && NoUps(path[k..m]) && NoUps(path[k..m - 1])
    ensures path[m - 1].Name? && Names(path[k..m]) == Names(path[k..m - 1]) + [path[m - 1].name]
  {
    var a, b := Names(path[k..m]), Names(path[k..m - 1]);
    assert path[k..m][m - 1 - k] == path[m - 1];
    forall i | 0 <= i < m - 1 - k
      ensures a[i] == b[i]
    {
      assert path[k..m][i] == path[k..m - 1][i];
    }
  }

  lemma ParentIsMissing(fs: Tree, limit: nat, path: Path, k: nat, at: Place, hops: nat, m: nat)
    requires Starts(fs, limit, path, k, at, hops) && CanGrow(fs, path, k, at) && k + 1 < m <= |path|
    ensures Mkdir(fs, limit, path[..m]) == (fs, ParentMissing)
  {
    assert path[..m][..m - 1] == path[..m - 1];
    ResolvePast(fs, limit, path, k, m - 1);
    assert path[k..m - 1][0] == path[k];
  }

  lemma MkdirInGrown(fs: Tree, limit: nat, p: Path, at: Place, names: Place, n: string)
    requires WellFormed(fs) && names != [] && At(fs, at + [names[0]]).None?
    requires p != [] && p[|p| - 1] == Name(n)
    requires var r := Canonicalize(Grown(fs, at, names), limit, p[..|p| - 1]); r.Found? && r.place == at + names
    ensures Mkdir(Grown(fs, at, names), limit, p) == (Grown(fs, at, names + [n]), Made.Made)
  {
    RoomForOneMore(fs, at, names, n);
    assert (names + [n])[..|names|] == names;
  }

  lemma OneMoreLevel(fs: Tree, limit: nat, p: Path, fs1: Tree, fs2: Tree)
    requires p != [] && Mkdir(fs, limit, p) == (fs, ParentMissing)
    requires CreateDirAll(fs, limit, p[..|p| - 1]) == (fs1, true)
    requires Mkdir(fs1, limit, p) == (fs2, Made.Made)
    ensures CreateDirAll(fs, limit, p) == (fs2, true)
  {
  }

  lemma RoomForOneMore(fs: Tree, at: Place, names: Place, n: string)
    requires WellFormed(fs) && names != [] && At(fs, at + [names[0]]).None?
    ensures var fs1 := Grown(fs, at, names);
            At(fs1, at + names) == Some(Dir) && At(fs1, at + names + [n]).None?
    ensures at + names + [n] == at + (names + [n])
  {
    GrownHas(fs, at, names, |names|);
    assert names[..|names|] == names;
    GrownExtends(fs, at, names);
    NothingBelowMissing(fs, at, names + [n]);
    assert at + names + [n] == at + (names + [n]);
  }

  // ---------------------------------------------------------------------------------------------
  // The key

  lemma KeyOfResolvable(fs: Tree, limit: nat, parent: Path)
    requires Canonicalize(fs, limit, parent).Found?
    ensures Key(fs, limit, parent) == Rendered(Canonicalize(fs, limit, parent).place)
  {
    assert parent[..|parent|] == parent && parent[|parent|..] == [];
  }

  lemma KeyOfGrown(fs: Tree, limit: nat, parent: Path, k: nat, at: Place, hops: nat)
    requires WellFormed(fs) && Starts(fs, limit, parent, k, at, hops) && CanGrow(fs, parent, k, at) && k < |parent|
    ensures Key(CreateDirAll(fs, limit, parent).0, limit, parent) == Rendered(at) + parent[k..]
  {
    GrowingCreates(fs, limit, parent, k, at, hops);
    CanonicalizeGrown(fs, limit, parent, k, at, hops, |parent|);
    assert parent[k..|parent|] == parent[k..] && parent[..|parent|] == parent;
    KeyOfResolvable(Grown(fs, at, Names(parent[k..])), limit, parent);
    RenderedNames(at, parent[k..]);
  }

  lemma RenderedNames(at: Place, tail: Path)
    requires NoUps(tail)
    ensures Rendered(at + Names(tail)) == Rendered(at) + tail
  {
  }

  /**
  For every tree with symbolic links and every path whose missing tail has no `..`, the key is the
  same before and after the missing directories are created, whether or not creation succeeds.
  */
  lemma KeyStable(fs: Tree, limit: nat, parent: Path)
    requires WellFormed(fs) && NoUps(MissingTail(fs, limit, parent))
    ensures Key(CreateDirAll(fs, limit, parent).0, limit, parent) == Key(fs, limit, parent)
  {
    var k := Existing(fs, limit, parent, |parent|);
    var r := Canonicalize(fs, limit, parent[..k]);
    assert parent[..|parent|] == parent;
    if k == |parent| {
      ResolvableCreatesNothing(fs, limit, parent);
    } else {
      assert parent[k..][0] == parent[k];
      assert Anchored(fs, limit, parent, k, r.place, r.hops);
      if CanGrow(fs, parent, k, r.place) {
        KeyOfGrown(fs, limit, parent, k, r.place, r.hops);
      } else {
        BlockedCreatesNothing(fs, limit, parent, k, r.place, r.hops, |parent|);
      }
    }
  }

  /** A directory that was made, or was there, resolves afterwards. */
  lemma MadeResolves(fs: Tree, limit: nat, path: Path)
    requires Mkdir(fs, limit, path).1 == Made.Made
    ensures Canonicalize(Mkdir(fs, limit, path).0, limit, path).Found?
  {
    var fs' := Mkdir(fs, limit, path).0;
    var n := |path| - 1;
    var r := Canonicalize(fs, limit, path[..n]);
    ResolveKept(fs, fs', [], path[..n], limit);
    ResolveInParts(fs', [], path[..n], path[n..], limit);
    assert path[..n] + path[n..] == path;
    assert path[n..][1..] == [];
    assert At(fs', r.place) == Some(Dir);
    assert At(fs', r.place + [path[n].name]) == Some(Dir);
  }

  lemma CreatedResolves(fs: Tree, limit: nat, path: Path)
    requires CreateDirAll(fs, limit, path).1
    ensures Canonicalize(CreateDirAll(fs, limit, path).0, limit, path).Found?
  {
    var (made, status) := Mkdir(fs, limit, path);
    if status == Made.Made {
      MadeResolves(fs, limit, path);
    } else if status == ParentMissing {
      var (fs1, ok) := CreateDirAll(fs, limit, path[..|path| - 1]);
      if Mkdir(fs1, limit, path).1 == Made.Made {
        MadeResolves(fs1, limit, path);
      }
    }
  }

  /** Once creation has succeeded, the key is stable exactly when the missing tail has no `..`. */
  lemma KeyStableIffNoUps(fs: Tree, limit: nat, parent: Path)
    requires WellFormed(fs) && CreateDirAll(fs, limit, parent).1
    ensures Key(CreateDirAll(fs, limit, parent).0, limit, parent) == Key(fs, limit, parent)
       <==> NoUps(MissingTail(fs, limit, parent))
  {
    if NoUps(MissingTail(fs, limit, parent)) {
      KeyStable(fs, limit, parent);
    } else {
      UpsInKey(fs, limit, parent);
      CreatedResolves(fs, limit, parent);
      KeyOfResolvable(CreateDirAll(fs, limit, parent).0, limit, parent);
    }
  }

  lemma UpsInKey(fs: Tree, limit: nat, parent: Path)
    requires !NoUps(MissingTail(fs, limit, parent))
    ensures Key(fs, limit, parent) == parent && !NoUps(parent)
  {
    var k := Existing(fs, limit, parent, |parent|);
    var i :| 0 <= i < |parent[k..]| && parent[k..][i].Up?;
    assert parent[k + i].Up?;
  }

  // ---------------------------------------------------------------------------------------------
  // Creating the key directory itself, as opening a lock file does

  /** Something is there, and it is not a link. */
  predicate Real(fs: Tree, p: Place) {
    At(fs, p).Some? && !At(fs, p).value.Link?
  }

  lemma {:induction false} ResolveLandsReal(fs: Tree, at: Place, todo: Path, hops: nat)
    requires WellFormed(fs) && Real(fs, at) && Resolve(fs, at, todo, hops).Found?
    ensures Real(fs, Resolve(fs, at, todo, hops).place) && Resolve(fs, at, todo, hops).hops <= hops
    decreases hops, |todo|
  {
    if todo != [] {
      match todo[0]
      case Up => ResolveLandsReal(fs, if at == [] then [] else at[..|at| - 1], todo[1..], hops);
      case Name(name) =>
        match At(fs, at + [name])
        case None =>
        case Some(Link(absolute, target)) =>
          ResolveLandsReal(fs, if absolute then [] else at, target + todo[1..], hops - 1);
        case Some(_) => ResolveLandsReal(fs, at + [name], todo[1..], hops);
    }
  }

  /** A canonical path resolves to itself and follows no link. */
  lemma {:induction false} RealResolves(fs: Tree, p: Place, hops: nat)
    requires WellFormed(fs) && Real(fs, p)
    ensures Resolve(fs, [], Rendered(p), hops) == Found(p, hops)
    decreases |p|
  {
    if p != [] {
      var front, last := p[..|p| - 1], p[|p| - 1];
      assert p == front + [last];
      RealResolves(fs, front, hops);
      StepResolves(fs, front, last, hops);
      ResolveInParts(fs, [], Rendered(front), [Name(last)], hops);
      assert Rendered(p) == Rendered(front) + [Name(last)];
    }
  }

  lemma StepResolves(fs: Tree, at: Place, name: string, hops: nat)
    requires At(fs, at) == Some(Dir) && Real(fs, at + [name])
    ensures Resolve(fs, at, [Name(name)], hops) == Found(at + [name], hops)
  {
    var todo: Path := [Name(name)];
    assert todo[1..] == [];
  }

  /** More links left to follow lead to the same place with as many more left. */
  lemma {:induction false} HopsUp(fs: Tree, at: Place, todo: Path, hops: nat, more: nat)
    requires Resolve(fs, at, todo, hops).Found?
    ensures var r := Resolve(fs, at, todo, hops);
            Resolve(fs, at, todo, hops + more) == Found(r.place, r.hops + more)
    decreases hops, |todo|
  {
    if todo != [] {
      match todo[0]
      case Up => HopsUp(fs, if at == [] then [] else at[..|at| - 1], todo[1..], hops, more);
      case Name(name) =>
        match At(fs, at + [name])
        case None =>
        case Some(Link(absolute, target)) =>
          HopsUp(fs, if absolute then [] else at, target + todo[1..], hops - 1, more);
        case Some(_) => HopsUp(fs, at + [name], todo[1..], hops, more);
    }
  }

  /** And fewer do, as long as that many were left. */
  lemma {:induction false} HopsDown(fs: Tree, at: Place, todo: Path, hops: nat, fewer: nat)
    requires Resolve(fs, at, todo, hops).Found? && fewer <= Resolve(fs, at, todo, hops).hops <= hops
    ensures var r := Resolve(fs, at, todo, hops);
            Resolve(fs, at, todo, hops - fewer) == Found(r.place, r.hops - fewer)
    decreases hops, |todo|
  {
    if todo != [] {
      match todo[0]
      case Up => HopsDown(fs, if at == [] then [] else at[..|at| - 1], todo[1..], hops, fewer);
      case Name(name) =>
        match At(fs, at + [name])
        case None =>
        case Some(Link(absolute, target)) =>
          HopsLeft(fs, if absolute then [] else at, target + todo[1..], hops - 1);
          HopsDown(fs, if absolute then [] else at, target + todo[1..], hops - 1, fewer);
        case Some(_) => HopsDown(fs, at + [name], todo[1..], hops, fewer);
    }
  }

  lemma {:induction false} HopsLeft(fs: Tree, at: Place, todo: Path, hops: nat)
    requires Resolve(fs, at, todo, hops).Found?
    ensures Resolve(fs, at, todo, hops).hops <= hops
    decreases hops, |todo|
  {
    if todo != [] {
      match todo[0]
      case Up => HopsLeft(fs, if at == [] then [] else at[..|at| - 1], todo[1..], hops);
      case Name(name) =>
        match At(fs, at + [name])
        case None =>
        case Some(Link(absolute, target)) => HopsLeft(fs, if absolute then [] else at, target + todo[1..], hops - 1);
        case Some(_) => HopsLeft(fs, at + [name], todo[1..], hops);
    }
  }

  lemma {:induction false} CreateExtends(fs: Tree, limit: nat, path: Path)
    ensures Extends(fs, CreateDirAll(fs, limit, path).0)
    decreases |path|
  {
    if Mkdir(fs, limit, path).1 == ParentMissing {
      CreateExtends(fs, limit, path[..|path| - 1]);
    }
  }

  lemma MkdirKeepsForm(fs: Tree, limit: nat, path: Path)
    requires WellFormed(fs)
    ensures WellFormed(Mkdir(fs, limit, path).0)
  {
    var fs' := Mkdir(fs, limit, path).0;
    if Mkdir(fs, limit, path).1 == Made.Made {
      var at := Canonicalize(fs, limit, path[..|path| - 1]).place;
      var made := at + [path[|path| - 1].name];
      assert made[..|made| - 1] == at;
      forall p | p in fs' && |p| > 1
        ensures p[..|p| - 1] in fs' && fs'[p[..|p| - 1]] == Dir
      {
        assert p != made ==> p in fs;
      }
    }
  }

  lemma {:induction false} CreateKeepsForm(fs: Tree, limit: nat, path: Path)
    requires WellFormed(fs)
    ensures WellFormed(CreateDirAll(fs, limit, path).0)
    decreases |path|
  {
    MkdirKeepsForm(fs, limit, path);
    if Mkdir(fs, limit, path).1 == ParentMissing {
      CreateKeepsForm(fs, limit, path[..|path| - 1]);
      MkdirKeepsForm(CreateDirAll(fs, limit, path[..|path| - 1]).0, limit, path);
    }
  }

  /** The key taken before the directories existed is the canonical path of the directory created. */
  lemma KeyLeadsToDirectory(fs: Tree, limit: nat, parent: Path)
    requires WellFormed(fs) && NoUps(MissingTail(fs, limit, parent)) && CreateDirAll(fs, limit, parent).1
    ensures var fs' := CreateDirAll(fs, limit, parent).0;
      && Canonicalize(fs', limit, parent).Found?
      && Canonicalize(fs', limit, Key(fs, limit, parent)) == Found(Canonicalize(fs', limit, parent).place, limit)
  {
    var fs' := CreateDirAll(fs, limit, parent).0;
    KeyStable(fs, limit, parent);
    CreatedResolves(fs, limit, parent);
    KeyOfResolvable(fs', limit, parent);
    CreateKeepsForm(fs, limit, parent);
    ResolveLandsReal(fs', [], parent, limit);
    RealResolves(fs', Canonicalize(fs', limit, parent).place, limit);
  }

  /** Existing directories share a key exactly when they are one. */
  lemma SameKeyIffSamePlace(fs: Tree, limit: nat, p: Path, q: Path)
    requires Canonicalize(fs, limit, p).Found? && Canonicalize(fs, limit, q).Found?
    ensures Key(fs, limit, p) == Key(fs, limit, q)
       <==> Canonicalize(fs, limit, p).place == Canonicalize(fs, limit, q).place
  {
    var a, b := Canonicalize(fs, limit, p).place, Canonicalize(fs, limit, q).place;
    KeyOfResolvable(fs, limit, p);
    KeyOfResolvable(fs, limit, q);
    if Rendered(a) == Rendered(b) {
      assert forall i :: 0 <= i < |a| ==> Rendered(a)[i] == Name(a[i]) && Rendered(b)[i] == Name(b[i]);
      assert a == b;
    }
  }

  /** What runs out of links keeps running out of them, whatever is created. */
  lemma StillTooFar(fs: Tree, fs': Tree, at: Place, todo: Path, hops: nat, limit: nat)
    requires Extends(fs, fs') && hops <= limit
    requires !Resolve(fs, at, todo, hops).Found? && Resolve(fs, at, todo, limit).Found?
    ensures !Resolve(fs', at, todo, hops).Found?
  {
    if Resolve(fs', at, todo, hops).Found? {
      HopsUp(fs', at, todo, hops, limit - hops);
      ResolveKept(fs, fs', at, todo, limit);
      HopsLeft(fs, at, todo, limit);
      HopsDown(fs, at, todo, limit, limit - hops);
    }
  }

  /** The key path is the canonical ancestor and then the missing tail, from a fresh count of links. */
  lemma KeyPath(fs: Tree, limit: nat, at: Place, tail: Path, m: nat)
    requires WellFormed(fs) && Real(fs, at) && |at| <= m <= |at| + |tail|
    ensures Canonicalize(fs, limit, (Rendered(at) + tail)[..m]) == Resolve(fs, at, tail[..m - |at|], limit)
  {
    RealResolves(fs, at, limit);
    ResolveInParts(fs, [], Rendered(at), tail[..m - |at|], limit);
    assert (Rendered(at) + tail)[..m] == Rendered(at) + tail[..m - |at|];
  }

  lemma KeyStarts(fs: Tree, limit: nat, at: Place, tail: Path)
    requires WellFormed(fs) && Real(fs, at) && tail != [] && NoUps(tail)
    ensures var key := Rendered(at) + tail;
            Starts(fs, limit, key, |at|, at, limit) && key[|at|] == tail[0] && key[|at|..] == tail
  {
    var key := Rendered(at) + tail;
    KeyPath(fs, limit, at, tail, |at|);
    assert tail[..0] == [] && key[|at|..] == tail;
  }

  lemma KeyAnchored(fs: Tree, limit: nat, at: Place, tail: Path)
    requires WellFormed(fs) && Real(fs, at) && tail != [] && NoUps(tail)
    requires !Resolve(fs, at, tail[..1], limit).Found?
    ensures Anchored(fs, limit, Rendered(at) + tail, |at|, at, limit)
  {
    var key := Rendered(at) + tail;
    KeyStarts(fs, limit, at, tail);
    forall m | |at| < m <= |key|
      ensures !Canonicalize(fs, limit, key[..m]).Found?
    {
      KeyPath(fs, limit, at, tail, m);
      ResolveInParts(fs, at, tail[..1], tail[1..m - |at|], limit);
      assert tail[..1] + tail[1..m - |at|] == tail[..m - |at|];
    }
  }

  lemma GrowsTo(fs: Tree, limit: nat, path: Path, k: nat, at: Place, hops: nat, tail: Path)
    requires WellFormed(fs) && Starts(fs, limit, path, k, at, hops) && CanGrow(fs, path, k, at)
    requires tail == path[k..] && NoUps(tail)
    ensures CreateDirAll(fs, limit, path).0 == Grown(fs, at, Names(tail))
  {
    GrowingCreates(fs, limit, path, k, at, hops);
  }

  /** If the first missing name can be created, the key path creates what the parent would. */
  lemma KeyGrowsTo(fs: Tree, limit: nat, at: Place, tail: Path)
    requires WellFormed(fs) && Real(fs, at) && tail != [] && NoUps(tail)
    requires At(fs, at) == Some(Dir) && At(fs, at + [tail[0].name]).None?
    ensures CreateDirAll(fs, limit, Rendered(at) + tail).0 == Grown(fs, at, Names(tail))
  {
    KeyStarts(fs, limit, at, tail);
    GrowsTo(fs, limit, Rendered(at) + tail, |at|, at, limit, tail);
  }

  /** If it cannot, nothing under the parent's own count of links changes. */
  lemma BlockedStays(fs: Tree, limit: nat, parent: Path, k: nat, at: Place, hops: nat)
    requires WellFormed(fs) && Anchored(fs, limit, parent, k, at, hops) && !CanGrow(fs, parent, k, at) && Real(fs, at)
    requires hops <= limit
    ensures var fs' := CreateDirAll(fs, limit, Rendered(at) + parent[k..]).0;
            Extends(fs, fs') && !Resolve(fs', at, parent[k..k + 1], hops).Found?
  {
    var tail := parent[k..];
    var key := Rendered(at) + tail;
    var fs' := CreateDirAll(fs, limit, key).0;
    CreateExtends(fs, limit, key);
    assert tail[0] == parent[k] && tail[..1] == parent[k..k + 1];
    ResolvePast(fs, limit, parent, k, k + 1);
    if Resolve(fs, at, tail[..1], limit).Found? {
      StillTooFar(fs, fs', at, tail[..1], hops, limit);
    } else {
      KeyAnchored(fs, limit, at, tail);
      assert key[|at|] == parent[k] && key[..|key|] == key;
      BlockedCreatesNothing(fs, limit, key, |at|, at, limit, |key|);
    }
  }

  lemma KeyUnmoved(fs: Tree, fs': Tree, limit: nat, parent: Path, k: nat, at: Place, hops: nat)
    requires Anchored(fs, limit, parent, k, at, hops) && Extends(fs, fs')
    requires !Resolve(fs', at, parent[k..k + 1], hops).Found?
    ensures Key(fs', limit, parent) == Rendered(at) + parent[k..]
  {
    ResolveKept(fs, fs', [], parent[..k], limit);
    forall m | k < m <= |parent|
      ensures !Canonicalize(fs', limit, parent[..m]).Found?
    {
      ResolvePast(fs', limit, parent, k, m);
      ResolveInParts(fs', at, parent[k..k + 1], parent[k + 1..m], hops);
      Slices(parent, k, k + 1, m);
    }
    assert Existing(fs', limit, parent, |parent|) == k;
  }

  /**
  For every tree and every path whose missing tail has no `..`, the key is the same before and
  after the key directory is created, also where the link limit makes that another directory.
  */
  lemma KeyDirStable(fs: Tree, limit: nat, parent: Path)
    requires WellFormed(fs) && NoUps(MissingTail(fs, limit, parent))
    ensures Key(CreateDirAll(fs, limit, Key(fs, limit, parent)).0, limit, parent) == Key(fs, limit, parent)
  {
    var k := Existing(fs, limit, parent, |parent|);
    var r := Canonicalize(fs, limit, parent[..k]);
    ResolveLandsReal(fs, [], parent[..k], limit);
    if k == |parent| {
      RealResolves(fs, r.place, limit);
      assert parent[..k] == parent;
      KeyOfResolvable(fs, limit, parent);
      ResolvableCreatesNothing(fs, limit, Rendered(r.place));
    } else {
      assert parent[k..][0] == parent[k];
      assert Anchored(fs, limit, parent, k, r.place, r.hops);
      if CanGrow(fs, parent, k, r.place) {
        KeyGrowsTo(fs, limit, r.place, parent[k..]);
        GrowsTo(fs, limit, parent, k, r.place, r.hops, parent[k..]);
        KeyStable(fs, limit, parent);
      } else {
        BlockedStays(fs, limit, parent, k, r.place, r.hops);
        KeyUnmoved(fs, CreateDirAll(fs, limit, Key(fs, limit, parent)).0, limit, parent, k, r.place, r.hops);
      }
    }
  }

  /** Once opening a lock file has created its directory, the key is stable exactly when the missing
   *  tail has no `..`. */
  lemma KeyDirStableIffNoUps(fs: Tree, limit: nat, parent: Path)
    requires WellFormed(fs) && CreateDirAll(fs, limit, Key(fs, limit, parent)).1
    ensures Key(CreateDirAll(fs, limit, Key(fs, limit, parent)).0, limit, parent) == Key(fs, limit, parent)
       <==> NoUps(MissingTail(fs, limit, parent))
  {
    if NoUps(MissingTail(fs, limit, parent)) {
      KeyDirStable(fs, limit, parent);
    } else {
      KeyStableIffNoUps(fs, limit, parent);
    }
  }

  const ONLY_A: Tree := map[["a"] := Dir]
  const A_X_UP_Y: Path := [Name("a"), Name("x"), Up, Name("y")]

  lemma OnlyALacksX()
    ensures Canonicalize(ONLY_A, 40, A_X_UP_Y[..1]) == Found(["a"], 40)
    ensures forall m :: 1 < m <= 4 ==> Canonicalize(ONLY_A, 40, A_X_UP_Y[..m]) == NoEntry
  {
    var a: Path := [Name("a")];
    assert [] + ["a"] == ["a"];
    assert At(ONLY_A, [] + ["a"]) == Some(Dir);
    assert a[1..] == [] && Resolve(ONLY_A, [] + ["a"], [], 40) == Found(["a"], 40);
    assert Resolve(ONLY_A, [], a, 40) == Found(["a"], 40);
    assert A_X_UP_Y[..1] == a;
    forall m | 1 < m <= 4
      ensures Canonicalize(ONLY_A, 40, A_X_UP_Y[..m]) == NoEntry
    {
      ResolvePast(ONLY_A, 40, A_X_UP_Y, 1, m);
      assert A_X_UP_Y[1..m][0] == Name("x");
      assert ["a"] + ["x"] !in ONLY_A;
    }
  }

  /** `/a/x/../y` with `x` missing keeps its spelling as the key until the directories exist. */
  lemma KeyMovesWithUp()
    ensures WellFormed(ONLY_A) && Key(ONLY_A, 40, A_X_UP_Y) == A_X_UP_Y
    ensures NoUps(Key(CreateDirAll(ONLY_A, 40, A_X_UP_Y).0, 40, A_X_UP_Y))
  {
    OnlyALacksX();
    assert Existing(ONLY_A, 40, A_X_UP_Y, 4) == 1;
    assert A_X_UP_Y[1..][1] == Up;
    CreateAXUpY();
    CreatedResolves(ONLY_A, 40, A_X_UP_Y);
    KeyOfResolvable(CreateDirAll(ONLY_A, 40, A_X_UP_Y).0, 40, A_X_UP_Y);
  }

  lemma CreateAXUpY()
    ensures CreateDirAll(ONLY_A, 40, A_X_UP_Y).1
  {
    var x, up := A_X_UP_Y[..2], A_X_UP_Y[..3];
    var fs := ONLY_A[["a", "x"] := Dir];
    OnlyALacksX();
    assert x[..1] == A_X_UP_Y[..1] && up[..2] == x;
    assert ["a"] + ["x"] == ["a", "x"] && ["a", "x"][..1] == ["a"];
    assert x[1] == Name("x") && At(ONLY_A, ["a"]) == Some(Dir);
    assert Mkdir(ONLY_A, 40, x) == (fs, Made.Made);
    assert CreateDirAll(ONLY_A, 40, x) == (fs, true);
    assert Canonicalize(fs, 40, x) == Found(["a", "x"], 40) by {
      ResolveKept(ONLY_A, fs, [], A_X_UP_Y[..1], 40);
      ResolvePast(fs, 40, A_X_UP_Y, 1, 2);
      assert A_X_UP_Y[1..2] == [Name("x")] && [Name("x")][1..] == [];
    }
    assert Canonicalize(fs, 40, up) == Found(["a"], 40) by {
      ResolvePast(fs, 40, A_X_UP_Y, 2, 3);
      assert A_X_UP_Y[2..3] == [Up] && [Up][1..] == [];
    }
    assert |up| == 3 && up[|up| - 1] == Up && up[..|up| - 1] == x;
    assert Mkdir(ONLY_A, 40, up) == (ONLY_A, ParentMissing);
    assert Mkdir(fs, 40, up) == (fs, Refused);
    assert IsDir(fs, 40, up);
    assert CreateDirAll(ONLY_A, 40, up) == (fs, true);
    assert ["a"] + ["y"] !in fs;
  }

  // ---------------------------------------------------------------------------------------------
  // Aliases

  /** Below `p` a path goes on from where `p` leads. */
  lemma ResolveBelow(fs: Tree, limit: nat, p: Path, tail: Path, m: nat)
    requires Canonicalize(fs, limit, p).Found? && m <= |tail|
    ensures var r := Canonicalize(fs, limit, p);
            Canonicalize(fs, limit, (p + tail)[..|p| + m]) == Resolve(fs, r.place, tail[..m], r.hops)
  {
    ResolveInParts(fs, [], p, tail[..m], limit);
    assert (p + tail)[..|p| + m] == p + tail[..m];
  }

  /** How much of `tail` resolves below `p`. */
  function Reached(fs: Tree, limit: nat, p: Path, tail: Path): int {
    Existing(fs, limit, p + tail, |p + tail|) - |p|
  }

  lemma ReachedIs(fs: Tree, limit: nat, p: Path, tail: Path)
    requires Canonicalize(fs, limit, p).Found?
    ensures var n := Reached(fs, limit, p, tail); var r := Canonicalize(fs, limit, p);
            && 0 <= n <= |tail|
            && Resolve(fs, r.place, tail[..n], r.hops).Found?
            && forall m :: n < m <= |tail| ==> !Resolve(fs, r.place, tail[..m], r.hops).Found?
  {
    var path := p + tail;
    assert path[..|p|] == p;
    var n := Reached(fs, limit, p, tail);
    ResolveBelow(fs, limit, p, tail, n);
    forall m | n < m <= |tail|
      ensures !Resolve(fs, Canonicalize(fs, limit, p).place, tail[..m], Canonicalize(fs, limit, p).hops).Found?
    {
      ResolveBelow(fs, limit, p, tail, m);
    }
  }

  lemma KeyBelow(fs: Tree, limit: nat, p: Path, tail: Path)
    requires Canonicalize(fs, limit, p).Found? && NoUps(MissingTail(fs, limit, p + tail))
    ensures var n := Reached(fs, limit, p, tail); var r := Canonicalize(fs, limit, p);
            && 0 <= n <= |tail| && Resolve(fs, r.place, tail[..n], r.hops).Found? && NoUps(tail[n..])
            && Key(fs, limit, p + tail) == Rendered(Resolve(fs, r.place, tail[..n], r.hops).place) + tail[n..]
  {
    ReachedIs(fs, limit, p, tail);
    var n := Reached(fs, limit, p, tail);
    ResolveBelow(fs, limit, p, tail, n);
    assert (p + tail)[|p| + n..] == tail[n..];
  }

  /** With fewer links to follow, a path that resolves still does or runs out of them. */
  lemma {:induction false} FewerHops(fs: Tree, at: Place, todo: Path, hops: nat, more: nat)
    requires Resolve(fs, at, todo, hops + more).Found?
    ensures Resolve(fs, at, todo, hops).Found? || Resolve(fs, at, todo, hops).TooManyLinks?
    decreases hops, |todo|
  {
    if todo != [] {
      match todo[0]
      case Up => FewerHops(fs, if at == [] then [] else at[..|at| - 1], todo[1..], hops, more);
      case Name(name) =>
        match At(fs, at + [name])
        case None =>
        case Some(Link(absolute, target)) =>
          if hops > 0 { FewerHops(fs, if absolute then [] else at, target + todo[1..], hops - 1, more); }
        case Some(_) => FewerHops(fs, at + [name], todo[1..], hops, more);
    }
  }

  /** Two counts of links lead to one place. */
  lemma OnePlace(fs: Tree, at: Place, todo: Path, hops: nat, hops': nat)
    requires Resolve(fs, at, todo, hops).Found? && Resolve(fs, at, todo, hops').Found?
    ensures Resolve(fs, at, todo, hops).place == Resolve(fs, at, todo, hops').place
  {
    if hops <= hops' { HopsUp(fs, at, todo, hops, hops' - hops); } else { HopsUp(fs, at, todo, hops', hops - hops'); }
  }

  /** Two spellings of one directory, by what they lead to. */
  ghost predicate Aliases(fs: Tree, limit: nat, p: Path, q: Path) {
    && Canonicalize(fs, limit, p).Found? && Canonicalize(fs, limit, q).Found?
    && Canonicalize(fs, limit, p).place == Canonicalize(fs, limit, q).place
  }

  /** If as much of the tail resolves below both spellings, they have one key. */
  lemma SameReachSameKey(fs: Tree, limit: nat, p: Path, q: Path, tail: Path)
    requires Aliases(fs, limit, p, q)
    requires NoUps(MissingTail(fs, limit, p + tail)) && NoUps(MissingTail(fs, limit, q + tail))
    requires Reached(fs, limit, p, tail) == Reached(fs, limit, q, tail)
    ensures Key(fs, limit, p + tail) == Key(fs, limit, q + tail)
  {
    KeyBelow(fs, limit, p, tail);
    KeyBelow(fs, limit, q, tail);
    var n := Reached(fs, limit, p, tail);
    OnePlace(fs, Canonicalize(fs, limit, p).place, tail[..n], Canonicalize(fs, limit, p).hops,
             Canonicalize(fs, limit, q).hops);
  }

  lemma {:induction false} RealAbove(fs: Tree, p: Place, n: nat)
    requires WellFormed(fs) && Real(fs, p) && n <= |p|
    ensures Real(fs, p[..n])
    decreases |p|
  {
    if n < |p| {
      var up := p[..|p| - 1];
      assert At(fs, up) == Some(Dir);
      RealAbove(fs, up, n);
      assert up[..n] == p[..n];
    } else {
      assert p[..n] == p;
    }
  }

  /** Where more links get further than fewer, a link is in the way. */
  lemma LinkInTheWay(fs: Tree, at: Place, name: string, hops: nat, more: nat)
    requires Resolve(fs, at, [Name(name)], hops + more).Found? && !Resolve(fs, at, [Name(name)], hops).Found?
    ensures At(fs, at + [name]).Some? && At(fs, at + [name]).value.Link?
  {
    var todo: Path := [Name(name)];
    assert todo[1..] == [];
  }

  /** If one spelling gets further, the keys differ: the nearer one names a link on the way. */
  lemma FurtherDiffers(fs: Tree, at: Place, tail: Path, hops: nat, hops': nat, n: nat, n': nat)
    requires WellFormed(fs) && Real(fs, at) && n < n' <= |tail| && NoUps(tail[n..]) && hops <= hops'
    requires Resolve(fs, at, tail[..n], hops).Found? && Resolve(fs, at, tail[..n'], hops').Found?
    requires !Resolve(fs, at, tail[..n + 1], hops).Found?
    ensures Rendered(Resolve(fs, at, tail[..n], hops).place) + tail[n..]
         != Rendered(Resolve(fs, at, tail[..n'], hops').place) + tail[n'..]
  {
    var y, z := Resolve(fs, at, tail[..n], hops).place, Resolve(fs, at, tail[..n'], hops').place;
    assert tail[n..][0] == tail[n];
    NextIsLink(fs, at, tail, hops, hops', n, n');
    ResolveLandsReal(fs, at, tail[..n'], hops');
    if Rendered(y) + tail[n..] == Rendered(z) + tail[n'..] {
      assert |z| > |y|;
      SameStart(y, z, tail[n..], tail[n'..]);
      RealAbove(fs, z, |y| + 1);
    }
  }

  lemma SameStart(y: Place, z: Place, a: Path, b: Path)
    requires Rendered(y) + a == Rendered(z) + b && |y| < |z| && a != [] && a[0].Name?
    ensures z[..|y| + 1] == y + [a[0].name]
  {
    var s := Rendered(y) + a;
    assert forall i :: 0 <= i < |y| ==> s[i] == Name(y[i]) && s[i] == Name(z[i]);
    assert s[|y|] == a[0] && s[|y|] == Name(z[|y|]);
  }

  lemma NextIsLink(fs: Tree, at: Place, tail: Path, hops: nat, hops': nat, n: nat, n': nat)
    requires n < n' <= |tail| && tail[n].Name? && hops <= hops'
    requires Resolve(fs, at, tail[..n], hops).Found? && Resolve(fs, at, tail[..n'], hops').Found?
    requires !Resolve(fs, at, tail[..n + 1], hops).Found?
    ensures var y := Resolve(fs, at, tail[..n], hops).place;
            At(fs, y + [tail[n].name]).Some? && At(fs, y + [tail[n].name]).value.Link?
  {
    var r := Resolve(fs, at, tail[..n], hops);
    var step: Path := [tail[n]];
    HopsUp(fs, at, tail[..n], hops, hops' - hops);
    assert tail[..n + 1] == tail[..n] + step && tail[..n'] == tail[..n + 1] + tail[n + 1..n'];
    ResolveInParts(fs, at, tail[..n], step, hops);
    ResolveInParts(fs, at, tail[..n], step, hops');
    ResolveInParts(fs, at, tail[..n + 1], tail[n + 1..n'], hops');
    LinkInTheWay(fs, r.place, tail[n].name, r.hops, hops' - hops);
  }

  /** And otherwise they have two. */
  lemma OtherReachOtherKey(fs: Tree, limit: nat, p: Path, q: Path, tail: Path)
    requires WellFormed(fs) && Aliases(fs, limit, p, q)
    requires NoUps(MissingTail(fs, limit, p + tail)) && NoUps(MissingTail(fs, limit, q + tail))
    requires Reached(fs, limit, p, tail) < Reached(fs, limit, q, tail)
    ensures Key(fs, limit, p + tail) != Key(fs, limit, q + tail)
  {
    KeyBelow(fs, limit, p, tail);
    KeyBelow(fs, limit, q, tail);
    ReachedIs(fs, limit, p, tail);
    var r, r' := Canonicalize(fs, limit, p), Canonicalize(fs, limit, q);
    var n, n' := Reached(fs, limit, p, tail), Reached(fs, limit, q, tail);
    ResolveLandsReal(fs, [], p, limit);
    if r.hops >= r'.hops {
      HopsUp(fs, r.place, tail[..n'], r'.hops, r.hops - r'.hops);
    }
    FurtherDiffers(fs, r.place, tail, r.hops, r'.hops, n, n');
  }

  /**
  Two spellings of one directory give one key for whatever lies below it, existing or not, if and
  only if as much of that resolves below both.
  */
  lemma AliasesShareKeyIff(fs: Tree, limit: nat, p: Path, q: Path, tail: Path)
    requires WellFormed(fs) && Aliases(fs, limit, p, q)
    requires NoUps(MissingTail(fs, limit, p + tail)) && NoUps(MissingTail(fs, limit, q + tail))
    ensures Key(fs, limit, p + tail) == Key(fs, limit, q + tail)
       <==> Reached(fs, limit, p, tail) == Reached(fs, limit, q, tail)
  {
    var n, n' := Reached(fs, limit, p, tail), Reached(fs, limit, q, tail);
    if n == n' {
      SameReachSameKey(fs, limit, p, q, tail);
    } else if n < n' {
      OtherReachOtherKey(fs, limit, p, q, tail);
    } else {
      OtherReachOtherKey(fs, limit, q, p, tail);
    }
  }

  /** Nothing below `p` runs out of links. */
  ghost predicate EnoughLinks(fs: Tree, limit: nat, p: Path, tail: Path) {
    var r := Canonicalize(fs, limit, p);
    r.Found? && forall m :: 0 <= m <= |tail| ==> !Resolve(fs, r.place, tail[..m], r.hops).TooManyLinks?
  }

  lemma ReachedAlike(fs: Tree, limit: nat, p: Path, q: Path, tail: Path)
    requires Aliases(fs, limit, p, q) && EnoughLinks(fs, limit, p, tail)
    requires Canonicalize(fs, limit, p).hops <= Canonicalize(fs, limit, q).hops
    ensures Reached(fs, limit, p, tail) == Reached(fs, limit, q, tail)
  {
    ReachedIs(fs, limit, p, tail);
    ReachedIs(fs, limit, q, tail);
    var r, r' := Canonicalize(fs, limit, p), Canonicalize(fs, limit, q);
    var n, n' := Reached(fs, limit, p, tail), Reached(fs, limit, q, tail);
    HopsUp(fs, r.place, tail[..n], r.hops, r'.hops - r.hops);
    FewerHops(fs, r.place, tail[..n'], r.hops, r'.hops - r.hops);
  }

  /** While neither spelling runs out of links, the two always give one key. */
  lemma AliasesShareKey(fs: Tree, limit: nat, p: Path, q: Path, tail: Path)
    requires Aliases(fs, limit, p, q) && EnoughLinks(fs, limit, p, tail) && EnoughLinks(fs, limit, q, tail)
    requires NoUps(MissingTail(fs, limit, p + tail)) && NoUps(MissingTail(fs, limit, q + tail))
    ensures Key(fs, limit, p + tail) == Key(fs, limit, q + tail)
  {
    if Canonicalize(fs, limit, p).hops <= Canonicalize(fs, limit, q).hops {
      ReachedAlike(fs, limit, p, q, tail);
    } else {
      ReachedAlike(fs, limit, q, p, tail);
    }
    SameReachSameKey(fs, limit, p, q, tail);
  }

  const LINKED: Tree := map[
    ["d"] := Dir, ["e"] := Dir, ["l"] := Link(true, [Name("d")]), ["d", "m"] := Link(true, [Name("e")])]

  lemma LinkedResolves()
    ensures WellFormed(LINKED)
    ensures forall hops :: Resolve(LINKED, [], [Name("d")], hops) == Found(["d"], hops)
    ensures forall hops :: Resolve(LINKED, [], [Name("e")], hops) == Found(["e"], hops)
  {
    assert ["d", "m"][..1] == ["d"];
    assert [] + ["d"] == ["d"] && [] + ["e"] == ["e"];
    forall hops: nat
      ensures Resolve(LINKED, [], [Name("d")], hops) == Found(["d"], hops)
      ensures Resolve(LINKED, [], [Name("e")], hops) == Found(["e"], hops)
    {
      StepResolves(LINKED, [], "d", hops);
      StepResolves(LINKED, [], "e", hops);
    }
  }

  /** `/l` is `/d` and `/d/m` is a link. With one link to follow, `/d/m` resolves and `/l/m` does not. */
  lemma LinkedReaches()
    ensures Canonicalize(LINKED, 1, [Name("d")]) == Found(["d"], 1)
    ensures Canonicalize(LINKED, 1, [Name("l")]) == Found(["d"], 0)
    ensures Resolve(LINKED, ["d"], [Name("m")], 1) == Found(["e"], 0)
    ensures Resolve(LINKED, ["d"], [Name("m")], 0) == TooManyLinks
  {
    LinkedResolves();
    assert [] + ["l"] == ["l"] && ["d"] + ["m"] == ["d", "m"];
    assert At(LINKED, ["l"]) == Some(Link(true, [Name("d")]));
    assert At(LINKED, ["d", "m"]) == Some(Link(true, [Name("e")]));
    var l: Path, m: Path, d: Path, e: Path := [Name("l")], [Name("m")], [Name("d")], [Name("e")];
    assert l[1..] == [] && m[1..] == [] && d + [] == d && e + [] == e;
    assert Resolve(LINKED, [], l, 1) == Resolve(LINKED, [], d + l[1..], 0);
    assert Resolve(LINKED, ["d"], m, 1) == Resolve(LINKED, [], e + m[1..], 0);
  }

  /** Where one spelling runs out of links, the two have different keys. */
  lemma AliasesPartAtTheLimit()
    ensures Aliases(LINKED, 1, [Name("d")], [Name("l")])
    ensures Key(LINKED, 1, [Name("d")] + [Name("m")]) != Key(LINKED, 1, [Name("l")] + [Name("m")])
  {
    LinkedResolves();
    LinkedReaches();
    var d: Path, l: Path, m: Path := [Name("d")], [Name("l")], [Name("m")];
    assert m[..1] == m && m[..0] == [];
    ReachedIs(LINKED, 1, d, m);
    ReachedIs(LINKED, 1, l, m);
    assert Reached(LINKED, 1, d, m) == 1 && Reached(LINKED, 1, l, m) == 0;
    assert NoUps(d + m) && NoUps(l + m);
    AliasesShareKeyIff(LINKED, 1, d, l, m);
  }
}
