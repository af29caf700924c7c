/**
Repository identity from the commit graph (`repo_identity.rs`).  A repository is its commit
objects, its HEAD and its shallow boundary; the library's revision walk is given as the sequence
of commits it yields, in any order.
*/
module RepoIdentity {
  import opened Options
  import opened Bytes

  /** `.git/shallow`, sorted, as the library reports it. */
  datatype Shallow = NotShallow | Boundary(commits: seq<Text>) | Unreadable

  /** Each commit object present, with the parents written in it. */
  datatype Repo = Repo(parents: map<Text, seq<Text>>, head: Text, shallow: Shallow)

  datatype Discovery = NotARepository | UnbornHead | Found(repo: Repo)

  datatype Identity = Portable(id: Text) | LocalOnly(id: Text, boundary: seq<Text>)

  datatype Derived = Derived(identity: Identity) | Absent | Rejected

  // ---------------------------------------------------------------------------------------------
  // Reachability

  predicate OnBoundary(r: Repo, c: Text) {
    r.shallow.Boundary? && c in r.shallow.commits
  }

  /** A parent edge the walk follows: history is cut below the shallow boundary. */
  predicate Edge(r: Repo, c: Text, p: Text) {
    c in r.parents && !OnBoundary(r, c) && p in r.parents[c]
  }

  ghost predicate Path(r: Repo, from: Text, to: Text, path: seq<Text>) {
    && path != [] && path[0] == from && path[|path| - 1] == to
    && forall i :: 0 <= i < |path| - 1 ==> Edge(r, path[i], path[i + 1])
  }

  ghost predicate Reaches(r: Repo, from: Text, to: Text) {
    exists path :: Path(r, from, to, path)
  }

  lemma ReachesTransitive(r: Repo, a: Text, b: Text, c: Text)
    requires Reaches(r, a, b) && Reaches(r, b, c)
    ensures Reaches(r, a, c)
  {
    var p :| Path(r, a, b, p);
    var q :| Path(r, b, c, q);
    var pq := p + q[1..];
    forall i | 0 <= i < |pq| - 1
      ensures Edge(r, pq[i], pq[i + 1])
    {
      if i < |p| - 1 {
        assert Edge(r, p[i], p[i + 1]);
      } else {
        assert Edge(r, q[i - (|p| - 1)], q[i - (|p| - 1) + 1]);
      }
    }
    assert Path(r, a, c, pq);
  }

  /** Every edge of `r` is one of `r'`: a deeper or longer history of the same commits. */
  ghost predicate EdgesKept(r: Repo, r': Repo) {
    forall c, p :: Edge(r, c, p) ==> Edge(r', c, p)
  }

  lemma ReachesKept(r: Repo, r': Repo, a: Text, b: Text)
    requires EdgesKept(r, r') && Reaches(r, a, b)
    ensures Reaches(r', a, b)
  {
    var p :| Path(r, a, b, p);
    assert Path(r', a, b, p);
  }

  /** The commits a walk from HEAD yields, whatever its order. */
  ghost predicate IsWalk(r: Repo, walk: seq<Text>) {
    forall c :: c in walk <==> Reaches(r, r.head, c)
  }

  // ---------------------------------------------------------------------------------------------
  // The portable id: the least root

  predicate Parentless(r: Repo, c: Text) {
    c in r.parents && r.parents[c] == []
  }

  ghost predicate Root(r: Repo, c: Text) {
    Parentless(r, c) && Reaches(r, r.head, c)
  }

  ghost predicate LeastRoot(r: Repo, id: Text) {
    Root(r, id) && forall c :: Root(r, c) ==> !Less(c, id)
  }

  /** There is at most one least root, so no walk order can change the id. */
  lemma LeastRootUnique(r: Repo, a: Text, b: Text)
    requires LeastRoot(r, a) && LeastRoot(r, b)
    ensures a == b
  {
    LessTotal(a, b);
  }

  // ---------------------------------------------------------------------------------------------
  // The derivation as written

  function Itself(t: Text): Text {
    t
  }

  /** The bytes hashed for a machine-local id: each boundary hash followed by a newline. */
  function Material(hashes: seq<Text>): Text {
    if hashes == [] then [] else hashes[0] + [10] + Material(hashes[1..])
  }

  /** `local:` in ASCII. */
  const LOCAL_ONLY_ID_PREFIX: Text := [108, 111, 99, 97, 108, 58]

  method LocalOnlyId(sha: Text -> Text, hashes: seq<Text>) returns (id: Text)
    ensures id == LOCAL_ONLY_ID_PREFIX + sha(Material(hashes))
  {
    var material: Text := [];
    for i := 0 to |hashes|
      invariant material + Material(hashes[i..]) == Material(hashes)
    {
      assert hashes[i..][1..] == hashes[i + 1..];
      material := material + hashes[i] + [10];
    }
    assert material + [] == material;
    id := LOCAL_ONLY_ID_PREFIX + sha(material);
  }

  /**
  The id of a repository.  `walk` is `None` when the walk fails; a commit it names that cannot be
  read fails too.
  */
  method DeriveRepoId(sha: Text -> Text, d: Discovery, walk: Option<seq<Text>>) returns (r: Derived)
    requires d.Found? && walk.Some? ==> IsWalk(d.repo, walk.value)
    ensures !d.Found? ==> r == Absent
    ensures d.Found? && (walk.None? || exists c :: c in walk.value && c !in d.repo.parents) ==> r == Rejected
    ensures d.Found? && walk.Some? && (forall c :: c in walk.value ==> c in d.repo.parents) ==>
              if exists c :: Root(d.repo, c)
              then r.Derived? && r.identity.Portable? && LeastRoot(d.repo, r.identity.id)
              else if d.repo.shallow.Boundary? then
                var hashes := d.repo.shallow.commits;
                r == Derived(LocalOnly(LOCAL_ONLY_ID_PREFIX + sha(Material(hashes)), hashes))
              else r == Rejected
  {
    if !d.Found? {
      return Absent;
    }
    if walk.None? {
      return Rejected;
    }
    var repo, commits := d.repo, walk.value;
    var roots: seq<Text> := [];
    for i := 0 to |commits|
      invariant forall k :: 0 <= k < i ==> commits[k] in repo.parents
      invariant forall c :: c in roots <==> c in commits[..i] && Parentless(repo, c)
    {
      if commits[i] !in repo.parents {
        return Rejected;
      }
      if repo.parents[commits[i]] == [] {
        roots := roots + [commits[i]];
      }
      assert commits[..i + 1] == commits[..i] + [commits[i]];
    }
    assert commits[..|commits|] == commits;
    assert forall c :: c in roots <==> Root(repo, c);
    var sorted := Sort(Itself, roots);
    SortMembers(Itself, roots);
    SortSorted(Itself, roots);
    if sorted != [] {
      FirstIsLeast(sorted);
      assert sorted[0] in roots;
      return Derived(Portable(sorted[0]));
    }
    assert forall c :: Root(repo, c) ==> c in sorted;
    if repo.shallow.Boundary? {
      var id := LocalOnlyId(sha, repo.shallow.commits);
      return Derived(LocalOnly(id, repo.shallow.commits));
    }
    return Rejected;
  }

  lemma FirstIsLeast(sorted: seq<Text>)
    requires sorted != [] && Sorted(Itself, sorted)
    ensures forall c :: c in sorted ==> !Less(c, sorted[0])
  {
    LessIrreflexive(sorted[0]);
    forall c | c in sorted
      ensures !Less(c, sorted[0])
    {
      var j :| 0 <= j < |sorted| && sorted[j] == c;
      assert j > 0 ==> !Less(Itself(sorted[j]), Itself(sorted[0]));
    }
  }

  /** Whether every boundary commit is an ancestor of HEAD; an empty boundary proves nothing. */
  method BoundaryReachableFromHead(r: Repo, walk: seq<Text>, boundary: seq<Text>) returns (proved: bool)
    requires IsWalk(r, walk)
    ensures proved <==> boundary != [] && forall b :: b in boundary ==> Reaches(r, r.head, b)
  {
    if boundary == [] {
      return false;
    }
    var needed := set b | b in boundary;
    for i := 0 to |walk|
      invariant needed == set b | b in boundary && b !in walk[..i]
    {
      needed := needed - {walk[i]};
      assert walk[..i + 1] == walk[..i] + [walk[i]];
      if needed == {} {
        forall b | b in boundary
          ensures b in walk
        {
          assert b !in needed;
          assert b in walk[..i + 1];
        }
        return true;
      }
    }
    assert walk[..|walk|] == walk;
    proved := needed == {};
    if proved {
      forall b | b in boundary
        ensures b in walk
      {
        assert b !in needed;
      }
    } else {
      var b :| b in needed;
      assert !Reaches(r, r.head, b);
    }
  }

  // ---------------------------------------------------------------------------------------------
  // Stability

  /** `r'` has every commit of `r` unchanged. */
  ghost predicate SameCommits(r: Repo, r': Repo) {
    forall c :: c in r.parents ==> c in r'.parents && r'.parents[c] == r.parents[c]
  }

  /**
  A shallow clone that covers all ancestors of HEAD (nothing below its boundary) has exactly the
  roots of the complete repository, and so its id.
  */
  lemma CoveringShallowCloneSameId(full: Repo, clone: Repo, id: Text)
    requires !full.shallow.Boundary? && full.head == clone.head
    requires forall c :: Reaches(full, full.head, c) ==> c in full.parents && c in clone.parents
    requires SameCommits(clone, full)
    requires forall c :: c in full.parents && OnBoundary(clone, c) ==> full.parents[c] == []
    ensures LeastRoot(full, id) <==> LeastRoot(clone, id)
  {
    assert EdgesKept(clone, full);
    forall c
      ensures Root(full, c) <==> Root(clone, c)
    {
      if Reaches(clone, clone.head, c) { ReachesKept(clone, full, clone.head, c); }
      if Reaches(full, full.head, c) { PathStaysInClone(full, clone, c); }
    }
  }

  lemma PathStaysInClone(full: Repo, clone: Repo, c: Text)
    requires !full.shallow.Boundary? && full.head == clone.head
    requires forall c :: Reaches(full, full.head, c) ==> c in full.parents && c in clone.parents
    requires SameCommits(clone, full)
    requires forall c :: c in full.parents && OnBoundary(clone, c) ==> full.parents[c] == []
    requires Reaches(full, full.head, c)
    ensures Reaches(clone, clone.head, c)
  {
    var p :| Path(full, full.head, c, p);
    forall i | 0 <= i < |p| - 1
      ensures Edge(clone, p[i], p[i + 1])
    {
      assert Path(full, full.head, p[i], p[..i + 1]);
      assert Edge(full, p[i], p[i + 1]);
    }
    assert Path(clone, clone.head, c, p);
  }

  /** `r'` continues `r`: the same commits and edges, and a HEAD that has the old one behind it. */
  ghost predicate Continues(r: Repo, r': Repo) {
    SameCommits(r, r') && EdgesKept(r, r') && Reaches(r', r'.head, r.head)
  }

  lemma RootsKept(r: Repo, r': Repo, c: Text)
    requires Continues(r, r') && Root(r, c)
    ensures Root(r', c)
  {
    ReachesKept(r, r', r.head, c);
    ReachesTransitive(r', r'.head, r.head, c);
  }

  /** When HEAD advances the id stays exactly while no smaller new root comes into reach. */
  lemma IdKeptIffNoSmallerNewRoot(r: Repo, r': Repo, id: Text)
    requires Continues(r, r') && LeastRoot(r, id)
    ensures LeastRoot(r', id) <==> forall c :: Root(r', c) && !Root(r, c) ==> !Less(c, id)
  {
    RootsKept(r, r', id);
  }

  /** A proved boundary stays proved when the clone is deepened or HEAD advances. */
  lemma BoundaryStaysReachable(r: Repo, r': Repo, boundary: seq<Text>)
    requires Continues(r, r')
    requires boundary != [] && forall b :: b in boundary ==> Reaches(r, r.head, b)
    ensures forall b :: b in boundary ==> Reaches(r', r'.head, b)
  {
    forall b | b in boundary
      ensures Reaches(r', r'.head, b)
    {
      ReachesKept(r, r', r.head, b);
      ReachesTransitive(r', r'.head, r.head, b);
    }
  }

  // ---------------------------------------------------------------------------------------------
  // The machine-local id tells boundaries apart

  ghost predicate NewlineFree(t: Text) {
    forall i :: 0 <= i < |t| ==> t[i] != 10
  }

  /** Where the first newline stands, or the length if there is none. */
  function LineLength(s: Text): nat {
    if s == [] || s[0] == 10 then 0 else 1 + LineLength(s[1..])
  }

  lemma {:induction false} LineLengthOf(a: Text, x: Text)
    requires NewlineFree(a)
    ensures LineLength(a + [10] + x) == |a|
  {
    var s := a + [10] + x;
    if a != [] {
      assert s[1..] == a[1..] + [10] + x;
      LineLengthOf(a[1..], x);
    }
  }

  /** The lines of a text that ends each with a newline. */
  function Lines(s: Text): seq<Text> {
    if LineLength(s) >= |s| then [] else [s[..LineLength(s)]] + Lines(s[LineLength(s) + 1..])
  }

  ghost predicate AllNewlineFree(hashes: seq<Text>) {
    forall i :: 0 <= i < |hashes| ==> NewlineFree(hashes[i])
  }

  /** What is hashed reads back as the boundary, one commit a line. */
  lemma {:induction false} LinesOfMaterial(hashes: seq<Text>)
    requires AllNewlineFree(hashes)
    ensures Lines(Material(hashes)) == hashes
  {
    if hashes != [] {
      var line, rest := hashes[0], Material(hashes[1..]);
      LineLengthOf(line, rest);
      LinesOfMaterial(hashes[1..]);
      var s := line + [10] + rest;
      assert s[..|line|] == line && s[|line| + 1..] == rest;
      assert hashes == [line] + hashes[1..];
    }
  }

  /** Different boundaries hash different bytes: a deeper clone gets another local id. */
  lemma MaterialInjective(a: seq<Text>, b: seq<Text>)
    requires AllNewlineFree(a) && AllNewlineFree(b)
    requires Material(a) == Material(b)
    ensures a == b
  {
    LinesOfMaterial(a);
    LinesOfMaterial(b);
  }
}
