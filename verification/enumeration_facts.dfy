/**
 * What `list_relative_paths` yields on a well-formed tree: every node below the pack
 * directory exactly once, with the right directory flag, and an error exactly when some
 * directory cannot be listed.
 */
module EnumerationFacts {
  import opened Wrappers
  import opened FileSystem
  import opened Enumeration

  function Paths(es: seq<Entry>): (ps: seq<Path>)
    ensures |ps| == |es|
    ensures forall i :: 0 <= i < |es| ==> ps[i] == es[i].path
  {
    seq(|es|, i requires 0 <= i < |es| => es[i].path)
  }

  /** Every entry names a node and is flagged as a directory exactly when it is one. */
  ghost predicate Faithful(fs: Fs, es: seq<Entry>) {
    forall i :: 0 <= i < |es| ==> es[i].path in fs && es[i].isDir == fs[es[i].path].Dir?
  }

  /** A directory whose listing fails. */
  ghost predicate Unlistable(fs: Fs, q: Path) {
    q in fs && fs[q] == Dir(None)
  }

  ghost predicate Healthy(fs: Fs, s: set<Path>) {
    forall q :: q in s ==> !Unlistable(fs, q)
  }

  /** The nodes strictly below any of `ds`. */
  ghost function Below(fs: Fs, ds: seq<Path>): set<Path> {
    set q | q in fs && exists j :: 0 <= j < |ds| && q in Desc(fs, ds[j])
  }

  ghost function Elems<T>(s: seq<T>): set<T> {
    set x | x in s
  }

  /** The text form of an entry: the joined path, with a trailing separator for a directory. */
  function Render(e: Entry): (s: string)
    ensures e.isDir ==> |s| > 0 && s[|s| - 1] == Separator
  {
    Join(e.path) + (if e.isDir then [Separator] else [])
  }

  // ---------------------------------------------------------------------------------------
  // Sequences

  lemma PathsConcat(a: seq<Entry>, b: seq<Entry>)
    ensures Paths(a + b) == Paths(a) + Paths(b)
  {
  }

  lemma NoDuplicatesConcat<T>(a: seq<T>, b: seq<T>)
    requires NoDuplicates(a) && NoDuplicates(b)
    requires forall i, j :: 0 <= i < |a| && 0 <= j < |b| ==> a[i] != b[j]
    ensures NoDuplicates(a + b)
  {
    forall i, j | 0 <= i < j < |a + b| ensures (a + b)[i] != (a + b)[j] {
      if j < |a| {
      } else if i >= |a| {
        assert (a + b)[i] == b[i - |a|] && (a + b)[j] == b[j - |a|];
      } else {
        assert (a + b)[j] == b[j - |a|];
      }
    }
  }

  lemma ElemsConcat<T>(a: seq<T>, b: seq<T>)
    ensures Elems(a + b) == Elems(a) + Elems(b)
  {
  }

  // ---------------------------------------------------------------------------------------
  // The shape of a well-formed tree

  /** Every prefix of a node is a node, and every proper prefix is a listable directory. */
  lemma {:induction false} Ancestor(fs: Fs, q: Path, k: nat)
    requires WellFormed(fs) && q in fs && k <= |q|
    ensures q[..k] in fs
    ensures k < |q| ==> fs[q[..k]].Dir? && fs[q[..k]].listing.Some?
    ensures k < |q| ==> q[k] in fs[q[..k]].listing.value && ValidName(q[k])
    decreases |q| - k
  {
    if k == |q| {
      assert q[..k] == q;
    } else {
      Ancestor(fs, q, k + 1);
      var c := q[..k + 1];
      assert ParentOk(fs, c);
      assert Parent(c) == q[..k];
      assert Last(c) == q[k];
    }
  }

  /** The components of every node are valid names. */
  lemma ValidComponents(fs: Fs, q: Path)
    requires WellFormed(fs) && q in fs
    ensures forall k :: 0 <= k < |q| ==> ValidName(q[k])
  {
    forall k | 0 <= k < |q| ensures ValidName(q[k]) {
      Ancestor(fs, q, k);
    }
  }

  /** The names a listable directory lists, as paths. */
  lemma ChildIndex(fs: Fs, p: Path, q: Path) returns (k: nat)
    requires WellFormed(fs) && q in fs && |q| == |p| + 1 && q[..|p|] == p
    ensures p in fs && fs[p].Dir? && fs[p].listing.Some?
    ensures k < |fs[p].listing.value| && q == p + [fs[p].listing.value[k]]
  {
    Ancestor(fs, q, |p|);
    var names := fs[p].listing.value;
    assert q[|p|] in names;
    k :| 0 <= k < |names| && names[k] == q[|p|];
    assert q == q[..|p|] + [q[|p|]];
  }

  /** The nodes below `p` are its children and the nodes below its child directories. */
  lemma DescSplit(fs: Fs, p: Path)
    requires WellFormed(fs) && ReadDir(fs, p).Some?
    ensures var names := ReadDir(fs, p).value;
      Desc(fs, p) == Elems(Paths(ChildEntries(fs, p, names))) + Below(fs, SubDirs(fs, p, names))
  {
    DescCovered(fs, p);
    ChildrenInDesc(fs, p);
    BelowInDesc(fs, p);
  }

  /** Every node below `p` is a child of `p` or lies below a child directory of `p`. */
  lemma DescCovered(fs: Fs, p: Path)
    requires WellFormed(fs) && ReadDir(fs, p).Some?
    ensures var names := ReadDir(fs, p).value;
      forall q :: q in Desc(fs, p) ==>
        q in Elems(Paths(ChildEntries(fs, p, names))) || q in Below(fs, SubDirs(fs, p, names))
  {
    var names := ReadDir(fs, p).value;
    var ces := ChildEntries(fs, p, names);
    var subs := SubDirs(fs, p, names);
    forall q | q in Desc(fs, p)
      ensures q in Elems(Paths(ces)) || q in Below(fs, subs)
    {
      var c := q[..|p| + 1];
      Ancestor(fs, q, |p| + 1);
      assert c[..|p|] == p;
      var k := ChildIndex(fs, p, c);
      if |q| == |p| + 1 {
        assert q == c;
        assert Paths(ces)[k] == q;
      } else {
        assert fs[c].Dir?;
        assert c in subs;
        var j :| 0 <= j < |subs| && subs[j] == c;
        assert q in Desc(fs, subs[j]);
      }
    }
  }

  lemma ChildrenInDesc(fs: Fs, p: Path)
    requires WellFormed(fs) && ReadDir(fs, p).Some?
    ensures Elems(Paths(ChildEntries(fs, p, ReadDir(fs, p).value))) <= Desc(fs, p)
  {
    var names := ReadDir(fs, p).value;
    var ces := ChildEntries(fs, p, names);
    forall q | q in Elems(Paths(ces)) ensures q in Desc(fs, p) {
      var i :| 0 <= i < |ces| && Paths(ces)[i] == q;
      assert q == p + [names[i]];
      assert q[..|p|] == p;
    }
  }

  lemma BelowInDesc(fs: Fs, p: Path)
    requires WellFormed(fs) && ReadDir(fs, p).Some?
    ensures Below(fs, SubDirs(fs, p, ReadDir(fs, p).value)) <= Desc(fs, p)
  {
    var subs := SubDirs(fs, p, ReadDir(fs, p).value);
    forall q | q in Below(fs, subs) ensures q in Desc(fs, p) {
      var j :| 0 <= j < |subs| && q in Desc(fs, subs[j]);
      assert q[..|p|] == q[..|subs[j]|][..|p|];
    }
  }

  lemma FaithfulConcat(fs: Fs, a: seq<Entry>, b: seq<Entry>)
    requires Faithful(fs, a) && Faithful(fs, b)
    ensures Faithful(fs, a + b)
  {
    forall i | 0 <= i < |a + b| ensures (a + b)[i].path in fs && (a + b)[i].isDir == fs[(a + b)[i].path].Dir? {
      if i >= |a| {
        assert (a + b)[i] == b[i - |a|];
      }
    }
  }

  /** Nothing below any of `ds` is unlistable, nor is any of `ds`. */
  ghost predicate AllHealthy(fs: Fs, ds: seq<Path>) {
    forall j :: 0 <= j < |ds| ==> !Unlistable(fs, ds[j]) && Healthy(fs, Desc(fs, ds[j]))
  }

  /** The children that are not subdirectories are files, which are always listable. */
  lemma HealthySplit(fs: Fs, p: Path)
    requires WellFormed(fs) && ReadDir(fs, p).Some?
    ensures Healthy(fs, Desc(fs, p)) <==> AllHealthy(fs, SubDirs(fs, p, ReadDir(fs, p).value))
  {
    if Healthy(fs, Desc(fs, p)) {
      HealthyDown(fs, p);
    }
    if AllHealthy(fs, SubDirs(fs, p, ReadDir(fs, p).value)) {
      HealthyUp(fs, p);
    }
  }

  lemma HealthyDown(fs: Fs, p: Path)
    requires WellFormed(fs) && ReadDir(fs, p).Some? && Healthy(fs, Desc(fs, p))
    ensures AllHealthy(fs, SubDirs(fs, p, ReadDir(fs, p).value))
  {
    var names := ReadDir(fs, p).value;
    var ces := ChildEntries(fs, p, names);
    var subs := SubDirs(fs, p, names);
    DescSplit(fs, p);
    forall j | 0 <= j < |subs| ensures !Unlistable(fs, subs[j]) && Healthy(fs, Desc(fs, subs[j])) {
      var k :| 0 <= k < |names| && subs[j] == p + [names[k]];
      assert Paths(ces)[k] == subs[j];
      forall q | q in Desc(fs, subs[j]) ensures q in Below(fs, subs) { }
    }
  }

  lemma HealthyUp(fs: Fs, p: Path)
    requires WellFormed(fs) && ReadDir(fs, p).Some? && AllHealthy(fs, SubDirs(fs, p, ReadDir(fs, p).value))
    ensures Healthy(fs, Desc(fs, p))
  {
    var names := ReadDir(fs, p).value;
    var ces := ChildEntries(fs, p, names);
    var subs := SubDirs(fs, p, names);
    DescCovered(fs, p);
    forall q | q in Desc(fs, p) ensures !Unlistable(fs, q) {
      if q in Elems(Paths(ces)) {
        var i :| 0 <= i < |ces| && Paths(ces)[i] == q;
        if fs[q].Dir? {
          assert q == p + [names[i]];
          assert q in subs;
        }
      } else {
        var j :| 0 <= j < |subs| && q in Desc(fs, subs[j]);
      }
    }
  }

  lemma ChildPathsDistinct(fs: Fs, p: Path, names: seq<Name>)
    requires forall k :: 0 <= k < |names| ==> p + [names[k]] in fs
    requires NoDuplicates(names)
    ensures NoDuplicates(Paths(ChildEntries(fs, p, names)))
  {
    var ps := Paths(ChildEntries(fs, p, names));
    forall i, j | 0 <= i < j < |ps| ensures ps[i] != ps[j] {
      assert ps[i][|p|] == names[i];
      assert ps[j][|p|] == names[j];
    }
  }

  /** A directory's entries followed by its subdirectories' expansion cover everything below it once. */
  lemma ListingCombine(fs: Fs, p: Path, rest: seq<Entry>)
    requires WellFormed(fs) && ReadDir(fs, p).Some?
    requires NoDuplicates(Paths(rest)) && Faithful(fs, rest)
    requires Elems(Paths(rest)) == Below(fs, SubDirs(fs, p, ReadDir(fs, p).value))
    ensures var es := ChildEntries(fs, p, ReadDir(fs, p).value) + rest;
      NoDuplicates(Paths(es)) && Elems(Paths(es)) == Desc(fs, p) && Faithful(fs, es)
  {
    var names := ReadDir(fs, p).value;
    var ces := ChildEntries(fs, p, names);
    var subs := SubDirs(fs, p, names);
    DescSplit(fs, p);
    PathsConcat(ces, rest);
    ElemsConcat(Paths(ces), Paths(rest));
    assert ChildrenOk(fs, p);
    ChildPathsDistinct(fs, p, names);
    forall i, j | 0 <= i < |ces| && 0 <= j < |rest| ensures Paths(ces)[i] != Paths(rest)[j] {
      assert Paths(rest)[j] in Elems(Paths(rest));
      var m :| 0 <= m < |subs| && Paths(rest)[j] in Desc(fs, subs[m]);
    }
    NoDuplicatesConcat(Paths(ces), Paths(rest));
    FaithfulConcat(fs, ces, rest);
  }

  /** The last sibling's expansion followed by the others' covers everything below them all once. */
  lemma SiblingsCombine(fs: Fs, ds: seq<Path>, parent: Path, a: seq<Entry>, b: seq<Entry>)
    requires NoDuplicates(ds) && |ds| > 0
    requires forall j :: 0 <= j < |ds| ==> ds[j] in fs && |ds[j]| == |parent| + 1 && ds[j][..|parent|] == parent
    requires NoDuplicates(Paths(a)) && Faithful(fs, a) && Elems(Paths(a)) == Desc(fs, ds[|ds| - 1])
    requires NoDuplicates(Paths(b)) && Faithful(fs, b) && Elems(Paths(b)) == Below(fs, ds[..|ds| - 1])
    ensures NoDuplicates(Paths(a + b)) && Faithful(fs, a + b) && Elems(Paths(a + b)) == Below(fs, ds)
  {
    var d := ds[|ds| - 1];
    var front := ds[..|ds| - 1];
    PathsConcat(a, b);
    ElemsConcat(Paths(a), Paths(b));
    forall i, j | 0 <= i < |a| && 0 <= j < |b| ensures Paths(a)[i] != Paths(b)[j] {
      var q := Paths(b)[j];
      assert q in Elems(Paths(b));
      var m :| 0 <= m < |front| && q in Desc(fs, front[m]);
      assert front[m] == ds[m];
      assert Paths(a)[i] in Elems(Paths(a));
      assert Paths(a)[i][..|parent| + 1] == d;
      assert q[..|parent| + 1] == ds[m];
    }
    NoDuplicatesConcat(Paths(a), Paths(b));
    FaithfulConcat(fs, a, b);
    forall q | q in Below(fs, ds) ensures q in Desc(fs, d) + Below(fs, front) {
      var j :| 0 <= j < |ds| && q in Desc(fs, ds[j]);
      if j < |front| {
        assert ds[j] == front[j];
      }
    }
    forall q | q in Below(fs, front) ensures q in Below(fs, ds) {
      var j :| 0 <= j < |front| && q in Desc(fs, front[j]);
      assert front[j] == ds[j];
    }
  }

  // ---------------------------------------------------------------------------------------
  // The walk

  /**
   * Expanding a directory succeeds exactly when neither it nor anything below it is
   * unlistable, and then lists every node below it once, with the right flag.
   */
  lemma {:induction false} VisitSound(fs: Fs, p: Path)
    requires WellFormed(fs) && p in fs && fs[p].Dir?
    ensures Visit(fs, p).Success? <==> !Unlistable(fs, p) && Healthy(fs, Desc(fs, p))
    ensures Visit(fs, p).Success? ==>
      var es := Visit(fs, p).value;
      NoDuplicates(Paths(es)) && Elems(Paths(es)) == Desc(fs, p) && Faithful(fs, es)
    decreases Desc(fs, p), 1
  {
    assert ChildrenOk(fs, p);
    match ReadDir(fs, p)
    case None =>
    case Some(names) =>
      var subs := SubDirs(fs, p, names);
      assert ListingPresent(fs, p, names);
      SubDirsDistinct(fs, p, names);
      VisitAllSound(fs, subs, p);
      HealthySplit(fs, p);
      var r := VisitAll(fs, subs, p);
      if r.Success? {
        ListingCombine(fs, p, r.value);
      }
  }

  lemma {:induction false} VisitAllSound(fs: Fs, ds: seq<Path>, parent: Path)
    requires WellFormed(fs) && NoDuplicates(ds)
    requires forall j :: 0 <= j < |ds| ==> ds[j] in fs && fs[ds[j]].Dir? && |ds[j]| == |parent| + 1 && ds[j][..|parent|] == parent
    ensures VisitAll(fs, ds, parent).Success? <==> AllHealthy(fs, ds)
    ensures VisitAll(fs, ds, parent).Success? ==>
      var es := VisitAll(fs, ds, parent).value;
      NoDuplicates(Paths(es)) && Elems(Paths(es)) == Below(fs, ds) && Faithful(fs, es)
    decreases Desc(fs, parent), 0, |ds|
  {
    if |ds| == 0 {
      assert Below(fs, ds) == {};
    } else {
      var d := ds[|ds| - 1];
      var front := ds[..|ds| - 1];
      DescShrinks(fs, parent, d);
      VisitSound(fs, d);
      VisitAllSound(fs, front, parent);
      assert AllHealthy(fs, ds) <==> (!Unlistable(fs, d) && Healthy(fs, Desc(fs, d))) && AllHealthy(fs, front) by {
        assert forall j :: 0 <= j < |front| ==> front[j] == ds[j];
      }
      var a := Visit(fs, d);
      var b := VisitAll(fs, front, parent);
      if a.Success? && b.Success? {
        SiblingsCombine(fs, ds, parent, a.value, b.value);
      }
    }
  }

  lemma {:induction false} SubDirsDistinct(fs: Fs, p: Path, names: seq<Name>)
    requires forall k :: 0 <= k < |names| ==> p + [names[k]] in fs
    requires NoDuplicates(names)
    ensures NoDuplicates(SubDirs(fs, p, names))
    decreases |names|
  {
    if |names| > 0 {
      var front := names[..|names| - 1];
      var last := p + [names[|names| - 1]];
      SubDirsDistinct(fs, p, front);
      var fds := SubDirs(fs, p, front);
      forall j | 0 <= j < |fds| ensures fds[j] != last {
        var k :| 0 <= k < |front| && fds[j] == p + [front[k]];
        assert fds[j][|p|] == front[k] == names[k];
        assert last[|p|] == names[|names| - 1];
      }
      if fs[last].Dir? {
        NoDuplicatesConcat(fds, [last]);
      }
    }
  }

  // ---------------------------------------------------------------------------------------
  // The whole pack directory

  /**
   * On a well-formed tree, listing fails exactly when some directory is unlistable; when it
   * succeeds, every node except the pack directory itself is listed exactly once, flagged as
   * a directory exactly when it is one.
   */
  lemma EnumerateSound(fs: Fs)
    requires WellFormed(fs)
    ensures Enumerate(fs).Success? <==> forall q :: q in fs ==> fs[q] != Dir(None)
    ensures Enumerate(fs).Success? ==>
      var es := Enumerate(fs).value;
      && NoDuplicates(Paths(es))
      && (forall q :: q in Paths(es) <==> q in fs && q != [])
      && Faithful(fs, es)
  {
    VisitSound(fs, []);
    assert (forall q :: q in fs ==> fs[q] != Dir(None)) <==> !Unlistable(fs, []) && Healthy(fs, Desc(fs, [])) by {
      forall q | q in fs && q != [] ensures q in Desc(fs, []) {
        assert q[..0] == [];
      }
    }
    assert Desc(fs, []) == fs.Keys - {[]} by {
      forall q | q in fs && q != [] ensures q in Desc(fs, []) {
        assert q[..0] == [];
      }
    }
    if Enumerate(fs).Success? {
      var es := Enumerate(fs).value;
      forall q ensures q in Paths(es) <==> q in fs && q != [] {
        assert q in Paths(es) <==> q in Elems(Paths(es));
      }
    }
  }

  /** Each rendered entry designates its node again (the separator ends directory entries only). */
  lemma ResolveRender(fs: Fs, e: Entry)
    requires WellFormed(fs) && e.path in fs && e.path != []
    ensures Resolve(Render(e)) == Some(e.path)
  {
    ValidComponents(fs, e.path);
    ResolveJoin(e.path, e.isDir);
  }
}
