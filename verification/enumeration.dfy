/**
 * `list_relative_paths`: every path below the pack directory, directories marked, in the
 * order an explicit last-in-first-out work list visits them.
 */
module Enumeration {
  import opened Wrappers
  import opened FileSystem

  /** One enumerated path; `isDir` entries are shown with a trailing separator. */
  datatype Entry = Entry(path: Path, isDir: bool)

  /** A failed directory listing (`read_dir`, or an entry of it, returned an error). */
  datatype FsError = ReadError

  /** `read_dir`: a directory's entries in listing order, or `None` when it cannot be listed. */
  function ReadDir(fs: Fs, p: Path): (r: Option<seq<Name>>)
    ensures r.Some? <==> (p in fs && fs[p].Dir? && fs[p].listing.Some?
                          && forall k :: 0 <= k < |fs[p].listing.value| ==> p + [fs[p].listing.value[k]] in fs)
    ensures r.Some? ==> r.value == fs[p].listing.value
  {
    if p in fs && fs[p].Dir? && fs[p].listing.Some?
       && forall k :: 0 <= k < |fs[p].listing.value| ==> p + [fs[p].listing.value[k]] in fs
    then Some(fs[p].listing.value)
    else None
  }

  /** The entry for each listed name, in listing order. */
  function ChildEntries(fs: Fs, p: Path, names: seq<Name>): (es: seq<Entry>)
    requires forall k :: 0 <= k < |names| ==> p + [names[k]] in fs
    ensures |es| == |names|
    ensures forall k :: 0 <= k < |names| ==> es[k] == Entry(p + [names[k]], fs[p + [names[k]]].Dir?)
  {
    if |names| == 0 then []
    else
      var last := p + [names[|names| - 1]];
      ChildEntries(fs, p, names[..|names| - 1]) + [Entry(last, fs[last].Dir?)]
  }

  /** The listed names that are directories, as paths, in listing order (the pushes onto the work list). */
  function SubDirs(fs: Fs, p: Path, names: seq<Name>): (ds: seq<Path>)
    requires forall k :: 0 <= k < |names| ==> p + [names[k]] in fs
    ensures forall j :: 0 <= j < |ds| ==> ds[j] in fs && fs[ds[j]].Dir? && |ds[j]| == |p| + 1 && ds[j][..|p|] == p
    ensures forall j :: 0 <= j < |ds| ==> exists k :: 0 <= k < |names| && ds[j] == p + [names[k]]
    ensures forall k :: 0 <= k < |names| && fs[p + [names[k]]].Dir? ==> p + [names[k]] in ds
  {
    if |names| == 0 then []
    else
      var last := p + [names[|names| - 1]];
      var front := SubDirs(fs, p, names[..|names| - 1]);
      assert forall k :: 0 <= k < |names| - 1 ==> names[..|names| - 1][k] == names[k];
      if fs[last].Dir? then front + [last] else front
  }

  /** The nodes strictly below `p`. */
  ghost function Desc(fs: Fs, p: Path): set<Path> {
    set q | q in fs && |p| < |q| && q[..|p|] == p
  }

  /** A child has fewer nodes below it than its parent: the measure that ends the walk. */
  lemma DescShrinks(fs: Fs, p: Path, d: Path)
    requires d in fs && |d| == |p| + 1 && d[..|p|] == p
    ensures Desc(fs, d) < Desc(fs, p)
  {
    assert d in Desc(fs, p);
    forall q | q in Desc(fs, d) ensures q in Desc(fs, p) {
      assert q[..|p|] == q[..|d|][..|p|];
    }
  }

  /** Sequencing of two listing results: the first failure wins, else the outputs concatenate. */
  function Then(a: Result<seq<Entry>, FsError>, b: Result<seq<Entry>, FsError>): Result<seq<Entry>, FsError> {
    match a
    case Failure(e) => Failure(e)
    case Success(x) =>
      match b
      case Failure(e) => Failure(e)
      case Success(y) => Success(x + y)
  }

  lemma ThenAssoc(a: Result<seq<Entry>, FsError>, b: Result<seq<Entry>, FsError>, c: Result<seq<Entry>, FsError>)
    ensures Then(Then(a, b), c) == Then(a, Then(b, c))
  {
    if a.Success? && b.Success? && c.Success? {
      assert (a.value + b.value) + c.value == a.value + (b.value + c.value);
    }
  }

  /**
   * What popping directory `p` off the work list contributes, up to the moment everything
   * pushed while expanding it has been popped: its entries, then the expansion of its
   * subdirectories, last pushed first.
   */
  function Visit(fs: Fs, p: Path): Result<seq<Entry>, FsError>
    requires p in fs
    decreases Desc(fs, p), 1
  {
    match ReadDir(fs, p)
    case None => Failure(ReadError)
    case Some(names) => Then(Success(ChildEntries(fs, p, names)), VisitAll(fs, SubDirs(fs, p, names), p))
  }

  /** The expansion of sibling directories `ds` of `parent`, from the last one back to the first. */
  function VisitAll(fs: Fs, ds: seq<Path>, parent: Path): Result<seq<Entry>, FsError>
    requires forall j :: 0 <= j < |ds| ==> ds[j] in fs && |ds[j]| == |parent| + 1 && ds[j][..|parent|] == parent
    decreases Desc(fs, parent), 0, |ds|
  {
    if |ds| == 0 then Success([])
    else
      var d := ds[|ds| - 1];
      DescShrinks(fs, parent, d);
      Then(Visit(fs, d), VisitAll(fs, ds[..|ds| - 1], parent))
  }

  /** The reference listing of the whole pack directory; the root itself is not an entry. */
  function Enumerate(fs: Fs): Result<seq<Entry>, FsError> {
    if [] in fs then Visit(fs, []) else Failure(ReadError)
  }

  /** What a work list (top at the end) still has to produce. */
  function VisitStack(fs: Fs, stack: seq<Path>): Result<seq<Entry>, FsError>
    requires forall j :: 0 <= j < |stack| ==> stack[j] in fs
    decreases |stack|
  {
    if |stack| == 0 then Success([])
    else Then(Visit(fs, stack[|stack| - 1]), VisitStack(fs, stack[..|stack| - 1]))
  }

  lemma {:induction false} VisitStackConcat(fs: Fs, a: seq<Path>, b: seq<Path>)
    requires forall j :: 0 <= j < |a| ==> a[j] in fs
    requires forall j :: 0 <= j < |b| ==> b[j] in fs
    ensures VisitStack(fs, a + b) == Then(VisitStack(fs, b), VisitStack(fs, a))
    decreases |b|
  {
    if |b| == 0 {
      assert a + b == a;
      var r := VisitStack(fs, a);
      if r.Success? {
        assert [] + r.value == r.value;
      }
    } else {
      var bl := b[|b| - 1];
      var bf := b[..|b| - 1];
      assert a + b == (a + bf) + [bl];
      assert (a + b)[..|a + b| - 1] == a + bf;
      VisitStackConcat(fs, a, bf);
      ThenAssoc(Visit(fs, bl), VisitStack(fs, bf), VisitStack(fs, a));
    }
  }

  lemma {:induction false} VisitAllIsVisitStack(fs: Fs, ds: seq<Path>, parent: Path)
    requires forall j :: 0 <= j < |ds| ==> ds[j] in fs && |ds[j]| == |parent| + 1 && ds[j][..|parent|] == parent
    ensures VisitAll(fs, ds, parent) == VisitStack(fs, ds)
    decreases |ds|
  {
    if |ds| > 0 {
      VisitAllIsVisitStack(fs, ds[..|ds| - 1], parent);
    }
  }

  /** Directories still to be popped, counting every directory an expansion will push. */
  ghost function Work(fs: Fs, p: Path): nat
    requires p in fs
    decreases Desc(fs, p), 1
  {
    match ReadDir(fs, p)
    case None => 1
    case Some(names) => 1 + WorkAll(fs, SubDirs(fs, p, names), p)
  }

  ghost function WorkAll(fs: Fs, ds: seq<Path>, parent: Path): nat
    requires forall j :: 0 <= j < |ds| ==> ds[j] in fs && |ds[j]| == |parent| + 1 && ds[j][..|parent|] == parent
    decreases Desc(fs, parent), 0, |ds|
  {
    if |ds| == 0 then 0
    else
      var d := ds[|ds| - 1];
      DescShrinks(fs, parent, d);
      Work(fs, d) + WorkAll(fs, ds[..|ds| - 1], parent)
  }

  ghost function StackWork(fs: Fs, stack: seq<Path>): nat
    requires forall j :: 0 <= j < |stack| ==> stack[j] in fs
    decreases |stack|
  {
    if |stack| == 0 then 0 else Work(fs, stack[|stack| - 1]) + StackWork(fs, stack[..|stack| - 1])
  }

  lemma {:induction false} StackWorkConcat(fs: Fs, a: seq<Path>, b: seq<Path>)
    requires forall j :: 0 <= j < |a| ==> a[j] in fs
    requires forall j :: 0 <= j < |b| ==> b[j] in fs
    ensures StackWork(fs, a + b) == StackWork(fs, a) + StackWork(fs, b)
    decreases |b|
  {
    if |b| == 0 {
      assert a + b == a;
    } else {
      assert (a + b)[..|a + b| - 1] == a + b[..|b| - 1];
      StackWorkConcat(fs, a, b[..|b| - 1]);
    }
  }

  lemma {:induction false} WorkAllIsStackWork(fs: Fs, ds: seq<Path>, parent: Path)
    requires forall j :: 0 <= j < |ds| ==> ds[j] in fs && |ds[j]| == |parent| + 1 && ds[j][..|parent|] == parent
    ensures WorkAll(fs, ds, parent) == StackWork(fs, ds)
    decreases |ds|
  {
    if |ds| > 0 {
      WorkAllIsStackWork(fs, ds[..|ds| - 1], parent);
    }
  }

  lemma ThenUnit(a: Result<seq<Entry>, FsError>)
    ensures Then(a, Success([])) == a
    ensures Then(Success([]), a) == a
  {
    if a.Success? {
      assert a.value + [] == a.value;
      assert [] + a.value == a.value;
    }
  }

  /** Popping a listable directory and pushing its subdirectories keeps the outstanding output and shrinks the work. */
  lemma ExpandStep(fs: Fs, entries: seq<Entry>, front: seq<Path>, p: Path)
    requires forall j :: 0 <= j < |front| ==> front[j] in fs
    requires p in fs && ReadDir(fs, p).Some?
    ensures var names := ReadDir(fs, p).value;
      var subs := SubDirs(fs, p, names);
      && Then(Success(entries + ChildEntries(fs, p, names)), VisitStack(fs, front + subs))
         == Then(Success(entries), VisitStack(fs, front + [p]))
      && StackWork(fs, front + subs) < StackWork(fs, front + [p])
  {
    var names := ReadDir(fs, p).value;
    var subs := SubDirs(fs, p, names);
    var ces := ChildEntries(fs, p, names);
    calc {
      Then(Success(entries), VisitStack(fs, front + [p]));
      { VisitStackConcat(fs, front, [p]); }
      Then(Success(entries), Then(VisitStack(fs, [p]), VisitStack(fs, front)));
      { assert VisitStack(fs, [p]) == Then(Visit(fs, p), Success([]));
        ThenUnit(Visit(fs, p)); }
      Then(Success(entries), Then(Then(Success(ces), VisitAll(fs, subs, p)), VisitStack(fs, front)));
      { VisitAllIsVisitStack(fs, subs, p);
        ThenAssoc(Success(ces), VisitStack(fs, subs), VisitStack(fs, front));
        ThenAssoc(Success(entries), Success(ces), Then(VisitStack(fs, subs), VisitStack(fs, front))); }
      Then(Success(entries + ces), Then(VisitStack(fs, subs), VisitStack(fs, front)));
      { VisitStackConcat(fs, front, subs); }
      Then(Success(entries + ces), VisitStack(fs, front + subs));
    }
    StackWorkConcat(fs, front, subs);
    StackWorkConcat(fs, front, [p]);
    WorkAllIsStackWork(fs, subs, p);
    assert StackWork(fs, [p]) == Work(fs, p);
  }

  /** Listing one more name appends at most one push and exactly one entry. */
  lemma ListingSnoc(fs: Fs, p: Path, names: seq<Name>, k: nat)
    requires k < |names|
    requires forall j :: 0 <= j < |names| ==> p + [names[j]] in fs
    ensures var c := p + [names[k]];
      && SubDirs(fs, p, names[..k + 1]) == SubDirs(fs, p, names[..k]) + (if fs[c].Dir? then [c] else [])
      && ChildEntries(fs, p, names[..k + 1]) == ChildEntries(fs, p, names[..k]) + [Entry(c, fs[c].Dir?)]
  {
    var pre := names[..k + 1];
    assert pre[..|pre| - 1] == names[..k];
    assert pre[|pre| - 1] == names[k];
    if !fs[p + [names[k]]].Dir? {
      assert SubDirs(fs, p, names[..k]) + [] == SubDirs(fs, p, names[..k]);
    }
  }

  /** One directory's turn: every listed name becomes an entry, and every subdirectory is pushed. */
  method ListChildren(fs: Fs, p: Path, names: seq<Name>) returns (es: seq<Entry>, ds: seq<Path>)
    requires forall j :: 0 <= j < |names| ==> p + [names[j]] in fs
    ensures es == ChildEntries(fs, p, names)
    ensures ds == SubDirs(fs, p, names)
  {
    es, ds := [], [];
    var k := 0;
    while k < |names|
      invariant 0 <= k <= |names|
      invariant ds == SubDirs(fs, p, names[..k])
      invariant es == ChildEntries(fs, p, names[..k])
    {
      var child := p + [names[k]];
      ListingSnoc(fs, p, names, k);
      if fs[child].Dir? {
        ds := ds + [child];
        es := es + [Entry(child, true)];
      } else {
        es := es + [Entry(child, false)];
      }
      k := k + 1;
    }
    assert names[..|names|] == names;
  }

  /**
   * `list_relative_paths`: pops a directory off the work list, lists it, records every
   * entry (directories marked) and pushes every subdirectory, until the list is empty.
   * Any listing error discards what was collected.
   */
  method ListRelativePaths(fs: Fs) returns (r: Result<seq<Entry>, FsError>)
    ensures r == Enumerate(fs)
  {
    if [] !in fs {
      return Failure(ReadError);
    }
    var entries: seq<Entry> := [];
    var stack: seq<Path> := [[]];
    assert VisitStack(fs, stack) == Then(Visit(fs, []), Success([]));
    ThenUnit(Visit(fs, []));
    while |stack| > 0
      invariant forall j :: 0 <= j < |stack| ==> stack[j] in fs
      invariant Then(Success(entries), VisitStack(fs, stack)) == Enumerate(fs)
      decreases StackWork(fs, stack)
    {
      var p := stack[|stack| - 1];
      stack := stack[..|stack| - 1];
      var listing := ReadDir(fs, p);
      if listing.None? {
        return Failure(ReadError);
      }
      var names := listing.value;
      var es, ds := ListChildren(fs, p, names);
      ExpandStep(fs, entries, stack, p);
      entries := entries + es;
      stack := stack + ds;
    }
    assert VisitStack(fs, stack) == Success([]);
    assert entries + [] == entries;
    return Success(entries);
  }
}
