/**
 * The pack directory as an in-memory map from relative path to node.  A directory node
 * records the order in which listing it returns its entries, or `None` when it cannot be
 * listed (a read error).  Only the pack directory and what lies below it are modelled.
 */
module FileSystem {
  import opened Wrappers
  import opened Bytes

  type Name = string

  /** A path relative to the pack directory, as its components; `[]` is the pack directory. */
  type Path = seq<Name>

  datatype Node = File(data: seq<byte>) | Dir(listing: Option<seq<Name>>)

  type Fs = map<Path, Node>

  /** The path separator of the build that is modelled (`MAIN_SEPARATOR` on Unix). */
  const Separator: char := '/'

  /** A name the operating system can give a directory entry. */
  predicate ValidName(n: Name) {
    |n| > 0 && Separator !in n && n != "." && n != ".."
  }

  function Parent(p: Path): Path
    requires |p| > 0
  {
    p[..|p| - 1]
  }

  function Last(p: Path): Name
    requires |p| > 0
  {
    p[|p| - 1]
  }

  predicate NoDuplicates<T(==)>(s: seq<T>) {
    forall i, j :: 0 <= i < j < |s| ==> s[i] != s[j]
  }

  /** `p` is entered in its parent's listing, under a valid name. */
  ghost predicate Listed(fs: Fs, p: Path)
    requires |p| > 0
  {
    && Parent(p) in fs
    && fs[Parent(p)].Dir?
    && fs[Parent(p)].listing.Some?
    && Last(p) in fs[Parent(p)].listing.value
    && ValidName(Last(p))
  }

  /** Every name of a listing is distinct and has a node. */
  ghost predicate ListingPresent(fs: Fs, p: Path, names: seq<Name>) {
    && NoDuplicates(names)
    && forall k :: 0 <= k < |names| ==> p + [names[k]] in fs
  }

  /** A non-root path is entered in its parent's listing. */
  ghost predicate ParentOk(fs: Fs, p: Path) {
    p != [] ==> Listed(fs, p)
  }

  /** A listable directory's listing names existing nodes, each once. */
  ghost predicate ChildrenOk(fs: Fs, p: Path) {
    p in fs && fs[p].Dir? && fs[p].listing.Some? ==> ListingPresent(fs, p, fs[p].listing.value)
  }

  /** A tree: the root is a directory, and the listings and the map agree. */
  ghost predicate WellFormed(fs: Fs) {
    && [] in fs
    && fs[[]].Dir?
    && (forall p {:trigger ParentOk(fs, p)} :: p in fs ==> ParentOk(fs, p))
    && (forall p {:trigger ChildrenOk(fs, p)} :: ChildrenOk(fs, p))
  }

  /** `Path::is_dir`: the path exists and is a directory. */
  function IsDir(fs: Fs, p: Option<Path>): bool {
    p.Some? && p.value in fs && fs[p.value].Dir?
  }

  /** `std::fs::read`: the bytes of a file, or `None` when the path is not a readable file. */
  function Read(fs: Fs, p: Option<Path>): (r: Option<seq<byte>>)
    ensures r.Some? <==> p.Some? && p.value in fs && fs[p.value].File?
    ensures r.Some? ==> r.value == fs[p.value].data
  {
    if p.Some? && p.value in fs && fs[p.value].File? then Some(fs[p.value].data) else None
  }

  /** A file can be created at `q`: its parent is a listable directory and its last name is valid. */
  predicate Creatable(fs: Fs, q: Path) {
    |q| > 0 && Parent(q) in fs && fs[Parent(q)].Dir? && fs[Parent(q)].listing.Some? && ValidName(Last(q))
  }

  /**
   * `write_file` (`File::create` then `write_all`): replaces an existing file's bytes, or
   * creates the file in a listable directory, entering it at the end of that directory's
   * listing; fails on a directory or where the file cannot be created.
   */
  function WriteFile(fs: Fs, p: Option<Path>, data: seq<byte>): (r: Option<Fs>)
    ensures r.Some? <==> p.Some? && (if p.value in fs then fs[p.value].File? else Creatable(fs, p.value))
    ensures r.Some? ==> p.value in r.value && r.value[p.value] == File(data)
    ensures r.Some? && p.value in fs ==> r.value == fs[p.value := File(data)]
    ensures r.Some? && p.value !in fs ==>
      r.value == fs[p.value := File(data)][Parent(p.value) := Dir(Some(fs[Parent(p.value)].listing.value + [Last(p.value)]))]
    ensures IsDir(fs, p) ==> r.None?
  {
    if p.None? then None
    else
      var q := p.value;
      if q in fs then
        if fs[q].Dir? then None else Some(fs[q := File(data)])
      else if Creatable(fs, q) then
        var names := fs[Parent(q)].listing.value;
        Some(fs[q := File(data)][Parent(q) := Dir(Some(names + [Last(q)]))])
      else None
  }

  lemma WriteExistingWellFormed(fs: Fs, q: Path, data: seq<byte>)
    requires WellFormed(fs) && q in fs && fs[q].File?
    ensures WellFormed(fs[q := File(data)])
  {
    var r := fs[q := File(data)];
    forall x | x in r ensures ParentOk(r, x) {
      assert ParentOk(fs, x);
    }
    forall x ensures ChildrenOk(r, x) {
      assert ChildrenOk(fs, x);
      if x in r && r[x].Dir? && r[x].listing.Some? {
        assert ListingPresent(fs, x, fs[x].listing.value);
      }
    }
  }

  lemma WriteNewWellFormed(fs: Fs, q: Path, data: seq<byte>)
    requires WellFormed(fs) && q !in fs && Creatable(fs, q)
    ensures var names := fs[Parent(q)].listing.value;
      WellFormed(fs[q := File(data)][Parent(q) := Dir(Some(names + [Last(q)]))])
  {
    var par := Parent(q);
    var names := fs[par].listing.value;
    var ns := names + [Last(q)];
    var r := fs[q := File(data)][par := Dir(Some(ns))];
    assert ChildrenOk(fs, par);
    assert par + [Last(q)] == q;
    assert Last(q) !in names by {
      if Last(q) in names {
        assert false;
      }
    }
    forall x | x in r ensures ParentOk(r, x) {
      if x != q {
        assert ParentOk(fs, x);
      }
    }
    forall x ensures ChildrenOk(r, x) {
      if x == par {
        forall k | 0 <= k < |ns| ensures par + [ns[k]] in r {
          if k == |names| {
            assert par + [ns[k]] == q;
          }
        }
      } else {
        assert ChildrenOk(fs, x);
      }
    }
  }

  /** Writing a file keeps the map a tree. */
  lemma WriteFileWellFormed(fs: Fs, p: Option<Path>, data: seq<byte>)
    requires WellFormed(fs)
    requires WriteFile(fs, p, data).Some?
    ensures WellFormed(WriteFile(fs, p, data).value)
  {
    if p.value in fs {
      WriteExistingWellFormed(fs, p.value, data);
    } else {
      WriteNewWellFormed(fs, p.value, data);
    }
  }

  // ---------------------------------------------------------------------------------------
  // Paths as strings

  /** The components joined with the separator (how a relative `PathBuf` displays). */
  function Join(p: Path): string {
    if |p| == 0 then ""
    else if |p| == 1 then p[0]
    else p[0] + [Separator] + Join(p[1..])
  }

  /** The index of the first separator in `s`, or `|s|` if there is none. */
  function SeparatorIndex(s: string): (k: nat)
    ensures k <= |s|
    ensures k < |s| ==> s[k] == Separator
    ensures forall j :: 0 <= j < k ==> s[j] != Separator
  {
    if |s| == 0 || s[0] == Separator then 0 else 1 + SeparatorIndex(s[1..])
  }

  /** The pieces of `s` between separators, empty pieces included. */
  function Segments(s: string): (segs: seq<string>)
    ensures |segs| >= 1
    decreases |s|
  {
    var k := SeparatorIndex(s);
    if k == |s| then [s] else [s[..k]] + Segments(s[k + 1..])
  }

  /** The segments that name something: empty and `.` segments do not. */
  function Named(segs: seq<string>): seq<Name> {
    if |segs| == 0 then []
    else if segs[0] == "" || segs[0] == "." then Named(segs[1..])
    else [segs[0]] + Named(segs[1..])
  }

  /**
   * The node a relative path string designates when joined to the pack directory
   * (`Path::join` then an operating-system lookup).  Repeated, trailing and `.` separators
   * are ignored; an absolute path or a `..` component would leave the pack directory and
   * designates nothing in this model.
   */
  function Resolve(rel: string): Option<Path> {
    if |rel| > 0 && rel[0] == Separator then None
    else
      var segs := Segments(rel);
      if ".." in segs then None else Some(Named(segs))
  }

  lemma SegmentsCons(a: string, rest: string)
    requires Separator !in a
    ensures Segments(a + [Separator] + rest) == [a] + Segments(rest)
  {
    var s := a + [Separator] + rest;
    assert s[..|a|] == a;
    assert s[|a| + 1..] == rest;
    assert SeparatorIndex(s) == |a| by {
      forall j | 0 <= j < |a| ensures s[j] != Separator {
        assert s[j] == a[j];
      }
      assert s[|a|] == Separator;
    }
  }

  lemma SegmentsWithoutSeparator(a: string)
    requires Separator !in a
    ensures Segments(a) == [a]
  {
  }

  /** Splitting a joined path (with or without a trailing separator) gives its names back. */
  lemma {:induction false} SegmentsOfJoin(p: Path, trailing: bool)
    requires |p| > 0
    requires forall k :: 0 <= k < |p| ==> ValidName(p[k])
    ensures Segments(Join(p) + (if trailing then [Separator] else [])) == p + (if trailing then [""] else [])
    decreases |p|
  {
    var tail: string := if trailing then [Separator] else [];
    var extra: seq<string> := if trailing then [""] else [];
    if |p| == 1 {
      assert Join(p) == p[0];
      SegmentsOfName(p[0], trailing);
      assert p == [p[0]];
    } else {
      SegmentsOfJoin(p[1..], trailing);
      SegmentsJoinCons(p, tail, extra);
    }
  }

  lemma SegmentsJoinCons(p: Path, tail: string, extra: seq<string>)
    requires |p| > 1 && Separator !in p[0]
    requires Segments(Join(p[1..]) + tail) == p[1..] + extra
    ensures Segments(Join(p) + tail) == p + extra
  {
    var rest := Join(p[1..]) + tail;
    assert Join(p) + tail == p[0] + [Separator] + rest;
    SegmentsCons(p[0], rest);
    calc {
      [p[0]] + (p[1..] + extra);
      ([p[0]] + p[1..]) + extra;
      { assert [p[0]] + p[1..] == p; }
      p + extra;
    }
  }

  lemma SegmentsOfName(n: Name, trailing: bool)
    requires Separator !in n
    ensures Segments(n + (if trailing then [Separator] else [])) == [n] + (if trailing then [""] else [])
  {
    if trailing {
      SegmentsCons(n, "");
      assert n + [Separator] + "" == n + [Separator];
      SegmentsWithoutSeparator("");
    } else {
      assert n + [] == n;
      SegmentsWithoutSeparator(n);
    }
  }

  lemma {:induction false} NamedKeepsValidNames(p: Path, trailing: bool)
    requires forall k :: 0 <= k < |p| ==> ValidName(p[k])
    ensures Named(p + (if trailing then [""] else [])) == p
    decreases |p|
  {
    var tail: seq<string> := if trailing then [""] else [];
    if |p| == 0 {
      if trailing {
        assert Named([""]) == Named([]);
      } else {
        assert p + tail == [];
      }
    } else {
      NamedKeepsValidNames(p[1..], trailing);
      assert (p + tail)[1..] == p[1..] + tail;
    }
  }

  /**
   * The string form of a non-root path, with or without a trailing separator, designates
   * that path again.
   */
  lemma ResolveJoin(p: Path, trailing: bool)
    requires |p| > 0
    requires forall k :: 0 <= k < |p| ==> ValidName(p[k])
    ensures Resolve(Join(p) + (if trailing then [Separator] else [])) == Some(p)
  {
    var s := Join(p) + (if trailing then [Separator] else []);
    SegmentsOfJoin(p, trailing);
    NamedKeepsValidNames(p, trailing);
    assert Join(p) == p[0] || Join(p) == p[0] + [Separator] + Join(p[1..]);
    assert |p[0]| > 0 && p[0][0] != Separator by {
      assert p[0][0] in p[0];
    }
    assert s[0] == p[0][0];
    var segs := p + (if trailing then [""] else []);
    assert ".." !in segs;
  }
}
