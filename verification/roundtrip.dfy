/**
 * Encrypting a pack and then decrypting it with the same master key.  Every file outside
 * the skip list comes back byte for byte; a skipped file, which was never encrypted, is
 * nevertheless decrypted under its own record's key, and the index file is left behind as
 * its plaintext JSON.
 */
module RoundTrip {
  import opened Wrappers
  import opened Bytes
  import opened FileSystem
  import opened Enumeration
  import opened EnumerationFacts
  import opened Tasks
  import opened Pack
  import opened Rewrite
  import opened Contents
  import opened Cipher
  import opened Encrypt
  import opened Decrypt
  import Utf8
  import Cfb8

  /** A pack both commands can run on: a tree, no backslash in any name, every directory listable, the index path free or a file. */
  ghost predicate Eligible(fs: Fs) {
    && WellFormed(fs)
    && (forall q :: q in fs ==> forall k :: 0 <= k < |q| ==> '\\' !in q[k])
    && (forall q :: q in fs ==> fs[q] != Dir(None))
    && (IndexPath in fs ==> fs[IndexPath].File?)
  }

  /** The round trip's setting: an eligible pack, a valid master key, a UUID the header holds, a lawful codec. */
  ghost predicate Setting(json: JsonCodec, key: string, fs: Fs, uuid: string) {
    Eligible(fs) && ValidKey(key) && |Utf8.Encode(uuid)| <= UuidField && Lawful(json)
  }

  function EncryptUnder(aes: Cfb8.BlockCipher, key: string, data: seq<byte>): seq<byte>
    requires ValidKey(key)
  {
    var k := Utf8.Encode(key);
    Cfb8.Encrypt(aes, k, IvOf(k), data)
  }

  function DecryptUnder(aes: Cfb8.BlockCipher, key: string, data: seq<byte>): seq<byte>
    requires ValidKey(key)
  {
    var k := Utf8.Encode(key);
    Cfb8.Decrypt(aes, k, IvOf(k), data)
  }

  /** The enumeration of an eligible pack: it succeeds, and names each node but the root once. */
  ghost function Entries(fs: Fs): (es: seq<Entry>)
    requires Eligible(fs)
    ensures Enumerate(fs) == Success(es)
    ensures forall j :: 0 <= j < |es| ==> es[j].path in fs && es[j].path != [] && es[j].isDir == fs[es[j].path].Dir?
    ensures forall i, j :: 0 <= i < j < |es| ==> es[i].path != es[j].path
    ensures forall q :: q in fs && q != [] ==> exists j :: 0 <= j < |es| && es[j].path == q
  {
    EnumerateSound(fs);
    var es := Enumerate(fs).value;
    assert forall j :: 0 <= j < |es| ==> Paths(es)[j] == es[j].path;
    assert forall q :: q in fs && q != [] ==> q in Paths(es);
    es
  }

  ghost function Index(fs: Fs, rng: nat -> CharsetIndex): ContentsRoot
    requires Eligible(fs)
  {
    BuildIndex(Entries(fs), rng)
  }

  /** The JSON text of the index, as bytes. */
  ghost function Plain(json: JsonCodec, fs: Fs, rng: nat -> CharsetIndex): seq<byte>
    requires Eligible(fs)
  {
    Utf8.Encode(json.encode(Index(fs, rng)))
  }

  /** The index file `encrypt` writes. */
  ghost function IndexBytes(aes: Cfb8.BlockCipher, json: JsonCodec, rng: nat -> CharsetIndex, key: string, fs: Fs, uuid: string): seq<byte>
    requires Eligible(fs) && ValidKey(key) && |Utf8.Encode(uuid)| <= UuidField
  {
    GenerateContentsHeader(uuid).value + EncryptUnder(aes, key, Plain(json, fs, rng))
  }

  // ---------------------------------------------------------------------------------------
  // Small facts

  lemma {:induction false} JoinNoBackslash(p: Path)
    requires forall k :: 0 <= k < |p| ==> '\\' !in p[k]
    ensures '\\' !in Join(p)
    decreases |p|
  {
    if |p| > 1 {
      JoinNoBackslash(p[1..]);
    }
  }

  /** Each record of the index names its entry's path and designates that entry's node. */
  lemma RecordOf(fs: Fs, rng: nat -> CharsetIndex, j: nat)
    requires Eligible(fs) && j < |Entries(fs)|
    ensures var e := Entries(fs)[j];
      && e.path in fs && e.path != [] && e.isDir == fs[e.path].Dir?
      && Index(fs, rng).content[j] == ContentsRootItem(Render(e), Some(EntryKey(rng, j)))
      && Resolve(Render(e)) == Some(e.path)
  {
    var es := Entries(fs);
    EnumerateSound(fs);
    var e := es[j];
    assert Paths(es)[j] == e.path;
    assert e.path in fs && e.path != [];
    JoinNoBackslash(e.path);
    assert '\\' !in Render(e);
    ReplaceBackslashNoop(Render(e));
    ResolveRender(fs, e);
  }

  /** Distinct records designate distinct nodes. */
  lemma RecordsDistinct(fs: Fs, rng: nat -> CharsetIndex, i: nat, j: nat)
    requires Eligible(fs) && i < |Entries(fs)| && j < |Entries(fs)| && i != j
    ensures Entries(fs)[i].path != Entries(fs)[j].path
  {
    EnumerateSound(fs);
    assert Paths(Entries(fs))[i] == Entries(fs)[i].path;
    assert Paths(Entries(fs))[j] == Entries(fs)[j].path;
  }

  /** Every node but the pack directory is some entry's. */
  lemma EntryFor(fs: Fs, q: Path) returns (j: nat)
    requires Eligible(fs) && q in fs && q != []
    ensures j < |Entries(fs)| && Entries(fs)[j].path == q
  {
    EnumerateSound(fs);
    assert q in Paths(Entries(fs));
    j :| 0 <= j < |Paths(Entries(fs))| && Paths(Entries(fs))[j] == q;
  }

  /** The index file's own record, if it has one, is on the skip list, as a file or as a directory. */
  lemma IndexRecordSkipped(e: Entry)
    requires e.path == IndexPath
    ensures ShouldSkip(Render(e))
  {
    assert Join(e.path) == IndexName;
    assert DontEncrypt[1] <= Render(e);
  }

  /** Writing the index file changes nothing but it and the pack directory's listing. */
  lemma IndexWriteFrame(fs: Fs, bytes: seq<byte>, q: Path)
    requires WriteFile(fs, Some(IndexPath), bytes).Some? && q != IndexPath && q != []
    ensures AgreeAt(fs, WriteFile(fs, Some(IndexPath), bytes).value, q)
  {
    assert Parent(IndexPath) == [];
  }

  lemma IndexWriteSucceeds(fs: Fs, bytes: seq<byte>)
    requires Eligible(fs)
    ensures WriteFile(fs, Some(IndexPath), bytes).Some?
  {
    assert Parent(IndexPath) == [] && Last(IndexPath) == IndexName;
    assert fs[[]] != Dir(None);
  }

  // ---------------------------------------------------------------------------------------
  // The encrypt stage

  /** The node `encrypt` leaves at entry `j`'s path (other than the index file's). */
  ghost function EncryptedNode(aes: Cfb8.BlockCipher, fs: Fs, rng: nat -> CharsetIndex, j: nat): Node
    requires Eligible(fs) && j < |Entries(fs)| && Entries(fs)[j].path in fs
  {
    var e := Entries(fs)[j];
    var node := fs[e.path];
    if node.Dir? || ShouldSkip(Render(e)) then node
    else File(EncryptUnder(aes, EntryKey(rng, j), node.data))
  }

  /** The jobs `encrypt` runs: entry `j`'s rendered path and key, designating only entry `j`'s node. */
  lemma JobOf(fs: Fs, rng: nat -> CharsetIndex, j: nat)
    requires Eligible(fs) && j < |Entries(fs)|
    ensures var jobs := Jobs(Index(fs, rng).content);
      && |jobs| == |Entries(fs)|
      && jobs[j] == Job(Render(Entries(fs)[j]), EntryKey(rng, j))
      && JobTarget(jobs[j]) == Some(Entries(fs)[j].path)
      && SoleTarget(JobTarget, jobs, j)
  {
    var jobs := Jobs(Index(fs, rng).content);
    RecordOf(fs, rng, j);
    forall i | 0 <= i < |jobs| && i != j ensures JobTarget(jobs[i]) != JobTarget(jobs[j]) {
      RecordOf(fs, rng, i);
      RecordsDistinct(fs, rng, i, j);
    }
  }

  /** In a run of encrypting jobs, a job alone on its node acts as it would on the starting state. */
  lemma EncryptRunAt(aes: Cfb8.BlockCipher, fs1: Fs, jobs: seq<Job>, j: nat)
    requires j < |jobs| && SoleTarget(JobTarget, jobs, j) && JobTarget(jobs[j]).Some?
    ensures var r := RunTasks(EncryptTask(aes), fs1, jobs);
      && r.1[j] == EncryptFile(aes, fs1, jobs[j]).1
      && AgreeAt(r.0, EncryptFile(aes, fs1, jobs[j]).0, JobTarget(jobs[j]).value)
  {
    EncryptTaskIsLocal(aes);
    RunAt(EncryptTask(aes), JobTarget, fs1, jobs, j);
    assert EncryptTask(aes)(fs1, jobs[j]) == EncryptFile(aes, fs1, jobs[j]);
  }

  /** The encrypting closure on entry `j`'s job succeeds, and leaves `EncryptedNode` (the index file: untouched). */
  lemma EncryptFileOnEntry(aes: Cfb8.BlockCipher, fs: Fs, fs1: Fs, rng: nat -> CharsetIndex, j: nat, job: Job)
    requires Eligible(fs) && j < |Entries(fs)|
    requires job == Job(Render(Entries(fs)[j]), EntryKey(rng, j)) && JobTarget(job) == Some(Entries(fs)[j].path)
    requires Entries(fs)[j].path in fs && Entries(fs)[j].isDir == fs[Entries(fs)[j].path].Dir?
    requires Entries(fs)[j].path != IndexPath ==> AgreeAt(fs, fs1, Entries(fs)[j].path)
    ensures var r := EncryptFile(aes, fs1, job);
      var q := Entries(fs)[j].path;
      && r.1 == Done
      && (q != IndexPath ==> q in r.0 && r.0[q] == EncryptedNode(aes, fs, rng, j))
      && (q == IndexPath ==> r.0 == fs1)
  {
    var e := Entries(fs)[j];
    if e.path == IndexPath {
      IndexRecordSkipped(e);
    }
  }

  /** The per-file stage of `encrypt` on a pack where the index file has just been written. */
  lemma EncryptTasksAt(aes: Cfb8.BlockCipher, fs: Fs, fs1: Fs, rng: nat -> CharsetIndex, j: nat)
    requires Eligible(fs) && j < |Entries(fs)|
    requires Entries(fs)[j].path != IndexPath ==> AgreeAt(fs, fs1, Entries(fs)[j].path)
    ensures var jobs := Jobs(Index(fs, rng).content);
      var r := RunTasks(EncryptTask(aes), fs1, jobs);
      var q := Entries(fs)[j].path;
      && r.1[j] == Done
      && (q != IndexPath ==> q in r.0 && r.0[q] == EncryptedNode(aes, fs, rng, j))
      && (q == IndexPath ==> AgreeAt(fs1, r.0, IndexPath))
  {
    var jobs := Jobs(Index(fs, rng).content);
    var q := Entries(fs)[j].path;
    RecordOf(fs, rng, j);
    JobOf(fs, rng, j);
    EncryptRunAt(aes, fs1, jobs, j);
    EncryptFileOnEntry(aes, fs, fs1, rng, j, jobs[j]);
    var r := RunTasks(EncryptTask(aes), fs1, jobs);
    var t := EncryptFile(aes, fs1, jobs[j]);
    assert AgreeAt(r.0, t.0, q);
    if q != IndexPath {
      var node := EncryptedNode(aes, fs, rng, j);
      assert q in t.0 && t.0[q] == node;
      assert q in r.0 && r.0[q] == node;
    }
  }

  /** `encrypt` on an eligible pack, with a valid master key and a UUID the header can hold, succeeds. */
  lemma EncryptSucceeds(aes: Cfb8.BlockCipher, json: JsonCodec, rng: nat -> CharsetIndex, key: string,
                        fs: Fs, uuid: string, s: Schedule)
    requires Eligible(fs) && ValidKey(key) && |Utf8.Encode(uuid)| <= UuidField
    ensures var fs1 := WriteFile(fs, Some(IndexPath), IndexBytes(aes, json, rng, key, fs, uuid));
      && fs1.Some?
      && Encrypt.Encrypt(aes, json, rng, key, fs, Success(uuid), true, s)
         == Run(RunTasks(EncryptTask(aes), fs1.value, Jobs(Index(fs, rng).content)).0, Ok)
  {
    EnumerateSound(fs);
    var bytes := IndexBytes(aes, json, rng, key, fs, uuid);
    IndexWriteSucceeds(fs, bytes);
    var fs1 := WriteFile(fs, Some(IndexPath), bytes).value;
    var jobs := Jobs(Index(fs, rng).content);
    var outs := RunTasks(EncryptTask(aes), fs1, jobs).1;
    forall q | q != IndexPath && q != [] ensures AgreeAt(fs, fs1, q) {
      IndexWriteFrame(fs, bytes, q);
    }
    forall j | 0 <= j < |outs| ensures outs[j].Done? {
      JobOf(fs, rng, j);
      if Entries(fs)[j].path != IndexPath {
        RecordOf(fs, rng, j);
        assert AgreeAt(fs, fs1, Entries(fs)[j].path);
      }
      EncryptTasksAt(aes, fs, fs1, rng, j);
    }
    CollectSound(outs, s);
    assert IndexFile(aes, json, key, GenerateContentsHeader(uuid).value, Index(fs, rng)) == Success(bytes);
  }

  /** After `encrypt`: the index file, and every other node as `EncryptedNode` says. */
  lemma EncryptResult(aes: Cfb8.BlockCipher, json: JsonCodec, rng: nat -> CharsetIndex, key: string,
                      fs: Fs, uuid: string, s: Schedule)
    requires Eligible(fs) && ValidKey(key) && |Utf8.Encode(uuid)| <= UuidField
    ensures var r := Encrypt.Encrypt(aes, json, rng, key, fs, Success(uuid), true, s);
      && r.status == Ok
      && IndexPath in r.fs && r.fs[IndexPath] == File(IndexBytes(aes, json, rng, key, fs, uuid))
      && (forall j :: 0 <= j < |Entries(fs)| && Entries(fs)[j].path != IndexPath ==>
            Entries(fs)[j].path in r.fs && r.fs[Entries(fs)[j].path] == EncryptedNode(aes, fs, rng, j))
      && (forall q :: q !in fs && q != IndexPath ==> q !in r.fs)
  {
    EncryptSucceeds(aes, json, rng, key, fs, uuid, s);
    var bytes := IndexBytes(aes, json, rng, key, fs, uuid);
    var fs1 := WriteFile(fs, Some(IndexPath), bytes).value;
    var jobs := Jobs(Index(fs, rng).content);
    var fsE := RunTasks(EncryptTask(aes), fs1, jobs).0;
    forall j | 0 <= j < |Entries(fs)| && Entries(fs)[j].path != IndexPath
      ensures Entries(fs)[j].path in fsE && fsE[Entries(fs)[j].path] == EncryptedNode(aes, fs, rng, j)
    {
      IndexWriteFrame(fs, bytes, Entries(fs)[j].path);
      EncryptTasksAt(aes, fs, fs1, rng, j);
    }
    if IndexPath in fs {
      var j := EntryFor(fs, IndexPath);
      EncryptTasksAt(aes, fs, fs1, rng, j);
    } else {
      EncryptRunUntouched(aes, fs, fs1, rng, IndexPath);
    }
    forall q | q !in fs && q != IndexPath ensures q !in fsE {
      assert q != [] by { assert [] in fs; }
      IndexWriteFrame(fs, bytes, q);
      EncryptRunUntouched(aes, fs, fs1, rng, q);
    }
  }

  /** A path that is not a node of the pack is designated by no job, so the encrypting run leaves it as it was. */
  lemma EncryptRunUntouched(aes: Cfb8.BlockCipher, fs: Fs, fs1: Fs, rng: nat -> CharsetIndex, q: Path)
    requires Eligible(fs) && q !in fs
    ensures AgreeAt(fs1, RunTasks(EncryptTask(aes), fs1, Jobs(Index(fs, rng).content)).0, q)
  {
    var jobs := Jobs(Index(fs, rng).content);
    forall i | 0 <= i < |jobs| ensures JobTarget(jobs[i]) != Some(q) {
      RecordOf(fs, rng, i);
    }
    EncryptTaskIsLocal(aes);
    RunUntouched(EncryptTask(aes), JobTarget, fs1, jobs, q);
  }

  // ---------------------------------------------------------------------------------------
  // The decrypt stage

  /**
   * The node a round trip leaves at entry `j`'s path (other than the index file's):
   * directories and encrypted files as they were, skipped files decrypted although they
   * were never encrypted.
   */
  ghost function DecryptedNode(aes: Cfb8.BlockCipher, fs: Fs, rng: nat -> CharsetIndex, j: nat): Node
    requires Eligible(fs) && j < |Entries(fs)|
  {
    var e := Entries(fs)[j];
    var node := fs[e.path];
    if node.File? && ShouldSkip(Render(e)) then File(DecryptUnder(aes, EntryKey(rng, j), node.data))
    else node
  }

  /** The records `decrypt` reads back: entry `j`'s rendered path and key, designating only entry `j`'s node. */
  lemma ItemOf(fs: Fs, rng: nat -> CharsetIndex, j: nat)
    requires Eligible(fs) && j < |Entries(fs)|
    ensures var items := Index(fs, rng).content;
      && |items| == |Entries(fs)|
      && items[j] == ContentsRootItem(Render(Entries(fs)[j]), Some(EntryKey(rng, j)))
      && ItemTarget(items[j]) == Some(Entries(fs)[j].path)
      && SoleTarget(ItemTarget, items, j)
  {
    var items := Index(fs, rng).content;
    RecordOf(fs, rng, j);
    forall i | 0 <= i < |items| && i != j ensures ItemTarget(items[i]) != ItemTarget(items[j]) {
      RecordOf(fs, rng, i);
      RecordsDistinct(fs, rng, i, j);
    }
  }

  /** In a run of decrypting records, a record alone on its node acts as it would on the starting state. */
  lemma DecryptRunAt(aes: Cfb8.BlockCipher, fs1: Fs, items: seq<ContentsRootItem>, j: nat)
    requires j < |items| && SoleTarget(ItemTarget, items, j) && ItemTarget(items[j]).Some?
    ensures var r := RunTasks(DecryptTask(aes), fs1, items);
      && r.1[j] == DecryptFile(aes, fs1, items[j]).1
      && AgreeAt(r.0, DecryptFile(aes, fs1, items[j]).0, ItemTarget(items[j]).value)
  {
    DecryptTaskIsLocal(aes);
    RunAt(DecryptTask(aes), ItemTarget, fs1, items, j);
    assert DecryptTask(aes)(fs1, items[j]) == DecryptFile(aes, fs1, items[j]);
  }

  /** A path that is not a node of the pack is designated by no record, so the decrypting run leaves it as it was. */
  lemma DecryptRunUntouched(aes: Cfb8.BlockCipher, fs: Fs, fs1: Fs, rng: nat -> CharsetIndex, q: Path)
    requires Eligible(fs) && q !in fs
    ensures AgreeAt(fs1, RunTasks(DecryptTask(aes), fs1, Index(fs, rng).content).0, q)
  {
    var items := Index(fs, rng).content;
    forall i | 0 <= i < |items| ensures ItemTarget(items[i]) != Some(q) {
      RecordOf(fs, rng, i);
    }
    DecryptTaskIsLocal(aes);
    RunUntouched(DecryptTask(aes), ItemTarget, fs1, items, q);
  }

  /** The decrypting closure on entry `j`'s record, after `encrypt`, succeeds and leaves `DecryptedNode`. */
  lemma DecryptFileOnEntry(aes: Cfb8.BlockCipher, fs: Fs, fsD: Fs, rng: nat -> CharsetIndex, j: nat,
                           item: ContentsRootItem, plain: seq<byte>)
    requires Eligible(fs) && j < |Entries(fs)|
    requires item == ContentsRootItem(Render(Entries(fs)[j]), Some(EntryKey(rng, j)))
    requires ItemTarget(item) == Some(Entries(fs)[j].path)
    requires Entries(fs)[j].path != IndexPath ==>
      Entries(fs)[j].path in fsD && fsD[Entries(fs)[j].path] == EncryptedNode(aes, fs, rng, j)
    requires Entries(fs)[j].path == IndexPath ==> IndexPath in fsD && fsD[IndexPath] == File(plain)
    ensures var r := DecryptFile(aes, fsD, item);
      var q := Entries(fs)[j].path;
      && r.1 == Done
      && q in r.0
      && (q != IndexPath ==> r.0[q] == DecryptedNode(aes, fs, rng, j))
      && (q == IndexPath ==> r.0[q] == File(DecryptUnder(aes, EntryKey(rng, j), plain)))
  {
    var e := Entries(fs)[j];
    var key := EntryKey(rng, j);
    var q := e.path;
    if q == IndexPath {
      DecryptFileAt(aes, fsD, item, q, key, plain);
    } else if fs[q].Dir? {
      assert IsDir(fsD, ItemTarget(item));
    } else if ShouldSkip(Render(e)) {
      DecryptFileAt(aes, fsD, item, q, key, fs[q].data);
    } else {
      DecryptFileAt(aes, fsD, item, q, key, EncryptUnder(aes, key, fs[q].data));
      DecryptAfterEncrypt(aes, key, fs[q].data);
    }
  }

  /** A keyed record that designates a file: `decrypt` replaces the file by its decryption. */
  lemma DecryptFileAt(aes: Cfb8.BlockCipher, fs: Fs, item: ContentsRootItem, q: Path, key: string, data: seq<byte>)
    requires item.key == Some(key) && ValidKey(key) && ItemTarget(item) == Some(q)
    requires q in fs && fs[q] == File(data)
    ensures DecryptFile(aes, fs, item) == (fs[q := File(DecryptUnder(aes, key, data))], Done)
  {
    assert Read(fs, ItemTarget(item)) == Some(data);
  }

  /** The per-file stage of `decrypt`, run on what `encrypt` left with the index file replaced by `plain`. */
  lemma DecryptTasksAt(aes: Cfb8.BlockCipher, fs: Fs, fsD: Fs, rng: nat -> CharsetIndex, j: nat, plain: seq<byte>)
    requires Eligible(fs) && j < |Entries(fs)|
    requires Entries(fs)[j].path != IndexPath ==>
      Entries(fs)[j].path in fsD && fsD[Entries(fs)[j].path] == EncryptedNode(aes, fs, rng, j)
    requires IndexPath in fsD && fsD[IndexPath] == File(plain)
    ensures var r := RunTasks(DecryptTask(aes), fsD, Index(fs, rng).content);
      var q := Entries(fs)[j].path;
      && r.1[j] == Done
      && q in r.0
      && (q != IndexPath ==> r.0[q] == DecryptedNode(aes, fs, rng, j))
      && (q == IndexPath ==> r.0[q] == File(DecryptUnder(aes, EntryKey(rng, j), plain)))
  {
    var items := Index(fs, rng).content;
    var q := Entries(fs)[j].path;
    ItemOf(fs, rng, j);
    DecryptRunAt(aes, fsD, items, j);
    DecryptFileOnEntry(aes, fs, fsD, rng, j, items[j], plain);
    var r := RunTasks(DecryptTask(aes), fsD, items);
    var t := DecryptFile(aes, fsD, items[j]);
    assert AgreeAt(r.0, t.0, q);
  }

  /** `decrypt` reads back the index `encrypt` wrote and overwrites the index file with its plaintext. */
  lemma DecryptReadsIndex(aes: Cfb8.BlockCipher, json: JsonCodec, rng: nat -> CharsetIndex, key: string,
                          fs: Fs, uuid: string, fsE: Fs, s: Schedule)
    requires Eligible(fs) && ValidKey(key) && |Utf8.Encode(uuid)| <= UuidField && Lawful(json)
    requires IndexPath in fsE && fsE[IndexPath] == File(IndexBytes(aes, json, rng, key, fs, uuid))
    ensures var r := RunTasks(DecryptTask(aes), DecryptStart(json, rng, fs, fsE), Index(fs, rng).content);
      Decrypt.Decrypt(aes, json, key, fsE, true, s)
        == Run(r.0, if Collect(r.1, s).Success? then Ok else Err(ProcessingError(Collect(r.1, s).error)))
  {
    var header := GenerateContentsHeader(uuid).value;
    var plain := Plain(json, fs, rng);
    var body := EncryptUnder(aes, key, plain);
    BodyAfterHeader(header, Utf8.Encode(uuid), body);
    DecryptAfterEncrypt(aes, key, plain);
    Utf8.DecodeEncode(json.encode(Index(fs, rng)));
    assert json.decode(json.encode(Index(fs, rng))) == Some(Index(fs, rng));
  }

  /** What a successful `encrypt` leaves, as `decrypt` needs it. */
  ghost predicate EncryptedPack(aes: Cfb8.BlockCipher, json: JsonCodec, rng: nat -> CharsetIndex, key: string,
                                fs: Fs, uuid: string, fsE: Fs)
    requires Eligible(fs) && ValidKey(key) && |Utf8.Encode(uuid)| <= UuidField
  {
    && IndexPath in fsE && fsE[IndexPath] == File(IndexBytes(aes, json, rng, key, fs, uuid))
    && (forall j :: 0 <= j < |Entries(fs)| && Entries(fs)[j].path != IndexPath ==>
          Entries(fs)[j].path in fsE && fsE[Entries(fs)[j].path] == EncryptedNode(aes, fs, rng, j))
    && (forall q :: q !in fs && q != IndexPath ==> q !in fsE)
  }

  /** The state `decrypt`'s per-file stage starts from: the index file replaced by its plaintext. */
  ghost function DecryptStart(json: JsonCodec, rng: nat -> CharsetIndex, fs: Fs, fsE: Fs): Fs
    requires Eligible(fs)
  {
    fsE[IndexPath := File(Plain(json, fs, rng))]
  }

  /** The per-file stage of `decrypt`, run on what `encrypt` left. */
  ghost function DecryptStage(aes: Cfb8.BlockCipher, json: JsonCodec, rng: nat -> CharsetIndex, fs: Fs, fsE: Fs)
    : (Fs, seq<Outcome<TaskMessage>>)
    requires Eligible(fs)
  {
    RunTasks(DecryptTask(aes), DecryptStart(json, rng, fs, fsE), Index(fs, rng).content)
  }

  /** Entry `j` after the per-file stage: its task succeeds and its node is `DecryptedNode`. */
  lemma DecryptStageAt(aes: Cfb8.BlockCipher, json: JsonCodec, rng: nat -> CharsetIndex, key: string,
                       fs: Fs, uuid: string, fsE: Fs, j: nat)
    requires Eligible(fs) && ValidKey(key) && |Utf8.Encode(uuid)| <= UuidField
    requires EncryptedPack(aes, json, rng, key, fs, uuid, fsE) && j < |Entries(fs)|
    ensures var r := DecryptStage(aes, json, rng, fs, fsE);
      var q := Entries(fs)[j].path;
      && r.1[j] == Done
      && q in r.0
      && (q != IndexPath ==> r.0[q] == DecryptedNode(aes, fs, rng, j))
      && (q == IndexPath ==> r.0[q] == File(DecryptUnder(aes, EntryKey(rng, j), Plain(json, fs, rng))))
  {
    var q := Entries(fs)[j].path;
    var node := EncryptedNode(aes, fs, rng, j);
    assert q != IndexPath ==> q in fsE && fsE[q] == node;
    StartAt(json, rng, fs, fsE, q, node);
    DecryptTasksAt(aes, fs, DecryptStart(json, rng, fs, fsE), rng, j, Plain(json, fs, rng));
  }

  /** Where `decrypt`'s per-file stage starts, nodes other than the index file are as `encrypt` left them. */
  lemma StartAt(json: JsonCodec, rng: nat -> CharsetIndex, fs: Fs, fsE: Fs, q: Path, node: Node)
    requires Eligible(fs)
    requires q != IndexPath ==> q in fsE && fsE[q] == node
    ensures var fsD := DecryptStart(json, rng, fs, fsE);
      && (q != IndexPath ==> q in fsD && fsD[q] == node)
      && IndexPath in fsD && fsD[IndexPath] == File(Plain(json, fs, rng))
  {
  }

  /** Every task of the per-file stage succeeds. */
  lemma DecryptStageDone(aes: Cfb8.BlockCipher, json: JsonCodec, rng: nat -> CharsetIndex, key: string,
                         fs: Fs, uuid: string, fsE: Fs)
    requires Eligible(fs) && ValidKey(key) && |Utf8.Encode(uuid)| <= UuidField
    requires EncryptedPack(aes, json, rng, key, fs, uuid, fsE)
    ensures var outs := DecryptStage(aes, json, rng, fs, fsE).1;
      forall j :: 0 <= j < |outs| ==> outs[j] == Done
  {
    forall j | 0 <= j < |DecryptStage(aes, json, rng, fs, fsE).1|
      ensures DecryptStage(aes, json, rng, fs, fsE).1[j] == Done
    {
      DecryptStageAt(aes, json, rng, key, fs, uuid, fsE, j);
    }
  }

  /** `decrypt` on what `encrypt` left is its per-file stage, and succeeds. */
  lemma DecryptIsStage(aes: Cfb8.BlockCipher, json: JsonCodec, rng: nat -> CharsetIndex, key: string,
                       fs: Fs, uuid: string, fsE: Fs, s: Schedule)
    requires Setting(json, key, fs, uuid)
    requires EncryptedPack(aes, json, rng, key, fs, uuid, fsE)
    ensures Decrypt.Decrypt(aes, json, key, fsE, true, s) == Run(DecryptStage(aes, json, rng, fs, fsE).0, Ok)
  {
    DecryptReadsIndex(aes, json, rng, key, fs, uuid, fsE, s);
    DecryptStageDone(aes, json, rng, key, fs, uuid, fsE);
    CollectSound(DecryptStage(aes, json, rng, fs, fsE).1, s);
  }

  /** The encrypt stage in the form the decrypt stage needs. */
  lemma EncryptLeavesPack(aes: Cfb8.BlockCipher, json: JsonCodec, rng: nat -> CharsetIndex, key: string,
                          fs: Fs, uuid: string, s: Schedule)
    requires Eligible(fs) && ValidKey(key) && |Utf8.Encode(uuid)| <= UuidField
    ensures var e := Encrypt.Encrypt(aes, json, rng, key, fs, Success(uuid), true, s);
      e.status == Ok && EncryptedPack(aes, json, rng, key, fs, uuid, e.fs)
  {
    EncryptResult(aes, json, rng, key, fs, uuid, s);
  }

  /** The round trip in two stages: `encrypt` leaves the encrypted pack, `decrypt` runs its per-file stage on it. */
  lemma RoundTripIsStage(aes: Cfb8.BlockCipher, json: JsonCodec, rng: nat -> CharsetIndex, key: string,
                         fs: Fs, uuid: string, s1: Schedule, s2: Schedule)
    requires Setting(json, key, fs, uuid)
    ensures var e := Encrypt.Encrypt(aes, json, rng, key, fs, Success(uuid), true, s1);
      && e.status == Ok
      && EncryptedPack(aes, json, rng, key, fs, uuid, e.fs)
      && Decrypt.Decrypt(aes, json, key, e.fs, true, s2) == Run(DecryptStage(aes, json, rng, fs, e.fs).0, Ok)
  {
    var e := Encrypt.Encrypt(aes, json, rng, key, fs, Success(uuid), true, s1);
    EncryptLeavesPack(aes, json, rng, key, fs, uuid, s1);
    DecryptIsStage(aes, json, rng, key, fs, uuid, e.fs, s2);
  }

  /** Decrypting after encrypting, with the same master key, on an eligible pack: both commands succeed. */
  lemma RoundTripSucceeds(aes: Cfb8.BlockCipher, json: JsonCodec, rng: nat -> CharsetIndex, key: string,
                          fs: Fs, uuid: string, s1: Schedule, s2: Schedule)
    requires Setting(json, key, fs, uuid)
    ensures var e := Encrypt.Encrypt(aes, json, rng, key, fs, Success(uuid), true, s1);
      e.status == Ok && Decrypt.Decrypt(aes, json, key, e.fs, true, s2).status == Ok
  {
    var e := Encrypt.Encrypt(aes, json, rng, key, fs, Success(uuid), true, s1);
    RoundTripIsStage(aes, json, rng, key, fs, uuid, s1, s2);
  }

  /** Entry `j`'s path after the round trip. */
  lemma RoundTripAt(aes: Cfb8.BlockCipher, json: JsonCodec, rng: nat -> CharsetIndex, key: string,
                    fs: Fs, uuid: string, s1: Schedule, s2: Schedule, j: nat)
    requires Setting(json, key, fs, uuid) && j < |Entries(fs)|
    ensures var e := Encrypt.Encrypt(aes, json, rng, key, fs, Success(uuid), true, s1);
      var d := Decrypt.Decrypt(aes, json, key, e.fs, true, s2);
      var q := Entries(fs)[j].path;
      && q in d.fs
      && (q != IndexPath ==> d.fs[q] == DecryptedNode(aes, fs, rng, j))
      && (q == IndexPath ==> d.fs[q] == File(DecryptUnder(aes, EntryKey(rng, j), Plain(json, fs, rng))))
  {
    var e := Encrypt.Encrypt(aes, json, rng, key, fs, Success(uuid), true, s1);
    RoundTripIsStage(aes, json, rng, key, fs, uuid, s1, s2);
    DecryptStageAt(aes, json, rng, key, fs, uuid, e.fs, j);
  }

  /** The entry of a node the round trip gives back. */
  lemma RestoredEntry(aes: Cfb8.BlockCipher, fs: Fs, rng: nat -> CharsetIndex, q: Path) returns (j: nat)
    requires Eligible(fs) && q in fs && q != []
    requires fs[q].File? ==> !ShouldSkip(Join(q))
    ensures j < |Entries(fs)| && Entries(fs)[j].path == q && DecryptedNode(aes, fs, rng, j) == fs[q]
  {
    j := EntryFor(fs, q);
    assert fs[q].File? ==> Render(Entries(fs)[j]) == Join(q);
  }

  /** The entry and record of a skipped file. */
  lemma SkippedEntry(aes: Cfb8.BlockCipher, fs: Fs, rng: nat -> CharsetIndex, q: Path) returns (j: nat)
    requires Eligible(fs) && q in fs && fs[q].File? && ShouldSkip(Join(q))
    ensures j < |Entries(fs)| == |Index(fs, rng).content| && Entries(fs)[j].path == q
    ensures Index(fs, rng).content[j] == ContentsRootItem(Join(q), Some(EntryKey(rng, j)))
    ensures DecryptedNode(aes, fs, rng, j) == File(DecryptUnder(aes, EntryKey(rng, j), fs[q].data))
  {
    assert q != [] by { assert fs[[]].Dir?; }
    j := EntryFor(fs, q);
    RecordOf(fs, rng, j);
    assert Render(Entries(fs)[j]) == Join(q);
  }

  /** The entry and record of a pre-existing index file. */
  lemma IndexEntry(fs: Fs, rng: nat -> CharsetIndex) returns (j: nat)
    requires Eligible(fs) && IndexPath in fs
    ensures j < |Entries(fs)| == |Index(fs, rng).content| && Entries(fs)[j].path == IndexPath
    ensures Index(fs, rng).content[j] == ContentsRootItem(IndexName, Some(EntryKey(rng, j)))
  {
    j := EntryFor(fs, IndexPath);
    RecordOf(fs, rng, j);
    assert Render(Entries(fs)[j]) == Join(IndexPath) == IndexName;
  }

  /**
   * After the round trip, a node that is a directory, or a file whose path the skip list
   * does not name, is back as it was.
   */
  lemma RoundTripRestores(aes: Cfb8.BlockCipher, json: JsonCodec, rng: nat -> CharsetIndex, key: string,
                          fs: Fs, uuid: string, s1: Schedule, s2: Schedule, q: Path)
    requires Setting(json, key, fs, uuid)
    requires q in fs && q != [] && q != IndexPath
    requires fs[q].File? ==> !ShouldSkip(Join(q))
    ensures var e := Encrypt.Encrypt(aes, json, rng, key, fs, Success(uuid), true, s1);
      var d := Decrypt.Decrypt(aes, json, key, e.fs, true, s2);
      q in d.fs && d.fs[q] == fs[q]
  {
    var j := RestoredEntry(aes, fs, rng, q);
    RoundTripAt(aes, json, rng, key, fs, uuid, s1, s2, j);
  }

  /**
   * After the round trip, a file whose path the skip list names, although never encrypted,
   * is decrypted under the key its record got.
   */
  lemma RoundTripGarblesSkipped(aes: Cfb8.BlockCipher, json: JsonCodec, rng: nat -> CharsetIndex, key: string,
                                fs: Fs, uuid: string, s1: Schedule, s2: Schedule, q: Path)
    requires Setting(json, key, fs, uuid)
    requires q in fs && q != IndexPath && fs[q].File? && ShouldSkip(Join(q))
    ensures var e := Encrypt.Encrypt(aes, json, rng, key, fs, Success(uuid), true, s1);
      var d := Decrypt.Decrypt(aes, json, key, e.fs, true, s2);
      exists j :: 0 <= j < |Index(fs, rng).content|
        && Index(fs, rng).content[j] == ContentsRootItem(Join(q), Some(EntryKey(rng, j)))
        && q in d.fs && d.fs[q] == File(DecryptUnder(aes, EntryKey(rng, j), fs[q].data))
  {
    var j := SkippedEntry(aes, fs, rng, q);
    RoundTripAt(aes, json, rng, key, fs, uuid, s1, s2, j);
  }

  /** After the round trip, a pack that had no index file is left with the index's plaintext JSON. */
  lemma RoundTripIndexFresh(aes: Cfb8.BlockCipher, json: JsonCodec, rng: nat -> CharsetIndex, key: string,
                            fs: Fs, uuid: string, s1: Schedule, s2: Schedule)
    requires Setting(json, key, fs, uuid)
    requires IndexPath !in fs
    ensures var e := Encrypt.Encrypt(aes, json, rng, key, fs, Success(uuid), true, s1);
      var d := Decrypt.Decrypt(aes, json, key, e.fs, true, s2);
      IndexPath in d.fs && d.fs[IndexPath] == File(Plain(json, fs, rng))
  {
    var e := Encrypt.Encrypt(aes, json, rng, key, fs, Success(uuid), true, s1);
    RoundTripIsStage(aes, json, rng, key, fs, uuid, s1, s2);
    DecryptRunUntouched(aes, fs, DecryptStart(json, rng, fs, e.fs), rng, IndexPath);
  }

  /**
   * After the round trip, a pack that already had an index file finds it replaced by the new
   * index's plaintext decrypted under the key the new index gave the old file's record.
   */
  lemma RoundTripIndexGarbled(aes: Cfb8.BlockCipher, json: JsonCodec, rng: nat -> CharsetIndex, key: string,
                              fs: Fs, uuid: string, s1: Schedule, s2: Schedule)
    requires Setting(json, key, fs, uuid)
    requires IndexPath in fs
    ensures var e := Encrypt.Encrypt(aes, json, rng, key, fs, Success(uuid), true, s1);
      var d := Decrypt.Decrypt(aes, json, key, e.fs, true, s2);
      exists j :: 0 <= j < |Index(fs, rng).content|
        && Index(fs, rng).content[j] == ContentsRootItem(IndexName, Some(EntryKey(rng, j)))
        && IndexPath in d.fs && d.fs[IndexPath] == File(DecryptUnder(aes, EntryKey(rng, j), Plain(json, fs, rng)))
  {
    var j := IndexEntry(fs, rng);
    RoundTripAt(aes, json, rng, key, fs, uuid, s1, s2, j);
  }

  /** After the round trip, nothing exists that the pack did not have, besides the index file. */
  lemma RoundTripAddsNothing(aes: Cfb8.BlockCipher, json: JsonCodec, rng: nat -> CharsetIndex, key: string,
                             fs: Fs, uuid: string, s1: Schedule, s2: Schedule, q: Path)
    requires Setting(json, key, fs, uuid)
    requires q !in fs && q != IndexPath
    ensures var e := Encrypt.Encrypt(aes, json, rng, key, fs, Success(uuid), true, s1);
      q !in Decrypt.Decrypt(aes, json, key, e.fs, true, s2).fs
  {
    var e := Encrypt.Encrypt(aes, json, rng, key, fs, Success(uuid), true, s1);
    RoundTripIsStage(aes, json, rng, key, fs, uuid, s1, s2);
    DecryptRunUntouched(aes, fs, DecryptStart(json, rng, fs, e.fs), rng, q);
  }
}
