/**
 * The `encrypt` command: collect the pack's UUID and paths, ask for confirmation, write the
 * index file (header, then the encrypted JSON index) and encrypt every eligible file under
 * its own fresh key.
 */
module Encrypt {
  import opened Wrappers
  import opened Bytes
  import opened FileSystem
  import opened Enumeration
  import opened EnumerationFacts
  import opened Tasks
  import opened Pack
  import opened Rewrite
  import opened Contents
  import opened Cipher
  import Utf8
  import Cfb8

  /** Path prefixes that are never encrypted. */
  const DontEncrypt: seq<string> := ["manifest.json", "contents.json", "pack_icon.png", "texts/"]

  /** `should_skip`: the index path starts with one of `DontEncrypt` (a text prefix test). */
  predicate ShouldSkip(path: string) {
    exists k :: 0 <= k < |DontEncrypt| && DontEncrypt[k] <= path
  }

  /** Being skipped survives appending: the rule looks at a prefix only. */
  lemma ShouldSkipExtends(path: string, more: string)
    requires ShouldSkip(path)
    ensures ShouldSkip(path + more)
  {
    var k :| 0 <= k < |DontEncrypt| && DontEncrypt[k] <= path;
    assert DontEncrypt[k] <= path + more by {
      assert (path + more)[..|DontEncrypt[k]|] == path[..|DontEncrypt[k]|];
    }
  }

  /**
   * The prefix rule at work: the top-level names and everything under `texts/` are
   * skipped, and so is any name that merely begins like one of them; the same names one
   * directory down are not, and neither is the `texts` directory's separator-less name.
   */
  lemma ShouldSkipCases()
    ensures ShouldSkip("manifest.json") && ShouldSkip("contents.json") && ShouldSkip("pack_icon.png")
    ensures ShouldSkip("texts/") && ShouldSkip("texts/en_US.lang")
    ensures ShouldSkip("manifest.json.bak")
    ensures !ShouldSkip("sub/manifest.json") && !ShouldSkip("texts")
  {
    assert DontEncrypt[0] <= "manifest.json";
    assert DontEncrypt[1] <= "contents.json";
    assert DontEncrypt[2] <= "pack_icon.png";
    assert DontEncrypt[3] <= "texts/";
    assert DontEncrypt[3] <= "texts/en_US.lang";
    assert DontEncrypt[0] <= "manifest.json.bak";
    assert !ShouldSkip("sub/manifest.json") by {
      forall k | 0 <= k < |DontEncrypt| ensures !(DontEncrypt[k] <= "sub/manifest.json") {
        assert DontEncrypt[k][0] != 's';
      }
    }
    assert !ShouldSkip("texts") by {
      forall k | 0 <= k < |DontEncrypt| ensures !(DontEncrypt[k] <= "texts") {
        assert |DontEncrypt[k]| > |"texts"|;
      }
    }
  }

  /** `replace("\\", "/")`. */
  function ReplaceBackslash(s: string): (r: string)
    ensures |r| == |s|
    ensures forall i :: 0 <= i < |s| ==> r[i] == (if s[i] == '\\' then '/' else s[i])
  {
    if |s| == 0 then [] else [if s[0] == '\\' then '/' else s[0]] + ReplaceBackslash(s[1..])
  }

  lemma ReplaceBackslashNoop(s: string)
    requires '\\' !in s
    ensures ReplaceBackslash(s) == s
  {
  }

  /** The random draws of entry `j`'s key: the `32 * j`-th to the `32 * j + 31`-th of the stream. */
  function KeyDraws(rng: nat -> CharsetIndex, j: nat): nat -> CharsetIndex {
    i => rng(32 * j + i)
  }

  /** The fresh key of entry `j`. */
  function EntryKey(rng: nat -> CharsetIndex, j: nat): (key: string)
    ensures ValidKey(key)
  {
    GeneratedKeyIsValid(KeyDraws(rng, j));
    GenerateRandomKey(KeyDraws(rng, j))
  }

  /** Distinct entries' keys come from disjoint stretches of the random stream. */
  lemma EntryKeysIndependent(j1: nat, j2: nat, i1: nat, i2: nat)
    requires j1 != j2 && i1 < 32 && i2 < 32
    ensures 32 * j1 + i1 != 32 * j2 + i2
  {
    if j1 < j2 {
      assert 32 * j1 + i1 < 32 * (j1 + 1) <= 32 * j2;
    } else {
      assert 32 * j2 + i2 < 32 * (j2 + 1) <= 32 * j1;
    }
  }

  /**
   * The index: version 1, one record per enumerated path in enumeration order, recording
   * the path with backslashes made forward and a freshly generated key, for every entry,
   * directories and skipped files included.
   */
  function BuildIndex(es: seq<Entry>, rng: nat -> CharsetIndex): (root: ContentsRoot)
    ensures root.version == 1
    ensures |root.content| == |es|
    ensures forall j :: 0 <= j < |es| ==>
      root.content[j] == ContentsRootItem(ReplaceBackslash(Render(es[j])), Some(EntryKey(rng, j)))
  {
    ContentsRoot(1, seq(|es|, j requires 0 <= j < |es| => ContentsRootItem(ReplaceBackslash(Render(es[j])), Some(EntryKey(rng, j)))))
  }

  /** What the encrypting closure receives: a record's path and its key. */
  datatype Job = Job(path: string, key: string)

  function Jobs(content: seq<ContentsRootItem>): (jobs: seq<Job>)
    requires forall j :: 0 <= j < |content| ==> content[j].key.Some?
    ensures |jobs| == |content|
    ensures forall j :: 0 <= j < |content| ==> jobs[j] == Job(content[j].path, content[j].key.value)
  {
    seq(|content|, j requires 0 <= j < |content| => Job(content[j].path, content[j].key.value))
  }

  /** The node a job designates. */
  function JobTarget(job: Job): Option<Path> {
    Resolve(job.path)
  }

  /**
   * The encrypting closure: skipped paths and directories are left alone; any other path
   * is read, encrypted under the record's key and written back in place.
   */
  function EncryptFile(aes: Cfb8.BlockCipher, fs: Fs, job: Job): (r: (Fs, Outcome<TaskMessage>))
    ensures ShouldSkip(job.path) || IsDir(fs, JobTarget(job)) ==> r == (fs, Done)
    ensures !ShouldSkip(job.path) && !IsDir(fs, JobTarget(job)) && Read(fs, JobTarget(job)).None? ==>
      r == (fs, Failed(CantReadFile(Some(job.path))))
    ensures !ShouldSkip(job.path) && Read(fs, JobTarget(job)).Some? && !ValidKey(job.key) ==>
      r == (fs, Failed(CantEncrypt(InvalidKeyLength)))
    ensures !ShouldSkip(job.path) && Read(fs, JobTarget(job)).Some? && ValidKey(job.key) ==>
      var q := JobTarget(job).value;
      var k := Utf8.Encode(job.key);
      r == (fs[q := File(Cfb8.Encrypt(aes, k, IvOf(k), fs[q].data))], Done)
  {
    var p := JobTarget(job);
    if ShouldSkip(job.path) || IsDir(fs, p) then (fs, Done)
    else
      match Read(fs, p)
      case None => (fs, Failed(CantReadFile(Some(job.path))))
      case Some(data) =>
        match Aes256Cfb8Encrypt(aes, job.key, data)
        case Failure(e) => (fs, Failed(CantEncrypt(e)))
        case Success(c) =>
          match WriteFile(fs, p, c)
          case None => (fs, Failed(CantWriteFile))
          case Some(fs2) => (fs2, Done)
  }

  function EncryptTask(aes: Cfb8.BlockCipher): Task<Job> {
    (fs, job) => EncryptFile(aes, fs, job)
  }

  /** The encrypting closure touches only its own path, and only as that path's node dictates. */
  lemma EncryptTaskIsLocal(aes: Cfb8.BlockCipher)
    ensures Framed(EncryptTask(aes), JobTarget)
    ensures Local(EncryptTask(aes), JobTarget)
  {
    forall fs: Fs, job: Job, q: Path | JobTarget(job) != Some(q)
      ensures AgreeAt(fs, EncryptTask(aes)(fs, job).0, q)
    {
      assert EncryptTask(aes)(fs, job) == EncryptFile(aes, fs, job);
    }
    forall fs1: Fs, fs2: Fs, job: Job | JobTarget(job).None? || AgreeAt(fs1, fs2, JobTarget(job).value)
      ensures EncryptTask(aes)(fs1, job).1 == EncryptTask(aes)(fs2, job).1
      ensures JobTarget(job).Some? ==>
        AgreeAt(EncryptTask(aes)(fs1, job).0, EncryptTask(aes)(fs2, job).0, JobTarget(job).value)
    {
      assert EncryptTask(aes)(fs1, job) == EncryptFile(aes, fs1, job);
      assert EncryptTask(aes)(fs2, job) == EncryptFile(aes, fs2, job);
    }
  }

  /** The index file's bytes: the header, then the encrypted UTF-8 JSON text of the index. */
  function IndexFile(aes: Cfb8.BlockCipher, json: JsonCodec, key: string, header: seq<byte>, root: ContentsRoot): (r: Result<seq<byte>, Cipher.CipherError>)
    ensures r.Success? <==> ValidKey(key)
    ensures r.Success? ==> |r.value| == |header| + |Utf8.Encode(json.encode(root))|
    ensures r.Success? ==> r.value[..|header|] == header
    ensures r.Success? ==>
      r.value[|header|..] == Cfb8.Encrypt(aes, Utf8.Encode(key), IvOf(Utf8.Encode(key)), Utf8.Encode(json.encode(root)))
  {
    match Aes256Cfb8Encrypt(aes, key, Utf8.Encode(json.encode(root)))
    case Failure(e) => Failure(e)
    case Success(body) => Success(header + body)
  }

  /**
   * `encrypt`.  The UUID is what reading the manifest produced, `confirm` is the user's
   * answer, `rng` the stream of random draws and `s` the worker schedule.  The paths are
   * those `ListRelativePaths` computes (`Enumerate`).  The header is built by the corrected
   * builder, which rejects UUIDs longer than 239 bytes.
   */
  function Encrypt(aes: Cfb8.BlockCipher, json: JsonCodec, rng: nat -> CharsetIndex, key: string,
                   fs: Fs, uuid: Result<string, string>, confirm: bool, s: Schedule): (r: Run)
    ensures uuid.Failure? ==> r == Run(fs, Err(DataCollectionError(uuid.error)))
    ensures uuid.Success? && Enumerate(fs).Failure? ==> r == Run(fs, Err(FileSystemError))
    ensures uuid.Success? && Enumerate(fs).Success? && !confirm ==> r == Run(fs, Err(Abort))
    ensures !ValidKey(key) ==> r.status.Err? && !r.status.error.ProcessingError? && r.fs == fs
  {
    match uuid
    case Failure(m) => Run(fs, Err(DataCollectionError(m)))
    case Success(u) =>
      match Enumerate(fs)
      case Failure(_) => Run(fs, Err(FileSystemError))
      case Success(es) =>
        if !confirm then Run(fs, Err(Abort))
        else
          match GenerateContentsHeader(u)
          case Failure(e) => Run(fs, Err(ContentsGeneratingError(e)))
          case Success(header) =>
            var root := BuildIndex(es, rng);
            match IndexFile(aes, json, key, header, root)
            case Failure(e) => Run(fs, Err(CipherError(e)))
            case Success(bytes) =>
              match WriteFile(fs, Some(IndexPath), bytes)
              case None => Run(fs, Err(FileSystemError))
              case Some(fs1) =>
                var (fs2, outs) := RunTasks(EncryptTask(aes), fs1, Jobs(root.content));
                match Collect(outs, s)
                case Success(_) => Run(fs2, Ok)
                case Failure(errors) => Run(fs2, Err(ProcessingError(errors)))
  }

  /** Any failure before the per-file stage leaves the pack directory exactly as it was. */
  lemma EncryptFailsCleanly(aes: Cfb8.BlockCipher, json: JsonCodec, rng: nat -> CharsetIndex, key: string,
                            fs: Fs, uuid: Result<string, string>, confirm: bool, s: Schedule)
    ensures var r := Encrypt(aes, json, rng, key, fs, uuid, confirm, s);
      r.status.Err? && !r.status.error.ProcessingError? ==> r.fs == fs
    ensures Encrypt(aes, json, rng, key, fs, uuid, confirm, s).status != Panic
  {
    if uuid.Success? && Enumerate(fs).Success? && confirm && GenerateContentsHeader(uuid.value).Success? {
      var root := BuildIndex(Enumerate(fs).value, rng);
      var header := GenerateContentsHeader(uuid.value).value;
      if IndexFile(aes, json, key, header, root).Success? {
        var bytes := IndexFile(aes, json, key, header, root).value;
        if WriteFile(fs, Some(IndexPath), bytes).Some? {
          var fs1 := WriteFile(fs, Some(IndexPath), bytes).value;
          var r := RunTasks(EncryptTask(aes), fs1, Jobs(root.content));
          assert Encrypt(aes, json, rng, key, fs, uuid, confirm, s).status
              == if Collect(r.1, s).Success? then Ok else Err(ProcessingError(Collect(r.1, s).error));
        }
      }
    }
  }
}
