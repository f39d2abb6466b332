/**
 * The `decrypt` command: ask for confirmation, decrypt the index file's body with the
 * master key, write the plaintext back over the index file, parse it, then decrypt every
 * recorded file under its own key.
 */
module Decrypt {
  import opened Wrappers
  import opened Bytes
  import opened FileSystem
  import opened Tasks
  import opened Pack
  import opened Rewrite
  import opened Contents
  import opened Cipher
  import Utf8
  import Cfb8

  /** The node a record designates. */
  function ItemTarget(item: ContentsRootItem): Option<Path> {
    Resolve(item.path)
  }

  /**
   * The decrypting closure: directories and records without a key are left alone; any
   * other path is read, decrypted under the record's key and written back.  The skip list
   * of the encryptor is not consulted.
   */
  function DecryptFile(aes: Cfb8.BlockCipher, fs: Fs, item: ContentsRootItem): (r: (Fs, Outcome<TaskMessage>))
    ensures IsDir(fs, ItemTarget(item)) || item.key.None? ==> r == (fs, Done)
    ensures item.key.Some? && !IsDir(fs, ItemTarget(item)) && Read(fs, ItemTarget(item)).None? ==>
      r == (fs, Failed(CantReadFile(None)))
    ensures item.key.Some? && Read(fs, ItemTarget(item)).Some? && !ValidKey(item.key.value) ==>
      r == (fs, Failed(CantDecryptFile(InvalidKeyLength)))
    ensures item.key.Some? && Read(fs, ItemTarget(item)).Some? && ValidKey(item.key.value) ==>
      var q := ItemTarget(item).value;
      var k := Utf8.Encode(item.key.value);
      r == (fs[q := File(Cfb8.Decrypt(aes, k, IvOf(k), fs[q].data))], Done)
  {
    var p := ItemTarget(item);
    if IsDir(fs, p) then (fs, Done)
    else
      match item.key
      case None => (fs, Done)
      case Some(key) =>
        match Read(fs, p)
        case None => (fs, Failed(CantReadFile(None)))
        case Some(data) =>
          match Aes256Cfb8Decrypt(aes, key, data)
          case Failure(e) => (fs, Failed(CantDecryptFile(e)))
          case Success(plain) =>
            match WriteFile(fs, p, plain)
            case None => (fs, Failed(CantWriteFile))
            case Some(fs2) => (fs2, Done)
  }

  function DecryptTask(aes: Cfb8.BlockCipher): Task<ContentsRootItem> {
    (fs, item) => DecryptFile(aes, fs, item)
  }

  /** The decrypting closure touches only its own path, and only as that path's node dictates. */
  lemma DecryptTaskIsLocal(aes: Cfb8.BlockCipher)
    ensures Framed(DecryptTask(aes), ItemTarget)
    ensures Local(DecryptTask(aes), ItemTarget)
  {
    forall fs: Fs, item: ContentsRootItem, q: Path | ItemTarget(item) != Some(q)
      ensures AgreeAt(fs, DecryptTask(aes)(fs, item).0, q)
    {
      assert DecryptTask(aes)(fs, item) == DecryptFile(aes, fs, item);
    }
    forall fs1: Fs, fs2: Fs, item: ContentsRootItem | ItemTarget(item).None? || AgreeAt(fs1, fs2, ItemTarget(item).value)
      ensures DecryptTask(aes)(fs1, item).1 == DecryptTask(aes)(fs2, item).1
      ensures ItemTarget(item).Some? ==>
        AgreeAt(DecryptTask(aes)(fs1, item).0, DecryptTask(aes)(fs2, item).0, ItemTarget(item).value)
    {
      assert DecryptTask(aes)(fs1, item) == DecryptFile(aes, fs1, item);
      assert DecryptTask(aes)(fs2, item) == DecryptFile(aes, fs2, item);
    }
  }

  /**
   * `decrypt`.  `confirm` is the user's answer and `s` the worker schedule.  An index file
   * shorter than the header makes the slice from offset `0x100` panic.
   */
  function Decrypt(aes: Cfb8.BlockCipher, json: JsonCodec, key: string, fs: Fs, confirm: bool, s: Schedule): (r: Run)
    ensures !confirm ==> r == Run(fs, Err(Abort))
  {
    if !confirm then Run(fs, Err(Abort))
    else
      match Read(fs, Some(IndexPath))
      case None => Run(fs, Err(FileSystemError))
      case Some(stored) =>
        if |stored| < HeaderSize then Run(fs, Panic)
        else
          match Aes256Cfb8Decrypt(aes, key, stored[HeaderSize..])
          case Failure(e) => Run(fs, Err(CipherError(e)))
          case Success(plain) =>
            match WriteFile(fs, Some(IndexPath), plain)
            case None => Run(fs, Err(FileSystemError))
            case Some(fs1) =>
              match Utf8.Decode(plain)
              case None => Run(fs1, Err(ContentsDecodingError))
              case Some(text) =>
                match json.decode(text)
                case None => Run(fs1, Err(JsonError))
                case Some(root) =>
                  var (fs2, outs) := RunTasks(DecryptTask(aes), fs1, root.content);
                  match Collect(outs, s)
                  case Success(_) => Run(fs2, Ok)
                  case Failure(errors) => Run(fs2, Err(ProcessingError(errors)))
  }

  /** The plaintext the index file's body decrypts to under the master key. */
  function IndexPlaintext(aes: Cfb8.BlockCipher, key: string, stored: seq<byte>): seq<byte>
    requires ValidKey(key) && |stored| >= HeaderSize
  {
    var k := Utf8.Encode(key);
    Cfb8.Decrypt(aes, k, IvOf(k), stored[HeaderSize..])
  }

  /**
   * The index file's fate before the per-file stage: missing or a directory gives a file
   * system error, shorter than the header a panic, a bad master key a cipher error, all
   * with nothing written; otherwise it is overwritten with the decrypted body before that
   * body is checked, so a body that is not UTF-8, or not a JSON index, fails with the
   * plaintext already in place.
   */
  lemma DecryptIndexStage(aes: Cfb8.BlockCipher, json: JsonCodec, key: string, fs: Fs, s: Schedule)
    ensures var r := Decrypt(aes, json, key, fs, true, s);
      && (Read(fs, Some(IndexPath)).None? ==> r == Run(fs, Err(FileSystemError)))
      && (Read(fs, Some(IndexPath)).Some? && |Read(fs, Some(IndexPath)).value| < HeaderSize ==> r == Run(fs, Panic))
      && (Read(fs, Some(IndexPath)).Some? && |Read(fs, Some(IndexPath)).value| >= HeaderSize && !ValidKey(key) ==>
            r == Run(fs, Err(CipherError(InvalidKeyLength))))
    ensures var r := Decrypt(aes, json, key, fs, true, s);
      Read(fs, Some(IndexPath)).Some? && |Read(fs, Some(IndexPath)).value| >= HeaderSize && ValidKey(key) ==>
        var plain := IndexPlaintext(aes, key, Read(fs, Some(IndexPath)).value);
        && (Utf8.Decode(plain).None? ==> r == Run(fs[IndexPath := File(plain)], Err(ContentsDecodingError)))
        && (Utf8.Decode(plain).Some? && json.decode(Utf8.Decode(plain).value).None? ==>
              r == Run(fs[IndexPath := File(plain)], Err(JsonError)))
  {
  }

  /** Only the per-file stage reports `ProcessingError`; any other error leaves every file but the index untouched. */
  lemma DecryptFailsCleanly(aes: Cfb8.BlockCipher, json: JsonCodec, key: string, fs: Fs, confirm: bool, s: Schedule)
    ensures var r := Decrypt(aes, json, key, fs, confirm, s);
      r.status.Err? && !r.status.error.ProcessingError? ==>
        forall q :: q != IndexPath ==> AgreeAt(fs, r.fs, q)
  {
  }
}
