/**
 * What the encrypt and decrypt commands share: their error type, the outcome of a whole
 * command on the pack directory, and the JSON codec they are given.
 */
module Pack {
  import opened Wrappers
  import opened FileSystem
  import Cipher
  import Contents

  /** The message a failing per-file task reports (the text of the source's `format!`, abstracted). */
  datatype TaskMessage =
    | CantReadFile(path: Option<string>)
    | CantEncrypt(cipherError: Cipher.CipherError)
    | CantDecryptFile(cipherError: Cipher.CipherError)
    | CantWriteFile

  /** `PackEncryptionError`; the wrapped library errors are kept only where the model has them. */
  datatype PackError =
    | ContentsDecodingError
    | ContentsGeneratingError(headerError: Contents.HeaderError)
    | JsonError
    | ProcessingError(messages: seq<TaskMessage>)
    | DataCollectionError(reason: string)
    | CipherError(cipherError: Cipher.CipherError)
    | FileSystemError
    | Abort

  /** How a command ends: `Ok(())`, `Err(e)`, or a panic (an out-of-range slice). */
  datatype Status = Ok | Err(error: PackError) | Panic

  /** The pack directory after a command, and how the command ended. */
  datatype Run = Run(fs: Fs, status: Status)

  /** `serde_json`: the index to JSON text, and JSON text to an index (`None` for any error). */
  datatype JsonCodec = JsonCodec(encode: Contents.ContentsRoot -> string, decode: string -> Option<Contents.ContentsRoot>)

  /** Decoding what was encoded gives the index back. */
  ghost predicate Lawful(json: JsonCodec) {
    forall root :: json.decode(json.encode(root)) == Some(root)
  }

  /** The name of the index file at the top of the pack directory. */
  const IndexName: string := "contents.json"

  /** The index file's path. */
  const IndexPath: Path := [IndexName]
}
