# kotik pack encryption, modelled in Dafny

kotik encrypts and decrypts resource packs in place. A pack is a directory tree. The project models:

- `encrypt` with a master key:
  - reads the pack's UUID;
  - lists every path below the pack directory;
  - writes an index file `contents.json`: a 256-byte header, then the index JSON encrypted under the master key;
  - encrypts every file not on the skip list in place, each under its own random key recorded in the index.
- `decrypt`:
  - reads the index back;
  - overwrites `contents.json` with the index's plaintext;
  - decrypts every listed path that is not a directory.

The model follows the program's own structure.

| file | module | what it holds |
|---|---|---|
| `wrappers.dfy` | `Wrappers`, `Bytes` | `Option` and `Result`; bytes as integers `0..255` with bitwise xor |
| `utf8.dfy` | `Utf8` | strict UTF-8 encoding and decoding of strings (`as_bytes`, `String::from_utf8`), with their round trip |
| `cipher.dfy` | `Cfb8` | CFB8 mode as section 6.3 of NIST SP 800-38A defines it, over an arbitrary block function |
| `cipher.dfy` | `Cipher` | the key check, the IV as the first 16 key bytes, and random 32-character alphanumeric keys |
| `contents.dfy` | `Contents` | the index records and the 256-byte header builder |
| `comments.dfy` | `Comments` | `clear_comments`: a reference state machine, and the in-place compaction loop proved equal to it |
| `filesystem.dfy` | `FileSystem` | an in-memory directory tree; `read`, `write_file`, `is_dir`, and joining relative path strings |
| `enumeration.dfy` | `Enumeration` | `list_relative_paths`: a recursive reference, and the work-list loop proved equal to it |
| `enumeration_facts.dfy` | `EnumerationFacts` | the listing names every node exactly once and fails exactly when a directory cannot be listed |
| `tasks.dfy` | `Tasks` | `parallel_processing`: the verdict and the error multiset do not depend on the thread schedule |
| `pack.dfy` | `Pack` | the shared error type, a command's outcome, and the JSON codec |
| `rewrite.dfy` | `Rewrite` | running per-file closures over the tree when each one touches only its own path |
| `encrypt.dfy`, `decrypt.dfy` | `Encrypt`, `Decrypt` | the two commands and their per-file closures |
| `roundtrip.dfy` | `RoundTrip` | encrypting and then decrypting with the same master key |

Several things become parameters:

- **The AES-256 block function** is a parameter `aes`. CFB only calls the forward function, so nothing about it is assumed.
- **The JSON codec (serde_json)** is a pair of functions. The round trip requires `Lawful`: decoding what was encoded gives it back.
- **The random generator** is a stream of draws, each an index into the 62-character set.
- **The manifest's UUID** is the result of reading the manifest.
- **The user's confirmation** is a boolean.
- **The thread schedule** is a `Schedule`: the worker count and which worker took each task.

The round-trip theorems state what happens to a pack under these conditions:

- it is a well-formed tree;
- no name contains a backslash;
- every directory can be listed;
- an existing `contents.json` is a file;
- the master key is valid;
- the UUID fits the header.

Under those conditions:

- both commands succeed;
- every directory below the pack directory, and every file not on the skip list other than `contents.json`, comes back byte for byte;
- no new path appears except the index.

There are also two surprises, both proved:

- A file on the skip list was never encrypted. `decrypt` does not consult the skip list, so it "decrypts" that file under the key its record was given, and garbles it.
- `contents.json` is left as the plaintext JSON of the index. If the pack already had a `contents.json`, that file was listed and given a key like any other entry, so `decrypt` then garbles the plaintext too.

## Model

| member | source | states |
|---|---|---|
| `Cipher.GetKeyAsBytes` | src/utils/cipher.rs:13-19 | definition: succeeds exactly when the key's UTF-8 encoding is 32 bytes, and returns those bytes; otherwise `InvalidKeyLength` |
| `Cipher.IvOf` | src/utils/cipher.rs:23 | definition: the IV's 16 bytes are the key's first 16 bytes |
| `Cipher.Aes256Cfb8Encrypt` | src/utils/cipher.rs:21-31 | fails, with `InvalidKeyLength`, exactly when the key is invalid; otherwise the ciphertext has the plaintext's length and is CFB8 under the key bytes and the derived IV |
| `Cipher.Aes256Cfb8Decrypt` | src/utils/cipher.rs:33-43 | the same for decryption |
| `Cipher.DecryptAfterEncrypt` | src/utils/cipher.rs:21-43 | with a valid key, decrypting the encryption gives back the original bytes |
| `Cipher.EncryptAfterDecrypt` | src/utils/cipher.rs:21-43 | with a valid key, encrypting the decryption gives back the ciphertext, so the cipher is a bijection on each length |
| `Cfb8.EncryptIsStandard` | src/utils/cipher.rs:25-28 | ciphertext byte j is plaintext byte j xor the first byte of the block function applied to I_j, the IV shifted left by the j ciphertext bytes before it (section 6.3 of NIST SP 800-38A) |
| `Cfb8.DecryptIsStandard` | src/utils/cipher.rs:37-40 | decryption rebuilds each I_j from the ciphertext alone and xors in the same way |
| `Cfb8.DecryptEncrypt` | src/utils/cipher.rs:25-40 | CFB8 decryption undoes CFB8 encryption for any block function, key and IV |
| `Cipher.CharsetIsAlphanumeric` | src/utils/cipher.rs:46-48 | the character set has 62 characters, all ASCII letters or digits, and contains every one of them |
| `Cipher.GenerateRandomKey` | src/utils/cipher.rs:45-57 | a generated key has 32 characters, all alphanumeric |
| `Cipher.GeneratedKeyIsValid` | src/utils/cipher.rs:45-57 | whatever is drawn, a generated key passes the 32-byte key check |
| `Utf8.DecodeEncode` | src/packs/encryption/decrypt.rs:40-44 | strict UTF-8 decoding of any string's encoding gives the string back, so the index text written by the encryptor decodes |
| `Contents.Preamble` | src/packs/contents.rs:21-28 | the 16 bytes before the UUID are a zero i32, the magic number 0x9BCFB9FC little-endian, and a zero i64 |
| `Contents.GenerateContentsHeaderAsWritten` | src/packs/contents.rs:17-47 | as written, UUIDs over 255 bytes are rejected, UUIDs of 240 to 255 bytes panic on the padding underflow, and any other UUID yields a header with the full 256-byte layout |
| `Contents.UuidLengthGap` | src/packs/contents.rs:31-44 | a 240-byte UUID passes the 255-byte check and then panics |
| `Contents.GenerateContentsHeader` | src/packs/contents.rs:17-47 | corrected builder: succeeds exactly when the UUID fits the 239-byte field, with the full 256-byte layout (length byte, UUID bytes, zero padding); otherwise `InvalidInput` |
| `Contents.CorrectedHeaderAgrees` | src/packs/contents.rs:17-47 | wherever the builder as written produces a header, the corrected one produces the same header, and it rejects whatever the builder as written rejects |
| `Contents.HeaderRecoversUuid` | src/packs/contents.rs:39-40 | the UUID can be read back from a built header: the length byte, then that many bytes decoding to the UUID |
| `Contents.BodyAfterHeader` | src/packs/encryption/decrypt.rs:28-33 | a fact about slicing, used by the round trip: cutting a header-prefixed index file at 0x100 gives exactly what was written after the header |
| `Comments.SkipLine` | src/utils/comments.rs:18-20 | the inner loop stops at the first newline at or after its start, or at the end of the text |
| `Comments.ClearComments` | src/utils/comments.rs:2-47 | the in-place compaction with its write pointer yields exactly the reference machine's output, never longer than the input |
| `Comments.Advance` | src/utils/comments.rs:12-43 | one loop iteration moves the read pointer and the state as the reference step does, and appends the character to the written prefix exactly when the step keeps it |
| `Comments.SkipComment` | src/utils/comments.rs:18-20 | the inner loop's result is the position of the next newline |
| `Comments.Keep` | src/utils/comments.rs:38-41 | moving the read character to the write pointer extends the written prefix by that character and leaves the unread characters alone |
| `Comments.StripIsSubsequence` | src/utils/comments.rs:2-47 | the result is the input with characters deleted: nothing added, nothing reordered |
| `Comments.StripWithoutSlash` | src/utils/comments.rs:17-33 | text without `/` comes back unchanged |
| `Comments.LineComment` | src/utils/comments.rs:17-21 | outside a string, `//` removes everything up to the newline; the newline is kept |
| `Comments.BlockComment` | src/utils/comments.rs:22-29 | outside a string, `/*` through the first `*/` after it is removed entirely, provided the comment holds no `"`, no `//`, and no `/` just before the `*/` |
| `Comments.CommentEndSkipped` | src/utils/comments.rs:17-29 | two examples of a `*/` that goes unseen inside a block comment, and so of why the conditions of `Comments.BlockComment` are needed: `//` skips over it, and a `/` just before it starts a fresh `/*` |
| `Comments.UnterminatedBlockComment` | src/utils/comments.rs:22-33 | outside a string, a `/*` with no `*/` anywhere after it removes the rest of the text, whatever quotes or slashes follow |
| `Comments.StringLiteral` | src/utils/comments.rs:12-16 | a string literal, from its opening quote to the next quote, is copied verbatim, comment markers included |
| `Comments.QuoteHidesCommentEnd` | src/utils/comments.rs:12-29 | an example on two fixed texts: a quote inside a block comment still toggles the string state and hides the `*/`, so the rest of the text is lost; without the quote the comment closes |
| `FileSystem.Read` | src/packs/encryption/encrypt.rs:79-80 | definition: reading succeeds exactly on an existing file, and gives its bytes |
| `FileSystem.WriteFile` | src/packs/pack_encryption.rs:28-32 | the write succeeds exactly on an existing file or where a file can be created (a listable parent directory and a valid name). It replaces an existing file's bytes and changes nothing else; a new file is also appended to its parent's listing, and nothing else changes. Writing onto a directory fails |
| `FileSystem.ResolveJoin` | src/packs/encryption/encrypt.rs:73-74 | joining the pack directory with a relative path string made from valid names, with or without a trailing separator, designates exactly that path |
| `Enumeration.ReadDir` | src/packs/pack_encryption.rs:44-45 | definition: listing succeeds exactly on a listable directory whose listed children exist, and gives its names in listing order |
| `Enumeration.ChildEntries` | src/packs/pack_encryption.rs:46-63 | each listed name becomes one entry, in listing order, marked as a directory exactly when it is one |
| `Enumeration.SubDirs` | src/packs/pack_encryption.rs:49-51 | exactly the listed children that are directories are pushed, each one level below the listed directory |
| `Enumeration.ListChildren` | src/packs/pack_encryption.rs:44-64 | the loop over one listing records every child entry and pushes every child directory |
| `Enumeration.ListRelativePaths` | src/packs/pack_encryption.rs:35-68 | the work-list loop computes exactly the recursive depth-first reference listing, errors included |
| `EnumerationFacts.EnumerateSound` | src/packs/pack_encryption.rs:35-68 | on a well-formed tree, listing fails exactly when some directory cannot be listed; otherwise it names every node but the pack directory exactly once, marked as a directory exactly when it is one |
| `EnumerationFacts.ResolveRender` | src/packs/pack_encryption.rs:53-62 | an entry's text, with its trailing separator for directories, joined to the pack directory designates the entry's node again |
| `Tasks.WorkerCount` | src/packs/pack_encryption.rs:82-84 | definition, recording which worker count the program picks: the reported parallelism, or one thread when none is reported. The theorems of `Tasks` hold for every worker count |
| `Tasks.Apply` | src/packs/pack_encryption.rs:91-110 | definition: every task is processed exactly once, producing its own outcome |
| `Tasks.GatherOwnedBelow` | src/packs/pack_encryption.rs:115-119 | joining the first n workers' error lists collects, as a multiset, the failures of exactly the tasks those workers took |
| `Tasks.CollectSound` | src/packs/pack_encryption.rs:113-126 | for any schedule, the result is `Ok` exactly when no task failed; otherwise the error list holds exactly one error per failing task, as a multiset |
| `Tasks.ScheduleIndependent` | src/packs/pack_encryption.rs:74-127 | any two schedules, with any worker counts, give the same verdict and the same multiset of errors |
| `Tasks.SingleWorkerInOrder` | src/packs/pack_encryption.rs:98-119 | with one worker, the errors come back in task order |
| `Encrypt.ShouldSkipExtends` | src/packs/encryption/encrypt.rs:99-103 | the skip test is a text prefix test: a skipped path stays skipped whatever is appended |
| `Encrypt.ShouldSkipCases` | src/packs/encryption/encrypt.rs:12-17 | the four top-level names and everything under `texts/` are skipped, and so is any name that only begins like them; the same names one directory down are not, and neither is the bare `texts` |
| `Encrypt.ReplaceBackslash` | src/packs/encryption/encrypt.rs:46 | every backslash becomes `/` and every other character stays where it was |
| `Encrypt.EntryKey` | src/packs/encryption/encrypt.rs:47 | the key each index record receives always passes the key check |
| `Encrypt.BuildIndex` | src/packs/encryption/encrypt.rs:44-54 | definition: version 1, one record per listed path in listing order, each with the path (backslashes made `/`) and a fresh key, directories and skipped files included |
| `Encrypt.Jobs` | src/packs/encryption/encrypt.rs:71-73 | definition: each record becomes one task with its own path and key, in record order |
| `Encrypt.EncryptFile` | src/packs/encryption/encrypt.rs:71-95 | skipped paths and directories are left alone; an unreadable path fails the task with its path; an invalid key fails it; otherwise exactly that file is replaced by its encryption under the record's key |
| `Encrypt.EncryptTaskIsLocal` | src/packs/encryption/encrypt.rs:71-95 | the encrypting closure changes at most the node its path designates, and what it does depends only on that node |
| `Encrypt.IndexFile` | src/packs/encryption/encrypt.rs:56-63 | the index file succeeds exactly under a valid master key; it is the header followed by the CFB8 encryption of the index's UTF-8 JSON text, under the master key's bytes and the IV derived from them |
| `Encrypt.Encrypt` | src/packs/encryption/encrypt.rs:23-97 | a manifest failure, a listing failure or a declined confirmation each end the command with the pack untouched; an invalid master key always ends the command in an error other than `ProcessingError`, with the pack untouched, so it never reaches the per-file stage |
| `Encrypt.EncryptFailsCleanly` | src/packs/encryption/encrypt.rs:23-68 | every failure other than the per-file stage's leaves the pack exactly as it was; with the corrected header builder, `encrypt` never panics |
| `Decrypt.DecryptFile` | src/packs/encryption/decrypt.rs:47-78 | directories and records without a key are left alone, with no skip-list test; an unreadable path fails the task; an invalid key fails it; otherwise exactly that file is replaced by its decryption under the record's key |
| `Decrypt.DecryptTaskIsLocal` | src/packs/encryption/decrypt.rs:47-78 | the decrypting closure changes at most the node its path designates, and what it does depends only on that node |
| `Decrypt.Decrypt` | src/packs/encryption/decrypt.rs:12-20 | a declined confirmation ends the command with the pack untouched |
| `Decrypt.DecryptIndexStage` | src/packs/encryption/decrypt.rs:22-44 | a missing index is a file-system error, an index under 256 bytes panics, and a bad master key is a cipher error, all with nothing written; otherwise the index is overwritten with its plaintext before it is checked, so a non-UTF-8 or non-JSON plaintext fails with the plaintext already in place |
| `Decrypt.DecryptFailsCleanly` | src/packs/encryption/decrypt.rs:12-46 | every failure other than the per-file stage's leaves every path except the index file exactly as it was |
| `RoundTrip.EncryptResult` | src/packs/encryption/encrypt.rs:44-97 | on an eligible pack, with a valid master key and a UUID that fits, `encrypt` returns `Ok`. `contents.json` then holds the header followed by the encrypted index, every listed file not on the skip list holds its encryption under its record's key, every other node below the pack directory is unchanged, and no other path appears |
| `RoundTrip.RoundTripSucceeds` | src/packs/encryption/decrypt.rs:12-79 | with the same master key on an eligible pack, `encrypt` succeeds and `decrypt` then succeeds, for any schedules |
| `RoundTrip.RoundTripRestores` | src/packs/encryption/decrypt.rs:47-78 | after the round trip, every directory but the pack directory itself, and every file not on the skip list other than `contents.json`, is exactly as before |
| `RoundTrip.RoundTripGarblesSkipped` | src/packs/encryption/decrypt.rs:54-61 | after the round trip, a skipped file, which was never encrypted, has been decrypted under the key its record got |
| `RoundTrip.RoundTripIndexFresh` | src/packs/encryption/decrypt.rs:35-37 | after the round trip, a pack that had no `contents.json` holds the index's plaintext JSON there |
| `RoundTrip.RoundTripIndexGarbled` | src/packs/encryption/encrypt.rs:44-49 | after the round trip, a pack that already had a `contents.json` holds the index's plaintext decrypted under the key the index gave that file |
| `RoundTrip.RoundTripAddsNothing` | src/packs/encryption/decrypt.rs:47-78 | after the round trip, no path exists that the pack lacked, other than the index |

## Left out

- Threads, channels and the real schedule. `parallel_processing` is modelled by its outcomes and by a `Schedule` saying which worker took which task. The per-file closures run one after another over the tree. `Encrypt.EncryptTaskIsLocal` and `Decrypt.DecryptTaskIsLocal` show that each closure touches only the node its own path designates. So the sequential run matches the threaded one only when no two records designate the same node, which holds for every index `encrypt` builds. `decrypt` reads whatever index it finds. With duplicate records, or with records such as `a` and `./a`, the program's threads race on one file. The model's sequential result is then only one of the program's possible outcomes. The order of the error messages is modelled for one worker and as a multiset otherwise.
- The file system is an in-memory map from paths to nodes. The following are not modelled:
  - I/O errors beyond missing, unreadable and unlistable nodes;
  - permissions;
  - symbolic links;
  - concurrent changes by other processes;
  - paths that leave the pack directory. `Resolve` maps an absolute path, or one containing `..`, to no node, so the per-file closures fail with `CantReadFile`. The program's `Path::join` would follow such a path out of the pack directory, and read and rewrite the file it names there.
- A record naming a file with a trailing `/`, such as `a/`, still resolves to the file `a`. Opening `a/` as a file fails on a real file system.
- The separator is fixed to `/`, as on Unix. On Windows `MAIN_SEPARATOR` is `\` and the backslash replacement in the index would matter. Names containing a backslash are excluded from the round-trip theorems.
- `to_string_lossy` is the identity: names are Dafny strings, which are always valid Unicode.
- AES-256 itself is a parameter, and so is serde_json. The JSON law is a hypothesis (`Lawful`) of the round trip, not something proved.
- `get_uuid_from_manifest` (`manifest.rs`), the confirmation prompt and the command-line parsing (`cli.rs`, `parse_pack_encryption_args`) are not part of this model. The UUID, the answer and the master key are parameters.
- The text of error messages and the progress output are abstracted to constructors. `CantReadFile` keeps the path only where the encryptor prints it.
- `Encrypt.Encrypt`: builds the header with the corrected builder (see Findings). With the builder as written, a UUID of 240 to 255 bytes would panic instead of returning `ContentsGeneratingError`.
- `Encrypt.EncryptFailsCleanly`: "never panics" holds for the model, which uses the corrected header builder. The program panics for a UUID of 240 to 255 bytes (see Findings).
- `Decrypt.Decrypt`: its own contract states only the aborted case. `Decrypt.DecryptIndexStage` and `Decrypt.DecryptFailsCleanly` state the index stage and the error cases, and `RoundTrip` states the per-file stage.
- `Contents.ContentsRootItem`: the key is an optional string. The struct declares a plain `String`, but the decryptor matches it as present or absent. The model follows the decryptor, and the encryptor always fills the key in.
- The code keys every entry, directories and skipped files included. Its work list is a stack, so the listing is depth-first.

## Findings

| source | as written | input that shows it | evidently intended | confidence | as-written member | corrected member |
|---|---|---|---|---|---|---|
| src/packs/contents.rs:31-44 | the length check rejects only UUIDs over 255 bytes, but the padding `0xEF - len` is computed in `usize`, so lengths 240 to 255 underflow and panic | a UUID of 240 ASCII characters | reject any UUID longer than the 239-byte field with `InvalidInput`, so that the header is always 256 bytes | not executed | `Contents.GenerateContentsHeaderAsWritten` (with `Contents.UuidLengthGap`) | `Contents.GenerateContentsHeader` (with `Contents.CorrectedHeaderAgrees`) |
