# rs-git object store, modelled in Dafny

This project models the content-addressing path of `rs-git`, a small
version-control object store written in Rust. It covers five pieces:

- A `Blob` holds the raw bytes of a file.
- `Object::from_blob` pairs those bytes with their SHA-1 digest.
- The digest is rendered as 40 lowercase hex characters.
- The first 2 characters name a fan-out directory under `.git/objects` and the other 38 name the file.
- `Object::save` writes the bytes to that path.

Modules:

- `Bytes` (`bytes.dfy`): bytes, 20-byte digests, and SHA-1 as a function type.
- `Hex` (`hex.dfy`): lowercase base16 encoding (section 8 of RFC 4648), its decoder, and the round trips.
- `FileSystem` (`filesystem.dfy`): an abstract filesystem, meaning a set of directory paths plus a map from file paths to bytes. It also defines `create_dir`, `File::create`, `write_all` and reading a whole file.
- `Utils` (`utils.dfy`): blobs, objects, address derivation, `save`, and the store-level properties.
- `Results` (`results.dfy`): `Option` and `Result`.

SHA-1 comes from an external crate and is not modelled. Every member that
hashes takes it as a parameter `sha1: Sha1`, which is a function from byte
sequences to 20-byte digests. Each property therefore holds for any
deterministic 20-byte hash. `save` is a pure function from a filesystem state
to an `Effect`, which pairs the resulting state with `Done` or `Failed(error)`.
A failure does not roll back earlier steps: if `create_dir` succeeds and
`File::create` then fails, the new directory remains, as it would on disk.

Unlike git's own object format, `src/utils.rs` stores and hashes the raw
bytes, and its store update is simpler than git's:

- There is no `blob <n>\0` header. The digest and the stored file both cover the raw bytes only.
- There are no tree objects.
- The fan-out directory is made with the non-recursive `create_dir`, and only when `is_dir` reports it missing. If `.git/objects` does not exist, `save` fails with `NotFound`.
- An existing object file is not skipped. `File::create` truncates it and the bytes are written again.

## Model

| member | source | states |
|---|---|---|
| `Utils.FromBlob` | src/utils.rs:18-23 | the object's data is the blob's bytes, unchanged and in order, and its digest is the hash of that data |
| `Utils.HashDependsOnlyOnData` | src/utils.rs:55-62 | `Hash`, SHA-1 of the blob's data: blobs with equal data have equal digests, and a digest is always 20 bytes |
| `Utils.FromFile` | src/utils.rs:47-52 | reading a blob succeeds exactly when the path is a file, and the blob holds the file's whole content |
| `Hex.Encode` | src/utils.rs:26 | the hex string is twice as long as the digest; byte i gives characters 2i and 2i+1, high nibble first |
| `Hex.EncodeIsLowercaseHex` | src/utils.rs:26 | every character of the rendering is one of `0-9a-f` |
| `Hex.DecodeEncode` | src/utils.rs:26 | decoding the rendering gives back the exact bytes |
| `Hex.EncodeDecode` | src/utils.rs:26 | a string that decodes at all is the rendering of the bytes it decodes to |
| `Hex.DecodeIffEncode` | src/utils.rs:26 | `s` decodes to `bs` if and only if `bs` renders as `s` |
| `Hex.EncodeInjective` | src/utils.rs:26 | byte sequences with equal renderings are equal |
| `Utils.AddressOf` | src/utils.rs:26-28 | the directory name has 2 characters and the file name 38; together they form the full hex string; the directory is the first byte's hex and the file name is the hex of the other 19 bytes |
| `Utils.AddressDecodes` | src/utils.rs:26-28 | reading directory name plus file name back as hex gives the digest |
| `Utils.AddressInjective` | src/utils.rs:26-28 | distinct digests give distinct (directory, file name) pairs |
| `Utils.ObjectPathInjective` | src/utils.rs:27-32 | distinct digests give distinct object file paths (`ObjectPath`, the `dirname.join(&filename)` given to `File::create`) |
| `Utils.SameFanoutIffSameFirstByte` | src/utils.rs:27 | two digests share a fan-out directory (`DirPath`, `.git/objects` joined with `&hash[..2]`) exactly when their first bytes are equal |
| `FileSystem.CreateDir` | src/utils.rs:30 | `create_dir` succeeds exactly when nothing exists at the path and its parent is a directory; it then adds exactly that directory and keeps the filesystem valid |
| `FileSystem.CreateFile` | src/utils.rs:32 | `File::create` succeeds exactly when the path is not a directory and its parent is one; it then leaves exactly that file, empty, and changes nothing else |
| `FileSystem.WriteAll` | src/utils.rs:33 | `write_all` appends the data to that one file only; no other file and no directory changes |
| `FileSystem.ReadFile` | src/utils.rs:48-50 | reading succeeds exactly on a file and returns its whole content |
| `Utils.Save` | src/utils.rs:25-35 | `save` succeeds exactly when the fan-out directory is a directory or can be created and the object path is not a directory. On success the only changes are the object file holding exactly the data and the fan-out directory existing. An existing fan-out directory leaves the directory set unchanged. A failed `create_dir` changes nothing. Any failure writes no file. A valid filesystem stays valid |
| `Utils.SaveIdempotent` | src/utils.rs:25-35 | saving an object twice gives the same state and outcome as saving it once |
| `Utils.SavedBytesHashToTheirAddress` | src/utils.rs:18-35 | after saving a blob's object, the file named by the blob's hash holds exactly the blob's bytes, so the bytes written are the bytes whose hash names the file |
| `Utils.SaveThenFromFile` | src/utils.rs:32-33 | reading back the saved object file yields the original blob |
| `Utils.SaveDistinctDoNotCollide` | src/utils.rs:26-33 | after saving two objects with distinct digests, each file holds its own object's data |
| `Utils.SaveDistinctCommute` | src/utils.rs:25-35 | successful saves of objects with distinct digests succeed in either order and reach the same state |
| `Utils.SaveIntoFreshStore` | src/utils.rs:25-35 | saving the blob `[1, 2, 3]` into an empty `.git/objects` creates one fan-out directory and one 3-byte file holding exactly those bytes |
| `Utils.SaveWithoutObjectsDirFails` | src/utils.rs:29-31 | on any valid filesystem without `.git/objects`, `save` fails with `NotFound` and the filesystem is unchanged |

## Left out

- The SHA-1 algorithm (FIPS 180-4) comes from the external `crypto` crate. It is a parameter of the model, so collision resistance cannot be stated or used.
- `Blob::from_file` takes a `&str` path; the model takes a path already split into components. Real file I/O, permissions and read errors other than a missing file or a directory are not modelled.
- `write_all` cannot fail in the model: disk-full errors, partial writes and durability are not modelled.
- `FileSystem.CreateDir` and `FileSystem.CreateFile` look only at the immediate parent when they choose between `NotFound` and `NotADirectory`. Symbolic links and `Path::join` details are not modelled.
- `is_dir` followed by `create_dir` can race with another process. Concurrency is not modelled.
- The `Hashable` trait has one implementation, for `Blob`. It is modelled by the function `Utils.Hash`, because the model has no dynamic dispatch.
- `src/main.rs` is a driver: it sets the working directory, prints, and calls `serialize()` and `save(&Path)`, neither of which exists in `src/utils.rs`. It is not part of this model.
- Object headers, tree objects, reading objects back by hash and recursive directory creation do not exist in `src/utils.rs`, so they are not modelled.
