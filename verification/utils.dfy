/** The content-addressed object store: blobs, objects paired with their SHA-1
    digest, the `.git/objects/<2 hex>/<38 hex>` address of a digest, and `save`
    as a transformer of the abstract filesystem. */
module Utils {
  import opened Bytes
  import opened Results
  import Hex
  import opened FileSystem

  /** Raw file content. Objects carry the bytes as they are: no type/length
      header is prepended before hashing or storing. */
  datatype Blob = Blob(data: seq<Byte>)

  /** Bytes to store together with the digest that names them. */
  datatype Object = Object(digest: Digest, data: seq<Byte>)

  /** `Hashable::hash` for a blob (`hasher.input(&self.data)` then
      `hasher.result(&mut digest)`): SHA-1 of its raw bytes. */
  function Hash(blob: Blob, sha1: Sha1): Digest {
    sha1(blob.data)
  }

  /** An object is addressed when its digest is the hash of its own data. */
  ghost predicate Addressed(obj: Object, sha1: Sha1) {
    obj.digest == sha1(obj.data)
  }

  /** `Object::from_blob`: the blob's bytes, unchanged, with their digest. */
  function FromBlob(blob: Blob, sha1: Sha1): (obj: Object)
    ensures obj.data == blob.data
    ensures Addressed(obj, sha1)
  {
    Object(Hash(blob, sha1), blob.data)
  }

  /** `Blob::from_file`: the whole content of the file at `path`. */
  function FromFile(fs: FileSystem, path: Path): (r: Result<Blob, IoError>)
    ensures r.Ok? <==> path in fs.files
    ensures r.Ok? ==> r.value.data == fs.files[path]
  {
    var data :- ReadFile(fs, path);
    Ok(Blob(data))
  }

  /** The object directory, relative to the working directory. */
  const ObjectsDir: Path := [".git", "objects"]

  /** Equal blob contents give equal digests, always `DigestLength` bytes long. */
  lemma HashDependsOnlyOnData(b1: Blob, b2: Blob, sha1: Sha1)
    requires b1.data == b2.data
    ensures Hash(b1, sha1) == Hash(b2, sha1)
    ensures |Hash(b1, sha1)| == DigestLength
  {
  }

  /** Hex characters that name the fan-out directory. */
  const FanoutLength: nat := 2

  /** Where a digest lives below the object directory. */
  datatype Address = Address(dirName: string, fileName: string)

  /** The hex rendering of a digest split after its first two characters. */
  function AddressOf(d: Digest): (a: Address)
    ensures |a.dirName| == FanoutLength && |a.fileName| == 2 * DigestLength - FanoutLength
    ensures a.dirName + a.fileName == Hex.Encode(d)
    ensures a.dirName == Hex.EncodeByte(d[0])
    ensures a.fileName == Hex.Encode(d[1..])
  {
    var hash := Hex.Encode(d);
    Hex.EncodeAppend([d[0]], d[1..]);
    assert [d[0]] + d[1..] == d;
    assert Hex.Encode([d[0]]) == Hex.EncodeByte(d[0]);
    Address(hash[..FanoutLength], hash[FanoutLength..])
  }

  /** `Path::new(".git/objects").join(&hash[..2])`:
      `.git/objects/<first 2 hex characters>`. */
  function DirPath(d: Digest): Path {
    ObjectsDir + [AddressOf(d).dirName]
  }

  /** `dirname.join(&filename)`, the path given to `File::create`:
      `.git/objects/<first 2 hex characters>/<remaining 38>`. */
  function ObjectPath(d: Digest): Path {
    DirPath(d) + [AddressOf(d).fileName]
  }

  /** Re-reading the directory and file name as hex gives the digest back. */
  lemma AddressDecodes(d: Digest)
    ensures Hex.Decode(AddressOf(d).dirName + AddressOf(d).fileName) == Some(d)
  {
    Hex.DecodeEncode(d);
  }

  /** Distinct digests get distinct addresses. */
  lemma AddressInjective(d1: Digest, d2: Digest)
    requires AddressOf(d1) == AddressOf(d2)
    ensures d1 == d2
  {
    Hex.EncodeInjective(d1, d2);
  }

  /** Distinct digests get distinct object files. */
  lemma ObjectPathInjective(d1: Digest, d2: Digest)
    requires ObjectPath(d1) == ObjectPath(d2)
    ensures d1 == d2
  {
    assert ObjectPath(d1)[2] == AddressOf(d1).dirName;
    assert ObjectPath(d1)[3] == AddressOf(d1).fileName;
    AddressInjective(d1, d2);
  }

  /** Two digests share a fan-out directory exactly when their first bytes agree. */
  lemma SameFanoutIffSameFirstByte(d1: Digest, d2: Digest)
    ensures DirPath(d1) == DirPath(d2) <==> d1[0] == d2[0]
  {
    if DirPath(d1) == DirPath(d2) {
      assert DirPath(d1)[2] == AddressOf(d1).dirName;
      assert Hex.Encode([d1[0]]) == Hex.EncodeByte(d1[0]);
      assert Hex.Encode([d2[0]]) == Hex.EncodeByte(d2[0]);
      Hex.EncodeInjective([d1[0]], [d2[0]]);
      assert [d1[0]][0] == d1[0];
    }
  }

  datatype Status = Done | Failed(error: IoError)

  /** The filesystem after an operation, and how the operation ended. A failure
      does not undo what happened before it. */
  datatype Effect = Effect(state: FileSystem, status: Status)

  /** `create_dir` will succeed on the fan-out directory of `d`. */
  predicate FanoutCreatable(fs: FileSystem, d: Digest) {
    DirPath(d) !in fs.files && ObjectsDir in fs.dirs
  }

  /** `Object::save`: create the fan-out directory unless it is already a
      directory, create or truncate the object file, write the data; the
      first error ends the operation. */
  function Save(obj: Object, fs: FileSystem): (r: Effect)
    ensures r.status.Done? <==>
      (IsDir(fs, DirPath(obj.digest)) || FanoutCreatable(fs, obj.digest))
      && ObjectPath(obj.digest) !in fs.dirs
    ensures r.status.Done? ==>
      && r.state.files == fs.files[ObjectPath(obj.digest) := obj.data]
      && r.state.dirs == fs.dirs + {DirPath(obj.digest)}
    ensures IsDir(fs, DirPath(obj.digest)) ==> r.state.dirs == fs.dirs
    ensures !IsDir(fs, DirPath(obj.digest)) && !FanoutCreatable(fs, obj.digest) ==>
      r.status.Failed? && r.state == fs
    ensures r.status.Failed? ==> r.state.files == fs.files
    ensures !IsDir(fs, DirPath(obj.digest)) && DirPath(obj.digest) in fs.files ==>
      r.status == Failed(AlreadyExists)
    ensures r.status.Failed? && (IsDir(fs, DirPath(obj.digest)) || FanoutCreatable(fs, obj.digest)) ==>
      && r.status.error == IsADirectory
      && r.state.dirs == fs.dirs + {DirPath(obj.digest)}
    ensures r.state.dirs <= fs.dirs + {DirPath(obj.digest)}
    ensures Valid(fs) ==> Valid(r.state)
  {
    var dir := DirPath(obj.digest);
    var file := ObjectPath(obj.digest);
    assert Parent(dir) == ObjectsDir;
    assert Parent(file) == dir;
    var created := if IsDir(fs, dir) then Ok(fs) else CreateDir(fs, dir);
    match created
    case Err(e) => Effect(fs, Failed(e))
    case Ok(fs1) =>
      match CreateFile(fs1, file)
      case Err(e) => Effect(fs1, Failed(e))
      case Ok(fs2) => Effect(WriteAll(fs2, file, obj.data), Done)
  }

  /** Saving an object a second time changes nothing and ends the same way. */
  lemma SaveIdempotent(obj: Object, fs: FileSystem)
    ensures Save(obj, Save(obj, fs).state) == Save(obj, fs)
  {
  }

  /** After saving a blob's object, the file named by the hash of the blob holds
      exactly the blob's bytes, so the stored bytes hash to their own address. */
  lemma SavedBytesHashToTheirAddress(blob: Blob, sha1: Sha1, fs: FileSystem)
    requires Save(FromBlob(blob, sha1), fs).status.Done?
    ensures var after := Save(FromBlob(blob, sha1), fs).state;
      && ObjectPath(sha1(blob.data)) in after.files
      && after.files[ObjectPath(sha1(blob.data))] == blob.data
  {
  }

  /** Reading back the file a blob was saved to gives the blob. */
  lemma SaveThenFromFile(blob: Blob, sha1: Sha1, fs: FileSystem)
    requires Save(FromBlob(blob, sha1), fs).status.Done?
    ensures FromFile(Save(FromBlob(blob, sha1), fs).state, ObjectPath(Hash(blob, sha1))) == Ok(blob)
  {
  }

  /** Objects with distinct digests do not overwrite each other: after saving
      both, each file holds its own object's data. */
  lemma SaveDistinctDoNotCollide(o1: Object, o2: Object, fs: FileSystem)
    requires o1.digest != o2.digest
    requires Save(o1, fs).status.Done?
    requires Save(o2, Save(o1, fs).state).status.Done?
    ensures var after := Save(o2, Save(o1, fs).state).state;
      && after.files[ObjectPath(o1.digest)] == o1.data
      && after.files[ObjectPath(o2.digest)] == o2.data
  {
    if ObjectPath(o1.digest) == ObjectPath(o2.digest) {
      ObjectPathInjective(o1.digest, o2.digest);
    }
  }

  /** Updates of two different files can be applied in either order. */
  lemma UpdatesCommute(m: map<Path, seq<Byte>>, k1: Path, v1: seq<Byte>, k2: Path, v2: seq<Byte>)
    requires k1 != k2
    ensures m[k1 := v1][k2 := v2] == m[k2 := v2][k1 := v1]
  {
    var a, b := m[k1 := v1][k2 := v2], m[k2 := v2][k1 := v1];
    assert a.Keys == b.Keys;
    assert forall k :: k in a ==> a[k] == b[k];
  }

  /** Successful saves of objects with distinct digests commute. */
  lemma SaveDistinctCommute(o1: Object, o2: Object, fs: FileSystem)
    requires o1.digest != o2.digest
    requires Save(o1, fs).status.Done?
    requires Save(o2, Save(o1, fs).state).status.Done?
    ensures Save(o2, fs).status.Done?
    ensures Save(o1, Save(o2, fs).state).status.Done?
    ensures Save(o1, Save(o2, fs).state).state == Save(o2, Save(o1, fs).state).state
  {
    var p1, p2 := ObjectPath(o1.digest), ObjectPath(o2.digest);
    var d1, d2 := DirPath(o1.digest), DirPath(o2.digest);
    if p1 == p2 {
      ObjectPathInjective(o1.digest, o2.digest);
    }
    assert |p1| == 4 && |p2| == 4 && |d1| == 3 && |d2| == 3;
    assert |ObjectsDir| == 2;
    var fs1 := Save(o1, fs).state;
    assert fs1.dirs == fs.dirs + {d1} && fs1.files == fs.files[p1 := o1.data];
    assert IsDir(fs1, d2) || FanoutCreatable(fs1, o2.digest);
    assert p2 !in fs1.dirs;
    assert IsDir(fs, d2) || FanoutCreatable(fs, o2.digest);
    assert p2 !in fs.dirs;
    var fs2 := Save(o2, fs).state;
    assert fs2.dirs == fs.dirs + {d2} && fs2.files == fs.files[p2 := o2.data];
    assert IsDir(fs2, d1) || FanoutCreatable(fs2, o1.digest);
    assert p1 !in fs2.dirs;
    var a := Save(o1, fs2).state;
    var b := Save(o2, fs1).state;
    assert a.dirs == b.dirs;
    assert a.files == fs.files[p2 := o2.data][p1 := o1.data];
    assert b.files == fs.files[p1 := o1.data][p2 := o2.data];
    UpdatesCommute(fs.files, p1, o1.data, p2, o2.data);
  }

  /** A working directory holding an empty `.git/objects`. */
  const FreshStore: FileSystem := FileSystem({[], [".git"], ObjectsDir}, map[])

  /** Saving the blob `[1, 2, 3]` into a fresh store creates its fan-out
      directory and one 3-byte file holding exactly those bytes. */
  lemma SaveIntoFreshStore(sha1: Sha1)
    ensures var obj := FromBlob(Blob([1, 2, 3]), sha1);
      var r := Save(obj, FreshStore);
      && r.status == Done
      && r.state.dirs == FreshStore.dirs + {DirPath(sha1([1, 2, 3]))}
      && r.state.files == map[ObjectPath(sha1([1, 2, 3])) := [1, 2, 3]]
  {
  }

  /** Without `.git/objects` the fan-out directory cannot be created, so
      saving fails with `NotFound` and the filesystem is left as it was. */
  lemma SaveWithoutObjectsDirFails(obj: Object, fs: FileSystem)
    requires Valid(fs)
    requires ObjectsDir !in fs.dirs && ObjectsDir !in fs.files
    ensures Save(obj, fs) == Effect(fs, Failed(NotFound))
  {
    var dir := DirPath(obj.digest);
    assert |dir| == 3 && Parent(dir) == ObjectsDir;
    assert dir !in fs.dirs;
    assert dir !in fs.files;
  }
}
