/**
  * The object database under `.git/objects` and the commands that read and
  * write it: hash-object (and `createBlob`), commit-tree, the writing half of
  * write-tree, cat-file and ls-tree.
  *
  * Each object file is modelled by the buffer it inflates to, keyed by its
  * path; SHA-1 is a parameter of the store.
  */
module Store {
  import opened Bytes
  import opened Wrappers
  import opened ObjectFormat
  import opened HexCodec
  import opened ObjectPaths
  import opened TreeEntries
  import opened TreeEncoding
  import opened TreeListing
  import opened CommitCodec

  /** `MessageDigest.getInstance("SHA-1").digest`, known only to give 20 bytes. */
  type Sha1 = f: seq<byte> -> seq<byte> | forall m :: |f(m)| == 20
    witness (m: seq<byte>) => seq(20, i => 0)

  /** Object files by path, each as the buffer it inflates to. */
  type Objects = map<string, seq<byte>>

  /** Opening the object file a hash names: `substring` throws below two characters, the stream when no file is there. */
  function ReadObject(files: Objects, hash: string): Result<seq<byte>> {
    if |hash| < 2 then Err(HashTooShort)
    else
      var path := ObjectPath(hash).value;
      if path in files then Ok(files[path]) else Err(ObjectNotFound)
  }

  /** What `cat-file -p <hash>` prints, or why it fails. */
  function CatFileResult(files: Objects, hash: string): Result<seq<byte>> {
    match ReadObject(files, hash)
    case Err(e) => Err(e)
    case Ok(d) => ObjectContent(d)
  }

  /** The names `ls-tree --name-only <hash>` prints, and why it stops, if it does. */
  function LsTreeResult(files: Objects, hash: string): Listing {
    match ReadObject(files, hash)
    case Err(e) => Listing([], Some(e))
    case Ok(d) => ListTreeNames(d)
  }

  /** The hash of a buffer and the store after the buffer is written under it. */
  function Written(sha1: Sha1, files: Objects, data: seq<byte>): (string, Objects) {
    var hash := Hex(sha1(data));
    (hash, files[ObjectPath(hash).value := data])
  }

  /** The object write-tree stores for a list of entries. */
  function TreeObject(es: seq<TreeEntry>): seq<byte>
    requires HashesDecode(es)
  {
    SortKeepsHashes(es);
    Framed(TreeKind, EncodeEntries(SortEntries(es)))
  }

  class ObjectStore {
    var files: Objects
    const sha1: Sha1

    constructor (sha1: Sha1)
      ensures files == map[] && this.sha1 == sha1
    {
      this.sha1 := sha1;
      files := map[];
    }

    /** Hash a buffer, name the object by the hex digest and write the buffer there. */
    method WriteObject(data: array<byte>) returns (hash: string)
      modifies this
      ensures (hash, files) == Written(sha1, old(files), data[..])
      ensures |hash| == 40 && forall i :: 0 <= i < |hash| ==> IsLowerHexDigit(hash[i])
    {
      var hashBytes := sha1(data[..]);
      hash := HexEncode(hashBytes);
      var dirName := hash[..2];
      var fileName := hash[2..];
      files := files[ObjectsDir + dirName + "/" + fileName := data[..]];
    }

    /** `hash-object -w` on a file's bytes; `createBlob` does the same. */
    method HashObject(fileContent: seq<byte>) returns (hash: string)
      modifies this
      ensures (hash, files) == Written(sha1, old(files), Framed(BlobKind, fileContent))
    {
      var blobData := FrameObject(BlobKind, fileContent);
      hash := WriteObject(blobData);
    }

    /** `commit-tree <treeSha> -p <parentSha> -m <message>`, on the arguments' bytes. */
    method CommitTree(treeSha: seq<byte>, parentSha: seq<byte>, message: seq<byte>) returns (hash: string)
      modifies this
      ensures (hash, files) == Written(sha1, old(files), Framed(CommitKind, CommitPayload(treeSha, parentSha, message)))
    {
      var contentBytes := CommitPayload(treeSha, parentSha, message);
      var commitData := FrameObject(CommitKind, contentBytes);
      hash := WriteObject(commitData);
    }

    /** The encoding half of `writeTree`: sort, encode, frame and store the entries. */
    method WriteTree(entries: seq<TreeEntry>) returns (r: Result<string>)
      modifies this
      ensures r.Err? <==> !HashesDecode(entries)
      ensures r.Err? ==> r.error == UnparsableHash && files == old(files)
      ensures r.Ok? ==> (r.value, files) == Written(sha1, old(files), TreeObject(entries))
    {
      var ok, treeData := EncodeTree(entries);
      if !ok {
        return Err(UnparsableHash);
      }
      var hash := WriteObject(treeData);
      r := Ok(hash);
    }

    /** `cat-file -p <hash>`. */
    method CatFile(hash: string) returns (r: Result<seq<byte>>)
      ensures r == CatFileResult(files, hash)
    {
      if |hash| < 2 {
        return Err(HashTooShort);
      }
      var dirName := hash[..2];
      var fileName := hash[2..];
      var path := ObjectsDir + dirName + "/" + fileName;
      if path !in files {
        return Err(ObjectNotFound);
      }
      r := ExtractContent(files[path]);
    }

    /** `ls-tree --name-only <hash>`. */
    method LsTree(hash: string) returns (names: seq<seq<byte>>, failure: Option<Error>)
      ensures Listing(names, failure) == LsTreeResult(files, hash)
    {
      if |hash| < 2 {
        return [], Some(HashTooShort);
      }
      var dirName := hash[..2];
      var fileName := hash[2..];
      var path := ObjectsDir + dirName + "/" + fileName;
      if path !in files {
        return [], Some(ObjectNotFound);
      }
      names, failure := ListTree(files[path]);
    }
  }

  /** A written buffer is read back from the hash it was written under. */
  lemma ReadAfterWrite(sha1: Sha1, files: Objects, data: seq<byte>)
    ensures var (hash, after) := Written(sha1, files, data);
      |hash| == 40 && ReadObject(after, hash) == Ok(data)
  {
  }

  /** Writing an object leaves what every other hash reads unchanged. */
  lemma WriteKeepsOthers(sha1: Sha1, files: Objects, data: seq<byte>, other: string)
    requires other != Written(sha1, files, data).0
    ensures ReadObject(Written(sha1, files, data).1, other) == ReadObject(files, other)
  {
    var hash := Written(sha1, files, data).0;
    if |other| >= 2 && ObjectPath(other) == ObjectPath(hash) {
      PathInjective(other, hash);
    }
  }

  /** cat-file on the hash hash-object printed gives back the file's bytes. */
  lemma CatFileAfterHashObject(sha1: Sha1, files: Objects, fileContent: seq<byte>)
    ensures var (hash, after) := Written(sha1, files, Framed(BlobKind, fileContent));
      CatFileResult(after, hash) == Ok(fileContent)
  {
    KindsNulFree();
    FrameSplitRoundTrip(BlobKind, fileContent);
  }

  /**
    * cat-file on the hash commit-tree printed gives the payload, whatever the
    * arguments. When the two hashes hold no LF, the payload's lines are tree,
    * parent, author, committer, a blank line and the message.
    */
  lemma CatFileAfterCommitTree(sha1: Sha1, files: Objects, treeSha: seq<byte>, parentSha: seq<byte>, message: seq<byte>)
    ensures var payload := CommitPayload(treeSha, parentSha, message);
      var (hash, after) := Written(sha1, files, Framed(CommitKind, payload));
      CatFileResult(after, hash) == Ok(payload)
    ensures LF !in treeSha && LF !in parentSha ==>
      Lines(CommitPayload(treeSha, parentSha, message))
        == [Ascii("tree ") + treeSha, Ascii("parent ") + parentSha,
            Ascii("author ") + Identity, Ascii("committer ") + Identity, []] + Lines(message + [LF])
  {
    KindsNulFree();
    FrameSplitRoundTrip(CommitKind, CommitPayload(treeSha, parentSha, message));
    if LF !in treeSha && LF !in parentSha {
      CommitLines(treeSha, parentSha, message);
    }
  }

  /**
    * ls-tree on the hash write-tree returned lists the entry names in
    * ascending order, each input name exactly as often as it occurs.
    */
  lemma LsTreeAfterWriteTree(sha1: Sha1, files: Objects, es: seq<TreeEntry>)
    requires Listable(es)
    ensures var (hash, after) := Written(sha1, files, TreeObject(es));
      var listing := LsTreeResult(after, hash);
      && listing.failure == None
      && listing.names == Names(SortEntries(es))
      && (forall i, j :: 0 <= i < j < |listing.names| ==> CompareNames(listing.names[i], listing.names[j]) <= 0)
      && multiset(listing.names) == multiset(Names(es))
  {
    WrittenTreeListsSortedNames(es);
  }

  /**
    * write-tree stores the same object under the same hash whatever order
    * the same entries arrive in.
    */
  lemma WriteTreeOrderIndependent(sha1: Sha1, files: Objects, a: seq<TreeEntry>, b: seq<TreeEntry>)
    requires multiset(a) == multiset(b) && NamesDetermineEntries(multiset(a))
    ensures HashesDecode(a) <==> HashesDecode(b)
    ensures HashesDecode(a) ==> TreeObject(a) == TreeObject(b)
    ensures HashesDecode(a) ==> Written(sha1, files, TreeObject(a)) == Written(sha1, files, TreeObject(b))
  {
    SortOrderIndependent(a, b);
    SortKeepsHashes(a);
    SortKeepsHashes(b);
  }
}
