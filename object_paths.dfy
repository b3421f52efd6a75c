/**
  * Where an object lives: the first two characters of its hash name a
  * directory under `.git/objects`, the remaining characters the file.
  */
module ObjectPaths {
  import opened Wrappers

  const ObjectsDir: string := ".git/objects/"

  /** `hash.substring(0, 2)` and `hash.substring(2)`; None where `substring` throws. */
  function SplitHash(hash: string): (r: Option<(string, string)>)
    ensures r.Some? <==> |hash| >= 2
    ensures r.Some? ==> |r.value.0| == 2 && |r.value.1| == |hash| - 2
    ensures r.Some? ==> r.value.0 + r.value.1 == hash
  {
    if |hash| < 2 then None else Some((hash[..2], hash[2..]))
  }

  /** `".git/objects/" + dirName + "/" + fileName`. */
  function ObjectPath(hash: string): (r: Option<string>)
    ensures r.Some? <==> |hash| >= 2
  {
    match SplitHash(hash)
    case None => None
    case Some((dirName, fileName)) => Some(ObjectsDir + dirName + "/" + fileName)
  }

  /** The hash an object path names: the directory's two characters, then the file name. */
  function HashOfPath(path: string): Option<string> {
    var n := |ObjectsDir|;
    if |path| < n + 3 || path[..n] != ObjectsDir || path[n + 2] != '/' then None
    else Some(path[n..n + 2] + path[n + 3..])
  }

  /** Any hash long enough to name a path is recovered from that path. */
  lemma {:induction false} PathHashRoundTrip(hash: string)
    requires |hash| >= 2
    ensures HashOfPath(ObjectPath(hash).value) == Some(hash)
  {
    var p := ObjectPath(hash).value;
    var n := |ObjectsDir|;
    assert p == ObjectsDir + hash[..2] + "/" + hash[2..];
    assert p[..n] == ObjectsDir;
    assert p[n..n + 2] == hash[..2];
    assert p[n + 3..] == hash[2..];
    assert hash[..2] + hash[2..] == hash;
  }

  /** Distinct hashes are stored at distinct paths. */
  lemma PathInjective(h1: string, h2: string)
    requires |h1| >= 2 && |h2| >= 2
    requires ObjectPath(h1) == ObjectPath(h2)
    ensures h1 == h2
  {
    PathHashRoundTrip(h1);
    PathHashRoundTrip(h2);
  }
}
