/**
  * The encoding half of write-tree: each entry becomes
  * `mode SP name NUL` followed by the 20 raw bytes of its hash, the parts
  * and a running size total are collected, and the `"tree <size>\0"`
  * header and the parts are copied into one buffer.
  */
module TreeEncoding {
  import opened Bytes
  import opened HexCodec
  import opened ObjectFormat
  import opened TreeEntries

  /** `entry.mode + " " + entry.name + "\0"`, as bytes. */
  function EntryPrefix(e: TreeEntry): seq<byte> {
    e.mode + [SP] + e.name + [NUL]
  }

  /** Every entry's hash survives the `Integer.parseInt` loop. */
  predicate HashesDecode(es: seq<TreeEntry>) {
    forall i :: 0 <= i < |es| ==> HashBytes(es[i].hash).Some?
  }

  /** One entry as it appears in the tree payload. */
  function EntryBytes(e: TreeEntry): seq<byte>
    requires HashBytes(e.hash).Some?
  {
    EntryPrefix(e) + HashBytes(e.hash).value
  }

  /** The tree payload for entries in the given order. */
  function EncodeEntries(es: seq<TreeEntry>): seq<byte>
    requires HashesDecode(es)
  {
    if es == [] then [] else EntryBytes(es[0]) + EncodeEntries(es[1..])
  }

  /** The size the header announces: mode, space, name, NUL and 20 hash bytes per entry. */
  function EncodedSize(es: seq<TreeEntry>): nat {
    if es == [] then 0 else |es[0].mode| + 1 + |es[0].name| + 1 + 20 + EncodedSize(es[1..])
  }

  /** The bytes of `contentParts`, in order. */
  function Concat(parts: seq<seq<byte>>): seq<byte> {
    if parts == [] then [] else Concat(parts[..|parts| - 1]) + parts[|parts| - 1]
  }

  lemma {:induction false} EncodeAppend(es: seq<TreeEntry>, e: TreeEntry)
    requires HashesDecode(es + [e])
    ensures HashesDecode(es) && HashBytes(e.hash).Some?
    ensures EncodeEntries(es + [e]) == EncodeEntries(es) + EntryBytes(e)
  {
    assert (es + [e])[|es|] == e;
    assert forall i :: 0 <= i < |es| ==> es[i] == (es + [e])[i];
    if es != [] {
      assert (es + [e])[1..] == es[1..] + [e];
      EncodeAppend(es[1..], e);
    }
  }

  lemma {:induction false} EncodedSizeAppend(es: seq<TreeEntry>, e: TreeEntry)
    ensures EncodedSize(es + [e]) == EncodedSize(es) + |e.mode| + 1 + |e.name| + 1 + 20
  {
    if es != [] {
      assert (es + [e])[1..] == es[1..] + [e];
      EncodedSizeAppend(es[1..], e);
    }
  }

  /** The running total is the payload's length, so the tree header states the payload size. */
  lemma {:induction false} EncodedLength(es: seq<TreeEntry>)
    requires HashesDecode(es)
    ensures |EncodeEntries(es)| == EncodedSize(es)
    ensures Framed(TreeKind, EncodeEntries(es)) == Header(TreeKind, EncodedSize(es)) + EncodeEntries(es)
  {
    if es != [] {
      assert HashesDecode(es[1..]) by {
        assert forall i :: 0 <= i < |es[1..]| ==> es[1..][i] == es[i + 1];
      }
      EncodedLength(es[1..]);
    }
  }

  /** Sorting neither adds nor removes an entry whose hash fails to decode. */
  lemma SortKeepsHashes(es: seq<TreeEntry>)
    ensures HashesDecode(SortEntries(es)) <==> HashesDecode(es)
  {
    var s := SortEntries(es);
    SortPermutes(es);
    if HashesDecode(es) {
      forall i | 0 <= i < |s| ensures HashBytes(s[i].hash).Some? {
        assert s[i] in multiset(es);
      }
    }
    if HashesDecode(s) {
      forall i | 0 <= i < |es| ensures HashBytes(es[i].hash).Some? {
        assert es[i] in multiset(s);
      }
    }
  }

  lemma {:induction false} ConcatPrefixLength(parts: seq<seq<byte>>, k: nat)
    requires k <= |parts|
    ensures |Concat(parts[..k])| <= |Concat(parts)|
  {
    if k < |parts| {
      var init := parts[..|parts| - 1];
      assert parts[..k] == init[..k];
      ConcatPrefixLength(init, k);
    } else {
      assert parts[..k] == parts;
    }
  }

  /** One more entry's prefix and hash bytes in `contentParts` extend the encoding by that entry. */
  lemma PartsGrow(parts: seq<seq<byte>>, es: seq<TreeEntry>, e: TreeEntry, hashBytes: seq<byte>)
    requires HashesDecode(es) && Concat(parts) == EncodeEntries(es)
    requires HashBytes(e.hash).Some? && HashBytes(e.hash).value == hashBytes
    ensures HashesDecode(es + [e])
    ensures Concat(parts + [EntryPrefix(e)] + [hashBytes]) == EncodeEntries(es + [e])
  {
    assert HashesDecode(es + [e]) by {
      forall i | 0 <= i < |es + [e]|
        ensures HashBytes((es + [e])[i].hash).Some?
      {
        if i < |es| {
          assert (es + [e])[i] == es[i];
        }
      }
    }
    EncodeAppend(es, e);
    var grown := parts + [EntryPrefix(e)] + [hashBytes];
    assert grown[..|grown| - 1] == parts + [EntryPrefix(e)];
    assert (parts + [EntryPrefix(e)])[..|parts|] == parts;
  }

  /** The loop over the sorted entries that fills `contentParts` and `totalSize`. */
  method EntryParts(entries: seq<TreeEntry>) returns (ok: bool, parts: seq<seq<byte>>, totalSize: nat)
    ensures ok <==> HashesDecode(entries)
    ensures ok ==> Concat(parts) == EncodeEntries(entries)
    ensures ok ==> totalSize == EncodedSize(entries)
  {
    parts, totalSize, ok := [], 0, true;
    for k := 0 to |entries|
      invariant HashesDecode(entries[..k])
      invariant Concat(parts) == EncodeEntries(entries[..k])
      invariant totalSize == EncodedSize(entries[..k])
    {
      var e := entries[k];
      var entryPrefixBytes := e.mode + [SP] + e.name + [NUL];
      var decoded, hashBytes := DecodeHash(e.hash);
      if !decoded {
        ok := false;
        return;
      }
      assert entries[..k + 1] == entries[..k] + [e];
      PartsGrow(parts, entries[..k], e, hashBytes[..]);
      EncodedSizeAppend(entries[..k], e);
      parts := parts + [entryPrefixBytes] + [hashBytes[..]];
      totalSize := totalSize + |entryPrefixBytes| + hashBytes.Length;
    }
    assert entries[..|entries|] == entries;
  }

  /** The header and the parts copied one after another into `treeData` at a running `pos`. */
  method AssembleTree(headerBytes: seq<byte>, parts: seq<seq<byte>>, totalSize: nat)
    returns (treeData: array<byte>)
    requires totalSize == |Concat(parts)|
    ensures treeData[..] == headerBytes + Concat(parts)
  {
    treeData := new byte[|headerBytes| + totalSize];
    var pos := 0;
    CopyInto(headerBytes, treeData, pos);
    pos := pos + |headerBytes|;
    for k := 0 to |parts|
      invariant treeData.Length == |headerBytes| + totalSize
      invariant pos == |headerBytes| + |Concat(parts[..k])| <= treeData.Length
      invariant treeData[..pos] == headerBytes + Concat(parts[..k])
    {
      assert parts[..k + 1][..k] == parts[..k];
      ConcatPrefixLength(parts, k + 1);
      ghost var before := treeData[..pos];
      CopyInto(parts[k], treeData, pos);
      assert treeData[..pos + |parts[k]|] == before + parts[k];
      pos := pos + |parts[k]|;
    }
    assert parts[..|parts|] == parts;
    assert treeData[..] == treeData[..pos];
  }

  /**
    * The encoding half of write-tree: sort the entries by name, encode
    * them with a running total, and copy the `"tree <total>\0"` header and
    * the parts into one buffer. It fails exactly when some hash does not parse.
    */
  method EncodeTree(entries: seq<TreeEntry>) returns (ok: bool, treeData: array<byte>)
    ensures ok <==> HashesDecode(entries)
    ensures ok ==> HashesDecode(SortEntries(entries))
    ensures ok ==> treeData[..] == Framed(TreeKind, EncodeEntries(SortEntries(entries)))
  {
    var sorted := SortEntries(entries);
    SortKeepsHashes(entries);
    var parts, totalSize;
    ok, parts, totalSize := EntryParts(sorted);
    if !ok {
      treeData := new byte[0];
      return;
    }
    EncodedLength(sorted);
    var headerBytes := TreeKind + [SP] + Decimal(totalSize) + [NUL];
    treeData := AssembleTree(headerBytes, parts, totalSize);
  }
}
