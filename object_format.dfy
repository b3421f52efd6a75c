/**
  * Object framing: the `"<kind> <length>\0"` header put in front of an
  * object's content, the copy of both into one buffer, and the split of an
  * inflated object at its first NUL byte.
  */
module ObjectFormat {
  import opened Bytes
  import opened Wrappers

  const BlobKind: seq<byte> := Ascii("blob")
  const TreeKind: seq<byte> := Ascii("tree")
  const CommitKind: seq<byte> := Ascii("commit")

  /** `"<kind> " + size + "\0"`, as bytes. */
  function Header(kind: seq<byte>, size: nat): seq<byte> {
    kind + [SP] + Decimal(size) + [NUL]
  }

  /** The buffer that is hashed and written: the header, then the content. */
  function Framed(kind: seq<byte>, content: seq<byte>): seq<byte> {
    Header(kind, |content|) + content
  }

  /** What cat-file prints: everything after the first NUL byte, or an error when there is none. */
  function ObjectContent(d: seq<byte>): (r: Result<seq<byte>>)
    ensures r.Err? <==> forall j :: 0 <= j < |d| ==> d[j] != NUL
    ensures r.Err? ==> r.error == InvalidObjectFile
    ensures r.Ok? ==> |r.value| < |d| && r.value == d[|d| - |r.value|..]
    ensures r.Ok? ==> d[|d| - |r.value| - 1] == NUL
    ensures r.Ok? ==> forall j :: 0 <= j < |d| - |r.value| - 1 ==> d[j] != NUL
  {
    var i := NextIndex(d, 0, NUL);
    if i == |d| then Err(InvalidObjectFile) else Ok(d[i + 1..])
  }

  /** `System.arraycopy(src, 0, dst, at, src.length)`. */
  method CopyInto(src: seq<byte>, dst: array<byte>, at: nat)
    requires at + |src| <= dst.Length
    modifies dst
    ensures dst[..] == old(dst[..at]) + src + old(dst[at + |src|..])
  {
    var i := 0;
    while i < |src|
      invariant 0 <= i <= |src|
      invariant forall k :: 0 <= k < at ==> dst[k] == old(dst[k])
      invariant forall k :: 0 <= k < i ==> dst[at + k] == src[k]
      invariant forall k :: at + i <= k < dst.Length ==> dst[k] == old(dst[k])
    {
      dst[at + i] := src[i];
      i := i + 1;
    }
    assert dst[..] == old(dst[..at]) + src + old(dst[at + |src|..]) by {
      forall k | 0 <= k < dst.Length
        ensures dst[k] == (old(dst[..at]) + src + old(dst[at + |src|..]))[k]
      {
        if at <= k < at + |src| {
          assert dst[at + (k - at)] == src[k - at];
        }
      }
    }
  }

  /**
    * The framing the commands repeat inline: the header bytes and the
    * content are copied into one new buffer of the combined length.
    */
  method FrameObject(kind: seq<byte>, content: seq<byte>) returns (buf: array<byte>)
    ensures buf[..] == Framed(kind, content)
  {
    var headerBytes := kind + [SP] + Decimal(|content|) + [NUL];
    buf := new byte[|headerBytes| + |content|];
    CopyInto(headerBytes, buf, 0);
    CopyInto(content, buf, |headerBytes|);
  }

  /**
    * The loop that looks for the NUL separating header from content:
    * the index of the first zero byte, or -1 when there is none.
    */
  method FindNul(d: seq<byte>) returns (nullIndex: int)
    ensures -1 <= nullIndex < |d|
    ensures nullIndex == -1 <==> forall j :: 0 <= j < |d| ==> d[j] != NUL
    ensures nullIndex >= 0 ==> d[nullIndex] == NUL && forall j :: 0 <= j < nullIndex ==> d[j] != NUL
  {
    nullIndex := -1;
    var i := 0;
    while i < |d|
      invariant 0 <= i <= |d|
      invariant forall j :: 0 <= j < i ==> d[j] != NUL
    {
      if d[i] == NUL {
        nullIndex := i;
        break;
      }
      i := i + 1;
    }
  }

  /** cat-file on an inflated object: find the NUL, then copy out what follows it. */
  method ExtractContent(decompressed: seq<byte>) returns (r: Result<seq<byte>>)
    ensures r == ObjectContent(decompressed)
  {
    var nullIndex := FindNul(decompressed);
    if nullIndex == -1 {
      return Err(InvalidObjectFile);
    }
    NextIndexAt(decompressed, 0, nullIndex, NUL);
    r := Ok(decompressed[nullIndex + 1..]);
  }

  /** The header of a framed buffer holds exactly one NUL, its last byte. */
  lemma HeaderNulFree(kind: seq<byte>, size: nat)
    requires forall j :: 0 <= j < |kind| ==> kind[j] != NUL
    ensures var h := Header(kind, size);
      h[|h| - 1] == NUL && forall j :: 0 <= j < |h| - 1 ==> h[j] != NUL
  {
    var h := Header(kind, size);
    var ds := Decimal(size);
    forall j | 0 <= j < |h| - 1
      ensures h[j] != NUL
    {
      if j < |kind| {
        assert h[j] == kind[j];
      } else if j == |kind| {
        assert h[j] == SP;
      } else {
        assert h[j] == ds[j - |kind| - 1];
        assert IsDigit(ds[j - |kind| - 1]);
      }
    }
  }

  /** The first NUL of a framed buffer is the one that ends its header. */
  lemma {:induction false} FramedNulIndex(kind: seq<byte>, content: seq<byte>)
    requires forall j :: 0 <= j < |kind| ==> kind[j] != NUL
    ensures NextIndex(Framed(kind, content), 0, NUL) == |Header(kind, |content|)| - 1
  {
    var h := Header(kind, |content|);
    var d := Framed(kind, content);
    HeaderNulFree(kind, |content|);
    assert d[|h| - 1] == h[|h| - 1];
    forall j | 0 <= j < |h| - 1
      ensures d[j] != NUL
    {
      assert d[j] == h[j];
    }
    NextIndexAt(d, 0, |h| - 1, NUL);
  }

  /** Splitting a framed buffer at its first NUL gives back the content that was framed. */
  lemma {:induction false} FrameSplitRoundTrip(kind: seq<byte>, content: seq<byte>)
    requires forall j :: 0 <= j < |kind| ==> kind[j] != NUL
    ensures ObjectContent(Framed(kind, content)) == Ok(content)
  {
    FramedNulIndex(kind, content);
    var h := Header(kind, |content|);
    assert Framed(kind, content)[|h|..] == content;
  }

  /** The layout of a framed buffer: its length, where the header ends and the content begins. */
  lemma FrameLayout(kind: seq<byte>, content: seq<byte>)
    ensures |Framed(kind, content)| == |kind| + 1 + |Decimal(|content|)| + 1 + |content|
    ensures Framed(kind, content)[..|kind|] == kind
    ensures Framed(kind, content)[|kind|] == SP
    ensures Framed(kind, content)[|kind| + 1..|kind| + 1 + |Decimal(|content|)|] == Decimal(|content|)
    ensures Framed(kind, content)[|Header(kind, |content|)|..] == content
  {
  }

  /** None of the three object kinds contains a NUL byte. */
  lemma KindsNulFree()
    ensures forall j :: 0 <= j < |BlobKind| ==> BlobKind[j] != NUL
    ensures forall j :: 0 <= j < |TreeKind| ==> TreeKind[j] != NUL
    ensures forall j :: 0 <= j < |CommitKind| ==> CommitKind[j] != NUL
  {
  }

  /** The blob the program writes for a file holding "hello\n" is the buffer "blob 6\0hello\n". */
  lemma HelloBlob()
    ensures Framed(BlobKind, Ascii("hello\n")) == Ascii("blob 6\0hello\n")
  {
  }
}
