/**
  * The commit payload commit-tree builds in a `StringBuilder`: the tree and
  * parent lines, the fixed author and committer lines, a blank line, and the
  * message followed by a newline.
  */
module CommitCodec {
  import opened Bytes

  /** The fixed identity and timestamp of both the author and the committer line. */
  const Identity: seq<byte> := Ascii("John Doe ") + Ascii("<john@example.com> ") + Ascii("1234567890 +0000")
  const AuthorLine: seq<byte> := Ascii("author ") + Identity + [LF]
  const CommitterLine: seq<byte> := Ascii("committer ") + Identity + [LF]

  /** The payload for `commit-tree <treeSha> -p <parentSha> -m <message>`, as bytes. */
  function CommitPayload(treeSha: seq<byte>, parentSha: seq<byte>, message: seq<byte>): seq<byte> {
    Ascii("tree ") + treeSha + [LF] +
    Ascii("parent ") + parentSha + [LF] +
    AuthorLine +
    CommitterLine +
    [LF] +
    message + [LF]
  }

  /** The text cut at every LF; a trailing LF leaves an empty last line. */
  function Lines(s: seq<byte>): (r: seq<seq<byte>>)
    ensures |r| >= 1
    decreases |s|
  {
    var i := NextIndex(s, 0, LF);
    if i == |s| then [s] else [s[..i]] + Lines(s[i + 1..])
  }

  /** A line without LF, then LF, then the rest: the first line is that line. */
  lemma LinesCons(line: seq<byte>, rest: seq<byte>)
    requires LF !in line
    ensures Lines(line + [LF] + rest) == [line] + Lines(rest)
  {
    var s := line + [LF] + rest;
    forall j | 0 <= j < |line|
      ensures s[j] != LF
    {
      assert s[j] == line[j];
    }
    NextIndexAt(s, 0, |line|, LF);
    assert s[..|line|] == line;
    assert s[|line| + 1..] == rest;
  }

  /**
    * Commit payload order: read line by line, the payload is the tree line,
    * the parent line, the author line, the committer line, a blank line, and
    * then the lines of the message, and it ends with the message and a newline.
    */
  lemma {:induction false} CommitLines(treeSha: seq<byte>, parentSha: seq<byte>, message: seq<byte>)
    requires LF !in treeSha && LF !in parentSha
    ensures Lines(CommitPayload(treeSha, parentSha, message))
      == [Ascii("tree ") + treeSha,
          Ascii("parent ") + parentSha,
          Ascii("author ") + Identity,
          Ascii("committer ") + Identity,
          []] + Lines(message + [LF])
  {
    PayloadAsLines(treeSha, parentSha, message);
    LinePrefixesHaveNoLF(treeSha, parentSha);
    FourLinesThenBlank(Ascii("tree ") + treeSha, Ascii("parent ") + parentSha,
      Ascii("author ") + Identity, Ascii("committer ") + Identity, message + [LF]);
  }

  /** Four lines without LF, each followed by LF, then a blank line, then the rest. */
  lemma FourLinesThenBlank(l1: seq<byte>, l2: seq<byte>, l3: seq<byte>, l4: seq<byte>, rest: seq<byte>)
    requires LF !in l1 && LF !in l2 && LF !in l3 && LF !in l4
    ensures Lines(l1 + [LF] + (l2 + [LF] + (l3 + [LF] + (l4 + [LF] + ([] + [LF] + rest)))))
      == [l1, l2, l3, l4, []] + Lines(rest)
  {
    var r4 := [] + [LF] + rest;
    var r3 := l4 + [LF] + r4;
    var r2 := l3 + [LF] + r3;
    var r1 := l2 + [LF] + r2;
    LinesCons([], rest);
    LinesCons(l4, r4);
    LinesCons(l3, r3);
    LinesCons(l2, r2);
    LinesCons(l1, r1);
    var tail := Lines(rest);
    calc {
      Lines(l1 + [LF] + r1);
      [l1] + Lines(r1);
      [l1] + ([l2] + Lines(r2));
      [l1] + ([l2] + ([l3] + Lines(r3)));
      [l1] + ([l2] + ([l3] + ([l4] + Lines(r4))));
      [l1] + ([l2] + ([l3] + ([l4] + ([[]] + tail))));
      { SeqDisplayFive(l1, l2, l3, l4, [], tail); }
      [l1, l2, l3, l4, []] + tail;
    }
  }

  lemma SeqDisplayFive<T>(a: T, b: T, c: T, d: T, e: T, tail: seq<T>)
    ensures [a] + ([b] + ([c] + ([d] + ([e] + tail)))) == [a, b, c, d, e] + tail
  {
  }

  /** The payload as five LF-terminated lines followed by the message and its LF. */
  lemma PayloadAsLines(treeSha: seq<byte>, parentSha: seq<byte>, message: seq<byte>)
    ensures CommitPayload(treeSha, parentSha, message)
      == (Ascii("tree ") + treeSha) + [LF] +
         ((Ascii("parent ") + parentSha) + [LF] +
         ((Ascii("author ") + Identity) + [LF] +
         ((Ascii("committer ") + Identity) + [LF] +
         ([] + [LF] + (message + [LF])))))
  {
  }

  /** No line before the message holds a newline when the two hashes hold none. */
  lemma LinePrefixesHaveNoLF(treeSha: seq<byte>, parentSha: seq<byte>)
    requires LF !in treeSha && LF !in parentSha
    ensures LF !in Ascii("tree ") + treeSha
    ensures LF !in Ascii("parent ") + parentSha
    ensures LF !in Ascii("author ") + Identity
    ensures LF !in Ascii("committer ") + Identity
  {
    IdentitiesHaveNoLF();
  }

  /** Neither fixed line has a newline before its end. */
  lemma IdentitiesHaveNoLF()
    ensures LF !in Ascii("author ") + Identity
    ensures LF !in Ascii("committer ") + Identity
  {
    assert LF !in Ascii("John Doe ");
    assert LF !in Ascii("<john@example.com> ");
    assert LF !in Ascii("1234567890 +0000");
  }

  /** The payload ends with the message and a newline, and its length is what the header states. */
  lemma CommitPayloadLayout(treeSha: seq<byte>, parentSha: seq<byte>, message: seq<byte>)
    ensures var p := CommitPayload(treeSha, parentSha, message);
      && |p| == 5 + |treeSha| + 1 + 7 + |parentSha| + 1 + |AuthorLine| + |CommitterLine| + 1 + |message| + 1
      && p[|p| - |message| - 1..] == message + [LF]
  {
  }
}
