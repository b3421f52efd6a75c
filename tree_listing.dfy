/**
  * ls-tree --name-only: after the first NUL, the parser repeatedly skips to
  * the next space, takes the bytes up to the next NUL as a name, and skips
  * the 20 hash bytes that follow.
  */
module TreeListing {
  import opened Bytes
  import opened Wrappers
  import opened ObjectFormat
  import opened TreeEntries
  import opened TreeEncoding
  import opened HexCodec

  /** What the command prints: the names, in order, and the exception that ended it, if any. */
  datatype Listing = Listing(names: seq<seq<byte>>, failure: Option<Error>)

  /**
    * The entries from `pos` on. An entry with no space makes
    * `Arrays.copyOfRange` start past the end and throw, after the names
    * before it were printed; a missing NUL or a short hash just ends the list.
    */
  function ListFrom(d: seq<byte>, pos: nat): Listing
    decreases |d| - pos
  {
    if pos >= |d| then Listing([], None)
    else
      var space := NextIndex(d, pos, SP);
      if space == |d| then Listing([], Some(EntryWithoutSpace))
      else
        var nameEnd := NextIndex(d, space + 1, NUL);
        var rest := ListFrom(d, nameEnd + 1 + 20);
        Listing([d[space + 1..nameEnd]] + rest.names, rest.failure)
  }

  /** One step of the listing, spelled out. */
  lemma ListFromStep(d: seq<byte>, pos: nat)
    requires pos < |d|
    ensures var space := NextIndex(d, pos, SP);
      && (space == |d| ==> ListFrom(d, pos) == Listing([], Some(EntryWithoutSpace)))
      && (space < |d| ==>
            var nameEnd := NextIndex(d, space + 1, NUL);
            var next := ListFrom(d, nameEnd + 1 + 20);
            ListFrom(d, pos) == Listing([d[space + 1..nameEnd]] + next.names, next.failure))
  {
  }

  /** The whole command on an inflated object: no NUL is "Invalid tree object format". */
  function ListTreeNames(d: seq<byte>): Listing {
    var i := NextIndex(d, 0, NUL);
    if i == |d| then Listing([], Some(InvalidTreeObject)) else ListFrom(d, i + 1)
  }

  /** ls-tree on an inflated object: find the first NUL, then read the entries after it. */
  method ListTree(decompressed: seq<byte>) returns (names: seq<seq<byte>>, failure: Option<Error>)
    ensures Listing(names, failure) == ListTreeNames(decompressed)
  {
    var nullIndex := FindNul(decompressed);
    if nullIndex == -1 {
      return [], Some(InvalidTreeObject);
    }
    NextIndexAt(decompressed, 0, nullIndex, NUL);
    names, failure := ListEntries(decompressed, nullIndex + 1);
  }

  /** `while (i < d.length && d[i] != b) i++;` from `from`. */
  method SkipUntil(d: seq<byte>, from: nat, b: byte) returns (i: nat)
    requires from <= |d|
    ensures i == NextIndex(d, from, b)
  {
    i := from;
    while i < |d| && d[i] != b
      invariant from <= i <= |d|
      invariant forall j :: from <= j < i ==> d[j] != b
    {
      i := i + 1;
    }
  }

  /**
    * One pass of the outer loop at `pos`: the scan to the space, the scan to
    * the NUL, the name between them, and the position 20 bytes past the NUL.
    * When the entry has no space, `nameStart` ends one past the end, the
    * scan for the NUL does nothing, and `Arrays.copyOfRange` throws.
    */
  method ReadEntry(decompressed: seq<byte>, pos: nat) returns (ok: bool, name: seq<byte>, nextPos: nat)
    requires pos < |decompressed|
    ensures ok ==> nextPos > pos
    ensures ok ==>
      ListFrom(decompressed, pos)
        == Listing([name] + ListFrom(decompressed, nextPos).names, ListFrom(decompressed, nextPos).failure)
    ensures !ok ==> ListFrom(decompressed, pos) == Listing([], Some(EntryWithoutSpace))
  {
    ListFromStep(decompressed, pos);
    var n := |decompressed|;
    var nameStart := SkipUntil(decompressed, pos, SP);
    nameStart := nameStart + 1;
    if nameStart > n {
      return false, [], pos;
    }
    var nameEnd := SkipUntil(decompressed, nameStart, NUL);
    name := decompressed[nameStart..nameEnd];
    nextPos := nameEnd + 1 + 20;
    ok := true;
  }

  /** The outer `while (pos < decompressed.length)` loop, printing one name per entry. */
  method ListEntries(decompressed: seq<byte>, start: nat) returns (names: seq<seq<byte>>, failure: Option<Error>)
    ensures Listing(names, failure) == ListFrom(decompressed, start)
  {
    names, failure := [], None;
    ghost var whole := ListFrom(decompressed, start);
    assert [] + whole.names == whole.names;
    var pos := start;
    while pos < |decompressed|
      invariant names + ListFrom(decompressed, pos).names == whole.names
      invariant ListFrom(decompressed, pos).failure == whole.failure
      decreases |decompressed| - pos
    {
      var ok, name, nextPos := ReadEntry(decompressed, pos);
      if !ok {
        assert names + [] == names;
        failure := Some(EntryWithoutSpace);
        return;
      }
      assert (names + [name]) + ListFrom(decompressed, nextPos).names
        == names + ([name] + ListFrom(decompressed, nextPos).names);
      names := names + [name];
      pos := nextPos;
    }
  }

  /** The names of entries, in order. */
  function Names(es: seq<TreeEntry>): (r: seq<seq<byte>>)
    ensures |r| == |es| && forall i :: 0 <= i < |es| ==> r[i] == es[i].name
  {
    if es == [] then [] else [es[0].name] + Names(es[1..])
  }

  /** Entries the parser can read back: modes without a space, names without a NUL, hashes that decode. */
  predicate Listable(es: seq<TreeEntry>) {
    HashesDecode(es) &&
    forall i :: 0 <= i < |es| ==> SP !in es[i].mode && NUL !in es[i].name
  }

  /** One entry read at `pos`: the name between the mode's space and the NUL, then 20 bytes skipped. */
  lemma ListOneEntry(d: seq<byte>, pos: nat, e: TreeEntry)
    requires HashBytes(e.hash).Some? && SP !in e.mode && NUL !in e.name
    requires pos + |EntryBytes(e)| <= |d| && d[pos..pos + |EntryBytes(e)|] == EntryBytes(e)
    ensures var next := ListFrom(d, pos + |EntryBytes(e)|);
      ListFrom(d, pos) == Listing([e.name] + next.names, next.failure)
  {
    var hashBytes := HashBytes(e.hash).value;
    var entry := EntryBytes(e);
    assert entry == e.mode + [SP] + e.name + [NUL] + hashBytes;
    assert |entry| == |e.mode| + 1 + |e.name| + 1 + 20;
    forall j | 0 <= j < |entry|
      ensures d[pos + j] == entry[j]
    {
      assert d[pos..pos + |entry|][j] == entry[j];
    }
    ListEntryLayout(d, pos, e.mode, e.name, hashBytes);
  }

  /** The scans of one entry laid out as mode, space, name, NUL and 20 bytes. */
  lemma ListEntryLayout(d: seq<byte>, pos: nat, mode: seq<byte>, name: seq<byte>, hashBytes: seq<byte>)
    requires SP !in mode && NUL !in name && |hashBytes| == 20
    requires var entry := mode + [SP] + name + [NUL] + hashBytes;
      pos + |entry| <= |d| && forall j :: 0 <= j < |entry| ==> d[pos + j] == entry[j]
    ensures var next := ListFrom(d, pos + |mode| + 1 + |name| + 1 + 20);
      ListFrom(d, pos) == Listing([name] + next.names, next.failure)
  {
    var entry := mode + [SP] + name + [NUL] + hashBytes;
    var space := pos + |mode|;
    var nameEnd := space + 1 + |name|;
    forall j | pos <= j < space
      ensures d[j] != SP
    {
      assert d[pos + (j - pos)] == entry[j - pos] == mode[j - pos];
    }
    assert d[pos + |mode|] == entry[|mode|] == SP;
    NextIndexAt(d, pos, space, SP);
    forall j | space + 1 <= j < nameEnd
      ensures d[j] != NUL
    {
      assert d[pos + (j - pos)] == entry[j - pos] == name[j - space - 1];
    }
    assert d[pos + (nameEnd - pos)] == entry[nameEnd - pos] == NUL;
    NextIndexAt(d, space + 1, nameEnd, NUL);
    forall k | 0 <= k < |name|
      ensures d[space + 1..nameEnd][k] == name[k]
    {
      assert d[pos + (|mode| + 1 + k)] == entry[|mode| + 1 + k];
    }
    assert d[space + 1..nameEnd] == name;
    ListFromStep(d, pos);
  }

  /**
    * Parsing an encoded payload, wherever in the buffer it starts, recovers
    * the names in encoding order, whatever the 20 hash bytes hold (0x00 and
    * 0x20 included).
    */
  lemma {:induction false} ListEncoded(d: seq<byte>, pos: nat, es: seq<TreeEntry>)
    requires Listable(es)
    requires pos <= |d| && d[pos..] == EncodeEntries(es)
    ensures ListFrom(d, pos) == Listing(Names(es), None)
    decreases |es|
  {
    if es != [] {
      var e, rest := es[0], es[1..];
      assert Listable(rest) by {
        assert forall i :: 0 <= i < |rest| ==> rest[i] == es[i + 1];
      }
      var entry := EntryBytes(e);
      assert d[pos..] == entry + EncodeEntries(rest);
      assert d[pos..pos + |entry|] == d[pos..][..|entry|] == entry;
      assert d[pos + |entry|..] == d[pos..][|entry|..] == EncodeEntries(rest);
      ListOneEntry(d, pos, e);
      ListEncoded(d, pos + |entry|, rest);
    }
  }

  /** Behind any header whose only NUL ends it, ls-tree lists the encoded names. */
  lemma ListAfterHeader(es: seq<TreeEntry>, h: seq<byte>, d: seq<byte>)
    requires Listable(es)
    requires d == h + EncodeEntries(es)
    requires 1 <= |h| && NextIndex(d, 0, NUL) == |h| - 1
    ensures ListTreeNames(d) == Listing(Names(es), None)
  {
    assert d[|h|..] == EncodeEntries(es);
    ListEncoded(d, |h|, es);
  }

  /** Tree parse round trip: ls-tree of an encoded tree object lists the entries' names in encoding order. */
  lemma ListEncodedTree(es: seq<TreeEntry>)
    requires Listable(es)
    ensures ListTreeNames(Framed(TreeKind, EncodeEntries(es))) == Listing(Names(es), None)
  {
    var payload := EncodeEntries(es);
    KindsNulFree();
    FramedNulIndex(TreeKind, payload);
    ListAfterHeader(es, Header(TreeKind, |payload|), Framed(TreeKind, payload));
  }

  /** Sorting keeps entries listable, since it only rearranges them. */
  lemma SortKeepsListable(es: seq<TreeEntry>)
    requires Listable(es)
    ensures Listable(SortEntries(es))
  {
    var s := SortEntries(es);
    SortPermutes(es);
    forall i | 0 <= i < |s|
      ensures HashBytes(s[i].hash).Some? && SP !in s[i].mode && NUL !in s[i].name
    {
      assert s[i] in multiset(es);
    }
  }

  /**
    * What write-tree stores lists back, through ls-tree, as the entry names
    * in ascending order, each name of the input exactly as often as it occurs.
    */
  lemma WrittenTreeListsSortedNames(es: seq<TreeEntry>)
    requires Listable(es)
    ensures HashesDecode(SortEntries(es))
    ensures var listing := ListTreeNames(Framed(TreeKind, EncodeEntries(SortEntries(es))));
      && listing.failure == None
      && listing.names == Names(SortEntries(es))
      && (forall i, j :: 0 <= i < j < |listing.names| ==> CompareNames(listing.names[i], listing.names[j]) <= 0)
      && multiset(listing.names) == multiset(Names(es))
  {
    SortKeepsListable(es);
    ListEncodedTree(SortEntries(es));
    SortSorts(es);
    SortPermutes(es);
    SortPermutesNames(es);
  }

  lemma NamesCons(e: TreeEntry, es: seq<TreeEntry>)
    ensures Names([e] + es) == [e.name] + Names(es)
  {
    assert ([e] + es)[1..] == es;
  }

  lemma {:induction false} InsertPermutesNames(e: TreeEntry, es: seq<TreeEntry>)
    ensures multiset(Names(InsertByName(e, es))) == multiset(Names(es)) + multiset{e.name}
  {
    if es == [] {
      NamesCons(e, []);
    } else {
      var rest := es[1..];
      assert es == [es[0]] + rest;
      NamesCons(es[0], rest);
      if CompareNames(e.name, es[0].name) > 0 {
        InsertPermutesNames(e, rest);
        NamesCons(es[0], InsertByName(e, rest));
      } else {
        NamesCons(e, es);
      }
    }
  }

  /** Sorting rearranges the names and nothing more. */
  lemma {:induction false} SortPermutesNames(es: seq<TreeEntry>)
    ensures multiset(Names(SortEntries(es))) == multiset(Names(es))
  {
    if es != [] {
      SortPermutesNames(es[1..]);
      InsertPermutesNames(es[0], SortEntries(es[1..]));
      assert Names(es) == [es[0].name] + Names(es[1..]);
    }
  }
}
