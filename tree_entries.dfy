/**
  * `TreeEntry` and its order: `compareTo` compares names the way
  * `String.compareTo` does, and write-tree sorts its entries by it.
  */
module TreeEntries {
  import opened Bytes

  /** A tree entry: its mode ("100644", "100755" or "40000"), its name, and its target's hex hash. */
  datatype TreeEntry = TreeEntry(mode: seq<byte>, name: seq<byte>, hash: string)

  /**
    * `this.name.compareTo(other.name)`: the difference of the first
    * differing bytes, or of the lengths when one name is a prefix of the
    * other; zero exactly on equal names.
    */
  function CompareNames(a: seq<byte>, b: seq<byte>): (r: int)
    ensures r == 0 <==> a == b
  {
    if a == [] || b == [] then |a| - |b|
    else if a[0] != b[0] then a[0] - b[0]
    else
      assert a == [a[0]] + a[1..] && b == [b[0]] + b[1..];
      CompareNames(a[1..], b[1..])
  }

  /** Plain lexicographic order: a proper prefix, or a smaller byte at the first difference. */
  ghost predicate LexLess(a: seq<byte>, b: seq<byte>) {
    (|a| < |b| && a == b[..|a|]) ||
    exists k :: 0 <= k < |a| && k < |b| && a[..k] == b[..k] && a[k] < b[k]
  }

  /** Swapping the arguments negates the comparison. */
  lemma {:induction false} CompareAntisymmetric(a: seq<byte>, b: seq<byte>)
    ensures CompareNames(a, b) == -CompareNames(b, a)
  {
    if a != [] && b != [] && a[0] == b[0] {
      CompareAntisymmetric(a[1..], b[1..]);
    }
  }

  /** "Sorts no later than" is transitive, as `Collections.sort` needs. */
  lemma {:induction false} CompareTransitive(a: seq<byte>, b: seq<byte>, c: seq<byte>)
    requires CompareNames(a, b) <= 0 && CompareNames(b, c) <= 0
    ensures CompareNames(a, c) <= 0
  {
    if a != [] && b != [] && c != [] && a[0] == b[0] && b[0] == c[0] {
      CompareTransitive(a[1..], b[1..], c[1..]);
    }
  }

  /** A negative comparison is exactly lexicographic precedence. */
  lemma {:induction false} CompareIsLexicographic(a: seq<byte>, b: seq<byte>)
    ensures CompareNames(a, b) < 0 <==> LexLess(a, b)
  {
    if a == [] || b == [] {
      if a == [] && b != [] {
        assert a == b[..0];
      }
      if b == [] {
        assert !(|a| < |b|);
      }
    } else if a[0] != b[0] {
      if a[0] < b[0] {
        assert a[..0] == b[..0];
      }
    } else {
      var a', b' := a[1..], b[1..];
      CompareIsLexicographic(a', b');
      if LexLess(a', b') {
        if |a'| < |b'| && a' == b'[..|a'|] {
          assert a == b[..|a|];
        } else {
          var k :| 0 <= k < |a'| && k < |b'| && a'[..k] == b'[..k] && a'[k] < b'[k];
          assert a[..k + 1] == [a[0]] + a'[..k];
          assert b[..k + 1] == [b[0]] + b'[..k];
          assert a[k + 1] == a'[k] && b[k + 1] == b'[k];
        }
      }
      if LexLess(a, b) {
        if |a| < |b| && a == b[..|a|] {
          assert a' == b'[..|a'|];
        } else {
          var k :| 0 <= k < |a| && k < |b| && a[..k] == b[..k] && a[k] < b[k];
          assert k > 0;
          assert a'[..k - 1] == a[1..k] == b[1..k] == b'[..k - 1];
          assert a'[k - 1] == a[k] && b'[k - 1] == b[k];
        }
      }
    }
  }

  /** The order `Collections.sort` establishes: no entry's name compares above a later one's. */
  predicate SortedByName(es: seq<TreeEntry>) {
    forall i, j :: 0 <= i < j < |es| ==> CompareNames(es[i].name, es[j].name) <= 0
  }

  /** Place `e` before the first entry it does not compare above. */
  function InsertByName(e: TreeEntry, es: seq<TreeEntry>): seq<TreeEntry> {
    if es == [] then [e]
    else if CompareNames(e.name, es[0].name) <= 0 then [e] + es
    else [es[0]] + InsertByName(e, es[1..])
  }

  /**
    * `Collections.sort(entries)`: a stable sort by `compareTo`, written as an
    * insertion sort that keeps equal names in their original order.
    */
  function SortEntries(es: seq<TreeEntry>): seq<TreeEntry> {
    if es == [] then [] else InsertByName(es[0], SortEntries(es[1..]))
  }

  lemma {:induction false} InsertPermutes(e: TreeEntry, es: seq<TreeEntry>)
    ensures multiset(InsertByName(e, es)) == multiset(es) + multiset{e}
  {
    if es != [] && CompareNames(e.name, es[0].name) > 0 {
      InsertPermutes(e, es[1..]);
      assert es == [es[0]] + es[1..];
    }
  }

  lemma {:induction false} InsertSorted(e: TreeEntry, es: seq<TreeEntry>)
    requires SortedByName(es)
    ensures SortedByName(InsertByName(e, es))
  {
    if es == [] {
    } else if CompareNames(e.name, es[0].name) <= 0 {
      forall j | 0 <= j < |es|
        ensures CompareNames(e.name, es[j].name) <= 0
      {
        if j > 0 {
          CompareTransitive(e.name, es[0].name, es[j].name);
        }
      }
      ConsSorted(e, es);
    } else {
      var tail := InsertByName(e, es[1..]);
      InsertSorted(e, es[1..]);
      HeadBelowInsert(e, es);
      ConsSorted(es[0], tail);
    }
  }

  /** An entry no name of a sorted list compares below can go in front of it. */
  lemma ConsSorted(x: TreeEntry, es: seq<TreeEntry>)
    requires SortedByName(es)
    requires forall j :: 0 <= j < |es| ==> CompareNames(x.name, es[j].name) <= 0
    ensures SortedByName([x] + es)
  {
    var r := [x] + es;
    forall i, j | 0 <= i < j < |r|
      ensures CompareNames(r[i].name, r[j].name) <= 0
    {
      if i > 0 {
        assert r[i] == es[i - 1] && r[j] == es[j - 1];
      } else {
        assert r[j] == es[j - 1];
      }
    }
  }

  /** Inserting past the head keeps the head below everything after it. */
  lemma HeadBelowInsert(e: TreeEntry, es: seq<TreeEntry>)
    requires SortedByName(es) && es != [] && CompareNames(e.name, es[0].name) > 0
    ensures forall j :: 0 <= j < |InsertByName(e, es[1..])| ==>
      CompareNames(es[0].name, InsertByName(e, es[1..])[j].name) <= 0
  {
    var tail := InsertByName(e, es[1..]);
    InsertPermutes(e, es[1..]);
    CompareAntisymmetric(e.name, es[0].name);
    forall j | 0 <= j < |tail|
      ensures CompareNames(es[0].name, tail[j].name) <= 0
    {
      assert tail[j] in multiset(tail);
      if tail[j] != e {
        assert tail[j] in multiset(es[1..]);
        var k :| 0 <= k < |es[1..]| && es[1..][k] == tail[j];
        assert es[k + 1] == tail[j];
      }
    }
  }

  /** The sorted entries are the given entries, rearranged. */
  lemma {:induction false} SortPermutes(es: seq<TreeEntry>)
    ensures multiset(SortEntries(es)) == multiset(es)
  {
    if es != [] {
      SortPermutes(es[1..]);
      InsertPermutes(es[0], SortEntries(es[1..]));
      assert es == [es[0]] + es[1..];
    }
  }

  /** The sorted entries are in ascending name order. */
  lemma {:induction false} SortSorts(es: seq<TreeEntry>)
    ensures SortedByName(SortEntries(es))
  {
    if es != [] {
      SortSorts(es[1..]);
      InsertSorted(es[0], SortEntries(es[1..]));
    }
  }

  /** Entries with the same name are the same entry, as in one directory listing, where names are distinct. */
  predicate NamesDetermineEntries(s: multiset<TreeEntry>) {
    forall x, y :: x in s && y in s && x.name == y.name ==> x == y
  }

  /** Two name-sorted lists of the same entries are equal when a name determines its entry. */
  lemma {:induction false} SortedUnique(a: seq<TreeEntry>, b: seq<TreeEntry>)
    requires SortedByName(a) && SortedByName(b)
    requires multiset(a) == multiset(b) && NamesDetermineEntries(multiset(a))
    ensures a == b
    decreases |a|
  {
    if a == [] {
      assert |multiset(b)| == 0;
    } else {
      assert |multiset(b)| == |multiset(a)|;
      SortedHeadsEqual(a, b);
      SortedTails(a, b);
      SortedUnique(a[1..], b[1..]);
      assert a == [a[0]] + a[1..] && b == [b[0]] + b[1..];
    }
  }

  /** The first entries of two such lists agree: each compares no higher than the other. */
  lemma SortedHeadsEqual(a: seq<TreeEntry>, b: seq<TreeEntry>)
    requires a != [] && b != [] && SortedByName(a) && SortedByName(b)
    requires multiset(a) == multiset(b) && NamesDetermineEntries(multiset(a))
    ensures a[0] == b[0]
  {
    var x, y := a[0], b[0];
    assert x in multiset(b) && y in multiset(a);
    var k :| 0 <= k < |b| && b[k] == x;
    var m :| 0 <= m < |a| && a[m] == y;
    assert CompareNames(x.name, y.name) <= 0 by {
      if m > 0 {
        assert CompareNames(a[0].name, a[m].name) <= 0;
      }
    }
    assert CompareNames(y.name, x.name) <= 0 by {
      if k > 0 {
        assert CompareNames(b[0].name, b[k].name) <= 0;
      }
    }
    CompareAntisymmetric(x.name, y.name);
  }

  /** Past equal first entries, the rests are again two such lists. */
  lemma SortedTails(a: seq<TreeEntry>, b: seq<TreeEntry>)
    requires a != [] && b != [] && a[0] == b[0] && SortedByName(a) && SortedByName(b)
    requires multiset(a) == multiset(b) && NamesDetermineEntries(multiset(a))
    ensures SortedByName(a[1..]) && SortedByName(b[1..])
    ensures multiset(a[1..]) == multiset(b[1..]) && NamesDetermineEntries(multiset(a[1..]))
  {
    assert a == [a[0]] + a[1..] && b == [b[0]] + b[1..];
    assert multiset(a[1..]) <= multiset(a);
    SortedTail(a);
    SortedTail(b);
  }

  lemma SortedTail(a: seq<TreeEntry>)
    requires a != [] && SortedByName(a)
    ensures SortedByName(a[1..])
  {
    forall i, j | 0 <= i < j < |a| - 1
      ensures CompareNames(a[1..][i].name, a[1..][j].name) <= 0
    {
      assert a[1..][i] == a[i + 1] && a[1..][j] == a[j + 1];
    }
  }

  /**
    * The sort's result depends only on which entries there are, not on the
    * order they came in (the order `listFiles` returns is unspecified).
    */
  lemma SortOrderIndependent(a: seq<TreeEntry>, b: seq<TreeEntry>)
    requires multiset(a) == multiset(b) && NamesDetermineEntries(multiset(a))
    ensures SortEntries(a) == SortEntries(b)
  {
    SortSorts(a);
    SortSorts(b);
    SortPermutes(a);
    SortPermutes(b);
    SortedUnique(SortEntries(a), SortEntries(b));
  }
}
