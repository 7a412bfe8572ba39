/**
 * The retention step of the home page: the stored files, as
 * `(ctime, path)` pairs, are sorted newest first; the first `MAX_IMAGES`
 * are shown and every other one is unlinked.
 */
module Retention {
  import opened Seqs

  /** Number of stored images kept and shown. */
  const MAX_IMAGES: nat := 10

  /** A regular file of the upload directory: its creation time and its path. */
  datatype Entry = Entry(ctime: int, path: string)

  /** Python's ordering of strings: lexicographic by code point, a proper prefix first. */
  predicate StrLe(a: string, b: string)
    decreases |a|
  {
    if |a| == 0 then true
    else if |b| == 0 then false
    else if a[0] != b[0] then a[0] < b[0]
    else StrLe(a[1..], b[1..])
  }

  lemma {:induction false} StrLeTotal(a: string, b: string)
    ensures StrLe(a, b) || StrLe(b, a)
    decreases |a|
  {
    if |a| > 0 && |b| > 0 && a[0] == b[0] {
      StrLeTotal(a[1..], b[1..]);
    }
  }

  lemma {:induction false} StrLeTransitive(a: string, b: string, c: string)
    requires StrLe(a, b) && StrLe(b, c)
    ensures StrLe(a, c)
    decreases |a|
  {
    if |a| > 0 && |b| > 0 && |c| > 0 && a[0] == b[0] && b[0] == c[0] {
      StrLeTransitive(a[1..], b[1..], c[1..]);
    }
  }

  lemma {:induction false} StrLeAntisymmetric(a: string, b: string)
    requires StrLe(a, b) && StrLe(b, a)
    ensures a == b
    decreases |a|
  {
    if |a| > 0 {
      StrLeAntisymmetric(a[1..], b[1..]);
      assert a == [a[0]] + a[1..] && b == [b[0]] + b[1..];
    }
  }

  /** Python's ordering of `(ctime, path)` tuples. */
  predicate EntryLe(x: Entry, y: Entry) {
    x.ctime < y.ctime || (x.ctime == y.ctime && StrLe(x.path, y.path))
  }

  /** Any two entries are comparable. */
  lemma EntryLeTotal(x: Entry, y: Entry)
    ensures EntryLe(x, y) || EntryLe(y, x)
  {
    StrLeTotal(x.path, y.path);
  }

  /** The ordering of entries is transitive. */
  lemma EntryLeTransitive(x: Entry, y: Entry, z: Entry)
    requires EntryLe(x, y) && EntryLe(y, z)
    ensures EntryLe(x, z)
  {
    if x.ctime == y.ctime == z.ctime {
      StrLeTransitive(x.path, y.path, z.path);
    }
  }

  /** Entries ordered both ways are equal: the ordering is antisymmetric. */
  lemma EntryLeAntisymmetric(x: Entry, y: Entry)
    requires EntryLe(x, y) && EntryLe(y, x)
    ensures x == y
  {
    StrLeAntisymmetric(x.path, y.path);
  }

  /** Newest first: what `sorted(..., reverse=True)` returns. */
  predicate Descending(s: seq<Entry>) {
    forall i, j :: 0 <= i < j < |s| ==> EntryLe(s[j], s[i])
  }

  /** An entry no older than the head of a descending list may go in front of it. */
  lemma InFront(x: Entry, s: seq<Entry>)
    requires Descending(s) && |s| > 0 && EntryLe(s[0], x)
    ensures Descending([x] + s)
  {
    forall j | 0 <= j < |s| ensures EntryLe(s[j], x) {
      if j > 0 {
        EntryLeTransitive(s[j], s[0], x);
      }
    }
  }

  /** The head of a descending list may go in front of a descending list of its own tail's elements and an older entry. */
  lemma Behind(s: seq<Entry>, x: Entry, t: seq<Entry>)
    requires Descending(s) && |s| > 0 && EntryLe(x, s[0])
    requires Descending(t) && multiset(t) == multiset(s[1..]) + multiset{x}
    ensures Descending([s[0]] + t)
  {
    forall k | 0 <= k < |t| ensures EntryLe(t[k], s[0]) {
      assert t[k] in multiset(t);
      if t[k] != x {
        assert t[k] in multiset(s[1..]);
        var j :| 0 <= j < |s[1..]| && s[1..][j] == t[k];
        assert s[j + 1] == t[k];
      }
    }
  }

  /** Put `x` into a descending list in its place. */
  function Insert(x: Entry, s: seq<Entry>): (r: seq<Entry>)
    requires Descending(s)
    ensures Descending(r)
    ensures multiset(r) == multiset(s) + multiset{x}
    decreases |s|
  {
    if |s| == 0 then [x]
    else if EntryLe(s[0], x) then
      InFront(x, s);
      [x] + s
    else
      EntryLeTotal(s[0], x);
      var t := Insert(x, s[1..]);
      Behind(s, x, t);
      assert s == [s[0]] + s[1..];
      [s[0]] + t
  }

  /** `sorted(infos, reverse=True)`, as an insertion sort. */
  function SortDescending(xs: seq<Entry>): (r: seq<Entry>)
    ensures Descending(r)
    ensures multiset(r) == multiset(xs)
    decreases |xs|
  {
    if |xs| == 0 then []
    else
      assert xs == [xs[0]] + xs[1..];
      Insert(xs[0], SortDescending(xs[1..]))
  }

  /** Cutting a descending list leaves every element of the front no older than every element of the back. */
  lemma CutDescending(s: seq<Entry>, n: nat)
    requires Descending(s) && n <= |s|
    ensures s[..n] + s[n..] == s
    ensures multiset(s[..n]) + multiset(s[n..]) == multiset(s)
    ensures forall i, j :: 0 <= i < |s[..n]| && 0 <= j < |s[n..]| ==> EntryLe(s[n..][j], s[..n][i])
  {
    assert s[..n] + s[n..] == s;
    forall i, j | 0 <= i < |s[..n]| && 0 <= j < |s[n..]| ensures EntryLe(s[n..][j], s[..n][i]) {
      assert s[..n][i] == s[i] && s[n..][j] == s[n + j];
    }
  }

  /**
   * The loop over the sorted entries: index `i < MAX_IMAGES` is shown, every
   * later one unlinked. Returns the shown and the unlinked entries.
   */
  function Retain(infos: seq<Entry>): (r: (seq<Entry>, seq<Entry>))
    ensures |r.0| == if |infos| < MAX_IMAGES then |infos| else MAX_IMAGES
    ensures multiset(r.0) + multiset(r.1) == multiset(infos)
    ensures Descending(r.0 + r.1)
    ensures forall i, j :: 0 <= i < |r.0| && 0 <= j < |r.1| ==> EntryLe(r.1[j], r.0[i])
  {
    var sorted := SortDescending(infos);
    assert |sorted| == |multiset(sorted)| == |multiset(infos)| == |infos|;
    var n := if |sorted| < MAX_IMAGES then |sorted| else MAX_IMAGES;
    CutDescending(sorted, n);
    (sorted[..n], sorted[n..])
  }

  /** The head of a descending list is no older than any of its elements. */
  lemma HeadIsNewest(s: seq<Entry>, e: Entry)
    requires Descending(s) && e in s
    ensures EntryLe(e, s[0])
  {
    var i :| 0 <= i < |s| && s[i] == e;
    if i == 0 {
      EntryLeTotal(e, e);
    }
  }

  lemma MultisetTail(s: seq<Entry>)
    requires |s| > 0
    ensures multiset(s[1..]) == multiset(s) - multiset{s[0]}
  {
    assert s == [s[0]] + s[1..];
  }

  /** Two descending lists with the same elements are the same list. */
  lemma {:induction false} DescendingUnique(s: seq<Entry>, t: seq<Entry>)
    requires Descending(s) && Descending(t) && multiset(s) == multiset(t)
    ensures s == t
    decreases |s|
  {
    assert |t| == |multiset(t)| == |multiset(s)| == |s|;
    if |s| > 0 {
      assert s[0] in multiset(t) && t[0] in multiset(s);
      HeadIsNewest(s, t[0]);
      HeadIsNewest(t, s[0]);
      EntryLeAntisymmetric(s[0], t[0]);
      MultisetTail(s);
      MultisetTail(t);
      DescendingUnique(s[1..], t[1..]);
      assert s == [s[0]] + s[1..] && t == [t[0]] + t[1..];
    }
  }

  /** What is kept and what is unlinked does not depend on the order `os.listdir` returned the files in. */
  lemma RetainIgnoresListingOrder(a: seq<Entry>, b: seq<Entry>)
    requires multiset(a) == multiset(b)
    ensures Retain(a) == Retain(b)
  {
    DescendingUnique(SortDescending(a), SortDescending(b));
  }

  /** A second visit finds exactly the kept files and unlinks nothing more. */
  lemma RetainIsStable(infos: seq<Entry>)
    ensures Retain(Retain(infos).0) == (Retain(infos).0, [])
  {
    var kept := Retain(infos).0;
    DescendingUnique(SortDescending(kept), kept);
    assert kept[..|kept|] == kept;
  }

  /** Distinct paths (names in one directory) make shown and unlinked disjoint, down to the path. */
  lemma RetainDisjoint(infos: seq<Entry>)
    requires forall i, j :: 0 <= i < j < |infos| ==> infos[i].path != infos[j].path
    ensures forall i, j :: 0 <= i < |Retain(infos).0| && 0 <= j < |Retain(infos).1| ==>
      Retain(infos).0[i].path != Retain(infos).1[j].path
  {
    var r := Retain(infos);
    assert Distinct(infos);
    forall i, j | 0 <= i < |r.0| && 0 <= j < |r.1| ensures r.0[i].path != r.1[j].path {
      var k, u := r.0[i], r.1[j];
      assert k in multiset(infos) && u in multiset(infos);
      if k.path == u.path {
        var a :| 0 <= a < |infos| && infos[a] == k;
        var b :| 0 <= b < |infos| && infos[b] == u;
        assert a == b;
        DistinctCountsOnce(infos, k);
        assert false;
      }
    }
  }
}
