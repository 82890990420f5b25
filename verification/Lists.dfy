/** The circular doubly linked lists of list.h, rewritten pointer by pointer, as sequences. */
module Lists {
  class ListHead {
    var next: ListHead?
    var prev: ListHead?

    constructor ()
      ensures Ring([this])
    {
      next, prev := this, this;
    }
  }

  /** The place after place i in a ring of n. */
  function Succ(i: nat, n: nat): nat { if i + 1 < n then i + 1 else 0 }

  ghost predicate Distinct(r: seq<ListHead>) { forall i, j :: 0 <= i < j < |r| ==> r[i] != r[j] }

  ghost predicate Disjoint(r: seq<ListHead>, s: seq<ListHead>) {
    forall i, j :: 0 <= i < |r| && 0 <= j < |s| ==> r[i] != s[j]
  }

  /** The nodes of r are linked into one ring, in this order, forwards and backwards. */
  ghost predicate Ring(r: seq<ListHead>)
    reads r
  {
    && |r| > 0 && Distinct(r)
    && (forall i :: 0 <= i < |r| ==> r[i].next == r[Succ(i, |r|)])
    && (forall i :: 0 <= i < |r| ==> r[Succ(i, |r|)].prev == r[i])
  }

  /** A list of entries is a ring that begins with its head. */
  ghost predicate IsList(head: ListHead, entries: seq<ListHead>)
    reads head, entries
  {
    Ring([head] + entries)
  }

  /** What is left of a sequence without place k. */
  function Without(s: seq<ListHead>, k: nat): seq<ListHead>
    requires k < |s|
  {
    s[..k] + s[k + 1..]
  }

  lemma RingPrev(r: seq<ListHead>, k: nat)
    requires Ring(r) && k < |r|
    ensures r[k].prev == if k > 0 then r[k - 1] else r[|r| - 1]
  {
    if k > 0 {
      assert Succ(k - 1, |r|) == k;
    } else {
      assert Succ(|r| - 1, |r|) == 0;
    }
  }

  lemma DistinctInsert(r: seq<ListHead>, k: nat, node: ListHead)
    requires Distinct(r) && k <= |r| && node !in r
    ensures Distinct(r[..k] + [node] + r[k..])
  {
  }

  /** __list_add between two neighbours of a ring. */
  method ListAddBetween(node: ListHead, prev: ListHead, next: ListHead, ghost r: seq<ListHead>, ghost k: nat)
    requires Ring(r) && node !in r && k < |r| && prev == r[k] && next == r[Succ(k, |r|)]
    modifies node, prev, next
    ensures Ring(r[..k + 1] + [node] + r[k + 1..])
  {
    DistinctInsert(r, k + 1, node);
    next.prev := node;
    node.next := next;
    node.prev := prev;
    prev.next := node;
    ghost var s := r[..k + 1] + [node] + r[k + 1..];
    forall i | 0 <= i < |s| ensures s[i].next == s[Succ(i, |s|)] && s[Succ(i, |s|)].prev == s[i] {
      if i < k {
        assert s[i] == r[i] && s[i + 1] == r[i + 1] && Succ(i, |r|) == i + 1;
      } else if i > k + 1 {
        assert s[i] == r[i - 1] && s[Succ(i, |s|)] == r[Succ(i - 1, |r|)];
      }
    }
  }

  /** __list_del of the neighbours of an entry of a ring. */
  method ListJoin(prev: ListHead, next: ListHead, ghost r: seq<ListHead>, ghost k: nat)
    requires Ring(r) && 1 <= k < |r| && prev == r[k - 1] && next == r[Succ(k, |r|)]
    modifies prev, next
    ensures Ring(Without(r, k))
  {
    next.prev := prev;
    prev.next := next;
    ghost var s := Without(r, k);
    forall i | 0 <= i < |s| ensures s[i].next == s[Succ(i, |s|)] && s[Succ(i, |s|)].prev == s[i] {
      if i < k - 1 {
        assert s[i] == r[i] && s[i + 1] == r[i + 1] && Succ(i, |r|) == i + 1;
      } else if i >= k {
        assert s[i] == r[i + 1] && s[Succ(i, |s|)] == r[Succ(i + 1, |r|)];
      }
    }
  }

  /** list_add. */
  method ListAdd(node: ListHead, head: ListHead, ghost entries: seq<ListHead>)
    requires IsList(head, entries) && node !in [head] + entries
    modifies node, head, entries
    ensures IsList(head, [node] + entries)
    ensures forall e :: e in entries && e != entries[0] ==> unchanged(e)
  {
    ghost var r := [head] + entries;
    assert r[0] == head && r[Succ(0, |r|)] == head.next;
    ListAddBetween(node, head, head.next, r, 0);
    assert r[..1] + [node] + r[1..] == [head] + ([node] + entries);
  }

  /** list_add_tail. */
  method ListAddTail(node: ListHead, head: ListHead, ghost entries: seq<ListHead>)
    requires IsList(head, entries) && node !in [head] + entries
    modifies node, head, entries
    ensures IsList(head, entries + [node])
  {
    ghost var r := [head] + entries;
    assert r[0] == head;
    RingPrev(r, 0);
    ListAddBetween(node, head.prev, head, r, |r| - 1);
    assert r[..|r|] + [node] + r[|r|..] == [head] + (entries + [node]);
  }

  lemma WithoutHead(head: ListHead, entries: seq<ListHead>, k: nat)
    requires k < |entries|
    ensures ([head] + entries)[k + 1] == entries[k]
    ensures Without([head] + entries, k + 1) == [head] + Without(entries, k)
  {
  }

  lemma WithoutDistinct(r: seq<ListHead>, k: nat)
    requires Distinct(r) && 1 <= k < |r|
    ensures forall i :: 0 <= i < |Without(r, k)| ==> Without(r, k)[i] != r[k]
  {
  }

  /** The neighbours of an entry, and what is left without it. */
  lemma EntryLinks(head: ListHead, entries: seq<ListHead>, k: nat)
    requires IsList(head, entries) && k < |entries|
    ensures var r := [head] + entries;
            entries[k] == r[k + 1] && entries[k].prev == r[k] && entries[k].next == r[Succ(k + 1, |r|)]
    ensures Without([head] + entries, k + 1) == [head] + Without(entries, k)
    ensures entries[k] !in [head] + Without(entries, k)
  {
    WithoutHead(head, entries, k);
    RingPrev([head] + entries, k + 1);
    WithoutDistinct([head] + entries, k + 1);
  }

  /** list_del. */
  method ListDel(entry: ListHead, ghost head: ListHead, ghost entries: seq<ListHead>, ghost k: nat)
    requires IsList(head, entries) && k < |entries| && entry == entries[k]
    modifies head, entries
    ensures IsList(head, Without(entries, k)) && entry.next == null && entry.prev == null
  {
    EntryLinks(head, entries, k);
    ListJoin(entry.prev, entry.next, [head] + entries, k + 1);
    entry.next := null;
    entry.prev := null;
  }

  /** list_del_init. */
  method ListDelInit(entry: ListHead, ghost head: ListHead, ghost entries: seq<ListHead>, ghost k: nat)
    requires IsList(head, entries) && k < |entries| && entry == entries[k]
    modifies head, entries
    ensures IsList(head, Without(entries, k)) && Ring([entry])
  {
    EntryLinks(head, entries, k);
    ListJoin(entry.prev, entry.next, [head] + entries, k + 1);
    entry.next := entry;
    entry.prev := entry;
  }

  /** list_move within one list: the entry goes to the front. */
  method ListMove(entry: ListHead, head: ListHead, ghost entries: seq<ListHead>, ghost k: nat)
    requires IsList(head, entries) && k < |entries| && entry == entries[k]
    modifies head, entries
    ensures IsList(head, [entry] + Without(entries, k))
  {
    EntryLinks(head, entries, k);
    ListJoin(entry.prev, entry.next, [head] + entries, k + 1);
    ListAdd(entry, head, Without(entries, k));
  }

  /** list_move_tail from one list to another. */
  method ListMoveTailTo(entry: ListHead, ghost from: ListHead, ghost entries: seq<ListHead>, ghost k: nat,
                        head: ListHead, ghost others: seq<ListHead>)
    requires IsList(from, entries) && k < |entries| && entry == entries[k] && IsList(head, others)
    requires Disjoint([from] + entries, [head] + others)
    modifies from, entries, head, others
    ensures IsList(from, Without(entries, k)) && IsList(head, others + [entry])
  {
    ghost var r, h := [from] + entries, [head] + others;
    EntryLinks(from, entries, k);
    DisjointLinks(r, h, k + 1);
    ghost var rest := [from] + Without(entries, k);
    ListJoin(entry.prev, entry.next, r, k + 1);
    assert Disjoint(rest, h) && h == [head] + others;
    forall i | 0 <= i < |rest| ensures rest[i] != entry && rest[i] != head && rest[i] !in others {
      assert rest[i] != h[0];
      assert forall j :: 0 <= j < |others| ==> others[j] == h[j + 1];
    }
    label Parted:
    ListAddTail(entry, head, others);
    assert forall i :: 0 <= i < |rest| ==> unchanged@Parted(rest[i]);
  }

  /** list_move_tail within one list: the entry goes to the end. */
  method ListMoveTail(entry: ListHead, head: ListHead, ghost entries: seq<ListHead>, ghost k: nat)
    requires IsList(head, entries) && k < |entries| && entry == entries[k]
    modifies head, entries
    ensures IsList(head, Without(entries, k) + [entry])
  {
    EntryLinks(head, entries, k);
    ListJoin(entry.prev, entry.next, [head] + entries, k + 1);
    ListAddTail(entry, head, Without(entries, k));
  }

  /** list_move from one list to another. */
  method ListMoveTo(entry: ListHead, ghost from: ListHead, ghost entries: seq<ListHead>, ghost k: nat,
                    head: ListHead, ghost others: seq<ListHead>)
    requires IsList(from, entries) && k < |entries| && entry == entries[k] && IsList(head, others)
    requires Disjoint([from] + entries, [head] + others)
    modifies from, entries, head, others
    ensures IsList(from, Without(entries, k)) && IsList(head, [entry] + others)
  {
    ghost var r, h := [from] + entries, [head] + others;
    EntryLinks(from, entries, k);
    DisjointLinks(r, h, k + 1);
    ghost var rest := [from] + Without(entries, k);
    ListJoin(entry.prev, entry.next, r, k + 1);
    assert Disjoint(rest, h) && h == [head] + others;
    forall i | 0 <= i < |rest| ensures rest[i] != entry && rest[i] != head && rest[i] !in others {
      assert rest[i] != h[0];
      assert forall j :: 0 <= j < |others| ==> others[j] == h[j + 1];
    }
    label Parted:
    ListAdd(entry, head, others);
    assert forall i :: 0 <= i < |rest| ==> unchanged@Parted(rest[i]);
  }

  /** A ring holds all its links, so rings apart share none. */
  lemma DisjointLinks(r: seq<ListHead>, s: seq<ListHead>, k: nat)
    requires Disjoint(r, s) && k < |r|
    ensures r[k] !in s && Disjoint(Without(r, k), s)
  {
  }

  /** list_empty. */
  method ListEmpty(head: ListHead, ghost entries: seq<ListHead>) returns (empty: bool)
    requires IsList(head, entries)
    ensures empty <==> entries == []
  {
    ghost var r := [head] + entries;
    assert r[0].next == r[Succ(0, |r|)];
    if entries != [] {
      assert r[1] == entries[0];
    }
    empty := head.next == head;
  }

  lemma DistinctJoin(a: seq<ListHead>, b: seq<ListHead>)
    requires Distinct(a) && Distinct(b) && Disjoint(a, b)
    ensures Distinct(a + b)
  {
  }

  /** list_splice: the entries of one list go in front of those of another. */
  method ListSplice(list: ListHead, ghost added: seq<ListHead>, head: ListHead, ghost entries: seq<ListHead>)
    requires IsList(list, added) && IsList(head, entries)
    requires Disjoint([list] + added, [head] + entries)
    modifies list, added, head, entries
    ensures IsList(head, added + entries) && unchanged(list)
  {
    var empty := ListEmpty(list, added);
    if empty {
      assert added + entries == entries;
    } else {
      ghost var l, h := [list] + added, [head] + entries;
      ghost var n := |added|;
      assert l[0] == list && h[0] == head && l[1] == added[0] && l[n] == added[n - 1];
      RingPrev(l, 0);
      assert list.next == l[Succ(0, |l|)] && head.next == h[Succ(0, |h|)];
      SplicedDistinct(list, added, head, entries);
      var first, last, at := list.next, list.prev, head.next;
      first.prev := head;
      head.next := first;
      last.next := at;
      at.prev := last;
      ghost var s := [head] + (added + entries);
      forall i | 0 <= i < |s| ensures s[i].next == s[Succ(i, |s|)] && s[Succ(i, |s|)].prev == s[i] {
        if 0 < i < n {
          assert s[i] == l[i] && s[i + 1] == l[i + 1] && Succ(i, |l|) == i + 1;
        } else if i > n {
          assert s[i] == h[i - n] && s[Succ(i, |s|)] == h[Succ(i - n, |h|)];
        }
      }
    }
  }

  lemma SplicedDistinct(list: ListHead, added: seq<ListHead>, head: ListHead, entries: seq<ListHead>)
    requires Distinct([list] + added) && Distinct([head] + entries)
    requires Disjoint([list] + added, [head] + entries)
    ensures Distinct([head] + (added + entries)) && list !in [head] + (added + entries)
  {
    var l, h := [list] + added, [head] + entries;
    assert added == l[1..] && entries == h[1..];
    DistinctJoin(h, added);
    assert h + added == [head] + (entries + added);
    Rotated(head, entries, added);
    assert list == l[0] && list !in h;
  }

  lemma Rotated(head: ListHead, a: seq<ListHead>, b: seq<ListHead>)
    requires Distinct([head] + (a + b))
    ensures Distinct([head] + (b + a))
  {
    var r, s := [head] + (a + b), [head] + (b + a);
    forall i, j | 0 <= i < j < |s| ensures s[i] != s[j] {
      assert s[i] == r[Place(i, |a|, |b|)] && s[j] == r[Place(j, |a|, |b|)];
    }
  }

  /** Where the place i of b + a stands in a + b, both behind a head. */
  function Place(i: nat, a: nat, b: nat): nat {
    if i == 0 then 0 else if i <= b then i + a else if i <= a + b then i - b else i
  }

  /** list_splice_init: as list_splice, and the emptied list is a list again. */
  method ListSpliceInit(list: ListHead, ghost added: seq<ListHead>, head: ListHead, ghost entries: seq<ListHead>)
    requires IsList(list, added) && IsList(head, entries)
    requires Disjoint([list] + added, [head] + entries)
    modifies list, added, head, entries
    ensures IsList(head, added + entries) && IsList(list, [])
  {
    SplicedDistinct(list, added, head, entries);
    ListSplice(list, added, head, entries);
    list.next := list;
    list.prev := list;
  }

  /** list_for_each: a visit of the entries once each, in order. */
  method ForEach(head: ListHead, ghost entries: seq<ListHead>) returns (visited: seq<ListHead>)
    requires IsList(head, entries)
    ensures visited == entries
  {
    ghost var r := [head] + entries;
    assert r[0] == head && r[0].next == r[Succ(0, |r|)];
    var pos := head.next;
    visited := [];
    while pos != head
      invariant |visited| <= |entries| && visited == entries[..|visited|]
      invariant pos == r[Succ(|visited|, |r|)]
      decreases |entries| - |visited|
    {
      ghost var k := Succ(|visited|, |r|);
      assert r[k].next == r[Succ(k, |r|)];
      visited := visited + [pos];
      pos := pos.next;
    }
    assert Succ(|visited|, |r|) == 0;
  }

  // ----- laws

  /** A ring has one order from each head: two lists of entries of one head are equal. */
  lemma ListIsUnique(head: ListHead, a: seq<ListHead>, b: seq<ListHead>)
    requires IsList(head, a) && IsList(head, b)
    ensures a == b
  {
    var r, s := [head] + a, [head] + b;
    if |r| <= |s| {
      SameRing(r, s);
    } else {
      SameRing(s, r);
    }
    assert a == r[1..] && b == s[1..];
  }

  lemma SameRing(r: seq<ListHead>, s: seq<ListHead>)
    requires Ring(r) && Ring(s) && r[0] == s[0] && |r| <= |s|
    ensures r == s
  {
    var n := |r|;
    SamePrefix(r, s, n);
    assert r[..n][n - 1] == s[..n][n - 1];
    assert r[n - 1].next == r[Succ(n - 1, n)] && s[n - 1].next == s[Succ(n - 1, |s|)];
    assert r[..n] == r;
  }

  lemma {:induction false} SamePrefix(r: seq<ListHead>, s: seq<ListHead>, n: nat)
    requires Ring(r) && Ring(s) && r[0] == s[0] && 1 <= n <= |r| && n <= |s|
    ensures r[..n] == s[..n]
    decreases n
  {
    if n > 1 {
      SamePrefix(r, s, n - 1);
      assert r[n - 2] == r[..n - 1][n - 2] == s[n - 2];
      assert r[n - 2].next == r[Succ(n - 2, |r|)] && s[n - 2].next == s[Succ(n - 2, |s|)];
    }
  }
}
