// The circular doubly linked list of am_mw/am_fend_ctrl/list.h. A list is a ring of nodes that starts with its
// head; every operation is proved against what it does to the sequence of entries.

module KernelList {
  import opened Seqs

  class Node {
    var next: Node?
    var prev: Node?

    /** INIT_LIST_HEAD on a new head. */
    constructor ()
      ensures List(this, [])
    {
      next, prev := this, this;
    }
  }

  // ---- rings ------------------------------------------------------------------------------------

  ghost function Succ(s: seq<Node>, i: int): Node
    requires 0 <= i < |s|
  {
    if i + 1 == |s| then s[0] else s[i + 1]
  }

  ghost function Pred(s: seq<Node>, i: int): Node
    requires 0 <= i < |s|
  {
    if i == 0 then s[|s| - 1] else s[i - 1]
  }

  /** Node i points to its neighbours in both directions. */
  ghost predicate Linked(s: seq<Node>, i: int)
    requires 0 <= i < |s|
    reads {s[i]}
  {
    s[i].next == Succ(s, i) && s[i].prev == Pred(s, i)
  }

  ghost predicate Ring(s: seq<Node>)
    reads s
  {
    |s| > 0 && Distinct(s) && forall i :: 0 <= i < |s| ==> Linked(s, i)
  }

  /** The list of a head with these entries. */
  ghost predicate List(head: Node, items: seq<Node>)
    reads [head] + items
  {
    Ring([head] + items)
  }

  ghost predicate Disjoint(a: seq<Node>, b: seq<Node>) {
    forall x :: x in a ==> x !in b
  }

  /** A ring read from another of its nodes. */
  ghost function Rotated(s: seq<Node>, k: nat): (t: seq<Node>)
    requires k <= |s|
    ensures |t| == |s| && forall i :: 0 <= i < |t| ==> t[i] == s[if i + k < |s| then i + k else i + k - |s|]
  {
    s[k..] + s[..k]
  }

  lemma RotatedAt(s: seq<Node>, k: nat, i: nat)
    requires k <= |s| && i < |s|
    ensures var j := if i + k < |s| then i + k else i + k - |s|;
            Rotated(s, k)[i] == s[j] && Succ(Rotated(s, k), i) == Succ(s, j) && Pred(Rotated(s, k), i) == Pred(s, j)
  {
  }

  lemma RotateRing(s: seq<Node>, k: nat)
    requires Ring(s) && k <= |s|
    ensures Ring(Rotated(s, k))
  {
    var t := Rotated(s, k);
    forall i | 0 <= i < |t|
      ensures Linked(t, i)
    {
      RotatedAt(s, k, i);
      assert Linked(s, if i + k < |s| then i + k else i + k - |s|);
    }
  }

  // ---- the internal steps -----------------------------------------------------------------------

  /** INIT_LIST_HEAD */
  method InitListHead(list: Node)
    modifies list
    ensures List(list, [])
  {
    list.next := list;
    list.prev := list;
  }

  /** __list_add, between the last and the first node of a ring. */
  method AddBetween(entry: Node, prev: Node, next: Node, ghost s: seq<Node>)
    requires Ring(s) && entry !in s && prev == s[|s| - 1] && next == s[0]
    modifies entry, prev, next
    ensures Ring(s + [entry])
  {
    assert forall i :: 0 <= i < |s| ==> Linked(s, i);
    next.prev := entry;
    entry.next := next;
    entry.prev := prev;
    prev.next := entry;
    ghost var t := s + [entry];
    forall i | 0 <= i < |t|
      ensures Linked(t, i)
    {
      if i < |s| {
        assert old(Linked(s, i)) && t[i] == s[i];
      }
    }
  }

  /** __list_del around the first node of a ring. */
  method DelBetween(prev: Node, next: Node, ghost s: seq<Node>)
    requires Ring(s) && prev == s[|s| - 1] && next == Succ(s, 0)
    modifies prev, next
    ensures if |s| == 1 then Ring(s) else Ring(s[1..])
  {
    assert forall i :: 0 <= i < |s| ==> Linked(s, i);
    next.prev := prev;
    prev.next := next;
    if |s| > 1 {
      ghost var t := s[1..];
      forall i | 0 <= i < |t|
        ensures Linked(t, i)
      {
        assert old(Linked(s, i + 1)) && t[i] == s[i + 1];
      }
    }
  }

  /** __list_splice: the entries of a list go between the last and the first node of a ring. */
  method SpliceBetween(list: Node, prev: Node, next: Node, ghost items: seq<Node>, ghost s: seq<Node>)
    requires List(list, items) && items != [] && Ring(s) && Disjoint([list] + items, s)
    requires prev == s[|s| - 1] && next == s[0]
    modifies items, prev, next
    ensures Ring(s + items) && list.next == old(list.next) && list.prev == old(list.prev)
  {
    var first := list.next;
    var last := list.prev;
    RingPath(s);
    EntriesPath(list, items);
    assert ([list] + items)[0] == list && list !in s;
    JoinedDistinct(list, items, s);
    JoinPaths(prev, first, s, items);
    ClosePath(last, next, s + items);
  }

  /** The nodes of s are linked one after the other; where the two ends point is left open. */
  ghost predicate Path(s: seq<Node>)
    reads s
  {
    |s| > 0 && Distinct(s) && forall i :: 0 < i < |s| ==> Adjacent(s, i)
  }

  ghost predicate Adjacent(s: seq<Node>, i: int)
    requires 0 < i < |s|
    reads s[i], s[i - 1]
  {
    s[i].prev == s[i - 1] && s[i - 1].next == s[i]
  }

  lemma RingPath(s: seq<Node>)
    requires Ring(s)
    ensures Path(s)
  {
    forall i | 0 < i < |s|
      ensures Adjacent(s, i)
    {
      assert Linked(s, i) && Linked(s, i - 1);
    }
  }

  lemma EntriesPath(list: Node, items: seq<Node>)
    requires List(list, items) && items != []
    ensures Path(items) && list.next == items[0] && list.prev == items[|items| - 1]
    ensures forall i :: 0 <= i < |items| ==> items[i] != list
  {
    var r := [list] + items;
    assert forall i :: 0 <= i < |items| ==> items[i] == r[i + 1];
    assert Linked(r, 0);
    RingPath(r);
    forall i | 0 < i < |items|
      ensures Adjacent(items, i)
    {
      assert Adjacent(r, i + 1);
    }
  }

  /** The first half of __list_splice: one path behind another. */
  method JoinPaths(prev: Node, first: Node, ghost s: seq<Node>, ghost t: seq<Node>)
    requires Path(s) && Path(t) && Distinct(s + t) && prev == s[|s| - 1] && first == t[0]
    modifies prev`next, first`prev
    ensures Path(s + t)
  {
    ghost var r := s + t;
    assert forall i :: 0 < i < |s| ==> Adjacent(s, i);
    assert forall i :: 0 < i < |t| ==> Adjacent(t, i);
    assert r[|s| - 1] == prev && r[|s|] == first;
    first.prev := prev;
    prev.next := first;
    forall i | 0 < i < |r|
      ensures Adjacent(r, i)
    {
      if i < |s| {
        assert old(Adjacent(s, i)) && r[i] == s[i] && r[i - 1] == s[i - 1];
      } else if i > |s| {
        assert old(Adjacent(t, i - |s|)) && r[i] == t[i - |s|] && r[i - 1] == t[i - |s| - 1];
      }
    }
  }

  /** The second half of __list_splice: the end of a path to its beginning. */
  method ClosePath(last: Node, next: Node, ghost s: seq<Node>)
    requires Path(s) && last == s[|s| - 1] && next == s[0]
    modifies last`next, next`prev
    ensures Ring(s)
  {
    assert forall i :: 0 < i < |s| ==> Adjacent(s, i);
    last.next := next;
    next.prev := last;
    forall i | 0 <= i < |s|
      ensures Linked(s, i)
    {
      assert i > 0 ==> old(Adjacent(s, i));
      assert i + 1 < |s| ==> old(Adjacent(s, i + 1));
    }
  }

  lemma JoinedDistinct(list: Node, items: seq<Node>, s: seq<Node>)
    requires Distinct([list] + items) && Distinct(s) && Disjoint([list] + items, s)
    ensures Distinct(s + items)
  {
    var t, r := s + items, [list] + items;
    forall i, j | 0 <= i < j < |t|
      ensures t[i] != t[j]
    {
      if i < |s| && j >= |s| {
        assert t[j] == r[j - |s| + 1] && t[j] in r;
      } else if i >= |s| {
        assert r[i - |s| + 1] == t[i] && r[j - |s| + 1] == t[j];
      }
    }
  }

  // ---- the operations ---------------------------------------------------------------------------

  /** list_add: the entry becomes the first one. */
  method ListAdd(entry: Node, head: Node, ghost items: seq<Node>)
    requires List(head, items) && entry !in [head] + items
    modifies [head] + items, entry
    ensures List(head, [entry] + items)
  {
    ghost var s := Rotated([head] + items, 1);
    RotateRing([head] + items, 1);
    assert s == items + [head] && Linked([head] + items, 0);
    assert entry !in s;
    AddBetween(entry, head, head.next, s);
    RotateRing(s + [entry], |items|);
    assert Rotated(s + [entry], |items|) == [head] + ([entry] + items);
  }

  /** list_add_tail: the entry becomes the last one. */
  method ListAddTail(entry: Node, head: Node, ghost items: seq<Node>)
    requires List(head, items) && entry !in [head] + items
    modifies [head] + items, entry
    ensures List(head, items + [entry])
  {
    assert Linked([head] + items, 0);
    AddBetween(entry, head.prev, head, [head] + items);
    assert [head] + items + [entry] == [head] + (items + [entry]);
  }

  /** The links around entry i: the list closes over it. */
  method UnlinkEntry(entry: Node, ghost head: Node, ghost items: seq<Node>, ghost i: nat)
    requires List(head, items) && i < |items| && items[i] == entry
    modifies [head] + items
    ensures List(head, Cut(items, i))
    ensures entry.next == old(entry.next) && entry.prev == old(entry.prev)
  {
    ghost var ring, n := [head] + items, |items| - i - 1;
    ghost var s := Rotated(ring, i + 1);
    ghost var t := s[1..];
    Around(head, items, i, ring, s, t, n);
    RotateRing(ring, i + 1);
    DelFirst(entry, s);
    RotateRing(t, n);
  }

  /** The ring without its first node. */
  method DelFirst(entry: Node, ghost s: seq<Node>)
    requires Ring(s) && |s| > 1 && s[0] == entry
    modifies s
    ensures Ring(s[1..]) && entry.next == old(entry.next) && entry.prev == old(entry.prev)
  {
    assert Linked(s, 0);
    DelBetween(entry.prev, entry.next, s);
  }

  /** The ring of a list, seen from entry i and without it. */
  lemma Around(head: Node, items: seq<Node>, i: nat, ring: seq<Node>, s: seq<Node>, t: seq<Node>, n: nat)
    requires i < |items| && ring == [head] + items && s == Rotated(ring, i + 1) && t == s[1..] && n == |items| - i - 1
    ensures s[0] == items[i] && |s| > 1 && (forall k :: 0 <= k < |s| ==> s[k] in ring)
    ensures Rotated(t, n) == [head] + Cut(items, i)
  {
    var front, back := [head] + items[..i], items[i + 1..];
    assert ring[..i + 1] == front && ring[i + 1..] == [items[i]] + back;
    assert t == back + front && |back| == n;
    assert Rotated(t, n) == front + back;
  }

  /** list_del: the entry leaves the list, and its links are poisoned. */
  method ListDel(entry: Node, ghost head: Node, ghost items: seq<Node>, ghost i: nat)
    requires List(head, items) && i < |items| && items[i] == entry
    modifies [head] + items
    ensures List(head, Cut(items, i)) && entry.next == null && entry.prev == null
  {
    Leaves(head, items, i);
    UnlinkEntry(entry, head, items, i);
    ghost var s := [head] + Cut(items, i);
    assert entry in [head] + items;
    assert forall k :: 0 <= k < |s| ==> Linked(s, k);
    entry.next := null;
    entry.prev := null;
    assert forall k :: 0 <= k < |s| ==> Linked(s, k);
  }

  lemma Leaves(head: Node, items: seq<Node>, i: nat)
    requires Distinct([head] + items) && i < |items|
    ensures var s := [head] + Cut(items, i);
            items[i] in [head] + items && (forall k :: 0 <= k < |s| ==> s[k] != items[i] && s[k] in [head] + items)
  {
    var all, s := [head] + items, [head] + Cut(items, i);
    assert all[i + 1] == items[i];
    forall k | 0 <= k < |s|
      ensures s[k] != items[i] && s[k] in all
    {
      assert s[k] == all[if k <= i then k else k + 1];
    }
  }

  /** list_del_init: the entry becomes an empty list of its own. */
  method ListDelInit(entry: Node, ghost head: Node, ghost items: seq<Node>, ghost i: nat)
    requires List(head, items) && i < |items| && items[i] == entry
    modifies [head] + items
    ensures List(head, Cut(items, i)) && List(entry, [])
  {
    Leaves(head, items, i);
    UnlinkEntry(entry, head, items, i);
    ghost var s := [head] + Cut(items, i);
    assert forall k :: 0 <= k < |s| ==> Linked(s, k);
    InitListHead(entry);
    assert forall k :: 0 <= k < |s| ==> Linked(s, k);
  }

  /** list_replace on a ring, which may be a lone head: the new node takes the place of the old one, and the old one
      keeps its links. */
  method ReplaceInRing(victim: Node, entry: Node, ghost s: seq<Node>, ghost i: nat)
    requires Ring(s) && i < |s| && s[i] == victim && entry !in s
    modifies s, entry
    ensures Ring(s[i := entry])
  {
    assert forall k :: 0 <= k < |s| ==> Linked(s, k);
    assert Linked(s, i);
    entry.next := victim.next;
    entry.next.prev := entry;
    entry.prev := victim.prev;
    entry.prev.next := entry;
    ghost var t := s[i := entry];
    forall k | 0 <= k < |t|
      ensures Linked(t, k)
    {
      assert old(Linked(s, k));
    }
  }

  /** list_replace of an entry. */
  method ListReplace(victim: Node, entry: Node, ghost head: Node, ghost items: seq<Node>, ghost i: nat)
    requires List(head, items) && i < |items| && items[i] == victim && entry !in [head] + items
    modifies [head] + items, entry
    ensures List(head, items[i := entry])
  {
    ghost var s := [head] + items;
    assert s[i + 1] == victim && s[i + 1 := entry] == [head] + items[i := entry];
    ReplaceInRing(victim, entry, s, i + 1);
  }

  /** list_replace of a head, with entries or without: the new node is the head of the same entries. */
  method ListReplaceHead(victim: Node, entry: Node, ghost items: seq<Node>)
    requires List(victim, items) && entry !in [victim] + items
    modifies [victim] + items, entry
    ensures List(entry, items)
  {
    ghost var s := [victim] + items;
    assert s[0 := entry] == [entry] + items;
    ReplaceInRing(victim, entry, s, 0);
  }

  /** list_replace_init of a head: the old head is left empty. */
  method ListReplaceInit(victim: Node, entry: Node, ghost items: seq<Node>)
    requires List(victim, items) && entry !in [victim] + items
    modifies [victim] + items, entry
    ensures List(entry, items) && List(victim, [])
  {
    ghost var s, t := [victim] + items, [entry] + items;
    assert victim == s[0] && victim in s && forall k :: 0 < k < |s| ==> s[k] != victim && t[k] == s[k];
    ListReplaceHead(victim, entry, items);
    assert forall k :: 0 <= k < |t| ==> Linked(t, k);
    InitListHead(victim);
    assert forall k :: 0 <= k < |t| ==> Linked(t, k);
  }

  /** list_replace_init of an entry: the old entry becomes an empty list. */
  method ListReplaceInitEntry(victim: Node, entry: Node, ghost head: Node, ghost items: seq<Node>, ghost i: nat)
    requires List(head, items) && i < |items| && items[i] == victim && entry !in [head] + items
    modifies [head] + items, entry
    ensures List(head, items[i := entry]) && List(victim, [])
  {
    ghost var s, t := [head] + items, [head] + items[i := entry];
    assert victim == s[i + 1] && t == s[i + 1 := entry];
    assert forall k :: 0 <= k < |s| && k != i + 1 ==> s[k] != victim && t[k] == s[k];
    ListReplace(victim, entry, head, items, i);
    assert forall k :: 0 <= k < |t| ==> Linked(t, k);
    InitListHead(victim);
    assert forall k :: 0 <= k < |t| ==> Linked(t, k);
  }

  /** list_move: the entry becomes the first one of its list. */
  method ListMove(entry: Node, head: Node, ghost items: seq<Node>, ghost i: nat)
    requires List(head, items) && i < |items| && items[i] == entry
    modifies [head] + items
    ensures List(head, [entry] + Cut(items, i))
  {
    Leaves(head, items, i);
    UnlinkEntry(entry, head, items, i);
    ListAdd(entry, head, Cut(items, i));
  }

  /** list_move to another list. */
  method ListMoveTo(entry: Node, head: Node, ghost items: seq<Node>, ghost i: nat,
                    target: Node, ghost others: seq<Node>)
    requires List(head, items) && i < |items| && items[i] == entry
    requires List(target, others) && Disjoint([head] + items, [target] + others)
    modifies [head] + items, [target] + others
    ensures List(head, Cut(items, i)) && List(target, [entry] + others)
  {
    Leaves(head, items, i);
    ghost var s, t := [head] + Cut(items, i), [target] + others;
    forall k | 0 <= k < |t|
      ensures Linked(t, k) && t[k] !in [head] + items
    {
      assert t[k] in t;
    }
    UnlinkEntry(entry, head, items, i);
    assert forall k :: 0 <= k < |t| ==> Linked(t, k);
    assert forall k :: 0 <= k < |s| ==> Linked(s, k);
    ListAdd(entry, target, others);
    assert forall k :: 0 <= k < |s| ==> Linked(s, k);
  }

  /** list_move_tail to another list. */
  method ListMoveTailTo(entry: Node, head: Node, ghost items: seq<Node>, ghost i: nat,
                        target: Node, ghost others: seq<Node>)
    requires List(head, items) && i < |items| && items[i] == entry
    requires List(target, others) && Disjoint([head] + items, [target] + others)
    modifies [head] + items, [target] + others
    ensures List(head, Cut(items, i)) && List(target, others + [entry])
  {
    Leaves(head, items, i);
    ghost var s, t := [head] + Cut(items, i), [target] + others;
    forall k | 0 <= k < |t|
      ensures Linked(t, k) && t[k] !in [head] + items
    {
      assert t[k] in t;
    }
    UnlinkEntry(entry, head, items, i);
    assert forall k :: 0 <= k < |t| ==> Linked(t, k);
    assert forall k :: 0 <= k < |s| ==> Linked(s, k);
    ListAddTail(entry, target, others);
    assert forall k :: 0 <= k < |s| ==> Linked(s, k);
  }

  /** list_move_tail: the entry becomes the last one of its list. */
  method ListMoveTail(entry: Node, head: Node, ghost items: seq<Node>, ghost i: nat)
    requires List(head, items) && i < |items| && items[i] == entry
    modifies [head] + items
    ensures List(head, Cut(items, i) + [entry])
  {
    Leaves(head, items, i);
    UnlinkEntry(entry, head, items, i);
    ListAddTail(entry, head, Cut(items, i));
  }

  // ---- tests ------------------------------------------------------------------------------------

  /** list_empty */
  method ListEmpty(head: Node, ghost items: seq<Node>) returns (empty: bool)
    requires List(head, items)
    ensures empty <==> items == []
  {
    assert Linked([head] + items, 0);
    return head.next == head;
  }

  /** list_is_last */
  method ListIsLast(entry: Node, head: Node, ghost items: seq<Node>, ghost i: nat) returns (last: bool)
    requires List(head, items) && i < |items| && items[i] == entry
    ensures last <==> i == |items| - 1
  {
    ghost var all := [head] + items;
    assert all[i + 1] == entry && Linked(all, i + 1);
    assert i + 1 < |items| ==> all[i + 2] != all[0];
    return entry.next == head;
  }

  /** list_is_singular */
  method ListIsSingular(head: Node, ghost items: seq<Node>) returns (singular: bool)
    requires List(head, items)
    ensures singular <==> |items| == 1
  {
    assert Linked([head] + items, 0);
    var empty := ListEmpty(head, items);
    return !empty && head.next == head.prev;
  }

  /** list_rotate_left: the first entry becomes the last one. */
  method ListRotateLeft(head: Node, ghost items: seq<Node>)
    requires List(head, items)
    modifies [head] + items
    ensures List(head, if items == [] then [] else items[1..] + [items[0]])
  {
    var empty := ListEmpty(head, items);
    if !empty {
      assert Linked([head] + items, 0);
      assert Cut(items, 0) == items[1..];
      ListMoveTail(head.next, head, items, 0);
    }
  }

  // ---- splicing and cutting ---------------------------------------------------------------------

  /** list_splice: the entries of a list go to the front of another one. */
  method ListSplice(list: Node, head: Node, ghost front: seq<Node>, ghost items: seq<Node>)
    requires List(list, front) && List(head, items) && Disjoint([list] + front, [head] + items)
    modifies front, [head] + items
    ensures List(head, front + items) && (front == [] ==> List(list, []))
    ensures list.next == old(list.next) && list.prev == old(list.prev)
  {
    var empty := ListEmpty(list, front);
    if empty {
      assert front + items == items;
      return;
    }
    ghost var all := [head] + items;
    ghost var s := Rotated(all, 1);
    RotateRing(all, 1);
    assert s == items + [head] && Linked(all, 0);
    SpliceBetween(list, head, head.next, front, s);
    RotateRing(s + front, |items|);
    assert Rotated(s + front, |items|) == [head] + (front + items);
  }

  /** list_splice_tail: the entries of a list go to the end of another one. */
  method ListSpliceTail(list: Node, head: Node, ghost back: seq<Node>, ghost items: seq<Node>)
    requires List(list, back) && List(head, items) && Disjoint([list] + back, [head] + items)
    modifies back, [head] + items
    ensures List(head, items + back) && (back == [] ==> List(list, []))
    ensures list.next == old(list.next) && list.prev == old(list.prev)
  {
    var empty := ListEmpty(list, back);
    if empty {
      assert items + back == items;
      return;
    }
    assert Linked([head] + items, 0);
    SpliceBetween(list, head.prev, head, back, [head] + items);
    assert [head] + items + back == [head] + (items + back);
  }

  /** list_splice_init: the list whose entries were taken is empty afterwards. */
  method ListSpliceInit(list: Node, head: Node, ghost front: seq<Node>, ghost items: seq<Node>)
    requires List(list, front) && List(head, items) && Disjoint([list] + front, [head] + items)
    modifies list, front, [head] + items
    ensures List(head, front + items) && List(list, [])
  {
    ListSplice(list, head, front, items);
    ghost var t := [head] + (front + items);
    Apart(list, front, head, items);
    assert forall k :: 0 <= k < |t| ==> Linked(t, k);
    InitListHead(list);
    assert forall k :: 0 <= k < |t| ==> Linked(t, k);
  }

  /** list_splice_tail_init: the same at the other end. */
  method ListSpliceTailInit(list: Node, head: Node, ghost back: seq<Node>, ghost items: seq<Node>)
    requires List(list, back) && List(head, items) && Disjoint([list] + back, [head] + items)
    modifies list, back, [head] + items
    ensures List(head, items + back) && List(list, [])
  {
    ListSpliceTail(list, head, back, items);
    ghost var t := [head] + (items + back);
    ApartBehind(list, back, head, items);
    assert forall k :: 0 <= k < |t| ==> Linked(t, k);
    InitListHead(list);
    assert forall k :: 0 <= k < |t| ==> Linked(t, k);
  }

  lemma ApartBehind(list: Node, back: seq<Node>, head: Node, items: seq<Node>)
    requires Distinct([list] + back) && Disjoint([list] + back, [head] + items)
    ensures var t := [head] + (items + back); forall k :: 0 <= k < |t| ==> t[k] != list
  {
    var r, s, t := [list] + back, [head] + items, [head] + (items + back);
    assert r[0] == list && list in r;
    forall k | 0 <= k < |t|
      ensures t[k] != list
    {
      if k < |s| {
        assert t[k] == s[k] && s[k] in s;
      } else {
        assert t[k] == r[k - |s| + 1];
      }
    }
  }

  lemma Apart(list: Node, front: seq<Node>, head: Node, items: seq<Node>)
    requires Distinct([list] + front) && Disjoint([list] + front, [head] + items)
    ensures var t := [head] + (front + items); forall k :: 0 <= k < |t| ==> t[k] != list
  {
    var r, t := [list] + front, [head] + (front + items);
    assert r[0] == list && list in r;
    forall k | 0 <= k < |t|
      ensures t[k] != list
    {
      if 1 <= k <= |front| {
        assert t[k] == r[k];
      } else {
        assert t[k] in [head] + items;
      }
    }
  }

  /**
   * list_cut_position: the entries up to and including entry n - 1, or none when `entry` is the head, move to
   * another head. An empty list is left as it is, and then so is the other head.
   */
  method ListCutPosition(list: Node, head: Node, entry: Node, ghost items: seq<Node>, ghost n: nat)
    requires List(head, items) && list !in [head] + items
    requires n <= |items| && entry == ([head] + items)[n]
    modifies [head] + items, list
    ensures items == [] ==> List(head, []) && list.next == old(list.next) && list.prev == old(list.prev)
    ensures items != [] ==> List(list, items[..n]) && List(head, items[n..])
  {
    var empty := ListEmpty(head, items);
    if empty {
      return;
    }
    var singular := ListIsSingular(head, items);
    assert Linked([head] + items, 0);
    if singular && head.next != entry && head != entry {
      assert false;
    }
    if entry == head {
      ghost var s := [head] + items;
      assert n == 0 && items[..0] == [] && items[0..] == items;
      assert forall k :: 0 <= k < |s| ==> Linked(s, k);
      InitListHead(list);
      assert forall k :: 0 <= k < |s| ==> Linked(s, k);
    } else {
      CutAt(list, head, entry, items, n);
    }
  }

  /** __list_cut_position */
  method CutAt(list: Node, head: Node, entry: Node, ghost items: seq<Node>, ghost n: nat)
    requires List(head, items) && list !in [head] + items && 0 < n <= |items| && entry == items[n - 1]
    modifies [head] + items, list
    ensures List(list, items[..n]) && List(head, items[n..])
  {
    ghost var s := [head] + items;
    assert forall k :: 0 <= k < |s| ==> Linked(s, k);
    CutLinks(list, head, entry, s, n);
    ghost var a, b := [list] + items[..n], [head] + items[n..];
    CutApart(list, head, items, n);
    forall k | 0 <= k < |a|
      ensures Linked(a, k)
    {
      assert old(Linked(s, k));
      assert k > 0 ==> a[k] == s[k];
    }
    forall k | 0 <= k < |b|
      ensures Linked(b, k)
    {
      assert old(Linked(s, if k == 0 then 0 else n + k));
      assert b[k] == s[if k == 0 then 0 else n + k];
    }
  }

  /** The links that a cut changes: those of the new head, and those around both ends of the part cut off. */
  method CutLinks(list: Node, head: Node, entry: Node, ghost s: seq<Node>, ghost n: nat)
    requires Ring(s) && list !in s && 0 < n < |s| && head == s[0] && entry == s[n]
    modifies s, list
    ensures list.next == s[1] && list.prev == s[n]
    ensures forall k :: 0 <= k < |s| ==>
              s[k].next == if k == 0 then Succ(s, n) else if k == n then list else old(s[k].next)
    ensures forall k :: 0 <= k < |s| ==>
              s[k].prev == if k == 1 then list else if s[k] == Succ(s, n) then head else old(s[k].prev)
  {
    assert Linked(s, n) && Linked(s, 0);
    var newFirst := entry.next;
    list.next := head.next;
    list.next.prev := list;
    list.prev := entry;
    entry.next := list;
    head.next := newFirst;
    newFirst.prev := head;
  }

  /** Cutting a list at an entry and splicing the part back restores it. */
  method CutAndSplice(list: Node, head: Node, entry: Node, ghost items: seq<Node>, ghost n: nat)
    requires List(head, items) && list !in [head] + items && items != []
    requires n <= |items| && entry == ([head] + items)[n]
    modifies [head] + items, list
    ensures List(head, items)
  {
    ListCutPosition(list, head, entry, items, n);
    CutApart(list, head, items, n);
    ListSplice(list, head, items[..n], items[n..]);
    assert items[..n] + items[n..] == items;
  }

  lemma CutApart(list: Node, head: Node, items: seq<Node>, n: nat)
    requires Distinct([head] + items) && list !in [head] + items && n <= |items|
    ensures Disjoint([list] + items[..n], [head] + items[n..])
    ensures Distinct([list] + items[..n]) && Distinct([head] + items[n..])
    ensures forall k :: 0 <= k < n ==> items[..n][k] in [head] + items
    ensures forall k :: 0 <= k < |[head] + items[n..]| ==> ([head] + items[n..])[k] in [head] + items
  {
    var s, a, b := [head] + items, [list] + items[..n], [head] + items[n..];
    CutParts(list, head, items, n);
    forall i, j | 0 <= i < |a| && 0 <= j < |b|
      ensures a[i] != b[j]
    {
      assert b[j] == s[if j == 0 then 0 else n + j];
      assert i > 0 ==> a[i] == s[i];
    }
  }

  /** Where the nodes of both parts are in the whole list. */
  lemma CutParts(list: Node, head: Node, items: seq<Node>, n: nat)
    requires n <= |items|
    ensures var s, a, b := [head] + items, [list] + items[..n], [head] + items[n..];
            && (forall k :: 0 < k < |a| ==> a[k] == s[k] && a[k] in s)
            && (forall k :: 0 <= k < |b| ==> b[k] == s[if k == 0 then 0 else n + k])
            && (forall k :: 0 <= k < n ==> items[..n][k] == s[k + 1])
  {
  }
}
