/** Circular, doubly linked, intrusive lists (include/types/list.h).

    A list is a ring of `ListHead`s, one of which is the anchor.  A family of rings is described by
    a map from each anchor to the sequence of nodes that follow it.  What the list operations do to
    the pointers is written as updates of the maps `next` and `prev` (a snapshot of the fields);
    what that means for the family of rings is proved about those maps. */
module IntrusiveList {

  class ListHead {
    var next: ListHead
    var prev: ListHead
    /** Which structure this list head is embedded in; what `container_of` recovers. */
    const id: int

    /** INIT_LIST_HEAD on a new list head. */
    constructor (id: int)
      ensures next == this && prev == this && this.id == id
    {
      this.id := id;
      next, prev := this, this;
    }
  }

  type Links = map<ListHead, ListHead>
  type Rings = map<ListHead, seq<ListHead>>

  ghost function NextOf(S: set<ListHead>): Links
    reads S
  {
    map x | x in S :: x.next
  }

  ghost function PrevOf(S: set<ListHead>): Links
    reads S
  {
    map x | x in S :: x.prev
  }

  /** Position `i` of the ring: the anchor is both position 0 and the position after the last. */
  ghost function At(h: ListHead, s: seq<ListHead>, i: nat): (x: ListHead)
    requires i <= |s| + 1
    ensures x == h || x in s
  {
    if 1 <= i <= |s| then s[i - 1] else h
  }

  ghost function Get(m: Links, x: ListHead): ListHead {
    if x in m then m[x] else x
  }

  ghost predicate NextLinked(next: Links, h: ListHead, s: seq<ListHead>) {
    forall i: nat {:trigger Get(next, At(h, s, i))} | i <= |s| :: Get(next, At(h, s, i)) == At(h, s, i + 1)
  }

  ghost predicate PrevLinked(prev: Links, h: ListHead, s: seq<ListHead>) {
    forall i: nat {:trigger Get(prev, At(h, s, i))} | 1 <= i <= |s| + 1 :: Get(prev, At(h, s, i)) == At(h, s, i - 1)
  }

  /** No node occurs twice in the family, and no anchor occurs inside a ring. */
  ghost predicate Disjoint(R: Rings) {
    && (forall g, i, h, j :: g in R && h in R && 0 <= i < |R[g]| && 0 <= j < |R[h]| && R[g][i] == R[h][j]
          ==> g == h && i == j)
    && (forall g, i :: g in R && 0 <= i < |R[g]| ==> R[g][i] !in R)
  }

  /** The pointers realise the family: every ring is closed, and `prev` undoes `next` along it. */
  ghost predicate Realises(next: Links, prev: Links, R: Rings) {
    && Disjoint(R)
    && (forall h | h in R :: NextLinked(next, h, R[h]))
    && (forall h | h in R :: PrevLinked(prev, h, R[h]))
  }

  /** `x` is in no ring of the family and anchors none. */
  ghost predicate Loose(x: ListHead, R: Rings) {
    && x !in R
    && forall h, i :: h in R && 0 <= i < |R[h]| ==> R[h][i] != x
  }

  ghost function Without(R: Rings, h: ListHead, k: nat): Rings
    requires h in R && k < |R[h]|
  {
    R[h := R[h][..k] + R[h][k + 1..]]
  }

  ghost function Appended(R: Rings, h: ListHead, x: ListHead): Rings
    requires h in R
  {
    R[h := R[h] + [x]]
  }

  // ---------- Laws about the pointer maps ----------

  lemma {:induction false} WithoutDisjoint(R: Rings, h: ListHead, k: nat)
    requires Disjoint(R) && h in R && k < |R[h]|
    ensures Disjoint(Without(R, h, k)) && Loose(R[h][k], Without(R, h, k))
  {
    var Q, s, t := Without(R, h, k), R[h], R[h][..k] + R[h][k + 1..];
    assert forall i | 0 <= i < |t| :: t[i] == s[if i < k then i else i + 1];
    forall g, i, f, j | g in Q && f in Q && 0 <= i < |Q[g]| && 0 <= j < |Q[f]| && Q[g][i] == Q[f][j]
      ensures g == f && i == j
    {
      var i' := if g == h && i >= k then i + 1 else i;
      var j' := if f == h && j >= k then j + 1 else j;
      assert R[g][i'] == R[f][j'];
    }
  }

  lemma {:induction false} AppendedDisjoint(R: Rings, h: ListHead, x: ListHead)
    requires Disjoint(R) && h in R && Loose(x, R)
    ensures Disjoint(Appended(R, h, x))
  {
  }

  /** A ring none of whose nodes is `p` does not notice a write to `p`. */
  lemma OtherRing(m: Links, h: ListHead, s: seq<ListHead>, p: ListHead, n: ListHead)
    requires p != h && p !in s
    ensures NextLinked(m, h, s) ==> NextLinked(m[p := n], h, s)
    ensures PrevLinked(m, h, s) ==> PrevLinked(m[p := n], h, s)
  {
    assert forall i: nat | i <= |s| + 1 :: Get(m[p := n], At(h, s, i)) == Get(m, At(h, s, i));
  }

  lemma NextBridged(next: Links, h: ListHead, s: seq<ListHead>, k: nat)
    requires NextLinked(next, h, s) && k < |s|
    requires h !in s && forall i, j :: 0 <= i < j < |s| ==> s[i] != s[j]
    ensures NextLinked(next[At(h, s, k) := At(h, s, k + 2)], h, s[..k] + s[k + 1..])
  {
    var t, p, n := s[..k] + s[k + 1..], At(h, s, k), At(h, s, k + 2);
    forall i: nat | i <= |t| ensures Get(next[p := n], At(h, t, i)) == At(h, t, i + 1) {
      var j := if i <= k then i else i + 1;
      assert At(h, t, i) == At(h, s, j) && Get(next, At(h, s, j)) == At(h, s, j + 1);
    }
  }

  lemma PrevBridged(prev: Links, h: ListHead, s: seq<ListHead>, k: nat)
    requires PrevLinked(prev, h, s) && k < |s|
    requires h !in s && forall i, j :: 0 <= i < j < |s| ==> s[i] != s[j]
    ensures PrevLinked(prev[At(h, s, k + 2) := At(h, s, k)], h, s[..k] + s[k + 1..])
  {
    var t, p, n := s[..k] + s[k + 1..], At(h, s, k), At(h, s, k + 2);
    forall i: nat | 1 <= i <= |t| + 1 ensures Get(prev[n := p], At(h, t, i)) == At(h, t, i - 1) {
      var j := if i <= k then i else i + 1;
      assert At(h, t, i) == At(h, s, j) && Get(prev, At(h, s, j)) == At(h, s, j - 1);
    }
  }

  /** __list_del(prev, next) around position `k` takes that node out of its ring and changes no
      other ring. */
  lemma DelRealises(next: Links, prev: Links, R: Rings, h: ListHead, k: nat)
    requires Realises(next, prev, R) && h in R && k < |R[h]|
    ensures var p, n := At(h, R[h], k), At(h, R[h], k + 2);
      Realises(next[p := n], prev[n := p], Without(R, h, k))
    ensures Loose(R[h][k], Without(R, h, k))
  {
    var p, n := At(h, R[h], k), At(h, R[h], k + 2);
    WithoutDisjoint(R, h, k);
    NextBridged(next, h, R[h], k);
    PrevBridged(prev, h, R[h], k);
    forall g | g in R && g != h
      ensures NextLinked(next[p := n], g, R[g]) && PrevLinked(prev[n := p], g, R[g])
    {
      OtherRing(next, g, R[g], p, n);
      OtherRing(prev, g, R[g], n, p);
    }
  }

  /** The four writes of __list_add(x, last, h) put `x` at the end of the ring anchored at `h`
      and change no other ring. */
  lemma AddTailRealises(next: Links, prev: Links, R: Rings, h: ListHead, x: ListHead)
    requires Realises(next, prev, R) && h in R && Loose(x, R)
    ensures var last := At(h, R[h], |R[h]|);
      Realises(next[x := h][last := x], prev[h := x][x := last], Appended(R, h, x))
  {
    var s := R[h];
    var t, last := s + [x], At(h, s, |s|);
    AppendedDisjoint(R, h, x);
    assert NextLinked(next[x := h][last := x], h, t) by {
      forall i: nat | i <= |t| ensures Get(next[x := h][last := x], At(h, t, i)) == At(h, t, i + 1) {
        if i <= |s| {
          assert At(h, t, i) == At(h, s, i) && Get(next, At(h, s, i)) == At(h, s, i + 1);
        }
      }
    }
    assert PrevLinked(prev[h := x][x := last], h, t) by {
      forall i: nat | 1 <= i <= |t| + 1 ensures Get(prev[h := x][x := last], At(h, t, i)) == At(h, t, i - 1) {
        if i <= |s| {
          assert At(h, t, i) == At(h, s, i) && Get(prev, At(h, s, i)) == At(h, s, i - 1);
        }
      }
    }
    forall g | g in R && g != h
      ensures NextLinked(next[x := h][last := x], g, R[g]) && PrevLinked(prev[h := x][x := last], g, R[g])
    {
      OtherRing(next, g, R[g], x, h);
      OtherRing(next[x := h], g, R[g], last, x);
      OtherRing(prev, g, R[g], h, x);
      OtherRing(prev[h := x], g, R[g], x, last);
    }
  }

  /** A loose node can be written freely. */
  lemma LooseWrite(next: Links, prev: Links, R: Rings, x: ListHead, y: ListHead, z: ListHead)
    requires Realises(next, prev, R) && Loose(x, R)
    ensures Realises(next[x := y], prev[x := z], R)
  {
    forall g | g in R ensures NextLinked(next[x := y], g, R[g]) && PrevLinked(prev[x := z], g, R[g]) {
      OtherRing(next, g, R[g], x, y);
      OtherRing(prev, g, R[g], x, z);
    }
  }

  /** With all the links realised, `next` and `prev` are inverse at every position of every ring. */
  lemma NextPrevInverse(next: Links, prev: Links, R: Rings, h: ListHead, i: nat)
    requires Realises(next, prev, R) && h in R && i <= |R[h]|
    ensures Get(prev, Get(next, At(h, R[h], i))) == At(h, R[h], i)
  {
    assert NextLinked(next, h, R[h]) && PrevLinked(prev, h, R[h]);
    assert Get(next, At(h, R[h], i)) == At(h, R[h], i + 1);
    assert Get(prev, At(h, R[h], i + 1)) == At(h, R[h], i);
  }

  // ---------- The operations on the fields ----------

  /** The list heads of `S` realise the rings of `R`. */
  ghost predicate WellFormed(S: set<ListHead>, R: Rings)
    reads S
  {
    && (forall h | h in R :: h in S)
    && (forall h, i | h in R && 0 <= i < |R[h]| :: R[h][i] in S)
    && Realises(NextOf(S), PrevOf(S), R)
  }

  /** INIT_LIST_HEAD on a list head that is in no ring. */
  method InitListHead(list: ListHead, ghost S: set<ListHead>, ghost R: Rings)
    requires WellFormed(S, R) && list in S && Loose(list, R)
    modifies list
    ensures list.next == list && list.prev == list && WellFormed(S, R)
  {
    LooseWrite(NextOf(S), PrevOf(S), R, list, list, list);
    list.next, list.prev := list, list;
    assert NextOf(S) == old(NextOf(S))[list := list] && PrevOf(S) == old(PrevOf(S))[list := list];
  }

  /** list_empty. */
  method ListEmpty(head: ListHead, ghost S: set<ListHead>, ghost R: Rings) returns (empty: bool)
    requires WellFormed(S, R) && head in R
    ensures empty <==> R[head] == []
  {
    assert NextLinked(NextOf(S), head, R[head]);
    assert Get(NextOf(S), At(head, R[head], 0)) == At(head, R[head], 1);
    empty := head.next == head;
  }

  /** The step of list_for_each_entry: the node after position `i` (the anchor is position 0, and
      position `|R[h]| + 1` again). */
  method Next(cursor: ListHead, ghost S: set<ListHead>, ghost R: Rings, ghost h: ListHead, ghost i: nat)
    returns (next: ListHead)
    requires WellFormed(S, R) && h in R && i <= |R[h]| && cursor == At(h, R[h], i)
    ensures next == At(h, R[h], i + 1) && (next == h <==> i == |R[h]|)
  {
    assert NextLinked(NextOf(S), h, R[h]);
    assert Get(NextOf(S), At(h, R[h], i)) == At(h, R[h], i + 1);
    next := cursor.next;
  }

  /** __list_add. */
  method ListAddLinks(entry: ListHead, prev: ListHead, next: ListHead, ghost S: set<ListHead>)
    requires entry in S && prev in S && next in S
    modifies entry, prev, next
    ensures NextOf(S) == old(NextOf(S))[entry := next][prev := entry]
    ensures PrevOf(S) == old(PrevOf(S))[next := entry][entry := prev]
    ensures entry != next ==> next.prev == entry
  {
    next.prev := entry;
    entry.next := next;
    entry.prev := prev;
    prev.next := entry;
  }

  /** __list_del. */
  method ListDelLinks(prev: ListHead, next: ListHead, ghost S: set<ListHead>)
    requires prev in S && next in S
    modifies prev, next
    ensures NextOf(S) == old(NextOf(S))[prev := next]
    ensures PrevOf(S) == old(PrevOf(S))[next := prev]
  {
    next.prev := prev;
    prev.next := next;
  }

  lemma LastNode(S: set<ListHead>, R: Rings, head: ListHead)
    requires WellFormed(S, R) && head in R
    ensures head.prev == At(head, R[head], |R[head]|) && head in S && head.prev in S
  {
    assert PrevLinked(PrevOf(S), head, R[head]);
    assert Get(PrevOf(S), At(head, R[head], |R[head]| + 1)) == At(head, R[head], |R[head]|);
  }

  /** One more list head that is in no ring changes nothing. */
  lemma MoreNodes(S: set<ListHead>, x: ListHead, R: Rings)
    requires WellFormed(S, R)
    ensures WellFormed(S + {x}, R)
    ensures x !in S ==> Loose(x, R)
  {
    var T := S + {x};
    forall h | h in R ensures NextLinked(NextOf(T), h, R[h]) && PrevLinked(PrevOf(T), h, R[h]) {
      assert NextLinked(NextOf(S), h, R[h]) && PrevLinked(PrevOf(S), h, R[h]);
      assert forall i: nat | i <= |R[h]| + 1 ::
        Get(NextOf(T), At(h, R[h], i)) == Get(NextOf(S), At(h, R[h], i))
        && Get(PrevOf(T), At(h, R[h], i)) == Get(PrevOf(S), At(h, R[h], i));
    }
  }

  /** A family of empty lists. */
  lemma EmptyLists(S: set<ListHead>, A: set<ListHead>)
    requires A <= S && forall h | h in A :: h.next == h && h.prev == h
    ensures WellFormed(S, map h | h in A :: [])
  {
    var R: Rings := map h | h in A :: [];
    forall h | h in R ensures NextLinked(NextOf(S), h, R[h]) && PrevLinked(PrevOf(S), h, R[h]) {
    }
  }

  /** list_add_tail. */
  method ListAddTail(entry: ListHead, head: ListHead, ghost S: set<ListHead>, ghost R: Rings)
    requires WellFormed(S, R) && head in R && entry in S && Loose(entry, R)
    modifies entry, head, head.prev
    ensures head.prev == entry && old(head.prev) == At(head, R[head], |R[head]|)
    ensures WellFormed(S, Appended(R, head, entry))
  {
    LastNode(S, R, head);
    AddTailRealises(NextOf(S), PrevOf(S), R, head, entry);
    ListAddLinks(entry, head.prev, head, S);
  }

  /** list_del: the ring closes over the gap; the fields of `entry` itself are left as they were. */
  method ListDel(entry: ListHead, ghost S: set<ListHead>, ghost R: Rings, ghost h: ListHead, ghost k: nat)
    requires WellFormed(S, R) && h in R && k < |R[h]| && R[h][k] == entry
    modifies S
    ensures WellFormed(S, Without(R, h, k)) && Loose(entry, Without(R, h, k))
    ensures entry.next == old(entry.next) && entry.prev == old(entry.prev)
  {
    assert entry.prev == At(h, R[h], k) && entry.next == At(h, R[h], k + 2) by {
      assert NextLinked(NextOf(S), h, R[h]) && PrevLinked(PrevOf(S), h, R[h]);
      assert At(h, R[h], k + 1) == entry;
      assert Get(NextOf(S), At(h, R[h], k + 1)) == At(h, R[h], k + 2);
      assert Get(PrevOf(S), At(h, R[h], k + 1)) == At(h, R[h], k);
    }
    DelRealises(NextOf(S), PrevOf(S), R, h, k);
    ListDelLinks(entry.prev, entry.next, S);
  }

  /** list_del_init. */
  method ListDelInit(entry: ListHead, ghost S: set<ListHead>, ghost R: Rings, ghost h: ListHead, ghost k: nat)
    requires WellFormed(S, R) && h in R && k < |R[h]| && R[h][k] == entry
    modifies S
    ensures WellFormed(S, Without(R, h, k)) && Loose(entry, Without(R, h, k))
    ensures entry.next == entry && entry.prev == entry
  {
    ListDel(entry, S, R, h, k);
    InitListHead(entry, S, Without(R, h, k));
  }

  /** list_move_tail, also when `head` anchors the ring that `list` is already in. */
  method ListMoveTail(list: ListHead, head: ListHead, ghost S: set<ListHead>, ghost R: Rings, ghost h: ListHead,
                      ghost k: nat)
    requires WellFormed(S, R) && h in R && k < |R[h]| && R[h][k] == list && head in R
    modifies S
    ensures WellFormed(S, Appended(Without(R, h, k), head, list))
  {
    ListDel(list, S, R, h, k);
    LastNode(S, Without(R, h, k), head);
    ListAddTail(list, head, S, Without(R, h, k));
  }
}
