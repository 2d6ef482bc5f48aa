/** The LRU cache: slots with a free list and a recency list, and bucket chains, all linked by index. */
module CacheManager {
  import opened Links
  import opened CacheSpec
  import opened Machine
  import Spec = CacheSpec

  /** The two lists threaded through `link` are well formed and share no slot. */
  ghost predicate TwoLists(link: seq<Link>, freeList: Link, busyList: Link, free: seq<int>, busy: seq<int>) {
    && IsList(link, freeList, free)
    && IsList(link, busyList, busy)
    && (forall x :: x in free ==> x !in busy)
  }

  lemma MakeTwoLists(link: seq<Link>, freeList: Link, busyList: Link, free: seq<int>, busy: seq<int>)
    requires IsChain(link, freeList.next, free) && freeList.prev == At(free, |free| - 1)
    requires IsChain(link, busyList.next, busy) && busyList.prev == At(busy, |busy| - 1)
    requires forall x :: x in free ==> x !in busy
    ensures TwoLists(link, freeList, busyList, free, busy)
  {
  }

  lemma OpenTwoLists(link: seq<Link>, freeList: Link, busyList: Link, free: seq<int>, busy: seq<int>)
    requires TwoLists(link, freeList, busyList, free, busy)
    ensures IsChain(link, freeList.next, free) && freeList.prev == At(free, |free| - 1)
    ensures IsChain(link, busyList.next, busy) && busyList.prev == At(busy, |busy| - 1)
    ensures forall x :: x in free ==> x !in busy && 0 <= x < |link|
    ensures forall i :: 0 <= i < |busy| ==> 0 <= busy[i] < |link|
    ensures forall i, j :: 0 <= i < j < |busy| ==> busy[i] != busy[j]
  {
  }

  lemma AppendFree(link: seq<Link>, f: Link, b: Link, free: seq<int>, busy: seq<int>, pos: int)
    requires TwoLists(link, f, b, free, busy) && 0 <= pos < |link| && pos !in free && pos !in busy
    ensures -1 <= f.prev < |link| && f.prev != pos && (f.prev == -1 <==> free == [])
    ensures TwoLists(Append(link, f.prev, pos), Link(if free == [] then pos else f.next, pos), b, free + [pos], busy)
  {
    AppendKeepsChain(link, f.next, free, pos);
    ChainFrame(link, Append(link, f.prev, pos), b.next, busy);
  }

  lemma TwoListsSwap(link: seq<Link>, f: Link, b: Link, free: seq<int>, busy: seq<int>)
    requires TwoLists(link, f, b, free, busy)
    ensures TwoLists(link, b, f, busy, free)
  {
    forall x | x in busy ensures x !in free {}
  }

  lemma DeleteBusy(link: seq<Link>, f: Link, b: Link, free: seq<int>, busy: seq<int>, i: nat)
    requires TwoLists(link, f, b, free, busy) && i < |busy|
    ensures 0 <= busy[i] < |link| && -1 <= link[busy[i]].next < |link| && -1 <= link[busy[i]].prev < |link|
    ensures var l := link[busy[i]];
            TwoLists(Unlink(link, busy[i]), f,
                     Link(if l.prev == -1 then l.next else b.next, if l.next == -1 then l.prev else b.prev),
                     free, RemoveAt(busy, i))
  {
    hide *;
    OpenTwoLists(link, f, b, free, busy);
    UnlinkKeepsChain(link, b.next, busy, i);
    UnlinkFrame(link, b.next, busy, i);
    RemoveAtMembers(busy, i);
    var l, link' := link[busy[i]], Unlink(link, busy[i]);
    ChainFrame(link, link', f.next, free);
    MakeTwoLists(link', f, Link(if l.prev == -1 then l.next else b.next, if l.next == -1 then l.prev else b.prev),
                 free, RemoveAt(busy, i));
  }

  lemma TakeFirst(link: seq<Link>, f: Link, b: Link, free: seq<int>, busy: seq<int>)
    requires TwoLists(link, f, b, free, busy) && free != []
    ensures f.next == free[0] && link[free[0]] == Link(At(free, 1), -1) && 0 <= free[0] < |link| && At(free, 1) < |link|
    ensures TwoLists(Unlink(link, free[0]), Link(At(free, 1), if |free| == 1 then -1 else f.prev), b, free[1..], busy)
  {
    assert link[free[0]] == Link(At(free, 1), At(free, -1));
    TwoListsSwap(link, f, b, free, busy);
    DeleteBusy(link, b, f, busy, free, 0);
    assert RemoveAt(free, 0) == free[1..];
    TwoListsSwap(Unlink(link, free[0]), b, Link(At(free, 1), if |free| == 1 then -1 else f.prev), busy, free[1..]);
  }

  /** The slots xs all belong to bucket b and operator== tells them apart. */
  ghost predicate SlotsOf(size: nat, b: nat, sign: seq<Sign>, xs: seq<int>) {
    && 0 < size == |sign|
    && (forall i :: 0 <= i < |xs| ==> 0 <= xs[i] < size && Bucket(sign[xs[i]], size) == b)
    && (forall i, j :: 0 <= i < j < |xs| ==> !SignEq(sign[xs[i]], sign[xs[j]]))
  }

  ghost predicate ChainOk(size: nat, b: nat, head: int, hashlink: seq<Link>, sign: seq<Sign>, xs: seq<int>) {
    && 0 < size == |hashlink|
    && IsChain(hashlink, head, xs)
    && SlotsOf(size, b, sign, xs)
  }

  ghost predicate Chained(size: nat, pidx: seq<int>, hashlink: seq<Link>, sign: seq<Sign>, chains: seq<seq<int>>) {
    && 0 < size == |pidx| == |hashlink| == |sign| == |chains|
    && forall b :: 0 <= b < size ==> ChainOk(size, b, pidx[b], hashlink, sign, chains[b])
  }

  /** The busy slots are exactly the chained ones. */
  ghost predicate Indexed(size: nat, sign: seq<Sign>, chains: seq<seq<int>>, busy: seq<int>) {
    && 0 < size == |sign| == |chains|
    && forall x :: 0 <= x < size ==> (x in busy <==> x in chains[Bucket(sign[x], size)])
  }

  lemma ChainOkFrame(size: nat, b: nat, head: int, hashlink: seq<Link>, sign: seq<Sign>, xs: seq<int>,
                     hashlink': seq<Link>, sign': seq<Sign>)
    requires ChainOk(size, b, head, hashlink, sign, xs)
    requires |hashlink'| == |sign'| == size
    requires forall x :: x in xs ==> hashlink'[x] == hashlink[x] && sign'[x] == sign[x]
    ensures ChainOk(size, b, head, hashlink', sign', xs)
  {
    assert forall i :: 0 <= i < |xs| ==> xs[i] in xs;
    ChainFrame(hashlink, hashlink', head, xs);
  }

  lemma SlotsOfRemove(size: nat, b: nat, sign: seq<Sign>, xs: seq<int>, j: nat)
    requires SlotsOf(size, b, sign, xs) && j < |xs|
    ensures SlotsOf(size, b, sign, RemoveAt(xs, j))
  {
    var ys := RemoveAt(xs, j);
    assert forall i :: 0 <= i < |ys| ==> ys[i] == xs[if i < j then i else i + 1];
  }

  lemma SlotsOfPrepend(size: nat, b: nat, sign: seq<Sign>, xs: seq<int>, k: int, g: Sign)
    requires SlotsOf(size, b, sign, xs) && 0 <= k < size && k !in xs && Bucket(g, size) == b
    requires forall i :: 0 <= i < |xs| ==> !SignEq(sign[xs[i]], g)
    ensures SlotsOf(size, b, sign[k := g], [k] + xs)
  {
    var ys := [k] + xs;
    assert forall i :: 0 <= i < |xs| ==> xs[i] in xs;
    assert forall i :: 0 < i < |ys| ==> ys[i] == xs[i - 1];
  }

  lemma ChainOkUnlink(size: nat, b: nat, head: int, hashlink: seq<Link>, sign: seq<Sign>, xs: seq<int>, j: nat)
    requires ChainOk(size, b, head, hashlink, sign, xs) && j < |xs|
    ensures var l := hashlink[xs[j]];
            && -1 <= l.next < size && -1 <= l.prev < size
            && ChainOk(size, b, if l.prev == -1 then l.next else head, Unlink(hashlink, xs[j]), sign, RemoveAt(xs, j))
  {
    UnlinkKeepsChain(hashlink, head, xs, j);
    SlotsOfRemove(size, b, sign, xs, j);
  }

  lemma ChainOkPrepend(size: nat, b: nat, head: int, hashlink: seq<Link>, sign: seq<Sign>, xs: seq<int>,
                       k: int, g: Sign)
    requires ChainOk(size, b, head, hashlink, sign, xs) && 0 <= k < size && k !in xs && Bucket(g, size) == b
    requires forall i :: 0 <= i < |xs| ==> !SignEq(sign[xs[i]], g)
    ensures -1 <= head < size && head != k
    ensures ChainOk(size, b, k, Prepend(hashlink, head, k), sign[k := g], [k] + xs)
  {
    PrependKeepsChain(hashlink, head, xs, k);
    SlotsOfPrepend(size, b, sign, xs, k, g);
  }

  /** A slot sits in no chain but that of its own bucket. */
  lemma OnlyInItsBucket(size: nat, b: nat, head: int, hashlink: seq<Link>, sign: seq<Sign>, xs: seq<int>, x: int)
    requires ChainOk(size, b, head, hashlink, sign, xs) && x in xs
    ensures 0 <= x < size && Bucket(sign[x], size) == b
  {
  }

  lemma ChainedUnlink(size: nat, pidx: seq<int>, hashlink: seq<Link>, sign: seq<Sign>, chains: seq<seq<int>>,
                      b: nat, j: nat)
    requires Chained(size, pidx, hashlink, sign, chains) && b < size && j < |chains[b]|
    ensures var k := chains[b][j];
            && 0 <= k < size && -1 <= hashlink[k].next < size && -1 <= hashlink[k].prev < size && hashlink[k].prev != k
            && |chains| == |pidx| == size
            && Chained(size, if hashlink[k].prev == -1 then pidx[b := hashlink[k].next] else pidx,
                       Unlink(hashlink, k), sign, chains[b := RemoveAt(chains[b], j)])
  {
    var xs, k := chains[b], chains[b][j];
    ChainOkUnlink(size, b, pidx[b], hashlink, sign, xs, j);
    UnlinkFrame(hashlink, pidx[b], xs, j);
    var hashlink' := Unlink(hashlink, k);
    forall c | 0 <= c < size && c != b ensures ChainOk(size, c, pidx[c], hashlink', sign, chains[c]) {
      forall x | x in chains[c] ensures hashlink'[x] == hashlink[x] && 0 <= x < size {
        OnlyInItsBucket(size, c, pidx[c], hashlink, sign, chains[c], x);
        if x in xs {
          OnlyInItsBucket(size, b, pidx[b], hashlink, sign, xs, x);
        }
      }
      ChainOkFrame(size, c, pidx[c], hashlink, sign, chains[c], hashlink', sign);
    }
  }

  lemma ChainedPrepend(size: nat, pidx: seq<int>, hashlink: seq<Link>, sign: seq<Sign>, chains: seq<seq<int>>,
                       k: int, g: Sign)
    requires Chained(size, pidx, hashlink, sign, chains) && 0 <= k < size
    requires forall c :: 0 <= c < size ==> k !in chains[c]
    requires var xs := chains[Bucket(g, size)]; forall i :: 0 <= i < |xs| ==> 0 <= xs[i] < size && !SignEq(sign[xs[i]], g)
    ensures var b := Bucket(g, size);
            && -1 <= pidx[b] < size && pidx[b] != k
            && Chained(size, pidx[b := k], Prepend(hashlink, pidx[b], k), sign[k := g], chains[b := [k] + chains[b]])
  {
    var b := Bucket(g, size);
    var xs := chains[b];
    ChainOkPrepend(size, b, pidx[b], hashlink, sign, xs, k, g);
    PrependKeepsChain(hashlink, pidx[b], xs, k);
    var hashlink', sign' := Prepend(hashlink, pidx[b], k), sign[k := g];
    forall c | 0 <= c < size && c != b ensures ChainOk(size, c, pidx[c], hashlink', sign', chains[c]) {
      forall x | x in chains[c] ensures hashlink'[x] == hashlink[x] && sign'[x] == sign[x] && 0 <= x < size {
        OnlyInItsBucket(size, c, pidx[c], hashlink, sign, chains[c], x);
        if x in xs {
          OnlyInItsBucket(size, b, pidx[b], hashlink, sign, xs, x);
        }
      }
      ChainOkFrame(size, c, pidx[c], hashlink, sign, chains[c], hashlink', sign');
    }
  }

  /** Taking one slot out of the recency list and out of its chain keeps the two in step. */
  lemma IndexedRemove(size: nat, sign: seq<Sign>, chains: seq<seq<int>>, busy: seq<int>, i: nat, b: nat, j: nat)
    requires Indexed(size, sign, chains, busy) && i < |busy| && b < size && j < |chains[b]|
    requires busy[i] == chains[b][j] && 0 <= busy[i] < size && Bucket(sign[busy[i]], size) == b
    requires forall p, q :: 0 <= p < q < |busy| ==> busy[p] != busy[q]
    requires forall p, q :: 0 <= p < q < |chains[b]| ==> chains[b][p] != chains[b][q]
    ensures Indexed(size, sign, chains[b := RemoveAt(chains[b], j)], RemoveAt(busy, i))
  {
    RemoveAtMembers(busy, i);
    RemoveAtMembers(chains[b], j);
  }

  /** A slot that is not busy is in no chain. */
  lemma NotChained(size: nat, pidx: seq<int>, hashlink: seq<Link>, sign: seq<Sign>, chains: seq<seq<int>>,
                   busy: seq<int>, k: int)
    requires Chained(size, pidx, hashlink, sign, chains) && Indexed(size, sign, chains, busy)
    requires 0 <= k < size && k !in busy
    ensures forall c :: 0 <= c < size ==> k !in chains[c]
  {
    assert forall c :: 0 <= c < size ==> ChainOk(size, c, pidx[c], hashlink, sign, chains[c]);
  }

  lemma IndexedInsert(size: nat, sign: seq<Sign>, chains: seq<seq<int>>, busy: seq<int>, k: int, g: Sign)
    requires Indexed(size, sign, chains, busy) && 0 <= k < size && k !in busy
    requires forall c :: 0 <= c < size ==> k !in chains[c]
    ensures var b := Bucket(g, size); Indexed(size, sign[k := g], chains[b := [k] + chains[b]], busy + [k])
  {
    var b := Bucket(g, size);
    var sign', chains', busy' := sign[k := g], chains[b := [k] + chains[b]], busy + [k];
    forall x | 0 <= x < size ensures x in busy' <==> x in chains'[Bucket(sign'[x], size)] {
      if x == k {
        assert chains'[b][0] == k && busy'[|busy|] == k;
      }
    }
  }

  /** No two busy slots answer to the same key. */
  lemma BusyUnique(size: nat, pidx: seq<int>, hashlink: seq<Link>, sign: seq<Sign>, chains: seq<seq<int>>,
                   busy: seq<int>, x: int, y: int)
    requires Chained(size, pidx, hashlink, sign, chains) && Indexed(size, sign, chains, busy)
    requires x in busy && y in busy && x != y && 0 <= x < size && 0 <= y < size
    ensures !Matches(sign[x], sign[y], size)
  {
    var b := Bucket(sign[x], size);
    if Bucket(sign[y], size) == b {
      var p :| 0 <= p < |chains[b]| && chains[b][p] == x;
      var q :| 0 <= q < |chains[b]| && chains[b][q] == y;
      assert ChainOk(size, b, pidx[b], hashlink, sign, chains[b]);
    }
  }

  lemma DistinctCount(xs: seq<int>)
    requires forall i, j :: 0 <= i < j < |xs| ==> xs[i] != xs[j]
    ensures |set x | x in xs| == |xs|
  {
    if xs != [] {
      var rest := xs[..|xs| - 1];
      DistinctCount(rest);
      assert (set x | x in xs) == (set x | x in rest) + {xs[|xs| - 1]};
    } else {
      assert (set x | x in xs) == {};
    }
  }

  /** The two lists together hold every slot exactly once, so their lengths add up. */
  lemma SlotCount(n: nat, free: seq<int>, busy: seq<int>)
    requires forall i, j :: 0 <= i < j < |free| ==> free[i] != free[j]
    requires forall i, j :: 0 <= i < j < |busy| ==> busy[i] != busy[j]
    requires forall x :: x in free ==> x !in busy && 0 <= x < n
    requires forall x :: x in busy ==> 0 <= x < n
    requires forall x :: 0 <= x < n ==> x in free || x in busy
    ensures |free| + |busy| == n
  {
    DistinctCount(free);
    DistinctCount(busy);
    DistinctCount(UpTo(n));
    UpToMembers(n);
    assert (set x | x in UpTo(n)) == (set x | x in free) + (set x | x in busy);
    assert (set x | x in free) !! (set x | x in busy);
  }

  function UpTo(s: nat): (r: seq<int>)
    ensures |r| == s && forall i :: 0 <= i < s ==> r[i] == i
  {
    seq(s, i => i)
  }

  lemma UpToMembers(s: nat)
    ensures forall x :: 0 <= x < s ==> x in UpTo(s)
  {
    var xs := UpTo(s);
    forall x | 0 <= x < s ensures x in xs {
      assert xs[x] == x;
    }
  }

  lemma InitialLists(link: seq<Link>, s: nat)
    requires 0 < s == |link|
    requires forall i :: 0 <= i < s ==> link[i] == Link(if i + 1 < s then i + 1 else -1, i - 1)
    ensures TwoLists(link, Link(0, s - 1), Link(-1, -1), UpTo(s), [])
  {
  }

  lemma InitialIndex(size: nat, pidx: seq<int>, hashlink: seq<Link>, sign: seq<Sign>)
    requires 0 < size == |pidx| == |hashlink| == |sign|
    requires forall b :: 0 <= b < size ==> pidx[b] == -1
    ensures Chained(size, pidx, hashlink, sign, seq(size, _ => []))
    ensures Indexed(size, sign, seq(size, _ => []), [])
  {
  }

  /** The constructor's loop: empty buckets, and the links of the free list through all slots. */
  method InitSlots(pidx: array<int>, hashlink: array<Link>, link: array<Link>)
    requires 0 < pidx.Length == hashlink.Length == link.Length && hashlink != link
    modifies pidx, hashlink, link
    ensures forall k :: 0 <= k < pidx.Length ==> pidx[k] == -1 && hashlink[k] == Link(-1, -1)
    ensures forall k :: 0 <= k < link.Length ==> link[k] == Link(if k + 1 < link.Length then k + 1 else -1, k - 1)
  {
    var s := pidx.Length;
    for i := 0 to s
      invariant forall k :: 0 <= k < i ==> pidx[k] == -1 && hashlink[k] == Link(-1, -1)
      invariant forall k :: 0 <= k < i ==> link[k] == Link(k + 1, k - 1)
    {
      pidx[i] := -1;
      hashlink[i] := Link(-1, -1);
      link[i] := Link(i + 1, i - 1);
    }
    link[0] := link[0].(prev := -1);
    link[s - 1] := link[s - 1].(next := -1);
  }

  /** The entries stored in the given slots, in the order of the slots. */
  function EntriesOf<T>(slots: seq<int>, signs: seq<Sign>, values: seq<T>): (es: seq<Entry<T>>)
    requires |signs| == |values| && forall i :: 0 <= i < |slots| ==> 0 <= slots[i] < |signs|
    ensures |es| == |slots|
    ensures forall i :: 0 <= i < |slots| ==> es[i] == Entry(signs[slots[i]], values[slots[i]])
  {
    seq(|slots|, i requires 0 <= i < |slots| => Entry(signs[slots[i]], values[slots[i]]))
  }

  lemma EntriesSuffix<T>(slots: seq<int>, signs: seq<Sign>, values: seq<T>, n: nat)
    requires |signs| == |values| && forall i :: 0 <= i < |slots| ==> 0 <= slots[i] < |signs|
    requires n <= |slots|
    ensures EntriesOf(slots[n..], signs, values) == EntriesOf(slots, signs, values)[n..]
  {
  }

  lemma EntriesAdd<T>(slots: seq<int>, signs: seq<Sign>, values: seq<T>, pos: int, g: Sign, v: T)
    requires |signs| == |values| && forall i :: 0 <= i < |slots| ==> 0 <= slots[i] < |signs|
    requires 0 <= pos < |signs| && pos !in slots
    ensures forall i :: 0 <= i <= |slots| ==> 0 <= (slots + [pos])[i] < |signs|
    ensures EntriesOf(slots + [pos], signs[pos := g], values[pos := v]) == EntriesOf(slots, signs, values) + [Entry(g, v)]
  {
    assert forall i :: 0 <= i < |slots| ==> slots[i] in slots;
  }

  lemma EntriesUpdate<T>(slots: seq<int>, signs: seq<Sign>, values: seq<T>, i: nat, v: T)
    requires |signs| == |values| && forall k :: 0 <= k < |slots| ==> 0 <= slots[k] < |signs|
    requires i < |slots| && forall j, k :: 0 <= j < k < |slots| ==> slots[j] != slots[k]
    ensures var es := EntriesOf(slots, signs, values);
            EntriesOf(slots, signs, values[slots[i] := v]) == es[i := Entry(es[i].sign, v)]
  {
  }

  lemma EntriesRemove<T>(slots: seq<int>, signs: seq<Sign>, values: seq<T>, i: nat)
    requires |signs| == |values| && forall k :: 0 <= k < |slots| ==> 0 <= slots[k] < |signs|
    requires i < |slots|
    ensures forall k :: 0 <= k < |slots| - 1 ==> 0 <= RemoveAt(slots, i)[k] < |signs|
    ensures EntriesOf(RemoveAt(slots, i), signs, values) == Without(EntriesOf(slots, signs, values), i)
  {
  }

  lemma EntriesMove<T>(slots: seq<int>, signs: seq<Sign>, values: seq<T>, i: nat)
    requires |signs| == |values| && forall k :: 0 <= k < |slots| ==> 0 <= slots[k] < |signs|
    requires i < |slots|
    ensures forall k :: 0 <= k < |slots| ==> 0 <= (RemoveAt(slots, i) + [slots[i]])[k] < |signs|
    ensures var es := EntriesOf(slots, signs, values);
            EntriesOf(RemoveAt(slots, i) + [slots[i]], signs, values) == Without(es, i) + [es[i]]
  {
    EntriesRemove(slots, signs, values, i);
  }

  class CacheManager<T(0)> {
    const size: nat
    const value: array<T>
    const sign: array<Sign>
    const hashlink: array<Link>
    const link: array<Link>
    const pidx: array<int>
    var freeList: Link
    var busyList: Link
    var freeListSize: int
    // The slots of the two lists in order, and of every bucket's chain.
    ghost var free: seq<int>
    ghost var busy: seq<int>
    ghost var chains: seq<seq<int>>

    ghost predicate Shape() {
      && 0 < size
      && value.Length == sign.Length == hashlink.Length == link.Length == pidx.Length == size
      && hashlink != link
      && (value as object) !in {sign as object, hashlink as object, link as object, pidx as object}
    }

    ghost predicate Lists()
      reads this, link
    {
      && Shape()
      && TwoLists(link[..], freeList, busyList, free, busy)
      && freeListSize == |free|
    }

    ghost predicate Hashed()
      reads this, hashlink, sign, pidx
    {
      Shape() && Chained(size, pidx[..], hashlink[..], sign[..], chains)
    }

    ghost predicate Valid()
      reads this, link, hashlink, sign, pidx
    {
      && Lists()
      && Hashed()
      && (forall x :: 0 <= x < size ==> x in free || x in busy)
      && Indexed(size, sign[..], chains, busy)
    }

    lemma MakeHashed(hash: seq<Link>, heads: seq<int>, slots: seq<seq<int>>)
      requires Shape() && Chained(size, heads, hash, sign[..], slots)
      requires hash == hashlink[..] && heads == pidx[..] && slots == chains
      ensures Hashed()
    {
    }

    lemma MakeValid()
      requires Shape() && TwoLists(link[..], freeList, busyList, free, busy) && freeListSize == |free|
      requires Chained(size, pidx[..], hashlink[..], sign[..], chains)
      requires forall x :: 0 <= x < size ==> x in free || x in busy
      requires Indexed(size, sign[..], chains, busy)
      ensures Valid()
    {
    }

    /** The abstract value: the busy list, oldest entry first. */
    ghost function Contents(): (es: seq<Entry<T>>)
      requires Shape() && forall i :: 0 <= i < |busy| ==> 0 <= busy[i] < size
      reads this, sign, value
    {
      EntriesOf(busy, sign[..], value[..])
    }

    constructor (s: nat)
      requires 0 < s < 0x8000_0000
      ensures Valid() && size == s && Contents() == []
      ensures fresh(value) && fresh(sign) && fresh(hashlink) && fresh(link) && fresh(pidx)
    {
      size := s;
      value := new T[s];
      sign := new Sign[s];
      hashlink := new Link[s];
      link := new Link[s];
      pidx := new int[s];
      freeListSize := s;
      freeList := Link(0, s - 1);
      busyList := Link(-1, -1);
      new;
      InitSlots(pidx, hashlink, link);
      free, busy, chains := UpTo(s), [], seq(s, _ => []);
      InitialLists(link[..], s);
      UpToMembers(s);
      InitialIndex(s, pidx[..], hashlink[..], sign[..]);
      MakeValid();
    }

    method GetFromFreeList() returns (ret: int)
      requires Lists() && free != []
      modifies this`freeList, this`freeListSize, this`free, link
      ensures Lists()
      ensures ret == old(free[0]) && free == old(free[1..])
    {
      ret := freeList.next;
      ghost var link0 := link[..];
      TakeFirst(link0, freeList, busyList, free, busy);
      if link[ret].next == -1 {
        freeList := freeList.(prev := -1);
      } else {
        link[link[ret].next] := link[link[ret].next].(prev := -1);
      }
      freeList := freeList.(next := link[ret].next);
      freeListSize := freeListSize - 1;
      free := free[1..];
      assert link[..] == Unlink(link0, ret);
    }

    method InsertIntoFreeList(pos: int)
      requires Lists() && 0 <= pos < size && pos !in free && pos !in busy
      modifies this`freeList, this`freeListSize, this`free, link
      ensures Lists() && free == old(free) + [pos]
    {
      var k := freeList.prev;
      ghost var link0 := link[..];
      AppendFree(link0, freeList, busyList, free, busy, pos);
      if k == -1 {
        freeList := freeList.(prev := pos);
        freeList := freeList.(next := pos);
        link[pos] := Link(-1, -1);
      } else {
        freeList := freeList.(prev := pos);
        link[k] := link[k].(next := pos);
        link[pos] := Link(-1, k);
      }
      freeListSize := freeListSize + 1;
      free := free + [pos];
      assert link[..] == Append(link0, k, pos);
    }

    method InsertIntoBusyList(pos: int)
      requires Lists() && 0 <= pos < size && pos !in free && pos !in busy
      modifies this`busyList, this`busy, link
      ensures Lists() && busy == old(busy) + [pos]
    {
      var k := busyList.prev;
      ghost var link0 := link[..];
      TwoListsSwap(link0, freeList, busyList, free, busy);
      AppendFree(link0, busyList, freeList, busy, free, pos);
      if k == -1 {
        busyList := busyList.(prev := pos);
        busyList := busyList.(next := pos);
        link[pos] := Link(-1, -1);
      } else {
        busyList := busyList.(prev := pos);
        link[k] := link[k].(next := pos);
        link[pos] := Link(-1, k);
      }
      busy := busy + [pos];
      assert link[..] == Append(link0, k, pos);
      TwoListsSwap(link[..], busyList, freeList, busy, free);
    }

    method DelFromBusyList(pos: int, ghost i: nat)
      requires Lists() && i < |busy| && busy[i] == pos
      modifies this`busyList, this`busy, link
      ensures Lists() && busy == RemoveAt(old(busy), i)
    {
      ghost var link0 := link[..];
      DeleteBusy(link0, freeList, busyList, free, busy, i);
      if link[pos].prev == -1 {
        busyList := busyList.(next := link[pos].next);
      } else {
        link[link[pos].prev] := link[link[pos].prev].(next := link[pos].next);
      }
      if link[pos].next == -1 {
        busyList := busyList.(prev := link[pos].prev);
      } else {
        link[link[pos].next] := link[link[pos].next].(prev := link[pos].prev);
      }
      busy := RemoveAt(busy, i);
      assert link[..] == Unlink(link0, pos);
    }

    /** The walk along one bucket's chain that insert, remove and find share. */
    method FindSlot(g: Sign, index: int) returns (vi: int, ghost j: nat)
      requires Hashed() && index == Bucket(g, size)
      ensures vi == -1 ==> forall i :: 0 <= i < |chains[index]| ==>
        0 <= chains[index][i] < size && !SignEq(sign[chains[index][i]], g)
      ensures vi != -1 ==> j < |chains[index]| && 0 <= vi == chains[index][j] < size && SignEq(sign[vi], g)
    {
      ghost var xs := chains[index];
      assert ChainOk(size, index, pidx[..][index], hashlink[..], sign[..], xs);
      vi, j := pidx[index], 0;
      while vi != -1
        invariant j <= |xs| && vi == At(xs, j)
        invariant forall i :: 0 <= i < j ==> !SignEq(sign[xs[i]], g)
        decreases |xs| - j
      {
        if SignEq(sign[vi], g) {
          return;
        }
        assert hashlink[..][xs[j]] == Link(At(xs, j + 1), At(xs, j - 1));
        vi, j := hashlink[vi].next, j + 1;
      }
    }

    /** The block of reclaim and remove that cuts slot k out of its bucket's chain. */
    method UnlinkHash(k: int, index: int, ghost j: nat)
      requires Hashed() && 0 <= index < size && j < |chains[index]| && k == chains[index][j]
      modifies this`chains, hashlink, pidx
      ensures Hashed() && chains == old(chains)[index := RemoveAt(old(chains[index]), j)]
    {
      hide Chained;
      ghost var hash0, pidx0 := hashlink[..], pidx[..];
      ChainedUnlink(size, pidx0, hash0, sign[..], chains, index, j);
      ghost var l, chains0 := hash0[k], chains;
      if hashlink[k].prev == -1 {
        pidx[index] := hashlink[k].next;
      } else {
        hashlink[hashlink[k].prev] := hashlink[hashlink[k].prev].(next := hashlink[k].next);
      }
      assert hashlink[..] == if l.prev == -1 then hash0 else hash0[l.prev := hash0[l.prev].(next := l.next)];
      assert l.prev != k && hashlink[k] == l;
      if hashlink[k].next != -1 {
        hashlink[hashlink[k].next] := hashlink[hashlink[k].next].(prev := hashlink[k].prev);
      }
      chains := chains[index := RemoveAt(chains[index], j)];
      MakeHashed(Unlink(hash0, k), if l.prev == -1 then pidx0[index := l.next] else pidx0,
                 chains0[index := RemoveAt(chains0[index], j)]);
    }

    /** In a valid cache, the abstract value has unique keys and one entry for each slot that is not free. */
    lemma ContentsWellFormed()
      requires Valid()
      ensures WellFormed(Contents(), size)
      ensures |Contents()| == |busy| && |free| + |busy| == size
    {
      SlotCount(size, free, busy);
      var es := Contents();
      forall i, j | 0 <= i < j < |es| ensures !Matches(es[i].sign, es[j].sign, size) {
        assert busy[i] in busy && busy[j] in busy;
        BusyUnique(size, pidx[..], hashlink[..], sign[..], chains, busy, busy[i], busy[j]);
      }
    }

    /** A chain walk that hits slot vi has hit the entry the abstract search finds. */
    lemma HitIsIndex(g: Sign, vi: int, j: nat) returns (i: nat)
      requires Valid()
      requires var b := Bucket(g, size); j < |chains[b]| && vi == chains[b][j] && 0 <= vi < size && SignEq(sign[vi], g)
      ensures Bucket(sign[vi], size) == Bucket(g, size)
      ensures i < |busy| && busy[i] == vi && IndexOf(Contents(), g, size) == i
    {
      var b := Bucket(g, size);
      assert ChainOk(size, b, pidx[..][b], hashlink[..], sign[..], chains[b]);
      assert vi in chains[b] && vi in busy;
      i :| 0 <= i < |busy| && busy[i] == vi;
      ContentsWellFormed();
      IndexIs(Contents(), g, i, size);
    }

    lemma MissIsNone(g: Sign)
      requires Valid()
      requires forall i :: 0 <= i < |chains[Bucket(g, size)]| ==>
        0 <= chains[Bucket(g, size)][i] < size && !SignEq(sign[chains[Bucket(g, size)][i]], g)
      ensures IndexOf(Contents(), g, size) == |busy|
    {
      var es, b := Contents(), Bucket(g, size);
      forall i | 0 <= i < |es| ensures !Matches(es[i].sign, g, size) {
        if Bucket(es[i].sign, size) == b {
          assert busy[i] in busy && busy[i] in chains[b];
          var p :| 0 <= p < |chains[b]| && chains[b][p] == busy[i];
        }
      }
      IndexNone(es, g, size);
    }

    /** Every busy slot is in its bucket's chain. */
    lemma ChainPosition(k: int) returns (j: nat)
      requires Valid() && k in busy
      ensures 0 <= k < size && j < |chains[Bucket(sign[k], size)]| && chains[Bucket(sign[k], size)][j] == k
    {
      var i :| 0 <= i < |busy| && busy[i] == k;
      var xs := chains[Bucket(sign[k], size)];
      assert k in xs;
      j :| 0 <= j < |xs| && xs[j] == k;
    }

    lemma ChainsAreDistinct(b: nat)
      requires Hashed() && b < size
      ensures forall p, q :: 0 <= p < q < |chains[b]| ==> chains[b][p] != chains[b][q]
    {
      assert ChainOk(size, b, pidx[..][b], hashlink[..], sign[..], chains[b]);
    }

    /** One round of reclaim: the oldest slot leaves the recency list and its chain and becomes free. */
    method ReclaimOne()
      requires Valid() && busy != []
      modifies this`freeList, this`busyList, this`freeListSize, this`free, this`busy, this`chains, link, hashlink, pidx
      ensures Valid() && busy == old(busy[1..])
    {
      ghost var j := ChainPosition(busy[0]);
      var k := busyList.next;
      ghost var index0 := Bucket(sign[k], size);
      ChainsAreDistinct(index0);
      hide Chained;
      hide Indexed;
      DelFromBusyList(k, 0);
      var index := Bucket(sign[k], size);
      IndexedRemove(size, sign[..], chains, old(busy), 0, index, j);
      UnlinkHash(k, index, j);
      RemoveAtMembers(old(busy), 0);
      InsertIntoFreeList(k);
      MakeValid();
    }

    method Reclaim()
      requires Valid() && size / 10 <= |busy|
      modifies this`freeList, this`busyList, this`freeListSize, this`free, this`busy, this`chains, link, hashlink, pidx
      ensures Valid() && busy == old(busy[size / 10..])
    {
      var count := size / 10;
      for i := 0 to count
        invariant Valid() && busy == old(busy[i..])
      {
        ReclaimOne();
      }
    }

    /** Slot pos, with signature g, becomes the head of its bucket's chain. */
    method LinkHash(pos: int, g: Sign, index: int)
      requires Hashed() && 0 <= pos < size && index == Bucket(g, size)
      requires forall c :: 0 <= c < size ==> pos !in chains[c]
      requires forall i :: 0 <= i < |chains[index]| ==>
        0 <= chains[index][i] < size && !SignEq(sign[chains[index][i]], g)
      modifies this`chains, hashlink, pidx, sign
      ensures Hashed() && chains == old(chains[index := [pos] + chains[index]])
      ensures sign[..] == old(sign[..])[pos := g]
    {
      ghost var hash0, pidx0 := hashlink[..], pidx[..];
      ChainedPrepend(size, pidx0, hash0, sign[..], chains, pos, g);
      sign[pos] := g;
      hashlink[pos] := Link(pidx[index], -1);
      if pidx[index] != -1 {
        hashlink[pidx[index]] := hashlink[pidx[index]].(prev := pos);
      }
      assert hashlink[..] == Prepend(hash0, pidx0[index], pos);
      pidx[index] := pos;
      chains := chains[index := [pos] + chains[index]];
      assert pidx[..] == pidx0[index := pos];
    }

    /** insert's second half: a free slot becomes the newest entry. */
    method AddEntry(g: Sign, v: T, index: int) returns (pos: int)
      requires Valid() && free != [] && index == Bucket(g, size)
      requires forall i :: 0 <= i < |chains[index]| ==>
        0 <= chains[index][i] < size && !SignEq(sign[chains[index][i]], g)
      modifies this`freeList, this`busyList, this`freeListSize, this`free, this`busy, this`chains
      modifies link, hashlink, pidx, sign, value
      ensures Valid() && pos == old(free[0]) && busy == old(busy) + [pos]
      ensures 0 <= pos < size && pos !in old(busy)
      ensures sign[..] == old(sign[..])[pos := g] && value[..] == old(value[..])[pos := v]
    {
      NotChained(size, pidx[..], hashlink[..], sign[..], chains, busy, free[0]);
      IndexedInsert(size, sign[..], chains, busy, free[0], g);
      pos := GetFromFreeList();
      value[pos] := v;
      LinkHash(pos, g, index);
      InsertIntoBusyList(pos);
      assert busy[|busy| - 1] == pos;
      MakeValid();
    }

    /** remove's work on a slot that was hit. */
    method Release(vi: int, index: int, ghost i: nat, ghost j: nat)
      requires Valid() && i < |busy| && busy[i] == vi && 0 <= vi < size && index == Bucket(sign[vi], size)
      requires j < |chains[index]| && chains[index][j] == vi
      modifies this`freeList, this`busyList, this`freeListSize, this`free, this`busy, this`chains, link, hashlink, pidx
      ensures Valid() && busy == RemoveAt(old(busy), i)
    {
      ghost var busy0 := busy;
      ChainsAreDistinct(index);
      hide Chained;
      hide Indexed;
      hide Bucket;
      IndexedRemove(size, sign[..], chains, busy0, i, index, j);
      DelFromBusyList(vi, i);
      RemoveAtMembers(busy0, i);
      InsertIntoFreeList(vi);
      UnlinkHash(vi, index, j);
      MakeValid();
    }

    /** find's work on a slot that was hit: it becomes the newest. */
    method Touch(vi: int, ghost i: nat)
      requires Valid() && i < |busy| && busy[i] == vi
      modifies this`busyList, this`busy, link
      ensures Valid() && busy == RemoveAt(old(busy), i) + [vi]
    {
      ghost var busy0 := busy;
      DelFromBusyList(vi, i);
      RemoveAtMembers(busy0, i);
      InsertIntoBusyList(vi);
      assert busy[|busy| - 1] == vi;
      assert forall x :: x in busy <==> x in busy0;
      MakeValid();
    }

    /** Overwrites the value of the key if it is present, and otherwise adds it as the newest entry. */
    method Store(g: Sign, v: T)
      requires Valid() && (Has(Contents(), g, size) || |Contents()| < size)
      modifies this`freeList, this`busyList, this`freeListSize, this`free, this`busy, this`chains
      modifies link, hashlink, pidx, sign, value
      ensures Valid() && Contents() == Spec.Store(old(Contents()), g, v, size)
    {
      hide Chained;
      hide Indexed;
      hide Matches;
      var index := Bucket(g, size);
      ghost var slots, signs, values := busy, sign[..], value[..];
      ghost var j;
      var vi;
      vi, j := FindSlot(g, index);
      if vi != -1 {
        ghost var i := HitIsIndex(g, vi, j);
        EntriesUpdate(slots, signs, values, i, v);
        value[vi] := v;
        assert value[..] == values[vi := v];
      } else {
        MissIsNone(g);
        ContentsWellFormed();
        var pos := AddEntry(g, v, index);
        EntriesAdd(slots, signs, values, pos, g, v);
      }
    }

    method Insert(g: Sign, v: T)
      requires Valid() && InsertDefined(Contents(), g, size)
      modifies this`freeList, this`busyList, this`freeListSize, this`free, this`busy, this`chains
      modifies link, hashlink, pidx, sign, value
      ensures Valid() && Contents() == Spec.Insert(old(Contents()), g, v, size)
    {
      hide Chained;
      hide Indexed;
      hide Matches;
      hide IndexOf;
      hide Spec.Store;
      ContentsWellFormed();
      if freeListSize == 0 {
        EntriesSuffix(busy, sign[..], value[..], size / 10);
        Reclaim();
      }
      assert Contents() == BeforeInsert(old(Contents()), size);
      Store(g, v);
    }

    method Remove(g: Sign)
      requires Valid()
      modifies this`freeList, this`busyList, this`freeListSize, this`free, this`busy, this`chains, link, hashlink, pidx
      ensures Valid() && Contents() == Spec.Remove(old(Contents()), g, size)
    {
      hide Chained;
      hide Indexed;
      hide Matches;
      hide Without;
      var index := Bucket(g, size);
      ghost var j;
      var vi;
      vi, j := FindSlot(g, index);
      if vi != -1 {
        ghost var i := HitIsIndex(g, vi, j);
        EntriesRemove(busy, sign[..], value[..], i);
        Release(vi, index, i, j);
      } else {
        MissIsNone(g);
      }
    }

    method Find(g: Sign) returns (ret: bool, v: Option<T>)
      requires Valid()
      modifies this`busyList, this`busy, link
      ensures Valid() && Contents() == Spec.Find(old(Contents()), g, size)
      ensures v == Found(old(Contents()), g, size) && ret == v.Some?
    {
      hide Chained;
      hide Indexed;
      hide Matches;
      hide Without;
      ret, v := false, None;
      var index := Bucket(g, size);
      ghost var j;
      var vi;
      vi, j := FindSlot(g, index);
      if vi != -1 {
        ghost var i := HitIsIndex(g, vi, j);
        EntriesMove(busy, sign[..], value[..], i);
        v := Some(value[vi]);
        Touch(vi, i);
        ret := true;
      } else {
        MissIsNone(g);
      }
    }
  }
}
