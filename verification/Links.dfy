/** Doubly linked lists threaded through an array by index, with -1 as the null link. */
module Links {

  datatype Link = Link(next: int, prev: int)

  /** Element i of xs, or the null link when i falls outside it. */
  function At(xs: seq<int>, i: int): int {
    if 0 <= i < |xs| then xs[i] else -1
  }

  function RemoveAt<T>(xs: seq<T>, i: nat): seq<T>
    requires i < |xs|
  {
    xs[..i] + xs[i + 1..]
  }

  /** xs is the chain that starts at head: distinct slots, each linked to its two neighbours. */
  ghost predicate IsChain(link: seq<Link>, head: int, xs: seq<int>) {
    && (forall i :: 0 <= i < |xs| ==> 0 <= xs[i] < |link|)
    && (forall i, j :: 0 <= i < j < |xs| ==> xs[i] != xs[j])
    && head == At(xs, 0)
    && (forall i {:trigger link[xs[i]]} :: 0 <= i < |xs| ==> link[xs[i]] == Link(At(xs, i + 1), At(xs, i - 1)))
  }

  /** A chain whose two ends are recorded in a list header. */
  ghost predicate IsList(link: seq<Link>, header: Link, xs: seq<int>) {
    && IsChain(link, header.next, xs)
    && header.prev == At(xs, |xs| - 1)
  }

  /** The link array after slot pos has been cut out of the chain it is in. */
  function Unlink(link: seq<Link>, pos: int): (r: seq<Link>)
    requires 0 <= pos < |link|
    requires -1 <= link[pos].prev < |link| && -1 <= link[pos].next < |link|
    ensures |r| == |link|
    ensures forall k :: 0 <= k < |link| ==>
      r[k] == Link(if k == link[pos].prev then link[pos].next else link[k].next,
                   if k == link[pos].next then link[pos].prev else link[k].prev)
  {
    var l := link[pos];
    var bridged := if l.prev == -1 then link else link[l.prev := link[l.prev].(next := l.next)];
    if l.next == -1 then bridged else bridged[l.next := bridged[l.next].(prev := l.prev)]
  }

  /** The link array after pos has been put behind the slot `last`. */
  function Append(link: seq<Link>, last: int, pos: int): (r: seq<Link>)
    requires 0 <= pos < |link| && -1 <= last < |link| && last != pos
    ensures |r| == |link| && r[pos] == Link(-1, last)
    ensures forall k :: 0 <= k < |link| && k != pos ==>
      r[k] == Link(if k == last then pos else link[k].next, link[k].prev)
  {
    var pred := if last == -1 then link else link[last := link[last].(next := pos)];
    pred[pos := Link(-1, last)]
  }

  /** The link array after pos has been put in front of the slot `first`. */
  function Prepend(link: seq<Link>, first: int, pos: int): (r: seq<Link>)
    requires 0 <= pos < |link| && -1 <= first < |link| && first != pos
    ensures |r| == |link| && r[pos] == Link(first, -1)
    ensures forall k :: 0 <= k < |link| && k != pos ==>
      r[k] == Link(link[k].next, if k == first then pos else link[k].prev)
  {
    var own := link[pos := Link(first, -1)];
    if first == -1 then own else own[first := own[first].(prev := pos)]
  }

  lemma ChainFrame(link: seq<Link>, link': seq<Link>, head: int, xs: seq<int>)
    requires IsChain(link, head, xs)
    requires |link'| == |link| && forall x :: x in xs ==> link'[x] == link[x]
    ensures IsChain(link', head, xs)
  {
  }

  /** In a chain, two positions hold the same slot only when they are the same position. */
  lemma SlotPositions(xs: seq<int>, i: int, j: int)
    requires forall a, b :: 0 <= a < b < |xs| ==> xs[a] != xs[b]
    requires 0 <= i < |xs| && (forall k :: 0 <= k < |xs| ==> xs[k] >= 0)
    ensures At(xs, j) == xs[i] <==> i == j
  {
  }

  /** What RemoveAt does to positions. */
  lemma RemoveAtPositions(xs: seq<int>, i: nat, j: int)
    requires i < |xs|
    ensures At(RemoveAt(xs, i), j) == At(xs, if j < i then j else j + 1)
  {
  }

  lemma UnlinkedNeighbours(link: seq<Link>, head: int, xs: seq<int>, i: nat, j: nat)
    requires IsChain(link, head, xs) && i < |xs| && j < |xs| && j != i
    requires -1 <= link[xs[i]].prev < |link| && -1 <= link[xs[i]].next < |link|
    ensures Unlink(link, xs[i])[xs[j]] ==
      Link(if j == i - 1 then At(xs, i + 1) else At(xs, j + 1), if j == i + 1 then At(xs, i - 1) else At(xs, j - 1))
  {
    assert link[xs[i]] == Link(At(xs, i + 1), At(xs, i - 1));
    assert link[xs[j]] == Link(At(xs, j + 1), At(xs, j - 1));
    SlotPositions(xs, j, i - 1);
    SlotPositions(xs, j, i + 1);
  }

  lemma UnlinkedLink(link: seq<Link>, head: int, xs: seq<int>, i: nat, j: nat)
    requires IsChain(link, head, xs) && i < |xs| && j < |xs| - 1
    requires -1 <= link[xs[i]].prev < |link| && -1 <= link[xs[i]].next < |link|
    ensures 0 <= RemoveAt(xs, i)[j] < |link|
    ensures Unlink(link, xs[i])[RemoveAt(xs, i)[j]] == Link(At(RemoveAt(xs, i), j + 1), At(RemoveAt(xs, i), j - 1))
  {
    var j0 := if j < i then j else j + 1;
    UnlinkedNeighbours(link, head, xs, i, j0);
    RemoveAtPositions(xs, i, j);
    RemoveAtPositions(xs, i, j + 1);
    RemoveAtPositions(xs, i, j - 1);
    assert RemoveAt(xs, i)[j] == xs[j0];
  }

  lemma UnlinkKeepsLinks(link: seq<Link>, head: int, xs: seq<int>, i: nat)
    requires IsChain(link, head, xs) && i < |xs|
    requires -1 <= link[xs[i]].prev < |link| && -1 <= link[xs[i]].next < |link|
    ensures forall j :: 0 <= j < |xs| - 1 ==>
      Unlink(link, xs[i])[RemoveAt(xs, i)[j]] == Link(At(RemoveAt(xs, i), j + 1), At(RemoveAt(xs, i), j - 1))
  {
    var ys, link' := RemoveAt(xs, i), Unlink(link, xs[i]);
    forall j | 0 <= j < |xs| - 1
      ensures 0 <= ys[j] < |link| && link'[ys[j]] == Link(At(ys, j + 1), At(ys, j - 1))
    {
      UnlinkedLink(link, head, xs, i, j);
    }
  }

  lemma RemoveAtShape(link: seq<Link>, xs: seq<int>, i: nat)
    requires i < |xs|
    requires forall k :: 0 <= k < |xs| ==> 0 <= xs[k] < |link|
    requires forall a, b :: 0 <= a < b < |xs| ==> xs[a] != xs[b]
    ensures forall k :: 0 <= k < |xs| - 1 ==> 0 <= RemoveAt(xs, i)[k] < |link|
    ensures forall a, b :: 0 <= a < b < |xs| - 1 ==> RemoveAt(xs, i)[a] != RemoveAt(xs, i)[b]
  {
    var ys := RemoveAt(xs, i);
    forall a, b | 0 <= a < b < |xs| - 1 ensures ys[a] != ys[b] {
      assert ys[a] == xs[if a < i then a else a + 1] && ys[b] == xs[if b < i then b else b + 1];
    }
  }

  lemma UnlinkFrame(link: seq<Link>, head: int, xs: seq<int>, i: nat)
    requires IsChain(link, head, xs) && i < |xs|
    ensures -1 <= link[xs[i]].prev < |link| && -1 <= link[xs[i]].next < |link|
    ensures forall k :: 0 <= k < |link| && (k !in xs || k == xs[i]) ==> Unlink(link, xs[i])[k] == link[k]
  {
    assert link[xs[i]] == Link(At(xs, i + 1), At(xs, i - 1));
    forall k | 0 <= k < |link| && (k !in xs || k == xs[i])
      ensures k != At(xs, i + 1) && k != At(xs, i - 1)
    {
      if k == xs[i] {
        SlotPositions(xs, i, i + 1);
        SlotPositions(xs, i, i - 1);
      }
    }
  }

  lemma UnlinkEnds(link: seq<Link>, head: int, xs: seq<int>, i: nat)
    requires IsChain(link, head, xs) && i < |xs|
    ensures |RemoveAt(xs, i)| == |xs| - 1
    ensures At(RemoveAt(xs, i), 0) == (if link[xs[i]].prev == -1 then link[xs[i]].next else head)
    ensures At(RemoveAt(xs, i), |xs| - 2) == (if link[xs[i]].next == -1 then link[xs[i]].prev else At(xs, |xs| - 1))
  {
    assert link[xs[i]] == Link(At(xs, i + 1), At(xs, i - 1));
    RemoveAtPositions(xs, i, 0);
    RemoveAtPositions(xs, i, |xs| - 2);
  }

  lemma MakeChain(link: seq<Link>, head: int, xs: seq<int>)
    requires forall i :: 0 <= i < |xs| ==> 0 <= xs[i] < |link|
    requires forall i, j :: 0 <= i < j < |xs| ==> xs[i] != xs[j]
    requires head == At(xs, 0)
    requires forall i :: 0 <= i < |xs| ==> link[xs[i]] == Link(At(xs, i + 1), At(xs, i - 1))
    ensures IsChain(link, head, xs)
  {
  }

  lemma UnlinkKeepsChain(link: seq<Link>, head: int, xs: seq<int>, i: nat)
    requires IsChain(link, head, xs) && i < |xs|
    ensures -1 <= link[xs[i]].prev < |link| && -1 <= link[xs[i]].next < |link|
    ensures IsChain(Unlink(link, xs[i]), if link[xs[i]].prev == -1 then link[xs[i]].next else head, RemoveAt(xs, i))
    ensures |RemoveAt(xs, i)| == |xs| - 1
    ensures At(RemoveAt(xs, i), |xs| - 2) == (if link[xs[i]].next == -1 then link[xs[i]].prev else At(xs, |xs| - 1))
  {
    UnlinkFrame(link, head, xs, i);
    UnlinkEnds(link, head, xs, i);
    UnlinkKeepsLinks(link, head, xs, i);
    RemoveAtShape(link, xs, i);
    hide *;
    MakeChain(Unlink(link, xs[i]), if link[xs[i]].prev == -1 then link[xs[i]].next else head, RemoveAt(xs, i));
  }

  lemma AppendLinks(link: seq<Link>, head: int, xs: seq<int>, pos: int, j: nat)
    requires IsChain(link, head, xs) && 0 <= pos < |link| && pos !in xs && j <= |xs|
    ensures -1 <= At(xs, |xs| - 1) < |link| && At(xs, |xs| - 1) != pos
    ensures Append(link, At(xs, |xs| - 1), pos)[(xs + [pos])[j]] == Link(At(xs + [pos], j + 1), At(xs + [pos], j - 1))
  {
    if j < |xs| {
      assert xs[j] in xs;
      assert link[xs[j]] == Link(At(xs, j + 1), At(xs, j - 1));
      SlotPositions(xs, j, |xs| - 1);
    }
  }

  lemma AppendKeepsChain(link: seq<Link>, head: int, xs: seq<int>, pos: int)
    requires IsChain(link, head, xs) && 0 <= pos < |link| && pos !in xs
    ensures -1 <= At(xs, |xs| - 1) < |link| && At(xs, |xs| - 1) != pos
    ensures IsChain(Append(link, At(xs, |xs| - 1), pos), if xs == [] then pos else head, xs + [pos])
    ensures forall k :: 0 <= k < |link| && k !in xs && k != pos ==> Append(link, At(xs, |xs| - 1), pos)[k] == link[k]
  {
    forall j | 0 <= j <= |xs|
      ensures Append(link, At(xs, |xs| - 1), pos)[(xs + [pos])[j]] == Link(At(xs + [pos], j + 1), At(xs + [pos], j - 1))
    {
      AppendLinks(link, head, xs, pos, j);
    }
  }

  lemma PrependLinks(link: seq<Link>, head: int, xs: seq<int>, pos: int, j: nat)
    requires IsChain(link, head, xs) && 0 <= pos < |link| && pos !in xs && j <= |xs|
    ensures -1 <= head < |link| && head != pos
    ensures Prepend(link, head, pos)[([pos] + xs)[j]] == Link(At([pos] + xs, j + 1), At([pos] + xs, j - 1))
  {
    if 0 < j {
      assert xs[j - 1] in xs;
      assert link[xs[j - 1]] == Link(At(xs, j), At(xs, j - 2));
      SlotPositions(xs, j - 1, 0);
    }
  }

  lemma PrependKeepsChain(link: seq<Link>, head: int, xs: seq<int>, pos: int)
    requires IsChain(link, head, xs) && 0 <= pos < |link| && pos !in xs
    ensures -1 <= head < |link| && head != pos
    ensures IsChain(Prepend(link, head, pos), pos, [pos] + xs)
    ensures forall k :: 0 <= k < |link| && k !in xs && k != pos ==> Prepend(link, head, pos)[k] == link[k]
  {
    forall j | 0 <= j <= |xs|
      ensures Prepend(link, head, pos)[([pos] + xs)[j]] == Link(At([pos] + xs, j + 1), At([pos] + xs, j - 1))
    {
      PrependLinks(link, head, xs, pos, j);
    }
    assert forall i :: 0 <= i < |xs| ==> xs[i] in xs;
    hide Prepend;
  }

  /** Removing position i of a duplicate-free sequence removes exactly that element. */
  lemma RemoveAtMembers<T>(xs: seq<T>, i: nat)
    requires i < |xs| && forall j, k :: 0 <= j < k < |xs| ==> xs[j] != xs[k]
    ensures forall x :: x in RemoveAt(xs, i) <==> x in xs && x != xs[i]
  {
    var ys := RemoveAt(xs, i);
    forall x | x in xs && x != xs[i] ensures x in ys {
      var j :| 0 <= j < |xs| && xs[j] == x;
      assert ys[if j < i then j else j - 1] == x;
    }
  }
}
