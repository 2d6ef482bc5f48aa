/** What a CacheManager means: a sequence of entries, oldest first, keyed by signature. */
module CacheSpec {
  import opened Machine

  /** The two 32-bit words that YeeSign::getSign computes from a key. */
  datatype Sign = Sign(sign1: u32, sign2: u32)

  datatype Entry<T> = Entry(sign: Sign, value: T)

  /** The bucket of a signature: unsigned 32-bit addition wraps before the remainder is taken. */
  function Bucket(s: Sign, size: nat): (b: nat)
    requires size > 0
    ensures b < size
  {
    (s.sign1 + s.sign2) % 0x1_0000_0000 % size
  }

  /** operator== on signatures: the second conjunct compares sign2.sign2 with itself, so only sign1 decides. */
  predicate SignEq(a: Sign, b: Sign) {
    a.sign1 == b.sign1 && b.sign2 == b.sign2
  }

  /** Two keys the cache cannot tell apart: same bucket, and equal under operator==. */
  predicate Matches(a: Sign, b: Sign, size: nat)
    requires size > 0
  {
    Bucket(a, size) == Bucket(b, size) && SignEq(a, b)
  }

  /** The position of the first entry that the cache takes for key g, or |es|. */
  function IndexOf<T>(es: seq<Entry<T>>, g: Sign, size: nat): (i: nat)
    requires size > 0
    ensures i <= |es|
    ensures i < |es| ==> Matches(es[i].sign, g, size)
    ensures forall j :: 0 <= j < i ==> !Matches(es[j].sign, g, size)
  {
    if es == [] then 0
    else if Matches(es[0].sign, g, size) then 0
    else
      1 + IndexOf(es[1..], g, size)
  }

  predicate Has<T>(es: seq<Entry<T>>, g: Sign, size: nat)
    requires size > 0
  {
    IndexOf(es, g, size) < |es|
  }

  /** No two entries answer to the same key, and the entries fit the slots. */
  ghost predicate WellFormed<T>(es: seq<Entry<T>>, size: nat)
    requires size > 0
  {
    && |es| <= size
    && forall i, j :: 0 <= i < j < |es| ==> !Matches(es[i].sign, es[j].sign, size)
  }

  /** What reclaim leaves behind: the oldest tenth of the slots is dropped. */
  function Reclaim<T>(es: seq<Entry<T>>, size: nat): seq<Entry<T>>
    requires |es| == size
  {
    es[size / 10..]
  }

  function BeforeInsert<T>(es: seq<Entry<T>>, size: nat): seq<Entry<T>> {
    if |es| == size then Reclaim(es, size) else es
  }

  /** Overwrite the entry of key g in place, or append a new one. */
  function Store<T>(es: seq<Entry<T>>, g: Sign, v: T, size: nat): seq<Entry<T>>
    requires size > 0
  {
    var i := IndexOf(es, g, size);
    if i < |es| then es[i := Entry(es[i].sign, v)] else es + [Entry(g, v)]
  }

  /** insert: reclaim when full, then overwrite in place, or append as the newest entry. */
  function Insert<T>(es: seq<Entry<T>>, g: Sign, v: T, size: nat): seq<Entry<T>>
    requires size > 0
  {
    Store(BeforeInsert(es, size), g, v, size)
  }

  /** When insert finds room: reclaim frees slots only for size >= 10. */
  predicate InsertDefined<T>(es: seq<Entry<T>>, g: Sign, size: nat)
    requires size > 0
  {
    size >= 10 || |es| < size || Has(es, g, size)
  }

  function Without<T>(es: seq<Entry<T>>, i: nat): seq<Entry<T>>
    requires i < |es|
  {
    es[..i] + es[i + 1..]
  }

  function Remove<T>(es: seq<Entry<T>>, g: Sign, size: nat): seq<Entry<T>>
    requires size > 0
  {
    var i := IndexOf(es, g, size);
    if i < |es| then Without(es, i) else es
  }

  /** find: the value found, and the entry moved to the newest end. */
  function Found<T>(es: seq<Entry<T>>, g: Sign, size: nat): Option<T>
    requires size > 0
  {
    var i := IndexOf(es, g, size);
    if i < |es| then Some(es[i].value) else None
  }

  function Find<T>(es: seq<Entry<T>>, g: Sign, size: nat): seq<Entry<T>>
    requires size > 0
  {
    var i := IndexOf(es, g, size);
    if i < |es| then Without(es, i) + [es[i]] else es
  }

  /** IndexOf is the only matching position when keys are unique. */
  lemma IndexIs<T>(es: seq<Entry<T>>, g: Sign, i: nat, size: nat)
    requires size > 0 && WellFormed(es, size) && i < |es| && Matches(es[i].sign, g, size)
    ensures IndexOf(es, g, size) == i
  {
  }

  lemma IndexNone<T>(es: seq<Entry<T>>, g: Sign, size: nat)
    requires size > 0 && forall i :: 0 <= i < |es| ==> !Matches(es[i].sign, g, size)
    ensures IndexOf(es, g, size) == |es|
  {
  }
}
