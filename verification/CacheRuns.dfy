/** Whole runs of a CacheManager: what is kept, what is evicted, and which value a hit returns. */
module CacheRuns {
  import opened CacheSpec
  import opened Machine

  datatype Op<T> = Put(g: Sign, v: T) | Drop(g: Sign) | Get(g: Sign)

  function Step<T>(es: seq<Entry<T>>, op: Op<T>, size: nat): seq<Entry<T>>
    requires size > 0
  {
    match op
    case Put(g, v) => Insert(es, g, v, size)
    case Drop(g) => Remove(es, g, size)
    case Get(g) => Find(es, g, size)
  }

  function Run<T>(es: seq<Entry<T>>, ops: seq<Op<T>>, size: nat): seq<Entry<T>>
    requires size > 0
    decreases |ops|
  {
    if ops == [] then es else Run(Step(es, ops[0], size), ops[1..], size)
  }

  // What the cache can tell about a key: its first word and its bucket.
  datatype Ident = Ident(word: u32, bucket: nat)

  function IdentOf(g: Sign, size: nat): Ident
    requires size > 0
  {
    Ident(g.sign1, Bucket(g, size))
  }

  function Idents<T>(es: seq<Entry<T>>, size: nat): set<Ident>
    requires size > 0
  {
    set i | 0 <= i < |es| :: IdentOf(es[i].sign, size)
  }

  /** The keys of the entries that are newer than the entry of g. */
  function Newer<T>(es: seq<Entry<T>>, g: Sign, size: nat): set<Ident>
    requires size > 0 && Has(es, g, size)
  {
    Idents(es[IndexOf(es, g, size) + 1..], size)
  }

  /** The key an operation newly inserts or successfully finds. */
  function Touched<T>(es: seq<Entry<T>>, op: Op<T>, size: nat): set<Ident>
    requires size > 0
  {
    match op
    case Put(g, _) => if Has(BeforeInsert(es, size), g, size) then {} else {IdentOf(g, size)}
    case Drop(_) => {}
    case Get(g) => if Has(es, g, size) then {IdentOf(g, size)} else {}
  }

  function TouchedOver<T>(es: seq<Entry<T>>, ops: seq<Op<T>>, size: nat): set<Ident>
    requires size > 0
    decreases |ops|
  {
    if ops == [] then {} else Touched(es, ops[0], size) + TouchedOver(Step(es, ops[0], size), ops[1..], size)
  }

  predicate Drops<T>(ops: seq<Op<T>>, g: Sign, size: nat)
    requires size > 0
  {
    exists i :: 0 <= i < |ops| && ops[i].Drop? && Matches(ops[i].g, g, size)
  }

  // ---------- positions ----------

  lemma IdentsConcat<T>(a: seq<Entry<T>>, b: seq<Entry<T>>, size: nat)
    requires size > 0
    ensures Idents(a + b, size) == Idents(a, size) + Idents(b, size)
  {
    var c := a + b;
    forall x | x in Idents(b, size) ensures x in Idents(c, size) {
      var i :| 0 <= i < |b| && x == IdentOf(b[i].sign, size);
      assert c[|a| + i] == b[i];
    }
    forall x | x in Idents(a, size) ensures x in Idents(c, size) {
      var i :| 0 <= i < |a| && x == IdentOf(a[i].sign, size);
      assert c[i] == a[i];
    }
  }

  lemma SingleIdent<T>(e: Entry<T>, size: nat)
    requires size > 0
    ensures Idents([e], size) == {IdentOf(e.sign, size)}
  {
    assert [e][0] == e;
  }

  lemma IdentIsNew<T>(es: seq<Entry<T>>, n: nat, size: nat)
    requires size > 0 && n < |es| && forall i, j :: 0 <= i < j < |es| ==> !Matches(es[i].sign, es[j].sign, size)
    ensures IdentOf(es[n].sign, size) !in Idents(es[..n], size)
  {
    forall i | 0 <= i < n ensures IdentOf(es[..n][i].sign, size) != IdentOf(es[n].sign, size) {
      assert !Matches(es[i].sign, es[n].sign, size);
    }
  }

  lemma {:induction false} IdentsCount<T>(es: seq<Entry<T>>, size: nat)
    requires size > 0 && forall i, j :: 0 <= i < j < |es| ==> !Matches(es[i].sign, es[j].sign, size)
    ensures |Idents(es, size)| == |es|
  {
    if es == [] {
      assert Idents(es, size) == {};
    } else {
      hide Idents;
      hide IdentOf;
      var n := |es| - 1;
      var front, last := es[..n], es[n];
      IdentsCount(front, size);
      IdentIsNew(es, n, size);
      IdentsConcat(front, [last], size);
      SingleIdent(last, size);
      assert front + [last] == es;
    }
  }

  /** With unique keys, a sequence splits around the entry of g. */
  lemma SplitIndex<T>(a: seq<Entry<T>>, e: Entry<T>, b: seq<Entry<T>>, g: Sign, size: nat)
    requires size > 0 && Matches(e.sign, g, size)
    requires forall i :: 0 <= i < |a| ==> !Matches(a[i].sign, g, size)
    ensures IndexOf(a + [e] + b, g, size) == |a|
    ensures Newer(a + [e] + b, g, size) == Idents(b, size)
  {
    var es := a + [e] + b;
    assert es[|a|] == e;
    assert forall i :: 0 <= i < |a| ==> es[i] == a[i];
    assert es[|a| + 1..] == b;
  }

  lemma ReclaimKeepsUnique<T>(es: seq<Entry<T>>, size: nat)
    requires size > 0 && WellFormed(es, size)
    ensures WellFormed(BeforeInsert(es, size), size)
  {
    var es1 := BeforeInsert(es, size);
    var n := |es| - |es1|;
    forall i, j | 0 <= i < j < |es1| ensures !Matches(es1[i].sign, es1[j].sign, size) {
      assert es1[i] == es[n + i] && es1[j] == es[n + j];
    }
  }

  lemma StoreKeepsUnique<T>(es: seq<Entry<T>>, g: Sign, v: T, size: nat)
    requires size > 0 && WellFormed(es, size) && (Has(es, g, size) || |es| < size)
    ensures WellFormed(Store(es, g, v, size), size)
  {
  }

  lemma WithoutKeepsUnique<T>(es: seq<Entry<T>>, i: nat, size: nat)
    requires size > 0 && WellFormed(es, size) && i < |es|
    ensures WellFormed(Without(es, i), size)
    ensures forall p :: 0 <= p < |es| - 1 ==> !Matches(Without(es, i)[p].sign, es[i].sign, size)
  {
    var r := Without(es, i);
    assert forall p :: 0 <= p < |r| ==> r[p] == es[if p < i then p else p + 1];
  }

  /** Every operation keeps the keys unique and the entries within the slots. */
  lemma StepKeepsWellFormed<T>(es: seq<Entry<T>>, op: Op<T>, size: nat)
    requires size >= 10 && WellFormed(es, size)
    ensures WellFormed(Step(es, op, size), size)
  {
    match op
    case Put(g, v) =>
      ReclaimKeepsUnique(es, size);
      StoreKeepsUnique(BeforeInsert(es, size), g, v, size);
    case Drop(g) =>
      if Has(es, g, size) {
        WithoutKeepsUnique(es, IndexOf(es, g, size), size);
      }
    case Get(g) =>
      if Has(es, g, size) {
        WithoutKeepsUnique(es, IndexOf(es, g, size), size);
      }
  }

  // ---------- retention ----------

  /** With unique keys, the number of newer keys is the distance from the newest end. */
  lemma NewerCount<T>(es: seq<Entry<T>>, g: Sign, size: nat)
    requires size > 0 && WellFormed(es, size) && Has(es, g, size)
    ensures |Newer(es, g, size)| == |es| - 1 - IndexOf(es, g, size)
  {
    hide Idents;
    var n := IndexOf(es, g, size) + 1;
    var b := es[n..];
    forall i, j | 0 <= i < j < |b| ensures !Matches(b[i].sign, b[j].sign, size) {
      assert b[i] == es[n + i] && b[j] == es[n + j];
    }
    IdentsCount(b, size);
  }

  /** A well-formed sequence around the entry of g: nothing else in it answers to g. */
  lemma Around<T>(es: seq<Entry<T>>, g: Sign, size: nat)
    returns (a: seq<Entry<T>>, e: Entry<T>, b: seq<Entry<T>>)
    requires size > 0 && WellFormed(es, size) && Has(es, g, size)
    ensures es == a + [e] + b && |a| == IndexOf(es, g, size) && Matches(e.sign, g, size)
    ensures forall i :: 0 <= i < |a| ==> !Matches(a[i].sign, g, size)
    ensures forall i :: 0 <= i < |b| ==> !Matches(b[i].sign, g, size)
    ensures Newer(es, g, size) == Idents(b, size)
  {
    var i := IndexOf(es, g, size);
    a, e, b := es[..i], es[i], es[i + 1..];
    assert forall k :: 0 <= k < |b| ==> b[k] == es[i + 1 + k];
  }

  /** reclaim keeps g exactly when fewer than size - size/10 keys are newer. */
  lemma ReclaimKeeps<T>(es: seq<Entry<T>>, g: Sign, size: nat)
    requires size >= 10 && WellFormed(es, size) && |es| == size && Has(es, g, size)
    ensures Has(Reclaim(es, size), g, size) <==> |Newer(es, g, size)| < size - size / 10
    ensures Has(Reclaim(es, size), g, size) ==> Newer(Reclaim(es, size), g, size) == Newer(es, g, size)
  {
    hide Idents;
    NewerCount(es, g, size);
    var a, e, b := Around(es, g, size);
    var n := size / 10;
    hide Newer;
    if n <= |a| {
      assert Reclaim(es, size) == a[n..] + [e] + b;
      SplitIndex(a[n..], e, b, g, size);
    } else {
      assert Reclaim(es, size) == b[n - |a| - 1..];
      IndexNone(Reclaim(es, size), g, size);
    }
  }

  lemma SameSignsSameIdents<T>(a: seq<Entry<T>>, b: seq<Entry<T>>, size: nat)
    requires size > 0 && |a| == |b| && forall i :: 0 <= i < |a| ==> a[i].sign == b[i].sign
    ensures Idents(a, size) == Idents(b, size)
  {
    forall i | 0 <= i < |a| ensures IdentOf(a[i].sign, size) in Idents(b, size) {
      assert a[i].sign == b[i].sign;
    }
    forall i | 0 <= i < |b| ensures IdentOf(b[i].sign, size) in Idents(a, size) {
      assert a[i].sign == b[i].sign;
    }
  }

  /** Values do not matter to where a key is found. */
  lemma SameSignsSameKeys<T>(es: seq<Entry<T>>, es': seq<Entry<T>>, g: Sign, size: nat)
    requires size > 0 && |es| == |es'| && forall i :: 0 <= i < |es| ==> es[i].sign == es'[i].sign
    ensures IndexOf(es, g, size) == IndexOf(es', g, size)
    ensures Has(es, g, size) ==> Newer(es, g, size) == Newer(es', g, size)
  {
    var i, j := IndexOf(es, g, size), IndexOf(es', g, size);
    SameSignsSameIdents(es[if i < |es| then i + 1 else i..], es'[if i < |es| then i + 1 else i..], size);
  }

  lemma StoreKeeps<T>(es: seq<Entry<T>>, h: Sign, v: T, g: Sign, size: nat)
    requires size > 0 && WellFormed(es, size) && Has(es, g, size)
    ensures Has(Store(es, h, v, size), g, size)
    ensures Newer(Store(es, h, v, size), g, size)
         == Newer(es, g, size) + (if Has(es, h, size) then {} else {IdentOf(h, size)})
  {
    if Has(es, h, size) {
      SameSignsSameKeys(es, Store(es, h, v, size), g, size);
    } else {
      var a, e, b := Around(es, g, size);
      assert Store(es, h, v, size) == a + [e] + (b + [Entry(h, v)]);
      SplitIndex(a, e, b + [Entry(h, v)], g, size);
      IdentsConcat(b, [Entry(h, v)], size);
      SingleIdent(Entry(h, v), size);
    }
  }

  lemma WithoutIdents<T>(b: seq<Entry<T>>, m: nat, size: nat)
    requires size > 0 && m < |b|
    ensures Idents(Without(b, m), size) <= Idents(b, size)
  {
    var b' := Without(b, m);
    forall i | 0 <= i < |b'| ensures IdentOf(b'[i].sign, size) in Idents(b, size) {
      assert b'[i] == b[if i < m then i else i + 1];
    }
  }

  /** Where g is found after entry k left the older part or the newer part and `moved` was appended. */
  lemma OlderLeaves<T>(a: seq<Entry<T>>, e: Entry<T>, b: seq<Entry<T>>, k: nat, moved: seq<Entry<T>>, g: Sign, size: nat)
    requires size > 0 && Matches(e.sign, g, size) && k < |a|
    requires forall i :: 0 <= i < |a| ==> !Matches(a[i].sign, g, size)
    ensures Has(Without(a + [e] + b, k) + moved, g, size)
    ensures Newer(Without(a + [e] + b, k) + moved, g, size) == Idents(b, size) + Idents(moved, size)
  {
    var a' := Without(a, k);
    assert forall i :: 0 <= i < |a'| ==> a'[i] == a[if i < k then i else i + 1];
    assert Without(a + [e] + b, k) + moved == a' + [e] + (b + moved);
    SplitIndex(a', e, b + moved, g, size);
    IdentsConcat(b, moved, size);
  }

  lemma NewerLeaves<T>(a: seq<Entry<T>>, e: Entry<T>, b: seq<Entry<T>>, k: nat, moved: seq<Entry<T>>, g: Sign, size: nat)
    requires size > 0 && Matches(e.sign, g, size) && |a| < k <= |a| + |b|
    requires forall i :: 0 <= i < |a| ==> !Matches(a[i].sign, g, size)
    ensures Has(Without(a + [e] + b, k) + moved, g, size)
    ensures Newer(Without(a + [e] + b, k) + moved, g, size) <= Idents(b, size) + Idents(moved, size)
  {
    var b' := Without(b, k - |a| - 1);
    assert Without(a + [e] + b, k) + moved == a + [e] + (b' + moved);
    SplitIndex(a, e, b' + moved, g, size);
    IdentsConcat(b', moved, size);
    WithoutIdents(b, k - |a| - 1, size);
  }

  /** Taking entry k out, without or with putting it back at the newest end, leaves g findable. */
  lemma WithoutKeeps<T>(es: seq<Entry<T>>, k: nat, moved: seq<Entry<T>>, g: Sign, size: nat)
    requires size > 0 && WellFormed(es, size) && Has(es, g, size) && k < |es| && k != IndexOf(es, g, size)
    ensures Has(Without(es, k) + moved, g, size)
    ensures Newer(Without(es, k) + moved, g, size) <= Newer(es, g, size) + Idents(moved, size)
  {
    var a, e, b := Around(es, g, size);
    if k < |a| {
      OlderLeaves(a, e, b, k, moved, g, size);
    } else {
      NewerLeaves(a, e, b, k, moved, g, size);
    }
  }

  /** A found entry becomes the newest one. */
  lemma FoundIsNewest<T>(es: seq<Entry<T>>, g: Sign, size: nat)
    requires size > 0 && WellFormed(es, size) && Has(es, g, size)
    ensures Has(Find(es, g, size), g, size) && Newer(Find(es, g, size), g, size) == {}
  {
    var a, e, b := Around(es, g, size);
    assert Find(es, g, size) == (a + b) + [e] + [];
    SplitIndex(a + b, e, [], g, size);
  }

  lemma InsertKeeps<T>(es: seq<Entry<T>>, h: Sign, v: T, g: Sign, size: nat)
    requires size >= 10 && WellFormed(es, size) && Has(es, g, size) && |Newer(es, g, size)| < size - size / 10
    ensures Has(Insert(es, h, v, size), g, size)
    ensures Newer(Insert(es, h, v, size), g, size)
         == Newer(es, g, size) + (if Has(BeforeInsert(es, size), h, size) then {} else {IdentOf(h, size)})
  {
    if |es| == size {
      ReclaimKeeps(es, g, size);
    }
    ReclaimKeepsUnique(es, size);
    StoreKeeps(BeforeInsert(es, size), h, v, g, size);
  }

  lemma DropRetains<T>(es: seq<Entry<T>>, h: Sign, g: Sign, size: nat)
    requires size > 0 && WellFormed(es, size) && Has(es, g, size) && !Matches(h, g, size)
    ensures Has(Remove(es, h, size), g, size)
    ensures Newer(Remove(es, h, size), g, size) <= Newer(es, g, size)
  {
    if Has(es, h, size) {
      var k := IndexOf(es, h, size);
      WithoutKeeps(es, k, [], g, size);
      assert Without(es, k) + [] == Without(es, k);
      assert Idents<T>([], size) == {};
    }
  }

  lemma GetRetains<T>(es: seq<Entry<T>>, h: Sign, g: Sign, size: nat)
    requires size > 0 && WellFormed(es, size) && Has(es, g, size)
    ensures Has(Find(es, h, size), g, size)
    ensures var now := if Has(es, h, size) then {IdentOf(h, size)} else {};
            Newer(Find(es, h, size), g, size) <= Newer(es, g, size) + (now - {IdentOf(g, size)})
  {
    hide Idents;
    if Has(es, h, size) {
      var k, i := IndexOf(es, h, size), IndexOf(es, g, size);
      if k == i {
        FoundSame(es, h, g, size);
        FoundIsNewest(es, g, size);
      } else {
        WithoutKeeps(es, k, [es[k]], g, size);
        SingleIdent(es[k], size);
        assert IdentOf(es[k].sign, size) == IdentOf(h, size);
        OtherIdent(es, h, g, size);
      }
    }
  }

  lemma FoundSame<T>(es: seq<Entry<T>>, h: Sign, g: Sign, size: nat)
    requires size > 0 && IndexOf(es, h, size) == IndexOf(es, g, size)
    ensures Find(es, h, size) == Find(es, g, size)
  {
  }

  lemma OtherIdent<T>(es: seq<Entry<T>>, h: Sign, g: Sign, size: nat)
    requires size > 0 && WellFormed(es, size) && Has(es, h, size) && Has(es, g, size)
    requires IndexOf(es, h, size) != IndexOf(es, g, size)
    ensures IdentOf(h, size) != IdentOf(g, size)
  {
    var k, i := IndexOf(es, h, size), IndexOf(es, g, size);
    assert !Matches(es[if k < i then k else i].sign, es[if k < i then i else k].sign, size);
  }

  lemma PutRetains<T>(es: seq<Entry<T>>, h: Sign, v: T, g: Sign, size: nat)
    requires size >= 10 && WellFormed(es, size) && Has(es, g, size) && |Newer(es, g, size)| < size - size / 10
    ensures Has(Insert(es, h, v, size), g, size)
    ensures Newer(Insert(es, h, v, size), g, size)
         <= Newer(es, g, size) + (Touched(es, Put(h, v), size) - {IdentOf(g, size)})
  {
    hide Newer;
    InsertKeeps(es, h, v, g, size);
    var es1 := BeforeInsert(es, size);
    if !Has(es1, h, size) && IdentOf(h, size) == IdentOf(g, size) {
      StillThere(es, g, size);
      SameIdentSameIndex(es1, h, g, size);
      assert false;
    }
  }

  lemma StillThere<T>(es: seq<Entry<T>>, g: Sign, size: nat)
    requires size >= 10 && WellFormed(es, size) && Has(es, g, size) && |Newer(es, g, size)| < size - size / 10
    ensures Has(BeforeInsert(es, size), g, size)
  {
    if |es| == size {
      ReclaimKeeps(es, g, size);
    }
  }

  lemma {:induction false} SameIdentSameIndex<T>(es: seq<Entry<T>>, h: Sign, g: Sign, size: nat)
    requires size > 0 && IdentOf(h, size) == IdentOf(g, size)
    ensures IndexOf(es, h, size) == IndexOf(es, g, size)
  {
    if es != [] {
      SameIdentSameIndex(es[1..], h, g, size);
    }
  }

  /** One operation other than the removal of g keeps g, as long as fewer than size - size/10 keys are newer. */
  lemma StepRetains<T>(es: seq<Entry<T>>, op: Op<T>, g: Sign, size: nat)
    requires size >= 10 && WellFormed(es, size) && Has(es, g, size)
    requires op.Drop? ==> !Matches(op.g, g, size)
    requires |Newer(es, g, size)| < size - size / 10
    ensures Has(Step(es, op, size), g, size)
    ensures Newer(Step(es, op, size), g, size) <= Newer(es, g, size) + (Touched(es, op, size) - {IdentOf(g, size)})
  {
    hide Newer;
    match op
    case Put(h, v) =>
      PutRetains(es, h, v, g, size);
    case Drop(h) =>
      DropRetains(es, h, g, size);
    case Get(h) =>
      GetRetains(es, h, g, size);
  }

  lemma SubsetCount<T>(a: set<T>, b: set<T>)
    requires a <= b
    ensures |a| <= |b|
  {
    if a != {} {
      var x :| x in a;
      SubsetCount(a - {x}, b - {x});
    }
  }

  /** Retention over a whole run: g stays findable until at least size - size/10 other keys became newer. */
  lemma {:induction false} Retained<T>(es: seq<Entry<T>>, ops: seq<Op<T>>, g: Sign, size: nat)
    requires size >= 10 && WellFormed(es, size) && Has(es, g, size) && !Drops(ops, g, size)
    requires |Newer(es, g, size) + (TouchedOver(es, ops, size) - {IdentOf(g, size)})| < size - size / 10
    ensures Has(Run(es, ops, size), g, size)
    decreases |ops|
  {
    if ops != [] {
      var op, rest := ops[0], ops[1..];
      var es1 := Step(es, op, size);
      var now, later := Touched(es, op, size) - {IdentOf(g, size)}, TouchedOver(es1, rest, size) - {IdentOf(g, size)};
      var all := Newer(es, g, size) + (TouchedOver(es, ops, size) - {IdentOf(g, size)});
      assert all == Newer(es, g, size) + now + later;
      SubsetCount(Newer(es, g, size), all);
      StepRetains(es, op, g, size);
      StepKeepsWellFormed(es, op, size);
      SubsetCount(Newer(es1, g, size) + later, all);
      assert forall i :: 0 <= i < |rest| ==> rest[i] == ops[i + 1];
      Retained(es1, rest, g, size);
    }
  }

  /** Both an insert that adds g and a find that hits g leave it with nothing newer. */
  lemma TouchedIsNewest<T>(es: seq<Entry<T>>, op: Op<T>, size: nat)
    requires size >= 10 && WellFormed(es, size) && Touched(es, op, size) != {}
    ensures Has(Step(es, op, size), op.g, size) && Newer(Step(es, op, size), op.g, size) == {}
  {
    match op
    case Put(g, v) =>
      var es1 := BeforeInsert(es, size);
      assert Step(es, op, size) == es1 + [Entry(g, v)] + [];
      SplitIndex(es1, Entry(g, v), [], g, size);
    case Get(g) =>
      FoundIsNewest(es, g, size);
  }

  /** The retention promise: from the operation that made g newest, while at most 90 percent of the slots turn over. */
  lemma RetainedSinceTouched<T>(es: seq<Entry<T>>, op: Op<T>, ops: seq<Op<T>>, size: nat)
    requires size >= 10 && WellFormed(es, size) && Touched(es, op, size) != {} && !Drops(ops, op.g, size)
    requires |TouchedOver(Step(es, op, size), ops, size) - {IdentOf(op.g, size)}| < size - size / 10
    ensures Has(Run(Step(es, op, size), ops, size), op.g, size)
  {
    var es1 := Step(es, op, size);
    TouchedIsNewest(es, op, size);
    StepKeepsWellFormed(es, op, size);
    assert Newer(es1, op.g, size) + (TouchedOver(es1, ops, size) - {IdentOf(op.g, size)})
        == TouchedOver(es1, ops, size) - {IdentOf(op.g, size)};
    Retained(es1, ops, op.g, size);
  }

  /** The bound is exact: inserting another key into a full cache keeps g iff fewer than size - size/10 keys are newer. */
  lemma EvictionExact<T>(es: seq<Entry<T>>, h: Sign, v: T, g: Sign, size: nat)
    requires size >= 10 && WellFormed(es, size) && |es| == size && Has(es, g, size) && !Matches(h, g, size)
    ensures Has(Insert(es, h, v, size), g, size) <==> |Newer(es, g, size)| < size - size / 10
  {
    ReclaimKeeps(es, g, size);
    var es1 := Reclaim(es, size);
    ReclaimKeepsUnique(es, size);
    if Has(es1, g, size) {
      StoreKeeps(es1, h, v, g, size);
    } else {
      IndexNone(Store(es1, h, v, size), g, size);
    }
  }

  /** insert has an entry to overwrite or a slot to use exactly when its precondition holds. */
  lemma RoomIff<T>(es: seq<Entry<T>>, g: Sign, size: nat)
    requires size > 0 && WellFormed(es, size)
    ensures Has(BeforeInsert(es, size), g, size) || |BeforeInsert(es, size)| < size <==> InsertDefined(es, g, size)
  {
    if |es| == size && size < 10 {
      assert Reclaim(es, size) == es;
    }
  }

  // ---------- values ----------

  lemma FoundAt<T>(es: seq<Entry<T>>, i: nat, g: Sign, size: nat)
    requires size > 0 && WellFormed(es, size) && i < |es| && Matches(es[i].sign, g, size)
    ensures Found(es, g, size) == Some(es[i].value)
  {
    IndexIs(es, g, i, size);
  }

  lemma StoreFound<T>(es: seq<Entry<T>>, h: Sign, v: T, g: Sign, size: nat)
    requires size > 0 && WellFormed(es, size) && (Has(es, h, size) || |es| < size)
    ensures Found(Store(es, h, v, size), g, size) == if Matches(h, g, size) then Some(v) else Found(es, g, size)
  {
    StoreKeepsUnique(es, h, v, size);
    var es' := Store(es, h, v, size);
    var k, i := IndexOf(es, h, size), IndexOf(es, g, size);
    if Matches(h, g, size) {
      FoundAt(es', k, g, size);
    } else if i < |es| {
      FoundAt(es', i, g, size);
    } else {
      IndexNone(es', g, size);
    }
  }

  lemma WithoutFound<T>(es: seq<Entry<T>>, k: nat, g: Sign, size: nat)
    requires size > 0 && WellFormed(es, size) && k < |es|
    ensures Found(Without(es, k), g, size) == if Matches(es[k].sign, g, size) then None else Found(es, g, size)
  {
    var r, i := Without(es, k), IndexOf(es, g, size);
    WithoutKeepsUnique(es, k, size);
    assert forall p :: 0 <= p < |r| ==> r[p] == es[if p < k then p else p + 1];
    if i < |es| && i != k {
      FoundAt(r, if i < k then i else i - 1, g, size);
    } else {
      IndexNone(r, g, size);
    }
  }

  lemma MovedFound<T>(es: seq<Entry<T>>, h: Sign, g: Sign, size: nat)
    requires size > 0 && WellFormed(es, size)
    ensures Found(Find(es, h, size), g, size) == Found(es, g, size)
  {
    var k, i := IndexOf(es, h, size), IndexOf(es, g, size);
    if k < |es| {
      var r := Without(es, k) + [es[k]];
      WithoutKeepsUnique(es, k, size);
      forall p | 0 <= p < |r| ensures r[p] == es[if p < k then p else if p < |es| - 1 then p + 1 else k] {
      }
      if i < |es| {
        FoundAt(r, if i < k then i else if i == k then |es| - 1 else i - 1, g, size);
      } else {
        IndexNone(r, g, size);
      }
    }
  }

  lemma ReclaimFound<T>(es: seq<Entry<T>>, g: Sign, size: nat)
    requires size > 0 && WellFormed(es, size)
    ensures var r := Found(BeforeInsert(es, size), g, size); r == None || r == Found(es, g, size)
  {
    var es1, i := BeforeInsert(es, size), IndexOf(BeforeInsert(es, size), g, size);
    if i < |es1| {
      FoundAt(es, |es| - |es1| + i, g, size);
    }
  }

  /** The value of the latest Put of g that no later Drop of g undid. */
  function LastPut<T>(ops: seq<Op<T>>, g: Sign, size: nat): Option<T>
    requires size > 0
  {
    if ops == [] then None
    else
      var op := ops[|ops| - 1];
      if op.Get? || !Matches(op.g, g, size) then LastPut(ops[..|ops| - 1], g, size)
      else if op.Put? then Some(op.v)
      else None
  }

  lemma ReclaimedIsLost<T>(es: seq<Entry<T>>, g: Sign, size: nat)
    requires size >= 10 && WellFormed(es, size) && |es| == size
    ensures Found(BeforeInsert(es, size), g, size)
         == if Has(es, g, size) && |Newer(es, g, size)| < size - size / 10 then Found(es, g, size) else None
  {
    hide Newer;
    ReclaimFound(es, g, size);
    if Has(es, g, size) {
      ReclaimKeeps(es, g, size);
    }
  }

  /** Inserting h while a slot is free loses nothing; on a full cache it loses exactly the entries of reclaim. */
  lemma InsertFound<T>(es: seq<Entry<T>>, h: Sign, v: T, g: Sign, size: nat)
    requires size >= 10 && WellFormed(es, size)
    ensures Found(Insert(es, h, v, size), g, size)
         == if Matches(h, g, size) then Some(v)
            else if |es| < size || (Has(es, g, size) && |Newer(es, g, size)| < size - size / 10) then Found(es, g, size)
            else None
  {
    hide Newer;
    hide Found;
    ReclaimKeepsUnique(es, size);
    StoreFound(BeforeInsert(es, size), h, v, g, size);
    if |es| == size {
      ReclaimedIsLost(es, g, size);
    }
  }

  /** One operation against every key: what is found afterwards, exactly. */
  lemma StepFound<T>(es: seq<Entry<T>>, op: Op<T>, g: Sign, size: nat)
    requires size >= 10 && WellFormed(es, size)
    ensures var before, after := Found(es, g, size), Found(Step(es, op, size), g, size);
            match op
            case Put(h, v) =>
              after == if Matches(h, g, size) then Some(v)
                       else if |es| < size || (Has(es, g, size) && |Newer(es, g, size)| < size - size / 10) then before
                       else None
            case Drop(h) => after == if Matches(h, g, size) then None else before
            case Get(_) => after == before
  {
    match op
    case Put(h, v) =>
      InsertFound(es, h, v, g, size);
    case Drop(h) =>
      if Has(es, h, size) {
        WithoutFound(es, IndexOf(es, h, size), g, size);
      } else if Matches(h, g, size) {
        IndexNone(es, g, size);
      }
    case Get(h) =>
      MovedFound(es, h, g, size);
  }

  lemma {:induction false} RunSnoc<T>(es: seq<Entry<T>>, ops: seq<Op<T>>, op: Op<T>, size: nat)
    requires size > 0
    ensures Run(es, ops + [op], size) == Step(Run(es, ops, size), op, size)
    decreases |ops|
  {
    if ops == [] {
      assert [op][1..] == [];
    } else {
      assert (ops + [op])[1..] == ops[1..] + [op];
      RunSnoc(Step(es, ops[0], size), ops[1..], op, size);
    }
  }

  /** After any run from the empty cache, keys are unique, and a hit returns the latest value put and not dropped. */
  lemma {:induction false} NeverStale<T>(ops: seq<Op<T>>, g: Sign, size: nat)
    requires size >= 10
    ensures WellFormed(Run([], ops, size), size)
    ensures var r := Found(Run([], ops, size), g, size); r == None || r == LastPut(ops, g, size)
    decreases |ops|
  {
    if ops != [] {
      var front, op := ops[..|ops| - 1], ops[|ops| - 1];
      NeverStale(front, g, size);
      assert ops == front + [op];
      RunSnoc([], front, op, size);
      StepKeepsWellFormed(Run([], front, size), op, size);
      StepFound(Run([], front, size), op, g, size);
    }
  }

  // ---------- the key comparison ----------

  /** The position a comparison of both signature words would find. */
  function ExactIndexOf<T>(es: seq<Entry<T>>, g: Sign): (i: nat)
    ensures i <= |es|
    ensures i < |es| ==> es[i].sign == g
    ensures forall j :: 0 <= j < i ==> es[j].sign != g
  {
    if es == [] then 0 else if es[0].sign == g then 0 else 1 + ExactIndexOf(es[1..], g)
  }

  /** Both comparisons find the same position iff no stored signature collides with g. This says nothing about whose
      value is found there: a colliding insert keeps the stored signature and replaces the value. */
  lemma ExactWhenNoCollision<T>(es: seq<Entry<T>>, g: Sign, size: nat)
    requires size > 0 && WellFormed(es, size)
    ensures IndexOf(es, g, size) == ExactIndexOf(es, g)
       <==> forall i :: 0 <= i < |es| && Matches(es[i].sign, g, size) ==> es[i].sign == g
  {
    var i := IndexOf(es, g, size);
    if i < |es| {
      assert forall j :: 0 <= j < |es| && j != i ==> !Matches(es[j].sign, g, size);
    }
  }

  /** The value of the latest Put of exactly g that no later Drop of exactly g undid. */
  function ExactLastPut<T>(ops: seq<Op<T>>, g: Sign): Option<T> {
    if ops == [] then None
    else
      var op := ops[|ops| - 1];
      if op.Get? || op.g != g then ExactLastPut(ops[..|ops| - 1], g)
      else if op.Put? then Some(op.v)
      else None
  }

  /** The cache can tell any two of the keys apart. */
  ghost predicate ToldApart(keys: iset<Sign>, size: nat)
    requires size > 0
  {
    forall a, b :: a in keys && b in keys && Matches(a, b, size) ==> a == b
  }

  /** All operations of the run are on these keys. */
  ghost predicate Uses<T>(ops: seq<Op<T>>, keys: iset<Sign>) {
    forall i :: 0 <= i < |ops| ==> ops[i].g in keys
  }

  /** A hit on g after the run gives what was last put under g itself. */
  ghost predicate AnswersExactly<T>(ops: seq<Op<T>>, g: Sign, size: nat)
    requires size > 0
  {
    var r := Found(Run([], ops, size), g, size);
    r == None || r == ExactLastPut(ops, g)
  }

  lemma {:induction false} LastPutIsExact<T>(ops: seq<Op<T>>, keys: iset<Sign>, g: Sign, size: nat)
    requires size > 0 && ToldApart(keys, size) && Uses(ops, keys) && g in keys
    ensures LastPut(ops, g, size) == ExactLastPut(ops, g)
  {
    if ops != [] {
      LastPutIsExact(ops[..|ops| - 1], keys, g, size);
      assert ops[|ops| - 1].g in keys;
    }
  }

  lemma SinglePut<T>(g: Sign, v: T, size: nat)
    requires size >= 10
    ensures Run([], [Put(g, v)], size) == [Entry(g, v)]
  {
    assert Run([], [Put(g, v)], size) == Run(Step([], Put(g, v), size), [], size);
    assert Step([], Put(g, v), size) == [] + [Entry(g, v)];
  }

  /** A value put under one of two keys that the cache cannot tell apart is found under the other. */
  lemma CollisionIsFound<T>(a: Sign, b: Sign, v: T, size: nat)
    requires size >= 10 && a != b && Matches(a, b, size)
    ensures Found(Run([], [Put(a, v)], size), b, size) == Some(v)
    ensures !AnswersExactly([Put(a, v)], b, size)
  {
    SinglePut(a, v, size);
    assert [Put(a, v)][..0] == [];
    assert ExactLastPut([Put(a, v)], b) == None;
  }

  /** Every hit of every run over a set of keys gives what was put under exactly that key, iff no two keys of the set
      agree in first word and bucket. */
  lemma ExactIffToldApart<T(!new)>(keys: iset<Sign>, v: T, size: nat)
    requires size >= 10
    ensures (forall ops: seq<Op<T>>, g :: Uses(ops, keys) && g in keys ==> AnswersExactly(ops, g, size))
       <==> ToldApart(keys, size)
  {
    if ToldApart(keys, size) {
      forall ops: seq<Op<T>>, g | Uses(ops, keys) && g in keys ensures AnswersExactly(ops, g, size) {
        NeverStale(ops, g, size);
        LastPutIsExact(ops, keys, g, size);
      }
    } else {
      var a, b :| a in keys && b in keys && Matches(a, b, size) && a != b;
      CollisionIsFound(a, b, v, size);
      assert Uses([Put(a, v)], keys);
    }
  }

  /** The addition of the two words wraps around. */
  predicate Wraps(g: Sign) {
    g.sign1 + g.sign2 >= 0x1_0000_0000
  }

  lemma BucketIs(g: Sign, size: nat)
    requires size > 0
    ensures Bucket(g, size) == (g.sign1 + g.sign2 - (if Wraps(g) then 0x1_0000_0000 else 0)) % size
  {
  }

  lemma SameRemainder(x: nat, y: nat, size: nat)
    requires size > 0
    ensures x % size == y % size <==> (x - y) % size == 0
  {
    var q, r := x / size, y / size;
    assert x - y == size * (q - r) + (x % size - y % size);
    if x % size == y % size {
      MultipleHasNoRemainder(q - r, size);
    } else if (x - y) % size == 0 {
      var k := (x - y) / size;
      assert size * (k - (q - r)) == x % size - y % size;
      SmallMultiple(size, k - (q - r));
      assert false;
    }
  }

  lemma MultipleHasNoRemainder(q: int, size: nat)
    requires size > 0
    ensures size * q % size == 0
  {
    assert size * q == q * size + 0;
    var r := size * q % size;
    assert size * q == size * (size * q / size) + r;
    SmallMultiple(size, q - size * q / size);
  }

  lemma SmallMultiple(size: int, k: int)
    requires size > 0
    ensures -size < size * k < size ==> k == 0
  {
    if k >= 1 {
      assert size * k >= size * 1;
    } else if k <= -1 {
      assert size * k <= size * -1;
    }
  }

  /** Two keys with the same first word share an entry iff the number of slots divides the difference of their second
      words, corrected by 2^32 where one of the two additions wraps around. */
  lemma SharedEntryIff(a: Sign, b: Sign, size: nat)
    requires size > 0 && a.sign1 == b.sign1
    ensures Matches(a, b, size) <==>
      (a.sign2 - b.sign2 + (if Wraps(b) then 0x1_0000_0000 else 0) - (if Wraps(a) then 0x1_0000_0000 else 0)) % size == 0
  {
    BucketIs(a, size);
    BucketIs(b, size);
    var x := a.sign1 + a.sign2 - (if Wraps(a) then 0x1_0000_0000 else 0);
    var y := b.sign1 + b.sign2 - (if Wraps(b) then 0x1_0000_0000 else 0);
    SameRemainder(x, y, size);
  }

  /** Two signatures that differ in the second word only: the value put under one is found under the other. */
  lemma CollidingKeys()
    ensures var a, b := Sign(1, 0), Sign(1, 10);
            && a != b && Matches(a, b, 10)
            && Found(Run([], [Put(a, 7)], 10), b, 10) == Some(7)
            && LastPut([Put(b, 8), Put(a, 7)], b, 10) == Some(7)
  {
    CollisionIsFound(Sign(1, 0), Sign(1, 10), 7, 10);
  }

  /** A second insert replaces the value and keeps the signature: no stored signature collides with a, and the value found
      under a was never put under a. A remove of the other key takes a's entry away. */
  lemma OverwrittenUnderCollision()
    ensures var a, b := Sign(1, 0), Sign(1, 10);
            && Run([], [Put(a, 7), Put(b, 8)], 10) == [Entry(a, 8)]
            && Found([Entry(a, 8)], a, 10) == Some(8)
            && IndexOf([Entry(a, 8)], a, 10) == ExactIndexOf([Entry(a, 8)], a) == 0
            && ExactLastPut([Put(a, 7), Put(b, 8)], a) == Some(7)
            && Run([], [Put(a, 7), Drop(b)], 10) == []
  {
    var a, b := Sign(1, 0), Sign(1, 10);
    SinglePut(a, 7, 10);
    RunSnoc([], [Put(a, 7)], Put(b, 8), 10);
    assert [Put(a, 7)] + [Put(b, 8)] == [Put(a, 7), Put(b, 8)];
    assert [Put(a, 7), Put(b, 8)][..1] == [Put(a, 7)];
    RunSnoc([], [Put(a, 7)], Drop(b), 10);
    assert [Put(a, 7)] + [Drop(b)] == [Put(a, 7), Drop(b)];
  }
}
