/** The TLS session cache: a dictionary with a first/next cursor, and deletion behind the cursor. */
module TlsScache {
  import opened Machine
  import opened SessionEntry

  // Cache ids are numbered in the order in which the dictionary enumerates them.
  type Id = int

  // flags holds TLS_SCACHE_FLAG_DEL_SAVED_CURSOR only; cursor is the dictionary's own position.
  datatype Cache = Cache(db: map<Id, seq<byte>>, cursor: Option<Id>, saved: Option<Id>, delSaved: bool, timeout: int)

  datatype Direction = First | Next

  // ---------- the dictionary's sequence operation, by contract ----------

  predicate Above(k: Id, low: Option<Id>) {
    low.Some? ==> low.value < k
  }

  lemma Member<T>(s: set<T>) returns (x: T)
    requires |s| > 0
    ensures x in s
  {
    x :| x in s;
  }

  lemma LeastExists(ks: set<Id>)
    requires |ks| > 0
    ensures exists m :: m in ks && forall k :: k in ks ==> m <= k
    decreases |ks|
  {
    var x := Member(ks);
    var rest := ks - {x};
    if |rest| == 0 {
      assert forall k :: k in ks ==> k == x || k in rest;
    } else {
      LeastExists(rest);
      var m :| m in rest && forall k :: k in rest ==> m <= k;
      var r := if x < m then x else m;
      assert forall k :: k in ks ==> k == x || k in rest;
      assert r in ks && forall k :: k in ks ==> r <= k;
    }
  }

  /** The first key behind a position, if there is one. */
  function Following(db: map<Id, seq<byte>>, low: Option<Id>): (r: Option<Id>)
    ensures r.Some? ==> r.value in db && Above(r.value, low) && forall k :: k in db && Above(k, low) ==> r.value <= k
    ensures r.None? ==> forall k :: k in db ==> !Above(k, low)
  {
    var ks := set k | k in db.Keys && Above(k, low);
    assert forall k :: k in db && Above(k, low) ==> k in ks;
    if |ks| == 0 then
      None
    else
      LeastExists(ks);
      var m :| m in ks && forall k :: k in ks ==> m <= k;
      Some(m)
  }

  /** FIRST restarts the enumeration; NEXT needs a position to go on from. */
  function DictSeq(c: Cache, dir: Direction): Option<Id> {
    if dir.First? then Following(c.db, None)
    else if c.cursor.None? then None
    else Following(c.db, c.cursor)
  }

  // ---------- the operations as functions ----------

  /** tls_scache_delete: a request to delete the saved cursor is ignored, yet reported as done. */
  function Delete(c: Cache, id: Id): Cache {
    if c.saved == Some(id) then c else c.(db := c.db - {id})
  }

  function DeleteStatus(c: Cache, id: Id): bool {
    c.saved == Some(id) || id in c.db
  }

  function Found(c: Cache, id: Id, now: int): Option<seq<byte>> {
    if id in c.db then Decode(c.db[id], c.timeout, now) else None
  }

  /** tls_scache_lookup: a dead entry is deleted on the way. */
  function Lookup(c: Cache, id: Id, now: int): Cache {
    if id in c.db && Found(c, id, now).None? then Delete(c, id) else c
  }

  function Update(c: Cache, id: Id, session: seq<byte>, now: time): Cache {
    c.(db := c.db[id := Encode(session, now)])
  }

  /** tls_scache_sequence: advance at time scan, then delete behind at time after. */
  function Sequence(c: Cache, dir: Direction, scan: int, after: int): Cache {
    var member := DictSeq(c, dir);
    var advanced := c.(cursor := member, saved := None, delSaved := false);
    var cleaned := if c.delSaved && c.saved.Some? then Lookup(advanced, c.saved.value, after) else advanced;
    if member.None? then cleaned
    else cleaned.(saved := member, delSaved := !Live(c.db[member.value], c.timeout, scan))
  }

  function SequenceFound(c: Cache, dir: Direction): bool {
    DictSeq(c, dir).Some?
  }

  // ---------- a map with expiry ----------

  /** A lookup gives the stored session exactly when it is present and not past its timeout. */
  lemma LookupAfterUpdate(c: Cache, id: Id, session: seq<byte>, saved: time, now: int)
    ensures Found(Update(c, id, session, saved), id, now)
         == if saved + c.timeout >= now then Some(session) else None
    ensures forall k, at :: k != id ==> Found(Update(c, id, session, saved), k, at) == Found(c, k, at)
    ensures Update(c, id, session, saved).(db := c.db) == c
  {
    DecodeEncode(session, saved, c.timeout, now);
  }

  /** Neither a lookup nor a delete changes what a lookup of another id gives; a lookup changes no answer at all. */
  lemma LookupChangesNoAnswer(c: Cache, id: Id, now: int, k: Id, at: int)
    requires now <= at
    ensures Found(Lookup(c, id, now), k, at) == Found(c, k, at)
  {
    if k == id && id in c.db && Found(c, id, now).None? {
      DecodeIffLive(c.db[id], c.timeout, now);
      DecodeIffLive(c.db[id], c.timeout, at);
    }
  }

  /** A lookup removes exactly its own entry, if that is dead and not protected; it moves no cursor. */
  lemma LookupRemovesDead(c: Cache, id: Id, now: int, k: Id)
    ensures var c' := Lookup(c, id, now);
            && c'.(db := c.db) == c
            && (k in c'.db ==> k in c.db && c'.db[k] == c.db[k])
            && (k in c.db && k !in c'.db <==>
                k == id && id in c.db && c.saved != Some(id) && !Live(c.db[id], c.timeout, now))
  {
    if id in c.db {
      DecodeIffLive(c.db[id], c.timeout, now);
    }
  }

  /** A client delete removes exactly its id, unless that is the saved cursor: then nothing changes. It fails only when
      there is nothing to remove and nothing to protect. */
  lemma DeleteExact(c: Cache, id: Id, k: Id)
    ensures c.saved == Some(id) ==> Delete(c, id) == c && DeleteStatus(c, id)
    ensures c.saved != Some(id) ==> (k in Delete(c, id).db <==> k in c.db && k != id)
    ensures k in Delete(c, id).db ==> k in c.db && Delete(c, id).db[k] == c.db[k]
    ensures Delete(c, id).(db := c.db) == c
    ensures c.saved != Some(id) ==> (DeleteStatus(c, id) <==> Delete(c, id) != c)
  {
    if c.saved != Some(id) {
      var c' := Delete(c, id);
      if id in c.db {
        assert id !in c'.db;
      } else {
        assert c'.db == c.db;
      }
    }
  }

  /** A sequence step removes at most the entry it deletes behind, and only if that is dead at that time. */
  lemma SequenceRemovesOnlyDead(c: Cache, dir: Direction, scan: int, after: int, k: Id)
    ensures var db' := Sequence(c, dir, scan, after).db;
            && (k in db' ==> k in c.db && db'[k] == c.db[k])
            && (k in c.db && k !in db' <==>
                c.delSaved && c.saved == Some(k) && k in c.db && !Live(c.db[k], c.timeout, after))
  {
    if c.saved.Some? && c.saved.value in c.db {
      DecodeIffLive(c.db[c.saved.value], c.timeout, after);
    }
  }

  /** Where a sequence step moves to, and what it protects and marks: the least key, or the least one behind the cursor;
      it is marked for deletion iff it is dead at the scan. Without such a key everything is clear. */
  lemma SequenceMarks(c: Cache, dir: Direction, scan: int, after: int)
    ensures var c' := Sequence(c, dir, scan, after);
            && c'.saved == c'.cursor && c'.timeout == c.timeout
            && (c'.cursor.Some? ==>
                var k := c'.cursor.value;
                && k in c.db && (dir.Next? ==> c.cursor.Some? && c.cursor.value < k)
                && (forall j :: j in c.db && (dir.Next? ==> c.cursor.value < j) ==> k <= j)
                && (c'.delSaved <==> !Live(c.db[k], c.timeout, scan)))
            && (c'.cursor.None? ==>
                !c'.delSaved && forall j :: j in c.db ==> dir.Next? && (c.cursor.Some? ==> j <= c.cursor.value))
  {
    if dir.First? {
      assert forall j :: j in c.db ==> Above(j, None);
    } else if c.cursor.Some? {
      assert forall j :: j in c.db && c.cursor.value < j ==> Above(j, c.cursor);
    }
  }

  // ---------- the code ----------

  class TlsScache {
    var db: map<Id, seq<byte>>
    var cursor: Option<Id>
    var savedCursor: Option<Id>
    var delSavedCursor: bool
    const timeout: int

    ghost function State(): Cache
      reads this
    {
      Cache(db, cursor, savedCursor, delSavedCursor, timeout)
    }

    constructor (timeout: int)
      ensures State() == Cache(map[], None, None, false, timeout)
    {
      this.timeout := timeout;
      db, cursor, savedCursor, delSavedCursor := map[], None, None, false;
    }

    method DeleteEntry(id: Id) returns (done: bool)
      modifies this`db
      ensures State() == Delete(old(State()), id) && done == DeleteStatus(old(State()), id)
    {
      if savedCursor.Some? && savedCursor.value == id {
        return true;
      }
      done := id in db;
      db := db - {id};
    }

    /** The session output is empty whenever the lookup fails. */
    method LookupEntry(id: Id, now: int) returns (ok: bool, session: seq<byte>)
      modifies this`db
      ensures State() == Lookup(old(State()), id, now)
      ensures ok == Found(old(State()), id, now).Some?
      ensures session == if ok then Found(old(State()), id, now).value else []
    {
      ok, session := false, [];
      if id !in db {
        return;
      }
      var entry := Decode(db[id], timeout, now);
      if entry.None? {
        var _ := DeleteEntry(id);
        return;
      }
      return true, entry.value;
    }

    method UpdateEntry(id: Id, session: seq<byte>, now: time) returns (done: bool)
      modifies this`db
      ensures State() == Update(old(State()), id, session, now) && done
    {
      db := db[id := Encode(session, now)];
      done := true;
    }

    /** The session of the member is kept for the caller only when the member is alive. */
    method SequenceStep(dir: Direction, scan: int, after: int) returns (found: bool, kept: Option<(Id, seq<byte>)>)
      modifies this
      ensures State() == Sequence(old(State()), dir, scan, after)
      ensures found == SequenceFound(old(State()), dir)
      ensures kept.Some? <==> found && Live(old(db)[cursor.value], timeout, scan)
      ensures kept.Some? ==> Some(kept.value.0) == cursor
      ensures kept.Some? ==> Some(kept.value.1) == Decode(old(db)[cursor.value], timeout, scan)
    {
      var member := if dir.First? then Following(db, None) else if cursor.None? then None else Following(db, cursor);
      cursor, found, kept := member, member.Some?, None;
      if found {
        DecodeIffLive(db[member.value], timeout, scan);
        var entry := Decode(db[member.value], timeout, scan);
        if entry.Some? {
          kept := Some((member.value, entry.value));
        }
      }
      if delSavedCursor {
        delSavedCursor := false;
        var saved := savedCursor;
        savedCursor := None;
        if saved.Some? {
          var _, _ := LookupEntry(saved.value, after);
        }
      } else {
        savedCursor := None;
      }
      if found {
        savedCursor := member;
        if kept.None? {
          delSavedCursor := true;
        }
      }
    }
  }
}
