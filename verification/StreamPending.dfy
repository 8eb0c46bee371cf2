/** A group's pending entries as plain maps: the two indexes, their store image, the ledger. */
module StreamPending {
  import opened Basics
  import opened StreamIds

  /** An entry of the group's pending list; no owner means a null consumer pointer. */
  datatype Nack = Nack(count: nat, time: int, owner: Option<string>)

  /** The stored form of an entry. */
  datatype Record = Record(consumer: string, count: nat, time: int)

  type Pel = map<StreamId, Nack>
  type Consumers = map<string, set<StreamId>>
  type Records = map<StreamId, Record>

  /** Consumers' pending lists are exactly the owned part of the group's. */
  ghost predicate Coherent(pel: Pel, consumers: Consumers)
  {
    && (forall c, id :: c in consumers && id in consumers[c] ==> id in pel && pel[id].owner == Some(c))
    && (forall id :: id in pel && pel[id].owner.Some? ==>
          pel[id].owner.value in consumers && id in consumers[pel[id].owner.value])
  }

  lemma PendingDisjoint(pel: Pel, consumers: Consumers, c: string, d: string)
    requires Coherent(pel, consumers) && c in consumers && d in consumers && c != d
    ensures consumers[c] !! consumers[d]
  {
    forall id | id in consumers[c]
      ensures id !in consumers[d]
    {
      assert pel[id].owner == Some(c);
    }
  }

  /** The store holds the same entries; an owner, where there is one, bears the stored name. */
  ghost predicate Stored(pel: Pel, records: Records)
  {
    && records.Keys == pel.Keys
    && forall id :: id in pel ==>
         && records[id].count == pel[id].count && records[id].time == pel[id].time
         && (pel[id].owner.Some? ==> pel[id].owner.value == records[id].consumer)
  }

  ghost predicate AllOwned(pel: Pel)
  {
    forall id :: id in pel ==> pel[id].owner.Some?
  }

  // ----------------------------------------------------------------- updates

  function Owner(consumers: Consumers, c: string): Option<string>
  {
    if c in consumers then Some(c) else None
  }

  /** The list of the entry's owner, if it has one, without the entry. */
  function Erased(consumers: Consumers, owner: Option<string>, id: StreamId): Consumers
  {
    if owner.Some? && owner.value in consumers then consumers[owner.value := consumers[owner.value] - {id}]
    else consumers
  }

  /** Every list without the given entries, and consumer to's list with them. */
  function Move(consumers: Consumers, ids: set<StreamId>, to: string): Consumers
  {
    map c | c in consumers :: if c == to then consumers[c] + ids else consumers[c] - ids
  }

  /** Every list without the given entries. */
  function Without(consumers: Consumers, ids: set<StreamId>): Consumers
  {
    map c | c in consumers :: consumers[c] - ids
  }

  /** No list but the owner's holds the entry, so that erasing it there erases it everywhere. */
  lemma ErasedEverywhere(consumers: Consumers, owner: Option<string>, id: StreamId)
    requires forall c :: c in consumers && id in consumers[c] ==> owner == Some(c)
    ensures Erased(consumers, owner, id) == Without(consumers, {id})
  {
    forall c | c in consumers
      ensures Erased(consumers, owner, id)[c] == Without(consumers, {id})[c]
    {
      if owner != Some(c) {
        assert consumers[c] == consumers[c] - {id};
      }
    }
  }

  /** Erasing an entry from a list other than the target's, then adding it to the target's. */
  lemma ErasedThenPlaced(consumers: Consumers, owner: Option<string>, id: StreamId, to: string)
    requires forall c :: c in consumers && id in consumers[c] ==> owner == Some(c)
    ensures var left := if owner == Some(to) then consumers else Erased(consumers, owner, id);
            (if to in left then left[to := left[to] + {id}] else left) == Move(consumers, {id}, to)
  {
    ErasedEverywhere(consumers, owner, id);
    var left := if owner == Some(to) then consumers else Erased(consumers, owner, id);
    forall c | c in consumers && c != to
      ensures left[c] == consumers[c] - {id}
    {
      assert owner == Some(to) ==> id !in consumers[c];
    }
    assert to in consumers ==> left[to] + {id} == consumers[to] + {id};
  }

  lemma MoveCoherent(pel: Pel, consumers: Consumers, id: StreamId, to: string, count: nat, time: int)
    requires Coherent(pel, consumers)
    ensures Coherent(pel[id := Nack(count, time, Owner(consumers, to))], Move(consumers, {id}, to))
  {
  }

  lemma MoveTwice(consumers: Consumers, a: set<StreamId>, b: set<StreamId>, to: string)
    ensures Move(Move(consumers, a, to), b, to) == Move(consumers, a + b, to)
  {
    forall c | c in consumers
      ensures Move(Move(consumers, a, to), b, to)[c] == Move(consumers, a + b, to)[c]
    {
      assert consumers[c] + a + b == consumers[c] + (a + b);
      assert consumers[c] - a - b == consumers[c] - (a + b);
    }
  }

  lemma WithoutTwice(consumers: Consumers, a: set<StreamId>, b: set<StreamId>)
    ensures Without(Without(consumers, a), b) == Without(consumers, a + b)
  {
    forall c | c in consumers
      ensures Without(Without(consumers, a), b)[c] == Without(consumers, a + b)[c]
    {
      assert consumers[c] - a - b == consumers[c] - (a + b);
    }
  }

  lemma WithoutCoherent(pel: Pel, consumers: Consumers, ids: set<StreamId>)
    requires Coherent(pel, consumers)
    ensures Coherent(pel - ids, Without(consumers, ids))
  {
  }

  lemma MoveNothing(consumers: Consumers, to: string)
    ensures Move(consumers, {}, to) == consumers
    ensures Without(consumers, {}) == consumers
  {
    forall c | c in consumers
      ensures Move(consumers, {}, to)[c] == consumers[c] == Without(consumers, {})[c]
    {
      assert consumers[c] + {} == consumers[c] - {} == consumers[c];
    }
  }

  /** Dropping a consumer with all it holds. */
  lemma DropCoherent(pel: Pel, consumers: Consumers, c: string)
    requires Coherent(pel, consumers) && c in consumers
    ensures Coherent(pel - consumers[c], consumers - {c})
  {
    forall d, id | d in consumers - {c} && id in consumers[d]
      ensures id in pel - consumers[c]
    {
      PendingDisjoint(pel, consumers, c, d);
    }
  }

  lemma StoredSet(pel: Pel, records: Records, id: StreamId, count: nat, time: int, owner: Option<string>, c: string)
    requires Stored(pel, records) && (owner.Some? ==> owner.value == c)
    ensures Stored(pel[id := Nack(count, time, owner)], records[id := Record(c, count, time)])
  {
  }

  lemma StoredWithout(pel: Pel, records: Records, ids: set<StreamId>)
    requires Stored(pel, records)
    ensures Stored(pel - ids, records - ids)
  {
  }

  // ------------------------------------------------------------------ ledger

  /** What happened to the group's messages: those delivered as new, in order; of these, those that
      ask for an acknowledgement; those acknowledged; those dropped with their consumer. */
  datatype Ledger = Ledger(news: seq<StreamId>, tracked: set<StreamId>, acked: set<StreamId>, dropped: set<StreamId>)

  /** Delivered once each, in order and up to lastid; each tracked one is pending, acknowledged or
      dropped, and only one of these. */
  ghost predicate Accounted(lastid: StreamId, pending: set<StreamId>, l: Ledger)
  {
    && Increasing(l.news)
    && (forall id :: id in l.news ==> Le(id, lastid) && id != ZERO)
    && (forall id :: id in l.tracked ==> id in l.news)
    && l.tracked == pending + l.acked + l.dropped
    && pending !! l.acked !! l.dropped
  }

  lemma DeliverAccounted(lastid: StreamId, pending: set<StreamId>, l: Ledger, id: StreamId, noack: bool)
    requires Accounted(lastid, pending, l) && Lt(lastid, id)
    ensures id !in pending
    ensures noack ==> Accounted(id, pending, l.(news := l.news + [id]))
    ensures !noack ==> Accounted(id, pending + {id}, l.(news := l.news + [id], tracked := l.tracked + {id}))
  {
    assert id !in l.news;
    var news := l.news + [id];
    forall i, j | 0 <= i < j < |news|
      ensures Lt(news[i], news[j])
    {
      assert j == |l.news| ==> l.news[i] in l.news;
    }
  }

  lemma AckAccounted(lastid: StreamId, pending: set<StreamId>, l: Ledger, ids: set<StreamId>)
    requires Accounted(lastid, pending, l) && ids <= pending
    ensures Accounted(lastid, pending - ids, l.(acked := l.acked + ids))
  {
  }

  lemma DropAccounted(lastid: StreamId, pending: set<StreamId>, l: Ledger, ids: set<StreamId>)
    requires Accounted(lastid, pending, l) && ids <= pending
    ensures Accounted(lastid, pending - ids, l.(dropped := l.dropped + ids))
  {
  }

  // ------------------------------------------------------------------ reload

  /** The pending list that a set of records stands for. */
  function Rebuilt(records: Records): Pel
  {
    map id | id in records :: Nack(records[id].count, records[id].time, Some(records[id].consumer))
  }

  /** Consumers as rebuilt from records: those named by one, each with the entries that name it. */
  ghost predicate Holders(records: Records, consumers: Consumers)
  {
    && (forall c :: c in consumers ==> exists id :: id in records && records[id].consumer == c)
    && (forall id :: id in records ==> records[id].consumer in consumers)
    && (forall c, id :: c in consumers ==> (id in consumers[c] <==> id in records && records[id].consumer == c))
  }

  lemma HoldersCoherent(records: Records, consumers: Consumers)
    requires Holders(records, consumers)
    ensures Coherent(Rebuilt(records), consumers)
  {
  }

  /** StreamLoadGroups over one group's keys: its header, then its records. */
  method LoadGroup(header: StreamId, records: Records) returns (lastid: StreamId, pel: Pel, consumers: Consumers)
    ensures lastid == header && pel == Rebuilt(records) && Holders(records, consumers)
  {
    hide Holders;
    lastid, pel, consumers := header, map[], map[];
    var left := records.Keys;
    ghost var done: Records := map[];
    HoldersNone();
    while left != {}
      invariant done.Keys + left == records.Keys && done.Keys !! left
      invariant forall id :: id in done ==> done[id] == records[id]
      invariant pel == Rebuilt(done) && Holders(done, consumers)
    {
      var id :| id in left;
      left := left - {id};
      var r := records[id];
      HoldersAdd(done, consumers, id, r);
      done := done[id := r];
      consumers := AddNack(consumers, r.consumer, id);
      pel := pel[id := Nack(r.count, r.time, Some(r.consumer))];
    }
    assert done == records;
  }

  /** addNACK: the named consumer, made if need be, holds the entry. */
  function AddNack(consumers: Consumers, c: string, id: StreamId): Consumers
  {
    consumers[c := (if c in consumers then consumers[c] else {}) + {id}]
  }

  lemma HoldersNone()
    ensures Holders(map[], map[])
  {
  }

  lemma HoldersAdd(records: Records, consumers: Consumers, id: StreamId, r: Record)
    requires Holders(records, consumers) && id !in records
    ensures Holders(records[id := r], AddNack(consumers, r.consumer, id))
  {
    var rs, cs := records[id := r], AddNack(consumers, r.consumer, id);
    forall c | c in cs
      ensures exists i :: i in rs && rs[i].consumer == c
    {
      if c == r.consumer {
        assert rs[id].consumer == c;
      } else {
        var i :| i in records && records[i].consumer == c;
        assert rs[i].consumer == c;
      }
    }
  }

  /** Consumers with nothing pending left out. */
  function Busy(consumers: Consumers): Consumers
  {
    map c | c in consumers && consumers[c] != {} :: consumers[c]
  }

  /** Loading gives back the group as it was, up to consumers with nothing pending, exactly when
      every entry has an owner. */
  lemma ReloadSame(pel: Pel, consumers: Consumers, records: Records, loaded: Consumers)
    requires Coherent(pel, consumers) && Stored(pel, records) && Holders(records, loaded)
    ensures AllOwned(pel) <==> Rebuilt(records) == pel
    ensures AllOwned(pel) ==> loaded == Busy(consumers)
  {
    if AllOwned(pel) {
      assert Rebuilt(records) == pel;
      ReloadConsumers(pel, consumers, records, loaded);
    } else {
      var id :| id in pel && pel[id].owner.None?;
      assert Rebuilt(records)[id].owner.Some?;
    }
  }

  lemma ReloadConsumers(pel: Pel, consumers: Consumers, records: Records, loaded: Consumers)
    requires Coherent(pel, consumers) && Holders(records, loaded) && Rebuilt(records) == pel
    ensures loaded == Busy(consumers)
  {
    forall id | id in records
      ensures records[id].consumer in consumers && id in consumers[records[id].consumer]
    {
      assert pel[id].owner == Some(records[id].consumer);
    }
    forall c, id | c in consumers && id in consumers[c]
      ensures id in records && records[id].consumer == c
    {
      assert pel[id].owner == Some(c);
    }
    SameHolders(consumers, records, loaded);
  }

  lemma SameHolders(consumers: Consumers, records: Records, loaded: Consumers)
    requires Holders(records, loaded)
    requires forall id :: id in records ==> records[id].consumer in consumers && id in consumers[records[id].consumer]
    requires forall c, id :: c in consumers && id in consumers[c] ==> id in records && records[id].consumer == c
    ensures loaded == Busy(consumers)
  {
    forall c | c in loaded
      ensures c in consumers && loaded[c] == consumers[c] != {}
    {
      var id :| id in records && records[id].consumer == c;
      assert id in consumers[c];
      forall i
        ensures i in loaded[c] <==> i in consumers[c]
      {
        if i in loaded[c] {
          assert i in records && records[i].consumer == c;
          assert i in consumers[records[i].consumer];
        }
        if i in consumers[c] {
          assert i in records;
          assert records[i].consumer == c;
          assert i in loaded[c];
        }
      }
      assert loaded[c] == consumers[c];
    }
    forall c | c in consumers && consumers[c] != {}
      ensures c in loaded
    {
      var id :| id in consumers[c];
      assert records[id].consumer == c;
    }
  }
}
