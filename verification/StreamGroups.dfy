/** What each group command does to the group's tables, its stored keys and the ledger. */
module StreamGroups {
  import opened StreamIds
  import opened StreamPending

  datatype State = State(
    lastid: StreamId, pel: Pel, consumers: Consumers,  // in memory
    stored: StreamId, records: Records,                // in the store
    ledger: Ledger)                                    // in the proof only

  /** Both indexes agree, the store mirrors them, and every delivery is accounted for. */
  ghost predicate Sound(s: State)
  {
    && Coherent(s.pel, s.consumers) && Stored(s.pel, s.records) && s.stored == s.lastid
    && Accounted(s.lastid, s.pel.Keys, s.ledger)
  }

  /** Every pending ID is at most lastid, and was delivered as new. */
  lemma PendingBelowLast(s: State)
    requires Sound(s)
    ensures forall id :: id in s.pel ==> Le(id, s.lastid) && id in s.ledger.news
  {
    forall id | id in s.pel
      ensures Le(id, s.lastid) && id in s.ledger.news
    {
      assert id in s.ledger.tracked;
    }
  }

  /** XGROUP CREATE. */
  function Created(id: StreamId): State
  {
    State(id, map[], map[], id, map[], Ledger([], {}, {}, {}))
  }

  lemma CreatedSound(id: StreamId)
    ensures Sound(Created(id)) && AllOwned(Created(id).pel)
  {
  }

  // --------------------------------------------------------------- acknowledge

  function Acknowledge(s: State, ids: set<StreamId>): State
  {
    s.(pel := s.pel - ids, consumers := Without(s.consumers, ids), records := s.records - ids,
       ledger := s.ledger.(acked := s.ledger.acked + ids))
  }

  lemma AcknowledgeSound(s: State, ids: set<StreamId>)
    requires Sound(s) && ids <= s.pel.Keys
    ensures Sound(Acknowledge(s, ids))
    ensures AllOwned(s.pel) ==> AllOwned(Acknowledge(s, ids).pel)
  {
    hide Coherent, Stored, Accounted, Without;
    WithoutCoherent(s.pel, s.consumers, ids);
    StoredWithout(s.pel, s.records, ids);
    AckAccounted(s.lastid, s.pel.Keys, s.ledger, ids);
    assert (s.pel - ids).Keys == s.pel.Keys - ids;
  }

  lemma AcknowledgeMore(s: State, a: set<StreamId>, b: set<StreamId>)
    ensures Acknowledge(Acknowledge(s, a), b) == Acknowledge(s, a + b)
    ensures Acknowledge(s, {}) == s
  {
    WithoutTwice(s.consumers, a, b);
    MoveNothing(s.consumers, "");
    assert s.pel - a - b == s.pel - (a + b);
    assert s.records - a - b == s.records - (a + b);
    assert s.ledger.acked + a + b == s.ledger.acked + (a + b);
    assert s.ledger.acked + {} == s.ledger.acked;
    assert s.pel - {} == s.pel && s.records - {} == s.records;
  }

  // ---------------------------------------------------------------------- drop

  function Dropped(s: State, c: string): State
  {
    if c !in s.consumers then s
    else
      var ids := s.consumers[c];
      s.(pel := s.pel - ids, consumers := s.consumers - {c}, records := s.records - ids,
         ledger := s.ledger.(dropped := s.ledger.dropped + ids))
  }

  lemma DroppedSound(s: State, c: string)
    requires Sound(s)
    ensures Sound(Dropped(s, c))
    ensures AllOwned(s.pel) ==> AllOwned(Dropped(s, c).pel)
  {
    if c in s.consumers {
      var ids := s.consumers[c];
      assert ids <= s.pel.Keys;
      hide Coherent, Stored, Accounted;
      DropCoherent(s.pel, s.consumers, c);
      StoredWithout(s.pel, s.records, ids);
      DropAccounted(s.lastid, s.pel.Keys, s.ledger, ids);
      assert (s.pel - ids).Keys == s.pel.Keys - ids;
    }
  }

  // --------------------------------------------------------------------- place

  /** StreamUpdateNACK. */
  function Placed(s: State, id: StreamId, c: string, count: nat, time: int): State
  {
    s.(pel := s.pel[id := Nack(count, time, Owner(s.consumers, c))],
       consumers := Move(s.consumers, {id}, c),
       records := s.records[id := Record(c, count, time)])
  }

  lemma PlacedSound(s: State, id: StreamId, c: string, count: nat, time: int)
    requires Sound(s) && id in s.pel
    ensures Sound(Placed(s, id, c, count, time))
  {
    var owner := Owner(s.consumers, c);
    assert s.pel[id := Nack(count, time, owner)].Keys == s.pel.Keys;
    hide Coherent, Stored, Accounted, Move;
    MoveCoherent(s.pel, s.consumers, id, c, count, time);
    StoredSet(s.pel, s.records, id, count, time, owner, c);
  }

  /** A message delivered as new. */
  function Delivered(s: State, id: StreamId, c: string, noack: bool, time: int): State
  {
    var t := s.(lastid := id, stored := id, ledger := s.ledger.(news := s.ledger.news + [id]));
    if noack then t
    else Placed(t, id, c, 1, time).(ledger := t.ledger.(tracked := t.ledger.tracked + {id}))
  }

  lemma DeliveredSound(s: State, id: StreamId, c: string, noack: bool, time: int)
    requires Sound(s) && Lt(s.lastid, id)
    ensures id !in s.pel
    ensures Sound(Delivered(s, id, c, noack, time))
    ensures AllOwned(s.pel) && c in s.consumers ==> AllOwned(Delivered(s, id, c, noack, time).pel)
  {
    var owner := Owner(s.consumers, c);
    assert s.pel[id := Nack(1, time, owner)].Keys == s.pel.Keys + {id};
    hide Coherent, Stored, Accounted, Move;
    DeliverAccounted(s.lastid, s.pel.Keys, s.ledger, id, noack);
    MoveCoherent(s.pel, s.consumers, id, c, 1, time);
    StoredSet(s.pel, s.records, id, 1, time, owner, c);
  }

  function Joined(s: State, c: string): State
  {
    if c in s.consumers then s else s.(consumers := s.consumers[c := {}])
  }

  lemma JoinedSound(s: State, c: string)
    requires Sound(s)
    ensures Sound(Joined(s, c))
  {
    hide Stored, Accounted;
  }

  // --------------------------------------------------------------------- claim

  /** Whether an entry has been idle for as long as the claim asks. */
  predicate Idle(n: Nack, minidle: int, now: int)
  {
    minidle <= 0 || now - n.time >= minidle
  }

  function Claimable(pel: Pel, ids: set<StreamId>, minidle: int, now: int): set<StreamId>
  {
    set id | id in ids && id in pel && Idle(pel[id], minidle, now)
  }

  /** All of the entries change hands, counts unchanged, idle times reset. */
  function Claimed(s: State, ids: set<StreamId>, c: string, now: int): State
  {
    s.(pel := map id | id in s.pel :: if id in ids then Nack(s.pel[id].count, now, Owner(s.consumers, c)) else s.pel[id],
       consumers := Move(s.consumers, ids, c),
       records := map id | id in s.records ::
         if id in ids then Record(c, s.records[id].count, now) else s.records[id])
  }

  lemma ClaimedMore(s: State, a: set<StreamId>, id: StreamId, c: string, now: int)
    requires id in s.pel && id in s.records && s.records[id].count == s.pel[id].count
    ensures id in Claimed(s, a, c, now).pel
    ensures Placed(Claimed(s, a, c, now), id, c, s.pel[id].count, now) == Claimed(s, a + {id}, c, now)
  {
    MoveTwice(s.consumers, a, {id}, c);
    assert Move(s.consumers, a, c).Keys == s.consumers.Keys;
    hide Move;
    var t, u := Placed(Claimed(s, a, c, now), id, c, s.pel[id].count, now), Claimed(s, a + {id}, c, now);
    assert t.pel == u.pel;
    assert t.records == u.records;
  }

  lemma SoundEntry(s: State, id: StreamId)
    requires Sound(s) && id in s.pel
    ensures id in s.records && s.records[id].count == s.pel[id].count
  {
    hide Coherent, Accounted;
  }

  lemma ClaimedNone(s: State, c: string, now: int)
    ensures Claimed(s, {}, c, now) == s
  {
    MoveNothing(s.consumers, c);
    assert Claimed(s, {}, c, now).pel == s.pel && Claimed(s, {}, c, now).records == s.records;
  }

  lemma {:induction false} ClaimedSound(s: State, ids: set<StreamId>, c: string, now: int)
    requires Sound(s) && ids <= s.pel.Keys
    ensures Sound(Claimed(s, ids, c, now))
    decreases |ids|
  {
    hide Claimed, Sound, Placed;
    if ids == {} {
      ClaimedNone(s, c, now);
    } else {
      var id :| id in ids;
      var rest := ids - {id};
      ClaimedSound(s, rest, c, now);
      SoundEntry(s, id);
      ClaimedMore(s, rest, id, c, now);
      assert rest + {id} == ids;
      PlacedSound(Claimed(s, rest, c, now), id, c, s.pel[id].count, now);
    }
  }

  /** A claim keeps every entry owned exactly when the claimer is known or gets nothing. */
  lemma ClaimedOwned(s: State, ids: set<StreamId>, c: string, now: int)
    requires ids <= s.pel.Keys && AllOwned(s.pel)
    ensures AllOwned(Claimed(s, ids, c, now).pel) <==> c in s.consumers || ids == {}
  {
    hide Move;
    if c !in s.consumers && ids != {} {
      var id :| id in ids;
      assert Claimed(s, ids, c, now).pel[id].owner.None?;
    }
  }

  // -------------------------------------------------------------------- reload

  /** Eviction from the cache, then StreamLoadGroups. */
  function Reloaded(s: State, consumers: Consumers): State
  {
    s.(lastid := s.stored, pel := Rebuilt(s.records), consumers := consumers)
  }

  lemma RebuiltStored(pel: Pel, records: Records)
    requires Stored(pel, records)
    ensures Stored(Rebuilt(records), records) && Rebuilt(records).Keys == pel.Keys
  {
  }

  lemma ReloadedSound(s: State, consumers: Consumers)
    requires Sound(s) && Holders(s.records, consumers)
    ensures Sound(Reloaded(s, consumers))
    ensures AllOwned(s.pel) ==> Reloaded(s, consumers) == s.(consumers := Busy(s.consumers))
  {
    hide Coherent, Accounted, Holders, Busy, Stored, Rebuilt, AllOwned;
    RebuiltStored(s.pel, s.records);
    HoldersCoherent(s.records, consumers);
    ReloadSame(s.pel, s.consumers, s.records, consumers);
  }
}
