/** The consumer-group commands, each one atomic step over the group's fields. */
module StreamCommands {
  import opened Basics
  import opened StreamIds
  import opened StreamPending
  import opened StreamGroups

  /** IDs given before the first argument that is not one. */
  function Named(ids: seq<Option<StreamId>>): set<StreamId>
  {
    if ids == [] || ids[0].None? then {} else {ids[0].value} + Named(ids[1..])
  }

  lemma NamedEnd(ids: seq<Option<StreamId>>, i: nat)
    requires i == |ids| || (i < |ids| && ids[i].None?)
    ensures Named(ids[i..]) == {}
  {
  }

  lemma NamedStep(ids: seq<Option<StreamId>>, i: nat)
    requires i < |ids|
    ensures Named(ids[i..]) == if ids[i].None? then {} else {ids[i].value} + Named(ids[i + 1..])
  {
    assert ids[i..][1..] == ids[i + 1..];
  }

  predicate AllParse(ids: seq<Option<StreamId>>)
  {
    forall i :: 0 <= i < |ids| ==> ids[i].Some?
  }

  // ---------------------------------------------------------------- deliveries

  /** The elements from start on, in order. */
  function From(elems: seq<StreamId>, start: StreamId): seq<StreamId>
  {
    if elems == [] || Le(start, elems[0]) then elems else From(elems[1..], start)
  }

  /** Of a stream's elements, the ones from start on and no others. */
  lemma {:induction false} FromSuffix(elems: seq<StreamId>, start: StreamId)
    requires Increasing(elems)
    ensures Increasing(From(elems, start))
    ensures forall id :: id in From(elems, start) <==> id in elems && Le(start, id)
  {
    if elems != [] && !Le(start, elems[0]) {
      assert elems == [elems[0]] + elems[1..];
      FromSuffix(elems[1..], start);
    }
    if elems != [] && Le(start, elems[0]) {
      forall id | id in elems
        ensures Le(start, id)
      {
        var i :| 0 <= i < |elems| && elems[i] == id;
        assert i > 0 ==> Lt(elems[0], elems[i]);
      }
    }
  }

  function Limit(n: nat, count: int): (m: nat)
    ensures m <= n
  {
    if 0 < count < n then count else n
  }

  type Clock = nat -> int

  /** Messages delivered as new, one after the other. */
  function DeliverAll(s: State, ids: seq<StreamId>, c: string, noack: bool, clock: Clock): State
  {
    if ids == [] then s
    else
      var n := |ids| - 1;
      Delivered(DeliverAll(s, ids[..n], c, noack, clock), ids[n], c, noack, clock(n))
  }

  /** All of them are news, in order; those to be acknowledged are tracked; nothing else changes hands. */
  lemma {:induction false} DeliverAllNews(s: State, ids: seq<StreamId>, c: string, noack: bool, clock: Clock)
    ensures var t := DeliverAll(s, ids, c, noack, clock);
      && t.lastid == ([s.lastid] + ids)[|ids|] && t.consumers.Keys == s.consumers.Keys
      && t.ledger == s.ledger.(news := s.ledger.news + ids,
                               tracked := s.ledger.tracked + if noack then {} else set id | id in ids)
    decreases |ids|
  {
    if ids != [] {
      hide Delivered;
      var n := |ids| - 1;
      DeliverAllNews(s, ids[..n], c, noack, clock);
      DeliveredFields(DeliverAll(s, ids[..n], c, noack, clock), ids[n], c, noack, clock(n));
      assert ids == ids[..n] + [ids[n]];
    }
  }

  lemma DeliveredFields(s: State, id: StreamId, c: string, noack: bool, time: int)
    ensures var t := Delivered(s, id, c, noack, time);
      && t.lastid == id && t.consumers.Keys == s.consumers.Keys
      && t.ledger == s.ledger.(news := s.ledger.news + [id],
                               tracked := s.ledger.tracked + if noack then {} else {id})
  {
  }

  /** New messages above lastid keep the group sound. */
  lemma {:induction false} DeliverAllSound(s: State, ids: seq<StreamId>, c: string, noack: bool, clock: Clock)
    requires Sound(s) && Increasing([s.lastid] + ids) && c in s.consumers
    ensures Sound(DeliverAll(s, ids, c, noack, clock))
    ensures AllOwned(s.pel) ==> AllOwned(DeliverAll(s, ids, c, noack, clock).pel)
    decreases |ids|
  {
    if ids != [] {
      hide Sound, AllOwned, Delivered;
      var n := |ids| - 1;
      assert [s.lastid] + ids[..n] == ([s.lastid] + ids)[..|ids|];
      DeliverAllSound(s, ids[..n], c, noack, clock);
      DeliverAllNews(s, ids[..n], c, noack, clock);
      var t := DeliverAll(s, ids[..n], c, noack, clock);
      assert t.lastid == ([s.lastid] + ids)[n] && ids[n] == ([s.lastid] + ids)[n + 1];
      DeliveredSound(t, ids[n], c, noack, clock(n));
    }
  }

  /** Pending messages delivered again to their owner, one after the other. */
  function RedeliverAll(s: State, ids: seq<StreamId>, c: string, clock: Clock): State
  {
    if ids == [] then s
    else
      var n := |ids| - 1;
      var t := RedeliverAll(s, ids[..n], c, clock);
      if ids[n] in t.pel then Placed(t, ids[n], c, t.pel[ids[n]].count + 1, clock(n)) else t
  }

  /** Redelivery moves nothing. */
  lemma {:induction false} RedeliverAllSound(s: State, ids: seq<StreamId>, c: string, clock: Clock)
    requires Sound(s) && c in s.consumers && forall id :: id in ids ==> id in s.consumers[c]
    ensures var t := RedeliverAll(s, ids, c, clock);
      Sound(t) && t == s.(pel := t.pel, records := t.records) && t.pel.Keys == s.pel.Keys
    ensures AllOwned(s.pel) ==> AllOwned(RedeliverAll(s, ids, c, clock).pel)
    decreases |ids|
  {
    hide Sound, Placed, AllOwned;
    if ids != [] {
      var n := |ids| - 1;
      RedeliverAllSound(s, ids[..n], c, clock);
      RedeliverOne(RedeliverAll(s, ids[..n], c, clock), ids[n], c, clock(n));
    }
  }

  lemma RedeliverOne(s: State, id: StreamId, c: string, time: int)
    requires Sound(s) && c in s.consumers && id in s.consumers[c]
    ensures id in s.pel
    ensures var t := Placed(s, id, c, s.pel[id].count + 1, time);
      && Sound(t) && t == s.(pel := t.pel, records := t.records) && t.pel.Keys == s.pel.Keys
      && (AllOwned(s.pel) ==> AllOwned(t.pel))
  {
    hide Coherent, Stored, Accounted, Move;
    MoveSame(s.pel, s.consumers, id, c);
    var count := s.pel[id].count + 1;
    hide Sound;
    PlacedSound(s, id, c, count, time);
    assert s.pel[id := Nack(count, time, Some(c))].Keys == s.pel.Keys;
  }

  lemma MoveSame(pel: Pel, consumers: Consumers, id: StreamId, c: string)
    requires Coherent(pel, consumers) && c in consumers && id in consumers[c]
    ensures id in pel && Move(consumers, {id}, c) == consumers
  {
    forall d | d in consumers
      ensures Move(consumers, {id}, c)[d] == consumers[d]
    {
      if d == c {
        assert consumers[d] + {id} == consumers[d];
      } else {
        assert id !in consumers[d];
        assert consumers[d] - {id} == consumers[d];
      }
    }
  }

  lemma RedeliverStep(s: State, ids: seq<StreamId>, c: string, clock: Clock)
    requires ids != []
    ensures var n := |ids| - 1; var t := RedeliverAll(s, ids[..n], c, clock); var u := RedeliverAll(s, ids, c, clock);
      && u.consumers.Keys == t.consumers.Keys
      && (ids[n] in t.pel ==>
            var count := t.pel[ids[n]].count + 1;
            && u.pel == t.pel[ids[n] := Nack(count, clock(n), Owner(t.consumers, c))]
            && u.records == t.records[ids[n] := Record(c, count, clock(n))])
  {
  }

  /** One more delivery counted of each of the given entries, at the time it was made, and of no other. */
  ghost predicate Recounted(p: Pel, q: Pel, ids: seq<StreamId>, c: string, clock: Clock)
  {
    && q.Keys == p.Keys
    && (forall i :: 0 <= i < |ids| ==> ids[i] in p && q[ids[i]] == Nack(p[ids[i]].count + 1, clock(i), Some(c)))
    && (forall id :: id in p && id !in ids ==> q[id] == p[id])
  }

  lemma RecountedKeys(p: Pel, q: Pel, ids: seq<StreamId>, c: string, clock: Clock)
    requires Recounted(p, q, ids, c, clock)
    ensures q.Keys == p.Keys
  {
  }

  lemma RedeliverNone(s: State, c: string, clock: Clock)
    ensures RedeliverAll(s, [], c, clock) == s && Recounted(s.pel, s.pel, [], c, clock)
  {
  }

  lemma LastApart(ids: seq<StreamId>)
    requires Increasing(ids) && ids != []
    ensures var n := |ids| - 1; Increasing(ids[..n]) && ids == ids[..n] + [ids[n]] && ids[n] !in ids[..n]
  {
  }

  lemma RecountedMore(p: Pel, q: Pel, ids: seq<StreamId>, id: StreamId, c: string, clock: Clock)
    requires Recounted(p, q, ids, c, clock) && id in p && id !in ids
    ensures Recounted(p, q[id := Nack(q[id].count + 1, clock(|ids|), Some(c))], ids + [id], c, clock)
  {
  }

  lemma {:induction false} RedeliverAllCounts(s: State, ids: seq<StreamId>, c: string, clock: Clock)
    requires Increasing(ids) && c in s.consumers && forall id :: id in ids ==> id in s.pel
    ensures Recounted(s.pel, RedeliverAll(s, ids, c, clock).pel, ids, c, clock)
    ensures RedeliverAll(s, ids, c, clock).consumers.Keys == s.consumers.Keys
    decreases |ids|
  {
    hide Recounted, RedeliverAll, Increasing;
    if ids == [] {
      RedeliverNone(s, c, clock);
    } else {
      var n := |ids| - 1;
      LastApart(ids);
      RedeliverAllCounts(s, ids[..n], c, clock);
      RedeliverStep(s, ids, c, clock);
      RecountedKeys(s.pel, RedeliverAll(s, ids[..n], c, clock).pel, ids[..n], c, clock);
      RecountedMore(s.pel, RedeliverAll(s, ids[..n], c, clock).pel, ids[..n], ids[n], c, clock);
    }
  }

  // ------------------------------------------------------------------ commands

  /** No list but its owner's holds the entry. */
  ghost predicate Sole(pel: Pel, consumers: Consumers, id: StreamId)
  {
    forall c :: c in consumers && id in consumers[c] ==> id in pel && pel[id].owner == Some(c)
  }

  lemma SoundSole(s: State, id: StreamId)
    requires Sound(s)
    ensures Sole(s.pel, s.consumers, id)
  {
    hide Stored, Accounted;
  }

  /** Which messages a read asks for: those after an ID, those after the stream's last, or those
      never delivered. */
  datatype After = AfterId(id: StreamId) | AfterLast | NewOnly

  function Threshold(after: After, streamLast: StreamId, lastid: StreamId): StreamId
  {
    match after
    case AfterId(id) => id
    case AfterLast => streamLast
    case NewOnly => lastid
  }

  function Start(gt: StreamId): StreamId
  {
    Id(gt.ms, (gt.seqno + 1) % U64)
  }

  /** XREADGROUP, served at once, for one stream: nothing when the stream holds nothing later; the
      consumer's own pending entries when the read starts at or below lastid; new messages otherwise.
      The stream's elements and its last ID come from the store; bareFound tells whether the lookup
      made for a pending entry, which leaves out the ID, finds anything. */
  ghost predicate ReadStep(s: State, consumer: string, after: After, elems: seq<StreamId>, streamLast: StreamId,
                           count: int, noack: bool, bareFound: bool, clock: Clock, reply: seq<StreamId>, t: State)
  {
    var gt := Threshold(after, streamLast, s.lastid);
    var start, joined := Start(gt), Joined(s, consumer);
    if !Lt(gt, streamLast) then reply == [] && t == s
    else if Le(start, s.lastid) then
      && Pending(reply, joined.consumers[consumer], start)
      && t == (if bareFound then RedeliverAll(joined, reply, consumer, clock) else joined)
    else
      && reply == From(elems, start)[..Limit(|From(elems, start)|, count)]
      && t == DeliverAll(joined, reply, consumer, noack, clock)
  }

  /** Exactly a consumer's pending entries from start on, in order. */
  ghost predicate Pending(ids: seq<StreamId>, held: set<StreamId>, start: StreamId)
  {
    Increasing(ids) && forall id :: id in ids <==> id in held && Le(start, id)
  }

  /** The elements above an ID, in order. */
  function Above(elems: seq<StreamId>, id: StreamId): seq<StreamId>
  {
    if elems == [] || Lt(id, elems[0]) then elems else Above(elems[1..], id)
  }

  lemma {:induction false} AboveSuffix(elems: seq<StreamId>, id: StreamId)
    requires Increasing(elems)
    ensures forall x :: x in Above(elems, id) <==> x in elems && Lt(id, x)
    ensures Above(elems, id) != [] ==> Above(elems, id)[0] in Above(elems, id)
  {
    if elems != [] {
      assert elems == [elems[0]] + elems[1..];
      if Lt(id, elems[0]) {
        forall x | x in elems
          ensures Lt(id, x)
        {
          var i :| 0 <= i < |elems| && elems[i] == x;
          assert i > 0 ==> Lt(elems[0], elems[i]);
        }
      } else {
        AboveSuffix(elems[1..], id);
      }
    }
  }

  /** Reading from the ID after lastid reads what is above lastid, below the largest sequence number. */
  lemma {:induction false} FromAbove(elems: seq<StreamId>, lastid: StreamId)
    requires lastid.seqno < U64 - 1
    ensures From(elems, Start(lastid)) == Above(elems, lastid) && Lt(lastid, Start(lastid))
  {
    assert Start(lastid) == Id(lastid.ms, lastid.seqno + 1);
    if elems != [] {
      assert Le(Start(lastid), elems[0]) <==> Lt(lastid, elems[0]);
      FromAbove(elems[1..], lastid);
    }
  }

  /** A stream's elements are in order and none is above its last ID. */
  ghost predicate Stream(elems: seq<StreamId>, streamLast: StreamId)
  {
    Increasing(elems) && forall id :: id in elems ==> Le(id, streamLast)
  }

  /** The reply is the first elements never delivered, as many as asked for. */
  predicate AllNew(reply: seq<StreamId>, elems: seq<StreamId>, lastid: StreamId, count: int)
  {
    var unread := Above(elems, lastid);
    reply == unread[..Limit(|unread|, count)]
  }

  /** Where lastid has the largest sequence number, a read for new messages replies none, moves lastid
      nowhere and so leaves the group where the next such read does the same. */
  lemma NewOnlyStuck(s: State, consumer: string, elems: seq<StreamId>, streamLast: StreamId, count: int,
                     noack: bool, bareFound: bool, clock: Clock, reply: seq<StreamId>, t: State)
    requires Sound(s) && s.lastid.seqno == U64 - 1
    requires ReadStep(s, consumer, NewOnly, elems, streamLast, count, noack, bareFound, clock, reply, t)
    ensures forall id :: id in reply ==> Le(id, s.lastid)
    ensures t.ledger == s.ledger && t.lastid == s.lastid && Sound(t)
  {
    hide Sound, From, RedeliverAll, Increasing;
    var joined := Joined(s, consumer);
    JoinedSound(s, consumer);
    if Lt(s.lastid, streamLast) {
      assert Le(Start(s.lastid), s.lastid);
      forall id | id in joined.consumers[consumer]
        ensures Le(id, s.lastid)
      {
        HeldPending(joined, consumer, id);
        PendingBelowLast(joined);
      }
      RedeliverAllSound(joined, reply, consumer, clock);
    }
  }

  lemma HeldPending(s: State, c: string, id: StreamId)
    requires Sound(s) && c in s.consumers && id in s.consumers[c]
    ensures id in s.pel
  {
    hide Stored, Accounted;
  }

  /** A read for new messages replies the elements above lastid, as many as asked for, exactly when
      lastid's sequence number is not the largest, or nothing is later in the stream, or nothing is
      left of what was, while the consumer holds nothing of lastid's millisecond. */
  lemma NewOnlyComplete(s: State, consumer: string, elems: seq<StreamId>, streamLast: StreamId, count: int,
                        noack: bool, bareFound: bool, clock: Clock, reply: seq<StreamId>, t: State)
    requires Sound(s) && Stream(elems, streamLast)
    requires ReadStep(s, consumer, NewOnly, elems, streamLast, count, noack, bareFound, clock, reply, t)
    ensures AllNew(reply, elems, s.lastid, count) <==>
      || s.lastid.seqno < U64 - 1
      || !Lt(s.lastid, streamLast)
      || (Above(elems, s.lastid) == [] &&
          forall id :: id in Joined(s, consumer).consumers[consumer] ==> Lt(id, Id(s.lastid.ms, 0)))
    ensures s.lastid.seqno < U64 - 1 ==> t.ledger.news == s.ledger.news + reply
  {
    hide Sound, From, Above, RedeliverAll, DeliverAll, Increasing;
    var unread := Above(elems, s.lastid);
    AboveSuffix(elems, s.lastid);
    if !Lt(s.lastid, streamLast) {
      assert unread == [];
    } else if s.lastid.seqno < U64 - 1 {
      FromAbove(elems, s.lastid);
      DeliverAllNews(Joined(s, consumer), reply, consumer, noack, clock);
    } else {
      NewOnlyStuck(s, consumer, elems, streamLast, count, noack, bareFound, clock, reply, t);
      assert Start(s.lastid) == Id(s.lastid.ms, 0);
      NoneReplied(reply, Joined(s, consumer).consumers[consumer], Start(s.lastid));
      if unread != [] {
        assert Lt(s.lastid, unread[0]);
      }
    }
  }

  lemma NoneReplied(ids: seq<StreamId>, held: set<StreamId>, start: StreamId)
    requires Pending(ids, held, start)
    ensures ids == [] <==> forall id :: id in held ==> Lt(id, start)
    ensures ids != [] ==> ids[0] in ids
  {
    hide Increasing;
    if ids != [] {
      assert ids[0] in ids && ids[0] in held && Le(start, ids[0]);
    }
  }

  /** A new group at an ID with the largest sequence number: whoever reads for new messages gets
      none, though the stream holds one. */
  lemma NeverOffered(consumer: string, count: int, noack: bool, bareFound: bool, clock: Clock,
                     reply: seq<StreamId>, t: State)
    requires ReadStep(Created(Id(7, U64 - 1)), consumer, NewOnly, [Id(8, 0)], Id(8, 0), count, noack, bareFound,
                      clock, reply, t)
    ensures reply == [] && Above([Id(8, 0)], Id(7, U64 - 1)) == [Id(8, 0)] && t.lastid == Id(7, U64 - 1)
  {
    var s := Created(Id(7, U64 - 1));
    CreatedSound(s.lastid);
    NewOnlyStuck(s, consumer, [Id(8, 0)], Id(8, 0), count, noack, bareFound, clock, reply, t);
    assert Joined(s, consumer).consumers[consumer] == {};
    NoneReplied(reply, {}, Start(s.lastid));
  }

  lemma LeastExists(ids: set<StreamId>) returns (m: StreamId)
    requires ids != {}
    ensures m in ids && forall x :: x in ids ==> Le(m, x)
    decreases |ids|
  {
    m :| m in ids;
    var rest := ids - {m};
    if rest != {} {
      var l := LeastExists(rest);
      if Lt(l, m) {
        m := l;
      }
    }
    assert forall x :: x in ids ==> x in rest || x in ids - rest;
  }

  lemma AcknowledgeKeys(s: State, ids: set<StreamId>)
    ensures Acknowledge(s, ids).pel.Keys == s.pel.Keys - ids
  {
  }

  /** One more name among the keys. */
  lemma HitStep(done: set<StreamId>, keys: set<StreamId>, id: StreamId)
    ensures var hit, more := done * keys, (done + {id}) * keys;
      if id in keys - hit then more == hit + {id} && |more| == |hit| + 1 else more == hit
  {
    var hit, more := done * keys, (done + {id}) * keys;
    if id in keys - hit {
      assert more == hit + {id};
    } else {
      assert more == hit;
    }
  }

  lemma Regroup(done: set<StreamId>, id: StreamId, rest: set<StreamId>)
    ensures done + ({id} + rest) == done + {id} + rest
  {
  }

  lemma MoveAfterWithout(consumers: Consumers, id: StreamId, to: string)
    ensures Move(Without(consumers, {id}), {id}, to) == Move(consumers, {id}, to)
    ensures Without(consumers, {id}).Keys == consumers.Keys
    ensures forall c :: c in Without(consumers, {id}) ==> id !in Without(consumers, {id})[c]
  {
    forall c | c in consumers
      ensures Move(Without(consumers, {id}), {id}, to)[c] == Move(consumers, {id}, to)[c]
    {
      assert consumers[c] - {id} + {id} == consumers[c] + {id};
      assert consumers[c] - {id} - {id} == consumers[c] - {id};
    }
  }

  lemma ClaimableNone(pel: Pel, minidle: int, now: int)
    ensures Claimable(pel, {}, minidle, now) == {}
  {
  }

  /** An entry looked at again in the same claim is claimed again or too fresh, to the same effect. */
  lemma ClaimStep(s: State, done: set<StreamId>, id: StreamId, c: string, minidle: int, now: int)
    ensures var a := Claimable(s.pel, done, minidle, now); var t := Claimed(s, a, c, now);
      && t.pel.Keys == s.pel.Keys
      && (id in s.pel ==> t.pel[id].count == s.pel[id].count)
      && Claimable(s.pel, done + {id}, minidle, now) ==
           if id in t.pel && Idle(t.pel[id], minidle, now) then a + {id} else a
    ensures Claimable(s.pel, done, minidle, now) <= s.pel.Keys
  {
    hide Move;
  }

  lemma RedeliverAppend(s: State, ids: seq<StreamId>, id: StreamId, c: string, clock: Clock)
    ensures var t := RedeliverAll(s, ids, c, clock);
      id in t.pel ==> RedeliverAll(s, ids + [id], c, clock) == Placed(t, id, c, t.pel[id].count + 1, clock(|ids|))
  {
    assert (ids + [id])[..|ids|] == ids;
  }

  lemma DeliverAppend(s: State, ids: seq<StreamId>, id: StreamId, c: string, noack: bool, clock: Clock)
    ensures DeliverAll(s, ids + [id], c, noack, clock) == Delivered(DeliverAll(s, ids, c, noack, clock), id, c, noack, clock(|ids|))
  {
    assert (ids + [id])[..|ids|] == ids;
  }

  lemma DeliverNone(s: State, c: string, noack: bool, clock: Clock)
    ensures DeliverAll(s, [], c, noack, clock) == s
  {
  }

  lemma FirstAbove(lastid: StreamId, start: StreamId, ids: seq<StreamId>)
    requires Lt(lastid, start) && Increasing(ids) && forall id :: id in ids ==> Le(start, id)
    ensures Increasing([lastid] + ids)
  {
    if ids != [] {
      assert ids[0] in ids;
      PrependIncreases(lastid, ids);
    }
  }

  lemma StoredLast(s: State)
    requires Sound(s)
    ensures s.stored == s.lastid
  {
    hide Coherent, Stored, Accounted;
  }

  ghost predicate AllBelow(ids: seq<StreamId>, rest: set<StreamId>)
  {
    forall i, x :: 0 <= i < |ids| && x in rest ==> Lt(ids[i], x)
  }

  lemma AppendLeast(ids: seq<StreamId>, rest: set<StreamId>, m: StreamId)
    requires Increasing(ids) && AllBelow(ids, rest) && m in rest && forall x :: x in rest ==> Le(m, x)
    ensures Increasing(ids + [m]) && AllBelow(ids + [m], rest - {m})
  {
    forall x | x in rest - {m}
      ensures Lt(m, x)
    {
      assert Le(m, x) && m != x;
    }
  }

  lemma EraseMore<T>(m: map<StreamId, T>, held: set<StreamId>, left: set<StreamId>, id: StreamId)
    requires id in left && left <= held
    ensures m - (held - left) - {id} == m - (held - (left - {id}))
  {
    assert held - (left - {id}) == held - left + {id};
  }

  class Group {
    var lastid: StreamId
    var pel: Pel
    var consumers: Consumers
    var storedLast: StreamId
    var records: Records
    ghost var ledger: Ledger

    ghost function Now(): State
      reads this
    {
      State(lastid, pel, consumers, storedLast, records, ledger)
    }

    /** XGROUP CREATE. */
    constructor (id: StreamId)
      ensures Now() == Created(id) && Sound(Now())
    {
      lastid, pel, consumers := id, map[], map[];
      storedLast, records := id, map[];
      ledger := Ledger([], {}, {}, {});
    }

    /** StreamUpdateNACK: the entry goes from the list it is in to the given consumer's, if there is
        such a consumer, and its record is written under that name in any case. */
    method UpdateNack(consumer: string, id: StreamId, count: nat, time: int)
      requires Sole(pel, consumers, id)
      modifies this`pel, this`consumers, this`records
      ensures Now() == Placed(old(Now()), id, consumer, count, time)
    {
      var owner := if id in pel then pel[id].owner else None;
      ErasedThenPlaced(consumers, owner, id, consumer);
      if owner.Some? && owner.value != consumer {
        consumers := Erased(consumers, owner, id);
      }
      pel := pel[id := Nack(count, time, Owner(consumers, consumer))];
      if consumer in consumers {
        consumers := consumers[consumer := consumers[consumer] + {id}];
      }
      records := records[id := Record(consumer, count, time)];
    }

    /** XACK: None is an error reply, given after the IDs before the bad one were acknowledged. */
    method XAck(ids: seq<Option<StreamId>>) returns (reply: Option<nat>)
      requires Sound(Now())
      modifies this
      ensures Sound(Now())
      ensures var hit := Named(ids) * old(pel).Keys;
        && Now() == Acknowledge(old(Now()), hit)
        && reply == if AllParse(ids) then Some(|hit|) else None
    {
      hide Sound, Acknowledge, Named;
      var acknowledged, i := 0, 0;
      ghost var was, done: set<StreamId> := Now(), {};
      AcknowledgeMore(was, {}, {});
      assert ids[0..] == ids;
      while i < |ids| && ids[i].Some?
        invariant i <= |ids| && (forall k :: 0 <= k < i ==> ids[k].Some?)
        invariant Named(ids) == done + Named(ids[i..])
        invariant Sound(Now()) && acknowledged == |done * was.pel.Keys| && Now() == Acknowledge(was, done * was.pel.Keys)
      {
        NamedStep(ids, i);
        Regroup(done, ids[i].value, Named(ids[i + 1..]));
        acknowledged := AckOne(ids[i].value, acknowledged, was, done);
        done := done + {ids[i].value};
        i := i + 1;
      }
      NamedEnd(ids, i);
      assert Named(ids) == done;
      reply := if i < |ids| then None else Some(acknowledged);
    }

    /** One ID of the command, after those in done. */
    method AckOne(id: StreamId, acknowledged: nat, ghost was: State, ghost done: set<StreamId>) returns (n: nat)
      requires Sound(Now()) && acknowledged == |done * was.pel.Keys| && Now() == Acknowledge(was, done * was.pel.Keys)
      modifies this
      ensures var hit := (done + {id}) * was.pel.Keys; Sound(Now()) && n == |hit| && Now() == Acknowledge(was, hit)
    {
      AcknowledgeKeys(was, done * was.pel.Keys);
      hide Sound, Acknowledge;
      ghost var hit := done * was.pel.Keys;
      HitStep(done, was.pel.Keys, id);
      n := acknowledged;
      if id in pel {
        n := n + 1;
        Forget(id);
        AcknowledgeMore(was, hit, {id});
      }
    }

    /** One acknowledged entry leaves its record, its owner's list and the group's list. */
    method Forget(id: StreamId)
      requires Sound(Now()) && id in pel
      modifies this
      ensures Sound(Now()) && Now() == Acknowledge(old(Now()), {id}) && pel.Keys == old(pel).Keys - {id}
    {
      hide Sound, Without, Erased;
      SoundSole(Now(), id);
      AcknowledgeSound(Now(), {id});
      ErasedEverywhere(consumers, pel[id].owner, id);
      records := records - {id};
      consumers := Erased(consumers, pel[id].owner, id);
      pel := pel - {id};
      ledger := ledger.(acked := ledger.acked + {id});
    }

    /** Option-free XCLAIM: None is an error reply, given before anything is claimed. */
    method XClaim(consumer: string, minidle: Option<int>, ids: seq<Option<StreamId>>, now: int)
      returns (reply: Option<seq<StreamId>>)
      requires Sound(Now())
      modifies this
      ensures Sound(Now())
      ensures reply.Some? <==> minidle.Some? && AllParse(ids)
      ensures reply.None? ==> Now() == old(Now())
      ensures reply.Some? ==>
        var hit := Claimable(old(pel), Named(ids), minidle.value, now);
        Now() == Claimed(old(Now()), hit, consumer, now) && forall id :: id in reply.value <==> id in hit
    {
      hide Sound, Claimed, Named, Claimable;
      if minidle.None? || !AllParse(ids) {
        return None;
      }
      var out := [];
      ghost var done: set<StreamId> := {};
      ghost var hit := Claimable(pel, {}, minidle.value, now);
      ClaimedNone(Now(), consumer, now);
      ClaimableNone(pel, minidle.value, now);
      assert ids[0..] == ids;
      for i := 0 to |ids|
        invariant Named(ids) == done + Named(ids[i..])
        invariant hit == Claimable(old(pel), done, minidle.value, now)
        invariant Now() == Claimed(old(Now()), hit, consumer, now) && Sound(Now())
        invariant forall id :: id in out <==> id in hit
      {
        var id := ids[i].value;
        NamedStep(ids, i);
        assert done + ({id} + Named(ids[i + 1..])) == (done + {id}) + Named(ids[i + 1..]);
        ClaimStep(old(Now()), done, id, consumer, minidle.value, now);
        if id in pel && Idle(pel[id], minidle.value, now) {
          ClaimOne(consumer, id, now);
          SoundEntry(old(Now()), id);
          ClaimedMore(old(Now()), hit, id, consumer, now);
          out := out + [id];
          hit := hit + {id};
        }
        done := done + {id};
      }
      NamedEnd(ids, |ids|);
      assert done == Named(ids);
      reply := Some(out);
    }

    /** One entry taken from its owner and handed to the claimer, its idle time reset. */
    method ClaimOne(consumer: string, id: StreamId, now: int)
      requires Sound(Now()) && id in pel
      modifies this`pel, this`consumers, this`records
      ensures Sound(Now()) && Now() == Placed(old(Now()), id, consumer, old(pel[id].count), now)
    {
      hide Sound, Move, Without, Erased;
      SoundSole(Now(), id);
      PlacedSound(Now(), id, consumer, pel[id].count, now);
      ErasedEverywhere(consumers, pel[id].owner, id);
      MoveAfterWithout(consumers, id, consumer);
      consumers := Erased(consumers, pel[id].owner, id);
      UpdateNack(consumer, id, pel[id].count, now);
    }

    /** XGROUP DELCONSUMER: the reply is how many entries went with the consumer. */
    method DelConsumer(consumer: string) returns (reply: nat)
      requires Sound(Now())
      modifies this
      ensures Sound(Now()) && Now() == Dropped(old(Now()), consumer)
      ensures reply == if consumer in old(consumers) then |old(consumers)[consumer]| else 0
    {
      hide Sound;
      DroppedSound(Now(), consumer);
      if consumer !in consumers {
        return 0;
      }
      var held := consumers[consumer];
      reply := |held|;
      EraseEntries(held);
      consumers := consumers - {consumer};
      ledger := ledger.(dropped := ledger.dropped + held);
    }

    /** The entries leave the store and the group's list, one by one. */
    method EraseEntries(held: set<StreamId>)
      modifies this`pel, this`records
      ensures pel == old(pel) - held && records == old(records) - held
    {
      var left := held;
      while left != {}
        invariant left <= held
        invariant pel == old(pel) - (held - left) && records == old(records) - (held - left)
      {
        var id :| id in left;
        EraseMore(old(pel), held, left, id);
        EraseMore(old(records), held, left, id);
        records := records - {id};
        pel := pel - {id};
        left := left - {id};
      }
      assert held - left == held;
    }

    method XReadGroup(consumer: string, after: After, elems: seq<StreamId>, streamLast: StreamId,
                      count: int, noack: bool, bareFound: bool, clock: Clock)
      returns (reply: seq<StreamId>)
      requires Sound(Now()) && Increasing(elems)
      modifies this
      ensures Sound(Now())
      ensures ReadStep(old(Now()), consumer, after, elems, streamLast, count, noack, bareFound, clock, reply, Now())
    {
      hide Sound, From, RedeliverAll, DeliverAll, Pending;
      var gt := Threshold(after, streamLast, lastid);
      if !Lt(gt, streamLast) {
        return [];
      }
      var start := Start(gt);
      JoinedSound(Now(), consumer);
      if consumer !in consumers {
        consumers := consumers[consumer := {}];
      }
      if Le(start, lastid) {
        reply := ReadPending(consumer, start, bareFound, clock);
      } else {
        reply := ReadNew(consumer, start, elems, count, noack, clock);
      }
    }

    method ReadPending(consumer: string, start: StreamId, bareFound: bool, clock: Clock) returns (reply: seq<StreamId>)
      requires Sound(Now()) && consumer in consumers
      modifies this`pel, this`consumers, this`records
      ensures Sound(Now()) && Pending(reply, old(consumers)[consumer], start)
      ensures Now() == if bareFound then RedeliverAll(old(Now()), reply, consumer, clock) else old(Now())
    {
      hide Sound, RedeliverAll, Placed;
      RedeliverNone(Now(), consumer, clock);
      reply := [];
      var held := consumers[consumer];
      var left := set id | id in held && Le(start, id);
      while left != {}
        invariant forall id :: id in reply || id in left <==> id in held && Le(start, id)
        invariant Increasing(reply) && AllBelow(reply, left)
        invariant Sound(Now()) && consumers == old(consumers)
        invariant Now() == if bareFound then RedeliverAll(old(Now()), reply, consumer, clock) else old(Now())
      {
        ghost var m := LeastExists(left);
        var id :| id in left && forall x :: x in left ==> Le(id, x);
        if bareFound {
          Redeliver(consumer, id, clock(|reply|));
          RedeliverAppend(old(Now()), reply, id, consumer, clock);
        }
        AppendLeast(reply, left, id);
        left := left - {id};
        reply := reply + [id];
      }
    }

    method Redeliver(consumer: string, id: StreamId, time: int)
      requires Sound(Now()) && consumer in consumers && id in consumers[consumer]
      modifies this`pel, this`consumers, this`records
      ensures id in old(pel) && Sound(Now()) && consumers == old(consumers)
      ensures Now() == Placed(old(Now()), id, consumer, old(pel)[id].count + 1, time)
    {
      hide Sound;
      RedeliverOne(Now(), id, consumer, time);
      SoundSole(Now(), id);
      UpdateNack(consumer, id, pel[id].count + 1, time);
    }

    method ReadNew(consumer: string, start: StreamId, elems: seq<StreamId>, count: int, noack: bool, clock: Clock)
      returns (reply: seq<StreamId>)
      requires Sound(Now()) && consumer in consumers && Increasing(elems) && Lt(lastid, start)
      modifies this
      ensures Sound(Now())
      ensures reply == From(elems, start)[..Limit(|From(elems, start)|, count)]
      ensures Now() == DeliverAll(old(Now()), reply, consumer, noack, clock)
    {
      hide Sound, Delivered, From, DeliverAll;
      var later := From(elems, start);
      FromSuffix(elems, start);
      FirstAbove(lastid, start, later);
      DeliverNone(Now(), consumer, noack, clock);
      StoredLast(Now());
      reply := [];
      var i := 0;
      while i < |later| && (count <= 0 || i < count)
        invariant i <= |later| && reply == later[..i] && (count > 0 ==> i <= count)
        invariant lastid == ([old(lastid)] + later)[i] && storedLast == old(storedLast) && consumer in consumers
        invariant Settled() == DeliverAll(old(Now()), reply, consumer, noack, clock)
        invariant Sound(Settled())
      {
        assert ([old(lastid)] + later)[i + 1] == later[i];
        Deliver(consumer, later[i], noack, clock(i));
        DeliverAppend(old(Now()), reply, later[i], consumer, noack, clock);
        reply := reply + [later[i]];
        i := i + 1;
      }
      if i > 0 {
        storedLast := lastid;
      }
    }

    /** The group as it stands once lastid is written out. */
    ghost function Settled(): State
      reads this
    {
      Now().(stored := lastid)
    }

    method Deliver(consumer: string, id: StreamId, noack: bool, time: int)
      requires Sound(Settled()) && Lt(lastid, id) && consumer in consumers
      modifies this`lastid, this`pel, this`consumers, this`records, this`ledger
      ensures Sound(Settled()) && Settled() == Delivered(old(Settled()), id, consumer, noack, time)
      ensures lastid == id && consumer in consumers
    {
      hide Sound;
      SoundSole(Settled(), id);
      DeliveredSound(Settled(), id, consumer, noack, time);
      if Compare(id, lastid) > 0 {
        lastid := id;
      }
      ledger := ledger.(news := ledger.news + [id]);
      if !noack {
        UpdateNack(consumer, id, 1, time);
        ledger := ledger.(tracked := ledger.tracked + {id});
      }
    }

    /** Eviction from the cache, then a load from the store. */
    method Reload()
      requires Sound(Now())
      modifies this
      ensures Sound(Now()) && Holders(records, consumers) && Now() == Reloaded(old(Now()), consumers)
      ensures AllOwned(old(pel)) ==> Now() == old(Now()).(consumers := Busy(old(consumers)))
    {
      hide Sound, Holders, Rebuilt, Busy;
      lastid, pel, consumers := LoadGroup(storedLast, records);
      ReloadedSound(old(Now()), consumers);
    }
  }
}
