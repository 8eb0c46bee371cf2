/** Runs of group commands, with evictions in between. */
module StreamRuns {
  import opened Basics
  import opened StreamIds
  import opened StreamPending
  import opened StreamGroups
  import opened StreamCommands

  datatype Command =
    | Read(consumer: string, after: After, elems: seq<StreamId>, streamLast: StreamId,
           count: int, noack: bool, bareFound: bool, clock: Clock)
    | Ack(ids: seq<Option<StreamId>>)
    | Claim(claimer: string, minidle: Option<int>, wanted: seq<Option<StreamId>>, now: int)
    | DropConsumer(name: string)
    | Evict

  /** A stream's elements are read in order. */
  ghost predicate Legal(cmd: Command)
  {
    cmd.Read? ==> Increasing(cmd.elems)
  }

  /** A claim that succeeds for a consumer the group does not know. */
  ghost predicate Stray(s: State, cmd: Command)
  {
    && cmd.Claim? && cmd.claimer !in s.consumers && cmd.minidle.Some? && AllParse(cmd.wanted)
    && Claimable(s.pel, Named(cmd.wanted), cmd.minidle.value, cmd.now) != {}
  }

  ghost predicate Step(s: State, cmd: Command, t: State)
  {
    match cmd
    case Read(consumer, after, elems, streamLast, count, noack, bareFound, clock) =>
      exists reply :: ReadStep(s, consumer, after, elems, streamLast, count, noack, bareFound, clock, reply, t)
    case Ack(ids) => t == Acknowledge(s, Named(ids) * s.pel.Keys)
    case Claim(claimer, minidle, wanted, now) =>
      t == if minidle.Some? && AllParse(wanted)
           then Claimed(s, Claimable(s.pel, Named(wanted), minidle.value, now), claimer, now) else s
    case DropConsumer(name) => t == Dropped(s, name)
    case Evict => Holders(s.records, t.consumers) && t == Reloaded(s, t.consumers)
  }

  /** The ledger forgets nothing. */
  ghost predicate Grows(l: Ledger, m: Ledger)
  {
    l.news <= m.news && l.tracked <= m.tracked && l.acked <= m.acked && l.dropped <= m.dropped
  }

  method Perform(g: Group, cmd: Command)
    requires Sound(g.Now()) && Legal(cmd)
    modifies g
    ensures Step(old(g.Now()), cmd, g.Now())
  {
    hide Sound, ReadStep, Acknowledge, Claimed, Dropped, Named, Claimable;
    match cmd
    case Read(consumer, after, elems, streamLast, count, noack, bareFound, clock) =>
      var reply := g.XReadGroup(consumer, after, elems, streamLast, count, noack, bareFound, clock);
    case Ack(ids) =>
      var reply := g.XAck(ids);
    case Claim(claimer, minidle, wanted, now) =>
      var reply := g.XClaim(claimer, minidle, wanted, now);
    case DropConsumer(name) =>
      var reply := g.DelConsumer(name);
    case Evict =>
      g.Reload();
  }

  lemma ReadSound(s: State, consumer: string, after: After, elems: seq<StreamId>, streamLast: StreamId,
                  count: int, noack: bool, bareFound: bool, clock: Clock, reply: seq<StreamId>, t: State)
    requires Sound(s) && Increasing(elems)
    requires ReadStep(s, consumer, after, elems, streamLast, count, noack, bareFound, clock, reply, t)
    ensures Sound(t) && Grows(s.ledger, t.ledger)
    ensures AllOwned(s.pel) ==> AllOwned(t.pel)
  {
    hide Sound, AllOwned, DeliverAll, RedeliverAll, From;
    var gt := Threshold(after, streamLast, s.lastid);
    var start, joined := Start(gt), Joined(s, consumer);
    JoinedSound(s, consumer);
    if Lt(gt, streamLast) {
      if Le(start, s.lastid) {
        RedeliverAllSound(joined, reply, consumer, clock);
      } else {
        FromSuffix(elems, start);
        FirstAbove(s.lastid, start, reply);
        DeliverAllSound(joined, reply, consumer, noack, clock);
        DeliverAllNews(joined, reply, consumer, noack, clock);
      }
    }
  }

  lemma AllGrow(s: State, ids: set<StreamId>, c: string, now: int)
    ensures Grows(s.ledger, Acknowledge(s, ids).ledger)
    ensures Grows(s.ledger, Claimed(s, ids, c, now).ledger)
    ensures Grows(s.ledger, Dropped(s, c).ledger)
  {
    hide Move, Without;
  }

  lemma ClaimableBound(pel: Pel, ids: set<StreamId>, minidle: int, now: int)
    ensures Claimable(pel, ids, minidle, now) <= pel.Keys
  {
  }

  /** Every command keeps the group sound and only adds news; every entry keeps an owner unless the
      command is a claim that succeeds for a consumer the group does not know. */
  lemma StepSound(s: State, cmd: Command, t: State)
    requires Sound(s) && Legal(cmd) && Step(s, cmd, t)
    ensures Sound(t) && Grows(s.ledger, t.ledger)
    ensures AllOwned(s.pel) ==> (AllOwned(t.pel) <==> !Stray(s, cmd))
  {
    hide Sound, AllOwned, ReadStep, Acknowledge, Claimed, Named, Claimable, Dropped;
    match cmd
    case Read(consumer, after, elems, streamLast, count, noack, bareFound, clock) =>
      var reply :| ReadStep(s, consumer, after, elems, streamLast, count, noack, bareFound, clock, reply, t);
      ReadSound(s, consumer, after, elems, streamLast, count, noack, bareFound, clock, reply, t);
    case Ack(ids) =>
      AcknowledgeSound(s, Named(ids) * s.pel.Keys);
      AllGrow(s, Named(ids) * s.pel.Keys, "", 0);
    case Claim(claimer, minidle, wanted, now) =>
      if minidle.Some? && AllParse(wanted) {
        var hit := Claimable(s.pel, Named(wanted), minidle.value, now);
        ClaimableBound(s.pel, Named(wanted), minidle.value, now);
        ClaimedSound(s, hit, claimer, now);
        AllGrow(s, hit, claimer, now);
        if AllOwned(s.pel) {
          ClaimedOwned(s, hit, claimer, now);
        }
      }
    case DropConsumer(name) =>
      DroppedSound(s, name);
      AllGrow(s, {}, name, 0);
    case Evict =>
      ReloadedSound(s, t.consumers);
  }

  ghost predicate Run(id: StreamId, cmds: seq<Command>, trace: seq<State>)
  {
    && |trace| == |cmds| + 1 && trace[0] == Created(id)
    && forall i :: 0 <= i < |cmds| ==> Legal(cmds[i]) && Step(trace[i], cmds[i], trace[i + 1])
  }

  /** Over every run: after each command the indexes agree, the store mirrors them and all deliveries
      are accounted for; nothing already delivered is forgotten. */
  lemma {:induction false} RunSound(id: StreamId, cmds: seq<Command>, trace: seq<State>, n: nat)
    requires Run(id, cmds, trace) && n <= |cmds|
    ensures Sound(trace[n])
    ensures forall i :: 0 <= i <= n ==> Grows(trace[i].ledger, trace[n].ledger)
  {
    hide Sound, Step;
    if n == 0 {
      CreatedSound(id);
    } else {
      RunSound(id, cmds, trace, n - 1);
      assert Step(trace[n - 1], cmds[n - 1], trace[n - 1 + 1]);
      StepSound(trace[n - 1], cmds[n - 1], trace[n]);
    }
  }

  /** In a run without stray claims, eviction and reload give back the same group, up to consumers
      with nothing pending; the first stray claim ends this. */
  lemma {:induction false} RunReloads(id: StreamId, cmds: seq<Command>, trace: seq<State>, n: nat)
    requires Run(id, cmds, trace) && n <= |cmds|
    requires forall i :: 0 <= i < n ==> !Stray(trace[i], cmds[i])
    ensures AllOwned(trace[n].pel)
    ensures forall consumers :: Holders(trace[n].records, consumers) ==>
      Reloaded(trace[n], consumers) == trace[n].(consumers := Busy(trace[n].consumers))
    ensures n < |cmds| && Stray(trace[n], cmds[n]) ==> !AllOwned(trace[n + 1].pel)
  {
    hide Sound, Step, Stray, AllOwned, Holders, Reloaded, Busy;
    RunSound(id, cmds, trace, n);
    if n == 0 {
      CreatedSound(id);
    } else {
      RunReloads(id, cmds, trace, n - 1);
      RunSound(id, cmds, trace, n - 1);
      assert Step(trace[n - 1], cmds[n - 1], trace[n - 1 + 1]);
      StepSound(trace[n - 1], cmds[n - 1], trace[n]);
    }
    forall consumers | Holders(trace[n].records, consumers)
      ensures Reloaded(trace[n], consumers) == trace[n].(consumers := Busy(trace[n].consumers))
    {
      ReloadedSound(trace[n], consumers);
    }
    if n < |cmds| {
      StepSound(trace[n], cmds[n], trace[n + 1]);
    }
  }

  /** A claim for an unknown consumer leaves an entry that no consumer lists; a reload would list it. */
  lemma StrayClaim() returns (s: State, cmd: Command, t: State)
    ensures Sound(s) && AllOwned(s.pel) && Stray(s, cmd) && Step(s, cmd, t)
    ensures Rebuilt(t.records) != t.pel
  {
    var id := Id(1, 1);
    s := Delivered(Joined(Created(ZERO), "a"), id, "a", false, 0);
    CreatedSound(ZERO);
    JoinedSound(Created(ZERO), "a");
    DeliveredSound(Joined(Created(ZERO), "a"), id, "a", false, 0);
    assert s.pel == map[id := Nack(1, 0, Some("a"))] && s.records == map[id := Record("a", 1, 0)];
    assert s.consumers.Keys == {"a"};
    cmd := Claim("b", Some(0), [Some(id)], 5);
    assert id in Claimable(s.pel, Named([Some(id)]), 0, 5);
    t := Claimed(s, Claimable(s.pel, Named([Some(id)]), 0, 5), "b", 5);
    assert "b" !in s.consumers;
    assert t.pel[id].owner.None? && Rebuilt(t.records)[id].owner.Some?;
  }
}
