/** Clients that wait for keys: each key's wait set, each client's own table of keys, and the keys that
    became ready. */
module Blocked {

  type Key = string

  /** A client, known by its number. */
  type Client = nat

  type Waits = map<Key, set<Client>>
  type Tables = map<Client, set<Key>>
  type Pair = (Client, Key)

  function WaitingOn(waits: Waits, k: Key): set<Client>
  {
    if k in waits then waits[k] else {}
  }

  function KeysOf(tables: Tables, c: Client): set<Key>
  {
    if c in tables then tables[c] else {}
  }

  /** A client is in a key's wait set exactly when its own table has the key and it has not been served
      for it since it blocked. */
  ghost predicate Coherent(waits: Waits, tables: Tables, served: set<Pair>)
  {
    forall c, k :: c in WaitingOn(waits, k) <==> k in KeysOf(tables, c) && (c, k) !in served
  }

  function Elems(keys: seq<Key>): set<Key>
  {
    set k | k in keys
  }

  ghost function Pairs(c: Client, keys: seq<Key>): set<Pair>
  {
    set k | k in keys :: (c, k)
  }

  /** The wait sets after a client joined those of some keys, one after the other. */
  function Joining(waits: Waits, c: Client, keys: seq<Key>): Waits
  {
    if keys == [] then waits
    else
      var n := |keys| - 1;
      var w := Joining(waits, c, keys[..n]);
      w[keys[n] := WaitingOn(w, keys[n]) + {c}]
  }

  /** It then waits for all of them, and no one else waits for more. */
  lemma {:induction false} JoiningMeans(waits: Waits, c: Client, keys: seq<Key>)
    ensures forall k :: WaitingOn(Joining(waits, c, keys), k) == WaitingOn(waits, k) + if k in keys then {c} else {}
  {
    if keys != [] {
      var n := |keys| - 1;
      JoiningMeans(waits, c, keys[..n]);
      assert keys == keys[..n] + [keys[n]];
    }
  }

  lemma Twice<K, V>(m: map<K, V>, k: K, a: V, b: V)
    ensures m[k := a][k := b] == m[k := b]
  {
  }

  lemma JoiningOne(waits: Waits, c: Client, k: Key)
    ensures Joining(waits, c, [k]) == waits[k := WaitingOn(waits, k) + {c}]
  {
    assert [k][..0] == [];
  }

  lemma ElemsOne(k: Key)
    ensures Elems([k]) == {k}
  {
  }

  lemma NoKeys(c: Client)
    ensures Elems([]) == {} && Pairs(c, []) == {}
  {
  }

  lemma ElemsStep(c: Client, keys: seq<Key>, i: nat)
    requires i < |keys|
    ensures keys[..i + 1][..i] == keys[..i]
    ensures Elems(keys[..i + 1]) == Elems(keys[..i]) + {keys[i]}
    ensures Pairs(c, keys[..i + 1]) == Pairs(c, keys[..i]) + {(c, keys[i])}
  {
    assert keys[..i + 1] == keys[..i] + [keys[i]];
  }

  lemma Joined(waits: Waits, tables: Tables, served: set<Pair>, c: Client, k: Key)
    requires Coherent(waits, tables, served) && c in tables
    ensures Coherent(waits[k := WaitingOn(waits, k) + {c}], tables[c := tables[c] + {k}], served - {(c, k)})
  {
    var w, t, s := waits[k := WaitingOn(waits, k) + {c}], tables[c := tables[c] + {k}], served - {(c, k)};
    forall d, j
      ensures d in WaitingOn(w, j) <==> j in KeysOf(t, d) && (d, j) !in s
    {
      assert d in WaitingOn(waits, j) <==> j in KeysOf(tables, d) && (d, j) !in served;
    }
  }

  lemma Left(waits: Waits, after: Waits, tables: Tables, served: set<Pair>, c: Client)
    requires Coherent(waits, tables, served)
    requires forall k :: WaitingOn(after, k) == WaitingOn(waits, k) - if k in KeysOf(tables, c) then {c} else {}
    ensures Coherent(after, tables - {c}, served)
    ensures forall k :: WaitingOn(after, k) == WaitingOn(waits, k) - {c}
  {
    forall k
      ensures WaitingOn(after, k) == WaitingOn(waits, k) - {c}
    {
      assert c in WaitingOn(waits, k) ==> k in KeysOf(tables, c);
    }
    forall d, k
      ensures d in WaitingOn(after, k) <==> k in KeysOf(tables - {c}, d) && (d, k) !in served
    {
      assert d in WaitingOn(waits, k) <==> k in KeysOf(tables, d) && (d, k) !in served;
    }
  }

  lemma ServedOne(waits: Waits, tables: Tables, served: set<Pair>, c: Client, k: Key)
    requires Coherent(waits, tables, served) && k in waits && c in waits[k]
    ensures Coherent(waits[k := waits[k] - {c}], tables, served + {(c, k)}) && c in tables && (c, k) !in served
  {
    assert c in WaitingOn(waits, k);
    forall d, j
      ensures d in WaitingOn(waits[k := waits[k] - {c}], j) <==> j in KeysOf(tables, d) && (d, j) !in served + {(c, k)}
    {
      assert d in WaitingOn(waits, j) <==> j in KeysOf(tables, d) && (d, j) !in served;
    }
  }

  /** The clients of a wait set that are served go, the others stay. */
  function Unserved(clients: set<Client>, k: Key, serves: Pair -> bool): set<Client>
  {
    set c | c in clients && !serves((c, k))
  }

  /** The wait sets after the given keys were served. */
  function Woken(waits: Waits, keys: set<Key>, serves: Pair -> bool): Waits
  {
    map k | k in waits :: if k in keys then Unserved(waits[k], k, serves) else waits[k]
  }

  class Index {
    var waits: Waits
    var tables: Tables
    var ready: set<Key>
    /** Whom the wake-ups served for which key since the client blocked. */
    ghost var served: set<Pair>

    ghost predicate Valid()
      reads this
    {
      Coherent(waits, tables, served)
    }

    constructor ()
      ensures Valid() && waits == map[] && tables == map[] && ready == {}
    {
      waits, tables, ready, served := map[], map[], {}, {};
    }

    /** BlockForKeys: the client joins the wait set of every key. */
    method Block(c: Client, keys: seq<Key>)
      requires Valid()
      modifies this
      ensures Valid() && ready == old(ready) && waits == Joining(old(waits), c, keys)
      ensures tables == old(tables)[c := KeysOf(old(tables), c) + Elems(keys)]
      ensures served == old(served) - Pairs(c, keys)
    {
      Opened(waits, tables, served, c);
      hide Coherent, Elems, Pairs, KeysOf;
      NoKeys(c);
      var mine := KeysOf(tables, c);
      tables := tables[c := mine];
      assert keys[..0] == [] && mine + {} == mine;
      for i := 0 to |keys|
        invariant Valid() && ready == old(ready) && waits == Joining(old(waits), c, keys[..i])
        invariant tables == old(tables)[c := mine + Elems(keys[..i])]
        invariant served == old(served) - Pairs(c, keys[..i])
      {
        ElemsStep(c, keys, i);
        assert mine + Elems(keys[..i]) + {keys[i]} == mine + (Elems(keys[..i]) + {keys[i]});
        Twice(old(tables), c, mine + Elems(keys[..i]), mine + Elems(keys[..i + 1]));
        Joined(waits, tables, served, c, keys[i]);
        tables := tables[c := tables[c] + {keys[i]}];
        waits := waits[keys[i] := WaitingOn(waits, keys[i]) + {c}];
        served := served - {(c, keys[i])};
      }
      assert keys[..|keys|] == keys;
    }

    /** UnblockKeys: the client leaves every wait set of its table, and emptied wait sets go. Its table
        is cleared unless there was no wait set at all. */
    method Unblock(c: Client)
      requires Valid()
      modifies this
      ensures Valid() && ready == old(ready) && served == old(served)
      ensures tables == if old(waits) == map[] then old(tables) else old(tables) - {c}
      ensures forall k :: WaitingOn(waits, k) == WaitingOn(old(waits), k) - {c}
      ensures forall k :: k in waits <==> k in old(waits) && (k in KeysOf(old(tables), c) ==> old(waits)[k] - {c} != {})
    {
      hide Coherent;
      if c in tables && waits != map[] {
        LeaveAll(c, tables[c]);
        Left(old(waits), waits, tables, served, c);
        tables := tables - {c};
      } else {
        NotWaiting(waits, tables, served, c);
      }
    }

    method LeaveAll(c: Client, keys: set<Key>)
      modifies this`waits
      ensures forall k :: WaitingOn(waits, k) == WaitingOn(old(waits), k) - if k in keys then {c} else {}
      ensures forall k :: k in waits <==> k in old(waits) && (k in keys ==> old(waits)[k] - {c} != {})
    {
      var left := keys;
      while left != {}
        invariant left <= keys
        invariant forall k :: WaitingOn(waits, k) == WaitingOn(old(waits), k) - if k in keys - left then {c} else {}
        invariant forall k :: k in waits <==> k in old(waits) && (k in keys - left ==> old(waits)[k] - {c} != {})
      {
        var k :| k in left;
        if k in waits {
          var rest := waits[k] - {c};
          assert WaitingOn(waits, k) == waits[k] == old(waits)[k];
          waits := if rest == {} then waits - {k} else waits[k := rest];
        }
        left := left - {k};
      }
    }

    /** SignalKeyAsReady: only keys with a wait set are noted. */
    method Signal(k: Key) returns (noted: bool)
      requires Valid()
      modifies this`ready
      ensures noted <==> k in waits
      ensures ready == if noted then old(ready) + {k} else old(ready)
    {
      noted := k in waits;
      if noted {
        ready := ready + {k};
      }
    }

    /** WakeClientsBlockingOnKeys: whoever waits for a ready key and can be served leaves its wait set,
        all others stay. */
    method Wake(serves: Pair -> bool)
      requires Valid()
      modifies this`waits, this`ready, this`served
      ensures Valid() && ready == {} && waits == Woken(old(waits), old(ready), serves)
      ensures forall c, k :: (c, k) in served <==>
                (c, k) in old(served) || (k in old(ready) && c in WaitingOn(old(waits), k) && serves((c, k)))
    {
      hide Coherent;
      var keys := ready;
      ready := {};
      var left := keys;
      while left != {}
        invariant left <= keys && Valid() && ready == {} && waits == Woken(old(waits), keys - left, serves)
        invariant forall c, k :: (c, k) in served <==>
                    (c, k) in old(served) || (k in keys - left && c in WaitingOn(old(waits), k) && serves((c, k)))
      {
        var k :| k in left;
        if k in waits {
          WakeKey(k, serves);
        }
        left := left - {k};
      }
      assert keys - left == keys;
    }

    /** The walk over one wait set. It goes on only past clients that have a table; coherence says that
        all have one, so it ends. */
    method WakeKey(k: Key, serves: Pair -> bool)
      requires Valid() && k in waits
      modifies this`waits, this`served
      ensures Valid() && k in waits && waits == old(waits)[k := Unserved(old(waits)[k], k, serves)]
      ensures served == old(served) + ServedOf(old(waits)[k], k, serves)
    {
      hide Coherent, Unserved, ServedOf, StillIn, Passed;
      var all := waits[k];
      var left := all;
      WalkStart(all, k, serves);
      while left != {}
        invariant Valid() && left <= all && k in waits && waits == old(waits)[k := StillIn(all, left, k, serves)]
        invariant served == old(served) + Passed(all, left, k, serves)
        decreases |left|
      {
        var c :| c in left;
        WalkStep(all, left, c, k, serves);
        ServedOne(waits, tables, served, c, k);
        if c in tables {
          if serves((c, k)) {
            waits := waits[k := waits[k] - {c}];
            served := served + {(c, k)};
          }
          left := left - {c};
        }
      }
      WalkEnd(all, k, serves);
    }
  }

  /** What is left of a wait set on a walk that has `left` before it, and who was served. */
  ghost function StillIn(all: set<Client>, left: set<Client>, k: Key, serves: Pair -> bool): set<Client>
  {
    left + Unserved(all - left, k, serves)
  }

  ghost function Passed(all: set<Client>, left: set<Client>, k: Key, serves: Pair -> bool): set<Pair>
  {
    ServedOf(all - left, k, serves)
  }

  lemma WalkStart(all: set<Client>, k: Key, serves: Pair -> bool)
    ensures StillIn(all, all, k, serves) == all && Passed(all, all, k, serves) == {}
  {
  }

  lemma WalkStep(all: set<Client>, left: set<Client>, c: Client, k: Key, serves: Pair -> bool)
    requires c in left && left <= all
    ensures c in StillIn(all, left, k, serves)
    ensures StillIn(all, left - {c}, k, serves) ==
            if serves((c, k)) then StillIn(all, left, k, serves) - {c} else StillIn(all, left, k, serves)
    ensures Passed(all, left - {c}, k, serves) ==
            if serves((c, k)) then Passed(all, left, k, serves) + {(c, k)} else Passed(all, left, k, serves)
  {
    assert all - (left - {c}) == all - left + {c};
  }

  lemma WalkEnd(all: set<Client>, k: Key, serves: Pair -> bool)
    ensures StillIn(all, {}, k, serves) == Unserved(all, k, serves) && Passed(all, {}, k, serves) == ServedOf(all, k, serves)
  {
    assert all - {} == all;
  }

  ghost function ServedOf(clients: set<Client>, k: Key, serves: Pair -> bool): set<Pair>
  {
    set c | c in clients && serves((c, k)) :: (c, k)
  }

  lemma Opened(waits: Waits, tables: Tables, served: set<Pair>, c: Client)
    requires Coherent(waits, tables, served)
    ensures var t := tables[c := KeysOf(tables, c)];
      Coherent(waits, t, served) && forall d :: KeysOf(t, d) == KeysOf(tables, d)
  {
    var t := tables[c := KeysOf(tables, c)];
    forall d, k
      ensures d in WaitingOn(waits, k) <==> k in KeysOf(t, d) && (d, k) !in served
    {
      assert d in WaitingOn(waits, k) <==> k in KeysOf(tables, d) && (d, k) !in served;
    }
  }

  /** Without a table, or without wait sets, a client waits for nothing. */
  lemma NotWaiting(waits: Waits, tables: Tables, served: set<Pair>, c: Client)
    requires Coherent(waits, tables, served) && (c !in tables || waits == map[])
    ensures forall k :: WaitingOn(waits, k) == WaitingOn(waits, k) - {c}
  {
    forall k
      ensures c !in WaitingOn(waits, k)
    {
      assert c in WaitingOn(waits, k) ==> k in KeysOf(tables, c);
    }
  }

  // ------------------------------------------------------------------ runs

  datatype Op = BlockOp(c: Client, keys: seq<Key>) | UnblockOp(c: Client) | SignalOp(k: Key) | WakeOp(serves: Pair -> bool)

  method Perform(x: Index, op: Op)
    requires x.Valid()
    modifies x
    ensures x.Valid()
    ensures op.WakeOp? ==> x.tables == old(x.tables) && x.ready == {}
  {
    hide Coherent;
    match op
    case BlockOp(c, keys) => x.Block(c, keys);
    case UnblockOp(c) => x.Unblock(c);
    case SignalOp(k) => var _ := x.Signal(k);
    case WakeOp(serves) => x.Wake(serves);
  }

  /** Over every run the wait sets and the clients' tables agree. */
  method Run(x: Index, ops: seq<Op>)
    requires x.Valid()
    modifies x
    ensures x.Valid()
  {
    hide Coherent;
    for i := 0 to |ops|
      invariant x.Valid()
    {
      Perform(x, ops[i]);
    }
  }

  /** Two clients wait for one key and both are served. */
  method BothServed(k: Key) returns (x: Index)
    ensures x.Valid() && fresh(x) && x.waits == map[k := {}] && x.tables == map[1 := {k}, 2 := {k}]
  {
    hide Coherent, Joining, Elems;
    x := new Index();
    ElemsOne(k);
    JoiningOne(x.waits, 1, k);
    x.Block(1, [k]);
    assert {} + {1} == {1} && {} + {k} == {k};
    assert x.waits == map[k := {1}] && x.tables == map[1 := {k}];
    JoiningOne(x.waits, 2, k);
    x.Block(2, [k]);
    assert {1} + {2} == {1, 2};
    assert x.waits == map[k := {1, 2}];
    var _ := x.Signal(k);
    var all := (p: Pair) => true;
    x.Wake(all);
    assert Unserved({1, 2}, k, all) == {};
  }

  /** The first of them to unblock takes away the last wait set, and the second then keeps its table. */
  method StaleTable(k: Key) returns (x: Index)
    ensures x.Valid() && x.waits == map[] && 2 in x.tables && x.tables[2] == {k}
  {
    hide Coherent;
    x := BothServed(k);
    x.Unblock(1);
    assert x.waits == map[];
    x.Unblock(2);
  }
}
