/** PFADD, PFMERGE and PFCOUNT over a store of strings. */
module HllCommands {
  import opened Basics
  import opened HllRegisters
  import opened HllSparse
  import opened HllDense
  import opened HllAdd
  import opened HllCount
  import opened HllElements

  const MAGIC: seq<Byte> := [72, 89, 76, 76]

  /** The check every command makes on a stored string before it trusts its header. */
  predicate IsHllObject(v: seq<Byte>)
  {
    |v| >= HDR_SIZE && v[..4] == MAGIC && v[4] <= HLL_SPARSE && (v[4] == HLL_DENSE ==> |v| == DENSE_SIZE)
  }

  // ------------------------------------------------------ cached cardinality

  /** The cache reads as valid when bit 7 of the first cardinality byte is clear. */
  predicate CacheValid(v: seq<Byte>)
    requires |v| >= HDR_SIZE
  {
    v[8] < 128
  }

  function FromLittleEndian(b: seq<Byte>): nat
  {
    if b == [] then 0 else b[0] as nat + 256 * FromLittleEndian(b[1..])
  }

  function ToLittleEndian(n: nat, k: nat): (b: seq<Byte>)
    ensures |b| == k
  {
    if k == 0 then [] else [n % 256] + ToLittleEndian(n / 256, k - 1)
  }

  lemma {:induction false} LittleEndianRoundTrip(n: nat, k: nat)
    requires n < Pow256(k)
    ensures FromLittleEndian(ToLittleEndian(n, k)) == n
  {
    if k > 0 {
      LittleEndianRoundTrip(n / 256, k - 1);
      assert ToLittleEndian(n, k)[1..] == ToLittleEndian(n / 256, k - 1);
    }
  }

  lemma CardRoundTrip(n: Card)
    ensures FromLittleEndian(ToLittleEndian(n, 8)) == n
  {
    assert Pow256(4) == 0x1_0000_0000;
    assert Pow256(8) == 0x1_0000_0000_0000_0000;
    LittleEndianRoundTrip(n, 8);
  }

  // ---------------------------------------------------------- adding, merging

  /** What a fresh object is: one XZERO opcode over all registers, cardinality bytes zero. */
  function FreshHll(): seq<Byte>
  {
    MAGIC + [HLL_SPARSE] + [0, 0, 0] + [0, 0, 0, 0, 0, 0, 0, 0] + XZeroOp(REGISTERS)
  }

  function Zeros(k: nat): seq<Byte>
  {
    seq(k, _ => 0)
  }

  lemma {:induction false} ZeroCard(k: nat)
    ensures FromLittleEndian(Zeros(k)) == 0
  {
    if k > 0 {
      ZeroCard(k - 1);
      assert Zeros(k)[1..] == Zeros(k - 1);
    }
  }

  lemma FreshIsEmpty()
    ensures IsHllObject(FreshHll()) && WellFormed(FreshHll())
    ensures Registers(FreshHll()) == Repeat(0, REGISTERS)
    ensures CacheValid(FreshHll()) && CachedCard(FreshHll()) == 0
  {
    assert FreshHll()[8..HDR_SIZE] == Zeros(8);
    ZeroCard(8);
    XZeroWritten(REGISTERS);
    assert FreshHll()[HDR_SIZE..] == XZeroOp(REGISTERS);
  }

  /** Header of a string whose registers were raised: only the encoding byte and the cache flag may differ. */
  ghost predicate SameMagic(a: seq<Byte>, b: seq<Byte>)
  {
    |a| >= HDR_SIZE && |b| >= HDR_SIZE && a[..4] == b[..4]
  }

  lemma SameMagicIsHll(a: seq<Byte>, b: seq<Byte>)
    requires IsHllObject(a) && SameMagic(a, b) && WellFormed(b)
    ensures IsHllObject(b)
  {
  }

  lemma EmptyIsCorrupted()
    ensures !SparseValid([])
  {
  }

  method AddElement(v: seq<Byte>, h: Hash, maxBytes: nat) returns (w: seq<Byte>, ret: int)
    requires |v| >= HDR_SIZE && (WellFormed(v) || (v[4] == HLL_SPARSE && |v| == HDR_SIZE))
    ensures ret == -1 <==> !WellFormed(v)
    ensures WellFormed(v) ==>
      WellFormed(w) && SameMagic(v, w) &&
      Registers(w) == Registers(v)[PatIndex(h) := Max(Registers(v)[PatIndex(h)], PatCount(h))] &&
      ret == (if Registers(v)[PatIndex(h)] < PatCount(h) then 1 else 0) &&
      (ret == 0 ==> w == v)
  {
    hide SparseRegs, Opcodes, DenseRegs, PatCount, PatIndex;
    EmptyIsCorrupted();
    var index, count := PatLen(h);
    PatternOf(h, index, count);
    var s := new Sds(v);
    if v[4] == HLL_DENSE {
      DenseView(s);
      ret := DenseAdd(s.buf, index, count);
      DenseView(s);
    } else {
      ret := SparseAdd(s, index, count, maxBytes);
    }
    w := if ret > 0 then s.buf[..s.len] else v;
  }

  /** Raises `n` registers of `max` from `i` on to at least `v`. */
  method MaxRun(max: array<nat>, i: nat, v: nat, n: nat)
    requires i + n <= max.Length
    modifies max
    ensures forall k :: 0 <= k < max.Length ==>
      max[k] == if i <= k < i + n then Max(old(max[k]), v) else old(max[k])
  {
    for k := i to i + n
      invariant forall j :: 0 <= j < max.Length ==>
        max[j] == if i <= j < k then Max(old(max[j]), v) else old(max[j])
    {
      if v > max[k] {
        max[k] := v;
      }
    }
  }

  /** Merges the registers of `v` into the vector `max`. */
  method MergeInto(max: array<nat>, v: seq<Byte>) returns (ret: int)
    requires max.Length == REGISTERS && |v| >= HDR_SIZE
    requires WellFormed(v) || (v[4] == HLL_SPARSE && Opcodes(v[HDR_SIZE..]) && |SparseRegs(v[HDR_SIZE..])| <= REGISTERS)
    modifies max
    ensures ret == if WellFormed(v) then 0 else -1
    ensures ret == 0 ==> max[..] == MaxRegs(old(max[..]), Registers(v))
  {
    if v[4] == HLL_DENSE {
      MergeDense(max, v[HDR_SIZE..]);
      return 0;
    }
    var i := MergeSparse(max, v[HDR_SIZE..]);
    return if i != REGISTERS then -1 else 0;
  }

  method MergeDense(max: array<nat>, p: seq<Byte>)
    requires max.Length == REGISTERS && |p| == DENSE_BYTES
    modifies max
    ensures max[..] == MaxRegs(old(max[..]), DenseRegs(p))
  {
    hide DenseGet;
    for i := 0 to REGISTERS
      invariant forall k :: 0 <= k < REGISTERS ==>
        max[k] == if k < i then Max(old(max[k]), DenseGet(p, k)) else old(max[k])
    {
      var val := DenseGet(p, i);
      if val > max[i] {
        max[i] := val;
      }
    }
  }

  method MergeSparse(max: array<nat>, body: seq<Byte>) returns (i: nat)
    requires max.Length == REGISTERS && Opcodes(body) && |SparseRegs(body)| <= REGISTERS
    modifies max
    ensures i == |SparseRegs(body)|
    ensures i == REGISTERS ==> max[..] == MaxRegs(old(max[..]), SparseRegs(body))
  {
    hide SparseRegs, Opcodes, RunLen;
    var p := 0;
    i := 0;
    SumStart(body);
    while p < |body|
      invariant Boundary(body, p) && i == |SparseRegs(body[..p])| <= REGISTERS
      invariant forall k :: 0 <= k < REGISTERS ==>
        max[k] == if k < i then Max(old(max[k]), SparseRegs(body[..p])[k]) else old(max[k])
      decreases |body| - p
    {
      BoundaryRegs(body, p);
      BoundaryNext(body, p);
      var n := RunLen(body[p..]);
      if IsVal(body[p]) {
        MaxRun(max, i, ValueOf(body[p]), n);
      }
      i := i + n;
      p := p + OpBytes(body[p]);
    }
    assert body[..p] == body;
  }

  // ----------------------------------------------------------------- commands

  datatype Error = InvalidHllString | CorruptedHll
  datatype Reply = Integer(n: int) | Ok | Err(error: Error)

  /** The cardinality a valid cache holds. */
  function CachedCard(v: seq<Byte>): nat
    requires |v| >= HDR_SIZE
  {
    FromLittleEndian(v[8..HDR_SIZE])
  }

  /** A string that PF commands may have stored for the element set `s`. */
  ghost predicate Stands(hash: Hashing, estimate: (real, nat) -> Card, v: seq<Byte>, s: set<Element>)
  {
    IsHllObject(v) && WellFormed(v) && RegsOf(hash, s, Registers(v)) &&
    (CacheValid(v) ==> CachedCard(v) == Estimate(estimate, Registers(v)))
  }

  /** Sets the flag that marks the cached cardinality stale. */
  function Invalidate(v: seq<Byte>): (w: seq<Byte>)
    requires |v| >= HDR_SIZE
    ensures |w| == |v|
  {
    v[8 := Invalidated(v[8])]
  }

  lemma InvalidateKeeps(v: seq<Byte>)
    requires IsHllObject(v) && WellFormed(v)
    ensures IsHllObject(Invalidate(v)) && WellFormed(Invalidate(v)) && !CacheValid(Invalidate(v))
    ensures Registers(Invalidate(v)) == Registers(v)
  {
    assert Invalidate(v)[HDR_SIZE..] == v[HDR_SIZE..];
    assert Invalidate(v)[..4] == v[..4];
  }

  /** The element loop of PFADD: how many additions raised a register. */
  method AddAll(hash: Hashing, v: seq<Byte>, args: seq<Element>, maxBytes: nat, ghost s: set<Element>)
    returns (w: seq<Byte>, updated: nat)
    requires IsHllObject(v) && WellFormed(v) && RegsOf(hash, s, Registers(v))
    ensures IsHllObject(w) && WellFormed(w) && RegsOf(hash, s + Elements(args), Registers(w))
    ensures updated == 0 ==> w == v
    ensures updated == 0 <==> Registers(w) == Registers(v)
  {
    hide WellFormed, Registers, RegsOf, PatCount, PatIndex;
    w, updated := v, 0;
    assert s + Elements(args[..0]) == s;
    for i := 0 to |args|
      invariant IsHllObject(w) && WellFormed(w) && RegsOf(hash, s + Elements(args[..i]), Registers(w))
      invariant updated == 0 ==> w == v
      invariant updated == 0 <==> Registers(w) == Registers(v)
      invariant forall k :: 0 <= k < REGISTERS ==> Registers(v)[k] <= Registers(w)[k]
    {
      var ret;
      RegsOfAdd(hash, s + Elements(args[..i]), Registers(w), args[i]);
      assert s + Elements(args[..i + 1]) == s + Elements(args[..i]) + {args[i]};
      var next;
      next, ret := AddElement(w, hash(args[i]), maxBytes);
      SameMagicIsHll(w, next);
      w := next;
      if ret == 1 {
        updated := updated + 1;
      }
    }
    assert args[..|args|] == args;
  }

  ghost function Elements(args: seq<Element>): set<Element>
  {
    set e | e in args
  }

  /** The elements of the HyperLogLogs among `keys`. */
  ghost function Union(sets: map<string, set<Element>>, keys: seq<string>): set<Element>
  {
    if keys == [] then {}
    else Union(sets, keys[..|keys| - 1]) + (if keys[|keys| - 1] in sets then sets[keys[|keys| - 1]] else {})
  }

  lemma UnionNext(sets: map<string, set<Element>>, keys: seq<string>, i: nat)
    requires i < |keys|
    ensures Union(sets, keys[..i + 1]) == Union(sets, keys[..i]) + (if keys[i] in sets then sets[keys[i]] else {})
  {
    assert keys[..i + 1][..i] == keys[..i];
  }

  lemma RegsOfSmall(hash: Hashing, s: set<Element>, regs: seq<nat>)
    requires RegsOf(hash, s, regs)
    ensures forall i :: 0 <= i < REGISTERS ==> regs[i] < 64
  {
    hide PatCount, PatIndex;
    forall i | 0 <= i < REGISTERS
      ensures regs[i] < 64
    {
      if regs[i] != 0 {
        assert Reached(hash, s, i, regs[i]);
      }
    }
  }

  /** Every key of `sets` holds a string that stands for its set; keys without a set hold strings
      that are not HyperLogLogs. */
  ghost predicate StoreInv(hash: Hashing, estimate: (real, nat) -> Card,
                           db: map<string, seq<Byte>>, sets: map<string, set<Element>>)
  {
    sets.Keys <= db.Keys &&
    (forall k :: k in sets ==> Stands(hash, estimate, db[k], sets[k])) &&
    (forall k :: k in db && k !in sets ==> !IsHllObject(db[k]))
  }

  lemma StorePut(hash: Hashing, estimate: (real, nat) -> Card, db: map<string, seq<Byte>>,
                 sets: map<string, set<Element>>, key: string, v: seq<Byte>, s: set<Element>)
    requires StoreInv(hash, estimate, db, sets) && Stands(hash, estimate, v, s)
    ensures StoreInv(hash, estimate, db[key := v], sets[key := s])
    ensures key in db && db[key] == v ==> StoreInv(hash, estimate, db, sets[key := s])
  {
    hide Stands;
  }

  /** Some of `keys` holds a string that is not a HyperLogLog. */
  predicate AnyForeign(db: map<string, seq<Byte>>, keys: seq<string>)
  {
    exists i :: 0 <= i < |keys| && keys[i] in db && !IsHllObject(db[keys[i]])
  }

  /** The reading loop of PFMERGE and of PFCOUNT over several keys. */
  method MaxOfKeys(hash: Hashing, estimate: (real, nat) -> Card, db: map<string, seq<Byte>>,
                   ghost sets: map<string, set<Element>>, keys: seq<string>)
    returns (ok: bool, max: array<nat>)
    requires StoreInv(hash, estimate, db, sets)
    ensures ok <==> !AnyForeign(db, keys)
    ensures fresh(max) && max.Length == REGISTERS
    ensures ok ==> RegsOf(hash, Union(sets, keys), max[..])
  {
    hide WellFormed, Registers, RegsOf, Estimate, CachedCard, CacheValid;
    max := new nat[REGISTERS](_ => 0);
    RegsOfEmpty(hash);
    assert max[..] == Repeat(0, REGISTERS);
    for i := 0 to |keys|
      invariant fresh(max) && max.Length == REGISTERS
      invariant !AnyForeign(db, keys[..i])
      invariant RegsOf(hash, Union(sets, keys[..i]), max[..])
    {
      UnionNext(sets, keys, i);
      if keys[i] in db {
        if !IsHllObject(db[keys[i]]) {
          return false, max;
        }
        RegsOfUnion(hash, Union(sets, keys[..i]), max[..], sets[keys[i]], Registers(db[keys[i]]));
        var ret := MergeInto(max, db[keys[i]]);
      } else {
        assert Union(sets, keys[..i + 1]) == Union(sets, keys[..i]);
      }
    }
    assert keys[..|keys|] == keys;
    ok := true;
  }

  /** Overwrites every dense register with `max`. */
  method WriteRegisters(a: array<Byte>, max: seq<nat>)
    requires DENSE_SIZE < a.Length && |max| == REGISTERS
    requires forall i :: 0 <= i < REGISTERS ==> max[i] < 64
    modifies a
    ensures DenseRegs(RegisterBytes(a)) == max
    ensures a[..][..HDR_SIZE] == old(a[..][..HDR_SIZE])
  {
    hide DenseRegs;
    for j := 0 to REGISTERS
      invariant DenseRegs(RegisterBytes(a))[..j] == max[..j]
      invariant a[..][..HDR_SIZE] == old(a[..][..HDR_SIZE])
    {
      SetRegister(a, j, max[j]);
    }
  }

  /** The writing half of PFMERGE: `v` made dense, its registers replaced, its cache invalidated. */
  method StoreDense(v: seq<Byte>, max: seq<nat>) returns (w: seq<Byte>)
    requires IsHllObject(v) && WellFormed(v) && |max| == REGISTERS
    requires forall i :: 0 <= i < REGISTERS ==> max[i] < 64
    ensures IsHllObject(w) && WellFormed(w) && Registers(w) == max && !CacheValid(w)
  {
    hide SparseRegs, Opcodes, DenseRegs;
    var s := new Sds(v);
    var ret := SparseToDense(s);
    DenseView(s);
    WriteRegisters(s.buf, max);
    DenseView(s);
    w := s.buf[..s.len];
    assert w[..4] == s.Header()[..4] == v[..HDR_SIZE][..4];
    InvalidateKeeps(w);
    w := Invalidate(w);
  }

  /** The strings of a store that stand for no set. */
  ghost function Others(db: map<string, seq<Byte>>, sets: map<string, set<Element>>): map<string, seq<Byte>>
  {
    map k | k in db && k !in sets :: db[k]
  }

  lemma OthersKeys(db: map<string, seq<Byte>>, sets: map<string, set<Element>>)
    ensures forall k :: k in Others(db, sets) <==> k in db && k !in sets
  {
  }

  lemma OthersKept(db: map<string, seq<Byte>>, sets: map<string, set<Element>>,
                   db': map<string, seq<Byte>>, sets': map<string, set<Element>>, key: string)
    requires db'.Keys - {key} == db.Keys - {key} && sets'.Keys - {key} == sets.Keys - {key}
    requires key in db && key !in sets ==> key in db' && key !in sets' && db'[key] == db[key]
    requires key in db' && key !in sets' ==> key in db && key !in sets
    requires forall k :: k in db && k in db' && k != key && k !in sets ==> db'[k] == db[k]
    ensures Others(db', sets') == Others(db, sets)
  {
    forall k | k != key
      ensures (k in db' <==> k in db) && (k in sets' <==> k in sets)
    {
      assert k in db' <==> k in db'.Keys - {key};
      assert k in sets' <==> k in sets'.Keys - {key};
    }
  }

  /** A store of strings on which only PF commands write HyperLogLogs. */
  class HllStore {
    const hash: Hashing
    const estimate: (real, nat) -> Card
    const maxBytes: nat
    var db: map<string, seq<Byte>>
    /** Which elements have reached each HyperLogLog key, by PFADD or through PFMERGE. */
    ghost var sets: map<string, set<Element>>

    ghost predicate Valid()
      reads this
    {
      StoreInv(hash, estimate, db, sets)
    }

    /** The strings that are no HyperLogLogs. */
    ghost function Foreign(): map<string, seq<Byte>>
      reads this
    {
      Others(db, sets)
    }

    constructor (hash: Hashing, estimate: (real, nat) -> Card, maxBytes: nat, foreign: map<string, seq<Byte>>)
      requires forall k :: k in foreign ==> !IsHllObject(foreign[k])
      ensures Valid() && db == foreign && sets == map[]
    {
      this.hash, this.estimate, this.maxBytes := hash, estimate, maxBytes;
      db, sets := foreign, map[];
    }

    method PFAdd(key: string, args: seq<Element>) returns (reply: Reply)
      requires Valid()
      modifies this
      ensures Valid()
      ensures key in old(db) && key !in old(sets) ==> reply == Err(InvalidHllString) && db == old(db) && sets == old(sets)
      ensures key !in old(db) ==>
        reply == Integer(1) && sets == old(sets)[key := Elements(args)] && db.Keys == old(db).Keys + {key}
      ensures key in old(sets) ==>
        sets == old(sets)[key := old(sets)[key] + Elements(args)] && db.Keys == old(db).Keys &&
        reply == Integer(if Registers(db[key]) == Registers(old(db)[key]) then 0 else 1)
      ensures forall k :: k in old(db) && k != key ==> k in db && db[k] == old(db)[k]
    {
      hide WellFormed, Registers, RegsOf, Estimate, IsHllObject;
      var v: seq<Byte>;
      var updated := 0;
      if key !in db {
        FreshIsEmpty();
        RegsOfEmpty(hash);
        v := FreshHll();
        updated := 1;
      } else {
        v := db[key];
        if !IsHllObject(v) {
          return Err(InvalidHllString);
        }
      }
      ghost var s := if key in sets then sets[key] else {};
      ghost var t := s + Elements(args);
      var w, n := AddAll(hash, v, args, maxBytes, s);
      updated := updated + n;
      if updated > 0 {
        InvalidateKeeps(w);
        w := Invalidate(w);
      }
      StorePut(hash, estimate, db, sets, key, w, t);
      sets := sets[key := t];
      if updated > 0 {
        db := db[key := w];
      }
      assert {} + Elements(args) == Elements(args);
      reply := Integer(if updated > 0 then 1 else 0);
    }

    method PFMerge(keys: seq<string>) returns (reply: Reply)
      requires Valid() && keys != []
      modifies this
      ensures Valid()
      ensures AnyForeign(old(db), keys) ==> reply == Err(InvalidHllString) && db == old(db) && sets == old(sets)
      ensures !AnyForeign(old(db), keys) ==>
        reply == Ok && sets == old(sets)[keys[0] := Union(old(sets), keys)] && db.Keys == old(db).Keys + {keys[0]}
      ensures forall k :: k in old(db) && k != keys[0] ==> k in db && db[k] == old(db)[k]
    {
      hide WellFormed, Registers, RegsOf, Estimate, IsHllObject;
      var ok, max := MaxOfKeys(hash, estimate, db, sets, keys);
      if !ok {
        return Err(InvalidHllString);
      }
      RegsOfSmall(hash, Union(sets, keys), max[..]);
      FreshIsEmpty();
      assert keys[0] in db ==> IsHllObject(db[keys[0]]);
      var v := if keys[0] in db then db[keys[0]] else FreshHll();
      var w := StoreDense(v, max[..]);
      StorePut(hash, estimate, db, sets, keys[0], w, Union(sets, keys));
      sets := sets[keys[0] := Union(sets, keys)];
      db := db[keys[0] := w];
      reply := Ok;
    }

    /** PFCOUNT of one key: the estimate of its registers, whatever ran before. */
    method PFCount(key: string) returns (reply: Reply)
      requires Valid()
      modifies this`db
      ensures Valid() && db.Keys == old(db).Keys
      ensures key !in db ==> reply == Integer(0)
      ensures key in db && key !in sets ==> reply == Err(InvalidHllString)
      ensures key in sets ==>
        reply == Integer(Estimate(estimate, Registers(db[key]))) && Registers(db[key]) == Registers(old(db)[key])
      ensures forall k :: k in db && (k != key || k !in sets) ==> db[k] == old(db)[k]
    {
      hide Registers, RegsOf, Estimate, SparseRegs, Opcodes;
      if key !in db {
        return Integer(0);
      }
      var v := db[key];
      if !IsHllObject(v) {
        return Err(InvalidHllString);
      }
      if CacheValid(v) {
        return Integer(CachedCard(v));
      }
      var card, invalid := Count(v, estimate);
      var w := v[..8] + ToLittleEndian(card, 8) + v[HDR_SIZE..];
      CacheWritten(v, card);
      StorePut(hash, estimate, db, sets, key, w, sets[key]);
      assert sets[key := sets[key]] == sets;
      db := db[key := w];
      reply := Integer(card);
    }

    /** PFCOUNT of several keys: the estimate of the registers of the union. */
    method PFCountUnion(keys: seq<string>) returns (reply: Reply, ghost regs: seq<nat>)
      requires Valid()
      ensures AnyForeign(db, keys) ==> reply == Err(InvalidHllString)
      ensures !AnyForeign(db, keys) ==>
        RegsOf(hash, Union(sets, keys), regs) && reply == Integer(Estimate(estimate, regs))
    {
      hide WellFormed, Registers, RegsOf, Estimate, IsHllObject;
      var ok, max := MaxOfKeys(hash, estimate, db, sets, keys);
      regs := max[..];
      if !ok {
        return Err(InvalidHllString), regs;
      }
      RegsOfSmall(hash, Union(sets, keys), max[..]);
      var card := CountRaw(max[..], estimate);
      reply := Integer(card);
    }
  }

  /** Writing the cardinality bytes touches nothing else. */
  lemma CacheWritten(v: seq<Byte>, card: Card)
    requires IsHllObject(v) && WellFormed(v)
    ensures var w := v[..8] + ToLittleEndian(card, 8) + v[HDR_SIZE..];
      IsHllObject(w) && WellFormed(w) && Registers(w) == Registers(v) && CachedCard(w) == card
  {
    hide SparseRegs, Opcodes, DenseRegs;
    var w := v[..8] + ToLittleEndian(card, 8) + v[HDR_SIZE..];
    CardRoundTrip(card);
    assert w[HDR_SIZE..] == v[HDR_SIZE..] && w[..4] == v[..4];
    assert w[8..HDR_SIZE] == ToLittleEndian(card, 8);
  }

  // --------------------------------------------------------------------- runs

  datatype Command = PFAdd(key: string, args: seq<Element>) | PFMerge(keys: seq<string>) | PFCount(keys: seq<string>)

  predicate Legal(c: Command)
  {
    match c
    case PFAdd(_, _) => true
    case PFMerge(keys) => keys != []
    case PFCount(keys) => keys != []
  }

  /** What a command does to the element sets, in a store where some keys hold other strings: a command
      that meets one of those changes nothing. */
  ghost function Effect(sets: map<string, set<Element>>, foreign: set<string>, c: Command): map<string, set<Element>>
    requires Legal(c)
  {
    match c
    case PFAdd(k, args) =>
      if k in foreign then sets else sets[k := (if k in sets then sets[k] else {}) + Elements(args)]
    case PFMerge(keys) =>
      if exists k :: k in keys && k in foreign then sets else sets[keys[0] := Union(sets, keys)]
    case PFCount(_) => sets
  }

  ghost function EffectAll(sets: map<string, set<Element>>, foreign: set<string>, cs: seq<Command>)
    : map<string, set<Element>>
    requires forall i :: 0 <= i < |cs| ==> Legal(cs[i])
  {
    if cs == [] then sets else Effect(EffectAll(sets, foreign, cs[..|cs| - 1]), foreign, cs[|cs| - 1])
  }

  /** Any run of commands, whatever promotions and cache writes happen on the way, leaves every
      HyperLogLog with the registers of the set of elements that reached it, and every other string as
      it was. */
  method Run(store: HllStore, cs: seq<Command>)
    requires store.Valid()
    requires forall i :: 0 <= i < |cs| ==> Legal(cs[i])
    modifies store
    ensures store.Valid()
    ensures store.sets == EffectAll(old(store.sets), old(store.Foreign()).Keys, cs)
    ensures store.Foreign() == old(store.Foreign())
    ensures forall k :: k in store.sets ==>
      WellFormed(store.db[k]) && RegsOf(store.hash, store.sets[k], Registers(store.db[k]))
  {
    hide WellFormed, Registers, RegsOf, Estimate, IsHllObject, CachedCard, CacheValid;
    ghost var foreign := store.Foreign().Keys;
    for i := 0 to |cs|
      invariant store.Valid() && store.Foreign() == old(store.Foreign())
      invariant store.sets == EffectAll(old(store.sets), foreign, cs[..i])
    {
      assert cs[..i + 1][..i] == cs[..i];
      Step(store, cs[i]);
    }
    assert cs[..|cs|] == cs;
  }

  method Step(store: HllStore, c: Command)
    requires store.Valid() && Legal(c)
    modifies store
    ensures store.Valid() && store.Foreign() == old(store.Foreign())
    ensures store.sets == Effect(old(store.sets), old(store.Foreign()).Keys, c)
  {
    hide StoreInv, Registers, Estimate, RegsOf, Union, Others, AnyForeign;
    match c
    case PFAdd(k, args) =>
      StepAdd(store, k, args);
    case PFMerge(keys) =>
      StepMerge(store, keys);
    case PFCount(keys) =>
      if |keys| == 1 {
        ghost var db, sets := store.db, store.sets;
        var _ := store.PFCount(keys[0]);
        OthersKept(db, sets, store.db, store.sets, keys[0]);
      } else {
        var _, _ := store.PFCountUnion(keys);
      }
  }

  method StepAdd(store: HllStore, key: string, args: seq<Element>)
    requires store.Valid()
    modifies store
    ensures store.Valid() && store.Foreign() == old(store.Foreign())
    ensures store.sets == Effect(old(store.sets), old(store.Foreign()).Keys, Command.PFAdd(key, args))
  {
    hide Stands, IsHllObject, AnyForeign, Registers, Others;
    ghost var db, sets := store.db, store.sets;
    OthersKeys(db, sets);
    assert {} + Elements(args) == Elements(args);
    var _ := store.PFAdd(key, args);
    OthersKept(db, sets, store.db, store.sets, key);
  }

  method StepMerge(store: HllStore, keys: seq<string>)
    requires store.Valid() && keys != []
    modifies store
    ensures store.Valid() && store.Foreign() == old(store.Foreign())
    ensures store.sets == Effect(old(store.sets), old(store.Foreign()).Keys, Command.PFMerge(keys))
  {
    hide Stands, IsHllObject, AnyForeign, Registers, Union, Others;
    ghost var db, sets := store.db, store.sets;
    OthersKeys(db, sets);
    MeetsForeign(store, keys);
    assert keys[0] in keys;
    var _ := store.PFMerge(keys);
    OthersKept(db, sets, store.db, store.sets, keys[0]);
  }

  lemma MeetsForeign(store: HllStore, keys: seq<string>)
    requires store.Valid()
    ensures AnyForeign(store.db, keys) <==> exists k :: k in keys && k in store.Foreign()
  {
    hide Stands;
    forall i | 0 <= i < |keys|
      ensures keys[i] in store.db && !IsHllObject(store.db[keys[i]]) <==> keys[i] in store.Foreign()
    {
      if keys[i] in store.sets {
        StandsIsHll(store.hash, store.estimate, store.db[keys[i]], store.sets[keys[i]]);
      }
    }
  }

  lemma StandsIsHll(hash: Hashing, estimate: (real, nat) -> Card, v: seq<Byte>, s: set<Element>)
    requires Stands(hash, estimate, v, s)
    ensures IsHllObject(v)
  {
  }

  /** Equal element sets give equal registers and equal estimates, in any two stores that share the hash. */
  lemma SameSetSameRegisters(hash: Hashing, estimate: (real, nat) -> Card, v: seq<Byte>, w: seq<Byte>, s: set<Element>)
    requires Stands(hash, estimate, v, s) && Stands(hash, estimate, w, s)
    ensures Registers(v) == Registers(w)
    ensures CacheValid(v) && CacheValid(w) ==> CachedCard(v) == CachedCard(w)
  {
    hide RegsOf, Registers, WellFormed;
    RegsOfUnique(hash, s, Registers(v), Registers(w));
  }
}
