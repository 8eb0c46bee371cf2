/** The elements of one list key, as an ordered store keeps them. */
module ListStore {
  import opened Basics

  /** An element's index: an integer, or a double taken as an exact real. */
  datatype Index = Int(n: int) | Float(x: real)

  function Val(i: Index): real
  {
    match i
    case Int(n) => n as real
    case Float(x) => x
  }

  datatype Entry = Entry(idx: Index, value: string)

  type Entries = seq<Entry>

  ghost predicate Ordered(s: Entries)
  {
    forall i, j :: 0 <= i < j < |s| ==> Val(s[i].idx) < Val(s[j].idx)
  }

  function Values(s: Entries): (v: seq<string>)
    ensures |v| == |s|
  {
    seq(|s|, i requires 0 <= i < |s| => s[i].value)
  }

  /** Where an iterator put at an index stands: on the first entry not below it. */
  function Seek(s: Entries, x: real): (k: nat)
    ensures k <= |s| && (k < |s| ==> x <= Val(s[k].idx))
  {
    if s == [] || x <= Val(s[0].idx) then 0 else 1 + Seek(s[1..], x)
  }

  /** The same, or the last entry when all are below it. */
  function Land(s: Entries, x: real): (k: nat)
    requires s != []
    ensures k < |s|
  {
    var k := Seek(s, x);
    if k < |s| then k else |s| - 1
  }

  function Put(s: Entries, e: Entry): Entries
  {
    var k := Seek(s, Val(e.idx));
    if k < |s| && Val(s[k].idx) == Val(e.idx) then s[k := e] else s[..k] + [e] + s[k..]
  }

  function Del(s: Entries, x: real): Entries
  {
    var k := Seek(s, x);
    if k < |s| && Val(s[k].idx) == x then s[..k] + s[k + 1..] else s
  }

  function Get(s: Entries, x: real): Option<string>
  {
    var k := Seek(s, x);
    if k < |s| && Val(s[k].idx) == x then Some(s[k].value) else None
  }

  lemma {:induction false} SeekIs(s: Entries, x: real, k: nat)
    requires k <= |s| && (forall i :: 0 <= i < k ==> Val(s[i].idx) < x)
    requires k < |s| ==> x <= Val(s[k].idx)
    ensures Seek(s, x) == k
  {
    if k > 0 {
      assert Val(s[0].idx) < x;
      SeekIs(s[1..], x, k - 1);
    }
  }

  lemma SeekAt(s: Entries, k: nat)
    requires Ordered(s) && k < |s|
    ensures Seek(s, Val(s[k].idx)) == k && Get(s, Val(s[k].idx)) == Some(s[k].value)
  {
    SeekIs(s, Val(s[k].idx), k);
  }

  lemma ValuesConcat(a: Entries, b: Entries)
    ensures Values(a + b) == Values(a) + Values(b)
  {
  }

  lemma ValuesSplit(s: Entries, k: nat)
    requires k <= |s|
    ensures Values(s[..k]) == Values(s)[..k] && Values(s[k..]) == Values(s)[k..]
  {
  }

  lemma OrderedWith(s: Entries, e: Entry, k: nat)
    requires Ordered(s) && k <= |s|
    requires k > 0 ==> Val(s[k - 1].idx) < Val(e.idx)
    requires k < |s| ==> Val(e.idx) < Val(s[k].idx)
    ensures Ordered(s[..k] + [e] + s[k..])
    ensures forall i :: 0 <= i < k ==> Val(s[i].idx) < Val(e.idx)
  {
    forall i | 0 <= i < k
      ensures Val(s[i].idx) < Val(e.idx)
    {
      assert i < k - 1 ==> Val(s[i].idx) < Val(s[k - 1].idx);
    }
    forall i | k <= i < |s|
      ensures Val(e.idx) < Val(s[i].idx)
    {
      assert k < i ==> Val(s[k].idx) < Val(s[i].idx);
    }
  }

  lemma OrderedWithout(s: Entries, k: nat)
    requires Ordered(s) && k < |s|
    ensures Ordered(s[..k] + s[k + 1..])
  {
    var t := s[..k] + s[k + 1..];
    forall i, j | 0 <= i < j < |t|
      ensures Val(t[i].idx) < Val(t[j].idx)
    {
      assert t[i] == s[if i < k then i else i + 1] && t[j] == s[if j < k then j else j + 1];
    }
  }

  /** A new entry with a new index between two neighbours lands between them. */
  lemma PutNew(s: Entries, e: Entry, k: nat)
    requires Ordered(s) && k <= |s|
    requires k > 0 ==> Val(s[k - 1].idx) < Val(e.idx)
    requires k < |s| ==> Val(e.idx) < Val(s[k].idx)
    ensures Put(s, e) == s[..k] + [e] + s[k..] && Ordered(Put(s, e))
    ensures Values(Put(s, e)) == Values(s)[..k] + [e.value] + Values(s)[k..]
  {
    OrderedWith(s, e, k);
    SeekIs(s, Val(e.idx), k);
    hide Ordered, Values, Seek;
    ValuesSplit(s, k);
    ValuesOne(e);
    ValuesConcat(s[..k], [e]);
    ValuesConcat(s[..k] + [e], s[k..]);
  }

  lemma ValuesOne(e: Entry)
    ensures Values([e]) == [e.value]
  {
  }

  lemma PutOver(s: Entries, e: Entry, k: nat)
    requires Ordered(s) && k < |s| && Val(e.idx) == Val(s[k].idx)
    ensures Put(s, e) == s[k := e] && Ordered(Put(s, e))
    ensures Values(Put(s, e)) == Values(s)[k := e.value]
  {
    SeekIs(s, Val(e.idx), k);
  }

  lemma DelIs(s: Entries, k: nat)
    requires Ordered(s) && k < |s|
    ensures Del(s, Val(s[k].idx)) == s[..k] + s[k + 1..] && Ordered(Del(s, Val(s[k].idx)))
    ensures Values(Del(s, Val(s[k].idx))) == Values(s)[..k] + Values(s)[k + 1..]
  {
    SeekIs(s, Val(s[k].idx), k);
    OrderedWithout(s, k);
    hide Ordered, Values, Seek;
    ValuesSplit(s, k);
    ValuesSplit(s, k + 1);
    ValuesConcat(s[..k], s[k + 1..]);
  }

  /** The cast to a 64-bit integer drops the fraction. */
  function Trunc(x: real): int
  {
    if x >= 0.0 then x.Floor else -((-x).Floor)
  }

  /** One step below, or above, a truncated bound is outside the bound. */
  lemma TruncOutside(x: real)
    ensures (Trunc(x) - 1) as real < x < (Trunc(x) + 1) as real
  {
  }
}
