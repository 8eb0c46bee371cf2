/** JSON Pointer: building the pointer to a node, and following it. A node is known by its place: the
    positions of its ancestors and itself among their siblings. */
module JsonPointer {
  import opened Basics
  import opened JsonText
  import opened Json

  type Place = seq<nat>

  const SLASH := 47
  const TILDE := 126

  function Children(t: Json): seq<Json>
  {
    match t
    case Array(items) => items
    case Object(members) => seq(|members|, i requires 0 <= i < |members| => members[i].value)
    case _ => []
  }

  predicate HasPlace(t: Json, p: Place)
    decreases |p|
  {
    p == [] || (p[0] < |Children(t)| && HasPlace(Children(t)[p[0]], p[1..]))
  }

  // ------------------------------------------------------------------- names

  function Lower(c: int): int
  {
    if 65 <= c <= 90 then c + 32 else c
  }

  predicate SameName(a: Text, b: Text)
  {
    |a| == |b| && forall i :: 0 <= i < |a| ==> Lower(a[i]) == Lower(b[i])
  }

  /** '/' and '~' written as "~1" and "~0". */
  function Encode(s: Text): Text
  {
    if s == [] then [] else EncodeByte(s[0]) + Encode(s[1..])
  }

  function EncodeByte(b: TextByte): Text
  {
    if b == SLASH then [TILDE, 49] else if b == TILDE then [TILDE, 48] else [b]
  }

  lemma EncodeStep(s: Text, rest: Text)
    ensures s == [] ==> Encode(s) + rest == rest
    ensures s != [] ==> Encode(s) + rest == EncodeByte(s[0]) + (Encode(s[1..]) + rest)
  {
    hide EncodeByte;
  }

  predicate AtSlash(e: Text)
  {
    e == [] || e[0] == SLASH
  }

  /** Whether a plain name is the one encoded at the front of e, up to a slash or the end. */
  predicate Matches(a: Text, e: Text)
  {
    if a == [] || AtSlash(e) then AtSlash(e) == (a == [])
    else if e[0] == TILDE then
      ((At(e, 1) == 48 && a[0] == TILDE) || (At(e, 1) == 49 && a[0] == SLASH)) && Matches(a[1..], e[2..])
    else Lower(a[0]) == Lower(e[0]) && Matches(a[1..], e[1..])
  }

  /** cJSONUtils_Pstrcasecmp. */
  method Compare(a: Text, e: Text) returns (same: bool)
    ensures same == Matches(a, e)
  {
    var i, j := 0, 0;
    while i < |a| && !AtSlash(e[j..])
      invariant 0 <= i <= |a| && 0 <= j <= |e|
      invariant Matches(a, e) == Matches(a[i..], e[j..])
    {
      assert a[i..][1..] == a[i + 1..] && e[j..][1..] == e[j + 1..];
      if e[j] == TILDE {
        if !(At(e, j + 1) == 48 && a[i] == TILDE) && !(At(e, j + 1) == 49 && a[i] == SLASH) {
          return false;
        }
        assert e[j..][2..] == e[j + 2..];
        j := j + 1;
      } else if Lower(a[i]) != Lower(e[j]) {
        return false;
      }
      i, j := i + 1, j + 1;
    }
    same := AtSlash(e[j..]) == (i == |a|);
  }

  lemma MatchesByte(a: Text, b: TextByte, tail: Text)
    requires a != []
    ensures Matches(a, EncodeByte(b) + tail) <==> Lower(a[0]) == Lower(b) && Matches(a[1..], tail)
  {
    var e := EncodeByte(b) + tail;
    assert e[|EncodeByte(b)|..] == tail;
  }

  lemma {:induction false} MatchesEncoded(a: Text, b: Text, rest: Text)
    requires AtSlash(rest)
    ensures Matches(a, Encode(b) + rest) <==> SameName(a, b)
    decreases |b|
  {
    EncodeStep(b, rest);
    if b != [] {
      var tail := Encode(b[1..]) + rest;
      if a != [] {
        hide Matches, SameName, EncodeByte, Encode;
        MatchesEncoded(a[1..], b[1..], rest);
        MatchesByte(a, b[0], tail);
        SameNameStep(a, b);
      } else {
        assert !AtSlash(EncodeByte(b[0]) + tail);
      }
    }
  }

  lemma SameNameStep(a: Text, b: Text)
    requires a != [] && b != []
    ensures SameName(a, b) <==> Lower(a[0]) == Lower(b[0]) && SameName(a[1..], b[1..])
  {
    if SameName(a[1..], b[1..]) && Lower(a[0]) == Lower(b[0]) {
      forall i | 0 <= i < |a|
        ensures Lower(a[i]) == Lower(b[i])
      {
        assert i > 0 ==> a[i] == a[1..][i - 1] && b[i] == b[1..][i - 1];
      }
    }
  }

  function PastName(e: Text): (r: Text)
    ensures |r| <= |e|
  {
    if AtSlash(e) then e else PastName(e[1..])
  }

  lemma PastByte(b: TextByte, tail: Text)
    ensures PastName(EncodeByte(b) + tail) == PastName(tail)
  {
    var e := EncodeByte(b) + tail;
    if |EncodeByte(b)| == 2 {
      assert e[1..][1..] == tail;
    } else {
      assert e[1..] == tail;
    }
  }

  lemma {:induction false} PastEncoded(b: Text, rest: Text)
    requires AtSlash(rest)
    ensures PastName(Encode(b) + rest) == rest
  {
    EncodeStep(b, rest);
    if b != [] {
      PastByte(b[0], Encode(b[1..]) + rest);
      PastEncoded(b[1..], rest);
    }
  }

  // ---------------------------------------------------------------- pointers

  /** One step of a pointer: the position in an array, the encoded name in an object. */
  function Segment(t: Json, i: nat): Text
    requires i < |Children(t)|
  {
    if t.Array? then [SLASH] + Digits(i) else [SLASH] + Encode(t.members[i].name)
  }

  function PointerTo(t: Json, p: Place): Text
    requires HasPlace(t, p)
    decreases |p|
  {
    if p == [] then [] else Segment(t, p[0]) + PointerTo(Children(t)[p[0]], p[1..])
  }

  /** cJSONUtils_FindPointerFromObjectTo, from a node at place here. */
  function Find(t: Json, here: Place, target: Place): Option<Text>
    decreases t, |Children(t)| + 1
  {
    if here == target then Some([]) else FindIn(t, 0, here, target)
  }

  function FindIn(t: Json, c: nat, here: Place, target: Place): Option<Text>
    requires c <= |Children(t)|
    decreases t, |Children(t)| - c
  {
    if c == |Children(t)| then None
    else
      ChildSmaller(t, c);
      var found := Find(Children(t)[c], here + [c], target);
      if found.Some? then Some(Segment(t, c) + found.value) else FindIn(t, c + 1, here, target)
  }

  lemma ChildSmaller(t: Json, c: nat)
    requires c < |Children(t)|
    ensures Children(t)[c] < t
  {
  }

  /** The search finds every node of the tree, and gives its pointer. */
  lemma {:induction false} FindPlace(t: Json, here: Place, p: Place)
    requires HasPlace(t, p)
    ensures Find(t, here, here + p) == Some(PointerTo(t, p))
    decreases |p|, 1
  {
    if p == [] {
      assert here + p == here;
    } else {
      FindInPlace(t, 0, here, p);
    }
  }

  lemma {:induction false} FindInPlace(t: Json, c: nat, here: Place, p: Place)
    requires p != [] && HasPlace(t, p) && c <= p[0]
    ensures FindIn(t, c, here, here + p) == Some(PointerTo(t, p))
    decreases |p|, 0, p[0] - c
  {
    hide Segment, PointerTo;
    if c == p[0] {
      FindPlace(Children(t)[c], here + [c], p[1..]);
      assert here + [c] + p[1..] == here + p;
      PointerStep(t, p);
    } else {
      assert (here + [c])[|here|] != (here + p)[|here|];
      FindElsewhere(Children(t)[c], here + [c], here + p);
      FindInPlace(t, c + 1, here, p);
    }
  }

  lemma PointerStep(t: Json, p: Place)
    requires p != [] && HasPlace(t, p)
    ensures PointerTo(t, p) == Segment(t, p[0]) + PointerTo(Children(t)[p[0]], p[1..])
  {
  }

  /** Nothing is found where the target is not below. */
  lemma {:induction false} FindElsewhere(t: Json, here: Place, target: Place)
    requires !(here <= target)
    ensures Find(t, here, target).None?
    decreases t, |Children(t)| + 1
  {
    FindInElsewhere(t, 0, here, target);
  }

  lemma {:induction false} FindInElsewhere(t: Json, c: nat, here: Place, target: Place)
    requires !(here <= target) && c <= |Children(t)|
    ensures FindIn(t, c, here, target).None?
    decreases t, |Children(t)| - c
  {
    if c < |Children(t)| {
      ChildSmaller(t, c);
      assert !(here + [c] <= target) by {
        assert here == (here + [c])[..|here|];
      }
      FindElsewhere(Children(t)[c], here + [c], target);
      FindInElsewhere(t, c + 1, here, target);
    }
  }

  // --------------------------------------------------------------- resolving

  /** The first member whose name matches; how many members there are if none does. */
  function FirstMatch(members: seq<Member>, e: Text): (i: nat)
    ensures i <= |members|
  {
    if members == [] || Matches(members[0].name, e) then 0 else 1 + FirstMatch(members[1..], e)
  }

  /** cJSONUtils_GetPointer: where the pointer leads. */
  function Resolve(t: Json, pointer: Text): Option<Place>
    decreases t
  {
    if pointer == [] || pointer[0] != SLASH then Some([])
    else if t.Array? then
      var (which, _, rest) := TakeDigits(pointer[1..], 0);
      if !AtSlash(rest) then None else Within(t, which, rest)
    else if t.Object? then Within(t, FirstMatch(t.members, pointer[1..]), PastName(pointer[1..]))
    else None
  }

  function Within(t: Json, i: nat, rest: Text): Option<Place>
    decreases t, 0
  {
    if i >= |Children(t)| then None
    else
      ChildSmaller(t, i);
      var r := Resolve(Children(t)[i], rest);
      if r.None? then None else Some([i] + r.value)
  }

  /** Each step inside an object goes to the first member that bears its name, ignoring case. */
  ghost predicate FirstNamed(t: Json, p: Place)
    requires HasPlace(t, p)
    decreases |p|
  {
    p == [] ||
    (&& (t.Object? ==> forall j :: 0 <= j < p[0] ==> !SameName(t.members[j].name, t.members[p[0]].name))
     && FirstNamed(Children(t)[p[0]], p[1..]))
  }

  /** What was walked so far, put before what remains to be walked. */
  function Under(walked: Place, r: Option<Place>): Option<Place>
  {
    if r.None? then None else Some(walked + r.value)
  }

  method Follow(t: Json, pointer: Text) returns (place: Option<Place>)
    ensures place == Resolve(t, pointer)
  {
    hide TakeDigits, FirstMatch, PastName;
    var node, rest := t, pointer;
    var walked: Place := [];
    UnderNothing(Resolve(t, pointer));
    while rest != [] && rest[0] == SLASH
      invariant Resolve(t, pointer) == Under(walked, Resolve(node, rest))
      decreases |rest|
    {
      var which, after := 0, rest[1..];
      if node.Array? {
        var (n, _, r) := TakeDigits(rest[1..], 0);
        if !AtSlash(r) {
          return None;
        }
        which, after := n, r;
      } else if node.Object? {
        which, after := FirstMatch(node.members, rest[1..]), PastName(rest[1..]);
      } else {
        return None;
      }
      if which >= |Children(node)| {
        return None;
      }
      UnderStep(walked, which, Resolve(Children(node)[which], after));
      node, rest, walked := Children(node)[which], after, walked + [which];
    }
    assert walked + [] == walked;
    place := Some(walked);
  }

  lemma UnderNothing(r: Option<Place>)
    ensures Under([], r) == r
  {
    assert r.Some? ==> [] + r.value == r.value;
  }

  lemma UnderStep(walked: Place, i: nat, r: Option<Place>)
    ensures Under(walked + [i], r) == Under(walked, if r.None? then None else Some([i] + r.value))
  {
    assert r.Some? ==> walked + [i] + r.value == walked + ([i] + r.value);
  }

  lemma {:induction false} FirstMatchIs(members: seq<Member>, name: Text, rest: Text)
    requires AtSlash(rest)
    ensures var f := FirstMatch(members, Encode(name) + rest);
      && (forall j :: 0 <= j < f ==> !SameName(members[j].name, name))
      && (f < |members| ==> SameName(members[f].name, name))
    decreases |members|
  {
    hide Matches, SameName, Encode;
    if members != [] {
      MatchesEncoded(members[0].name, name, rest);
      FirstMatchIs(members[1..], name, rest);
    }
  }

  lemma PointerAtSlash(t: Json, p: Place)
    requires HasPlace(t, p)
    ensures AtSlash(PointerTo(t, p))
  {
    if p != [] {
      PointerStep(t, p);
    }
  }

  /** Following the pointer built for a node leads to that node exactly when, on the way, every member
      passed through is the first of its object to bear its name, ignoring case. */
  lemma {:induction false} PointerRoundTrip(t: Json, p: Place)
    requires HasPlace(t, p)
    ensures Resolve(t, PointerTo(t, p)) == Some(p) <==> FirstNamed(t, p)
    decreases |p|
  {
    if p != [] {
      var rest := PointerTo(Children(t)[p[0]], p[1..]);
      PointerAtSlash(Children(t)[p[0]], p[1..]);
      PointerRoundTrip(Children(t)[p[0]], p[1..]);
      assert p == [p[0]] + p[1..];
      if t.Array? {
        ArrayStep(t, p[0], rest);
      } else {
        ObjectStep(t, p[0], rest);
      }
    }
  }

  lemma ArrayStep(t: Json, i: nat, rest: Text)
    requires t.Array? && i < |t.items| && AtSlash(rest)
    ensures Resolve(t, Segment(t, i) + rest) == Within(t, i, rest)
  {
    hide Within, Digits, TakeDigits;
    DigitsFold(i);
    TakeDigitsFold(Digits(i), rest, 0);
    assert (Segment(t, i) + rest)[1..] == Digits(i) + rest;
  }

  lemma ObjectStep(t: Json, i: nat, rest: Text)
    requires t.Object? && i < |t.members| && AtSlash(rest)
    ensures exists f ::
      && 0 <= f <= i && Resolve(t, Segment(t, i) + rest) == Within(t, f, rest)
      && (f == i <==> forall j :: 0 <= j < i ==> !SameName(t.members[j].name, t.members[i].name))
  {
    hide Within, Encode, FirstMatch, PastName;
    var name := t.members[i].name;
    FirstMatchIs(t.members, name, rest);
    PastEncoded(name, rest);
    assert (Segment(t, i) + rest)[1..] == Encode(name) + rest;
    var f := FirstMatch(t.members, Encode(name) + rest);
    assert SameName(name, name);
    assert f < |t.members| && Resolve(t, Segment(t, i) + rest) == Within(t, f, rest);
  }

  /** {"A": null, "a": true}: the pointer built for the second member leads to the first. */
  lemma PointerAstray()
    ensures var t := Object([Member([65], Null), Member([97], True)]);
      HasPlace(t, [1]) && PointerTo(t, [1]) == [SLASH, 97] && Resolve(t, PointerTo(t, [1])) == Some([0])
  {
    var t := Object([Member([65], Null), Member([97], True)]);
    assert Children(t) == [Null, True];
    assert Encode([97]) == [97];
    var rest: Text := [97];
    assert Matches([65], rest) && PastName(rest) == [];
    assert FirstMatch(t.members, rest) == 0;
    var pointer: Text := [SLASH, 97];
    assert pointer[1..] == rest;
    assert PointerTo(t, [1]) == Segment(t, 1) + PointerTo(True, []);
    assert Resolve(t, pointer) == Within(t, 0, []);
    var none: Place := [];
    assert Resolve(Null, []) == Some(none) && [0] + none == [0];
    assert PointerTo(t, [1]) == pointer;
  }
}
