/**
 The header list seen as a value: a row of slots, each empty or holding a name and a value,
 and the finite map from lower-cased names that the row stands for.
 */
module HeaderTable {
  import opened Seqs
  import opened CStrings

  const HTTP_HEADER_MAX: nat := 256

  datatype Entry = Entry(name: string, value: string)

  type Slots = seq<Option<Entry>>

  predicate Matches(slot: Option<Entry>, key: string) {
    slot.Some? && SameIgnoringCase(slot.value.name, key)
  }

  /** No two names are equal ignoring case. */
  predicate Clean(slots: Slots) {
    forall i, j :: 0 <= i < j < |slots| && slots[i].Some? && slots[j].Some? ==>
      !SameIgnoringCase(slots[i].value.name, slots[j].value.name)
  }

  function FirstMatch(slots: Slots, key: string): (k: nat)
    ensures k <= |slots|
    ensures k < |slots| ==> Matches(slots[k], key)
    ensures forall i :: 0 <= i < k ==> !Matches(slots[i], key)
  {
    if slots == [] || Matches(slots[0], key) then 0 else 1 + FirstMatch(slots[1..], key)
  }

  function FirstFree(slots: Slots): (k: nat)
    ensures k <= |slots|
    ensures k < |slots| ==> slots[k].None?
    ensures forall i :: 0 <= i < k ==> slots[i].Some?
  {
    if slots == [] || slots[0].None? then 0 else 1 + FirstFree(slots[1..])
  }

  /** The first known name equal to the key ignoring case. */
  function KnownIndex(known: seq<string>, key: string): (k: nat)
    ensures k <= |known|
    ensures k < |known| ==> SameIgnoringCase(key, known[k])
    ensures forall i :: 0 <= i < k ==> !SameIgnoringCase(key, known[i])
  {
    if known == [] || SameIgnoringCase(key, known[0]) then 0 else 1 + KnownIndex(known[1..], key)
  }

  predicate IsKnown(known: seq<string>, key: string) {
    KnownIndex(known, key) < |known|
  }

  /** The spelling under which a key is stored. */
  function Spelling(known: seq<string>, key: string): (name: string)
    ensures SameIgnoringCase(name, key)
  {
    var k := KnownIndex(known, key);
    if k < |known| then known[k] else key
  }

  function Get(slots: Slots, key: string): Option<string> {
    var k := FirstMatch(slots, key);
    if k < |slots| then Some(slots[k].value.value) else None
  }

  /** The row after a successful set; a failed one leaves the row alone. */
  function Put(known: seq<string>, slots: Slots, key: string, value: string): (r: Slots)
    ensures |r| == |slots|
  {
    var k := FirstMatch(slots, key);
    var f := FirstFree(slots);
    if k < |slots| then slots[k := Some(slots[k].value.(value := value))]
    else if f < |slots| then slots[f := Some(Entry(Spelling(known, key), value))]
    else slots
  }

  lemma PutFills(known: seq<string>, slots: Slots, key: string, value: string)
    requires FirstMatch(slots, key) == |slots| && FirstFree(slots) < |slots|
    ensures var f := FirstFree(slots);
            slots[f].None? && Put(known, slots, key, value) == slots[f := Some(Entry(Spelling(known, key), value))]
    ensures forall i :: 0 <= i < |slots| ==> !Matches(slots[i], key)
  {
  }

  lemma PutReplaces(known: seq<string>, slots: Slots, key: string, value: string)
    requires FirstMatch(slots, key) < |slots|
    ensures var k := FirstMatch(slots, key);
            slots[k].Some? && Put(known, slots, key, value) == slots[k := Some(slots[k].value.(value := value))]
  {
  }

  predicate PutSucceeds(slots: Slots, key: string) {
    FirstMatch(slots, key) < |slots| || FirstFree(slots) < |slots|
  }

  function Remove(slots: Slots, key: string): (r: Slots)
    ensures |r| == |slots|
  {
    seq(|slots|, i requires 0 <= i < |slots| => if Matches(slots[i], key) then None else slots[i])
  }

  // ----- The map -----

  /** The finite map the row stands for, keyed by lower-cased names. */
  function Table(slots: Slots): map<string, string> {
    if slots == [] then map[]
    else if slots[0].None? then Table(slots[1..])
    else Table(slots[1..])[Lower(slots[0].value.name) := slots[0].value.value]
  }

  lemma {:induction false} TableIsGet(slots: Slots, name: string)
    ensures name in Table(slots) <==> Lower(name) == name && Get(slots, name).Some?
    ensures name in Table(slots) ==> Get(slots, name) == Some(Table(slots)[name])
  {
    if slots != [] {
      TableIsGet(slots[1..], name);
      if slots[0].Some? { LowerLower(slots[0].value.name); }
      if !Matches(slots[0], name) {
        assert Get(slots, name) == Get(slots[1..], name);
      }
    }
  }

  lemma FirstMatchIs(slots: Slots, key: string, k: nat)
    requires k <= |slots|
    requires k < |slots| ==> Matches(slots[k], key)
    requires forall i :: 0 <= i < k ==> !Matches(slots[i], key)
    ensures FirstMatch(slots, key) == k
  {
  }

  lemma GetIgnoresCase(slots: Slots, a: string, b: string)
    requires SameIgnoringCase(a, b)
    ensures FirstMatch(slots, a) == FirstMatch(slots, b)
  {
    FirstMatchIs(slots, a, FirstMatch(slots, b));
  }

  /** A get is a lookup in the map at the lower-cased key. */
  lemma {:induction false} GetLaw(slots: Slots, key: string)
    ensures Get(slots, key)
            == if Lower(key) in Table(slots) then Some(Table(slots)[Lower(key)]) else None
  {
    LowerLower(key);
    TableIsGet(slots, Lower(key));
    GetIgnoresCase(slots, key, Lower(key));
  }

  lemma {:induction false} PutClean(known: seq<string>, slots: Slots, key: string, value: string)
    requires Clean(slots)
    ensures Clean(Put(known, slots, key, value))
  {
    var r := Put(known, slots, key, value);
    forall i, j | 0 <= i < j < |r| && r[i].Some? && r[j].Some?
      ensures !SameIgnoringCase(r[i].value.name, r[j].value.name)
    {
      if FirstMatch(slots, key) == |slots| {
        assert !Matches(slots[i], key) && !Matches(slots[j], key);
      }
    }
  }

  lemma GetAfterPut(known: seq<string>, slots: Slots, key: string, value: string, name: string)
    requires PutSucceeds(slots, key)
    ensures Get(Put(known, slots, key, value), name)
            == if SameIgnoringCase(key, name) then Some(value) else Get(slots, name)
  {
    var r := Put(known, slots, key, value);
    var k := FirstMatch(slots, key);
    var m := FirstMatch(slots, name);
    if k < |slots| {
      assert forall i :: 0 <= i < |r| ==> (Matches(r[i], name) <==> Matches(slots[i], name));
      FirstMatchIs(r, name, m);
      if SameIgnoringCase(key, name) { GetIgnoresCase(slots, key, name); }
    } else {
      var f := FirstFree(slots);
      assert forall i :: 0 <= i < |r| && i != f ==> r[i] == slots[i];
      assert Matches(r[f], name) <==> SameIgnoringCase(key, name);
      if SameIgnoringCase(key, name) {
        assert forall i :: 0 <= i < |slots| ==> !Matches(slots[i], key);
        FirstMatchIs(r, name, f);
      } else {
        FirstMatchIs(r, name, m);
      }
    }
  }

  lemma GetAfterRemove(slots: Slots, key: string, name: string)
    ensures Get(Remove(slots, key), name)
            == if SameIgnoringCase(key, name) then None else Get(slots, name)
  {
    var r := Remove(slots, key);
    if SameIgnoringCase(key, name) {
      FirstMatchIs(r, name, |r|);
    } else {
      assert forall i :: 0 <= i < |r| ==> (Matches(r[i], name) <==> Matches(slots[i], name));
      FirstMatchIs(r, name, FirstMatch(slots, name));
    }
  }

  /** A set that succeeds updates the map at the lower-cased key. */
  lemma PutLaw(known: seq<string>, slots: Slots, key: string, value: string)
    requires PutSucceeds(slots, key)
    ensures Table(Put(known, slots, key, value)) == Table(slots)[Lower(key) := value]
  {
    LowerLower(key);
    var r := Put(known, slots, key, value);
    forall name: string
      ensures name in Table(r) <==> name in Table(slots)[Lower(key) := value]
      ensures name in Table(r) ==> Table(r)[name] == Table(slots)[Lower(key) := value][name]
    {
      TableIsGet(r, name);
      TableIsGet(slots, name);
      GetAfterPut(known, slots, key, value, name);
    }
  }

  /** A clear removes the lower-cased key from the map. */
  lemma RemoveLaw(slots: Slots, key: string)
    ensures Table(Remove(slots, key)) == Table(slots) - {Lower(key)}
  {
    LowerLower(key);
    var r := Remove(slots, key);
    forall name: string
      ensures name in Table(r) <==> name in Table(slots) - {Lower(key)}
      ensures name in Table(r) ==> Table(r)[name] == Table(slots)[name]
    {
      TableIsGet(r, name);
      TableIsGet(slots, name);
      GetAfterRemove(slots, key, name);
    }
  }

  lemma RemoveClean(slots: Slots, key: string)
    requires Clean(slots)
    ensures Clean(Remove(slots, key))
  {
    var r := Remove(slots, key);
    assert forall i :: 0 <= i < |r| && r[i].Some? ==> r[i] == slots[i];
  }

  // ----- Capacity -----

  function Occupied(slot: Option<Entry>): nat {
    if slot.Some? then 1 else 0
  }

  function Count(slots: Slots): nat {
    SumBy(slots, Occupied)
  }

  lemma {:induction false} TableSize(slots: Slots)
    requires Clean(slots)
    ensures |Table(slots)| == Count(slots)
  {
    if slots != [] {
      var rest := slots[1..];
      assert Clean(rest) by {
        assert forall i :: 0 <= i < |rest| ==> rest[i] == slots[i + 1];
      }
      TableSize(rest);
      if slots[0].Some? {
        var first := slots[0].value.name;
        assert Get(rest, first) == None by {
          assert forall i :: 0 <= i < |rest| ==> rest[i] == slots[i + 1];
        }
        GetLaw(rest, first);
      }
    }
  }

  lemma {:induction false} CountBound(slots: Slots)
    ensures Count(slots) <= |slots|
    ensures Count(slots) == |slots| <==> FirstFree(slots) == |slots|
  {
    if slots != [] { CountBound(slots[1..]); }
  }

  /** A set fails exactly when the key is absent and the map is as large as the row. */
  lemma {:induction false} PutFailsIff(slots: Slots, key: string)
    requires Clean(slots)
    ensures !PutSucceeds(slots, key)
            <==> Lower(key) !in Table(slots) && |Table(slots)| == |slots|
  {
    GetLaw(slots, key);
    TableSize(slots);
    CountBound(slots);
  }

  // ----- Any sequence of operations -----

  datatype Operation = Set(key: string, value: string) | Clear(key: string)

  function Perform(known: seq<string>, slots: Slots, op: Operation): (r: Slots)
    ensures |r| == |slots|
  {
    match op
    case Set(key, value) => Put(known, slots, key, value)
    case Clear(key) => Remove(slots, key)
  }

  function PerformAll(known: seq<string>, slots: Slots, ops: seq<Operation>): (r: Slots)
    ensures |r| == |slots|
    decreases |ops|
  {
    if ops == [] then slots else PerformAll(known, Perform(known, slots, ops[0]), ops[1..])
  }

  /** The same operation on a map that holds at most `room` keys. */
  function MapStep(m: map<string, string>, op: Operation, room: nat): map<string, string> {
    match op
    case Set(key, value) => if Lower(key) in m || |m| != room then m[Lower(key) := value] else m
    case Clear(key) => m - {Lower(key)}
  }

  function MapAll(m: map<string, string>, ops: seq<Operation>, room: nat): map<string, string>
    decreases |ops|
  {
    if ops == [] then m else MapAll(MapStep(m, ops[0], room), ops[1..], room)
  }

  lemma {:induction false} EmptyTable(n: nat)
    ensures Clean(seq(n, _ => None)) && Table(seq(n, _ => None)) == map[]
  {
    if n > 0 {
      var slots: Slots := seq(n, _ => None);
      assert slots[1..] == seq(n - 1, _ => None);
      EmptyTable(n - 1);
    }
  }

  lemma {:induction false} PerformLaw(known: seq<string>, slots: Slots, op: Operation)
    requires Clean(slots)
    ensures Clean(Perform(known, slots, op))
    ensures Table(Perform(known, slots, op)) == MapStep(Table(slots), op, |slots|)
  {
    match op
    case Set(key, value) =>
      PutClean(known, slots, key, value);
      PutFailsIff(slots, key);
      if PutSucceeds(slots, key) { PutLaw(known, slots, key, value); }
    case Clear(key) =>
      RemoveClean(slots, key);
      RemoveLaw(slots, key);
  }

  /** Every sequence of sets and clears on the row refines the same sequence on the map. */
  lemma {:induction false} RefinesMap(known: seq<string>, slots: Slots, ops: seq<Operation>)
    requires Clean(slots)
    ensures Clean(PerformAll(known, slots, ops))
    ensures Table(PerformAll(known, slots, ops)) == MapAll(Table(slots), ops, |slots|)
    decreases |ops|
  {
    if ops != [] {
      PerformLaw(known, slots, ops[0]);
      RefinesMap(known, Perform(known, slots, ops[0]), ops[1..]);
    }
  }

  // ----- Listing the names -----

  /** The names in slot order. */
  function Names(slots: Slots): (names: seq<string>)
    ensures |names| == Count(slots)
  {
    if slots == [] then [] else (if slots[0].Some? then [slots[0].value.name] else []) + Names(slots[1..])
  }

  /** The occupied slots come first. */
  predicate Packed(slots: Slots) {
    forall i, j :: 0 <= i < j < |slots| && slots[j].Some? ==> slots[i].Some?
  }

  lemma {:induction false} PackedIff(slots: Slots)
    ensures Packed(slots) <==> forall i :: 0 <= i < |slots| && slots[i].Some? ==> i < Count(slots)
    ensures Count(slots) <= |slots|
    ensures Packed(slots) ==>
              forall i :: 0 <= i < Count(slots) ==> slots[i].Some? && Names(slots)[i] == slots[i].value.name
  {
    if slots != [] {
      var rest := slots[1..];
      PackedIff(rest);
      CountBound(rest);
      assert forall i :: 0 <= i < |rest| ==> rest[i] == slots[i + 1];
      if slots[0].Some? {
        assert Packed(slots) <==> Packed(rest);
        assert (forall i :: 0 <= i < |slots| && slots[i].Some? ==> i < Count(slots))
               <==> (forall i :: 0 <= i < |rest| && rest[i].Some? ==> i < Count(rest));
      } else if Count(rest) > 0 {
        var j := SumWitness(rest, Occupied);
        assert slots[j + 1].Some?;
        assert !Packed(slots);
        HighSlot(rest);
      }
    }
  }

  /** If anything is stored, something is stored at or beyond position Count - 1. */
  lemma {:induction false} HighSlot(slots: Slots)
    requires Count(slots) > 0
    ensures exists i :: Count(slots) - 1 <= i < |slots| && slots[i].Some?
  {
    var rest := slots[1..];
    if Count(rest) > 0 {
      HighSlot(rest);
      var i :| Count(rest) - 1 <= i < |rest| && rest[i].Some?;
      assert slots[i + 1].Some?;
    } else {
      assert slots[0].Some?;
    }
  }

  /** Sets keep the row packed; only a clear can make a hole. */
  lemma PutKeepsPacked(known: seq<string>, slots: Slots, key: string, value: string)
    requires Packed(slots)
    ensures Packed(Put(known, slots, key, value))
  {
  }

  /**
   A clear keeps the row packed exactly when it finds nothing to clear or clears the last
   occupied slot.
   */
  lemma RemoveKeepsPackedIff(slots: Slots, key: string)
    requires Clean(slots) && Packed(slots)
    ensures Packed(Remove(slots, key))
            <==> FirstMatch(slots, key) == |slots| || FirstMatch(slots, key) == Count(slots) - 1
  {
    PackedIff(slots);
    var k := FirstMatch(slots, key);
    var r := Remove(slots, key);
    if k < |slots| {
      assert forall i :: 0 <= i < |slots| && i != k ==> r[i] == slots[i];
      assert r[k] == None;
      if k < Count(slots) - 1 {
        assert r[k + 1].Some?;
      }
    } else {
      assert r == slots;
    }
  }

  /** Two sets and a clear of the first name are enough to make a hole in any row of two or more. */
  lemma HoleByClear(known: seq<string>, n: nat, a: string, u: string, b: string, v: string)
    requires n >= 2 && !SameIgnoringCase(a, b)
    ensures !Packed(PerformAll(known, seq(n, _ => None), [Set(a, u), Set(b, v), Clear(a)]))
  {
    var s0: Slots := seq(n, _ => None);
    var ops := [Set(a, u), Set(b, v), Clear(a)];
    var first, second := Some(Entry(Spelling(known, a), u)), Some(Entry(Spelling(known, b), v));
    var s1 := s0[0 := first];
    var s2 := s1[1 := second];
    FirstMatchIs(s0, a, n);
    assert FirstFree(s0) == 0;
    assert Put(known, s0, a, u) == s1;
    FirstMatchIs(s1, b, n);
    assert FirstFree(s1) == 1;
    assert Put(known, s1, b, v) == s2;
    var s3 := Remove(s2, a);
    assert s3[0].None? && s3[1] == second;
    assert ops[1..] == [Set(b, v), Clear(a)] && ops[1..][1..] == [Clear(a)] && ops[1..][1..][1..] == [];
    assert PerformAll(known, s2, [Clear(a)]) == s3;
    assert PerformAll(known, s1, ops[1..]) == s3;
  }
}
