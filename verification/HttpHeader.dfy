/**
 The header list in place: two arrays of string pointers. A name slot points either at an
 interned constant or at a duplicate the list owns; a value slot always points at a
 duplicate the list owns.
 */
module HttpHeader {
  import opened Seqs
  import opened CStrings
  import opened HeaderTable

  /** A string in memory. Two strings with the same text are still two objects. */
  class Str {
    const text: string

    constructor (text: string)
      ensures this.text == text
    {
      this.text := text;
    }
  }

  function TextsOf(ss: seq<Str>): (r: seq<string>)
    ensures |r| == |ss| && forall i :: 0 <= i < |ss| ==> r[i] == ss[i].text
  {
    seq(|ss|, i requires 0 <= i < |ss| => ss[i].text)
  }

  /** What listing the names comes to. */
  datatype Listing = Nothing | Listed(names: seq<string>) | OutOfBounds

  lemma KnownIgnoresCase(known: seq<string>, a: string, b: string)
    requires SameIgnoringCase(a, b)
    ensures IsKnown(known, a) <==> IsKnown(known, b)
  {
  }

  class HeaderList {
    /** The interned names, shared by all lists and never freed. */
    const known: seq<Str>
    const header: array<Str?>
    const value: array<Str?>
    /** Every string duplicated on behalf of this list. */
    ghost var dups: set<Str>
    /** Every call to free so far. */
    ghost var freed: multiset<Str>

    ghost predicate Shape()
      reads header, value
    {
      && header.Length == value.Length == HTTP_HEADER_MAX && header != value
      && (forall i :: 0 <= i < HTTP_HEADER_MAX ==> (header[i] == null <==> value[i] == null))
    }

    function SlotAt(i: nat): Option<Entry>
      requires i < header.Length && i < value.Length
      reads header, value
    {
      if header[i] == null || value[i] == null then None else Some(Entry(header[i].text, value[i].text))
    }

    /** The list as a value. */
    ghost function Contents(): (s: Slots)
      requires Shape()
      reads header, value
      ensures |s| == HTTP_HEADER_MAX
    {
      seq(HTTP_HEADER_MAX, i requires 0 <= i < HTTP_HEADER_MAX && Shape() reads header, value => SlotAt(i))
    }

    /** The list points at this string from some slot. */
    ghost predicate PointsAt(s: Str)
      requires Shape()
      reads header, value
    {
      exists i :: 0 <= i < HTTP_HEADER_MAX && (header[i] == s || value[i] == s)
    }

    /** What the slots may point at, and that no two of them share a string. */
    ghost predicate Pointers()
      requires Shape()
      reads this, header, value
    {
      && (forall s :: s in known ==> s !in dups)
      && (forall i :: 0 <= i < HTTP_HEADER_MAX && header[i] != null ==>
            if IsKnown(TextsOf(known), header[i].text) then header[i] in known else header[i] in dups)
      && (forall i :: 0 <= i < HTTP_HEADER_MAX && value[i] != null ==> value[i] in dups)
      && (forall i, j :: 0 <= i < j < HTTP_HEADER_MAX && header[i] != null ==> header[i] != header[j])
      && (forall i, j :: 0 <= i < j < HTTP_HEADER_MAX && value[i] != null ==> value[i] != value[j])
      && (forall i, j :: 0 <= i < HTTP_HEADER_MAX && 0 <= j < HTTP_HEADER_MAX && value[i] != null ==>
            header[j] != value[i])
    }

    /** A duplicate is freed once, and not before the last pointer to it is gone. */
    ghost predicate Ownership()
      requires Shape()
      reads this, header, value
    {
      && Pointers()
      && (forall s :: s in dups ==> freed[s] == if PointsAt(s) then 0 else 1)
      && (forall s :: s in freed ==> s in dups)
    }

    ghost predicate Valid()
      reads this, header, value
    {
      Shape() && Clean(Contents()) && Ownership()
    }

    constructor (known: seq<Str>)
      ensures Valid() && fresh(header) && fresh(value)
      ensures this.known == known && dups == {} && freed == multiset{}
      ensures Contents() == seq(HTTP_HEADER_MAX, _ => None)
    {
      this.known := known;
      header := new Str?[HTTP_HEADER_MAX](_ => null);
      value := new Str?[HTTP_HEADER_MAX](_ => null);
      dups := {};
      freed := multiset{};
    }

    /** Lines 150-163: the first interned name equal to the key ignoring case. */
    method HeaderIsKnown(key: string) returns (r: Str?)
      ensures r != null <==> IsKnown(TextsOf(known), key)
      ensures r != null ==> r in known && r == known[KnownIndex(TextsOf(known), key)]
    {
      ghost var names := TextsOf(known);
      var i := 0;
      while i < |known|
        invariant 0 <= i <= |known|
        invariant forall j :: 0 <= j < i ==> !SameIgnoringCase(key, names[j])
      {
        if SameIgnoringCase(key, known[i].text) {
          assert KnownIndex(names, key) == i;
          return known[i];
        }
        i := i + 1;
      }
      return null;
    }

    /** Lines 197-211: the value of the first slot whose name equals the key ignoring case. */
    method GetValue(key: string) returns (r: Str?)
      requires Valid()
      ensures var k := FirstMatch(Contents(), key);
              if k < HTTP_HEADER_MAX then r != null && r == value[k] else r == null
      ensures (if r == null then None else Some(r.text)) == Get(Contents(), key)
    {
      ghost var slots := Contents();
      var i := 0;
      while i < HTTP_HEADER_MAX
        invariant 0 <= i <= HTTP_HEADER_MAX
        invariant forall j :: 0 <= j < i ==> !Matches(slots[j], key)
      {
        if header[i] != null && SameIgnoringCase(header[i].text, key) {
          assert Matches(slots[i], key);
          FirstMatchIs(slots, key, i);
          if value[i] == null {
            break;
          }
          return value[i];
        }
        i := i + 1;
      }
      return null;
    }

    /** Lines 165-195. */
    method SetValue(key: string, text: string) returns (ok: bool)
      requires Valid()
      modifies this, header, value
      ensures Valid()
      ensures ok == PutSucceeds(old(Contents()), key)
      ensures Contents() == Put(TextsOf(known), old(Contents()), key, text)
      ensures old(dups) <= dups && fresh(dups - old(dups))
    {
      hide HeaderList.Ownership;
      ghost var slots := Contents();
      ghost var k := FirstMatch(slots, key);
      var tmpVal := GetValue(key);
      if tmpVal == null {
        var i := 0;
        while i < HTTP_HEADER_MAX
          invariant 0 <= i <= HTTP_HEADER_MAX
          invariant forall j :: 0 <= j < i ==> slots[j].Some?
          invariant unchanged(this) && unchanged(header) && unchanged(value)
        {
          if header[i] == null {
            assert slots[i].None?;
            Insert(i, key, text);
            return true;
          }
          i := i + 1;
        }
      } else {
        var i := 0;
        while i < HTTP_HEADER_MAX
          invariant 0 <= i <= k
          invariant unchanged(this) && unchanged(header) && unchanged(value)
        {
          assert value[k] == tmpVal;
          DistinctValues(i, k);
          if value[i] == tmpVal {
            Replace(i, key, text);
            return true;
          }
          i := i + 1;
        }
      }
      return false;
    }

    lemma DistinctValues(i: nat, k: nat)
      requires Valid() && i < HTTP_HEADER_MAX && k < HTTP_HEADER_MAX && value[k] != null
      ensures value[i] == value[k] <==> i == k
    {
    }

    /** Lines 173-178: the interned name for a key, or a duplicate of the key. */
    method InternedOrCopy(key: string) returns (name: Str)
      modifies this
      ensures name.text == Spelling(TextsOf(known), key)
      ensures IsKnown(TextsOf(known), name.text) == IsKnown(TextsOf(known), key)
      ensures if IsKnown(TextsOf(known), key) then name in known && dups == old(dups)
              else fresh(name) && dups == old(dups) + {name}
      ensures freed == old(freed)
    {
      var interned := HeaderIsKnown(key);
      if interned == null {
        name := new Str(key);
        dups := dups + {name};
      } else {
        name := interned;
      }
    }

    /** Lines 173-181: fill the first empty slot. */
    method Insert(i: nat, key: string, text: string)
      requires Valid()
      requires i < HTTP_HEADER_MAX && i == FirstFree(Contents())
      requires FirstMatch(Contents(), key) == HTTP_HEADER_MAX
      modifies this, header, value
      ensures Valid()
      ensures Contents() == Put(TextsOf(known), old(Contents()), key, text)
      ensures old(dups) <= dups && fresh(dups - old(dups))
    {
      ghost var slots := Contents();
      hide Put, FirstMatch, FirstFree, Clean, Spelling, IsKnown, SameIgnoringCase, Matches;
      hide TextsOf, HeaderList.PointsAt, HeaderList.Contents, HeaderList.SlotAt;
      hide HeaderList.Ownership, HeaderList.Pointers;
      KnownNotOwned();
      SlotIsEmpty(i);
      PutFills(TextsOf(known), slots, key, text);
      PutClean(TextsOf(known), slots, key, text);
      NoHeaderMatches(key);
      var name := InternedOrCopy(key);
      var copy := new Str(text);
      dups := dups + {copy};
      StorePair(i, name, copy);
      InsertKeepsOwnership(i, name, copy);
    }

    lemma KnownNotOwned()
      requires Shape() && Ownership()
      ensures forall s :: s in known ==> s !in dups
    {
    }

    lemma SlotIsEmpty(i: nat)
      requires Shape() && i < HTTP_HEADER_MAX && i == FirstFree(Contents())
      ensures header[i] == null && value[i] == null
    {
      assert Contents()[i].None?;
    }

    /** Lines 174-180: both pointers of a slot at once. */
    method StorePair(i: nat, name: Str, copy: Str)
      requires Shape() && i < HTTP_HEADER_MAX
      modifies header, value
      ensures Shape() && header[i] == name && value[i] == copy
      ensures forall j :: 0 <= j < HTTP_HEADER_MAX && j != i ==>
                header[j] == old(header[j]) && value[j] == old(value[j])
      ensures Contents() == old(Contents())[i := Some(Entry(name.text, copy.text))]
    {
      header[i] := name;
      value[i] := copy;
    }

    lemma NoHeaderMatches(key: string)
      requires Shape() && forall j :: 0 <= j < HTTP_HEADER_MAX ==> !Matches(Contents()[j], key)
      ensures forall j :: 0 <= j < HTTP_HEADER_MAX && header[j] != null ==> !SameIgnoringCase(header[j].text, key)
    {
      forall j | 0 <= j < HTTP_HEADER_MAX && header[j] != null ensures !SameIgnoringCase(header[j].text, key) {
        assert !Matches(Contents()[j], key);
      }
    }

    twostate lemma InsertKeepsOwnership(i: nat, new name: Str, new copy: Str)
      requires old(Shape() && Ownership()) && Shape()
      requires i < HTTP_HEADER_MAX && old(header[i] == null && value[i] == null)
      requires header[i] == name && value[i] == copy
      requires forall j :: 0 <= j < HTTP_HEADER_MAX && j != i ==>
                 header[j] == old(header[j]) && value[j] == old(value[j])
      requires fresh(copy) && copy != name
      requires old(dups) <= dups && copy in dups
      requires forall s :: s in dups ==> s in old(dups) || s == copy || s == name
      requires if IsKnown(TextsOf(known), name.text) then name in known && name !in dups
               else name in dups && name !in known && name !in old(dups)
      requires forall j :: 0 <= j < HTTP_HEADER_MAX && j != i ==> header[j] != name
      requires freed == old(freed)
      ensures Ownership()
    {
      forall s | s in dups ensures freed[s] == if PointsAt(s) then 0 else 1 {
        if s in old(dups) {
          assert s != copy && s != name;
          assert PointsAt(s) <==> old(PointsAt(s));
        } else {
          assert s == header[i] || s == value[i];
          assert PointsAt(s);
          assert s !in freed;
        }
      }
      forall j | 0 <= j < HTTP_HEADER_MAX && j != i && value[j] != null ensures value[j] != name {
        assert value[j] in old(dups);
      }
    }

    /** Lines 186-187: free the old value and store a duplicate of the new one. */
    method Replace(i: nat, ghost key: string, text: string)
      requires Valid()
      requires i < HTTP_HEADER_MAX && i == FirstMatch(Contents(), key)
      modifies this, value
      ensures Valid()
      ensures Contents() == Put(TextsOf(known), old(Contents()), key, text)
      ensures old(dups) <= dups && fresh(dups - old(dups))
    {
      ghost var slots := Contents();
      hide Put, FirstMatch, FirstFree, Clean, Spelling, IsKnown, TextsOf;
      hide HeaderList.PointsAt, HeaderList.Contents, HeaderList.SlotAt, HeaderList.Ownership, HeaderList.Pointers;
      PutClean(TextsOf(known), slots, key, text);
      PutReplaces(TextsOf(known), slots, key, text);
      SlotIsFull(i);
      var copy := Renew(i, text);
      ReplaceKeepsOwnership(i, copy);
    }

    lemma SlotIsFull(i: nat)
      requires Shape() && i < HTTP_HEADER_MAX && Contents()[i].Some?
      ensures header[i] != null && value[i] != null
    {
    }

    /** Lines 186-187: the old value is freed, a duplicate of the new one takes its place. */
    method Renew(i: nat, text: string) returns (copy: Str)
      requires Shape() && i < HTTP_HEADER_MAX && header[i] != null && value[i] != null
      modifies this, value
      ensures Shape() && value[i] == copy && fresh(copy)
      ensures forall j :: 0 <= j < HTTP_HEADER_MAX ==>
                header[j] == old(header[j]) && (j != i ==> value[j] == old(value[j]))
      ensures dups == old(dups) + {copy} && freed == old(freed) + multiset{old(value[i])}
      ensures old(Contents())[i].Some?
      ensures Contents() == old(Contents())[i := Some(old(Contents())[i].value.(value := text))]
    {
      freed := freed + multiset{value[i]};
      copy := new Str(text);
      dups := dups + {copy};
      value[i] := copy;
    }

    twostate lemma ReplaceKeepsOwnership(i: nat, new copy: Str)
      requires old(Shape() && Ownership()) && Shape()
      requires i < HTTP_HEADER_MAX && old(value[i] != null) && value[i] == copy
      requires forall j :: 0 <= j < HTTP_HEADER_MAX ==>
                 header[j] == old(header[j]) && (j != i ==> value[j] == old(value[j]))
      requires fresh(copy)
      requires dups == old(dups) + {copy} && freed == old(freed) + multiset{old(value[i])}
      ensures Ownership()
    {
      hide IsKnown;
      assert Pointers();
      forall s | s in dups ensures freed[s] == if PointsAt(s) then 0 else 1 {
        if s == copy {
          assert s == value[i] && PointsAt(s) && s !in freed;
        } else if s == old(value[i]) {
          assert old(PointsAt(s)) && !PointsAt(s);
        } else {
          assert PointsAt(s) <==> old(PointsAt(s));
        }
      }
    }

    /** Lines 263-280. */
    method ClearValue(name: string)
      requires Valid()
      modifies this, header, value
      ensures Valid()
      ensures Contents() == Remove(old(Contents()), name)
      ensures dups == old(dups)
    {
      ghost var slots := Contents();
      ghost var goal := Remove(slots, name);
      RemoveClean(slots, name);
      hide HeaderList.Ownership, Clean, SameIgnoringCase;
      var i := 0;
      while i < HTTP_HEADER_MAX
        invariant 0 <= i <= HTTP_HEADER_MAX
        invariant Shape() && Ownership() && dups == old(dups)
        invariant forall j :: 0 <= j < i ==> SlotAt(j) == goal[j]
        invariant forall j :: i <= j < HTTP_HEADER_MAX ==> SlotAt(j) == slots[j]
      {
        assert SlotAt(i) == slots[i];
        if header[i] != null && SameIgnoringCase(header[i].text, name) {
          ClearAt(i, name);
        }
        assert SlotAt(i) == goal[i];
        i := i + 1;
      }
      assert Contents() == goal;
    }

    /** Lines 268-275: free what slot i owns and empty it. */
    method ClearAt(i: nat, name: string)
      requires Shape() && Ownership()
      requires i < HTTP_HEADER_MAX && header[i] != null && SameIgnoringCase(header[i].text, name)
      modifies this, header, value
      ensures Shape() && Ownership() && dups == old(dups)
      ensures SlotAt(i) == None
      ensures forall j :: 0 <= j < HTTP_HEADER_MAX && j != i ==> SlotAt(j) == old(SlotAt(j))
    {
      KnownIgnoresCase(TextsOf(known), header[i].text, name);
      hide IsKnown, SameIgnoringCase, HeaderList.PointsAt, HeaderList.Ownership, TextsOf;
      var interned := HeaderIsKnown(name);
      EmptySlot(i, interned != null);
      ClearKeepsOwnership(i);
    }

    /** Lines 269-275: the value is freed, and the name unless it is interned. */
    method EmptySlot(i: nat, interned: bool)
      requires Shape() && i < HTTP_HEADER_MAX && header[i] != null
      modifies this, header, value
      ensures Shape() && dups == old(dups) && header[i] == null && value[i] == null
      ensures forall j :: 0 <= j < HTTP_HEADER_MAX && j != i ==>
                header[j] == old(header[j]) && value[j] == old(value[j])
      ensures freed == old(freed) + multiset{old(value[i])}
                       + if interned then multiset{} else multiset{old(header[i])}
    {
      if !interned {
        freed := freed + multiset{header[i]};
      }
      header[i] := null;
      freed := freed + multiset{value[i]};
      value[i] := null;
    }

    twostate lemma ClearKeepsOwnership(i: nat)
      requires old(Shape() && Ownership()) && Shape()
      requires i < HTTP_HEADER_MAX && old(header[i]) != null
      requires header[i] == null && value[i] == null
      requires forall j :: 0 <= j < HTTP_HEADER_MAX && j != i ==>
                 header[j] == old(header[j]) && value[j] == old(value[j])
      requires dups == old(dups)
      requires freed == old(freed) + multiset{old(value[i])}
                        + if IsKnown(TextsOf(known), old(header[i]).text) then multiset{} else multiset{old(header[i])}
      ensures Ownership()
    {
      forall s | s in dups ensures freed[s] == if PointsAt(s) then 0 else 1 {
        if s == old(header[i]) || s == old(value[i]) {
          assert old(PointsAt(s));
          assert !PointsAt(s);
        } else {
          assert PointsAt(s) <==> old(PointsAt(s));
        }
      }
    }

    /** Lines 217-222. */
    method CountNames() returns (n: nat)
      requires Shape()
      ensures n == Count(Contents())
    {
      ghost var slots := Contents();
      n := 0;
      var i := 0;
      assert slots[..0] == [];
      while i < HTTP_HEADER_MAX
        invariant 0 <= i <= HTTP_HEADER_MAX
        invariant n + Count(slots[i..]) == Count(slots)
      {
        assert slots[i..][1..] == slots[i + 1..];
        if header[i] != null {
          n := n + 1;
        }
        i := i + 1;
      }
    }

    /**
     Lines 213-261. The copies are stored at the slot's own index, in an array with one place
     per name, so a slot beyond the number of names has no place to go.
     */
    method GetHeaders() returns (r: Listing)
      requires Shape()
      ensures Count(Contents()) == 0 ==> r == Nothing
      ensures Count(Contents()) > 0 && Packed(Contents()) ==> r == Listed(Names(Contents()))
      ensures Count(Contents()) > 0 && !Packed(Contents()) ==> r == OutOfBounds
    {
      ghost var slots := Contents();
      PackedIff(slots);
      var lNumNames := CountNames();
      if lNumNames == 0 {
        return Nothing;
      }
      var lNames := new string[lNumNames](_ => "");
      var i := 0;
      while i < HTTP_HEADER_MAX
        invariant 0 <= i <= HTTP_HEADER_MAX
        invariant forall j :: 0 <= j < i && slots[j].Some? ==>
                    j < lNumNames && lNames[j] == slots[j].value.name
      {
        assert header[i] != null <==> slots[i].Some?;
        if header[i] != null {
          if i >= lNumNames {
            return OutOfBounds;
          }
          lNames[i] := header[i].text;
        }
        i := i + 1;
      }
      assert lNames[..] == Names(slots);
      return Listed(lNames[..]);
    }

    /** Lines 133-148: free everything the slots own. The slots keep their pointers. */
    method Destroy()
      requires Valid()
      modifies this
      ensures dups == old(dups) && freed == multiset(dups)
      ensures forall s :: s in known ==> s !in freed
    {
      hide Clean, IsKnown, HeaderList.Contents, HeaderList.Owns, HeaderList.PointsFrom;
      PointsFromEnds();
      var i := 0;
      while i < HTTP_HEADER_MAX
        invariant 0 <= i <= HTTP_HEADER_MAX
        invariant Shape() && Pointers() && dups == old(dups)
        invariant forall s :: s in dups ==> freed[s] == if PointsFrom(i, s) then 0 else 1
        invariant forall s :: s in freed ==> s in dups
      {
        ghost var was := freed;
        FreeSlot(i);
        OwnsOnce(i);
        i := i + 1;
      }
      assert forall s :: s in dups ==> freed[s] == 1;
      assert forall s :: freed[s] == multiset(dups)[s];
    }

    /** Lines 138-144: free the name unless it is interned, and the value. */
    method FreeSlot(i: nat)
      requires Shape() && i < HTTP_HEADER_MAX && Pointers()
      modifies this
      ensures Shape() && dups == old(dups) && freed == old(freed) + multiset(Owns(i))
      ensures Owns(i) <= dups
    {
      hide HeaderList.Owns, HeaderList.OwnsName;
      FreeName(i);
      if value[i] != null {
        freed := freed + multiset{value[i]};
      }
      OwnsTwo(i);
    }

    /** Lines 138-141. */
    method FreeName(i: nat)
      requires Shape() && i < HTTP_HEADER_MAX
      modifies this
      ensures Shape() && dups == old(dups) && freed == old(freed) + multiset(OwnsName(i))
    {
      hide IsKnown;
      if header[i] != null {
        var interned := HeaderIsKnown(header[i].text);
        if interned == null {
          freed := freed + multiset{header[i]};
        }
      }
    }

    /** The name of slot i, when the list owns it. */
    ghost function OwnsName(i: nat): set<Str>
      requires Shape() && i < HTTP_HEADER_MAX
      reads header, value
    {
      if header[i] != null && !IsKnown(TextsOf(known), header[i].text) then {header[i]} else {}
    }

    lemma OwnsTwo(i: nat)
      requires Shape() && i < HTTP_HEADER_MAX && Pointers()
      ensures Owns(i) <= dups
      ensures multiset(Owns(i)) == multiset(OwnsName(i)) + if value[i] != null then multiset{value[i]} else multiset{}
    {
      assert value[i] != null ==> value[i] !in OwnsName(i);
      assert OwnsName(i) <= dups;
    }

    /** The strings slot i owns. */
    ghost function Owns(i: nat): set<Str>
      requires Shape() && i < HTTP_HEADER_MAX
      reads header, value
    {
      OwnsName(i) + (if value[i] != null then {value[i]} else {})
    }

    ghost predicate PointsFrom(lo: nat, s: Str)
      requires Shape()
      reads header, value
    {
      exists i :: lo <= i < HTTP_HEADER_MAX && (header[i] == s || value[i] == s)
    }

    lemma PointsFromEnds()
      requires Shape()
      ensures forall s: Str :: PointsFrom(0, s) <==> PointsAt(s)
      ensures forall s: Str :: !PointsFrom(HTTP_HEADER_MAX, s)
    {
    }

    /** A duplicate is owned by one slot at most. */
    lemma OwnsOnce(i: nat)
      requires Shape() && Pointers() && i < HTTP_HEADER_MAX
      ensures forall s :: s in dups ==> (PointsFrom(i, s) <==> s in Owns(i) || PointsFrom(i + 1, s))
      ensures forall s :: s in dups ==> !(s in Owns(i) && PointsFrom(i + 1, s))
    {
      hide IsKnown, TextsOf;
    }
  }

  /**
   The life of a list: any sequence of sets and clears, then destroy. The contents follow
   the row of slots, every duplicated string is freed exactly once, no interned one is.
   */
  method LifeOfAList(known: seq<Str>, ops: seq<Operation>) returns (list: HeaderList, ghost last: Slots)
    ensures last == PerformAll(TextsOf(known), seq(HTTP_HEADER_MAX, _ => None), ops)
    ensures Clean(last) && Table(last) == MapAll(map[], ops, 256)
    ensures list.freed == multiset(list.dups)
    ensures forall s :: s in known ==> s !in list.freed
  {
    list := new HeaderList(known);
    ghost var empty := list.Contents();
    EmptyTable(HTTP_HEADER_MAX);
    RefinesMap(TextsOf(known), empty, ops);
    for i := 0 to |ops|
      invariant list.Valid() && list.known == known
      invariant fresh(list) && fresh(list.header) && fresh(list.value)
      invariant PerformAll(TextsOf(known), list.Contents(), ops[i..])
                == PerformAll(TextsOf(known), empty, ops)
    {
      assert ops[i..][1..] == ops[i + 1..];
      match ops[i]
      case Set(key, value) => var ok := list.SetValue(key, value);
      case Clear(key) => list.ClearValue(key);
    }
    last := list.Contents();
    list.Destroy();
  }
}
