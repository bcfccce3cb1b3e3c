/** What the two slot-moving operations do to the entries: shifting toward a gap to make room
    for a key, and emptying a stretch of slots (cpp/gapped_array.h: insert, remove, relay). */
module SlotShift {
  import opened Segments
  import opened Slots
  import opened SlotSearch
  import opened EvenLayout
  import opened Drift

  /** x takes the place before slot ip; the slots between it and the gap move over by one. */
  ghost function ShiftIn<T>(s: seq<T>, ip: nat, gap: nat, x: T): seq<T>
    requires ip <= |s| && gap < |s|
  {
    if gap < ip then s[..gap] + s[gap + 1..ip] + [x] + s[ip..]
    else s[..ip] + [x] + s[ip..gap] + s[gap + 1..]
  }

  lemma DropGap<V>(data: seq<int>, vals: seq<V>, gap: nat)
    requires |data| == |vals| && gap < |data| && data[gap] == EMPTY_SLOT
    ensures Entries(Without(data, gap), Without(vals, gap)) == Entries(data, vals)
  {
    SplitAround(data, vals, gap);
    EntriesAppend(data[..gap], vals[..gap], data[gap + 1..], vals[gap + 1..]);
    assert Entries(data[..gap], vals[..gap]) + [] == Entries(data[..gap], vals[..gap]);
  }

  /** The shifted slots spell out the old entries with the new one at the insertion point. */
  lemma ShiftEntries<V>(data: seq<int>, vals: seq<V>, ip: nat, gap: nat, key: int, value: V)
    requires |data| == |vals| && ip <= |data| && gap < |data| && data[gap] == EMPTY_SLOT && IsReal(key)
    ensures Entries(ShiftIn(data, ip, gap, key), ShiftIn(vals, ip, gap, value))
         == Entries(data[..ip], vals[..ip]) + [(key, value)] + Entries(data[ip..], vals[ip..])
  {
    if gap < ip {
      DropLeft(data, ip, gap, key);
      DropLeft(vals, ip, gap, value);
      hide Entries, ShiftIn;
      DropGap(data[..ip], vals[..ip], gap);
      JoinEntries(Without(data[..ip], gap), Without(vals[..ip], gap), key, value, data[ip..], vals[ip..]);
    } else {
      DropRight(data, ip, gap, key);
      DropRight(vals, ip, gap, value);
      hide Entries, ShiftIn;
      DropGap(data[ip..], vals[ip..], gap - ip);
      JoinEntries(data[..ip], vals[..ip], key, value, Without(data[ip..], gap - ip), Without(vals[ip..], gap - ip));
    }
  }

  function Without<T>(s: seq<T>, i: nat): seq<T>
    requires i < |s|
  {
    s[..i] + s[i + 1..]
  }

  lemma DropLeft<T>(s: seq<T>, ip: nat, gap: nat, x: T)
    requires gap < ip <= |s|
    ensures ShiftIn(s, ip, gap, x) == Without(s[..ip], gap) + [x] + s[ip..]
  {
  }

  lemma DropRight<T>(s: seq<T>, ip: nat, gap: nat, x: T)
    requires ip <= gap < |s|
    ensures ShiftIn(s, ip, gap, x) == s[..ip] + [x] + Without(s[ip..], gap - ip)
  {
  }

  lemma JoinEntries<V>(d1: seq<int>, w1: seq<V>, key: int, value: V, d2: seq<int>, w2: seq<V>)
    requires |d1| == |w1| && |d2| == |w2| && IsReal(key)
    ensures Entries(d1 + [key] + d2, w1 + [value] + w2) == Entries(d1, w1) + [(key, value)] + Entries(d2, w2)
  {
    EntriesOne(key, value);
    hide Entries;
    EntriesAppend(d1 + [key], w1 + [value], d2, w2);
    EntriesAppend(d1, w1, [key], [value]);
  }

  /** Inserting at the lower bound keeps the slots sorted. */
  lemma ShiftSorted(data: seq<int>, ip: nat, gap: nat, key: int)
    requires SortedSlots(data) && IsLowerBound(data, ip, key) && key < EMPTY_SLOT
    requires gap < |data| && data[gap] == EMPTY_SLOT
    requires ip < |data| ==> data[ip] != key
    ensures SortedSlots(ShiftIn(data, ip, gap, key))
  {
    var d := ShiftIn(data, ip, gap, key);
    var at := NewSlot(ip, gap);
    forall p | 0 <= p < |d| ensures d[p] == if p == at then key else data[SourceSlot(ip, gap, p)] {
      ShiftedSlot(data, ip, gap, key, p);
    }
    assert |d| == |data|;
    hide ShiftIn;
    forall i | 0 <= i < |d| && IsReal(d[i]) && i != at
      ensures if i < at then d[i] < key else key < d[i]
    {
      if i > at { LowerBoundAfter(data, ip, key, SourceSlot(ip, gap, i)); }
    }
  }

  /** Where the new key lands. */
  ghost function NewSlot(ip: nat, gap: nat): nat {
    if gap < ip then ip - 1 else ip
  }

  lemma ShiftedSlot<T>(s: seq<T>, ip: nat, gap: nat, x: T, p: nat)
    requires ip <= |s| && gap < |s| && p < |s|
    ensures |ShiftIn(s, ip, gap, x)| == |s| && SourceSlot(ip, gap, p) < |s|
    ensures ShiftIn(s, ip, gap, x)[p] == if p == NewSlot(ip, gap) then x else s[SourceSlot(ip, gap, p)]
  {
  }

  lemma LowerBoundAfter(data: seq<int>, ip: nat, key: int, j: nat)
    requires SortedSlots(data) && IsLowerBound(data, ip, key) && ip <= j < |data| && IsReal(data[j])
    ensures data[ip] <= data[j]
  {
  }

  /** Which old slot the content of new slot p (not the new key's) came from. */
  ghost function SourceSlot(ip: nat, gap: nat, p: nat): nat {
    if gap <= p && p + 1 < ip then p + 1
    else if ip < p <= gap then p - 1
    else p
  }

  /** Counting a shift against the segments of the keys it moved accounts for every key. */
  lemma ShiftIsCounted(data: seq<int>, ip: nat, gap: nat, key: int, segments: seq<Segment>,
                       owner: nat, first: nat, last: nat)
    requires SortedSlots(data) && IsLowerBound(data, ip, key) && key < EMPTY_SLOT
    requires gap < |data| && data[gap] == EMPTY_SLOT && (ip < |data| ==> data[ip] != key)
    requires forall p :: (gap < p < ip || ip <= p < gap) ==> IsReal(data[p])
    requires SortedStarts(segments) && Owns(segments, owner, key)
    requires gap + 1 < ip ==>
      if data[gap + 1] < segments[owner].startKey then Owns(segments, first, data[gap + 1]) else first == owner
    requires ip < gap ==>
      if owner + 1 < |segments| && data[gap - 1] >= segments[owner + 1].startKey
      then Owns(segments, last, data[gap - 1]) else last == owner
    requires gap + 1 >= ip ==> first == owner
    requires gap <= ip ==> last == owner
    ensures first <= owner <= last < |segments|
    ensures ShiftedByOne(data, ShiftIn(data, ip, gap, key), key, segments, first, last)
  {
    var d := ShiftIn(data, ip, gap, key);
    if gap + 1 < ip { OwnerBelow(data, ip, gap, key, segments, owner, first); }
    if ip < gap { OwnerAbove(data, ip, gap, key, segments, owner, last); }
    forall p | 0 <= p < |d| && IsReal(d[p]) && d[p] != key ensures CameFrom(data, p, d[p], segments, first, last) {
      var q := SourceSlot(ip, gap, p);
      assert q < |data| && data[q] == d[p];
      if q == p + 1 {
        assert data[gap + 1] <= data[q] < key;
        MovedLeftWithin(segments, owner, first, last, key, data[gap + 1], data[q]);
      } else if p == q + 1 {
        LowerBoundAfter(data, ip, key, q);
        assert key < data[q] <= data[gap - 1];
        MovedRightWithin(segments, owner, first, last, key, data[gap - 1], data[q]);
      }
    }
  }

  lemma OwnerBelow(data: seq<int>, ip: nat, gap: nat, key: int, segments: seq<Segment>, owner: nat, first: nat)
    requires SortedSlots(data) && IsLowerBound(data, ip, key) && gap + 1 < ip && IsReal(data[gap + 1])
    requires SortedStarts(segments) && Owns(segments, owner, key)
    requires if data[gap + 1] < segments[owner].startKey then Owns(segments, first, data[gap + 1]) else first == owner
    ensures first <= owner
  {
    if data[gap + 1] < segments[owner].startKey { OwnersFollowKeys(segments, first, data[gap + 1], owner, key); }
  }

  lemma OwnerAbove(data: seq<int>, ip: nat, gap: nat, key: int, segments: seq<Segment>, owner: nat, last: nat)
    requires SortedSlots(data) && IsLowerBound(data, ip, key) && ip < gap < |data| && IsReal(data[gap - 1])
    requires SortedStarts(segments) && Owns(segments, owner, key)
    requires if owner + 1 < |segments| && data[gap - 1] >= segments[owner + 1].startKey
             then Owns(segments, last, data[gap - 1]) else last == owner
    ensures owner <= last < |segments|
  {
    LowerBoundAfter(data, ip, key, gap - 1);
    if last != owner { OwnersFollowKeys(segments, owner, key, last, data[gap - 1]); }
  }

  lemma MovedLeftWithin(segments: seq<Segment>, owner: nat, first: nat, last: nat, key: int, smallest: int, k: int)
    requires SortedStarts(segments) && Owns(segments, owner, key) && owner <= last && smallest <= k < key
    requires if smallest < segments[owner].startKey then Owns(segments, first, smallest) else first == owner
    ensures OwnedWithin(segments, k, first, last)
  {
    forall s: nat | Owns(segments, s, k) ensures first <= s <= last {
      OwnersFollowKeys(segments, s, k, owner, key);
      if smallest < segments[owner].startKey { OwnersFollowKeys(segments, first, smallest, s, k); }
    }
  }

  lemma MovedRightWithin(segments: seq<Segment>, owner: nat, first: nat, last: nat, key: int, largest: int, k: int)
    requires SortedStarts(segments) && Owns(segments, owner, key) && first <= owner && key < k <= largest
    requires if owner + 1 < |segments| && largest >= segments[owner + 1].startKey
             then Owns(segments, last, largest) else last == owner
    ensures OwnedWithin(segments, k, first, last)
  {
    forall s: nat | Owns(segments, s, k) ensures first <= s <= last {
      OwnersFollowKeys(segments, owner, key, s, k);
      assert owner < s ==> segments[owner + 1].startKey <= segments[s].startKey;
      if owner + 1 < |segments| && largest >= segments[owner + 1].startKey {
        OwnersFollowKeys(segments, s, k, last, largest);
      }
    }
  }

  /** Replacing one real slot's value keeps every other entry. */
  lemma OverwriteEntries<V>(data: seq<int>, vals: seq<V>, i: nat, value: V)
    requires |data| == |vals| && i < |data| && IsReal(data[i])
    ensures Entries(data, vals) == Entries(data[..i], vals[..i]) + [(data[i], vals[i])] + Entries(data[i + 1..], vals[i + 1..])
    ensures Entries(data, vals[i := value])
         == Entries(data[..i], vals[..i]) + [(data[i], value)] + Entries(data[i + 1..], vals[i + 1..])
  {
    SplitAround(data, vals, i);
    SplitAround(data, vals[i := value], i);
  }

  /** Emptying one real slot drops its entry. */
  lemma EmptyEntries<V>(data: seq<int>, vals: seq<V>, i: nat, value: V)
    requires |data| == |vals| && i < |data| && IsReal(data[i])
    ensures Entries(data, vals) == Entries(data[..i], vals[..i]) + [(data[i], vals[i])] + Entries(data[i + 1..], vals[i + 1..])
    ensures Entries(data[i := EMPTY_SLOT], vals[i := value])
         == Entries(data[..i], vals[..i]) + Entries(data[i + 1..], vals[i + 1..])
  {
    SplitAround(data, vals, i);
    SplitAround(data[i := EMPTY_SLOT], vals[i := value], i);
    assert Entries(data[..i], vals[..i]) + [] == Entries(data[..i], vals[..i]);
  }

  lemma SplitAround<V>(data: seq<int>, vals: seq<V>, i: nat)
    requires |data| == |vals| && i < |data|
    ensures Entries(data, vals) == Entries(data[..i], vals[..i])
                                 + (if IsReal(data[i]) then [(data[i], vals[i])] else [])
                                 + Entries(data[i + 1..], vals[i + 1..])
  {
    EntriesSplit(data, vals, i);
    EntriesSplit(data[i..], vals[i..], 1);
    assert data[i..][..1] == [data[i]] && vals[i..][..1] == [vals[i]];
    assert data[i..][1..] == data[i + 1..] && vals[i..][1..] == vals[i + 1..];
    EntriesOne(data[i], vals[i]);
  }

  /** Entries of slots at a lower bound: smaller keys before, none equal unless it is there. */
  lemma LowerBoundSplits<V>(data: seq<int>, vals: seq<V>, ip: nat, key: int)
    requires |data| == |vals| && SortedSlots(data) && IsLowerBound(data, ip, key) && key < EMPTY_SLOT
    ensures ip < |data| && data[ip] == key ==> HasKey(Entries(data, vals), key)
    ensures !(ip < |data| && data[ip] == key) ==>
      !HasKey(Entries(data, vals), key) && !HasKey(Entries(data[ip..], vals[ip..]), key)
  {
    if ip < |data| && data[ip] == key {
      EntryIffSlot(data, vals, (data[ip], vals[ip]));
      var i :| 0 <= i < |Entries(data, vals)| && Entries(data, vals)[i] == (data[ip], vals[ip]);
    } else {
      AbsentSplits(data, vals, ip, key);
    }
  }

  lemma AbsentSplits<V>(data: seq<int>, vals: seq<V>, ip: nat, key: int)
    requires |data| == |vals| && SortedSlots(data) && IsLowerBound(data, ip, key) && key < EMPTY_SLOT
    requires !(ip < |data| && data[ip] == key)
    ensures !HasKey(Entries(data, vals), key) && !HasKey(Entries(data[ip..], vals[ip..]), key)
  {
    hide Entries, HasKey, SortedSlots;
    forall j | 0 <= j < |data| && IsReal(data[j]) ensures data[j] != key {
      if ip <= j { LowerBoundAfter(data, ip, key, j); }
    }
    NoSlotNoEntry(data, vals, key);
    NoSlotNoEntry(data[ip..], vals[ip..], key);
  }

  lemma NoSlotNoEntry<V>(data: seq<int>, vals: seq<V>, key: int)
    requires |data| == |vals| && forall j :: 0 <= j < |data| && IsReal(data[j]) ==> data[j] != key
    ensures !HasKey(Entries(data, vals), key)
  {
    hide Entries;
    forall i | 0 <= i < |Entries(data, vals)| ensures Entries(data, vals)[i].0 != key {
      EntryIffSlot(data, vals, Entries(data, vals)[i]);
    }
  }
}
