/** What a directory lists, and how inserting, deleting and replacing one slot changes the listing. */
module Listings {
  import opened Options
  import opened Words
  import opened Fat32
  import opened Entries
  import opened Slots

  /** The entries the iterator shows. */
  predicate IsShown(e: DirEntry)
  {
    !IsFree(e) && e.attributes != ATTR_LFN && !e.HasVolumeBit()
  }

  /** The enumeration of a directory: the shown entries before the first end marker, in order. */
  ghost function Listing(slots: Directory): (r: Directory)
    ensures forall k :: 0 <= k < |r| ==> IsShown(r[k])
  {
    if slots == [] || IsEnd(slots[0]) then []
    else (if IsShown(slots[0]) then [slots[0]] else []) + Listing(slots[1..])
  }

  /** Nothing live after the first end marker. */
  ghost predicate WellEnded(slots: Directory)
  {
    forall i, j :: 0 <= i < j < |slots| && IsEnd(slots[i]) ==> IsFree(slots[j])
  }

  /** Entries with the volume bit are plain volume labels or long-name entries. */
  ghost predicate PlainVolumeBits(slots: Directory)
  {
    forall k :: 0 <= k < |slots| && !IsFree(slots[k]) && slots[k].HasVolumeBit() ==>
      slots[k].attributes == ATTR_VOLUME_ID || slots[k].attributes == ATTR_LFN
  }

  /** The first listed entry with a given name. */
  function FindListed(listing: Directory, name: Bytes): (r: Option<DirEntry>)
  {
    if listing == [] then None
    else if DisplayName(listing[0].name) == name then Some(listing[0])
    else FindListed(listing[1..], name)
  }

  /** A fresh cluster of `per` slots with `e` in the first one. */
  ghost function FreshCluster(e: DirEntry, per: Positive): (slots: Directory)
    ensures |slots| == per && slots[0] == e && slots[1..] == EmptySlots(per - 1)
  {
    [e] + EmptySlots(per - 1)
  }

  /** `slots` after a new entry went into the first free slot, or into a fresh cluster. */
  ghost function Inserted(slots: Directory, e: DirEntry, per: Positive): (r: Directory)
  {
    if First(slots, FreeSlot) < |slots| then slots[First(slots, FreeSlot) := e]
    else slots + FreshCluster(e, per)
  }

  // ----- the listing, piece by piece -----

  lemma ListingFrom(slots: Directory, p: nat)
    requires p < |slots|
    ensures Listing(slots[p..]) == if IsEnd(slots[p]) then []
                                   else if IsShown(slots[p]) then [slots[p]] + Listing(slots[p + 1..])
                                   else Listing(slots[p + 1..])
  {
    assert slots[p..][1..] == slots[p + 1..];
  }

  lemma {:induction false} ListingOfFree(slots: Directory)
    requires forall k :: 0 <= k < |slots| ==> IsFree(slots[k])
    ensures Listing(slots) == []
  {
    if slots != [] && !IsEnd(slots[0]) {
      ListingOfFree(slots[1..]);
    }
  }

  lemma ListingOfNothing()
    ensures Listing([]) == []
  {
  }

  lemma ListingStep(slots: Directory)
    requires slots != [] && !IsEnd(slots[0])
    ensures Listing(slots) == Shown(slots[0]) + Listing(slots[1..])
  {
  }

  /** Before any end marker, a listing is the concatenation of the listings of the parts. */
  lemma {:induction false} ListingSplit(slots: Directory, k: nat)
    requires k <= |slots|
    requires forall j :: 0 <= j < k ==> !IsEnd(slots[j])
    ensures Listing(slots) == Listing(slots[..k]) + Listing(slots[k..])
  {
    hide Listing, IsEnd;
    if k == 0 {
      assert slots[..0] == [] && slots[0..] == slots;
      ListingOfNothing();
    } else {
      ListingSplit(slots[1..], k - 1);
      assert slots[1..][..k - 1] == slots[..k][1..] && slots[1..][k - 1..] == slots[k..];
      ListingStep(slots);
      ListingStep(slots[..k]);
    }
  }

  lemma EndIsFirst(slots: Directory, k: nat)
    requires WellEnded(slots) && k < |slots| && !IsFree(slots[k])
    ensures forall j :: 0 <= j < k ==> !IsEnd(slots[j])
  {
  }

  /** What an entry adds to a listing. */
  function Shown(e: DirEntry): Directory {
    if IsShown(e) then [e] else []
  }

  /** Putting an entry into a free slot before which nothing is free adds it to the listing, if it is shown. */
  lemma ListingFill(slots: Directory, k: nat, e: DirEntry)
    requires WellEnded(slots) && k < |slots| && IsFree(slots[k])
    requires forall j :: 0 <= j < k ==> !IsFree(slots[j])
    requires !IsEnd(e)
    ensures Listing(slots) == Listing(slots[..k]) + Listing(slots[k + 1..])
    ensures Listing(slots[k := e]) == Listing(slots[..k]) + Shown(e) + Listing(slots[k + 1..])
    ensures WellEnded(slots[k := e])
  {
    var slots' := slots[k := e];
    ListingSplit(slots, k);
    ListingSplit(slots', k);
    assert slots'[..k] == slots[..k];
    assert slots[k..][1..] == slots[k + 1..] == slots'[k..][1..];
    if IsEnd(slots[k]) {
      ListingOfFree(slots[k + 1..]);
    }
  }

  lemma ListingGrow(slots: Directory, e: DirEntry, per: Positive)
    requires !IsEnd(e)
    requires forall j :: 0 <= j < |slots| ==> !IsFree(slots[j])
    ensures Listing(slots + FreshCluster(e, per)) == Listing(slots) + Shown(e)
    ensures WellEnded(slots + FreshCluster(e, per))
  {
    var tail := FreshCluster(e, per);
    var grown := slots + tail;
    ListingSplit(grown, |slots|);
    assert grown[..|slots|] == slots && grown[|slots|..] == tail;
    ListingOfFree(tail[1..]);
  }

  /** Creating an entry adds it once to the listing, whether or not the directory had to grow. One whose name makes it
      a deleted entry is not shown, and adds nothing. */
  lemma InsertListing(slots: Directory, e: DirEntry, per: Positive) returns (before: Directory, after: Directory)
    requires WellEnded(slots) && !IsEnd(e)
    ensures before == Listing(slots[..First(slots, FreeSlot)])
    ensures Listing(slots) == before + after
    ensures Listing(Inserted(slots, e, per)) == before + Shown(e) + after
    ensures WellEnded(Inserted(slots, e, per))
  {
    hide Listing, WellEnded, FreshCluster;
    var k := First(slots, FreeSlot);
    if k < |slots| {
      ListingFill(slots, k, e);
      before, after := Listing(slots[..k]), Listing(slots[k + 1..]);
    } else {
      ListingGrow(slots, e, per);
      before, after := Listing(slots), [];
      assert slots[..k] == slots;
    }
  }

  /** Tombstoning a shown entry removes exactly it from the listing. */
  lemma DeleteListing(slots: Directory, k: nat)
    requires WellEnded(slots) && k < |slots| && IsShown(slots[k])
    ensures var before, after := Listing(slots[..k]), Listing(slots[k + 1..]);
            && Listing(slots) == before + [slots[k]] + after
            && Listing(slots[k := Tombstone(slots[k])]) == before + after
    ensures WellEnded(slots[k := Tombstone(slots[k])])
  {
    ReplaceSlot(slots, k, Tombstone(slots[k]));
  }

  /** Replacing a shown entry by another one replaces exactly it in the listing. */
  lemma ReplaceListing(slots: Directory, k: nat, e: DirEntry)
    requires WellEnded(slots) && k < |slots| && IsShown(slots[k])
    requires IsShown(e)
    ensures var before, after := Listing(slots[..k]), Listing(slots[k + 1..]);
            && Listing(slots) == before + [slots[k]] + after
            && Listing(slots[k := e]) == before + [e] + after
    ensures WellEnded(slots[k := e])
  {
    ReplaceSlot(slots, k, e);
  }

  lemma ReplaceSlot(slots: Directory, k: nat, e: DirEntry)
    requires WellEnded(slots) && k < |slots| && IsShown(slots[k])
    requires !IsEnd(e)
    ensures var before, after := Listing(slots[..k]), Listing(slots[k + 1..]);
            && Listing(slots) == before + [slots[k]] + after
            && Listing(slots[k := e]) == before + (if IsShown(e) then [e] else []) + after
    ensures WellEnded(slots[k := e])
  {
    var slots' := slots[k := e];
    EndIsFirst(slots, k);
    ListingSplit(slots, k);
    ListingSplit(slots', k);
    assert slots'[..k] == slots[..k];
    assert slots[k..][1..] == slots[k + 1..] == slots'[k..][1..];
  }

  // ----- looking an entry up -----

  /** With plain volume bits the enumeration and the editing routines skip the same entries. */
  lemma SameEntriesSkipped(e: DirEntry, name: Bytes)
    requires !IsFree(e) && e.HasVolumeBit() ==> e.attributes == ATTR_VOLUME_ID || e.attributes == ATTR_LFN
    ensures Judge(e, Listed(name)) == if IsEnd(e) then Stop
                                      else if IsShown(e) && DisplayName(e.name) == name then Hit else Skip
  {
    AttributeBits();
  }

  lemma FirstStep(slots: Directory, want: Wanted)
    requires slots != []
    ensures Judge(slots[0], want) != Skip ==> First(slots, want) == 0
    ensures Judge(slots[0], want) == Skip ==> First(slots, want) == 1 + First(slots[1..], want)
    ensures Judge(slots[0], want) == Skip ==> (Found(slots, want) <==> Found(slots[1..], want))
  {
  }

  /** Lookup through the enumeration finds the slot the editing routines find. */
  lemma {:induction false} FindAgrees(slots: Directory, name: Bytes)
    requires PlainVolumeBits(slots)
    ensures FindListed(Listing(slots), name)
            == if Found(slots, Listed(name)) then Some(slots[First(slots, Listed(name))]) else None
    ensures Found(slots, Listed(name)) ==> IsShown(slots[First(slots, Listed(name))])
  {
    if slots != [] {
      var e, rest := slots[0], slots[1..];
      SameEntriesSkipped(e, name);
      FirstStep(slots, Listed(name));
      assert PlainVolumeBits(rest);
      FindAgrees(rest, name);
      if !IsEnd(e) {
        assert Listing(slots) == (if IsShown(e) then [e] else []) + Listing(rest);
        assert IsShown(e) ==> Listing(slots)[1..] == Listing(rest);
        assert !IsShown(e) ==> Listing(slots) == Listing(rest);
      }
    }
  }

  /** The slot found by its listed name is also the first with its eleven raw bytes. */
  lemma RawFindsSame(slots: Directory, name: Bytes)
    requires Found(slots, Listed(name))
    ensures var k := First(slots, Listed(name));
            First(slots, Raw(slots[k].name)) == k && Found(slots, Raw(slots[k].name))
  {
    var k := First(slots, Listed(name));
    forall j | 0 <= j < k ensures Judge(slots[j], Raw(slots[k].name)) == Skip {
      assert Judge(slots[j], Listed(name)) == Skip;
    }
    FirstUnique(slots, Raw(slots[k].name), k);
  }

  /** A search that gets past `before` comes to the new entry first. */
  lemma {:induction false} FindInserted(before: Directory, added: Directory, after: Directory, name: Bytes)
    ensures FindListed(before + added + after, name)
            == if FindListed(before, name).Some? then FindListed(before, name) else FindListed(added + after, name)
    decreases |before|
  {
    if before == [] {
      assert [] + added + after == added + after;
    } else {
      assert (before + added + after)[0] == before[0] && (before + added + after)[1..] == before[1..] + added + after;
      FindInserted(before[1..], added, after, name);
    }
  }

  /** What a directory does not list, the slots before its first free one do not list either. */
  lemma FoundInPart(slots: Directory, name: Bytes)
    requires FindListed(Listing(slots), name) == None
    ensures FindListed(Listing(slots[..First(slots, FreeSlot)]), name) == None
  {
    hide Listing, FindListed;
    var k := First(slots, FreeSlot);
    forall j | 0 <= j < k ensures !IsEnd(slots[j]) {
      assert Judge(slots[j], FreeSlot) == Skip;
    }
    ListingSplit(slots, k);
    FindInserted(Listing(slots[..k]), [], Listing(slots[k..]), name);
    assert Listing(slots[..k]) + [] + Listing(slots[k..]) == Listing(slots);
  }

  lemma FindFirst(e: DirEntry, after: Directory, name: Bytes)
    ensures FindListed([e] + after, name) == if DisplayName(e.name) == name then Some(e) else FindListed(after, name)
  {
    assert ([e] + after)[1..] == after;
  }

  /** Where a lookup ends once an entry has been created: at an entry of that name in front of its slot, at the new
      entry, or where it ended before. */
  lemma InsertedFinds(slots: Directory, e: DirEntry, per: Positive, name: Bytes)
    requires WellEnded(slots) && !IsEnd(e)
    ensures FindListed(Listing(Inserted(slots, e, per)), name)
            == if IsShown(e) && DisplayName(e.name) == name
                  && FindListed(Listing(slots[..First(slots, FreeSlot)]), name) == None
               then Some(e) else FindListed(Listing(slots), name)
  {
    hide Inserted, Listing, FindListed, DisplayName, First, WellEnded, IsShown;
    var before, after := InsertListing(slots, e, per);
    FindInserted(before, Shown(e), after, name);
    FindInserted(before, [], after, name);
    assert before + [] + after == before + after && [] + after == after;
    FindFirst(e, after, name);
  }
}
