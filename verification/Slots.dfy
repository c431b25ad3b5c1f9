/** A directory as the sequence of slots spread over the clusters of its chain, and the ways
    directory.c searches such a sequence. */
module Slots {
  import opened Words
  import opened Chains
  import opened Fat32
  import opened Entries

  type Directory = seq<DirEntry>

  function SlotBytes(b: Bytes, k: nat): Bytes
    requires 32 * k + 32 <= |b|
  {
    b[32 * k..32 * k + 32]
  }

  /** The slots of one cluster (or of one sector). */
  function SlotsOf(b: Bytes): (slots: Directory)
    ensures |slots| == |b| / 32
  {
    seq(|b| / 32, k requires 0 <= k < |b| / 32 => Decode(SlotBytes(b, k)))
  }

  /** Entry `i` of sector `j` is slot `16 * j + i` of the cluster. */
  lemma SlotOfPart(b: Bytes, j: nat, i: nat)
    requires 512 * j + 512 <= |b| && i < 16
    ensures SlotsOf(b)[16 * j + i] == SlotsOf(PartOf(b, j))[i]
  {
    var part, k := PartOf(b, j), 16 * j + i;
    forall m | 0 <= m < 32 ensures SlotBytes(part, i)[m] == SlotBytes(b, k)[m] {
      assert part[32 * i + m] == b[512 * j + (32 * i + m)];
    }
    assert SlotBytes(part, i) == SlotBytes(b, k);
  }

  /** Overwriting the 32 bytes of one entry inside one sector changes one slot of the cluster. */
  lemma SlotAfterWrite(b: Bytes, j: nat, i: nat, bytes: Bytes)
    requires 512 * j + 512 <= |b| && i < 16 && |bytes| == 32
    ensures SlotsOf(Splice(b, 512 * j, Splice(PartOf(b, j), 32 * i, bytes)))
         == SlotsOf(b)[16 * j + i := Decode(bytes)]
  {
    var b' := Splice(b, 512 * j, Splice(PartOf(b, j), 32 * i, bytes));
    forall k | 0 <= k < |b| / 32
      ensures SlotBytes(b', k) == if k == 16 * j + i then bytes else SlotBytes(b, k)
    {
      var expected := if k == 16 * j + i then bytes else SlotBytes(b, k);
      forall m | 0 <= m < 32 ensures SlotBytes(b', k)[m] == expected[m] {
        assert b'[32 * k + m] == expected[m];
      }
      assert SlotBytes(b', k) == expected;
    }
  }

  // ----- the slots of a chain -----

  ghost function ChainSlots(data: seq<Bytes>, s: seq<nat>): (slots: Directory)
    requires forall i :: 0 <= i < |s| ==> s[i] < |data|
  {
    if s == [] then [] else ChainSlots(data, s[..|s| - 1]) + SlotsOf(data[s[|s| - 1]])
  }

  /** The number of slots in the first `i` clusters. */
  ghost function SlotBase(data: seq<Bytes>, s: seq<nat>, i: nat): nat
    requires forall j :: 0 <= j < |s| ==> s[j] < |data|
    requires i <= |s|
  {
    |ChainSlots(data, s[..i])|
  }

  lemma {:induction false} SlotsOfCluster(data: seq<Bytes>, s: seq<nat>, i: nat)
    requires forall j :: 0 <= j < |s| ==> s[j] < |data|
    requires i < |s|
    ensures SlotBase(data, s, i + 1) == SlotBase(data, s, i) + |SlotsOf(data[s[i]])| <= |ChainSlots(data, s)|
    ensures ChainSlots(data, s)[SlotBase(data, s, i)..SlotBase(data, s, i + 1)] == SlotsOf(data[s[i]])
    ensures SlotBase(data, s, 0) == 0 && SlotBase(data, s, |s|) == |ChainSlots(data, s)|
  {
    assert s[..|s|] == s;
    assert s[..i + 1][..i] == s[..i];
    var init := s[..|s| - 1];
    if i < |s| - 1 {
      SlotsOfCluster(data, init, i);
      assert init[..i] == s[..i] && init[..i + 1] == s[..i + 1];
    }
  }

  lemma {:induction false} ChainSlotsFrame(data: seq<Bytes>, data': seq<Bytes>, s: seq<nat>)
    requires |data| == |data'|
    requires forall i :: 0 <= i < |s| ==> s[i] < |data| && data[s[i]] == data'[s[i]]
    ensures ChainSlots(data, s) == ChainSlots(data', s)
  {
    if s != [] {
      ChainSlotsFrame(data, data', s[..|s| - 1]);
    }
  }

  /** Changing one slot of one cluster changes that slot of the directory. */
  lemma {:induction false} ChainSlotsUpdate(data: seq<Bytes>, s: seq<nat>, i: nat, k: nat, b: Bytes, e: DirEntry)
    requires (forall j :: 0 <= j < |s| ==> s[j] < |data|) && Distinct(s) && i < |s|
    requires k < |SlotsOf(data[s[i]])| && SlotsOf(b) == SlotsOf(data[s[i]])[k := e]
    ensures SlotBase(data, s, i) + k < |ChainSlots(data, s)|
    ensures ChainSlots(data[s[i] := b], s) == ChainSlots(data, s)[SlotBase(data, s, i) + k := e]
  {
    hide ChainSlots, SlotsOf;
    SlotsOfCluster(data, s, i);
    var data' := data[s[i] := b];
    var init, last := s[..|s| - 1], s[|s| - 1];
    assert s == init + [last];
    ChainSlotsAppend(data, init, last);
    ChainSlotsAppend(data', init, last);
    assert init[..i] == s[..i];
    if i == |s| - 1 {
      ChainSlotsFrame(data, data', init);
    } else {
      ChainSlotsUpdate(data, init, i, k, b, e);
    }
  }

  // ----- searching -----

  predicate IsFree(e: DirEntry)
  {
    e.name[0] == 0 || e.name[0] == DELETED
  }

  predicate IsEnd(e: DirEntry)
  {
    e.name[0] == 0
  }

  /** What a search is after: a slot to fill, or an entry by its listed name, by its eleven raw bytes,
      by not being one of the two dot entries. */
  datatype Wanted =
    | FreeSlot
    | Listed(name: Bytes)
    | Raw(bytes: Bytes)
    | NotDot

  datatype Verdict = Skip | Stop | Hit

  /** How the editing routines judge one slot. */
  function Judge(e: DirEntry, want: Wanted): Verdict
  {
    if want.FreeSlot? then
      if IsFree(e) then Hit else Skip
    else if e.name[0] == 0 then Stop
    else if e.name[0] == DELETED || e.attributes == ATTR_LFN || e.attributes == ATTR_VOLUME_ID then Skip
    else if Matches(e, want) then Hit
    else Skip
  }

  predicate Matches(e: DirEntry, want: Wanted)
  {
    match want
    case FreeSlot => false
    case Listed(name) => DisplayName(e.name) == name
    case Raw(bytes) => e.name == bytes
    case NotDot => DisplayName(e.name) != DOT && DisplayName(e.name) != DOTDOT
  }

  /** The first slot that ends the search, or the number of slots. */
  ghost function First(slots: Directory, want: Wanted): (k: nat)
    ensures k <= |slots|
    ensures forall j :: 0 <= j < k ==> Judge(slots[j], want) == Skip
    ensures k < |slots| ==> Judge(slots[k], want) != Skip
    decreases |slots|
  {
    if slots == [] || Judge(slots[0], want) != Skip then 0 else 1 + First(slots[1..], want)
  }

  lemma FirstUnique(slots: Directory, want: Wanted, k: nat)
    requires k <= |slots|
    requires forall j :: 0 <= j < k ==> Judge(slots[j], want) == Skip
    requires k < |slots| ==> Judge(slots[k], want) != Skip
    ensures First(slots, want) == k
  {
  }

  ghost predicate Found(slots: Directory, want: Wanted)
  {
    First(slots, want) < |slots| && Judge(slots[First(slots, want)], want) == Hit
  }

  ghost predicate AllSkipped(slots: Directory, n: nat, want: Wanted)
  {
    n <= |slots| && forall k :: 0 <= k < n ==> Judge(slots[k], want) == Skip
  }

  /** Having skipped the clusters before the `c`-th one and `n` slots of it. */
  lemma SkippedInto(data: seq<Bytes>, s: seq<nat>, c: nat, n: nat, want: Wanted)
    requires forall j :: 0 <= j < |s| ==> s[j] < |data|
    requires c < |s| && AllSkipped(ChainSlots(data, s), SlotBase(data, s, c), want)
    requires AllSkipped(SlotsOf(data[s[c]]), n, want)
    ensures AllSkipped(ChainSlots(data, s), SlotBase(data, s, c) + n, want)
    ensures n < |SlotsOf(data[s[c]])| ==>
              SlotBase(data, s, c) + n < |ChainSlots(data, s)|
              && ChainSlots(data, s)[SlotBase(data, s, c) + n] == SlotsOf(data[s[c]])[n]
    ensures SlotBase(data, s, c + 1) == SlotBase(data, s, c) + |SlotsOf(data[s[c]])|
  {
    SlotsOfCluster(data, s, c);
    var slots, here, base := ChainSlots(data, s), SlotsOf(data[s[c]]), SlotBase(data, s, c);
    forall k | 0 <= k < base + n ensures Judge(slots[k], want) == Skip {
      if k >= base {
        SlotOfCluster(data, s, c, k - base);
      }
    }
    if n < |here| {
      SlotOfCluster(data, s, c, n);
    }
  }

  /** A zeroed cluster holds empty slots only. */
  lemma SlotsOfZeros(m: nat)
    ensures SlotsOf(Zeros(32 * m)) == EmptySlots(m)
  {
    var z := Zeros(32 * m);
    forall k | 0 <= k < m ensures SlotBytes(z, k) == Zeros(32) {
    }
  }

  function EmptySlots(n: nat): (slots: Directory)
    ensures |slots| == n && forall k :: 0 <= k < n ==> slots[k] == EMPTY_SLOT
    ensures forall k :: 0 <= k < n ==> IsEnd(slots[k])
  {
    EmptySlotIsEnd();
    seq(n, _ => EMPTY_SLOT)
  }

  /** Appending a cluster to the chain appends its slots. */
  lemma ChainSlotsAppend(data: seq<Bytes>, s: seq<nat>, c: nat)
    requires (forall j :: 0 <= j < |s| ==> s[j] < |data|) && c < |data|
    ensures ChainSlots(data, s + [c]) == ChainSlots(data, s) + SlotsOf(data[c])
  {
    assert (s + [c])[..|s|] == s;
  }

  lemma EmptySlotIsEnd()
    ensures IsEnd(EMPTY_SLOT)
  {
    assert EMPTY_SLOT.name == Zeros(32)[..11];
  }

  /** Entry `i` of sector `j` of the `c`-th cluster is one particular slot of the directory. */
  lemma SlotInChain(data: seq<Bytes>, s: seq<nat>, c: nat, j: nat, i: nat)
    requires (forall k :: 0 <= k < |s| ==> s[k] < |data|) && c < |s|
    requires 512 * j + 512 <= |data[s[c]]| && i < 16
    ensures SlotBase(data, s, c) + 16 * j + i < |ChainSlots(data, s)|
    ensures ChainSlots(data, s)[SlotBase(data, s, c) + 16 * j + i] == SlotsOf(PartOf(data[s[c]], j))[i]
  {
    SlotOfPart(data[s[c]], j, i);
    SlotOfCluster(data, s, c, 16 * j + i);
  }

  lemma SlotOfCluster(data: seq<Bytes>, s: seq<nat>, c: nat, k: nat)
    requires (forall i :: 0 <= i < |s| ==> s[i] < |data|) && c < |s| && k < |SlotsOf(data[s[c]])|
    ensures SlotBase(data, s, c) + k < |ChainSlots(data, s)|
    ensures ChainSlots(data, s)[SlotBase(data, s, c) + k] == SlotsOf(data[s[c]])[k]
  {
    SlotsOfCluster(data, s, c);
    var base, here := SlotBase(data, s, c), SlotsOf(data[s[c]]);
    assert ChainSlots(data, s)[base..base + |here|][k] == here[k];
  }
}
