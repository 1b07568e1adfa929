/** The sidecar store as the module keeps it: variables updated in place by handlers and promise reactions,
    each proved to take the step the state machine of ImageSlotStore takes. */
module ImageSlotSidecar {
  import opened Options
  import opened Text
  import opened ImageSlotStore

  // ---------------------------------------------------------------- duplicated ids

  /** How many digits the text ends in. */
  function DigitTail(s: string): (n: nat)
    ensures n <= |s|
  {
    if s != "" && IsDigit(s[|s| - 1]) then 1 + DigitTail(s[..|s| - 1]) else 0
  }

  /** fromId without a trailing `-` and digits, or fromId itself when nothing else is left. */
  function Stem(fromId: Id): Id {
    var k := |fromId| - DigitTail(fromId);
    if k == |fromId| || k == 0 || fromId[k - 1] != '-' || k == 1 then fromId else fromId[..k - 1]
  }

  function Candidate(fromId: Id, n: nat): Id { Stem(fromId) + "-" + Decimal(n) }

  /** The id already holds the very image and crop being copied. */
  predicate SameImage(slots: Store, fromId: Id, toId: Id) {
    SlotOf(slots, toId).Some? && SlotOf(slots, toId) == SlotOf(slots, fromId) && SlotOf(slots, toId).value.u != ""
  }

  predicate Mintable(slots: Store, fromId: Id, isFree: Id -> bool, toId: Id) {
    toId != fromId && isFree(toId) && (toId in slots ==> SameImage(slots, fromId, toId))
  }

  /** The first mintable candidate from n up to 99. */
  function FirstMintable(slots: Store, fromId: Id, isFree: Id -> bool, n: nat): Option<Id>
    decreases 100 - n
  {
    if n >= 100 then None
    else if Mintable(slots, fromId, isFree, Candidate(fromId, n)) then Some(Candidate(fromId, n))
    else FirstMintable(slots, fromId, isFree, n + 1)
  }

  lemma {:induction false} MintedIsMintable(slots: Store, fromId: Id, isFree: Id -> bool, n: nat)
    requires FirstMintable(slots, fromId, isFree, n).Some?
    ensures var id := FirstMintable(slots, fromId, isFree, n).value; id != "" && Mintable(slots, fromId, isFree, id)
    decreases 100 - n
  {
    if !Mintable(slots, fromId, isFree, Candidate(fromId, n)) { MintedIsMintable(slots, fromId, isFree, n + 1); }
  }

  /** The id minted is the first candidate to be had, of the stem with the numbers 2 to 99. */
  lemma {:induction false} MintedIsFirst(slots: Store, fromId: Id, isFree: Id -> bool, n: nat, k: nat)
    requires n <= k < 100
    requires forall i: nat | n <= i < k :: !Mintable(slots, fromId, isFree, Numbered(Stem(fromId), i))
    ensures FirstMintable(slots, fromId, isFree, n) == FirstMintable(slots, fromId, isFree, k)
    ensures Mintable(slots, fromId, isFree, Numbered(Stem(fromId), k)) ==>
              FirstMintable(slots, fromId, isFree, n) == Some(Numbered(Stem(fromId), k))
    decreases k - n
  {
    assert Candidate(fromId, n) == Numbered(Stem(fromId), n);
    if n < k { MintedIsFirst(slots, fromId, isFree, n + 1, k); }
  }

  function Numbered(stem: Id, n: nat): Id { stem + ("-" + Decimal(n)) }

  /** Nothing is minted exactly when none of the 98 is to be had. */
  lemma NothingMintedIff(slots: Store, fromId: Id, isFree: Id -> bool)
    ensures FirstMintable(slots, fromId, isFree, 2).None? <==>
              forall i: nat | 2 <= i <= 99 :: !Mintable(slots, fromId, isFree, Numbered(Stem(fromId), i))
  {
    if FirstMintable(slots, fromId, isFree, 2).Some? {
      MintedIsNumbered(slots, fromId, isFree, 2);
    } else {
      forall i: nat | 2 <= i <= 99 ensures !Mintable(slots, fromId, isFree, Numbered(Stem(fromId), i)) {
        NoneNumbered(slots, fromId, isFree, 2, i);
      }
    }
  }

  lemma {:induction false} MintedIsNumbered(slots: Store, fromId: Id, isFree: Id -> bool, n: nat)
    requires FirstMintable(slots, fromId, isFree, n).Some?
    ensures exists i: nat :: n <= i <= 99 && Mintable(slots, fromId, isFree, Numbered(Stem(fromId), i))
                             && FirstMintable(slots, fromId, isFree, n) == Some(Numbered(Stem(fromId), i))
    decreases 100 - n
  {
    assert Candidate(fromId, n) == Numbered(Stem(fromId), n);
    if !Mintable(slots, fromId, isFree, Candidate(fromId, n)) { MintedIsNumbered(slots, fromId, isFree, n + 1); }
  }

  lemma {:induction false} NoneNumbered(slots: Store, fromId: Id, isFree: Id -> bool, n: nat, k: nat)
    requires n <= k < 100 && FirstMintable(slots, fromId, isFree, n).None?
    ensures !Mintable(slots, fromId, isFree, Numbered(Stem(fromId), k))
    decreases k - n
  {
    assert Candidate(fromId, n) == Numbered(Stem(fromId), n);
    if n < k { NoneNumbered(slots, fromId, isFree, n + 1, k); }
  }

  lemma {:induction false} DigitTailIs(s: string, d: string)
    requires AllDigits(d) && (s == "" || !IsDigit(s[|s| - 1]))
    ensures DigitTail(s + d) == |d|
  {
    if d == "" {
      assert s + d == s;
    } else {
      assert (s + d)[..|s + d| - 1] == s + d[..|d| - 1];
      DigitTailIs(s, d[..|d| - 1]);
    }
  }

  /** A hyphen and digits at the end are dropped, if something is left; and only one such number. */
  lemma StemOfNumbered(stem: Id, digits: string)
    requires stem != "" && digits != "" && AllDigits(digits)
    ensures Stem(stem + ("-" + digits)) == stem
  {
    var s := stem + "-";
    assert stem + ("-" + digits) == s + digits;
    DigitTailIs(s, digits);
    assert (s + digits)[..|stem|] == stem;
  }

  lemma {:induction false} TailSplits(s: string) returns (a: string, d: string)
    ensures s == a + d && AllDigits(d) && |d| == DigitTail(s)
  {
    if s != "" && IsDigit(s[|s| - 1]) {
      a, d := TailSplits(s[..|s| - 1]);
      d := d + [s[|s| - 1]];
    } else {
      a, d := s, "";
    }
  }

  /** An id that does not end so is its own stem. */
  lemma StemOfOther(id: Id)
    requires forall stem, digits: string :: stem != "" && digits != "" && AllDigits(digits) ==> id != stem + ("-" + digits)
    ensures Stem(id) == id
  {
    var a, d := TailSplits(id);
    if d != "" && |a| > 1 && a[|a| - 1] == '-' {
      assert id == a[..|a| - 1] + ("-" + d);
    }
  }

  /** The state after cloneSlot: the copy set under the minted id when that id held nothing and there is
      something to copy, else no change. */
  function Cloned(s: State, fromId: Id, isFree: Id -> bool, bridge: Bridge): State {
    var r := if s.loaded && fromId != "" then FirstMintable(s.slots, fromId, isFree, 2) else None;
    if r.None? || r.value in s.slots || SlotOf(s.slots, fromId).None? then s
    else Step(s, SetSlot(r.value, SlotOf(s.slots, fromId), bridge))
  }

  /** A minted id is new or already held this image; afterwards it reads as the original does, and no other
      id has changed. */
  lemma CloneCopiesWithoutClobbering(s: State, fromId: Id, isFree: Id -> bool, bridge: Bridge, other: Id)
    requires s.loaded && fromId != "" && FirstMintable(s.slots, fromId, isFree, 2).Some?
    ensures var id, t := FirstMintable(s.slots, fromId, isFree, 2).value, Cloned(s, fromId, isFree, bridge);
            && id != fromId && isFree(id) && SlotOf(t.slots, id) == SlotOf(s.slots, fromId)
            && (id in s.slots ==> t == s && SlotOf(s.slots, id).Some? && SlotOf(s.slots, id).value.u != "")
            && (other != id || other in s.slots ==> Lookup(t.slots, other) == Lookup(s.slots, other))
  {
    var id := FirstMintable(s.slots, fromId, isFree, 2).value;
    MintedIsMintable(s.slots, fromId, isFree, 2);
    if id !in s.slots && SlotOf(s.slots, fromId).Some? {
      CopyReadsBack(s, id, SlotOf(s.slots, fromId).value, bridge, other);
    }
  }

  lemma CopyReadsBack(s: State, id: Id, v: Slot, bridge: Bridge, other: Id)
    requires id != "" && s.loaded
    ensures var t := Step(s, SetSlot(id, Some(v), bridge));
            SlotOf(t.slots, id) == Some(v) && (other != id ==> Lookup(t.slots, other) == Lookup(s.slots, other))
  {}

  // ---------------------------------------------------------------- the store

  class Sidecar {
    var slots: Store
    var tombstones: set<Id>
    var loaded: bool
    var loadStarted: bool
    var saving: bool
    var saveDirty: bool
    // What the module cannot see: reactions queued on the read, writes outstanding, and the history.
    ghost var deferred: nat
    ghost var inFlight: nat
    ghost var issued: seq<Write>
    ghost var calls: nat

    ghost function Model(): State
      reads this
    {
      State(slots, tombstones, loaded, loadStarted, saving, saveDirty, deferred, inFlight, issued, calls)
    }

    constructor ()
      ensures Model() == INIT
    {
      slots, tombstones := map[], {};
      loaded, loadStarted, saving, saveDirty := false, false, false, false;
      deferred, inFlight, issued, calls := 0, 0, [], 0;
    }

    method Load()
      modifies this
      ensures Model() == Step(old(Model()), Event.Load)
    {
      loadStarted := true;
    }

    method SetSlot(id: Id, val: Option<Slot>, bridge: Bridge)
      modifies this
      ensures Model() == Step(old(Model()), Event.SetSlot(id, val, bridge))
    {
      if id == "" { return; }
      calls := calls + 1;
      if val.Some? {
        slots := slots[id := Entry(val.value)];
        tombstones := tombstones - {id};
      } else {
        slots := slots - {id};
        if !loaded { tombstones := tombstones + {id}; }
      }
      if loaded {
        Save(bridge);
      } else {
        loadStarted := true;
        deferred := deferred + 1;
      }
    }

    method Save(bridge: Bridge)
      modifies this
      ensures Model() == Saved(old(Model()), bridge)
    {
      if saving {
        saveDirty := true;
        return;
      }
      if bridge.Absent? { return; }
      saving := true;
      if bridge.Present? {
        issued := issued + [Write(BySave, slots)];
        inFlight := inFlight + 1;
      }
    }

    /** The read settles: the sidecar loses to every in-memory change that raced ahead of it. */
    method ReadLands(result: ReadResult)
      requires loadStarted && !loaded
      modifies this
      ensures Model() == Step(old(Model()), Event.ReadLands(result))
    {
      match result {
      case Readable(j) =>
        var merged := j + slots;
        var keys := slots.Keys;
        while keys != {}
          invariant keys <= slots.Keys && merged.Keys == j.Keys + slots.Keys
          invariant forall id | id in merged :: merged[id] ==
                      if id !in slots then j[id] else if id in keys then slots[id] else Filled(slots[id], j, id)
          invariant Model() == old(Model())
          decreases keys
        {
          var k :| k in keys;
          var v := merged[k];
          if Truthy(v) && v.Entry? && v.slot.u == "" && k in j && Truthy(j[k]) {
            merged := merged[k := Entry(v.slot.(u := ImageOf(j[k])))];
          }
          keys := keys - {k};
        }
        slots := merged - tombstones;
        assert slots == Merge(old(slots), old(tombstones), j);
        tombstones := {};
      case Missing => tombstones := {};
      case Failed =>
      }
      loaded := true;
    }

    /** A `.then(save)` queued before the read settled. */
    method RunDeferred(bridge: Bridge)
      requires loaded && deferred > 0
      modifies this
      ensures Model() == Step(old(Model()), Event.RunDeferred(bridge))
    {
      deferred := deferred - 1;
      Save(bridge);
    }

    method WriteSettles(bridge: Bridge)
      requires inFlight > 0
      modifies this
      ensures Model() == Step(old(Model()), Event.WriteSettles(bridge))
    {
      inFlight := inFlight - 1;
      saving := false;
      if saveDirty {
        saveDirty := false;
        Save(bridge);
      }
    }

    method FlushNow(bridge: Bridge)
      modifies this
      ensures Model() == Step(old(Model()), Event.FlushNow(bridge))
    {
      if !loaded { return; }
      if !bridge.Present? { return; }
      issued := issued + [Write(ByFlush, slots)];
    }

    method GetSlot(id: Id) returns (r: Option<Slot>)
      ensures r == SlotOf(slots, id)
    {
      if id !in slots || !Truthy(slots[id]) { return None; }
      match slots[id]
      case Bare(url) => r := Some(Slot(url, 1.0, 0.0, 0.0));
      case Entry(slot) => r := Some(slot);
    }

    method CloneSlot(fromId: Id, isFree: Id -> bool, bridge: Bridge) returns (r: Option<Id>)
      modifies this
      ensures r == if old(loaded) && fromId != "" then FirstMintable(old(slots), fromId, isFree, 2) else None
      ensures Model() == Cloned(old(Model()), fromId, isFree, bridge)
    {
      if fromId == "" { return None; }
      if !loaded { return None; }
      var stem := Stem(fromId);
      var n := 2;
      while n < 100
        invariant 2 <= n <= 100 && Model() == old(Model())
        invariant FirstMintable(slots, fromId, isFree, 2) == FirstMintable(slots, fromId, isFree, n)
      {
        var toId := stem + "-" + Decimal(n);
        assert toId == Candidate(fromId, n);
        if toId != fromId {
          if toId in slots {
            var prev := GetSlot(toId);
            var cur := GetSlot(fromId);
            if prev.Some? && cur.Some? && prev.value.u != "" && prev == cur && isFree(toId) { return Some(toId); }
          } else if isFree(toId) {
            var v := GetSlot(fromId);
            if v.Some? { SetSlot(toId, v, bridge); }
            return Some(toId);
          }
        }
        n := n + 1;
      }
      return None;
    }
  }
}
