/** The shared sidecar store of `<image-slot>` (packages/design/assets/image-slot.js) as a state machine:
    one asynchronous read racing in-memory sets and clears, and a serialised writer with a dirty flag. */
module ImageSlotStore {
  import opened Options
  import opened Text

  type Id = string

  /** An in-memory slot value; `u == ""` is a framing-only value that carries no image. */
  datatype Slot = Slot(u: string, s: real, x: real, y: real)

  /** A stored value as the sidecar may hold it: a JSON null, a bare data URL, or an object. */
  datatype Stored = Nil | Bare(url: string) | Entry(slot: Slot)

  type Store = map<Id, Stored>

  predicate Truthy(v: Stored) {
    match v
    case Nil => false
    case Bare(url) => url != ""
    case Entry(_) => true
  }

  function ImageOf(v: Stored): string {
    match v
    case Nil => ""
    case Bare(url) => url
    case Entry(slot) => slot.u
  }

  function Lookup(slots: Store, id: Id): Option<Stored> {
    if id in slots then Some(slots[id]) else None
  }

  function Normalised(v: Stored): Option<Slot> {
    match v
    case Nil => None
    case Bare(url) => if url == "" then None else Some(Slot(url, 1.0, 0.0, 0.0))
    case Entry(slot) => Some(slot)
  }

  function SlotOf(slots: Store, id: Id): Option<Slot> {
    if id in slots then Normalised(slots[id]) else None
  }

  /** `window.omelette.writeFile` at the moment it is looked up. */
  datatype Bridge = Absent | Present | Throws

  /** How the one read of the sidecar ends: an object, an answer without one, or a rejection. */
  datatype ReadResult = Readable(j: Store) | Missing | Failed

  datatype Writer = BySave | ByFlush
  datatype Write = Write(writer: Writer, snapshot: Store)

  /** The module variables, the promise reactions queued behind them, and the writes issued so far. */
  datatype State = State(
    slots: Store,
    tombstones: set<Id>,
    loaded: bool,
    reading: bool,
    saving: bool,
    dirty: bool,
    deferred: nat,
    inFlight: nat,
    issued: seq<Write>,
    calls: nat)

  const INIT := State(map[], {}, false, false, false, false, 0, 0, [], 0)

  datatype Event =
    | Load
    | SetSlot(id: Id, val: Option<Slot>, bridge: Bridge)
    | ReadLands(result: ReadResult)
    | RunDeferred(bridge: Bridge)
    | WriteSettles(bridge: Bridge)
    | FlushNow(bridge: Bridge)

  // ---------------------------------------------------------------- the steps

  /** An in-memory value that carries no image takes the sidecar's. */
  function Filled(v: Stored, j: Store, id: Id): Stored {
    if v.Entry? && v.slot.u == "" && id in j && Truthy(j[id]) then Entry(v.slot.(u := ImageOf(j[id]))) else v
  }

  function Merge(slots: Store, tombstones: set<Id>, j: Store): Store {
    map id | id in j.Keys + slots.Keys && id !in tombstones :: if id in slots then Filled(slots[id], j, id) else j[id]
  }

  function Saved(s: State, bridge: Bridge): State {
    if s.saving then s.(dirty := true)
    else
      match bridge
      case Absent => s
      case Throws => s.(saving := true)
      case Present => s.(saving := true, inFlight := s.inFlight + 1, issued := s.issued + [Write(BySave, s.slots)])
  }

  function Put(s: State, id: Id, val: Option<Slot>): State {
    if val.Some? then s.(slots := s.slots[id := Entry(val.value)], tombstones := s.tombstones - {id}, calls := s.calls + 1)
    else s.(slots := s.slots - {id}, tombstones := if s.loaded then s.tombstones else s.tombstones + {id}, calls := s.calls + 1)
  }

  /** One event; an event that cannot happen in the state changes nothing. */
  function Step(s: State, e: Event): State {
    match e
    case Load => s.(reading := true)
    case SetSlot(id, val, bridge) =>
      if id == "" then s
      else if s.loaded then Saved(Put(s, id, val), bridge)
      else Put(s, id, val).(reading := true, deferred := s.deferred + 1)
    case ReadLands(result) =>
      if s.loaded || !s.reading then s
      else
        (match result
         case Readable(j) => s.(slots := Merge(s.slots, s.tombstones, j), tombstones := {}, loaded := true)
         case Missing => s.(tombstones := {}, loaded := true)
         case Failed => s.(loaded := true))
    case RunDeferred(bridge) =>
      if s.loaded && s.deferred > 0 then Saved(s.(deferred := s.deferred - 1), bridge) else s
    case WriteSettles(bridge) =>
      if s.inFlight == 0 then s
      else
        var t := s.(inFlight := s.inFlight - 1, saving := false);
        if t.dirty then Saved(t.(dirty := false), bridge) else t
    case FlushNow(bridge) =>
      if s.loaded && bridge.Present? then s.(issued := s.issued + [Write(ByFlush, s.slots)]) else s
  }

  function Run(s: State, es: seq<Event>): State {
    if es == [] then s else Step(Run(s, es[..|es| - 1]), es[|es| - 1])
  }

  // ---------------------------------------------------------------- what every step keeps

  function SavesIn(ws: seq<Write>): nat {
    if ws == [] then 0 else SavesIn(ws[..|ws| - 1]) + if ws[|ws| - 1].writer.BySave? then 1 else 0
  }

  ghost predicate Inv(s: State) {
    && s.inFlight <= 1
    && (s.inFlight == 1 ==> s.saving)
    && (s.dirty ==> s.saving)
    && (!s.loaded ==> s.issued == [] && !s.saving && s.inFlight == 0)
    && (s.deferred > 0 ==> s.reading)
    && (s.loaded ==> s.reading)
    && s.slots.Keys !! s.tombstones
    && SavesIn(s.issued) + s.deferred + (if s.dirty then 1 else 0) <= s.calls
  }

  lemma SavesAppend(ws: seq<Write>, w: Write)
    ensures SavesIn(ws + [w]) == SavesIn(ws) + if w.writer.BySave? then 1 else 0
  {
    assert (ws + [w])[..|ws|] == ws;
  }

  /** The bookkeeping a save request leaves: one call's worth of credit covers one write or the dirty flag. */
  lemma SavedKeeps(s: State, bridge: Bridge)
    requires s.inFlight <= 1 && (s.inFlight == 1 ==> s.saving) && (s.dirty ==> s.saving) && s.loaded && s.reading
    requires s.slots.Keys !! s.tombstones
    requires SavesIn(s.issued) + s.deferred + (if s.dirty then 1 else 0) + 1 <= s.calls
    ensures Inv(Saved(s, bridge))
  {
    SavesAppend(s.issued, Write(BySave, s.slots));
  }

  lemma PutKeepsApart(s: State, id: Id, val: Option<Slot>)
    requires s.slots.Keys !! s.tombstones
    ensures Put(s, id, val).slots.Keys !! Put(s, id, val).tombstones
  {}

  lemma SetKeeps(s: State, id: Id, val: Option<Slot>, bridge: Bridge)
    requires Inv(s)
    ensures Inv(Step(s, SetSlot(id, val, bridge)))
  {
    PutKeepsApart(s, id, val);
    if id != "" && s.loaded { SavedKeeps(Put(s, id, val), bridge); }
  }

  lemma ReadKeeps(s: State, result: ReadResult)
    requires Inv(s)
    ensures Inv(Step(s, ReadLands(result)))
  {}

  lemma SettleKeeps(s: State, bridge: Bridge)
    requires Inv(s)
    ensures Inv(Step(s, WriteSettles(bridge)))
  {
    if s.inFlight > 0 && s.dirty {
      SavedKeeps(s.(inFlight := s.inFlight - 1, saving := false, dirty := false), bridge);
    }
  }

  lemma StepKeeps(s: State, e: Event)
    requires Inv(s)
    ensures Inv(Step(s, e))
  {
    match e
    case SetSlot(id, val, bridge) => SetKeeps(s, id, val, bridge);
    case RunDeferred(bridge) =>
      if s.loaded && s.deferred > 0 { SavedKeeps(s.(deferred := s.deferred - 1), bridge); }
    case WriteSettles(bridge) => SettleKeeps(s, bridge);
    case FlushNow(_) => SavesAppend(s.issued, Write(ByFlush, s.slots));
    case ReadLands(result) => ReadKeeps(s, result);
    case Load =>
  }

  /** Over every run: at most one save write outstanding, no write before the read has settled, and never
      more save writes than setSlot calls. */
  lemma {:induction false} WriterIsSerial(es: seq<Event>)
    ensures var s := Run(INIT, es);
            && Inv(s) && s.inFlight <= 1
            && (s.issued != [] ==> s.loaded)
            && SavesIn(s.issued) <= s.calls
  {
    if es != [] {
      WriterIsSerial(es[..|es| - 1]);
      StepKeeps(Run(INIT, es[..|es| - 1]), es[|es| - 1]);
    }
  }

  ghost predicate Unread(s: State) {
    !s.loaded && s.issued == [] && s.inFlight == 0
  }

  lemma UnreadStep(s: State, e: Event)
    requires Unread(s) && !e.ReadLands?
    ensures Unread(Step(s, e))
  {}

  /** Until the read settles nothing at all is issued, by save or by flush. */
  lemma {:induction false} NothingWrittenBeforeTheRead(es: seq<Event>)
    requires forall i | 0 <= i < |es| :: !es[i].ReadLands?
    ensures Unread(Run(INIT, es))
  {
    if es != [] {
      NothingWrittenBeforeTheRead(es[..|es| - 1]);
      UnreadStep(Run(INIT, es[..|es| - 1]), es[|es| - 1]);
    }
  }

  // ---------------------------------------------------------------- convergence

  /** The bridge that the event asks to write, if a save gets that far. */
  function Asked(s: State, e: Event): Option<Bridge> {
    match e
    case SetSlot(id, _, b) => if id != "" && s.loaded && !s.saving then Some(b) else None
    case RunDeferred(b) => if s.loaded && s.deferred > 0 && !s.saving then Some(b) else None
    case WriteSettles(b) => if s.inFlight > 0 && s.dirty then Some(b) else None
    case _ => None
  }

  /** What the last save of the run that asked the bridge found. */
  function LastAsked(es: seq<Event>): Option<Bridge> {
    if es == [] then None
    else
      var a := Asked(Run(INIT, es[..|es| - 1]), es[|es| - 1]);
      if a.Some? then a else LastAsked(es[..|es| - 1])
  }

  function LastSnapshot(s: State): Option<Store> {
    if s.issued == [] then None else Some(s.issued[|s.issued| - 1].snapshot)
  }

  /** Unless a save is still owed, the bridge was asked with the current store. */
  ghost predicate Converging(s: State, last: Option<Bridge>) {
    && (s.saving ==> s.inFlight == 1 || last == Some(Throws))
    && (s.calls > 0 ==> s.deferred > 0 || s.dirty || last.Some?)
    && (s.calls > 0 && last == Some(Present) ==> s.deferred > 0 || s.dirty || LastSnapshot(s) == Some(s.slots))
    && (s.calls > 0 && !s.loaded ==> s.deferred > 0)
  }

  lemma StepConverges(s: State, e: Event, last: Option<Bridge>)
    requires Inv(s) && Converging(s, last)
    ensures Converging(Step(s, e), if Asked(s, e).Some? then Asked(s, e) else last)
  {}

  /** Quiet: no reaction is queued and no write is outstanding. */
  ghost predicate Quiet(s: State) {
    s.deferred == 0 && s.inFlight == 0
  }

  lemma {:induction false} RunConverges(es: seq<Event>)
    ensures Inv(Run(INIT, es)) && Converging(Run(INIT, es), LastAsked(es))
  {
    if es != [] {
      RunConverges(es[..|es| - 1]);
      StepKeeps(Run(INIT, es[..|es| - 1]), es[|es| - 1]);
      StepConverges(Run(INIT, es[..|es| - 1]), es[|es| - 1], LastAsked(es[..|es| - 1]));
    }
  }

  /** The writer converges: once everything is quiet after at least one call, and the last save that asked for the
      bridge found it, the last snapshot issued is exactly the current store, whatever earlier saves found. */
  lemma QuietIsSaved(es: seq<Event>)
    requires Quiet(Run(INIT, es)) && Run(INIT, es).calls > 0
    requires LastAsked(es) == Some(Present)
    ensures Run(INIT, es).loaded && LastSnapshot(Run(INIT, es)) == Some(Run(INIT, es).slots)
  {
    RunConverges(es);
  }

  /** By then the bridge has been asked, unless an earlier save is stuck. */
  lemma QuietHasAsked(es: seq<Event>)
    requires Quiet(Run(INIT, es)) && Run(INIT, es).calls > 0
    ensures LastAsked(es).Some?
  {
    RunConverges(es);
  }

  ghost predicate Stuck(s: State) {
    s.saving && s.inFlight == 0
  }

  lemma StuckStep(s: State, e: Event)
    requires Stuck(s)
    ensures Stuck(Step(s, e)) && SavesIn(Step(s, e).issued) == SavesIn(s.issued)
  {
    match e
    case FlushNow(_) => SavesAppend(s.issued, Write(ByFlush, s.slots));
    case _ =>
  }

  /** A bridge that throws as it is called leaves `saving` set with nothing outstanding: from then on no run
      issues another save write, whatever is set and however the bridge behaves later. */
  lemma {:induction false} ThrowingBridgeSilencesSave(s: State, es: seq<Event>)
    requires Stuck(s)
    ensures Stuck(Run(s, es)) && SavesIn(Run(s, es).issued) == SavesIn(s.issued)
  {
    if es != [] {
      ThrowingBridgeSilencesSave(s, es[..|es| - 1]);
      StuckStep(Run(s, es[..|es| - 1]), es[|es| - 1]);
    }
  }

  lemma StuckStepIff(s: State, e: Event)
    requires Inv(s) && !Stuck(s)
    ensures Stuck(Step(s, e)) <==> Asked(s, e) == Some(Throws)
  {}

  /** Event `n` of the run gets as far as asking the bridge to write, and it throws. */
  ghost predicate ThrownAt(es: seq<Event>, n: nat) {
    n < |es| && Asked(Run(INIT, es[..n]), es[n]) == Some(Throws)
  }

  lemma ThrownInPrefix(es: seq<Event>, before: seq<Event>, k: nat)
    requires k + 1 == |es| && before == es[..k]
    ensures (exists n :: ThrownAt(es, n)) <==> (exists n :: ThrownAt(before, n)) || ThrownAt(es, k)
  {
    forall n: nat | n < k ensures ThrownAt(before, n) <==> ThrownAt(es, n) {
      assert before[..n] == es[..n];
    }
  }

  /** A run ends stuck exactly when some save of it got as far as asking the bridge to write, and it threw. */
  lemma {:induction false} StuckIffThrown(es: seq<Event>)
    ensures Stuck(Run(INIT, es)) <==> exists n :: ThrownAt(es, n)
  {
    if es != [] {
      var k := |es| - 1;
      ThrownInPrefix(es, es[..k], k);
      StuckIffThrown(es[..k]);
      WriterIsSerial(es[..k]);
      if Stuck(Run(INIT, es[..k])) { StuckStep(Run(INIT, es[..k]), es[k]); } else { StuckStepIff(Run(INIT, es[..k]), es[k]); }
    }
  }

  /** ... and a single call is enough to get there. */
  lemma ThrowingBridgeIsReachable(id: Id, v: Slot)
    requires id != ""
    ensures var s := Run(INIT, [Load, ReadLands(Missing), SetSlot(id, Some(v), Throws)]);
            Stuck(s) && s.issued == [] && s.slots == map[id := Entry(v)]
  {
    var e1, e2, e3 := Load, ReadLands(Missing), SetSlot(id, Some(v), Throws);
    assert [e1, e2, e3][..2] == [e1, e2] && [e1, e2][..1] == [e1] && [e1][..0] == [];
    assert Run(INIT, [e1]) == Step(INIT, e1);
    assert Run(INIT, [e1, e2]) == Step(Step(INIT, e1), e2);
  }

  // ---------------------------------------------------------------- hydration

  datatype Action = Untouched | Kept(v: Slot) | Cleared

  function NextAction(a: Action, e: Event, id: Id): Action {
    if e.SetSlot? && e.id == id && id != "" then (if e.val.Some? then Kept(e.val.value) else Cleared) else a
  }

  /** What the run last did to an id. */
  function LastAction(es: seq<Event>, id: Id): Action {
    if es == [] then Untouched else NextAction(LastAction(es[..|es| - 1], id), es[|es| - 1], id)
  }

  /** What the id should come to when the sidecar j lands: the last in-memory value, with the sidecar's image
      if it carries none; nothing if it was cleared; the sidecar's value if it was never touched. */
  function Hydrated(a: Action, j: Store, id: Id): Option<Stored> {
    match a
    case Untouched => Lookup(j, id)
    case Cleared => None
    case Kept(v) =>
      if v.u != "" || id !in j then Some(Entry(v))
      else
        match j[id]
        case Nil => Some(Entry(v))
        case Bare(url) => Some(Entry(v.(u := url)))
        case Entry(slot) => Some(Entry(v.(u := slot.u)))
  }

  ghost predicate Tracks(s: State, a: Action, id: Id) {
    match a
    case Untouched => id !in s.slots && id !in s.tombstones
    case Kept(v) => id in s.slots && s.slots[id] == Entry(v) && id !in s.tombstones
    case Cleared => id !in s.slots && id in s.tombstones
  }

  lemma TrackStep(s: State, e: Event, a: Action, id: Id)
    requires Unread(s) && !e.ReadLands? && Tracks(s, a, id)
    ensures Tracks(Step(s, e), NextAction(a, e, id), id)
  {}

  lemma {:induction false} RaceTracks(es: seq<Event>, id: Id)
    requires forall i | 0 <= i < |es| :: !es[i].ReadLands?
    ensures Unread(Run(INIT, es)) && Tracks(Run(INIT, es), LastAction(es, id), id)
  {
    if es != [] {
      RaceTracks(es[..|es| - 1], id);
      UnreadStep(Run(INIT, es[..|es| - 1]), es[|es| - 1]);
      TrackStep(Run(INIT, es[..|es| - 1]), es[|es| - 1], LastAction(es[..|es| - 1], id), id);
    }
  }

  /** Hydration is race-free: whatever sets and clears raced the read, in any order, every id ends as it should. */
  lemma HydrationIsRaceFree(es: seq<Event>, j: Store, id: Id)
    requires forall i | 0 <= i < |es| :: !es[i].ReadLands?
    requires Run(INIT, es).reading
    ensures var s := Run(INIT, es + [ReadLands(Readable(j))]);
            s.loaded && Lookup(s.slots, id) == Hydrated(LastAction(es, id), j, id)
  {
    RaceTracks(es, id);
    assert (es + [ReadLands(Readable(j))])[..|es|] == es;
  }

  /** An unreadable sidecar leaves exactly what was set in memory. */
  lemma UnreadableKeepsMemory(es: seq<Event>, result: ReadResult, id: Id)
    requires forall i | 0 <= i < |es| :: !es[i].ReadLands?
    requires Run(INIT, es).reading && !result.Readable?
    ensures Run(INIT, es + [ReadLands(result)]).loaded
    ensures Lookup(Run(INIT, es + [ReadLands(result)]).slots, id) == Hydrated(LastAction(es, id), map[], id)
  {
    RaceTracks(es, id);
    assert (es + [ReadLands(result)])[..|es|] == es;
  }

  /** What an id never set or cleared reads as once the sidecar has landed: nothing for null, the empty string or no entry,
      a bare URL as that image in full and centred, an object as it is. */
  lemma HydratedReads(es: seq<Event>, j: Store, id: Id)
    requires forall i | 0 <= i < |es| :: !es[i].ReadLands?
    requires Run(INIT, es).reading && LastAction(es, id).Untouched?
    ensures var r := SlotOf(Run(INIT, es + [ReadLands(Readable(j))]).slots, id);
            if id !in j then r == None
            else match j[id]
                 case Nil => r == None
                 case Bare(url) => r == (if url == "" then None else Some(Slot(url, 1.0, 0.0, 0.0)))
                 case Entry(slot) => r == Some(slot)
  {
    HydrationIsRaceFree(es, j, id);
    var s := Run(INIT, es + [ReadLands(Readable(j))]);
    assert SlotOf(s.slots, id) == if Lookup(s.slots, id).Some? then Normalised(Lookup(s.slots, id).value) else None;
  }

  lemma SavingLeavesSlots(s: State, bridge: Bridge)
    ensures Saved(s, bridge).slots == s.slots && Saved(s, bridge).loaded == s.loaded
  {}

  lemma PutSettles(s: State, e: Event, id: Id)
    requires e.SetSlot? && e.id != ""
    ensures Lookup(Put(s, e.id, e.val).slots, id) == Settled(NextAction(Untouched, e, id), Lookup(s.slots, id))
  {}

  lemma LoadedStep(s: State, e: Event, id: Id)
    requires s.loaded
    ensures Step(s, e).loaded
    ensures Lookup(Step(s, e).slots, id) == Settled(NextAction(Untouched, e, id), Lookup(s.slots, id))
  {
    match e
    case SetSlot(i, val, bridge) =>
      if i != "" {
        PutSettles(s, e, id);
        SavingLeavesSlots(Put(s, i, val), bridge);
      }
    case RunDeferred(bridge) => if s.deferred > 0 { SavingLeavesSlots(s.(deferred := s.deferred - 1), bridge); }
    case WriteSettles(bridge) => SettleLeavesSlots(s, bridge);
    case _ =>
  }

  lemma SettleLeavesSlots(s: State, bridge: Bridge)
    ensures Step(s, WriteSettles(bridge)).slots == s.slots && Step(s, WriteSettles(bridge)).loaded == s.loaded
  {}

  /** What is in memory after a set, a clear, or neither. */
  function Settled(a: Action, before: Option<Stored>): Option<Stored> {
    match a
    case Untouched => before
    case Kept(v) => Some(Entry(v))
    case Cleared => None
  }

  /** Once the read has settled the last set or clear of an id stands, and ids that have none stay as they were. */
  lemma {:induction false} LastWordStands(s: State, es: seq<Event>, id: Id)
    requires s.loaded
    ensures Run(s, es).loaded
    ensures Lookup(Run(s, es).slots, id) == Settled(LastAction(es, id), Lookup(s.slots, id))
  {
    if es != [] {
      LastWordStands(s, es[..|es| - 1], id);
      LoadedStep(Run(s, es[..|es| - 1]), es[|es| - 1], id);
    }
  }
}