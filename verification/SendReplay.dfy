/** The send of a parcel order (apps/mobile/app/send.tsx, src/logic/send-draft.ts) as a state machine: the
    frozen idempotency key, the stored draft behind its serial write chain, the attempts and requests of a
    screen that can be killed at any moment, and a server that makes at most one order per key. */
module SendReplay {
  import opened Options

  type Key = string

  /** What the store keeps of a compose: `blank` says that no stop, item or note is worth restoring. */
  datatype Draft = Draft(savedAt: int, profileId: string, blank: bool, sentKey: Option<Key>, sentAt: int)

  datatype Op = Save(draft: Draft) | Clear

  /** The slot on disk, the chain of writes not done yet, and how many are done. */
  datatype Storage = Storage(slot: Option<Draft>, queue: seq<Op>, completed: nat)

  /** The refs of the screen. `mint` is the key that the present compose would send. */
  datatype Screen = Screen(sentKey: Option<Key>, sentAt: int, ready: bool, done: bool, mint: Key, blank: bool)

  /** An attempt between the tap and its request: it waits for write number `ticket`. `settled` when a definitive
      refusal of its key came first. */
  datatype Attempt = Attempt(key: Key, ticket: nat, settled: bool)

  datatype Sends = Sends(waiting: map<nat, Attempt>, awaiting: map<nat, Key>, next: nat)

  /** Requests that may still make an order, keys that have one, keys whose order the app was told of, and the
      keys of the requests sent since the last definitive answer. */
  datatype World = World(open: map<nat, Key>, orders: set<Key>, acked: set<Key>, sent: set<Key>)

  datatype State = State(profile: Option<string>, screen: Screen, storage: Storage, sends: Sends, world: World)

  /** What createOrder threw. `standing`: the server refused the sender's account, not the order. */
  datatype Failure = ApiFailure(status: int, standing: bool) | OtherFailure

  /** The failures on which the screen frees its key (isDefinitiveSendFailure). */
  predicate IsDefinitive(f: Failure) {
    f.ApiFailure? && 400 <= f.status < 500 && !f.standing
  }

  /** The failures by which the server says that there is no order under the key and that no send begun before makes
      one: the 4xx class (section 15.5 of RFC 9110), but for a refusal of the account, which is raised before the key
      is looked up. */
  predicate JudgedVoid(f: Failure) {
    match f
    case ApiFailure(status, standing) => status / 100 == 4 && !standing
    case OtherFailure => false
  }

  datatype Event =
    | Edit(mint: Key, blank: bool)
    | Flush(now: int)
    | WriteDone
    | Submit(now: int)
    | Post(id: nat)
    | ServerMakes(id: nat)
    | AnswerOk(id: nat)
    | Failed(id: nat, failure: Failure, now: int)
    | Kill(mint: Key)
    | Reopen(mint: Key, now: int)
    | Restore(now: int, sendAgain: bool)

  const DRAFT_TTL_MS := 24 * 60 * 60 * 1000
  const KEY_TTL_MS := 10 * 60 * 1000
  const SKEW_MS := 60_000

  // ---------------------------------------------------------------- the stored draft

  /** parseSendDraft: what a slot still gives the reader, if anything. */
  function Parsed(slot: Option<Draft>, now: int, profile: Option<string>): Option<Draft> {
    if slot.None? then None
    else
      var d := slot.value;
      if now - d.savedAt > DRAFT_TTL_MS || d.savedAt - now > SKEW_MS then None
      else if profile.None? || d.profileId != profile.value then None
      else
        var keyLive := d.sentKey.Some? && d.sentKey.value != "" && now - d.sentAt <= KEY_TTL_MS && d.sentAt - now <= SKEW_MS;
        var p := if keyLive then d else d.(sentKey := None, sentAt := 0);
        if p.blank && p.sentKey.None? then None else Some(p)
  }

  function Written(slot: Option<Draft>, op: Op): Option<Draft> {
    if op.Clear? || (op.draft.blank && op.draft.sentKey.None?) then None else Some(op.draft)
  }

  function DraftNow(s: Screen, profile: string, now: int): Draft {
    Draft(now, profile, s.blank, s.sentKey, if s.sentKey.Some? then s.sentAt else 0)
  }

  predicate Writes(s: Screen, profile: Option<string>) {
    s.ready && !s.done && profile.Some?
  }

  function Flushed(st: Storage, s: Screen, profile: Option<string>, now: int): Storage {
    if Writes(s, profile) then st.(queue := st.queue + [Save(DraftNow(s, profile.value, now))]) else st
  }

  /** The number of the write that a flush waits for; none if it writes nothing. */
  function Ticket(st: Storage, s: Screen, profile: Option<string>): nat {
    if Writes(s, profile) then st.completed + |st.queue| + 1 else 0
  }

  // ---------------------------------------------------------------- the steps

  function Blank(mint: Key): Screen {
    Screen(None, 0, false, false, mint, true)
  }

  function Frozen(s: Screen, now: int): Screen {
    s.(sentKey := if s.sentKey.Some? then s.sentKey else Some(s.mint), sentAt := now)
  }

  function Restored(s: Screen, p: Option<Draft>, sendAgain: bool): Screen {
    if p.None? then s.(ready := true)
    else if sendAgain then
      if p.value.sentKey.Some? then s.(sentKey := p.value.sentKey, sentAt := p.value.sentAt, ready := true) else s.(ready := true)
    else s.(sentKey := p.value.sentKey, sentAt := p.value.sentAt, blank := p.value.blank, ready := true)
  }

  function Submitted(s: State, now: int): State {
    var f := Frozen(s.screen, now);
    s.(screen := f, storage := Flushed(s.storage, f, s.profile, now),
       sends := s.sends.(waiting := s.sends.waiting[s.sends.next := Attempt(f.sentKey.value, Ticket(s.storage, f, s.profile), false)],
                         next := s.sends.next + 1))
  }

  function Posted(s: State, id: nat): State
    requires id in s.sends.waiting
  {
    var a := s.sends.waiting[id];
    s.(sends := s.sends.(waiting := s.sends.waiting - {id}, awaiting := s.sends.awaiting[id := a.key]),
       world := if a.settled then s.world
                else s.world.(open := s.world.open[id := a.key],
                              sent := if a.key in s.world.acked then s.world.sent else s.world.sent + {a.key}))
  }

  function Acked(s: State, id: nat): State
    requires id in s.sends.awaiting
  {
    s.(screen := s.screen.(sentKey := None, done := true),
       storage := s.storage.(queue := s.storage.queue + [Clear]),
       sends := s.sends.(awaiting := s.sends.awaiting - {id}),
       world := s.world.(open := s.world.open - {id}, acked := s.world.acked + {s.sends.awaiting[id]}, sent := {}))
  }

  /** The server has judged the key: nothing begun under it before makes an order. */
  function Without(open: map<nat, Key>, key: Key): map<nat, Key> {
    map id | id in open && open[id] != key :: open[id]
  }

  function Settled(waiting: map<nat, Attempt>, key: Key): map<nat, Attempt> {
    map id | id in waiting :: if waiting[id].key == key then waiting[id].(settled := true) else waiting[id]
  }

  /** What the server has judged void makes no order any more. */
  function Judged(s: State, key: Key): State {
    s.(sends := s.sends.(waiting := Settled(s.sends.waiting, key)),
       world := s.world.(open := Without(s.world.open, key), sent := {}))
  }

  /** The screen drops its key and rewrites its draft without it. */
  function Freed(s: State, now: int): State {
    var c := s.screen.(sentKey := None, sentAt := 0);
    s.(screen := c, storage := Flushed(s.storage, c, s.profile, now))
  }

  /** The failure arrives: what it says of the server, whatever the screen makes of it. */
  function Answered(s: State, id: nat, failure: Failure): State
    requires id in s.sends.awaiting
  {
    var t := s.(sends := s.sends.(awaiting := s.sends.awaiting - {id}));
    if JudgedVoid(failure) then Judged(t, s.sends.awaiting[id]) else t
  }

  function FailedAt(s: State, id: nat, failure: Failure, now: int): State
    requires id in s.sends.awaiting
  {
    var t := Answered(s, id, failure);
    if IsDefinitive(failure) then Freed(t, now) else t
  }

  function NextWrite(st: Storage): Storage {
    if st.queue == [] then st
    else Storage(Written(st.slot, st.queue[0]), st.queue[1..], st.completed + 1)
  }

  /** The server says void only of a key that has no order. */
  predicate CanFail(s: State, id: nat, failure: Failure) {
    id in s.sends.awaiting && (JudgedVoid(failure) ==> s.sends.awaiting[id] !in s.world.orders)
  }

  function Step(s: State, e: Event): State {
    match e
    case Edit(mint, blank) => s.(screen := s.screen.(mint := mint, blank := blank))
    case Flush(now) => s.(storage := Flushed(s.storage, s.screen, s.profile, now))
    case WriteDone => s.(storage := NextWrite(s.storage))
    case Submit(now) => Submitted(s, now)
    case Post(id) =>
      if id in s.sends.waiting && s.sends.waiting[id].ticket <= s.storage.completed then Posted(s, id) else s
    case ServerMakes(id) =>
      if id in s.world.open then s.(world := s.world.(orders := s.world.orders + {s.world.open[id]})) else s
    case AnswerOk(id) =>
      // a 2xx names the order made under the key
      if id in s.sends.awaiting && s.sends.awaiting[id] in s.world.orders then Acked(s, id) else s
    case Failed(id, failure, now) =>
      if CanFail(s, id, failure) then FailedAt(s, id, failure, now) else s
    case Kill(mint) =>
      s.(screen := Blank(mint), storage := s.storage.(queue := []), sends := Sends(map[], map[], s.sends.next))
    case Reopen(mint, now) =>
      if s.sends.waiting == map[] && s.sends.awaiting == map[] then
        s.(screen := Blank(mint), storage := Flushed(s.storage, s.screen, s.profile, now))
      else s
    case Restore(now, sendAgain) =>
      // the read is an operation of the same chain, so it sees every write before it done
      if !s.screen.ready && s.storage.queue == [] then
        s.(screen := Restored(s.screen, Parsed(s.storage.slot, now, s.profile), sendAgain))
      else s
  }

  function Run(s: State, es: seq<Event>): State {
    if es == [] then s else Step(Run(s, es[..|es| - 1]), es[|es| - 1])
  }

  function Start(profile: Option<string>, slot: Option<Draft>, mint: Key): State {
    State(profile, Blank(mint), Storage(slot, [], 0), Sends(map[], map[], 0), World(map[], {}, {}, {}))
  }

  // ---------------------------------------------------------------- careful runs

  /** Some attempt of this screen is still between its tap and its answer. */
  predicate Busy(n: Sends) {
    n.waiting != map[] || n.awaiting != map[]
  }

  /** Every attempt of this screen that is still between its tap and its answer carries the key. */
  ghost predicate AllCarry(n: Sends, k: Key) {
    && (forall id :: id in n.waiting ==> n.waiting[id].key == k)
    && (forall id :: id in n.awaiting ==> n.awaiting[id] == k)
  }

  /** The key that a tap sends. */
  function TapKey(s: Screen): Key {
    if s.sentKey.Some? then s.sentKey.value else s.mint
  }

  /** A tap is safe on a screen that has read its draft, if it sends a key whose order the app was told of; or if
      its key goes to disk (or is there to stay) and no attempt outstanding carries another. */
  ghost predicate SafeTap(s: State) {
    var k := TapKey(s.screen);
    s.screen.ready &&
    (k in s.world.acked ||
     ((Writes(s.screen, s.profile) || OnDisk(s.storage, k)) && AllCarry(s.sends, k)))
  }

  /** A relaunch that finds the key of an order nobody was told of finds it within its lifetime. */
  ghost predicate SafeRestore(s: State, now: int) {
    !s.screen.ready && s.storage.queue == [] && s.storage.slot.Some? ==>
      var d := s.storage.slot.value;
      d.sentKey.Some? && Hot(s.world, d.sentKey.value) ==> LiveAt(d, now, s.profile)
  }

  /** The conditions the code does not enforce: safe taps, and relaunches within the lifetime of the stored key. */
  ghost predicate Careful(s: State, e: Event) {
    match e
    case Submit(_) => SafeTap(s)
    case Restore(now, _) => SafeRestore(s, now)
    case _ => true
  }

  /** The account's own draft, a day old at most, with a key that went out ten minutes ago at most; neither is more than
      a minute ahead of the clock. */
  predicate LiveAt(d: Draft, now: int, profile: Option<string>) {
    && profile == Some(d.profileId) && d.sentKey.Some? && d.sentKey.value != ""
    && -60_000 <= now - d.savedAt <= 86_400_000 && -60_000 <= now - d.sentAt <= 600_000
  }

  ghost predicate CarefulRun(s: State, es: seq<Event>) {
    es == [] || (CarefulRun(s, es[..|es| - 1]) && Careful(Run(s, es[..|es| - 1]), es[|es| - 1]))
  }

  // ---------------------------------------------------------------- the key on disk

  predicate HasKey(slot: Option<Draft>, k: Key) {
    slot.Some? && slot.value.sentKey == Some(k)
  }

  predicate Saves(op: Op, k: Key) {
    op.Save? && op.draft.sentKey == Some(k)
  }

  /** From write number `t` on, what the chain leaves on disk holds the key `k`. */
  ghost predicate KeyFrom(st: Storage, t: nat, k: Key) {
    && t <= st.completed + |st.queue|
    && (t <= st.completed ==> HasKey(st.slot, k))
    && (forall i :: 0 <= i < |st.queue| && st.completed + i + 1 >= t ==> Saves(st.queue[i], k))
  }

  /** On disk, and no queued write will take it off. */
  ghost predicate OnDisk(st: Storage, k: Key) {
    KeyFrom(st, 0, k)
  }

  lemma WriteKeeps(st: Storage, t: nat, k: Key)
    requires KeyFrom(st, t, k)
    ensures KeyFrom(NextWrite(st), t, k)
  {
    if st.queue != [] {
      var w := NextWrite(st);
      assert forall i :: 0 <= i < |w.queue| ==> w.queue[i] == st.queue[i + 1];
    }
  }

  lemma FlushKeeps(st: Storage, s: Screen, profile: Option<string>, now: int, t: nat, k: Key)
    requires KeyFrom(st, t, k) && s.sentKey == Some(k)
    ensures KeyFrom(Flushed(st, s, profile, now), t, k)
  {}

  lemma FlushStarts(st: Storage, s: Screen, profile: Option<string>, now: int)
    requires s.sentKey.Some? && Writes(s, profile)
    ensures KeyFrom(Flushed(st, s, profile, now), Ticket(st, s, profile), s.sentKey.value)
  {}

  lemma DueIsOnDisk(st: Storage, t: nat, k: Key)
    requires KeyFrom(st, t, k) && t <= st.completed
    ensures OnDisk(st, k)
  {}

  // ---------------------------------------------------------------- what every careful step keeps

  /** The keys of an order the app was not told of, or of a request that may still make one. */
  ghost predicate Hot(w: World, k: Key) {
    k !in w.acked && (k in w.orders || k in w.sent || exists id :: id in w.open && w.open[id] == k)
  }

  /** The app still knows the key: it is on disk, and frozen on a screen that has read the disk. */
  ghost predicate Known(s: Screen, st: Storage, k: Key) {
    OnDisk(st, k) && (s.ready ==> s.sentKey == Some(k))
  }

  ghost predicate HotKnown(s: State) {
    forall k :: Hot(s.world, k) ==> Known(s.screen, s.storage, k)
  }

  /** Attempts not yet sent will find their key on disk. */
  ghost predicate WaitingOk(s: Screen, st: Storage, waiting: map<nat, Attempt>, acked: set<Key>) {
    forall id :: id in waiting && !waiting[id].settled && waiting[id].key !in acked ==>
      s.sentKey == Some(waiting[id].key) && KeyFrom(st, waiting[id].ticket, waiting[id].key)
  }

  /** No attempt holds a key other than the frozen one, as long as that one may have an order nobody knows of. */
  ghost predicate OneKey(s: Screen, n: Sends, acked: set<Key>) {
    && (!s.ready ==> !Busy(n) && s.sentKey.None? && !s.done)
    && (s.sentKey.Some? && s.sentKey.value !in acked ==> AllCarry(n, s.sentKey.value))
  }

  /** Attempts are numbered from 0 on, and wait for writes that are chained. */
  ghost predicate Numbered(n: Sends, st: Storage) {
    && (forall id :: id in n.waiting ==> id < n.next && n.waiting[id].ticket <= st.completed + |st.queue|)
    && (forall id :: id in n.awaiting ==> id < n.next && id !in n.waiting)
  }

  /** Each request sent since the last definitive answer may still make an order. */
  ghost predicate SentIsOpen(w: World, n: Sends) {
    && (forall id :: id in w.open ==> id < n.next && id !in n.waiting)
    && (forall k :: k in w.sent ==> exists id :: id in w.open && w.open[id] == k)
  }

  /** A placed order writes nothing more, so the last thing the chain does is to clear the slot. */
  ghost predicate DoneClears(s: Screen, st: Storage) {
    s.done ==> if st.queue == [] then st.slot.None? else st.queue[|st.queue| - 1].Clear?
  }

  ghost predicate Inv(s: State) {
    && HotKnown(s) && WaitingOk(s.screen, s.storage, s.sends.waiting, s.world.acked)
    && OneKey(s.screen, s.sends, s.world.acked) && Numbered(s.sends, s.storage)
    && DoneClears(s.screen, s.storage) && SentIsOpen(s.world, s.sends) && s.world.sent !! s.world.acked
  }

  lemma SubmitKeeps(s: State, now: int)
    requires Inv(s) && Careful(s, Submit(now))
    ensures Inv(Submitted(s, now))
  {
    var t := Submitted(s, now);
    var f := Frozen(s.screen, now);
    if Writes(f, s.profile) { FlushStarts(s.storage, f, s.profile, now); }
    forall k | Hot(t.world, k) ensures Known(t.screen, t.storage, k) {
      assert Known(s.screen, s.storage, k);
      FlushKeeps(s.storage, f, s.profile, now, 0, k);
    }
    var w := t.sends.waiting;
    forall id | id in w && !w[id].settled && w[id].key !in s.world.acked
      ensures t.screen.sentKey == Some(w[id].key) && KeyFrom(t.storage, w[id].ticket, w[id].key)
    {
      if id != s.sends.next {
        assert id in s.sends.waiting;
        FlushKeeps(s.storage, f, s.profile, now, w[id].ticket, w[id].key);
      }
    }
  }

  lemma FlushStepKeeps(s: State, now: int)
    requires Inv(s)
    ensures Inv(Step(s, Flush(now)))
  {
    var t := Step(s, Flush(now));
    if Writes(s.screen, s.profile) {
      forall k | Hot(t.world, k) ensures Known(t.screen, t.storage, k) {
        FlushKeeps(s.storage, s.screen, s.profile, now, 0, k);
      }
      var w := s.sends.waiting;
      forall id | id in w && !w[id].settled && w[id].key !in s.world.acked
        ensures KeyFrom(t.storage, w[id].ticket, w[id].key)
      {
        FlushKeeps(s.storage, s.screen, s.profile, now, w[id].ticket, w[id].key);
      }
    }
  }

  lemma WriteStepKeeps(s: State)
    requires Inv(s)
    ensures Inv(Step(s, WriteDone))
  {
    var t := Step(s, WriteDone);
    forall k | Hot(t.world, k) ensures Known(t.screen, t.storage, k) {
      WriteKeeps(s.storage, 0, k);
    }
    var w := s.sends.waiting;
    forall id | id in w && !w[id].settled && w[id].key !in s.world.acked
      ensures KeyFrom(t.storage, w[id].ticket, w[id].key)
    {
      WriteKeeps(s.storage, w[id].ticket, w[id].key);
    }
  }

  /** A request of an unsettled send leaves with its key on disk. */
  lemma PostFindsItsKeyOnDisk(s: State, id: nat)
    requires Inv(s) && id in s.sends.waiting
    requires s.sends.waiting[id].ticket <= s.storage.completed
    requires !s.sends.waiting[id].settled && s.sends.waiting[id].key !in s.world.acked
    ensures Known(s.screen, s.storage, s.sends.waiting[id].key)
  {
    DueIsOnDisk(s.storage, s.sends.waiting[id].ticket, s.sends.waiting[id].key);
  }

  lemma OpenGrows(v: World, w: World, n: nat, k: Key)
    requires n !in v.open && w.open == v.open[n := k] && (w.sent == v.sent + {k} || w.sent == v.sent)
    requires forall j :: j in v.sent ==> exists id :: id in v.open && v.open[id] == j
    ensures forall j :: j in w.sent ==> exists id :: id in w.open && w.open[id] == j
  {
    forall j | j in w.sent ensures exists id :: id in w.open && w.open[id] == j {
      if j == k {
        assert w.open[n] == k;
      } else {
        var id :| id in v.open && v.open[id] == j;
        assert w.open[id] == j;
      }
    }
  }

  lemma PostKeeps(s: State, id: nat)
    requires Inv(s) && id in s.sends.waiting && s.sends.waiting[id].ticket <= s.storage.completed
    ensures Inv(Posted(s, id))
  {
    var t := Posted(s, id);
    var a := s.sends.waiting[id];
    if !a.settled { OpenGrows(s.world, t.world, id, a.key); }
    forall k | Hot(t.world, k) ensures Known(t.screen, t.storage, k) {
      if !Hot(s.world, k) {
        assert k == a.key && !a.settled;
        PostFindsItsKeyOnDisk(s, id);
      }
    }
    assert Busy(s.sends);
  }

  lemma MakeKeeps(s: State, id: nat)
    requires Inv(s)
    ensures Inv(Step(s, ServerMakes(id)))
  {
    var t := Step(s, ServerMakes(id));
    forall k | Hot(t.world, k) ensures Hot(s.world, k) {}
  }

  /** While an answer is awaited, only its key can be hot. */
  lemma OnlyTheAwaitedIsHot(s: State, id: nat, k: Key)
    requires Inv(s) && id in s.sends.awaiting && Hot(s.world, k)
    ensures k == s.sends.awaiting[id]
  {
    assert Known(s.screen, s.storage, k);
    assert s.sends.awaiting != map[];
  }

  lemma AckKeeps(s: State, id: nat)
    requires Inv(s) && id in s.sends.awaiting && s.sends.awaiting[id] in s.world.orders
    ensures Inv(Acked(s, id))
    ensures forall k :: !Hot(Acked(s, id).world, k)
  {
    var t := Acked(s, id);
    forall k ensures !Hot(t.world, k) {
      if Hot(t.world, k) {
        assert Hot(s.world, k);
        OnlyTheAwaitedIsHot(s, id, k);
      }
    }
    AckWaiting(s, id);
    assert s.sends.awaiting != map[];
  }

  lemma AckWaiting(s: State, id: nat)
    requires Inv(s) && id in s.sends.awaiting
    ensures var t := Acked(s, id); WaitingOk(t.screen, t.storage, t.sends.waiting, t.world.acked)
  {}

  lemma RefuseKeeps(s: State, id: nat, now: int)
    requires Inv(s) && id in s.sends.awaiting && s.sends.awaiting[id] !in s.world.orders
    ensures var t := Judged(s.(sends := s.sends.(awaiting := s.sends.awaiting - {id})), s.sends.awaiting[id]);
            Inv(Freed(t, now)) && forall k :: !Hot(Freed(t, now).world, k)
  {
    var t := Freed(Judged(s.(sends := s.sends.(awaiting := s.sends.awaiting - {id})), s.sends.awaiting[id]), now);
    forall k ensures !Hot(t.world, k) {
      if Hot(t.world, k) {
        assert Hot(s.world, k);
        OnlyTheAwaitedIsHot(s, id, k);
      }
    }
    assert s.sends.awaiting != map[];
  }

  lemma LostKeeps(s: State, id: nat)
    requires Inv(s) && id in s.sends.awaiting
    ensures Inv(s.(sends := s.sends.(awaiting := s.sends.awaiting - {id})))
  {
    var t := s.(sends := s.sends.(awaiting := s.sends.awaiting - {id}));
    assert forall k :: Known(s.screen, s.storage, k) ==> Known(t.screen, t.storage, k);
  }

  /** The screen frees its key on exactly the failures that are void. */
  lemma DefinitiveIsVoid(f: Failure)
    ensures IsDefinitive(f) <==> JudgedVoid(f)
  {}

  lemma FailKeeps(s: State, id: nat, failure: Failure, now: int)
    requires Inv(s) && CanFail(s, id, failure)
    ensures Inv(FailedAt(s, id, failure, now))
  {
    DefinitiveIsVoid(failure);
    if JudgedVoid(failure) { RefuseKeeps(s, id, now); } else { LostKeeps(s, id); }
  }

  lemma RestoreKeeps(s: State, now: int, sendAgain: bool)
    requires Inv(s) && Careful(s, Restore(now, sendAgain))
    ensures Inv(Step(s, Restore(now, sendAgain)))
  {
    if !s.screen.ready && s.storage.queue == [] {
      var t := Step(s, Restore(now, sendAgain));
      forall k | Hot(t.world, k) ensures Known(t.screen, t.storage, k) {
        assert Known(s.screen, s.storage, k);
        assert Parsed(s.storage.slot, now, s.profile) == s.storage.slot;
      }
    }
  }

  lemma ReopenKeeps(s: State, mint: Key, now: int)
    requires Inv(s)
    ensures Inv(Step(s, Reopen(mint, now)))
  {
    var t := Step(s, Reopen(mint, now));
    forall k | Hot(t.world, k) ensures Known(t.screen, t.storage, k) {
      assert Known(s.screen, s.storage, k);
      if s.screen.ready { FlushKeeps(s.storage, s.screen, s.profile, now, 0, k); }
    }
  }

  lemma KillKeeps(s: State, mint: Key)
    requires Inv(s)
    ensures Inv(Step(s, Kill(mint)))
  {
    var t := Step(s, Kill(mint));
    forall k | Hot(t.world, k) ensures Known(t.screen, t.storage, k) {
      assert Known(s.screen, s.storage, k);
    }
  }

  lemma QuietKeeps(s: State, e: Event)
    requires Inv(s) && e.Edit?
    ensures Inv(Step(s, e))
  {
    var t := Step(s, e);
    assert forall k :: Known(s.screen, s.storage, k) ==> Known(t.screen, t.storage, k);
  }

  lemma StepKeeps(s: State, e: Event)
    requires Inv(s) && Careful(s, e)
    ensures Inv(Step(s, e))
  {
    match e
    case Edit(_, _) => QuietKeeps(s, e);
    case Flush(now) => FlushStepKeeps(s, now);
    case WriteDone => WriteStepKeeps(s);
    case Submit(now) => SubmitKeeps(s, now);
    case Post(id) => if id in s.sends.waiting && s.sends.waiting[id].ticket <= s.storage.completed { PostKeeps(s, id); }
    case ServerMakes(id) => MakeKeeps(s, id);
    case AnswerOk(id) => if id in s.sends.awaiting && s.sends.awaiting[id] in s.world.orders { AckKeeps(s, id); }
    case Failed(id, failure, now) => if CanFail(s, id, failure) { FailKeeps(s, id, failure, now); }
    case Kill(mint) => KillKeeps(s, mint);
    case Reopen(mint, now) => ReopenKeeps(s, mint, now);
    case Restore(now, sendAgain) => RestoreKeeps(s, now, sendAgain);
  }

  lemma {:induction false} RunKeeps(profile: Option<string>, slot: Option<Draft>, mint: Key, es: seq<Event>)
    requires CarefulRun(Start(profile, slot, mint), es)
    ensures Inv(Run(Start(profile, slot, mint), es))
  {
    if es != [] {
      RunKeeps(profile, slot, mint, es[..|es| - 1]);
      StepKeeps(Run(Start(profile, slot, mint), es[..|es| - 1]), es[|es| - 1]);
    }
  }

  // ---------------------------------------------------------------- the theorems

  /** At most one order per send: over any careful run of edits, double taps, lost answers and kills, no two
      orders exist that the app has not been told of. */
  lemma AtMostOneUntoldOrder(profile: Option<string>, slot: Option<Draft>, mint: Key, es: seq<Event>, j: Key, k: Key)
    requires CarefulRun(Start(profile, slot, mint), es)
    requires var w := Run(Start(profile, slot, mint), es).world;
             j in w.orders && j !in w.acked && k in w.orders && k !in w.acked
    ensures j == k
  {
    RunKeeps(profile, slot, mint, es);
    var s := Run(Start(profile, slot, mint), es);
    assert Hot(s.world, j) && Hot(s.world, k);
  }

  /** All requests sent since the last definitive answer carry one key, and it is on disk. */
  lemma OneKeyBetweenAnswers(profile: Option<string>, slot: Option<Draft>, mint: Key, es: seq<Event>, j: Key, k: Key)
    requires CarefulRun(Start(profile, slot, mint), es)
    requires var w := Run(Start(profile, slot, mint), es).world; j in w.sent && k in w.sent
    ensures j == k && OnDisk(Run(Start(profile, slot, mint), es).storage, k)
  {
    RunKeeps(profile, slot, mint, es);
    var s := Run(Start(profile, slot, mint), es);
    assert Hot(s.world, j) && Hot(s.world, k);
  }

  /** When a request leaves, no definitive answer having settled its send, its key is on disk. */
  lemma KeyOnDiskBeforeRequest(profile: Option<string>, slot: Option<Draft>, mint: Key, es: seq<Event>, id: nat)
    requires CarefulRun(Start(profile, slot, mint), es)
    requires var s := Run(Start(profile, slot, mint), es);
             && id in s.sends.waiting && id !in s.world.open && id in Step(s, Post(id)).world.open
             && s.sends.waiting[id].key !in s.world.acked
    ensures var s := Run(Start(profile, slot, mint), es); OnDisk(s.storage, s.sends.waiting[id].key)
  {
    RunKeeps(profile, slot, mint, es);
    PostFindsItsKeyOnDisk(Run(Start(profile, slot, mint), es), id);
  }

  /** A definitive answer settles everything: no order the app does not know of, and no request that could
      still make one under a key the app was not told of. */
  lemma AnswersSettleEverything(profile: Option<string>, slot: Option<Draft>, mint: Key, es: seq<Event>, e: Event, k: Key)
    requires CarefulRun(Start(profile, slot, mint), es) && (e.AnswerOk? || (e.Failed? && e.failure.ApiFailure? && 400 <= e.failure.status <= 499 && !e.failure.standing))
    requires Step(Run(Start(profile, slot, mint), es), e) != Run(Start(profile, slot, mint), es)
    ensures !Hot(Step(Run(Start(profile, slot, mint), es), e).world, k)
  {
    RunKeeps(profile, slot, mint, es);
    var s := Run(Start(profile, slot, mint), es);
    if e.AnswerOk? { AckKeeps(s, e.id); } else { RefuseKeeps(s, e.id, e.now); DefinitiveIsVoid(e.failure); }
  }

  /** Edits do not matter: as long as an order may exist, the next tap replays its key. */
  lemma EditedSendReplays(s: State, k: Key, mint: Key, blank: bool, now: int)
    requires Inv(s) && Hot(s.world, k) && s.screen.ready
    ensures var t := Step(Step(s, Edit(mint, blank)), Submit(now));
            s.sends.next in t.sends.waiting && t.sends.waiting[s.sends.next].key == k
  {
    assert Known(s.screen, s.storage, k);
  }

  lemma KilledStateReplays(s: State, mint: Key, k: Key, at: int, sendAgain: bool, edit: Key, blank: bool, now: int)
    requires Inv(s) && Hot(s.world, k) && Careful(Step(s, Kill(mint)), Restore(at, sendAgain))
    ensures var t := Step(Step(Step(Step(s, Kill(mint)), Restore(at, sendAgain)), Edit(edit, blank)), Submit(now));
            s.sends.next in t.sends.waiting && t.sends.waiting[s.sends.next].key == k
  {
    KillKeeps(s, mint);
    var u := Step(s, Kill(mint));
    RestoreKeeps(u, at, sendAgain);
    EditedSendReplays(Step(u, Restore(at, sendAgain)), k, edit, blank, now);
  }

  /** A kill at any moment of a careful run: a relaunch within the key's lifetime replays the key of whatever
      order may exist, edits or not. */
  lemma KilledAppReplays(profile: Option<string>, slot: Option<Draft>, mint: Key, es: seq<Event>, k: Key, at: int,
                         sendAgain: bool, edit: Key, blank: bool, now: int)
    requires CarefulRun(Start(profile, slot, mint), es) && Hot(Run(Start(profile, slot, mint), es).world, k)
    requires Careful(Step(Run(Start(profile, slot, mint), es), Kill(mint)), Restore(at, sendAgain))
    ensures var s := Run(Start(profile, slot, mint), es);
            var t := Step(Step(Step(Step(s, Kill(mint)), Restore(at, sendAgain)), Edit(edit, blank)), Submit(now));
            s.sends.next in t.sends.waiting && t.sends.waiting[s.sends.next].key == k
  {
    RunKeeps(profile, slot, mint, es);
    KilledStateReplays(Run(Start(profile, slot, mint), es), mint, k, at, sendAgain, edit, blank, now);
  }

  // ---------------------------------------------------------------- the conditions are exact

  /** In any state at all, a tap waits for its key to be on disk exactly when the screen writes drafts (it is
      ready, not done, and an account is signed in), or the key was there to stay already. */
  lemma TapWaitsForDiskIff(s: State, now: int)
    ensures var t := Submitted(s, now); var a := t.sends.waiting[s.sends.next];
            KeyFrom(t.storage, a.ticket, a.key) <==> Writes(s.screen, s.profile) || OnDisk(s.storage, a.key)
  {
    if Writes(s.screen, s.profile) { FlushStarts(s.storage, Frozen(s.screen, now), s.profile, now); }
  }

  /** A relaunch that finds the key of an order nobody was told of keeps it exactly when the stored draft is
      live: the same account, at most ten minutes since the key went out, at most a day since the draft was
      written, and neither more than a minute in the future. */
  lemma RelaunchKeepsKeyIffLive(s: State, k: Key, now: int, sendAgain: bool)
    requires Inv(s) && Hot(s.world, k) && !s.screen.ready && s.storage.queue == []
    ensures s.storage.slot.Some?
    ensures Known(Step(s, Restore(now, sendAgain)).screen, s.storage, k) <==> LiveAt(s.storage.slot.value, now, s.profile)
  {
    assert Known(s.screen, s.storage, k);
    var p := Parsed(s.storage.slot, now, s.profile);
    assert (p.Some? && p.value.sentKey == Some(k)) <==> LiveAt(s.storage.slot.value, now, s.profile);
  }

  /** An order nobody was told of exists under the key, or a request may still make one. */
  ghost predicate MayHaveOrder(w: World, k: Key) {
    k !in w.acked && (k in w.orders || exists j :: j in w.open && w.open[j] == k)
  }

  lemma RefusalKeepsTrackIff(s: State, id: nat, now: int)
    requires s.screen.ready && id in s.sends.awaiting && s.sends.awaiting[id] !in s.world.orders
    ensures HotKnown(Freed(Judged(s, s.sends.awaiting[id]), now)) <==>
            forall k :: k != s.sends.awaiting[id] ==> !MayHaveOrder(s.world, k)
  {
    var key := s.sends.awaiting[id];
    var t := Freed(Judged(s, key), now);
    forall k | k != key ensures Hot(t.world, k) <==> MayHaveOrder(s.world, k) {
      if j :| j in s.world.open && s.world.open[j] == k {
        assert j in t.world.open && t.world.open[j] == k;
      }
    }
    assert forall k :: Hot(t.world, k) ==> !Known(t.screen, t.storage, k);
    assert forall k :: Hot(t.world, k) ==> k != key;
  }

  /** On a screen that keeps track of everything, a refusal loses track of an order exactly when the key frozen is
      another one than the key refused, and may have an order. */
  lemma RefusalLosesTheFrozenKeyIff(s: State, id: nat, status: int, now: int)
    requires s.screen.ready && id in s.sends.awaiting && s.sends.awaiting[id] !in s.world.orders && HotKnown(s)
    requires 400 <= status <= 499
    ensures !HotKnown(Step(s, Failed(id, ApiFailure(status, false), now))) <==>
            s.screen.sentKey.Some? && s.screen.sentKey.value != s.sends.awaiting[id] && MayHaveOrder(s.world, s.screen.sentKey.value)
  {
    RefusalKeepsTrackIff(s, id, now);
    forall k | MayHaveOrder(s.world, k) ensures s.screen.sentKey == Some(k) {
      assert Hot(s.world, k);
    }
  }

  /** The key is dropped on a 4xx that is no standing refusal, and on no other failure. */
  lemma OnlyARefusalFreesTheKey(s: State, id: nat, failure: Failure, now: int)
    requires CanFail(s, id, failure)
    ensures var t := Step(s, Failed(id, failure, now));
            match failure
            case OtherFailure => t.screen == s.screen && t.storage == s.storage
            case ApiFailure(status, standing) =>
              if 400 <= status <= 499 && !standing then t.screen.sentKey == None
              else t.screen == s.screen && t.storage == s.storage
  {}

  lemma Then(s: State, es: seq<Event>, e: Event) returns (fs: seq<Event>)
    ensures Run(s, fs) == Step(Run(s, es), e)
  {
    fs := es + [e];
    assert fs[..|fs| - 1] == es;
  }

  const TAPPED := Screen(Some("A"), 0, true, false, "A", false)
  const TAPPED_DRAFT := Draft(0, "me", false, Some("A"), 0)

  /** Two taps before the button is disabled, both under "A". */
  lemma TwoTaps(s: State) returns (es: seq<Event>)
    requires s == Start(Some("me"), None, "A")
    ensures Run(s, es) == State(Some("me"), TAPPED, Storage(None, [Save(TAPPED_DRAFT), Save(TAPPED_DRAFT)], 0),
                                Sends(map[0 := Attempt("A", 1, false), 1 := Attempt("A", 2, false)], map[], 2),
                                World(map[], {}, {}, {}))
  {
    es := OneTap(s);
    es := Then(s, es, Submit(0));
  }

  lemma OneTap(s: State) returns (es: seq<Event>)
    requires s == Start(Some("me"), None, "A")
    ensures Run(s, es) == State(Some("me"), TAPPED, Storage(None, [Save(TAPPED_DRAFT)], 0),
                                Sends(map[0 := Attempt("A", 1, false)], map[], 1), World(map[], {}, {}, {}))
  {
    es := Then(s, [], Restore(0, false));
    es := Then(s, es, Edit("A", false));
    es := Then(s, es, Submit(0));
  }

  lemma BothPosted(s: State, es: seq<Event>) returns (fs: seq<Event>)
    requires var t := Run(s, es);
             && t.screen == TAPPED && t.storage.queue == [Save(TAPPED_DRAFT), Save(TAPPED_DRAFT)] && t.storage.completed == 0
             && t.sends == Sends(map[0 := Attempt("A", 1, false), 1 := Attempt("A", 2, false)], map[], 2)
             && t.world == World(map[], {}, {}, {})
    ensures var t, u := Run(s, es), Run(s, fs);
            && u.profile == t.profile && u.screen == TAPPED && u.storage.queue == [] && u.storage.completed == 2
            && u.sends == Sends(map[], map[0 := "A", 1 := "A"], 2) && u.world == World(map[0 := "A", 1 := "A"], {}, {}, {"A"})
  {
    fs := Then(s, es, WriteDone);
    fs := Then(s, fs, WriteDone);
    fs := Then(s, fs, Post(0));
    assert Run(s, fs).sends == Sends(map[1 := Attempt("A", 2, false)], map[0 := "A"], 2);
    fs := Then(s, fs, Post(1));
    assert Run(s, fs).sends.waiting == map[];
  }

  /** The first tap is refused while the second still waits for its answer. */
  lemma FirstTapRefused(s: State) returns (es: seq<Event>)
    requires s == Start(Some("me"), None, "A")
    ensures var t := Run(s, es);
            && t.profile == Some("me") && t.screen == Screen(None, 0, true, false, "A", false)
            && t.sends == Sends(map[], map[1 := "A"], 2) && t.world == World(map[], {}, {}, {}) && |t.storage.queue| == 1
  {
    es := TwoTaps(s);
    es := BothPosted(s, es);
    es := Then(s, es, Failed(0, ApiFailure(409, false), 0));
    assert Run(s, es).world.open == map[];
  }

  /** An edit, a send under the new key `k` whose order is made, and then the answer `late` to another send. */
  lemma SendOn(s: State, es: seq<Event>, k: Key) returns (fs: seq<Event>)
    requires var t := Run(s, es);
             && t.profile.Some? && t.screen.ready && !t.screen.done && t.screen.sentKey.None?
             && t.sends.waiting == map[] && |t.storage.queue| == 1 && t.sends.next !in t.world.open
             && k !in t.world.acked
    ensures var t, u := Run(s, es), Run(s, fs);
            && u.profile == t.profile && u.screen.ready && !u.screen.done && u.screen.sentKey == Some(k)
            && u.sends == Sends(map[], t.sends.awaiting[t.sends.next := k], t.sends.next + 1)
            && u.world.orders == t.world.orders + {k} && u.world.acked == t.world.acked
            && u.world.open == t.world.open[t.sends.next := k] && |u.storage.queue| == 0
  {
    var t := Run(s, es);
    var n := t.sends.next;
    fs := Then(s, es, Edit(k, false));
    fs := Then(s, fs, Submit(0));
    fs := Then(s, fs, WriteDone);
    fs := Then(s, fs, WriteDone);
    fs := Then(s, fs, Post(n));
    assert Run(s, fs).sends.waiting == map[];
    fs := Then(s, fs, ServerMakes(n));
  }

  /** What the condition on double taps rules out: the second tap's late refusal clears the freeze of the key
      sent since, and one more edit opens a second order that, like the first, nobody was told of. */
  lemma LateRefusalOpensTwoOrders() returns (es: seq<Event>)
    ensures var w := Run(Start(Some("me"), None, "A"), es).world; w.acked == {} && w.orders == {"B", "C"}
  {
    var s := Start(Some("me"), None, "A");
    es := FirstTapRefused(s);
    es := SendOn(s, es, "B");
    es := Then(s, es, Failed(1, ApiFailure(409, false), 0));
    es := SendOn(s, es, "C");
  }
}
