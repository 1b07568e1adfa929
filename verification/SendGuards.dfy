/** When a tap is safe: the condition of SendReplay's careful runs is exact. */
module SendGuards {
  import opened Options
  import opened SendReplay

  /** At most one order exists that the app was not told of. */
  ghost predicate OneUntold(w: World) {
    forall j, k :: j in w.orders && j !in w.acked && k in w.orders && k !in w.acked ==> j == k
  }

  /** However the run goes on, carefully, there is at most one. */
  ghost predicate SafeFrom(t: State) {
    forall es :: CarefulRun(t, es) ==> OneUntold(Run(t, es).world)
  }

  lemma {:induction false} RunKeepsFrom(s: State, es: seq<Event>)
    requires Inv(s) && CarefulRun(s, es)
    ensures Inv(Run(s, es))
  {
    if es != [] {
      RunKeepsFrom(s, es[..|es| - 1]);
      StepKeeps(Run(s, es[..|es| - 1]), es[|es| - 1]);
    }
  }

  lemma InvIsSafe(t: State)
    requires Inv(t)
    ensures SafeFrom(t)
  {
    forall es | CarefulRun(t, es) ensures OneUntold(Run(t, es).world) {
      RunKeepsFrom(t, es);
      var w := Run(t, es).world;
      assert forall k :: k in w.orders && k !in w.acked ==> Hot(w, k);
    }
  }

  // ---------------------------------------------------------------- building runs

  lemma CarefulThen(s: State, es: seq<Event>, e: Event) returns (fs: seq<Event>)
    requires CarefulRun(s, es) && Careful(Run(s, es), e)
    ensures CarefulRun(s, fs) && Run(s, fs) == Step(Run(s, es), e)
  {
    fs := es + [e];
    assert fs[..|fs| - 1] == es;
  }

  function Drained(st: Storage): Storage
    decreases |st.queue|
  {
    if st.queue == [] then st else Drained(NextWrite(st))
  }

  lemma {:induction false} DrainedIs(st: Storage)
    ensures Drained(st).queue == [] && Drained(st).completed == st.completed + |st.queue|
    ensures Drained(st).slot == if st.queue == [] then st.slot else Written(None, st.queue[|st.queue| - 1])
    decreases |st.queue|
  {
    if st.queue != [] { DrainedIs(NextWrite(st)); }
  }

  /** All writes get done. */
  lemma {:induction false} Drain(s: State, es: seq<Event>) returns (fs: seq<Event>)
    requires CarefulRun(s, es)
    ensures CarefulRun(s, fs) && Run(s, fs) == Run(s, es).(storage := Drained(Run(s, es).storage))
    decreases |Run(s, es).storage.queue|
  {
    fs := es;
    if Run(s, es).storage.queue != [] {
      fs := CarefulThen(s, es, WriteDone);
      fs := Drain(s, fs);
    }
  }

  /** Enough of them for the slot to lack a key that is not there to stay. */
  lemma {:induction false} DrainOff(s: State, es: seq<Event>, k: Key) returns (fs: seq<Event>, st: Storage)
    requires CarefulRun(s, es) && !OnDisk(Run(s, es).storage, k)
    ensures CarefulRun(s, fs) && Run(s, fs) == Run(s, es).(storage := st) && !HasKey(st.slot, k)
    decreases |Run(s, es).storage.queue|
  {
    st := Run(s, es).storage;
    fs := es;
    if HasKey(st.slot, k) {
      OffDiskStep(st, k);
      fs := CarefulThen(s, es, WriteDone);
      fs, st := DrainOff(s, fs, k);
    }
  }

  lemma OffDiskStep(st: Storage, k: Key)
    requires !OnDisk(st, k) && HasKey(st.slot, k)
    ensures st.queue != [] && !OnDisk(NextWrite(st), k)
  {
    var i :| 0 <= i < |st.queue| && !Saves(st.queue[i], k);
    if i > 0 { assert NextWrite(st).queue[i - 1] == st.queue[i]; }
  }

  lemma {:induction false} LongerThanAll(ks: set<Key>) returns (n: nat)
    ensures forall k :: k in ks ==> |k| < n
  {
    if ks == {} {
      n := 0;
    } else {
      var k :| k in ks;
      var m := LongerThanAll(ks - {k});
      n := if |k| < m then m else |k| + 1;
    }
  }

  lemma FreshKey(ks: set<Key>) returns (c: Key)
    ensures c !in ks
  {
    var n := LongerThanAll(ks);
    c := seq(n, _ => 'x');
  }

  // ---------------------------------------------------------------- a lost order lets a second one in

  /** The slot holds no key that may have an order. */
  ghost predicate NoHotOnDisk(s: State) {
    s.storage.slot.Some? && s.storage.slot.value.sentKey.Some? ==> !Hot(s.world, s.storage.slot.value.sentKey.value)
  }

  /** Past the lifetime of whatever the slot holds. */
  function LongAfter(slot: Option<Draft>): int {
    if slot.Some? then slot.value.savedAt + DRAFT_TTL_MS + 1 else 0
  }

  /** An app killed without the key of an order on disk comes back to a fresh screen ... */
  lemma Relaunch(s: State, es: seq<Event>, c: Key) returns (fs: seq<Event>)
    requires CarefulRun(s, es) && NoHotOnDisk(Run(s, es))
    ensures var t, u := Run(s, es), Run(s, fs);
            && CarefulRun(s, fs) && u.profile == t.profile && u.world == t.world
            && u.screen == Blank(c).(ready := true) && u.storage.queue == []
            && u.sends == Sends(map[], map[], t.sends.next)
  {
    var now := LongAfter(Run(s, es).storage.slot);
    fs := CarefulThen(s, es, Kill(c));
    fs := CarefulThen(s, fs, Restore(now, false));
  }

  /** ... and the order of the next send is made. */
  lemma SendAfresh(s: State, es: seq<Event>, c: Key) returns (fs: seq<Event>)
    requires CarefulRun(s, es)
    requires var t := Run(s, es);
             && t.profile.Some? && t.screen.ready && !t.screen.done && t.screen.sentKey.None? && t.screen.mint == c
             && t.storage.queue == [] && t.sends.waiting == map[] && t.sends.awaiting == map[]
    ensures var t, u := Run(s, es), Run(s, fs);
            CarefulRun(s, fs) && u.world.orders == t.world.orders + {c} && u.world.acked == t.world.acked
  {
    var n := Run(s, es).sends.next;
    fs := CarefulThen(s, es, Submit(0));
    DrainedIs(Run(s, fs).storage);
    fs := Drain(s, fs);
    fs := CarefulThen(s, fs, Post(n));
    fs := CarefulThen(s, fs, ServerMakes(n));
  }

  /** An order nobody was told of, whose key is neither frozen nor on disk, is followed by another one. */
  lemma LosesTrack(s: State, es: seq<Event>, k: Key)
    requires CarefulRun(s, es) && NoHotOnDisk(Run(s, es)) && Run(s, es).profile.Some?
    requires k in Run(s, es).world.orders && k !in Run(s, es).world.acked
    ensures !SafeFrom(s)
  {
    var c := FreshKey(Run(s, es).world.acked + {k});
    var fs := Relaunch(s, es, c);
    fs := SendAfresh(s, fs, c);
    var w := Run(s, fs).world;
    assert k in w.orders && k !in w.acked && c in w.orders && c !in w.acked;
  }

  // ---------------------------------------------------------------- the two unsafe taps

  /** A key that may have an order gets one. */
  lemma OrderIsMade(s: State, es: seq<Event>, k: Key) returns (fs: seq<Event>)
    requires CarefulRun(s, es) && SentIsOpen(Run(s, es).world, Run(s, es).sends) && Hot(Run(s, es).world, k)
    ensures var t, u := Run(s, es), Run(s, fs);
            CarefulRun(s, fs) && u == t.(world := t.world.(orders := t.world.orders + {k}))
  {
    fs := es;
    var w := Run(s, es).world;
    if k !in w.orders {
      var id :| id in w.open && w.open[id] == k;
      fs := CarefulThen(s, es, ServerMakes(id));
    } else {
      assert w.orders + {k} == w.orders;
    }
  }

  /** A tap whose key does not go to disk, before the draft is read or after it is done with: its order is made,
      and the app killed. */
  lemma OffDiskIsUnsafe(s: State, now: int)
    requires Inv(s) && s.profile.Some? && TapKey(s.screen) !in s.world.acked
    requires !Writes(s.screen, s.profile) && !OnDisk(s.storage, TapKey(s.screen))
    ensures !SafeFrom(Submitted(s, now))
  {
    var t, n, k := Submitted(s, now), s.sends.next, TapKey(s.screen);
    var es := CarefulThen(t, [], Post(n));
    es := CarefulThen(t, es, ServerMakes(n));
    var u := Run(t, es);
    assert u.storage == s.storage && u.world.open == s.world.open[n := k];
    assert u.world.orders == s.world.orders + {k} && u.world.sent == s.world.sent + {k};
    if j :| j != k && Hot(u.world, j) {
      assert SentIsOpen(u.world, u.sends) by { OpenGrows(s.world, u.world, n, k); }
      es := OrderIsMade(t, es, j);
      assert j in Run(t, es).world.orders && k in Run(t, es).world.orders;
    } else {
      var st;
      es, st := DrainOff(t, es, k);
      LosesTrack(t, es, k);
    }
  }

  /** The outstanding attempt `id`, and then the tap, are posted, and the tap's order is made. */
  lemma BothGoOut(s: State, now: int, id: nat) returns (es: seq<Event>)
    requires Inv(s) && Writes(s.screen, s.profile) && s.screen.sentKey.None? && s.screen.mint !in s.world.acked
    requires id in s.sends.waiting || id in s.sends.awaiting
    ensures var t, u := Submitted(s, now), Run(Submitted(s, now), es);
            && CarefulRun(t, es) && u.profile == s.profile && u.screen == t.screen && u.storage.queue == []
            && id in u.sends.awaiting && u.sends.awaiting[id] == OutstandingKey(s.sends, id)
            && s.screen.mint in u.world.orders && u.world.acked == s.world.acked
  {
    var t, n := Submitted(s, now), s.sends.next;
    DrainedIs(t.storage);
    es := Drain(t, []);
    if id in s.sends.waiting { es := CarefulThen(t, es, Post(id)); }
    es := CarefulThen(t, es, Post(n));
    es := CarefulThen(t, es, ServerMakes(n));
  }

  function OutstandingKey(n: Sends, id: nat): Key
    requires id in n.waiting || id in n.awaiting
  {
    if id in n.waiting then n.waiting[id].key else n.awaiting[id]
  }

  /** A new key frozen over an outstanding attempt with another one: the answer to that one frees the new key. */
  lemma FreezingOverIsUnsafe(s: State, now: int, id: nat)
    requires Inv(s) && Writes(s.screen, s.profile) && s.screen.sentKey.None? && s.screen.mint !in s.world.acked
    requires (id in s.sends.waiting || id in s.sends.awaiting) && OutstandingKey(s.sends, id) != s.screen.mint
    ensures !SafeFrom(Submitted(s, now))
  {
    var t, k := Submitted(s, now), OutstandingKey(s.sends, id);
    var es := BothGoOut(s, now, id);
    if k in Run(t, es).world.orders {
      es := CarefulThen(t, es, AnswerOk(id));
    } else {
      es := CarefulThen(t, es, Failed(id, ApiFailure(409, false), now));
    }
    assert |Run(t, es).storage.queue| == 1;
    DrainedIs(Run(t, es).storage);
    es := Drain(t, es);
    LosesTrack(t, es, s.screen.mint);
  }

  // ---------------------------------------------------------------- the theorems

  /** On a screen that has read its draft, in any state that a careful run can lead to, a tap is safe for every
      careful continuation exactly when it sends a key whose order the app was told of, or its key goes to disk (or
      is there to stay) and no attempt outstanding carries another key. */
  lemma TapIsSafeIff(s: State, now: int)
    requires Inv(s) && s.screen.ready && s.profile.Some?
    ensures SafeFrom(Submitted(s, now)) <==> SafeTap(s)
  {
    var k := TapKey(s.screen);
    if SafeTap(s) {
      SubmitKeeps(s, now);
      InvIsSafe(Submitted(s, now));
    } else if Writes(s.screen, s.profile) {
      var id :| (id in s.sends.waiting || id in s.sends.awaiting) && OutstandingKey(s.sends, id) != k by {
        SomeOther(s.sends, k);
      }
      FreezingOverIsUnsafe(s, now, id);
    } else {
      NeverOnDiskWhenDone(s, k);
      OffDiskIsUnsafe(s, now);
    }
  }

  lemma SomeOther(n: Sends, k: Key)
    requires !AllCarry(n, k) && forall id :: id in n.awaiting ==> id !in n.waiting
    ensures exists id :: (id in n.waiting || id in n.awaiting) && OutstandingKey(n, id) != k
  {
    if id :| id in n.waiting && n.waiting[id].key != k {
      assert OutstandingKey(n, id) != k;
    } else {
      var id :| id in n.awaiting && n.awaiting[id] != k;
      assert OutstandingKey(n, id) != k;
    }
  }

  lemma NeverOnDiskWhenDone(s: State, k: Key)
    requires Inv(s) && s.screen.done
    ensures !OnDisk(s.storage, k)
  {
    var q := s.storage.queue;
    if q != [] { assert !Saves(q[|q| - 1], k); }
  }

  /** A relaunch is safe for every careful continuation exactly when the draft it finds is live, or the key in it
      is of no order that nobody was told of. */
  lemma RelaunchIsSafeIff(s: State, now: int, sendAgain: bool)
    requires Inv(s) && !s.screen.ready && s.storage.queue == [] && s.profile.Some?
    ensures SafeFrom(Step(s, Restore(now, sendAgain))) <==> SafeRestore(s, now)
  {
    var t := Step(s, Restore(now, sendAgain));
    if SafeRestore(s, now) {
      RestoreKeeps(s, now, sendAgain);
      InvIsSafe(t);
    } else {
      var k := s.storage.slot.value.sentKey.value;
      var c := FreshKey(s.world.acked + {k});
      var es := OrderIsMade(t, [], k);
      es := CarefulThen(t, es, Edit(c, false));
      es := SendAfresh(t, es, c);
      var w := Run(t, es).world;
      assert k in w.orders && c in w.orders && k !in w.acked && c !in w.acked;
    }
  }

  // ---------------------------------------------------------------- a late answer to a screen left behind

  /** The answer of an order to a send of a screen that is no more: the app is told of the order, and the slot cleared
      behind the back of the present screen. */
  function LateOk(s: State, k: Key): State {
    s.(storage := s.storage.(queue := s.storage.queue + [Clear]), world := s.world.(acked := s.world.acked + {k}, sent := {}))
  }

  /** The key may have an order nobody knows of, or is about to go out. */
  ghost predicate AtStake(s: State, k: Key) {
    k !in s.world.acked &&
    (Hot(s.world, k) || exists id :: id in s.sends.waiting && !s.sends.waiting[id].settled && s.sends.waiting[id].key == k)
  }

  /** Such an answer is safe for every careful continuation exactly when nothing is at stake under another key. */
  lemma LateAnswerIsSafeIff(s: State, k: Key)
    requires Inv(s) && s.profile.Some? && k in s.world.orders
    ensures SafeFrom(LateOk(s, k)) <==> forall j :: AtStake(s, j) ==> j == k
  {
    if j :| AtStake(s, j) && j != k {
      LateAnswerLoses(s, k, j);
    } else {
      LateAnswerKeeps(s, k);
      InvIsSafe(LateOk(s, k));
    }
  }

  lemma LateAnswerKeeps(s: State, k: Key)
    requires Inv(s) && forall j :: AtStake(s, j) ==> j == k
    ensures Inv(LateOk(s, k))
  {
    var t := LateOk(s, k);
    forall j ensures !Hot(t.world, j) {
      assert Hot(t.world, j) ==> Hot(s.world, j) && j !in s.world.acked + {k};
      assert Hot(s.world, j) ==> AtStake(s, j);
    }
    var w := s.sends.waiting;
    forall id | id in w && !w[id].settled ensures w[id].key in t.world.acked {
      if w[id].key !in s.world.acked { assert AtStake(s, w[id].key); }
    }
  }

  /** The order at stake is made, or goes out and is made; then the slot is cleared. */
  lemma LateAnswerLoses(s: State, k: Key, j: Key)
    requires Inv(s) && s.profile.Some? && AtStake(s, j) && j != k
    ensures !SafeFrom(LateOk(s, k))
  {
    var t := LateOk(s, k);
    DrainedIs(t.storage);
    var es := Drain(t, []);
    assert Run(t, es).storage.slot.None?;
    es := StakeIsMade(t, es, j);
    LosesTrack(t, es, j);
  }

  // ---------------------------------------------------------------- which failures may free the key

  /** On a screen that has read its draft, freeing the key on a failure is safe for every careful continuation exactly
      when the failure says that the order is void, or nothing is at stake at all: any wider class of failures would
      let two orders in. */
  lemma FreeingIsSafeIff(s: State, id: nat, failure: Failure, now: int)
    requires Inv(s) && s.screen.ready && s.profile.Some? && CanFail(s, id, failure)
    ensures SafeFrom(Freed(Answered(s, id, failure), now)) <==> JudgedVoid(failure) || forall k :: !AtStake(s, k)
  {
    var t := Answered(s, id, failure);
    if JudgedVoid(failure) {
      RefuseKeeps(s, id, now);
      InvIsSafe(Freed(t, now));
    } else {
      LostKeeps(s, id);
      assert forall k :: AtStake(t, k) <==> AtStake(s, k);
      if k :| AtStake(s, k) { FreeingLoses(t, k, now); } else { FreeingKeeps(t, now); InvIsSafe(Freed(t, now)); }
    }
  }

  lemma FreeingKeeps(s: State, now: int)
    requires Inv(s) && s.screen.ready && forall k :: !AtStake(s, k)
    ensures Inv(Freed(s, now))
  {
    var t := Freed(s, now);
    forall k ensures !Hot(t.world, k) {
      if Hot(t.world, k) { assert AtStake(s, k); }
    }
    var w := s.sends.waiting;
    forall id | id in w && !w[id].settled ensures w[id].key in t.world.acked {
      if w[id].key !in s.world.acked { assert AtStake(s, w[id].key); }
    }
  }

  /** The slot is rewritten without the key; then its order is made, or goes out and is made. */
  lemma FreeingLoses(s: State, k: Key, now: int)
    requires Inv(s) && s.profile.Some? && s.screen.ready && AtStake(s, k)
    ensures !SafeFrom(Freed(s, now))
  {
    var t := Freed(s, now);
    DrainedIs(t.storage);
    var es := Drain(t, []);
    es := StakeIsMade(t, es, k);
    LosesTrack(t, es, k);
  }

  /** What is at stake becomes an order, once all writes are done. */
  lemma StakeIsMade(s: State, es: seq<Event>, k: Key) returns (fs: seq<Event>)
    requires CarefulRun(s, es) && AtStake(Run(s, es), k) && SentIsOpen(Run(s, es).world, Run(s, es).sends)
    requires var t := Run(s, es);
             forall id :: id in t.sends.waiting ==> t.sends.waiting[id].ticket <= t.storage.completed
    ensures var t, u := Run(s, es), Run(s, fs);
            && CarefulRun(s, fs) && u.storage == t.storage && u.profile == t.profile
            && k in u.world.orders && u.world.acked == t.world.acked
  {
    fs := es;
    var t := Run(s, es);
    if k in t.world.orders {
    } else if id :| id in t.world.open && t.world.open[id] == k {
      fs := CarefulThen(s, fs, ServerMakes(id));
    } else {
      var id :| id in t.sends.waiting && !t.sends.waiting[id].settled && t.sends.waiting[id].key == k;
      fs := CarefulThen(s, fs, Post(id));
      fs := CarefulThen(s, fs, ServerMakes(id));
    }
  }

  // ---------------------------------------------------------------- the lifetime runs from the tap

  /** Once a tap's draft is on disk, a kill and a relaunch bring its key back exactly within ten minutes of the tap (a
      minute of clock skew allowed), and with it the moment of the tap, not that of the relaunch. */
  lemma KeyOutlivesKillIff(s: State, now: int, mint: Key, at: int, sendAgain: bool)
    requires Writes(s.screen, s.profile) && TapKey(s.screen) != ""
    ensures var t := Submitted(s, now);
            var u := Step(Step(t.(storage := Drained(t.storage)), Kill(mint)), Restore(at, sendAgain));
            && u.screen.ready && u.screen.mint == mint
            && (if -60_000 <= at - now <= 600_000 then u.screen.sentKey == Some(TapKey(s.screen)) && u.screen.sentAt == now
                else u.screen.sentKey == None)
  {
    DrainedIs(Submitted(s, now).storage);
  }

  /** A draft worth keeping that was flushed is there again after a kill and a relaunch exactly within a day of the flush. */
  lemma DraftOutlivesKillIff(s: State, now: int, mint: Key, at: int)
    requires Writes(s.screen, s.profile) && !s.screen.blank
    ensures var t := Step(s, Flush(now));
            var u := Step(Step(t.(storage := Drained(t.storage)), Kill(mint)), Restore(at, false));
            !u.screen.blank <==> -60_000 <= at - now <= 86_400_000
  {
    DrainedIs(Step(s, Flush(now)).storage);
  }

  /** Leaving the screen with nothing outstanding and coming back to it: a fresh screen that finds, within a day, the draft
      as it was left, and with it the key if that went out ten minutes ago at most. */
  lemma ReopenedFindsItsDraft(s: State, mint: Key, now: int, at: int)
    requires Writes(s.screen, s.profile) && !s.screen.blank && s.sends.waiting == map[] && s.sends.awaiting == map[]
    requires -60_000 <= at - now <= 86_400_000
    ensures var t := Step(s, Reopen(mint, now));
            var u := Step(t.(storage := Drained(t.storage)), Restore(at, false));
            && !t.screen.ready && t.screen.sentKey == None && t.screen.mint == mint
            && u.screen.ready && !u.screen.blank
            && u.screen.sentKey == (if s.screen.sentKey != Some("") && -60_000 <= at - s.screen.sentAt <= 600_000 then s.screen.sentKey else None)
  {
    DrainedIs(Step(s, Reopen(mint, now)).storage);
  }

  /** A placed order is done with: nothing more of it is written, and once the chain is worked off the slot is empty and a
      relaunch finds nothing. */
  lemma PlacedOrderIsForgotten(s: State, id: nat, now: int, mint: Key, at: int, sendAgain: bool)
    requires id in s.sends.awaiting && s.sends.awaiting[id] in s.world.orders
    ensures var t := Step(s, AnswerOk(id));
            var u := t.(storage := Drained(t.storage));
            var v := Step(Step(u, Kill(mint)), Restore(at, sendAgain));
            && t.screen.sentKey == None && s.sends.awaiting[id] in t.world.acked && Step(t, Flush(now)) == t
            && u.storage.slot == None && v.screen == Blank(mint).(ready := true)
  {
    DrainedIs(Step(s, AnswerOk(id)).storage);
  }
}
