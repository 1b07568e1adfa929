/** The screen as it keeps its refs and its write chain: every handler proved to take the step of SendReplay. */
module SendScreen {
  import opened Options
  import opened SendReplay

  class Compose {
    // refs
    var sentKey: Option<Key>
    var sentAt: int
    var draftReady: bool
    var draftDone: bool
    // state of the render
    var idempotencyKey: Key
    var blank: bool
    var profile: Option<string>
    // the serial chain and the slot
    var slot: Option<Draft>
    var chain: seq<Op>
    var completed: nat
    // promises in flight, and the server
    ghost var sends: Sends
    ghost var world: World

    ghost function ScreenNow(): Screen
      reads this
    {
      Screen(sentKey, sentAt, draftReady, draftDone, idempotencyKey, blank)
    }

    ghost function Model(): State
      reads this
    {
      State(profile, ScreenNow(), Storage(slot, chain, completed), sends, world)
    }

    constructor (profile: Option<string>, slot: Option<Draft>, mint: Key)
      ensures Model() == Start(profile, slot, mint)
    {
      this.profile, this.slot, idempotencyKey, blank := profile, slot, mint, true;
      sentKey, sentAt, draftReady, draftDone := None, 0, false, false;
      chain, completed := [], 0;
      sends, world := Sends(map[], map[], 0), World(map[], {}, {}, {});
    }

    /** The prefill effect, when its read of the slot comes back. */
    method Prefill(now: int, sendAgain: bool)
      requires !draftReady && chain == []
      modifies this
      ensures Model() == Step(old(Model()), Restore(now, sendAgain))
    {
      var stored := Parsed(slot, now, profile);
      if !sendAgain {
        if stored.Some? { RestoreDraft(stored.value); }
        draftReady := true;
        return;
      }
      if stored.Some? && stored.value.sentKey.Some? {
        sentKey := stored.value.sentKey;
        sentAt := stored.value.sentAt;
      }
      draftReady := true;
    }

    method RestoreDraft(d: Draft)
      modifies this`sentKey, this`sentAt, this`blank
      ensures sentKey == d.sentKey && sentAt == d.sentAt && blank == d.blank
    {
      sentKey := d.sentKey;
      sentAt := d.sentAt;
      blank := d.blank;
    }

    /** Chains a write of the draft as it is now, if the screen writes drafts; `ticket` is what to await. */
    method FlushDraft(now: int) returns (ticket: nat)
      modifies this`chain
      ensures chain == Flushed(Storage(slot, old(chain), completed), ScreenNow(), profile, now).queue
      ensures ticket == Ticket(Storage(slot, old(chain), completed), ScreenNow(), profile)
      ensures Model() == Step(old(Model()), Flush(now))
    {
      ticket := 0;
      if !draftReady || draftDone || profile.None? { return; }
      var d := Draft(now, profile.value, blank, sentKey, if sentKey.Some? then sentAt else 0);
      chain := chain + [Save(d)];
      ticket := completed + |chain|;
    }

    method ChainAdvances()
      requires chain != []
      modifies this
      ensures Model() == Step(old(Model()), WriteDone)
    {
      var op := chain[0];
      if op.Clear? || (op.draft.blank && op.draft.sentKey.None?) { slot := None; } else { slot := Some(op.draft); }
      chain, completed := chain[1..], completed + 1;
    }

    /** `submit` up to its await: the key is frozen and its write chained. */
    method SubmitBegins(now: int) returns (key: Key)
      modifies this
      ensures Model() == Step(old(Model()), Submit(now))
      ensures sentKey == Some(key) && key == (if old(sentKey).Some? then old(sentKey).value else old(idempotencyKey))
    {
      key := if sentKey.Some? then sentKey.value else idempotencyKey;
      sentKey := Some(key);
      sentAt := now;
      var ticket := FlushDraft(now);
      sends := sends.(waiting := sends.waiting[sends.next := Attempt(key, ticket, false)], next := sends.next + 1);
    }

    method RequestLeaves(id: nat)
      requires id in sends.waiting && sends.waiting[id].ticket <= completed
      modifies this`sends, this`world
      ensures Model() == Step(old(Model()), Post(id))
    {
      ghost var a := sends.waiting[id];
      sends := sends.(waiting := sends.waiting - {id}, awaiting := sends.awaiting[id := a.key]);
      if !a.settled {
        world := world.(open := world.open[id := a.key]);
        if a.key !in world.acked { world := world.(sent := world.sent + {a.key}); }
      }
    }

    /** `submit` after createOrder returned an order. */
    method OrderPlaced(id: nat)
      requires id in sends.awaiting && sends.awaiting[id] in world.orders
      modifies this
      ensures Model() == Step(old(Model()), AnswerOk(id))
    {
      sentKey := None;
      draftDone := true;
      chain := chain + [Clear];
      world := world.(open := world.open - {id}, acked := world.acked + {sends.awaiting[id]}, sent := {});
      sends := sends.(awaiting := sends.awaiting - {id});
    }

    /** `submit` after createOrder threw: only a 4xx that judged the order frees the key. */
    method SubmitFails(id: nat, failure: Failure, now: int)
      requires CanFail(Model(), id, failure)
      modifies this
      ensures Model() == Step(old(Model()), Failed(id, failure, now))
      ensures sentKey == (if failure.ApiFailure? && 400 <= failure.status <= 499 && !failure.standing then None else old(sentKey))
    {
      ghost var key := sends.awaiting[id];
      sends := sends.(awaiting := sends.awaiting - {id});
      if JudgedVoid(failure) {
        sends := sends.(waiting := Settled(sends.waiting, key));
        world := world.(open := Without(world.open, key), sent := {});
      }
      if IsDefinitive(failure) {
        sentKey := None;
        sentAt := 0;
        var _ := FlushDraft(now);
      }
    }
  }
}
