/** The code screen (apps/mobile/app/verify.tsx) as a state machine: refs that change at once, state that
    changes at the next commit, one effect that submits, and an environment that answers. */
module OtpVerify {
  import opened Options
  import opened Text

  const CODE_LENGTH := 6

  /** The state of one render; `rearm` only exists to run the effect again. */
  datatype View = View(code: string, busy: bool, locked: bool, wrong: bool, resending: bool, rearm: nat)

  datatype Refs = Refs(tried: Option<string>, retryable: bool, inFlight: bool, wrongCode: Option<string>, leaving: bool)

  /** The verify requests without an answer, the fresh-code requests without one, and what has happened. */
  datatype Outside = Outside(wire: seq<string>, asks: nat, log: seq<Entry>)

  datatype Entry = Sent(code: string) | Rejected(code: string) | Dead(code: string) | NonAnswer(code: string) | Accepted(code: string) | FreshCode

  /** `shown` is the committed render, which handlers and the effect close over; `queued` the next one. */
  datatype State = State(refs: Refs, shown: View, queued: View, effectDue: bool, outside: Outside)

  /** What a verify request ends in: signed in, wrong, expired or locked, or no verdict on the code. */
  datatype Result = Ok | Invalid | NeedsFresh | NoVerdict

  datatype Event =
    | Commit
    | Effect
    | Type(v: string)
    | Answer(i: nat, result: Result)
    | FreshAsk
    | FreshOk
    | FreshFails
    | Rearm
    | SessionFound

  function Typed(v: string): string {
    var d := Digits(v);
    if |d| <= CODE_LENGTH then d else d[..CODE_LENGTH]
  }

  function Start(devCode: string, locked: bool): State {
    var v := View(devCode, false, locked, false, false, 0);
    State(Refs(None, false, false, None, false), v, v, true, Outside([], 0, []))
  }

  // ---------------------------------------------------------------- the steps

  predicate SameDeps(a: View, b: View) {
    a.code == b.code && a.locked == b.locked && a.busy == b.busy && a.rearm == b.rearm
  }

  function Logged(o: Outside, e: Entry): Outside {
    o.(log := o.log + [e])
  }

  function Submitted(s: State, value: string): State {
    if s.refs.inFlight then s
    else
      s.(refs := s.refs.(inFlight := true, tried := Some(value), retryable := false),
         queued := s.queued.(wrong := false, busy := true),
         outside := Logged(s.outside.(wire := s.outside.wire + [value]), Sent(value)))
  }

  predicate Submits(s: State) {
    !s.refs.leaving && !s.shown.busy && !s.shown.locked && |s.shown.code| == CODE_LENGTH && s.refs.tried != Some(s.shown.code)
  }

  function Answered(s: State, i: nat, result: Result): State
    requires i < |s.outside.wire|
  {
    var value := s.outside.wire[i];
    var o := s.outside.(wire := s.outside.wire[..i] + s.outside.wire[i + 1..]);
    var r := s.refs.(inFlight := false);
    var q := s.queued.(busy := false);
    match result
    case Ok => s.(refs := r, queued := q, outside := Logged(o, Accepted(value)))
    case NeedsFresh => s.(refs := r, queued := q.(locked := true), outside := Logged(o, Dead(value)))
    case Invalid => s.(refs := r.(wrongCode := Some(value)), queued := q.(wrong := true), outside := Logged(o, Rejected(value)))
    case NoVerdict => s.(refs := r.(retryable := true), queued := q, outside := Logged(o, NonAnswer(value)))
  }

  function Edited(s: State, next: string): State {
    s.(refs := if s.refs.retryable && next != s.shown.code then s.refs.(tried := None, retryable := false) else s.refs,
       queued := s.queued.(code := next, wrong := s.refs.wrongCode == Some(next)))
  }

  function Refreshed(s: State): State
    requires s.outside.asks > 0
  {
    s.(refs := s.refs.(tried := None, retryable := false, wrongCode := None),
       queued := s.queued.(code := "", locked := false, wrong := false, resending := false),
       outside := Logged(s.outside.(asks := s.outside.asks - 1), FreshCode))
  }

  function Step(s: State, e: Event): State {
    match e
    case Commit =>
      // the effect of one commit runs before the next
      if s.effectDue then s else s.(shown := s.queued, effectDue := !SameDeps(s.shown, s.queued))
    case Effect =>
      if !s.effectDue then s
      else if Submits(s) then Submitted(s.(effectDue := false), s.shown.code)
      else s.(effectDue := false)
    case Type(v) => Edited(s, Typed(v))
    case Answer(i, result) => if i < |s.outside.wire| then Answered(s, i, result) else s
    case FreshAsk =>
      if s.shown.resending then s
      else s.(queued := s.queued.(resending := true), outside := s.outside.(asks := s.outside.asks + 1))
    case FreshOk => if s.outside.asks > 0 then Refreshed(s) else s
    case FreshFails =>
      if s.outside.asks > 0 then
        s.(queued := s.queued.(resending := false), outside := s.outside.(asks := s.outside.asks - 1))
      else s
    case Rearm =>
      if !s.refs.retryable then s
      else s.(refs := s.refs.(retryable := false, tried := None), queued := s.queued.(rearm := s.queued.rearm + 1))
    case SessionFound => s.(refs := s.refs.(leaving := true))
  }

  function Run(s: State, es: seq<Event>): State {
    if es == [] then s else Step(Run(s, es[..|es| - 1]), es[|es| - 1])
  }

  // ---------------------------------------------------------------- reading the log

  /** The code last sent. */
  function LastSent(log: seq<Entry>): Option<string> {
    if log == [] then None
    else
      var e := log[|log| - 1];
      if e.Sent? then Some(e.code) else LastSent(log[..|log| - 1])
  }

  predicate NonAnswerSince(log: seq<Entry>) {
    log != [] && !log[|log| - 1].Sent? && (log[|log| - 1].NonAnswer? || NonAnswerSince(log[..|log| - 1]))
  }

  predicate IsVerdict(e: Entry) {
    e.Rejected? || e.Dead? || e.Accepted?
  }

  predicate VerdictSince(log: seq<Entry>) {
    log != [] && !log[|log| - 1].Sent? && (IsVerdict(log[|log| - 1]) || VerdictSince(log[..|log| - 1]))
  }

  predicate FreshSince(log: seq<Entry>) {
    log != [] && !log[|log| - 1].Sent? && (log[|log| - 1].FreshCode? || FreshSince(log[..|log| - 1]))
  }

  /** What a repetition of the code last sent needs: a fresh code, or an end without a verdict. */
  predicate Excused(log: seq<Entry>) {
    FreshSince(log) || (NonAnswerSince(log) && !VerdictSince(log))
  }

  /** The code last sent goes out again with no fresh code in between. */
  predicate Resends(log: seq<Entry>, e: Entry) {
    e.Sent? && LastSent(log) == Some(e.code) && !FreshSince(log)
  }

  function ResendCount(log: seq<Entry>): nat {
    if log == [] then 0
    else ResendCount(log[..|log| - 1]) + (if Resends(log[..|log| - 1], log[|log| - 1]) then 1 else 0)
  }

  function NonAnswerCount(log: seq<Entry>): nat {
    if log == [] then 0
    else NonAnswerCount(log[..|log| - 1]) + (if log[|log| - 1].NonAnswer? then 1 else 0)
  }

  lemma Snoc(log: seq<Entry>, e: Entry)
    ensures LastSent(log + [e]) == (if e.Sent? then Some(e.code) else LastSent(log))
    ensures NonAnswerSince(log + [e]) <==> !e.Sent? && (e.NonAnswer? || NonAnswerSince(log))
    ensures VerdictSince(log + [e]) <==> !e.Sent? && (IsVerdict(e) || VerdictSince(log))
    ensures FreshSince(log + [e]) <==> !e.Sent? && (e.FreshCode? || FreshSince(log))
    ensures ResendCount(log + [e]) == ResendCount(log) + (if Resends(log, e) then 1 else 0)
    ensures NonAnswerCount(log + [e]) == NonAnswerCount(log) + (if e.NonAnswer? then 1 else 0)
  {
    assert (log + [e])[..|log|] == log;
  }

  // ---------------------------------------------------------------- what every step keeps

  /** One request at most, and `busy` follows it: the effect that finds the screen idle finds nothing in flight. */
  ghost predicate Single(s: State) {
    && (s.refs.inFlight <==> s.queued.busy)
    && |s.outside.wire| == (if s.refs.inFlight then 1 else 0)
    && (s.effectDue && s.queued.busy ==> s.shown.busy)
    && s.queued.rearm >= s.shown.rearm
  }

  /** The code last sent is the one tried, unless a non-answer or a fresh code has cleared it; an answer is
      still to come exactly while the request is out. */
  ghost predicate Tracked(r: Refs, o: Outside) {
    && (r.tried.Some? ==> r.tried == LastSent(o.log))
    && (LastSent(o.log).Some? && r.tried.None? ==> Excused(o.log))
    && (r.retryable ==> NonAnswerSince(o.log))
    && !(NonAnswerSince(o.log) && VerdictSince(o.log))
    && (r.inFlight ==> LastSent(o.log).Some? && !NonAnswerSince(o.log) && !VerdictSince(o.log))
    && ResendCount(o.log) + (if NonAnswerSince(o.log) then 1 else 0) <= NonAnswerCount(o.log)
  }

  ghost predicate Inv(s: State) {
    Single(s) && Tracked(s.refs, s.outside) && Judged(s.outside.log)
  }

  /** Every repetition in the log is excused. */
  ghost predicate Judged(log: seq<Entry>) {
    forall n :: 0 <= n < |log| && log[n].Sent? && LastSent(log[..n]) == Some(log[n].code) ==> Excused(log[..n])
  }

  lemma JudgedSnoc(log: seq<Entry>, e: Entry)
    requires Judged(log)
    requires e.Sent? && LastSent(log) == Some(e.code) ==> Excused(log)
    ensures Judged(log + [e])
  {
    var l := log + [e];
    forall n | 0 <= n < |l| && l[n].Sent? && LastSent(l[..n]) == Some(l[n].code)
      ensures Excused(l[..n])
    {
      assert l[..n] == log[..n];
      if n == |log| { assert log[..n] == log; }
    }
  }

  lemma EffectKeeps(s: State)
    requires Inv(s)
    ensures Inv(Step(s, Effect))
  {
    if s.effectDue && Submits(s) {
      Snoc(s.outside.log, Sent(s.shown.code));
      JudgedSnoc(s.outside.log, Sent(s.shown.code));
    }
  }

  lemma AnswerKeeps(s: State, i: nat, result: Result)
    requires Inv(s) && i < |s.outside.wire|
    ensures Inv(Answered(s, i, result))
  {
    var v := s.outside.wire[i];
    var e := match result case Ok => Accepted(v) case NeedsFresh => Dead(v) case Invalid => Rejected(v) case NoVerdict => NonAnswer(v);
    Snoc(s.outside.log, e);
    JudgedSnoc(s.outside.log, e);
  }

  lemma RefreshKeeps(s: State)
    requires Inv(s) && s.outside.asks > 0
    ensures Inv(Refreshed(s))
  {
    Snoc(s.outside.log, FreshCode);
    JudgedSnoc(s.outside.log, FreshCode);
  }

  lemma StepKeeps(s: State, e: Event)
    requires Inv(s)
    ensures Inv(Step(s, e))
  {
    match e
    case Commit =>
    case Effect => EffectKeeps(s);
    case Type(_) =>
    case Answer(i, result) => if i < |s.outside.wire| { AnswerKeeps(s, i, result); }
    case FreshAsk =>
    case FreshOk => if s.outside.asks > 0 { RefreshKeeps(s); }
    case FreshFails =>
    case Rearm =>
    case SessionFound =>
  }

  lemma {:induction false} RunKeeps(devCode: string, locked: bool, es: seq<Event>)
    ensures Inv(Run(Start(devCode, locked), es))
  {
    if es != [] {
      RunKeeps(devCode, locked, es[..|es| - 1]);
      StepKeeps(Run(Start(devCode, locked), es[..|es| - 1]), es[|es| - 1]);
    }
  }

  // ---------------------------------------------------------------- the theorems

  /** No run has two verify requests in flight. */
  lemma NeverTwoInFlight(devCode: string, locked: bool, es: seq<Event>)
    ensures |Run(Start(devCode, locked), es).outside.wire| <= 1
  {
    RunKeeps(devCode, locked, es);
  }

  /** The excuse is an entry of the log between the two submissions; so is a verdict. */
  lemma {:induction false} ExcuseIsThere(log: seq<Entry>, i: nat)
    requires i < |log| && log[i].Sent? && (forall k :: i < k < |log| ==> !log[k].Sent?)
    ensures FreshSince(log) ==> exists k :: i < k < |log| && log[k].FreshCode?
    ensures NonAnswerSince(log) ==> exists k :: i < k < |log| && log[k].NonAnswer?
    ensures (exists k :: i < k < |log| && IsVerdict(log[k])) ==> VerdictSince(log)
  {
    var n := |log| - 1;
    if i < n {
      var before := log[..n];
      ExcuseIsThere(before, i);
      assert forall k :: 0 <= k < n ==> before[k] == log[k];
    }
  }

  lemma {:induction false} LastSentIs(log: seq<Entry>, i: nat)
    requires i < |log| && log[i].Sent? && (forall k :: i < k < |log| ==> !log[k].Sent?)
    ensures LastSent(log) == Some(log[i].code)
  {
    if i < |log| - 1 { LastSentIs(log[..|log| - 1], i); }
  }

  /** Two back-to-back submissions of one code have a fresh code between them, or the first ended in a
      non-answer and in no verdict: a code that was judged is never sent again as it is. */
  lemma RepeatsAreExcused(devCode: string, locked: bool, es: seq<Event>, i: nat, j: nat)
    requires var log := Run(Start(devCode, locked), es).outside.log;
             && i < j < |log| && log[i].Sent? && log[j] == log[i]
             && forall k :: i < k < j ==> !log[k].Sent?
    ensures var log := Run(Start(devCode, locked), es).outside.log;
            || (exists k :: i < k < j && log[k].FreshCode?)
            || ((exists k :: i < k < j && log[k].NonAnswer?) && forall k :: i < k < j ==> !IsVerdict(log[k]))
  {
    RunKeeps(devCode, locked, es);
    var log := Run(Start(devCode, locked), es).outside.log;
    var before := log[..j];
    assert forall k :: 0 <= k < j ==> before[k] == log[k];
    LastSentIs(before, i);
    ExcuseIsThere(before, i);
  }

  /** Each non-answer allows at most one resend. */
  lemma ResendsWithinNonAnswers(devCode: string, locked: bool, es: seq<Event>)
    ensures var log := Run(Start(devCode, locked), es).outside.log; ResendCount(log) <= NonAnswerCount(log)
  {
    RunKeeps(devCode, locked, es);
  }

  // ---------------------------------------------------------------- the latest code is sent

  /** Nothing that would run the effect is under way. */
  predicate Settled(s: State) {
    !s.effectDue && s.shown.code == s.queued.code && s.shown.locked == s.queued.locked && s.shown.rearm == s.queued.rearm
  }

  predicate Sendable(s: State) {
    !s.refs.leaving && !s.shown.busy && !s.shown.locked && |s.shown.code| == CODE_LENGTH
  }

  ghost predicate LatestTried(s: State) {
    Settled(s) && Sendable(s) ==> s.refs.tried == Some(s.shown.code)
  }

  /** The edit does not go back to the untried code shown from an edit not yet committed, on a screen on which
      nothing else would send it. (React commits discrete input events one by one, so that no edit finds another
      uncommitted.) */
  predicate Harmless(s: State, v: string) {
    || s.queued.code == s.shown.code || Typed(v) != s.shown.code || s.refs.tried == Some(s.shown.code)
    || s.effectDue || !Sendable(s) || s.shown.locked != s.queued.locked || s.shown.rearm != s.queued.rearm
  }

  /** An edit loses the latest code exactly when it is not harmless: in any state that a run can lead to. */
  lemma EditKeepsLatestIff(s: State, v: string)
    requires Inv(s) && LatestTried(s)
    ensures LatestTried(Step(s, Type(v))) <==> Harmless(s, v)
  {}

  predicate Loses(s: State, e: Event) {
    e.Type? && !Harmless(s, e.v)
  }

  /** What ends a loss: another edit, a fresh code, a re-armed retry, a commit that runs the effect; or a locked screen
      and a session found, where nothing is to be sent. */
  predicate Repairs(s: State, e: Event) {
    match e
    case Commit => !SameDeps(s.shown, s.queued)
    case Type(v) => Typed(v) != s.shown.code
    case FreshOk => s.outside.asks > 0
    case Rearm => s.refs.retryable
    case Answer(i, result) => i < |s.outside.wire| && result.NeedsFresh?
    case SessionFound => true
    case _ => false
  }

  lemma LosingStep(s: State, e: Event)
    requires Inv(s) && LatestTried(s)
    ensures LatestTried(Step(s, e)) <==> !Loses(s, e)
  {}

  lemma RepairingStep(s: State, e: Event)
    requires Inv(s) && !LatestTried(s)
    ensures LatestTried(Step(s, e)) <==> Repairs(s, e)
    ensures !Loses(s, e)
  {}

  /** An edit of the run has lost the latest code, and nothing since has brought it back. */
  ghost predicate IsLost(s: State, es: seq<Event>) {
    es != [] &&
    var before, t := es[..|es| - 1], Run(s, es[..|es| - 1]);
    Loses(t, es[|es| - 1]) || (IsLost(s, before) && !Repairs(t, es[|es| - 1]))
  }

  /** Over every run the latest complete code is tried once all is settled, exactly when no edit has lost it for
      good. */
  lemma {:induction false} LatestTriedIff(devCode: string, locked: bool, es: seq<Event>)
    ensures LatestTried(Run(Start(devCode, locked), es)) <==> !IsLost(Start(devCode, locked), es)
  {
    if es != [] {
      var k := |es| - 1;
      var s := Run(Start(devCode, locked), es[..k]);
      LatestTriedIff(devCode, locked, es[..k]);
      RunKeeps(devCode, locked, es[..k]);
      if LatestTried(s) { LosingStep(s, es[k]); } else { RepairingStep(s, es[k]); }
    }
  }

  /** The latest complete code is never dropped: once React has settled on an idle, unlocked screen, the six digits in
      the boxes are the code last sent, unless an edit has lost it for good. */
  lemma LatestCodeIsSent(devCode: string, locked: bool, es: seq<Event>)
    requires var s := Run(Start(devCode, locked), es); Settled(s) && Sendable(s)
    requires !IsLost(Start(devCode, locked), es)
    ensures var s := Run(Start(devCode, locked), es); LastSent(s.outside.log) == Some(s.shown.code)
  {
    LatestTriedIff(devCode, locked, es);
    RunKeeps(devCode, locked, es);
  }

  /** While a code is being checked the screen is busy and no line says that it is wrong, from the next commit on and until
      the digits are edited or the answer comes. */
  lemma CheckingShows(devCode: string, locked: bool, es: seq<Event>)
    requires var s := Run(Start(devCode, locked), es); s.effectDue && Submits(s)
    ensures var s := Run(Start(devCode, locked), es);
            var t := Step(Step(s, Effect), Commit);
            && t.outside.wire == [s.shown.code] && t.refs.inFlight && t.shown.busy && !t.shown.wrong
            && t.refs.tried == Some(s.shown.code) && !t.refs.retryable
  {
    RunKeeps(devCode, locked, es);
  }

  /** A non-answer is made good: re-armed on a settled, idle screen, the very code goes out again, and is not re-armed twice
      without another non-answer. */
  lemma RetryIsSentAgain(devCode: string, locked: bool, es: seq<Event>)
    requires var s := Run(Start(devCode, locked), es);
             Settled(s) && Sendable(s) && s.refs.retryable && !s.refs.inFlight
    ensures var s := Run(Start(devCode, locked), es);
            var t := Step(Step(Step(s, Rearm), Commit), Effect);
            && t.outside.wire == [s.shown.code] && t.outside.log == s.outside.log + [Sent(s.shown.code)]
            && Step(t, Rearm) == t
  {
    RunKeeps(devCode, locked, es);
  }

  /** An edit after a non-answer forgets that the code was tried, once: nothing is left to re-arm. */
  lemma EditRearms(s: State, v: string)
    requires s.refs.retryable && Typed(v) != s.shown.code
    ensures var t := Step(s, Type(v)); t.refs.tried == None && Step(t, Rearm) == t && t.queued.code == Typed(v)
  {}

  /** While the render shows a request for a fresh code, another is not made; a failed one may be repeated. */
  lemma AsksOneAtATime(s: State)
    requires !s.effectDue && !s.shown.resending && s.outside.asks == 0
    ensures var t := Step(Step(s, FreshAsk), Commit);
            && t.outside.asks == 1 && t.shown.resending && Step(t, FreshAsk) == t
            && var u := Step(Step(Step(t, Effect), FreshFails), Commit);
               u.outside.asks == 0 && !u.shown.resending && Step(u, FreshAsk).outside.asks == 1
  {}

  lemma FreshScreen(s: State)
    requires Inv(s) && s.outside.asks > 0 && !s.effectDue && !s.refs.inFlight
    ensures var t := Step(Step(Step(s, FreshOk), Commit), Effect);
            && t.shown.code == "" && !t.shown.locked && !t.shown.busy && !t.shown.resending && t.refs == s.refs.(tried := None, retryable := false, wrongCode := None)
            && t.queued == t.shown && !t.effectDue && t.outside == Step(s, FreshOk).outside
  {}

  /** A fresh code opens the screen again: expired, locked out or wrong before, on an idle screen it empties the boxes,
      and the six digits typed next are sent, whatever they are. */
  lemma FreshCodeIsSent(devCode: string, locked: bool, es: seq<Event>, v: string)
    requires var s := Run(Start(devCode, locked), es);
             s.outside.asks > 0 && !s.effectDue && !s.refs.inFlight && !s.refs.leaving
    requires |Typed(v)| == 6
    ensures var s := Run(Start(devCode, locked), es);
            var t := Step(Step(Step(s, FreshOk), Commit), Effect);
            var u := Step(Step(Step(t, Type(v)), Commit), Effect);
            && t.shown.code == "" && !t.shown.locked && !t.shown.wrong && !t.shown.resending
            && u.shown.code == Typed(v) && u.outside.wire == [Typed(v)]
            && u.outside.log == s.outside.log + [FreshCode, Sent(Typed(v))]
  {
    RunKeeps(devCode, locked, es);
    FreshScreen(Run(Start(devCode, locked), es));
  }

  // ---------------------------------------------------------------- the wrong-code line

  /** The danger line is about the digits in the boxes. */
  predicate LineTells(s: State) {
    s.queued.wrong ==> s.refs.wrongCode == Some(s.queued.code)
  }

  /** A rejection leaves the line about the digits in the boxes exactly when they are still the ones judged;
      every other step keeps it so. */
  lemma LineTellsIff(s: State, e: Event)
    requires Inv(s) && LineTells(s)
    ensures LineTells(Step(s, e)) <==>
            !(e.Answer? && e.i < |s.outside.wire| && e.result.Invalid? && s.queued.code != s.outside.wire[e.i])
  {}

  // ---------------------------------------------------------------- both failures are reachable

  lemma Then(s: State, es: seq<Event>, e: Event) returns (fs: seq<Event>)
    ensures Run(s, fs) == Step(Run(s, es), e)
  {
    fs := es + [e];
    assert fs[..|fs| - 1] == es;
  }

  ghost predicate IsCode(c: string) {
    |c| == CODE_LENGTH && AllDigits(c)
  }

  lemma TypedIs(c: string)
    requires IsCode(c)
    ensures Typed(c) == c && Typed(c[..5]) == c[..5]
  {
    DigitsOfDigits(c);
    DigitsOfDigits(c[..5]);
  }

  /** A prefilled code goes out, and React commits. */
  lemma FirstSubmit(c: string) returns (es: seq<Event>)
    requires IsCode(c)
    ensures var v := View(c, true, false, false, false, 0);
            Run(Start(c, false), es) == State(Refs(Some(c), false, true, None, false), v, v, false, Outside([c], 0, [Sent(c)]))
  {
    es := Then(Start(c, false), [], Effect);
    es := Then(Start(c, false), es, Commit);
    es := Then(Start(c, false), es, Effect);
  }

  /** After a non-answer, a digit deleted and typed again within one commit: the code is complete, nothing is under
      way, and it is not sent again. */
  lemma ResendCanBeLost(c: string) returns (es: seq<Event>)
    requires IsCode(c)
    ensures var s := Run(Start(c, false), es);
            Settled(s) && Sendable(s) && s.shown.code == c && s.refs.tried == None && s.outside.log == [Sent(c), NonAnswer(c)]
  {
    var s := Start(c, false);
    TypedIs(c);
    es := FirstSubmit(c);
    es := Then(s, es, Answer(0, NoVerdict));
    es := Then(s, es, Commit);
    es := Then(s, es, Effect);
    assert Run(s, es).refs == Refs(Some(c), true, false, None, false) && Run(s, es).shown == View(c, false, false, false, false, 0);
    es := Then(s, es, Type(c[..5]));
    es := Then(s, es, Type(c));
    es := Then(s, es, Commit);
  }

  /** A digit deleted while the request is out, and then the rejection: the line is under other digits. */
  lemma LineCanMislead(c: string) returns (es: seq<Event>)
    requires IsCode(c)
    ensures var s := Run(Start(c, false), es);
            s.queued.wrong && s.refs.wrongCode == Some(c) && s.queued.code == c[..5] && !LineTells(s)
  {
    var s := Start(c, false);
    TypedIs(c);
    es := FirstSubmit(c);
    es := Then(s, es, Type(c[..5]));
    es := Then(s, es, Answer(0, Invalid));
  }
}
