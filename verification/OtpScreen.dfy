/** The code screen as it keeps its refs and queues its state: every handler proved to take the step of
    OtpVerify. */
module OtpScreen {
  import opened Options
  import opened Text
  import opened OtpVerify

  class Screen {
    // refs
    var tried: Option<string>
    var retryable: bool
    var inFlight: bool
    var wrongCode: Option<string>
    var leaving: bool
    // the render that handlers close over, and the state queued for the next
    var shown: View
    var queued: View
    var effectDue: bool
    ghost var outside: Outside

    ghost function Model(): State
      reads this
    {
      State(Refs(tried, retryable, inFlight, wrongCode, leaving), shown, queued, effectDue, outside)
    }

    constructor (devCode: string, locked: bool)
      ensures Model() == Start(devCode, locked)
    {
      tried, retryable, inFlight, wrongCode, leaving := None, false, false, None, false;
      shown := View(devCode, false, locked, false, false, 0);
      queued := View(devCode, false, locked, false, false, 0);
      effectDue, outside := true, Outside([], 0, []);
    }

    /** `submit` up to its await. */
    method SubmitBegins(value: string)
      modifies this
      ensures Model() == Submitted(old(Model()), value)
    {
      if inFlight { return; }
      inFlight := true;
      tried := Some(value);
      retryable := false;
      queued := queued.(wrong := false);
      queued := queued.(busy := true);
      outside := Logged(outside.(wire := outside.wire + [value]), Sent(value));
    }

    /** `submit` after its await, for the request `i` sent with `value`. */
    method SubmitEnds(i: nat, value: string, result: Result)
      requires i < |outside.wire| && outside.wire[i] == value
      modifies this
      ensures Model() == Step(old(Model()), Answer(i, result))
    {
      ghost var after := Answered(Model(), i, result).outside;
      match result {
        case Ok =>
        case NeedsFresh => queued := queued.(locked := true);
        case Invalid =>
          wrongCode := Some(value);
          queued := queued.(wrong := true);
        case NoVerdict => retryable := true;
      }
      inFlight := false;
      queued := queued.(busy := false);
      outside := after;
    }

    /** The effect that submits the latest code. */
    method AutoSubmit()
      requires effectDue
      modifies this
      ensures Model() == Step(old(Model()), Effect)
    {
      effectDue := false;
      if leaving || shown.busy || shown.locked || |shown.code| != CODE_LENGTH || tried == Some(shown.code) { return; }
      SubmitBegins(shown.code);
    }

    method OnChangeText(v: string)
      modifies this
      ensures Model() == Step(old(Model()), Type(v))
    {
      var digits := Digits(v);
      var next := if |digits| <= CODE_LENGTH then digits else digits[..CODE_LENGTH];
      if retryable && next != shown.code {
        tried := None;
        retryable := false;
      }
      queued := queued.(code := next);
      queued := queued.(wrong := Some(next) == wrongCode);
    }

    method RequestFreshCode() returns (asked: bool)
      modifies this
      ensures Model() == Step(old(Model()), FreshAsk)
      ensures asked == !old(shown).resending
    {
      asked := !shown.resending;
      if !asked { return; }
      queued := queued.(resending := true);
      outside := outside.(asks := outside.asks + 1);
    }

    method FreshCodeArrives(sent: bool)
      requires outside.asks > 0
      modifies this
      ensures Model() == Step(old(Model()), if sent then FreshOk else FreshFails)
    {
      ghost var after := Step(Model(), if sent then FreshOk else FreshFails).outside;
      if sent {
        queued := queued.(locked := false, wrong := false, code := "");
        tried := None;
        retryable := false;
        wrongCode := None;
      }
      queued := queued.(resending := false);
      outside := after;
    }

    /** The link came back, or the app returned to the foreground. */
    method RearmRetry()
      modifies this
      ensures Model() == Step(old(Model()), Rearm)
    {
      if !retryable { return; }
      retryable := false;
      tried := None;
      queued := queued.(rearm := queued.rearm + 1);
    }
  }
}
