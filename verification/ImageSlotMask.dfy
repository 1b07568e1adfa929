/** The replacement mask of one `<image-slot>` element (packages/design/assets/image-slot.js) as a state
    machine over drops, encodes, renders, image events and source writes. */
module ImageSlotMask {
  import opened Options
  import opened Text

  /** An author source; `unsplash` says its host is unsplash.com or a subdomain of it. */
  datatype Src = Src(url: string, unsplash: bool)

  /** What the element is asked to show. */
  datatype Content = Content(src: Option<Src>, credit: bool, hasId: bool, storeVal: string, local: string)

  /** The generation counter, the marker of an encode that replaces a shown image, and, outside the element,
      the encodes in flight and the ones that reached the store. */
  datatype Encodes = Encodes(gen: nat, swapGen: nat, pending: set<nat>, landed: seq<nat>)

  /** The frame: `swapping`, `filled` and `imgSrc` are attributes; `loadOutstanding` is the browser's. */
  datatype Frame = Frame(swapping: bool, filled: bool, imgSrc: string, loadPending: bool, hidShowing: bool, loadOutstanding: bool)

  datatype Element = Element(content: Content, encodes: Encodes, frame: Frame, connected: bool)

  function Fresh(content: Content): Element {
    Element(content, Encodes(0, 0, {}, []), Frame(false, false, "", false, false, false), false)
  }

  /** What can happen to the element. `complete` is what img.complete reports while a load is outstanding:
      it may still describe the request before. */
  datatype Event =
    | Connect(complete: bool)
    | Disconnect
    | Rerender(complete: bool)
    | StoreWrite(val: string, complete: bool)
    | LocalWrite(val: string)
    | IdChange(hasId: bool, val: string, complete: bool)
    | SrcWrite(src: Option<Src>, complete: bool)
    | CreditWrite(credit: bool, complete: bool)
    | Drop(accepted: bool)
    | EncodeLands(g: nat, url: string, saveThrows: bool, complete: bool)
    | EncodeFails(g: nat, complete: bool)
    | ImgSettles
    | ImgStale

  // ---------------------------------------------------------------- what is shown

  function LowerAll(s: string): string {
    if s == "" then "" else [Lower(s[0])] + LowerAll(s[1..])
  }

  /** /^data:image\//i */
  predicate IsDataImage(url: string) {
    |url| >= 11 && LowerAll(url[..11]) == "data:image/"
  }

  lemma {:induction false} LowerAllAt(s: string, k: nat)
    requires k < |s|
    ensures |LowerAll(s)| == |s| && LowerAll(s)[k] == Lower(s[k])
  {
    if |s| > 1 { LowerAllAt(s[1..], if k == 0 then 0 else k - 1); }
  }

  /** A data URL of an image, in any case of its first eleven characters. */
  lemma DataImageIff(url: string)
    ensures IsDataImage(url) <==>
              |url| >= 11 && forall k :: 0 <= k < 11 ==> url[k] == "data:image/"[k] || url[k] == "DATA:IMAGE/"[k]
  {
    if |url| >= 11 {
      var p, lower, upper := url[..11], "data:image/", "DATA:IMAGE/";
      forall k | 0 <= k < 11 ensures |LowerAll(p)| == 11 && (LowerAll(p)[k] == lower[k] <==> url[k] == lower[k] || url[k] == upper[k]) {
        LowerAllAt(p, k);
      }
    }
  }

  /** The user's own image, if the stored value holds an acceptable one. */
  function UserUrl(c: Content): string {
    var u := if c.hasId then c.storeVal else c.local;
    if IsDataImage(u) then u else ""
  }

  function SrcUrl(c: Content): string {
    if c.src.Some? then c.src.value.url else ""
  }

  /** An Unsplash source shown without credit: an error tile takes its place. */
  predicate AttrError(c: Content) {
    !c.credit && UserUrl(c) == "" && SrcUrl(c) != "" && c.src.value.unsplash
  }

  function ShownUrl(c: Content): string {
    if UserUrl(c) != "" then UserUrl(c) else if AttrError(c) then "" else SrcUrl(c)
  }

  // ---------------------------------------------------------------- the frame

  /** The single release discipline: no encode pending, no load pending, and the image settled. */
  function Released(f: Frame, swapGen: nat, settled: bool): Frame {
    if swapGen == 0 && !f.loadPending && settled then f.(swapping := false) else f
  }

  predicate Complete(f: Frame, reported: bool) {
    reported || !f.loadOutstanding
  }

  /** The content half of a render. */
  function Painted(f: Frame, url: string, attrError: bool, swapGen: nat, complete: bool): Frame {
    if url == "" then Frame(false, false, "", false, attrError && f.imgSrc != "", false)
    else if f.imgSrc != url then
      Frame(f.swapping || f.imgSrc != "" || f.hidShowing, true, url, true, false, true)
    else
      Released(f, swapGen, Complete(f, complete)).(hidShowing := false, filled := true)
  }

  function Rendered(e: Element, complete: bool): Element {
    e.(frame := Painted(e.frame, ShownUrl(e.content), AttrError(e.content), e.encodes.swapGen, complete))
  }

  function ReleasedIn(e: Element, complete: bool): Element {
    e.(frame := Released(e.frame, e.encodes.swapGen, Complete(e.frame, complete)))
  }

  // ---------------------------------------------------------------- the steps

  function Forgotten(n: Encodes, g: nat): Encodes {
    n.(pending := n.pending - {g})
  }

  /** The current encode lands: the value is stored, and whoever is told of it renders. */
  function Landed(e: Element, g: nat, url: string, saveThrows: bool, complete: bool): Element {
    var n := e.encodes.(swapGen := 0, landed := e.encodes.landed + [g]);
    var c := if e.content.hasId then e.content.(storeVal := url) else e.content.(local := url);
    var w := e.(content := c, encodes := n);
    var r := if !c.hasId || e.connected then Rendered(w, complete) else w;
    if c.hasId && saveThrows then ReleasedIn(r, complete) else r
  }

  function Bumped(e: Element): Element {
    e.(encodes := e.encodes.(gen := e.encodes.gen + 1, swapGen := 0))
  }

  function Dropped(e: Element): Element {
    var g := e.encodes.gen + 1;
    var n := e.encodes.(gen := g, pending := e.encodes.pending + {g});
    if e.frame.filled then e.(encodes := n.(swapGen := g), frame := e.frame.(swapping := true)) else e.(encodes := n)
  }

  function Step(e: Element, ev: Event): Element {
    match ev
    case Connect(c) => Rendered(e.(connected := true), c)
    case Disconnect => e.(connected := false)
    case Rerender(c) => Rendered(e, c)
    case StoreWrite(val, c) =>
      var w := e.(content := e.content.(storeVal := val));
      if e.connected then Rendered(w, c) else w
    case LocalWrite(val) => e.(content := e.content.(local := val))
    case IdChange(hasId, val, c) => Rendered(e.(content := e.content.(hasId := hasId, storeVal := val)), c)
    case SrcWrite(src, c) =>
      if src == e.content.src then Rendered(e, c) else Rendered(Bumped(e.(content := e.content.(src := src))), c)
    case CreditWrite(credit, c) => Rendered(e.(content := e.content.(credit := credit)), c)
    case Drop(accepted) => if accepted then Dropped(e) else e
    case EncodeLands(g, url, saveThrows, c) =>
      if g !in e.encodes.pending then e
      else
        var f := e.(encodes := Forgotten(e.encodes, g));
        if g == e.encodes.gen then Landed(f, g, url, saveThrows, c) else f
    case EncodeFails(g, c) =>
      if g !in e.encodes.pending then e
      else
        var f := e.(encodes := Forgotten(e.encodes, g));
        if g == e.encodes.gen then ReleasedIn(f.(encodes := f.encodes.(swapGen := 0)), c) else f
    case ImgSettles =>
      if !e.frame.loadOutstanding then e
      else e.(frame := Released(e.frame.(loadOutstanding := false, loadPending := false), e.encodes.swapGen, true))
    case ImgStale => e.(frame := Released(e.frame.(loadPending := false), e.encodes.swapGen, true))
  }

  function Run(e: Element, evs: seq<Event>): Element {
    if evs == [] then e else Step(Run(e, evs[..|evs| - 1]), evs[|evs| - 1])
  }

  // ---------------------------------------------------------------- what every step keeps

  /** A nonzero marker means that an encode of the current generation is pending; no generation lands twice. */
  ghost predicate Tidy(n: Encodes) {
    && (n.swapGen != 0 ==> n.gen in n.pending)
    && (forall g | g in n.pending :: g <= n.gen && g !in n.landed)
    && (forall g | g in n.landed :: g <= n.gen)
  }

  /** A mask left on has an encode or an image load behind it. */
  ghost predicate Backed(f: Frame, swapGen: nat, connected: bool) {
    (f.loadPending ==> f.loadOutstanding) && (connected && f.swapping ==> swapGen != 0 || f.loadOutstanding)
  }

  ghost predicate Inv(e: Element) {
    Tidy(e.encodes) && Backed(e.frame, e.encodes.swapGen, e.connected)
  }

  /** Whatever it shows, a render leaves no mask on without something that will take it off. */
  lemma PaintBacks(f: Frame, url: string, attrError: bool, swapGen: nat, complete: bool)
    requires f.loadPending ==> f.loadOutstanding
    ensures Backed(Painted(f, url, attrError, swapGen, complete), swapGen, true)
  {}

  lemma RenderKeeps(e: Element, complete: bool)
    requires Tidy(e.encodes) && (e.frame.loadPending ==> e.frame.loadOutstanding)
    ensures Inv(Rendered(e, complete))
  {
    PaintBacks(e.frame, ShownUrl(e.content), AttrError(e.content), e.encodes.swapGen, complete);
  }

  lemma ReleaseKeeps(e: Element, complete: bool)
    requires Tidy(e.encodes) && (e.frame.loadPending ==> e.frame.loadOutstanding)
    ensures Inv(ReleasedIn(e, complete))
  {}

  lemma ForgetKeeps(n: Encodes, g: nat)
    requires Tidy(n) && g in n.pending
    ensures g != n.gen ==> Tidy(Forgotten(n, g))
    ensures g == n.gen ==> Tidy(Forgotten(n, g).(swapGen := 0))
    ensures g == n.gen ==> Tidy(Forgotten(n, g).(swapGen := 0, landed := n.landed + [g]))
  {
    assert forall h | h in n.landed + [g] :: h == g || h in n.landed;
  }

  lemma LandedKeeps(e: Element, g: nat, url: string, saveThrows: bool, complete: bool)
    requires Tidy(e.encodes.(swapGen := 0, landed := e.encodes.landed + [g])) && Backed(e.frame, 1, e.connected)
    ensures Inv(Landed(e, g, url, saveThrows, complete))
  {
    var n := e.encodes.(swapGen := 0, landed := e.encodes.landed + [g]);
    var c := if e.content.hasId then e.content.(storeVal := url) else e.content.(local := url);
    var w := e.(content := c, encodes := n);
    RenderKeeps(w, complete);
    var r := if !c.hasId || e.connected then Rendered(w, complete) else w;
    ReleaseKeeps(r, complete);
  }

  lemma SrcKeeps(e: Element, src: Option<Src>, complete: bool)
    requires Inv(e)
    ensures Inv(Step(e, SrcWrite(src, complete)))
  {
    RenderKeeps(e, complete);
    RenderKeeps(Bumped(e.(content := e.content.(src := src))), complete);
  }

  lemma EncodeKeeps(e: Element, ev: Event)
    requires Inv(e) && (ev.EncodeLands? || ev.EncodeFails?)
    ensures Inv(Step(e, ev))
  {
    if ev.g in e.encodes.pending {
      ForgetKeeps(e.encodes, ev.g);
      var f := e.(encodes := Forgotten(e.encodes, ev.g));
      if ev.g == e.encodes.gen {
        if ev.EncodeLands? { LandedKeeps(f, ev.g, ev.url, ev.saveThrows, ev.complete); }
        else { ReleaseKeeps(f.(encodes := f.encodes.(swapGen := 0)), ev.complete); }
      }
    }
  }

  lemma DropKeeps(e: Element)
    requires Inv(e)
    ensures Inv(Dropped(e))
  {}

  lemma ImgKeeps(e: Element, ev: Event)
    requires Inv(e) && (ev.ImgSettles? || ev.ImgStale?)
    ensures Inv(Step(e, ev))
  {}

  lemma StepKeeps(e: Element, ev: Event)
    requires Inv(e)
    ensures Inv(Step(e, ev))
  {
    match ev
    case Connect(c) => RenderKeeps(e.(connected := true), c);
    case Disconnect =>
    case Rerender(c) => RenderKeeps(e, c);
    case StoreWrite(val, c) => RenderKeeps(e.(content := e.content.(storeVal := val)), c);
    case LocalWrite(_) =>
    case IdChange(hasId, val, c) => RenderKeeps(e.(content := e.content.(hasId := hasId, storeVal := val)), c);
    case SrcWrite(src, c) => SrcKeeps(e, src, c);
    case CreditWrite(credit, c) => RenderKeeps(e.(content := e.content.(credit := credit)), c);
    case Drop(_) => DropKeeps(e);
    case EncodeLands(_, _, _, _) => EncodeKeeps(e, ev);
    case EncodeFails(_, _) => EncodeKeeps(e, ev);
    case ImgSettles => ImgKeeps(e, ev);
    case ImgStale => ImgKeeps(e, ev);
  }

  lemma {:induction false} RunKeeps(e: Element, evs: seq<Event>)
    requires Inv(e)
    ensures Inv(Run(e, evs))
  {
    if evs != [] {
      RunKeeps(e, evs[..|evs| - 1]);
      StepKeeps(Run(e, evs[..|evs| - 1]), evs[|evs| - 1]);
    }
  }

  // ---------------------------------------------------------------- the theorems

  /** The mask is never stranded: after any run, a connected slot with no encode of its current generation and
      no image load outstanding shows no mask. */
  lemma MaskIsNeverStranded(content: Content, evs: seq<Event>)
    ensures var e := Run(Fresh(content), evs);
            e.connected && e.encodes.gen !in e.encodes.pending && !e.frame.loadOutstanding ==> !e.frame.swapping
  {
    RunKeeps(Fresh(content), evs);
  }

  /** A later drop, or a source write that changes the source. */
  predicate Overtakes(e: Element, ev: Event) {
    (ev.Drop? && ev.accepted) || (ev.SrcWrite? && ev.src != e.content.src)
  }

  ghost predicate ShutOut(n: Encodes, g: nat) {
    g < n.gen && g !in n.landed
  }

  lemma ShutOutStep(e: Element, ev: Event, g: nat)
    requires ShutOut(e.encodes, g)
    ensures ShutOut(Step(e, ev).encodes, g)
  {}

  lemma {:induction false} ShutOutForGood(e: Element, evs: seq<Event>, g: nat)
    requires ShutOut(e.encodes, g)
    ensures ShutOut(Run(e, evs).encodes, g)
  {
    if evs != [] {
      ShutOutForGood(e, evs[..|evs| - 1], g);
      ShutOutStep(Run(e, evs[..|evs| - 1]), evs[|evs| - 1], g);
    }
  }

  lemma OvertakingShutsOut(e: Element, ev: Event, g: nat)
    requires Tidy(e.encodes) && g in e.encodes.pending && Overtakes(e, ev)
    ensures ShutOut(Step(e, ev).encodes, g)
  {}

  /** An encode overtaken by a later drop or source write never reaches the store, however the run goes on. */
  lemma OvertakenNeverLands(content: Content, before: seq<Event>, overtaking: Event, after: seq<Event>, g: nat)
    requires var e := Run(Fresh(content), before); g in e.encodes.pending && Overtakes(e, overtaking)
    ensures g !in Run(Step(Run(Fresh(content), before), overtaking), after).encodes.landed
  {
    var e := Run(Fresh(content), before);
    RunKeeps(Fresh(content), before);
    OvertakingShutsOut(e, overtaking, g);
    ShutOutForGood(Step(e, overtaking), after, g);
  }

  /** An encode that lands is stored, and shown as the user's image, exactly when its generation is current. */
  lemma LandsExactlyWhenCurrent(e: Element, g: nat, url: string, saveThrows: bool, complete: bool)
    requires g in e.encodes.pending && g !in e.encodes.landed && IsDataImage(url)
    ensures var t := Step(e, EncodeLands(g, url, saveThrows, complete));
            && (g in t.encodes.landed <==> g == e.encodes.gen)
            && (g == e.encodes.gen ==> UserUrl(t.content) == url)
            && (g != e.encodes.gen ==> t.content == e.content && t.frame == e.frame)
  {}

  /** Event `n` of the run overtakes the encode of the generation then current. */
  ghost predicate OvertakenAt(e: Element, evs: seq<Event>, n: nat) {
    n < |evs| && Overtakes(Run(e, evs[..n]), evs[n])
  }

  lemma OvertakenInPrefix(e: Element, evs: seq<Event>, before: seq<Event>, k: nat)
    requires k + 1 == |evs| && before == evs[..k]
    ensures (exists n :: OvertakenAt(e, evs, n)) <==> (exists n :: OvertakenAt(e, before, n)) || OvertakenAt(e, evs, k)
  {
    forall n: nat | n < k ensures OvertakenAt(e, before, n) <==> OvertakenAt(e, evs, n) {
      assert before[..n] == evs[..n];
    }
  }

  lemma GenerationStep(e: Element, ev: Event)
    ensures Step(e, ev).encodes.gen == e.encodes.gen + (if Overtakes(e, ev) then 1 else 0)
  {}

  lemma {:induction false} GenerationCounts(e: Element, evs: seq<Event>)
    ensures Run(e, evs).encodes.gen >= e.encodes.gen
    ensures Run(e, evs).encodes.gen == e.encodes.gen <==> !exists n :: OvertakenAt(e, evs, n)
  {
    if evs != [] {
      var k := |evs| - 1;
      OvertakenInPrefix(e, evs, evs[..k], k);
      GenerationCounts(e, evs[..k]);
      GenerationStep(Run(e, evs[..k]), evs[k]);
    }
  }

  /** Over runs: an encode that was current and is still pending is stored when it lands exactly when no later
      drop or source write has come in between. */
  lemma LandsIffNotOvertaken(content: Content, before: seq<Event>, between: seq<Event>, g: nat, url: string,
                             saveThrows: bool, complete: bool)
    requires var e := Run(Fresh(content), before); g == e.encodes.gen && g in e.encodes.pending
    requires g in Run(Run(Fresh(content), before), between).encodes.pending && IsDataImage(url)
    ensures var e := Run(Fresh(content), before);
            var t := Step(Run(e, between), EncodeLands(g, url, saveThrows, complete));
            && (g in t.encodes.landed <==> !exists n :: OvertakenAt(e, between, n))
            && (g in t.encodes.landed ==> UserUrl(t.content) == url)
  {
    var e := Run(Fresh(content), before);
    RunKeeps(Fresh(content), before);
    RunKeeps(e, between);
    GenerationCounts(e, between);
    LandsExactlyWhenCurrent(Run(e, between), g, url, saveThrows, complete);
  }

  /** The event puts another value where the slot reads its own. */
  predicate Rewrites(e: Element, ev: Event) {
    ev.StoreWrite? || ev.LocalWrite? || ev.IdChange? || (ev.EncodeLands? && ev.g in e.encodes.pending && ev.g == e.encodes.gen)
  }

  /** The user's own image, in the frame. */
  predicate Shows(e: Element, url: string) {
    UserUrl(e.content) == url && e.frame.imgSrc == url && e.frame.filled
  }

  lemma ShowsStep(e: Element, ev: Event, url: string)
    requires url != "" && Shows(e, url) && !Rewrites(e, ev)
    ensures Shows(Step(e, ev), url)
  {}

  lemma LandingShows(e: Element, g: nat, url: string, saveThrows: bool, complete: bool)
    requires g in e.encodes.pending && g == e.encodes.gen && IsDataImage(url) && (e.connected || !e.content.hasId)
    ensures Shows(Step(e, EncodeLands(g, url, saveThrows, complete)), url)
  {}

  /** No event of the run puts another value there. */
  ghost predicate LeftAlone(e: Element, evs: seq<Event>) {
    evs == [] || (LeftAlone(e, evs[..|evs| - 1]) && !Rewrites(Run(e, evs[..|evs| - 1]), evs[|evs| - 1]))
  }

  lemma {:induction false} StaysShown(e: Element, evs: seq<Event>, url: string)
    requires url != "" && Shows(e, url) && LeftAlone(e, evs)
    ensures Shows(Run(e, evs), url)
  {
    if evs != [] {
      StaysShown(e, evs[..|evs| - 1], url);
      ShowsStep(Run(e, evs[..|evs| - 1]), evs[|evs| - 1], url);
    }
  }

  /** What has landed in a slot that is told of it stays in the frame until the store, the id or a later encode
      says otherwise: no author source or credit shows in its place. */
  lemma LandedStaysShown(e: Element, g: nat, url: string, saveThrows: bool, complete: bool, after: seq<Event>)
    requires g in e.encodes.pending && g == e.encodes.gen && IsDataImage(url) && (e.connected || !e.content.hasId)
    requires LeftAlone(Step(e, EncodeLands(g, url, saveThrows, complete)), after)
    ensures Shows(Run(Step(e, EncodeLands(g, url, saveThrows, complete)), after), url)
  {
    LandingShows(e, g, url, saveThrows, complete);
    StaysShown(Step(e, EncodeLands(g, url, saveThrows, complete)), after, url);
  }

  /** The slot shows an image and the encode that will replace it is pending. */
  ghost predicate Replacing(e: Element) {
    e.encodes.swapGen != 0 && e.frame.filled
  }

  lemma MaskStep(e: Element, ev: Event)
    requires e.frame.swapping && Replacing(e) && Replacing(Step(e, ev))
    ensures Step(e, ev).frame.swapping
  {}

  /** For as long as a replacement is pending on a slot that stays filled, the mask stays on: no render, store
      write or image event in between uncovers the old picture. */
  lemma {:induction false} MaskHoldsDuringEncode(e: Element, evs: seq<Event>)
    requires e.frame.swapping && forall k: nat | k <= |evs| :: Replacing(Run(e, evs[..k]))
    ensures Run(e, evs).frame.swapping
  {
    if evs != [] {
      var n := |evs| - 1;
      forall k: nat | k <= n ensures Replacing(Run(e, evs[..n][..k])) {
        assert evs[..n][..k] == evs[..k];
      }
      MaskHoldsDuringEncode(e, evs[..n]);
      assert Replacing(Run(e, evs[..n])) && evs[..|evs|] == evs;
      MaskStep(Run(e, evs[..n]), evs[n]);
    }
  }

  /** The slot is filled, and an encode or an image load that will replace what it showed is under way. */
  predicate UnderWay(e: Element) {
    e.frame.filled && (e.encodes.swapGen != 0 || e.frame.loadPending)
  }

  lemma RenderHolds(e: Element, complete: bool)
    requires e.frame.swapping && UnderWay(Rendered(e, complete))
    ensures Rendered(e, complete).frame.swapping
  {}

  lemma ReleaseHolds(e: Element, complete: bool)
    requires e.frame.swapping && UnderWay(ReleasedIn(e, complete))
    ensures ReleasedIn(e, complete).frame.swapping
  {}

  lemma LandedHolds(e: Element, g: nat, url: string, saveThrows: bool, complete: bool)
    requires e.frame.swapping && UnderWay(Landed(e, g, url, saveThrows, complete))
    ensures Landed(e, g, url, saveThrows, complete).frame.swapping
  {
    var c := if e.content.hasId then e.content.(storeVal := url) else e.content.(local := url);
    var w := e.(content := c, encodes := e.encodes.(swapGen := 0, landed := e.encodes.landed + [g]));
    var r := if !c.hasId || e.connected then Rendered(w, complete) else w;
    if UnderWay(Rendered(w, complete)) { RenderHolds(w, complete); }
    if c.hasId && saveThrows { ReleasedIsUnderWay(r, complete); ReleaseHolds(r, complete); }
  }

  lemma ReleasedIsUnderWay(e: Element, complete: bool)
    ensures UnderWay(ReleasedIn(e, complete)) <==> UnderWay(e)
  {}

  lemma SrcHolds(e: Element, src: Option<Src>, complete: bool)
    requires e.frame.swapping && UnderWay(Step(e, SrcWrite(src, complete)))
    ensures Step(e, SrcWrite(src, complete)).frame.swapping
  {
    if src == e.content.src { RenderHolds(e, complete); } else { RenderHolds(Bumped(e.(content := e.content.(src := src))), complete); }
  }

  lemma EncodeHolds(e: Element, ev: Event)
    requires e.frame.swapping && UnderWay(Step(e, ev)) && (ev.EncodeLands? || ev.EncodeFails?)
    ensures Step(e, ev).frame.swapping
  {
    if ev.g in e.encodes.pending && ev.g == e.encodes.gen {
      var f := e.(encodes := Forgotten(e.encodes, ev.g));
      if ev.EncodeLands? { LandedHolds(f, ev.g, ev.url, ev.saveThrows, ev.complete); }
      else { ReleaseHolds(f.(encodes := f.encodes.(swapGen := 0)), ev.complete); }
    }
  }

  lemma FrameHolds(e: Element, ev: Event)
    requires e.frame.swapping && UnderWay(Step(e, ev)) && (ev.Drop? || ev.ImgSettles? || ev.ImgStale?)
    ensures Step(e, ev).frame.swapping
  {}

  lemma UnderWayStep(e: Element, ev: Event)
    requires e.frame.swapping && UnderWay(e) && UnderWay(Step(e, ev))
    ensures Step(e, ev).frame.swapping
  {
    match ev
    case Connect(c) => RenderHolds(e.(connected := true), c);
    case Disconnect =>
    case Rerender(c) => RenderHolds(e, c);
    case StoreWrite(val, c) => if e.connected { RenderHolds(e.(content := e.content.(storeVal := val)), c); }
    case LocalWrite(_) =>
    case IdChange(hasId, val, c) => RenderHolds(e.(content := e.content.(hasId := hasId, storeVal := val)), c);
    case SrcWrite(src, c) => SrcHolds(e, src, c);
    case CreditWrite(credit, c) => RenderHolds(e.(content := e.content.(credit := credit)), c);
    case EncodeLands(_, _, _, _) => EncodeHolds(e, ev);
    case EncodeFails(_, _) => EncodeHolds(e, ev);
    case _ => FrameHolds(e, ev);
  }

  /** At every point of the run, its end included. */
  ghost predicate AlwaysUnderWay(e: Element, evs: seq<Event>) {
    UnderWay(Run(e, evs)) && (evs == [] || AlwaysUnderWay(e, evs[..|evs| - 1]))
  }

  /** The whole replacement, load included: from the drop or the source write until the new image has settled or the
      slot is emptied, the mask stays on, also where the encode hands over to the load. */
  lemma {:induction false} MaskHoldsUntilSettled(e: Element, evs: seq<Event>)
    requires e.frame.swapping && AlwaysUnderWay(e, evs)
    ensures Run(e, evs).frame.swapping
  {
    if evs != [] {
      var k := |evs| - 1;
      MaskHoldsUntilSettled(e, evs[..k]);
      StillUnderWay(e, evs[..k]);
      UnderWayStep(Run(e, evs[..k]), evs[k]);
    }
  }

  lemma StillUnderWay(e: Element, evs: seq<Event>)
    requires AlwaysUnderWay(e, evs)
    ensures UnderWay(Run(e, evs))
  {}

  // ---------------------------------------------------------------- what puts the mask on

  /** The frame holds an image. */
  predicate Showing(e: Element) {
    e.frame.filled && e.frame.imgSrc != ""
  }

  /** The event puts another image into the frame. */
  predicate Reframes(e: Element, ev: Event) {
    Step(e, ev).frame.imgSrc != "" && Step(e, ev).frame.imgSrc != e.frame.imgSrc
  }

  /** A mask or a source is only ever on a filled frame. */
  ghost predicate FrameInv(f: Frame) {
    (f.filled <==> f.imgSrc != "") && (f.swapping ==> f.filled) && (f.hidShowing ==> !f.filled)
  }

  predicate NewImage(f: Frame, t: Frame) {
    t.imgSrc != "" && t.imgSrc != f.imgSrc
  }

  /** How anything but a drop changes the frame. */
  ghost predicate Moves(f: Frame, t: Frame) {
    && (FrameInv(f) ==> FrameInv(t))
    && (NewImage(f, t) ==> t.filled && t.loadPending)
    && (NewImage(f, t) && (f.imgSrc != "" || f.hidShowing) ==> t.swapping)
    && (t.swapping ==> f.swapping || (NewImage(f, t) && (f.imgSrc != "" || f.hidShowing)))
  }

  lemma PaintMoves(f: Frame, url: string, attrError: bool, swapGen: nat, complete: bool)
    ensures Moves(f, Painted(f, url, attrError, swapGen, complete))
  {}

  lemma ReleaseMoves(f: Frame, t: Frame, swapGen: nat, settled: bool)
    requires Moves(f, t)
    ensures Moves(f, Released(t, swapGen, settled))
  {}

  lemma RenderMoves(e: Element, complete: bool)
    ensures Moves(e.frame, Rendered(e, complete).frame)
  {
    PaintMoves(e.frame, ShownUrl(e.content), AttrError(e.content), e.encodes.swapGen, complete);
  }

  lemma LandedMoves(e: Element, g: nat, url: string, saveThrows: bool, complete: bool)
    ensures Moves(e.frame, Landed(e, g, url, saveThrows, complete).frame)
  {
    var n := e.encodes.(swapGen := 0, landed := e.encodes.landed + [g]);
    var c := if e.content.hasId then e.content.(storeVal := url) else e.content.(local := url);
    var w := e.(content := c, encodes := n);
    RenderMoves(w, complete);
    var r := if !c.hasId || e.connected then Rendered(w, complete) else w;
    ReleaseMoves(e.frame, r.frame, 0, Complete(r.frame, complete));
  }

  lemma SrcMoves(e: Element, src: Option<Src>, complete: bool)
    ensures Moves(e.frame, Step(e, SrcWrite(src, complete)).frame)
  {
    RenderMoves(e, complete);
    RenderMoves(Bumped(e.(content := e.content.(src := src))), complete);
  }

  lemma EncodeMoves(e: Element, ev: Event)
    requires ev.EncodeLands? || ev.EncodeFails?
    ensures Moves(e.frame, Step(e, ev).frame)
  {
    if ev.g in e.encodes.pending && ev.g == e.encodes.gen {
      var f := e.(encodes := Forgotten(e.encodes, ev.g));
      if ev.EncodeLands? { LandedMoves(f, ev.g, ev.url, ev.saveThrows, ev.complete); }
    }
  }

  lemma StepMoves(e: Element, ev: Event)
    requires !ev.Drop?
    ensures Moves(e.frame, Step(e, ev).frame)
  {
    match ev
    case Connect(c) => RenderMoves(e.(connected := true), c);
    case Disconnect =>
    case Rerender(c) => RenderMoves(e, c);
    case StoreWrite(val, c) => RenderMoves(e.(content := e.content.(storeVal := val)), c);
    case LocalWrite(_) =>
    case IdChange(hasId, val, c) => RenderMoves(e.(content := e.content.(hasId := hasId, storeVal := val)), c);
    case SrcWrite(src, c) => SrcMoves(e, src, c);
    case CreditWrite(credit, c) => RenderMoves(e.(content := e.content.(credit := credit)), c);
    case Drop(_) =>
    case EncodeLands(_, _, _, _) => EncodeMoves(e, ev);
    case EncodeFails(_, _) => EncodeMoves(e, ev);
    case ImgSettles =>
    case ImgStale =>
  }

  lemma FrameStep(e: Element, ev: Event)
    requires FrameInv(e.frame)
    ensures FrameInv(Step(e, ev).frame)
  {
    if !ev.Drop? { StepMoves(e, ev); }
  }

  lemma {:induction false} RunFrames(e: Element, evs: seq<Event>)
    requires FrameInv(e.frame)
    ensures FrameInv(Run(e, evs).frame)
  {
    if evs != [] {
      RunFrames(e, evs[..|evs| - 1]);
      FrameStep(Run(e, evs[..|evs| - 1]), evs[|evs| - 1]);
    }
  }

  lemma ReframedIsUnderWay(e: Element, ev: Event)
    requires Showing(e) && Reframes(e, ev)
    ensures Step(e, ev).frame.swapping && UnderWay(Step(e, ev))
  {
    if !ev.Drop? { StepMoves(e, ev); }
  }

  /** Whatever puts another image in the place of a shown one, the old picture is covered from that moment until the
      new image has settled or the slot is emptied. */
  lemma ReplacedIsCovered(content: Content, before: seq<Event>, ev: Event, after: seq<Event>)
    requires var e := Run(Fresh(content), before); Showing(e) && Reframes(e, ev)
    requires AlwaysUnderWay(Step(Run(Fresh(content), before), ev), after)
    ensures UnderWay(Step(Run(Fresh(content), before), ev))
    ensures Run(Step(Run(Fresh(content), before), ev), after).frame.swapping
  {
    ReframedIsUnderWay(Run(Fresh(content), before), ev);
    MaskHoldsUntilSettled(Step(Run(Fresh(content), before), ev), after);
  }

  /** The mask comes on exactly when a drop is taken on a shown image, or another image is put in the place of one
      that is shown or was hidden for want of its credit a render ago: never on a first fill. */
  lemma MaskComesOnIff(content: Content, before: seq<Event>, ev: Event)
    requires !Run(Fresh(content), before).frame.swapping
    ensures var e := Run(Fresh(content), before);
            Step(e, ev).frame.swapping <==>
              (ev == Drop(true) && Showing(e)) || (Reframes(e, ev) && (Showing(e) || e.frame.hidShowing))
  {
    RunFrames(Fresh(content), before);
    MaskStepIff(Run(Fresh(content), before), ev);
  }

  lemma MaskStepIff(e: Element, ev: Event)
    requires FrameInv(e.frame) && !e.frame.swapping
    ensures Step(e, ev).frame.swapping <==>
              (ev == Drop(true) && Showing(e)) || (Reframes(e, ev) && (Showing(e) || e.frame.hidShowing))
  {
    if !ev.Drop? { StepMoves(e, ev); }
  }

  // ---------------------------------------------------------------- sources that need a credit

  predicate Uncredited(c: Content) {
    c.src.Some? && c.src.value.unsplash && !c.credit
  }

  ghost predicate NothingUncredited(c: Content, f: Frame) {
    Uncredited(c) ==> f.imgSrc == "" || IsDataImage(f.imgSrc)
  }

  lemma UncreditedRender(e: Element, complete: bool)
    ensures NothingUncredited(e.content, Rendered(e, complete).frame)
  {}

  lemma UncreditedStep(e: Element, ev: Event)
    requires NothingUncredited(e.content, e.frame)
    ensures var t := Step(e, ev); NothingUncredited(t.content, t.frame)
  {
    match ev
    case Connect(c) => UncreditedRender(e.(connected := true), c);
    case Rerender(c) => UncreditedRender(e, c);
    case StoreWrite(val, c) => UncreditedRender(e.(content := e.content.(storeVal := val)), c);
    case IdChange(hasId, val, c) => UncreditedRender(e.(content := e.content.(hasId := hasId, storeVal := val)), c);
    case SrcWrite(src, c) => UncreditedSrc(e, src, c);
    case CreditWrite(credit, c) => UncreditedRender(e.(content := e.content.(credit := credit)), c);
    case EncodeLands(_, _, _, _) => UncreditedLanding(e, ev);
    case _ =>
  }

  lemma UncreditedSrc(e: Element, src: Option<Src>, complete: bool)
    ensures var t := Step(e, SrcWrite(src, complete)); NothingUncredited(t.content, t.frame)
  {
    UncreditedRender(e, complete);
    UncreditedRender(Bumped(e.(content := e.content.(src := src))), complete);
  }

  lemma UncreditedLanding(e: Element, ev: Event)
    requires NothingUncredited(e.content, e.frame) && ev.EncodeLands?
    ensures var t := Step(e, ev); NothingUncredited(t.content, t.frame)
  {
    if ev.g in e.encodes.pending && ev.g == e.encodes.gen {
      var c := if e.content.hasId then e.content.(storeVal := ev.url) else e.content.(local := ev.url);
      var n := Forgotten(e.encodes, ev.g).(swapGen := 0, landed := e.encodes.landed + [ev.g]);
      UncreditedRender(e.(content := c, encodes := n), ev.complete);
    }
  }

  /** Over every run: while an Unsplash source has no credit nothing but the user's own image is in the frame. */
  lemma {:induction false} UncreditedNeverShows(content: Content, evs: seq<Event>)
    ensures var e := Run(Fresh(content), evs);
            Uncredited(e.content) ==> e.frame.imgSrc == "" || IsDataImage(e.frame.imgSrc)
  {
    if evs != [] {
      UncreditedNeverShows(content, evs[..|evs| - 1]);
      UncreditedStep(Run(Fresh(content), evs[..|evs| - 1]), evs[|evs| - 1]);
    }
  }

  /** The event paints the slot anew. */
  predicate Repaints(e: Element, ev: Event) {
    match ev
    case StoreWrite(_, _) => e.connected
    case EncodeLands(g, _, saveThrows, _) =>
      g in e.encodes.pending && g == e.encodes.gen && (e.connected || !e.content.hasId)
    case Connect(_) => true
    case Rerender(_) => true
    case IdChange(_, _, _) => true
    case SrcWrite(_, _) => true
    case CreditWrite(_, _) => true
    case _ => false
  }

  /** What the content asks for: the stored image if it is one, else the source, unless it comes from Unsplash and has no
      credit. */
  function Wanted(c: Content): string {
    var stored := if c.hasId then c.storeVal else c.local;
    match c.src
    case None => if IsDataImage(stored) then stored else ""
    case Some(src) => if IsDataImage(stored) then stored else if src.unsplash && !c.credit then "" else src.url
  }

  /** The frame holds just that. */
  predicate ShowsWanted(e: Element) {
    e.frame.imgSrc == Wanted(e.content) && (e.frame.filled <==> Wanted(e.content) != "")
  }

  lemma RenderedShowsWanted(e: Element, complete: bool)
    ensures ShowsWanted(Rendered(e, complete))
  {}

  /** Whatever paints the slot leaves in the frame what the content asks for; connecting is one such event, and the slot
      counts as connected from then on until it is disconnected. */
  lemma PaintingShowsWanted(e: Element, ev: Event)
    ensures Repaints(e, ev) ==> ShowsWanted(Step(e, ev))
    ensures Step(e, ev).connected == if ev.Connect? then true else if ev.Disconnect? then false else e.connected
  {
    match ev
    case Connect(c) => RenderedShowsWanted(e.(connected := true), c);
    case Rerender(c) => RenderedShowsWanted(e, c);
    case StoreWrite(val, c) => RenderedShowsWanted(e.(content := e.content.(storeVal := val)), c);
    case IdChange(hasId, val, c) => RenderedShowsWanted(e.(content := e.content.(hasId := hasId, storeVal := val)), c);
    case SrcWrite(src, c) =>
      RenderedShowsWanted(e, c);
      RenderedShowsWanted(Bumped(e.(content := e.content.(src := src))), c);
    case CreditWrite(credit, c) => RenderedShowsWanted(e.(content := e.content.(credit := credit)), c);
    case EncodeLands(_, _, _, _) => LandingShowsWanted(e, ev);
    case _ =>
  }

  lemma LandingShowsWanted(e: Element, ev: Event)
    requires ev.EncodeLands?
    ensures Repaints(e, ev) ==> ShowsWanted(Step(e, ev))
    ensures Step(e, ev).connected == e.connected
  {
    if ev.g in e.encodes.pending && ev.g == e.encodes.gen {
      var c := if e.content.hasId then e.content.(storeVal := ev.url) else e.content.(local := ev.url);
      var n := Forgotten(e.encodes, ev.g).(swapGen := 0, landed := e.encodes.landed + [ev.g]);
      RenderedShowsWanted(e.(content := c, encodes := n), ev.complete);
    }
  }

  /** The error tile is up. */
  predicate TileUp(e: Element) {
    AttrError(e.content) && e.frame.imgSrc == "" && !e.frame.swapping && !e.frame.filled
  }

  /** The tile stays up through the run. */
  ghost predicate TileStaysUp(e: Element, evs: seq<Event>) {
    TileUp(Run(e, evs)) && (evs == [] || TileStaysUp(e, evs[..|evs| - 1]))
  }

  /** Some event of the run paints. */
  ghost predicate Repainted(e: Element, evs: seq<Event>) {
    evs != [] && (Repainted(e, evs[..|evs| - 1]) || Repaints(Run(e, evs[..|evs| - 1]), evs[|evs| - 1]))
  }

  lemma TileStep(e: Element, ev: Event)
    requires TileUp(e) && TileUp(Step(e, ev))
    ensures Step(e, ev).frame.hidShowing <==> e.frame.hidShowing && !Repaints(e, ev)
  {}

  lemma {:induction false} WipeIsRememberedIff(e: Element, evs: seq<Event>)
    requires e.frame.hidShowing && TileStaysUp(e, evs)
    ensures TileUp(Run(e, evs))
    ensures Run(e, evs).frame.hidShowing <==> !Repainted(e, evs)
  {
    if evs != [] {
      WipeIsRememberedIff(e, evs[..|evs| - 1]);
      TileStep(Run(e, evs[..|evs| - 1]), evs[|evs| - 1]);
    }
  }

  /** Picking an Unsplash photo over a shown image writes the source first and the credit after. The photo comes in
      under the mask exactly when nothing has painted the tile again in between; otherwise as into an empty slot. */
  lemma PickIsCoveredIff(e: Element, photo: Src, c: bool, between: seq<Event>, d: bool)
    requires Showing(e) && !e.content.credit && UserUrl(e.content) == "" && photo.unsplash && photo.url != ""
    requires TileStaysUp(Step(e, SrcWrite(Some(photo), c)), between)
    requires Run(Step(e, SrcWrite(Some(photo), c)), between).content.src == Some(photo)
    ensures var u := Step(Run(Step(e, SrcWrite(Some(photo), c)), between), CreditWrite(true, d));
            && u.frame.imgSrc == photo.url && u.frame.filled
            && (u.frame.swapping <==> !Repainted(Step(e, SrcWrite(Some(photo), c)), between))
  {
    var t := Step(e, SrcWrite(Some(photo), c));
    WipeIsRememberedIff(t, between);
  }

  /** Dropping on a shown image puts the mask on and starts such a stretch. */
  lemma DropStartsReplacing(e: Element)
    requires e.frame.filled
    ensures var t := Step(e, Drop(true)); t.frame.swapping && Replacing(t) && t.encodes.gen in t.encodes.pending
  {}

  /** A disconnected slot is not told of store writes: an encode landing meanwhile leaves its mask on, with
      nothing outstanding, until the render of the next connect. */
  lemma DisconnectedMaskCanStay(a: string, b: string)
    requires IsDataImage(a)
    ensures var e0 := Fresh(Content(None, false, true, a, ""));
            var e := Step(Step(Step(Step(Step(e0, Connect(false)), ImgSettles), Drop(true)), Disconnect), EncodeLands(1, b, false, false));
            !e.connected && e.encodes.pending == {} && !e.frame.loadOutstanding && e.frame.swapping
  {
    var e0 := Fresh(Content(None, false, true, a, ""));
    var e1 := Step(e0, Connect(false));
    assert e1.frame == Frame(false, true, a, true, false, true);
    var e2 := Step(e1, ImgSettles);
    var e3 := Step(e2, Drop(true));
    assert e3.encodes == Encodes(1, 1, {1}, []) && e3.frame == Frame(true, true, a, false, false, false);
  }

  // ---------------------------------------------------------------- exactly when the mask is stranded

  /** Masked, with neither an encode nor an image load to take the mask off. */
  predicate Stranded(e: Element) {
    e.frame.swapping && e.encodes.gen !in e.encodes.pending && !e.frame.loadOutstanding
  }

  /** The current encode lands, without a throw, on a masked slot that has an id and is not told of it. */
  predicate Strands(e: Element, ev: Event) {
    && ev.EncodeLands? && ev.g == e.encodes.gen && ev.g in e.encodes.pending && !ev.saveThrows
    && !e.connected && e.content.hasId && e.frame.swapping && !e.frame.loadOutstanding
  }

  /** A render, a drop or a late image event takes the mask off, or gives it something to wait for. */
  predicate Frees(ev: Event) {
    ev.Connect? || ev.Rerender? || ev.IdChange? || ev.SrcWrite? || ev.CreditWrite? || ev.ImgStale? || (ev.Drop? && ev.accepted)
  }

  lemma EncodeStrands(e: Element, ev: Event)
    requires Inv(e) && !Stranded(e) && ev.EncodeLands?
    ensures Stranded(Step(e, ev)) <==> Strands(e, ev)
  {}

  lemma RenderDoesNotStrand(e: Element, complete: bool)
    requires Tidy(e.encodes) && (e.frame.loadPending ==> e.frame.loadOutstanding)
    ensures !Stranded(Rendered(e, complete))
  {
    PaintBacks(e.frame, ShownUrl(e.content), AttrError(e.content), e.encodes.swapGen, complete);
  }

  lemma SrcDoesNotStrand(e: Element, src: Option<Src>, complete: bool)
    requires Inv(e)
    ensures !Stranded(Step(e, SrcWrite(src, complete)))
  {
    RenderDoesNotStrand(e, complete);
    RenderDoesNotStrand(Bumped(e.(content := e.content.(src := src))), complete);
  }

  lemma FrameEventsDoNotStrand(e: Element, ev: Event)
    requires Inv(e) && !Stranded(e) && (ev.Drop? || ev.EncodeFails? || ev.ImgSettles? || ev.ImgStale?)
    ensures !Stranded(Step(e, ev))
  {}

  lemma OthersDoNotStrand(e: Element, ev: Event)
    requires Inv(e) && !Stranded(e) && !ev.EncodeLands?
    ensures !Stranded(Step(e, ev))
  {
    match ev
    case Connect(c) => RenderDoesNotStrand(e.(connected := true), c);
    case Disconnect =>
    case Rerender(c) => RenderDoesNotStrand(e, c);
    case StoreWrite(val, c) => RenderDoesNotStrand(e.(content := e.content.(storeVal := val)), c);
    case LocalWrite(_) =>
    case IdChange(hasId, val, c) => RenderDoesNotStrand(e.(content := e.content.(hasId := hasId, storeVal := val)), c);
    case SrcWrite(src, c) => SrcDoesNotStrand(e, src, c);
    case CreditWrite(credit, c) => RenderDoesNotStrand(e.(content := e.content.(credit := credit)), c);
    case _ => FrameEventsDoNotStrand(e, ev);
  }

  lemma StrandingStep(e: Element, ev: Event)
    requires Inv(e) && !Stranded(e)
    ensures Stranded(Step(e, ev)) <==> Strands(e, ev)
  {
    if ev.EncodeLands? { EncodeStrands(e, ev); } else { OthersDoNotStrand(e, ev); }
  }

  lemma FreeingStep(e: Element, ev: Event)
    requires Inv(e) && Stranded(e)
    ensures Stranded(Step(e, ev)) <==> !Frees(ev)
    ensures !Strands(e, ev)
  {}

  /** Event `n` of the run strands the mask, and none after it frees it. */
  ghost predicate StrandedAt(e: Element, evs: seq<Event>, n: nat) {
    n < |evs| && Strands(Run(e, evs[..n]), evs[n]) && forall m :: n < m < |evs| ==> !Frees(evs[m])
  }

  lemma StrandedInPrefix(e: Element, evs: seq<Event>, before: seq<Event>, k: nat)
    requires k + 1 == |evs| && before == evs[..k]
    ensures (exists n :: StrandedAt(e, evs, n)) <==>
            ((exists n :: StrandedAt(e, before, n)) && !Frees(evs[k])) || Strands(Run(e, before), evs[k])
  {
    forall n: nat | n < k ensures StrandedAt(e, evs, n) <==> StrandedAt(e, before, n) && !Frees(evs[k]) {
      assert before[..n] == evs[..n];
      assert forall m :: 0 <= m < k ==> before[m] == evs[m];
    }
    assert StrandedAt(e, evs, k) <==> Strands(Run(e, before), evs[k]);
  }

  /** Over every run the mask is stranded exactly when the current encode landed on a masked, disconnected slot
      with an id, no load outstanding, and nothing has rendered the slot, dropped on it or settled its image since. */
  lemma {:induction false} StrandedIff(content: Content, evs: seq<Event>)
    ensures Stranded(Run(Fresh(content), evs)) <==> exists n :: StrandedAt(Fresh(content), evs, n)
  {
    if evs != [] {
      var k := |evs| - 1;
      var e := Run(Fresh(content), evs[..k]);
      StrandedInPrefix(Fresh(content), evs, evs[..k], k);
      StrandedIff(content, evs[..k]);
      RunKeeps(Fresh(content), evs[..k]);
      if Stranded(e) { FreeingStep(e, evs[k]); } else { StrandingStep(e, evs[k]); }
    }
  }
}
