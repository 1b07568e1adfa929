/** The element as the custom-element class keeps it: fields and attributes updated in place by listeners,
    each method proved to take the step of ImageSlotMask. */
module ImageSlotElement {
  import opened Options
  import opened ImageSlotMask

  class ImageSlot {
    var gen: nat
    var swapGen: nat
    var loadPending: bool
    var hidShowing: bool
    // attributes and the inner image's src
    var swapping: bool
    var filled: bool
    var imgSrc: string
    var content: Content
    var connected: bool
    // loadOutstanding is what img.complete reports on; the rest is the encoder's state
    var loadOutstanding: bool
    ghost var pending: set<nat>
    ghost var landed: seq<nat>

    ghost function Model(): Element
      reads this
    {
      Element(content, Encodes(gen, swapGen, pending, landed),
              FrameNow(), connected)
    }

    ghost function FrameNow(): Frame
      reads this`swapping, this`filled, this`imgSrc, this`loadPending, this`hidShowing, this`loadOutstanding
    {
      Frame(swapping, filled, imgSrc, loadPending, hidShowing, loadOutstanding)
    }

    constructor (content: Content)
      ensures Model() == Fresh(content)
    {
      this.content := content;
      gen, swapGen, loadPending, hidShowing := 0, 0, false, false;
      swapping, filled, imgSrc, connected := false, false, "", false;
      loadOutstanding, pending, landed := false, {}, [];
    }

    /** `settled` is what the event says, or img.complete. */
    method ReleaseMask(settled: bool)
      modifies this`swapping
      ensures FrameNow() == Released(old(FrameNow()), swapGen, settled)
    {
      if swapGen == 0 && !loadPending && settled { swapping := false; }
    }

    /** The two branches of a render: `complete` is img.complete, true whenever no load is outstanding. */
    method Paint(url: string, attrError: bool, complete: bool)
      requires !loadOutstanding ==> complete
      modifies this`swapping, this`filled, this`imgSrc, this`loadPending, this`hidShowing, this`loadOutstanding
      ensures FrameNow() == Painted(old(FrameNow()), url, attrError, swapGen, complete)
    {
      if url != "" {
        if imgSrc != url {
          if imgSrc != "" || hidShowing { swapping := true; }
          loadPending := true;
          imgSrc, loadOutstanding := url, true;
        } else {
          ReleaseMask(complete);
        }
        hidShowing := false;
        filled := true;
      } else {
        swapping := false;
        loadPending := false;
        hidShowing := attrError && imgSrc != "";
        imgSrc, loadOutstanding := "", false;
        filled := false;
      }
    }

    method Render(complete: bool)
      requires !loadOutstanding ==> complete
      modifies this`swapping, this`filled, this`imgSrc, this`loadPending, this`hidShowing, this`loadOutstanding
      ensures Model() == Rendered(old(Model()), complete)
    {
      var stored := if content.hasId then content.storeVal else content.local;
      var userUrl := if IsDataImage(stored) then stored else "";
      var srcAttr := if content.src.Some? then content.src.value.url else "";
      var url := if userUrl != "" then userUrl else srcAttr;
      var attrError := !content.credit && userUrl == "" && srcAttr != "" && content.src.value.unsplash;
      Paint(if attrError then "" else url, attrError, complete);
    }

    method ConnectedCallback(complete: bool)
      requires !loadOutstanding ==> complete
      modifies this
      ensures Model() == Step(old(Model()), Connect(complete))
    {
      connected := true;
      Render(complete);
    }

    method DisconnectedCallback()
      modifies this`connected
      ensures Model() == Step(old(Model()), Disconnect)
    {
      connected := false;
    }

    method SrcChanged(src: Option<Src>, complete: bool)
      requires !loadOutstanding ==> complete
      modifies this
      ensures Model() == Step(old(Model()), SrcWrite(src, complete))
    {
      var was := content.src;
      content := content.(src := src);
      if was != src {
        gen := gen + 1;
        swapGen := 0;
      }
      Render(complete);
    }

    /** The part of `_ingest` before the await. */
    method IngestStarts(accepted: bool) returns (g: nat)
      modifies this`gen, this`swapGen, this`swapping, this`pending
      ensures Model() == Step(old(Model()), Drop(accepted))
      ensures accepted ==> g == gen
    {
      g := gen;
      if !accepted { return; }
      gen := gen + 1;
      g := gen;
      pending := pending + {g};
      if filled {
        swapping := true;
        swapGen := g;
      }
    }

    /** The part of `_ingest` after the await; setSlot renders every connected slot before it saves. */
    method IngestLands(g: nat, url: string, saveThrows: bool, complete: bool)
      requires g in pending && (!loadOutstanding ==> complete)
      modifies this
      ensures Model() == Step(old(Model()), EncodeLands(g, url, saveThrows, complete || !loadOutstanding))
    {
      pending := pending - {g};
      if g != gen { return; }
      SlotIsSet(g, url, saveThrows, complete);
    }

    /** The current encode's value is set, in the store or in the element itself. */
    method SlotIsSet(g: nat, url: string, saveThrows: bool, complete: bool)
      requires !loadOutstanding ==> complete
      modifies this
      ensures Model() == Landed(old(Model()), g, url, saveThrows, complete || !loadOutstanding)
    {
      swapGen := 0;
      landed := landed + [g];
      if content.hasId {
        content := content.(storeVal := url);
        if connected { Render(complete); }
        if saveThrows {
          swapGen := 0;
          ReleaseMask(complete || !loadOutstanding);
        }
      } else {
        content := content.(local := url);
        Render(complete);
      }
    }

    /** The catch block of `_ingest`. */
    method IngestFails(g: nat, complete: bool)
      requires g in pending && (!loadOutstanding ==> complete)
      modifies this
      ensures Model() == Step(old(Model()), EncodeFails(g, complete))
    {
      pending := pending - {g};
      if g != gen { return; }
      swapGen := 0;
      ReleaseMask(complete);
    }

    /** The load and error listeners. */
    method ImageSettles()
      requires loadOutstanding
      modifies this
      ensures Model() == Step(old(Model()), ImgSettles)
    {
      loadOutstanding := false;
      loadPending := false;
      ReleaseMask(true);
    }
  }
}
