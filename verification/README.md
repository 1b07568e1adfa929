# LyniaGo: a verified model

This project models the parts of LyniaGo whose correctness rests on interleavings, scanning or exact arithmetic,
and proves what they promise:

- **dc-runtime** (`ExprResolver`, `ExprTrees`, `ExprChains`, `ExprSyntax`, `CssLexemes`, `CssScanner`, `CssDeclarations`,
  `CssTrees`, `DeckKeys`): the `{{ }}` expression resolver against expression trees, the hand-written CSS scanners against
  trees of style text, and React keys for the children of a deck.
- **image slots** (`ImageSlotStore`, `ImageSlotSidecar`, `ImageSlotMask`, `ImageSlotElement`): the sidecar store
  whose one read races sets and clears behind a serialised writer, and the element whose replacement mask depends
  on encodes, renders and image events.
- **client delivery** (`SendReplay`, `SendGuards`, `SendScreen`, `OtpVerify`, `OtpScreen`, `UuidSeed`): replay of an
  idempotency key over lost answers, edits, double taps and kills; the code screen that submits by itself; the id of an order.
- **canonical forms and geometry** (`Countries`, `Phone`, `PhoneForms`, `ServiceArea`): phone numbers over arbitrary
  spellings and any prefix-free code table; ray casting and nearest border over any closed polygon.
- **ranking, money, calendar** (`OfferRanking`, `Money`, `DeliveryCeiling`, `RestaurantsOrder`, `RestaurantHours`).

Protocols are state machines: a total `Step` over events, `Run` over any sequence of them, an invariant kept by every
step, and theorems about every run. Beside each machine stands a class with the fields the program updates; each of
its methods is proved to take the step of the machine. Scanners and loops are methods proved against recursive
definitions, about which the theorems are stated. `dafny verify dfyconfig.toml` checks everything.

## Assumptions

- **Resolver.** Member access, the equalities, `!` and number parsing are arbitrary functions (`Host`); `JsHost` are those
  that give booleans where JavaScript does.
- **Image slots.** `window.omelette.writeFile` may be absent, present, or throw as it is called. `img.complete` is true
  whenever no load is outstanding; while one is, it may still describe the request before.
- **Send.** A 2xx names the order made under the key. A 4xx other than a refusal of the account means that no order
  exists under the key and that no send begun under it before makes one; any other failure means nothing. Storage
  operations succeed and take effect in order. In a careful run every tap is on a screen that has read its draft, and
  either sends a key whose order the app was told of, or a key that goes to disk (or is there to stay) while no
  outstanding attempt carries another; and a relaunch that finds the key of an order nobody was told of finds it within
  its lifetime. The code enforces neither. Both conditions are exact (`SendGuards.TapIsSafeIff`,
  `SendGuards.RelaunchIsSafeIff`).
- **Code screen.** Refs change at once, state at the next commit, the effect of one commit runs before the next.
- **Money and geometry.** Dollars, scores and coordinates are exact reals; cents are integers; the longitude scale is
  any real number.

## Where the code and its documentation differ

The model follows the code.

- Chained equalities associate to the right, where JavaScript reads them to the left: exactly the trees without a chain
  keep their meaning (`ExprChains.KeepsMeaningIffUnchained`), and `2==2==true` does not (`ExprChains.ChainChangesMeaning`).
- The scanner for operators does not know quotes: a string literal with a top-level `==` or `!=` is cut in two
  (`ExprTrees.StringLiteralExactly`).
- A `writeFile` that throws synchronously stops all later saves (`ImageSlotStore.ThrowingBridgeSilencesSave`,
  exactly then: `ImageSlotStore.StuckIffThrown`).
- A photo picked over a shown image comes in as into an empty slot, without the mask, if anything renders the slot between
  the writes of its source and its credit (`ImageSlotMask.PickIsCoveredIff`).
- A slot that is disconnected while its encode runs can keep its mask until it is connected again
  (`ImageSlotMask.StrandedIff`).
- A double tap can free the key of a later send (`SendReplay.LateRefusalOpensTwoOrders`, exactly when:
  `SendGuards.TapIsSafeIff`).
- A rejection that lands after the digits were edited puts the danger line under other digits
  (`OtpVerify.LineTellsIff`, `OtpVerify.LineCanMislead`).
- A digit deleted and typed again after a non-answer, both before one commit, leaves the complete code unsent
  (`OtpVerify.ResendCanBeLost`, exactly when: `OtpVerify.LatestTriedIff`).
- Normalising is not idempotent after a doubled trunk 0 (`PhoneForms.FormsReadBackIff`, `PhoneForms.DoubledTrunk`).
- The next opening of a venue closed by hand is missed when it has no hours at all, or only today's weekday has a
  window and that has begun (`RestaurantHours.HandCloseNextOpeningIff`).

## Model

| member | source | states |
|---|---|---|
| ExprTrees.TextMeansItsTree | packages/design/support.js:205-294 | interpreter correctness: the printed text of every writable tree resolves to the value of the tree, for every binding and whatever the host operators compute |
| ExprTrees.PathMeansItsTree | packages/design/support.js:263-294 | walking the text of a dotted or bracketed path, followed by more path, reads the value of its tree and goes on from there |
| ExprTrees.StringLiteralExactly | packages/design/support.js:205-262 | with operators that give booleans, a string literal resolves to its own body exactly when no top-level equality shows in its text, quotes notwithstanding |
| ExprTrees.StringLiteralCanSplit | packages/design/support.js:211-225 | the literal 'a==b' is read as a comparison of two broken halves |
| ExprTrees.ChainedEqualityIsRightAssociative | packages/design/support.js:211-225 | the value of a chain of two: a==b==c resolves as a==(b==c), for all operands and operators |
| ExprChains.ChainsAreReadToTheRight | packages/design/support.js:211-225 | the text of every tree, chains at any depth included, resolves to the value of the tree in which each chain hangs to the right of its first operator |
| ExprChains.KeepsMeaningIffUnchained | packages/design/support.js:211-225 | a text keeps the meaning of its tree, whatever the operators compute, exactly when no equality has an unparenthesised equality as its left operand |
| ExprChains.ReadsItsOwnTreeIff | packages/design/support.js:211-225 | the tree read is the tree written exactly when it has no chain |
| ExprChains.ChainChangesMeaning | packages/design/support.js:211-225 | 2==2==true is true as JavaScript reads it, and resolves to false |
| ExprChains.OddChainsChangeMeaning | packages/design/support.js:211-225 | among operators that give booleans, too, some change the value of every tree in which an odd number of chained operators follow an operand that is not a boolean, so of every tree with a single such chain at any depth |
| ExprChains.LuckCanHideAChain | packages/design/support.js:211-225 | the limit of that: true==((true==true==true)==true) has a chain and keeps its meaning under all operators that give booleans |
| ExprSyntax.KeywordsResolve | packages/design/support.js:226-229 | the texts true, false, null and undefined, whatever the whitespace around them, resolve to those four values |
| ExprSyntax.NamesResolve | packages/design/support.js:263-268 | every other identifier reads its binding, and nothing where the binding is null or undefined |
| ExprSyntax.NameIff | packages/design/support.js:203 | an identifier is a letter, _ or $ and then letters, digits, _ and $, character by character |
| ExprSyntax.NumberIff | packages/design/support.js:204 | a number is an optional minus, digits, and maybe a point and digits, as parts of the text |
| ExprSyntax.NumbersResolve | packages/design/support.js:230 | every text spelled as a number is read as one |
| ExprSyntax.OperatorsResolve | packages/design/support.js:211-225 | ===, !==, == and != between two operands are those four comparisons of their values |
| ExprSyntax.FoundEqualityIs | packages/design/support.js:248-262 | the operator found stands where it is found, is no tail of another one, has something before it and is outside all brackets |
| ExprTrees.SpellShaped | packages/design/support.js:237-262 | the printed text of every writable tree is balanced in both kinds of bracket and shows no operator where it is not one |
| ExprResolver.Resolve | packages/design/support.js:205-236 | the scanning interpreter computes the resolved value; every recursive call is on a strictly shorter text, so it terminates on all texts |
| ExprResolver.ResolvePath | packages/design/support.js:263-294 | the path walk computes the value of the path, Undefined for every malformed one |
| ExprResolver.ParensWrapWhole | packages/design/support.js:237-247 | true exactly when the bracket depth never returns to zero before the last character |
| ExprResolver.FindTopLevelEquality | packages/design/support.js:248-262 | the leftmost equality operator outside brackets that has something before it, or none if there is none |
| ExprResolver.FindClose | packages/design/support.js:276-287 | the position of the matching closing bracket, or none when it is missing |
| ExprResolver.ScanPart | packages/design/support.js:270-292 | what the next step of a path is and where the one after it starts |
| CssScanner.ScanUnquotedUrl | packages/design/support.js:1500-1512 | the end of the unquoted url token at a position, escapes and an unterminated one included, or -1 where no token starts |
| CssScanner.StripComments | packages/design/support.js:1513-1543 | the loop computes the lexeme-by-lexeme stripping of the whole text |
| CssScanner.StrippedHasNoComments | packages/design/support.js:1513-1543 | what is left, read from the same place, holds no comment outside strings and url tokens |
| CssScanner.StripIsIdempotent | packages/design/support.js:1513-1543 | stripping twice is stripping once, on every text, unterminated or not |
| CssTrees.StripTree | packages/design/support.js:1513-1543 | in the text of any tree of characters, strings, url tokens, comments and nested parentheses, whatever follows, stripping turns each comment into a space and keeps the rest |
| CssDeclarations.CutDeclarations | packages/design/support.js:1544-1566 | the loop cuts a comment-free text at exactly its top-level semicolons |
| CssTrees.TreesAreCutApart | packages/design/support.js:1544-1566 | declarations written as such trees, their semicolons in strings, url tokens, comments and parentheses only, and joined with ; are cut into themselves |
| CssDeclarations.PiecesRejoin | packages/design/support.js:1544-1566 | before trimming, the pieces rejoin with ; to exactly the text that was cut |
| CssDeclarations.JoinThenCut | packages/design/support.js:1544-1567 | cutting the join of declarations that each close their own strings and brackets gives those declarations back |
| CssDeclarations.OutputReadsBack | packages/design/support.js:1544-1567 | no declaration is lost, reordered or split: the output is cut into exactly the trimmed, non-blank declarations of the stripped text, in order, each as it was if it ends in the mark and otherwise with " !important" added; without any the output is empty |
| CssDeclarations.MarkIff | packages/design/support.js:1567 | a declaration is left alone exactly when it ends in an exclamation mark, whitespace and the word important in any case; otherwise " !important" is added |
| CssDeclarations.ImportantifyIsIdempotent | packages/design/support.js:1544-1567 | a second pass changes nothing, on every text |
| CssDeclarations.Importantify | packages/design/support.js:1544-1567 | the method computes the marked declarations of the stripped text, joined |
| DeckKeys.UpcomingIds | packages/design/support.js:499-510 | the backward pass: every child gets what the next element at or after it offers as a slide id |
| DeckKeys.WalkDeckChildren | packages/design/support.js:493-542 | keys are returned exactly when no child refuses them, and child by child they are the closed-form keys |
| DeckKeys.AcceptedIff | packages/design/support.js:493-542 | a deck is keyed exactly when every child is blank text, auxiliary, no element, or a slide with an id of eight hex digits, and no two slides share an id |
| DeckKeys.KeysAreDistinct | packages/design/support.js:493-542 | whenever keys are returned no two children share one, even compared as the strings React makes of them |
| DeckKeys.PairKeepsItsKeys | packages/design/support.js:512-541 | a slide and the whitespace between it and an element (or the start) are keyed by the slide id alone, whatever comes before and after the three |
| ImageSlotStore.WriterIsSerial | packages/design/assets/image-slot.js:203-230 | over every run: never two save writes outstanding, no write before the read has settled, never more save writes than setSlot calls |
| ImageSlotStore.NothingWrittenBeforeTheRead | packages/design/assets/image-slot.js:216-252 | until the read settles neither save nor flush issues anything |
| ImageSlotStore.QuietIsSaved | packages/design/assets/image-slot.js:222-252 | once all is quiet after at least one call, and the last save that asked for the bridge found it, the last snapshot issued equals the slots, whatever earlier saves found |
| ImageSlotStore.QuietHasAsked | packages/design/assets/image-slot.js:222-252 | and by then some save has asked for the bridge, however the calls and the read fell |
| ImageSlotStore.ThrowingBridgeSilencesSave | packages/design/assets/image-slot.js:222-230 | a bridge that throws as it is called leaves saving set with nothing outstanding; from then on no run issues another save write |
| ImageSlotStore.StuckIffThrown | packages/design/assets/image-slot.js:222-252 | a run ends stuck exactly when some save of it got as far as asking the bridge to write, and it threw |
| ImageSlotStore.ThrowingBridgeIsReachable | packages/design/assets/image-slot.js:222-230 | one setSlot call is enough to get there, and its change is never written |
| ImageSlotStore.HydrationIsRaceFree | packages/design/assets/image-slot.js:172-197 | for every interleaving before a readable sidecar lands each id ends with its last in-memory value (image filled in if it had none), absent if last cleared, else as the sidecar has it |
| ImageSlotStore.LastWordStands | packages/design/assets/image-slot.js:243-252 | once the read has settled, over every run the last set or clear of an id stands, and ids without one stay as they were |
| ImageSlotStore.HydratedReads | packages/design/assets/image-slot.js:237-242 | an id never touched reads as its sidecar value says: nothing for null or the empty string, a bare URL in full and centred, an object as it is |
| ImageSlotStore.UnreadableKeepsMemory | packages/design/assets/image-slot.js:172-197 | an unreadable sidecar leaves exactly what was set in memory |
| ImageSlotSidecar.Sidecar.Load | packages/design/assets/image-slot.js:172-175 | the read is started once |
| ImageSlotSidecar.Sidecar.ReadLands | packages/design/assets/image-slot.js:176-197 | the merge loop takes the protocol step, id by id |
| ImageSlotSidecar.Sidecar.SetSlot | packages/design/assets/image-slot.js:243-252 | set or clear in memory, then a save now or after the read |
| ImageSlotSidecar.Sidecar.Save | packages/design/assets/image-slot.js:222-230 | at most one write is issued, a request in mid-flight only marks dirty |
| ImageSlotSidecar.Sidecar.WriteSettles | packages/design/assets/image-slot.js:226-229 | a dirty store is written again as it is then |
| ImageSlotSidecar.Sidecar.FlushNow | packages/design/assets/image-slot.js:216-221 | a flush issues the present slots and never before the read |
| ImageSlotSidecar.Sidecar.GetSlot | packages/design/assets/image-slot.js:237-242 | either stored shape reads as one normal form |
| ImageSlotSidecar.Sidecar.CloneSlot | packages/design/assets/image-slot.js:457-487 | the copy goes to the first mintable id, or nowhere |
| ImageSlotSidecar.CloneCopiesWithoutClobbering | packages/design/assets/image-slot.js:457-487 | a minted id was new, or already held this image and nothing changes; afterwards it reads as the original and nothing else has changed |
| ImageSlotSidecar.MintedIsFirst | packages/design/assets/image-slot.js:457-487 | the id minted is the first to be had of the stem with -2 to -99 |
| ImageSlotSidecar.NothingMintedIff | packages/design/assets/image-slot.js:457-487 | nothing is minted exactly when none of these 98 is to be had |
| ImageSlotSidecar.StemOfNumbered | packages/design/assets/image-slot.js:464 | the stem of an id that ends in a hyphen and digits is what stands before them |
| ImageSlotSidecar.StemOfOther | packages/design/assets/image-slot.js:464 | any other id is its own stem |
| ImageSlotMask.MaskIsNeverStranded | packages/design/assets/image-slot.js:603-611 | in every reachable state of a connected slot with no encode of its generation and no image load outstanding the mask is off |
| ImageSlotMask.OvertakenNeverLands | packages/design/assets/image-slot.js:847-853 | an encode overtaken by a later drop or a source change never reaches the store, however the run goes on |
| ImageSlotMask.LandsIffNotOvertaken | packages/design/assets/image-slot.js:891-911 | over runs, an encode that was current and is still pending is stored when it lands exactly when no drop or source change has come in between |
| ImageSlotMask.LandedStaysShown | packages/design/assets/image-slot.js:901-911 | what lands in a slot that is told of it stays in the frame, through every render, source and credit write, until the store, the id or a later encode says otherwise |
| ImageSlotMask.MaskHoldsDuringEncode | packages/design/assets/image-slot.js:879-900 | while a replacement is pending on a filled slot no render, store write or image event uncovers the old picture |
| ImageSlotMask.MaskHoldsUntilSettled | packages/design/assets/image-slot.js:959-967 | over runs, the handover from encode to load included: the mask stays on until the new image has settled or the slot is emptied |
| ImageSlotMask.ReplacedIsCovered | packages/design/assets/image-slot.js:1116-1136 | whatever event puts another image in the place of a shown one, in any run, the old picture is covered from then until the new image has settled or the slot is emptied |
| ImageSlotMask.MaskComesOnIff | packages/design/assets/image-slot.js:1116-1136 | the mask comes on exactly when a drop is taken on a shown image, or another image replaces one shown or hidden a render ago for want of its credit; never on a first fill |
| ImageSlotMask.PaintingShowsWanted | packages/design/assets/image-slot.js:1088-1172 | whatever paints the slot leaves in the frame the stored image if it is one, else the source unless it lacks its credit; a slot is connected from connecting to disconnecting |
| ImageSlotMask.UncreditedNeverShows | packages/design/assets/image-slot.js:1107-1116 | over every run: while an Unsplash source has no credit, only the user's own image can be in the frame |
| ImageSlotMask.PickIsCoveredIff | packages/design/assets/image-slot.js:1137-1160 | a photo picked over a shown image, source first and credit after, comes in under the mask exactly when nothing has painted the error tile again in between |
| ImageSlotMask.DataImageIff | packages/design/assets/image-slot.js:1095 | a stored image counts exactly when its first eleven characters are data:image/ in any case |
| ImageSlotMask.DropStartsReplacing | packages/design/assets/image-slot.js:895-898 | a drop on a shown image puts the mask on and starts such a stretch |
| ImageSlotMask.StrandedIff | packages/design/assets/image-slot.js:730-741 | over every run the mask is left on with nothing to take it off exactly when the current encode landed on a masked, disconnected slot with an id and no load outstanding, and nothing has rendered the slot, dropped on it or settled its image since |
| ImageSlotMask.DisconnectedMaskCanStay | packages/design/assets/image-slot.js:730-741 | a concrete run that ends so |
| ImageSlotElement.ImageSlot.Paint | packages/design/assets/image-slot.js:1116-1166 | the content half of a render: new source, same source, nothing to show |
| ImageSlotElement.ImageSlot.Render | packages/design/assets/image-slot.js:1088-1172 | what is shown is the stored data image, else the source unless it lacks its credit |
| ImageSlotElement.ImageSlot.ReleaseMask | packages/design/assets/image-slot.js:959-967 | the mask comes off only with no encode pending, no load pending and a settled image |
| ImageSlotElement.ImageSlot.SrcChanged | packages/design/assets/image-slot.js:847-853 | a changed source bumps the generation and gives up the pending claim on the mask |
| ImageSlotElement.ImageSlot.IngestStarts | packages/design/assets/image-slot.js:879-898 | an accepted drop takes a new generation and masks a shown image |
| ImageSlotElement.ImageSlot.IngestLands | packages/design/assets/image-slot.js:899-914 | a stale encode bails out; a current one is stored and shown |
| ImageSlotElement.ImageSlot.IngestFails | packages/design/assets/image-slot.js:915-926 | a failed current encode releases the mask if nothing else holds it |
| ImageSlotElement.ImageSlot.ImageSettles | packages/design/assets/image-slot.js:603-611 | load and error settle the frame |
| SendReplay.AtMostOneUntoldOrder | apps/mobile/app/send.tsx:525-604 | over any careful run of edits, double taps, lost answers and kills (see Assumptions) there are never two orders that the app was not told of |
| SendReplay.OneKeyBetweenAnswers | apps/mobile/app/send.tsx:138-143 | all requests sent since the last definitive answer, under keys not answered yet, carry one key, and it is on disk |
| SendReplay.KeyOnDiskBeforeRequest | apps/mobile/app/send.tsx:552-560 | when a request of an unsettled send leaves, its key is on disk and no queued write will take it off |
| SendReplay.AnswersSettleEverything | apps/mobile/app/send.tsx:560-596 | after a definitive answer no order is unknown to the app and no request can still make one under a key it was not told of |
| SendReplay.EditedSendReplays | apps/mobile/app/send.tsx:528-530 | as long as an order may exist the next tap replays its key, edits or not |
| SendReplay.KilledAppReplays | apps/mobile/app/send.tsx:200-220 | a kill at any moment: a relaunch within the lifetime of the key replays the key of whatever order may exist |
| SendReplay.TapWaitsForDiskIff | apps/mobile/app/send.tsx:505-509 | a tap waits for its key to be on disk exactly when the screen writes drafts, or the key was there to stay already |
| SendReplay.RelaunchKeepsKeyIffLive | apps/mobile/src/logic/send-draft.ts:92-119 | a relaunch keeps the key exactly when the draft is of this account, a day old at most, and the key at most ten minutes (a minute of clock skew allowed) |
| SendReplay.OnlyARefusalFreesTheKey | apps/mobile/app/send.tsx:590-596 | a 4xx that is no refusal of the account drops the key; any other failure leaves refs and draft as they were |
| SendGuards.FreeingIsSafeIff | apps/mobile/src/logic/send-steps.ts:122-134 | dropping the key on a failure is safe for every careful continuation exactly when the server says by it that the order is void, or nothing is at stake: no wider class of failures would do |
| SendGuards.KeyOutlivesKillIff | apps/mobile/src/logic/send-draft.ts:92-119 | with its draft on disk, the key of a tap comes back after a kill exactly within ten minutes of the tap (a minute of skew allowed), together with the moment of the tap |
| SendReplay.RefusalLosesTheFrozenKeyIff | apps/mobile/app/send.tsx:590-596 | on a screen that keeps track of everything a refusal loses track of an order exactly when the frozen key is another one than the key refused, and may have an order |
| SendGuards.TapIsSafeIff | apps/mobile/app/send.tsx:525-556 | on a screen that has read its draft a tap is safe for every careful continuation exactly when its key is of an order the app was told of, or the key goes to disk (or is there to stay) and no outstanding attempt carries another key |
| SendGuards.RelaunchIsSafeIff | apps/mobile/src/logic/send-draft.ts:92-119 | a relaunch is safe for every careful continuation exactly when the stored draft is live, or its key is of no order nobody was told of |
| SendGuards.OffDiskIsUnsafe | apps/mobile/app/send.tsx:505-509 | a tap whose key does not go to disk, before the draft is read or after it is done with, has a careful continuation to two orders |
| SendGuards.LateAnswerIsSafeIff | apps/mobile/app/send.tsx:560-563 | the late 2xx of a screen that is no more clears the slot behind the present one; that is safe for every careful continuation exactly when nothing is at stake under another key |
| SendGuards.DraftOutlivesKillIff | apps/mobile/src/logic/send-draft.ts:92-119 | a draft worth keeping that was flushed is there after a kill exactly within a day of the flush (a minute of skew allowed) |
| SendGuards.ReopenedFindsItsDraft | apps/mobile/app/send.tsx:490-509 | a screen left with nothing outstanding and opened again finds its draft within a day, and its key if that went out ten minutes ago at most |
| SendGuards.PlacedOrderIsForgotten | apps/mobile/app/send.tsx:560-563 | after its order is placed a screen writes nothing more, and once the chain is worked off the slot is empty and a relaunch finds nothing |
| SendReplay.LateRefusalOpensTwoOrders | apps/mobile/app/send.tsx:525-596 | a run: the late refusal of a second tap clears the freeze of the key sent since, and one edit later two orders exist that nobody was told of |
| SendScreen.Compose.Prefill | apps/mobile/app/send.tsx:200-220 | the stored draft is put back, or only its live key on Send again |
| SendScreen.Compose.FlushDraft | apps/mobile/app/send.tsx:490-509 | the draft as it is now is chained behind earlier writes, or nothing is, and what to wait for is returned |
| SendScreen.Compose.ChainAdvances | apps/mobile/src/logic/send-draft.ts:121-147 | writes and clears happen one at a time in call order; a blank draft clears the slot |
| SendScreen.Compose.SubmitBegins | apps/mobile/app/send.tsx:528-556 | the key is the frozen one, else the one of the content; it is frozen and its write chained before the request |
| SendScreen.Compose.OrderPlaced | apps/mobile/app/send.tsx:560-563 | the key is freed, nothing more is written, the slot is cleared last |
| SendScreen.Compose.SubmitFails | apps/mobile/app/send.tsx:590-596 | only a definitive failure frees the key; a lost answer, a 5xx or a standing refusal keeps it |
| OtpVerify.NeverTwoInFlight | apps/mobile/app/verify.tsx:196-260 | no run has two verify requests in flight |
| OtpVerify.RepeatsAreExcused | apps/mobile/app/verify.tsx:257-281 | of two back-to-back submissions of one code the first ended in no verdict, or a fresh code came between them |
| OtpVerify.ResendsWithinNonAnswers | apps/mobile/app/verify.tsx:265-281 | each non-answer allows at most one resend |
| OtpVerify.LatestTriedIff | apps/mobile/app/verify.tsx:254-260 | over every run the latest complete code has been tried once all is settled exactly when no edit has lost it, or something since has put it right: another edit, a commit, a fresh code, a re-armed retry |
| OtpVerify.LatestCodeIsSent | apps/mobile/app/verify.tsx:254-260 | once React has settled on an idle, unlocked screen the six digits in the boxes are the code last sent, unless an edit has lost it for good |
| OtpVerify.FreshCodeIsSent | apps/mobile/app/verify.tsx:174-193 | after a fresh code an idle screen, locked out or not, is empty and open again, and the six digits typed next are sent |
| OtpVerify.RetryIsSentAgain | apps/mobile/app/verify.tsx:265-281 | a non-answer re-armed on a settled, idle screen sends the very code again, and is not re-armed a second time |
| OtpVerify.EditRearms | apps/mobile/app/verify.tsx:357-366 | an edit after a non-answer forgets that the code was tried, and leaves nothing to re-arm |
| OtpVerify.AsksOneAtATime | apps/mobile/app/verify.tsx:174-194 | while the render shows a request for a fresh code no other is made, and a failed one may be repeated |
| OtpVerify.CheckingShows | apps/mobile/app/verify.tsx:196-203 | from the commit after a submission the screen is busy, with one request out and no danger line |
| OtpVerify.ResendCanBeLost | apps/mobile/app/verify.tsx:357-366 | a run for every code: after a non-answer a digit is deleted and typed again within one commit, and the complete code is never sent again |
| OtpVerify.LineCanMislead | apps/mobile/app/verify.tsx:238-247 | a run for every code: a digit is deleted while the request is out, and the rejection puts the line under the other digits |
| OtpVerify.EditKeepsLatestIff | apps/mobile/app/verify.tsx:357-366 | in every state of a run with the latest code tried, an edit keeps it so unless the screen is settled and it goes back, before another edit is committed, to the code shown and not tried |
| OtpVerify.LineTellsIff | apps/mobile/app/verify.tsx:238-247 | a rejection leaves the danger line about the digits in the boxes exactly when they are still the ones judged; every other step keeps it so |
| OtpScreen.Screen.SubmitBegins | apps/mobile/app/verify.tsx:196-203 | a submission while one is out does nothing; otherwise the code is marked tried and sent |
| OtpScreen.Screen.SubmitEnds | apps/mobile/app/verify.tsx:236-252 | each kind of answer leaves its mark and ends the flight |
| OtpScreen.Screen.AutoSubmit | apps/mobile/app/verify.tsx:257-260 | the effect submits the latest complete untried code of an idle, unlocked screen |
| OtpScreen.Screen.OnChangeText | apps/mobile/app/verify.tsx:357-366 | at most six digits are kept; an edit after a non-answer re-arms the code |
| OtpScreen.Screen.RequestFreshCode | apps/mobile/app/verify.tsx:174-178 | one request at a time, as far as the render knows |
| OtpScreen.Screen.FreshCodeArrives | apps/mobile/app/verify.tsx:179-193 | a fresh code forgets everything about the old one |
| OtpScreen.Screen.RearmRetry | apps/mobile/app/verify.tsx:265-281 | a non-answer is re-armed once |
| ServiceArea.InsideBorder | packages/shared/src/service-area.ts:61-70 | the loop computes the parity of the crossings of the closed border |
| ServiceArea.StartDoesNotMatter | packages/shared/src/service-area.ts:61-70 | for every closed polygon and point the answer does not depend on the starting vertex |
| ServiceArea.DirectionDoesNotMatter | packages/shared/src/service-area.ts:61-70 | nor on the direction of travel |
| ServiceArea.ExtraVertexDoesNotMatter | packages/shared/src/service-area.ts:61-70 | nor on how its sides are cut: a vertex put anywhere on an edge changes nothing |
| ServiceArea.SidesAlternate | packages/shared/src/service-area.ts:61-70 | a path crosses a horizontal line evenly often exactly when its ends are on one side, so a closed chain does |
| ServiceArea.InsideIsInBox | packages/shared/src/service-area.ts:61-70 | any point judged inside lies in the bounding box of the polygon |
| ServiceArea.RectangleIsInside | packages/shared/src/service-area.ts:61-70 | of a border along two parallels and two meridians exactly what lies between them is inside, the southern and western sides included |
| ServiceArea.NearestIsLeast | packages/shared/src/service-area.ts:80-89 | the clamped projection is the nearest point of the segment, a zero-length one included |
| ServiceArea.KmToBorder2 | packages/shared/src/service-area.ts:74-91 | the squared distance returned is attained and is the least over every point of the whole closed border |
| ServiceArea.IsInServiceArea | packages/shared/src/service-area.ts:94-97 | served exactly when the coordinates are finite and the point is inside or some border point lies within 10 km |
| ServiceArea.ServedIff | packages/shared/src/service-area.ts:74-97 | the same in coordinates: inside, or some point of the border at most 10 km away at 111.32 km a degree of latitude |
| ServiceArea.ServiceAreaIsOfTheShape | packages/shared/src/service-area.ts:61-97 | neither half of the answer depends on where the border starts or which way it runs |
| Countries.CountryForE164 | packages/shared/src/countries.ts:297-307 | the loop finds the code that the digits begin with, if any |
| Countries.DialIsThePrefix | packages/shared/src/countries.ts:291-307 | in a prefix-free table the code found is the one code the number begins with, whichever length is tried first |
| Countries.NationalDigits | packages/shared/src/countries.ts:340-349 | the national digits of an entry: code and one trunk 0 dropped where they are not part of the number |
| PhoneForms.EntryReadsNational | packages/shared/src/countries.ts:340-349 | whatever the punctuation, a national number is read out of its own digits, of the code and it, and unless the code keeps zeros also from behind one 0 |
| PhoneForms.NationalFits | packages/shared/src/countries.ts:340-349 | what is read out of any entry is digits, at most 15 with the code |
| Phone.NormalizePhone | packages/shared/src/phone.ts:24-73 | the branches compute the canonical form or refuse |
| Phone.DropTrunks | packages/shared/src/phone.ts:46-59 | one trunk 0 after the home code, all of them after a code from abroad that does not keep them |
| PhoneForms.SpellingsExactly | packages/shared/src/phone.ts:24-73 | an entry is given +263 and the 9-digit number exactly when it is one of the spellings of that number |
| PhoneForms.FormsReadBackIff | packages/shared/src/phone.ts:90-129 | an accepted number, its local form and its display form normalise back to it exactly when no 0 follows the home code |
| PhoneForms.FormsAre | packages/shared/src/phone.ts:90-129 | a home number is shown with a 0 for its code, or behind +263 in groups of two, three and four; one from abroad as it is dialled; other text trimmed |
| PhoneForms.DoubledTrunk | packages/shared/src/phone.ts:46-51 | the corner is reachable: with two zeros after the code eight digits are accepted, and that form is then refused |
| PhoneForms.CanonicalIsE164 | packages/shared/src/phone.ts:61-62 | every accepted output is + and 8 to 15 digits with no leading 0 |
| PhoneForms.EntryAgreesIff | packages/shared/src/countries.ts:340-354 | a number typed with + in the entry field becomes the canonical one exactly when its code keeps zeros, is 263, or is not followed by two zeros |
| PhoneForms.EntryCanDisagree | packages/shared/src/countries.ts:340-354 | for every code from abroad that does not keep its zeros, and every number: two zeros after the code are both dropped in the canonical form, and one of them in the entry field |
| OfferRanking.RankOffers | packages/shared/src/offer-ranking.ts:63-108 | every offer once, in the order of the comparator; the first one recommended, and only it, exactly when there are two or more |
| OfferRanking.RankingIsUnique | packages/shared/src/offer-ranking.ts:97-104 | there is one ranking only, whatever sorting algorithm finds it |
| OfferRanking.BeforeIsTotal | packages/shared/src/offer-ranking.ts:97-104 | the comparator is irreflexive, antisymmetric and decides every pair |
| OfferRanking.BeforeIsTransitive | packages/shared/src/offer-ranking.ts:97-104 | and transitive |
| OfferRanking.DominantRanksFirst | packages/shared/src/offer-ranking.ts:88-104 | between two rated or two unrated riders one that is no worse on fare, ETA and rating and better on one ranks first, for all non-negative weights |
| OfferRanking.OrderIs | packages/shared/src/offer-ranking.ts:82-104 | of any two offers, unrated ones counting as the middle of the rated, one is before the other exactly when what it saves in fare, has in rating and gains in ETA, as shares of the spreads and each by its own weight, sums to more than 0, or to 0 and the tie-break is for it |
| OfferRanking.WeightsAreForTheirAxes | packages/shared/src/offer-ranking.ts:88-95 | with all weight on the price the cheaper offer is first whatever the rest, on the ETA the sooner, on the rating the better rated |
| OfferRanking.BatchIs | packages/shared/src/offer-ranking.ts:66-80 | what is compared are the numbers given; a fare or ETA that is not finite is no better than any finite one, such a rating is 0 |
| OfferRanking.RatedOnlyIs | packages/shared/src/offer-ranking.ts:79-86 | exactly the ratings of rated riders define the spread of ratings |
| OfferRanking.RatedAgainstNew | packages/shared/src/offer-ranking.ts:44-49 | between a rated and a new rider on equal fare and ETA the better raw rating ranks first exactly when its score reaches the neutral midpoint |
| OfferRanking.RescalingKeepsTheOrder | packages/shared/src/offer-ranking.ts:66-95 | rescaling all finite fares by a positive affine map leaves the ranking unchanged |
| OfferRanking.ScoreInRange | packages/shared/src/offer-ranking.ts:88-95 | with non-negative weights that sum to 1 every score lies in [0, 1] |
| OfferRanking.WorstIsWorst | packages/shared/src/offer-ranking.ts:66-80 | the value that stands in for a fare or ETA that is not finite is the worst finite one |
| Money.ToCentsIsNearest | packages/shared/src/money.ts:19-21 | the nearest cent, the higher one in the middle |
| Money.RoundFareIsNearest | packages/shared/src/money.ts:60-64 | for a price in whole cents no fare on the grid from 50c up is nearer, and of two equally near the higher is taken |
| Money.RoundFareOfGrid | packages/shared/src/money.ts:60-64 | a fare on the grid is left alone |
| DeliveryCeiling.BoundsAreOnGrid | packages/shared/src/delivery-ceiling.ts:57-62 | for every recommended price, finite or not, the bounds sit on the 50c grid with 50c <= min <= recommended <= max |
| DeliveryCeiling.BoundsInNumbers | packages/shared/src/delivery-ceiling.ts:57-62 | for a recommended price of n half dollars: at most twice that; at least the nearest half dollar to 80% and $1.50, or the price itself up to $1.50 |
| DeliveryCeiling.ValidCeilingIff | packages/shared/src/delivery-ceiling.ts:65-71 | a ceiling in whole cents is valid exactly on the 50c grid from the lower bound to twice the recommended price |
| DeliveryCeiling.DownIsGreatest | packages/shared/src/delivery-ceiling.ts:38-41 | rounding to cents first never lifts the start past 85%: it is the greatest grid price of at most 85% |
| DeliveryCeiling.StartIsBetween | packages/shared/src/delivery-ceiling.ts:74-78 | for every valid ceiling min <= start <= ceiling, on the grid, above 85% only as the floor |
| DeliveryCeiling.StartIsGreatest | packages/shared/src/delivery-ceiling.ts:74-78 | no grid price within 85% and the ceiling is above the start |
| DeliveryCeiling.LadderClimbs | packages/shared/src/delivery-ceiling.ts:95-107 | an offer stays or rises by 50c from round to round, on the grid, and never exceeds ceiling plus top-up |
| DeliveryCeiling.LadderStarts | packages/shared/src/delivery-ceiling.ts:95-107 | the first offer is start, floor or ceiling and the top-up, and no offer is below start or floor unless it is at the ceiling |
| DeliveryCeiling.RoundsAreCounted | packages/shared/src/delivery-ceiling.ts:95-107 | a round that is no whole number counts as the one before it, and as the first below 1 |
| DeliveryCeiling.LadderNeverFalls | packages/shared/src/delivery-ceiling.ts:95-107 | over all rounds the offer never falls |
| DeliveryCeiling.LadderReachesTopIff | packages/shared/src/delivery-ceiling.ts:95-107 | the offer is ceiling plus top-up exactly from the round that the gap fixes on |
| DeliveryCeiling.CustomerWithinCeiling | packages/shared/src/delivery-ceiling.ts:110-112 | whatever the round and the top-up the customer never pays above the ceiling, and customer part plus top-up is the offer |
| DeliveryCeiling.CeilingSplit | packages/shared/src/delivery-ceiling.ts:119-134 | the fee is rung and top-up, the customer pays goods and fee less the venue's share, and that is all of the fee if it funds deliveries, else its top-up, as far as the goods go |
| DeliveryCeiling.TopUpChoicesAre | packages/shared/src/delivery-ceiling.ts:137-140 | 50c, $1 or $2 may be added as long as all top-ups stay within the goods |
| DeliveryCeiling.ChosenTopUpsAreNotCapped | packages/shared/src/delivery-ceiling.ts:119-140 | top-ups drawn only from the choices never hit the cap, and the customer still pays goods plus ladder |
| RestaurantsOrder.MoneyIsConserved | packages/shared/src/restaurants-order.ts:98-110 | customer total = venue net + rider fare for all inputs, and the venue net is not negative exactly when the goods are not |
| RestaurantsOrder.FeeIsSplit | packages/shared/src/restaurants-order.ts:98-110 | for all inputs: what the customer does not pay of the fee the venue does, no more than agreed, than the fee or than the goods, and no less than one of them |
| RestaurantsOrder.FreeDeliveryIff | packages/shared/src/restaurants-order.ts:51-60 | delivery costs the customer nothing exactly when the fee is nothing, or the venue has free delivery, the order is cash and the goods cover the fee |
| RestaurantsOrder.PathsAgreeIff | packages/shared/src/restaurants-order.ts:98-110 | the two money paths agree on the customer total exactly when the goods are not negative |
| RestaurantsOrder.CeilingMoneyIsConserved | packages/shared/src/delivery-ceiling.ts:119-134 | the money of a ceiling order is conserved, with venue net >= 0 and the rider paid in full |
| RestaurantsOrder.EditsArePathIndependent | packages/shared/src/restaurants-order.ts:64-81 | after any sequence of goods edits the recomputed share of a ceiling order is that of pricing the last goods from scratch |
| RestaurantsOrder.PlacementAgreesIff | packages/shared/src/restaurants-order.ts:51-81 | without a ceiling, recomputing agrees with placing the edited order exactly when the goods cover the fee at both ends or at neither |
| RestaurantHours.NextOpening | packages/shared/src/restaurant-hours.ts:97-107 | the loop over days computes the next opening |
| RestaurantHours.NextOpeningIsTheFirst | packages/shared/src/restaurant-hours.ts:97-107 | for every week and closed venue it is the first open minute of the coming week of a minute-by-minute search, and null exactly when there is none |
| RestaurantHours.NoOpeningWhileOpen | packages/shared/src/restaurant-hours.ts:97-98 | a venue that is open, as one without hours always is, has no next opening |
| RestaurantHours.OpeningNamesItsDay | packages/shared/src/restaurant-hours.ts:97-107 | the day named is the weekday so many days ahead, at most a week, and opens at the time named |
| RestaurantHours.OpenAsLongAsItsWindow | packages/shared/src/restaurant-hours.ts:45-51 | counted over a day the venue is open for exactly the minutes between its times, and for none before; all day without hours, not at all on a day left out |
| RestaurantHours.HandCloseReads | packages/shared/src/restaurant-hours.ts:115-128 | a hand-close until the next day reads closed until then and as the stored week after |
| RestaurantHours.HandCloseNextOpeningIff | packages/shared/src/restaurant-hours.ts:97-121 | during a hand-close the next opening is what such a search finds exactly when the venue has hours and today is not the only weekday with a window, or its window has not begun |
| UuidSeed.UuidV4FromSeed | apps/mobile/src/util.ts:37-52 | the loops over words and characters compute the printed id of the mixed words |
| UuidSeed.XorIsWord | apps/mobile/src/util.ts:43-45 | the exclusive or stays within 32 bits, so all four words do |
| UuidSeed.XorBits | apps/mobile/src/util.ts:43-45 | every bit of the exclusive or is set exactly when one of the two is |
| UuidSeed.WordsOfA | apps/mobile/src/util.ts:38-46 | the seed "a" mixes to its published FNV-1a hash in the first word and to the letter added in the second |
| UuidSeed.DigitsOfA | apps/mobile/src/util.ts:47 | and to these 32 digits in full |
| UuidSeed.WordPrints | apps/mobile/src/util.ts:47 | printing without leading zeros and padding gives the eight digits of the word |
| UuidSeed.IdIsVersion4 | apps/mobile/src/util.ts:47-51 | for every seed: 36 characters, lower-case hex, hyphens in place, version 4, variant 8 to b (sections 4.1.1 and 4.1.3 of RFC 4122) |
| UuidSeed.SameIdIff | apps/mobile/src/util.ts:47-51 | two seeds get one id exactly when their words agree in every bit but the six that are stamped over |
| UuidSeed.OneChangeAlwaysShows | apps/mobile/src/util.ts:38-46 | two seeds of one length that differ in exactly one character, wherever it is, never mix to the same words |
| UuidSeed.OneChangeChangesId | apps/mobile/src/util.ts:38-51 | one changed character always changes the id at positions that leave 0 or 3 when divided by 4, and for characters below U+0200 also 2 |

## Left out

- SendReplay.AtMostOneUntoldOrder: holds over careful runs (see Assumptions); outside them the code does allow two
  orders, as `LateRefusalOpensTwoOrders` shows.
- SendGuards.TapIsSafeIff: is about a screen that has read its draft, with an account signed in; of a tap before the
  draft is read only the unsafe case is decided (`OffDiskIsUnsafe`).
- ServiceArea.KmToBorder2: returns the squared distance, which is compared with the square of the margin; the root is
  not taken.
- Rendering, styling, gestures, cropping, popovers and focus of the image slot and of the two screens.
- `eval`, script loading, component lifecycle, the helmet manager and the builders of `support.js`; a deck child is its
  node kind, tag, slide id and text.
- JSON oddities of the sidecar: a value is a string or an object whose image is a string; arrays and numbers are not
  part of the model.
- Image encoding and its errors: an encode lands or fails at any later moment.
- Forms of the send other than its key: validation, refusal walls, recipients, routing after the order.
- A send screen that is left with an answer outstanding and opened again: `Reopen` needs all attempts answered or
  lost. Of the answers to a screen left behind only the 2xx is decided (`LateAnswerIsSafeIff`); it is not an event of runs.
- Signing out or changing account during a send: the account is fixed over a run.
- Storage failures: a failing write of the draft is swallowed by the code and would leave the key off the disk.
- The classification of code errors by tag and message, the resend cooldown and the sign-in that follows an accepted
  code; a failure of that sign-in counts as a non-answer. The phone number of the code screen is not empty.
- The haversine distance, fare suggestions, board cells and the cosine of the longitude scale.
- The concrete border and country tables: the results hold for every closed polygon and every prefix-free table of
  codes of one to three digits.
- Which of several countries sharing a code is shown: only the code matters to a number.
- The parsing of opening times: windows are minutes of the day; daylight-saving shifts do not occur.
- The built-in sort of `rankOffers`: an insertion sort stands in for it, and `RankingIsUnique` says that any other
  sort gives the same result.
- Floating-point rounding other than to cents and to 50c.
- The rest of the repository: API, infrastructure, configuration, fixtures, copy and single-branch helpers.
