# Proposal card interaction controller, in Dafny

This project models the client-side core of a "Valentine proposal" web app:
the **Yes/No mischief** controller of `ProposalCard.jsx` and the character
lookup of `CharacterAnimation.jsx`, and proves the rules they follow.

- `proposal_card.dfy`, module `Proposal`. The card's six pieces of React
  state (`noAttempts`, `noButtonText`, `noButtonStyle`, `yesButtonSize`,
  `showNoButton`, `accepted`) plus the pending 500 ms hide timer, as a value
  `State` with one transition function per handler (`NoClicked`,
  `NoHovered`, `NoTouched`, `YesClicked`, `HideTimerFired`), the label
  choice `RandomText` (`getRandomText`), the relocation `MovedStyle`
  (`moveNoButton`) and the two scale expressions. `View` says what is
  rendered, `Step` delivers an event only to a button that is rendered, and
  `Run` folds a sequence of events. The class `ProposalCard` holds the same
  state in fields and runs the handlers step by step; each method is proved
  to produce exactly the state its transition function gives.
- `celebration.dfy`, module `Celebration`. `triggerHeartConfetti`: the
  opening 100-particle burst, then a frame loop that emits two 3-particle
  bursts per frame and reschedules itself while the clock is before the
  acceptance time plus 5000 ms. Confetti is reduced to the bursts requested.
- `character_animation.dfy`, module `Character`. The `characters` table, the
  lookup with the `bear` fallback, the priority choice among Lottie player,
  GIF, still image and emoji, and the one-way `lottieError` flag.
- `optional.dfy`, module `Optional`. An `Option` type and JavaScript
  truthiness of optional strings.

`Math.random()` draws are parameters in [0, 1): one for the label, two for
the position. The container's measured width is a parameter (`None` when the
ref is not attached), `isMobile` is a parameter of the hover handler, and
the clock is a sequence of `Date.now()` readings, one per animation frame.
Numbers are exact reals.

Three points of the code's behaviour are worth stating plainly:
- The relocation is not clamped: the left offset is `r * (width - 120)`,
  which is non-positive for a container narrower than 120 px (`Placed`,
  `RelocatedStyle`).
- The No button is hidden 500 ms after the third attempt.
- `handleYesClick` calls `onAccept` on every call, when one was passed. In this model a Yes
  click reaches the handler only while the question view is rendered, so a
  run reaches `onAccept` once (`AcceptedOnce`); the exit animation, during
  which the old view is still mounted, is not modelled (see "Left out").

## Model

| member | source | states |
|---|---|---|
| Proposal.TextsDistinct | frontend/src/components/ProposalCard.jsx:7-18 | the ten phrases are pairwise different and none of them is the initial label "No" |
| Proposal.Without | frontend/src/components/ProposalCard.jsx:44 | the filter keeps exactly the entries different from the excluded text, and never lengthens the list |
| Proposal.WithoutLength | frontend/src/components/ProposalCard.jsx:44 | in a list without repetitions the filter removes one entry if the text is present and none otherwise |
| Proposal.WithoutAbsent | frontend/src/components/ProposalCard.jsx:44 | filtering out an absent text leaves the list as it was |
| Proposal.Available | frontend/src/components/ProposalCard.jsx:44 | the eligible labels are the phrases other than the current label, nine or ten of them, so never none |
| Proposal.DrawIndex | frontend/src/components/ProposalCard.jsx:45 | `Math.floor(r * n)` is an index in [0, n) for any draw and lies within one of `r * n` |
| Proposal.RandomText | frontend/src/components/ProposalCard.jsx:42-46 | the new label is one of the phrases and differs from the current label |
| Proposal.FirstClickAllEligible | frontend/src/components/ProposalCard.jsx:7-22 | since "No" is not a phrase, every phrase is eligible on the first click |
| Proposal.EveryEligibleTextDrawn | frontend/src/components/ProposalCard.jsx:45 | every eligible label is picked by some draw: the i-th of n by the draw i/n |
| Proposal.YesScale | frontend/src/components/ProposalCard.jsx:79 | the Yes scale `1 + 0.2 n` is at least 1, and at most 1.6 up to the cap |
| Proposal.YesScaleMonotone | frontend/src/components/ProposalCard.jsx:79 | the Yes scale never decreases as the count grows |
| Proposal.NoScale | frontend/src/components/ProposalCard.jsx:248 | `max(0.7, 1 - 0.1 n)` lies in [0.7, 1], is 1 exactly at n = 0 and 0.7 exactly from n = 3 on |
| Proposal.NoScaleAntitone | frontend/src/components/ProposalCard.jsx:248 | the No scale never increases as the count grows |
| Proposal.DrawScales | frontend/src/components/ProposalCard.jsx:56-57 | `Math.random() * range` lies in [0, range) for a positive range and in (range, 0] for a negative one |
| Proposal.DrawFromRatio | frontend/src/components/ProposalCard.jsx:56-57 | every point of [0, range) is picked by some draw |
| Proposal.RelocatedStyle | frontend/src/components/ProposalCard.jsx:52-62 | the new position is in pixels, top in [60, 210), left in [0, width - 120) for a wide container and in (width - 120, 0] for a narrow one (no clamping) |
| Proposal.EveryPlaceDrawn | frontend/src/components/ProposalCard.jsx:56-61 | for a container wider than 120 px, every position of the band [0, width - 120) x [60, 210) is reached by some pair of draws |
| Proposal.EveryNarrowPlaceDrawn | frontend/src/components/ProposalCard.jsx:53-61 | for a container narrower than 120 px, every position of the band (width - 120, 0] x [60, 210), left of the container's edge, is reached by some pair of draws |
| Proposal.MovedStyle | frontend/src/components/ProposalCard.jsx:49-63 | `moveNoButton` keeps the position when the container is absent or the count is at least 3, and otherwise moves the button into the band |
| Proposal.InitialInv | frontend/src/components/ProposalCard.jsx:21-26 | the initial state (0 attempts, "No", 60%/70px, scale 1, shown, not accepted) satisfies the card invariant and shows the label "No" |
| Proposal.NoClicked | frontend/src/components/ProposalCard.jsx:66-88 | at the cap a No click changes nothing; below it the count rises by one, the label changes to a phrase, Yes scale matches the count, the button is relocated when the container exists, and the hide timer starts exactly when the count reaches 3 |
| Proposal.NoClickedInv | frontend/src/components/ProposalCard.jsx:66-88 | a No click keeps the card invariant |
| Proposal.ThirdClickStillMoves | frontend/src/components/ProposalCard.jsx:49-82 | the third click relocates the button because `moveNoButton` sees the count from before the click; with the new count it would not move |
| Proposal.NoHovered | frontend/src/components/ProposalCard.jsx:91-95 | hover changes nothing but the position, nothing at all on mobile or at the cap, and otherwise places the button in the band |
| Proposal.NoTouched | frontend/src/components/ProposalCard.jsx:98-103 | touch-start changes nothing but the position, nothing at all at the cap, and otherwise places the button in the band |
| Proposal.YesClicked | frontend/src/components/ProposalCard.jsx:151-152 | a Yes click sets `accepted` from any count and changes nothing else |
| Proposal.HideTimerFired | frontend/src/components/ProposalCard.jsx:85-86 | the pending hide timer hides the No button and changes nothing else; with no timer pending nothing happens |
| Proposal.View | frontend/src/components/ProposalCard.jsx:174-296 | the success view is shown exactly when accepted; otherwise the Yes button is drawn at `yesButtonSize`, the No button is rendered exactly when shown, with its label, position and scale `NoScale(noAttempts)`, and the "only one choice" hint exactly when hidden |
| Proposal.HandleChanges | frontend/src/components/ProposalCard.jsx:66-103 | a Yes click only accepts, hover and touch only move the No button, the timer only hides it, and only a Yes click accepts |
| Proposal.DeliveredExactly | frontend/src/components/ProposalCard.jsx:174-253 | a Yes click reaches its handler exactly while the card is not accepted, a No event exactly while it is not accepted and the No button is shown; the hide timer always fires |
| Proposal.StepIgnoresUnrendered | frontend/src/components/ProposalCard.jsx:174-253 | on an accepted card only the timer has an effect, No events on a hidden button have none, and while both buttons are shown every event runs its handler |
| Proposal.StepInv | frontend/src/components/ProposalCard.jsx:66-157 | every delivered event keeps the card invariant |
| Proposal.RunInv | frontend/src/components/ProposalCard.jsx:66-157 | every run of events keeps the card invariant |
| Proposal.RunLabelFits | frontend/src/components/ProposalCard.jsx:22-76 | along any run the label stays "No" until the first attempt and is one of the phrases from then on |
| Proposal.RunProgresses | frontend/src/components/ProposalCard.jsx:70-86 | along any run the count and the Yes scale never decrease, a hidden No button never reappears and acceptance is never undone |
| Proposal.ClicksCount | frontend/src/components/ProposalCard.jsx:70-79 | k No clicks leave the count at min(count + k, 3) with the Yes scale matching it |
| Proposal.AcceptedIsTerminal | frontend/src/components/ProposalCard.jsx:151-175 | once accepted, no event changes the count, label, position or Yes scale, and the card stays accepted |
| Proposal.HiddenIsTerminal | frontend/src/components/ProposalCard.jsx:242-253 | once the No button is hidden it stays hidden and its count, label, position and the Yes scale stay fixed |
| Proposal.AcceptedOnce | frontend/src/components/ProposalCard.jsx:151-157 | along any run the accept handler (and so `onAccept`) is reached once if the run accepts the card and never otherwise |
| Proposal.OneClickScenario | frontend/src/components/ProposalCard.jsx:66-88 | one click on a fresh card: count 1, a label other than "No", still shown, Yes at 1.2 |
| Proposal.ThirdClickScenario | frontend/src/components/ProposalCard.jsx:66-88 | the third click leaves count 3, Yes at 1.6 and the hide timer pending, and the button is hidden once it fires; with `ClicksCount` this is the three-clicks scenario |
| Proposal.ProposalCard.constructor | frontend/src/components/ProposalCard.jsx:20-26 | a fresh card holds the initial state |
| Proposal.ProposalCard.MoveNoButton | frontend/src/components/ProposalCard.jsx:49-63 | changes only the position field, to what `MovedStyle` gives for the captured count |
| Proposal.ProposalCard.HandleNoClick | frontend/src/components/ProposalCard.jsx:66-88 | the new state is `NoClicked` of the old one and the invariant is kept |
| Proposal.ProposalCard.HandleNoHover | frontend/src/components/ProposalCard.jsx:91-95 | the new state is `NoHovered` of the old one and the invariant is kept |
| Proposal.ProposalCard.HandleNoTouch | frontend/src/components/ProposalCard.jsx:98-103 | the new state is `NoTouched` of the old one and the invariant is kept |
| Proposal.ProposalCard.HandleYesClick | frontend/src/components/ProposalCard.jsx:151-157 | accepts the card, emits the opening burst and the frames up to the first clock reading at or after acceptance + 5000 ms, and calls `onAccept` exactly when one was passed |
| Proposal.ProposalCard.FireHideTimer | frontend/src/components/ProposalCard.jsx:86 | the new state is `HideTimerFired` of the old one and the invariant is kept |
| Celebration.FramesEmission | frontend/src/components/ProposalCard.jsx:114-133 | k frames emit 2k bursts of 3 particles, alternating left edge and right edge |
| Celebration.FirstReaching | frontend/src/components/ProposalCard.jsx:134-136 | the first clock reading at or after the deadline: every earlier reading is before it |
| Celebration.Celebrate | frontend/src/components/ProposalCard.jsx:105-148 | the opening burst, then at least one frame; frames continue exactly while the reading is before acceptance + 5000 ms and stop at the first reading that is not |
| Celebration.FramesBounded | frontend/src/components/ProposalCard.jsx:105-136 | under a strictly advancing millisecond clock whose readings reach the deadline, the loop stops after at most 5001 frames |
| Celebration.AdvancingReaches | frontend/src/components/ProposalCard.jsx:105-136 | a strictly advancing millisecond clock that starts at acceptance and has more than 5000 readings reaches the deadline within its first 5001 readings, so the loop ends without assuming it does |
| Celebration.CelebrationParticles | frontend/src/components/ProposalCard.jsx:114-146 | a celebration of k frames emits 100 + 6k particles, so at least 106 |
| Character.Lookup | frontend/src/components/CharacterAnimation.jsx:4-21 | a known id gives its table entry; a missing or unknown id gives the bear |
| Character.FallbackExactly | frontend/src/components/CharacterAnimation.jsx:27-28 | the fallback is shown exactly when the entry's `lottieUrl` is falsy or the error flag is set, and exactly then the Lottie player is not rendered |
| Character.Render | frontend/src/components/CharacterAnimation.jsx:27-69 | the mode rendered is one the entry supports, and no supported mode comes before it in the order player, GIF, image, emoji; exactly one mode results |
| Character.PlayerNeverRendered | frontend/src/components/CharacterAnimation.jsx:7-35 | no table entry has a Lottie URL, so the fallback is shown and the player is never rendered |
| Character.RenderedForEveryId | frontend/src/components/CharacterAnimation.jsx:4-69 | the seal shows its GIF and every other id shows the teddy photo |
| Character.PandaShowsBear | frontend/src/components/CharacterAnimation.jsx:19-21 | the id `panda`, offered by the home page, resolves to the bear |
| Character.CharacterAnimation.constructor | frontend/src/components/CharacterAnimation.jsx:19-20 | a fresh component has no Lottie error |
| Character.CharacterAnimation.HandleLottieError | frontend/src/components/CharacterAnimation.jsx:23-25 | the error flag is set to true (it is never cleared), the fallback is shown and the Lottie player is not rendered from then on |

## Left out

- Detecting `isMobile` (media query, touch support, resize listener): a browser query; it is a parameter of the hover handler.
- Real timers and `requestAnimationFrame`: the 500 ms hide is a pending flag fired by a `HideTimer` event; frames read an abstract clock sequence.
- Celebration.Celebrate and Proposal.ProposalCard.HandleYesClick: require that some clock reading reaches the deadline, because the clock is a finite sequence; a clock that never advances (the loop would never stop) is not modelled. For a strictly advancing clock with more than 5000 readings the requirement is met (`AdvancingReaches`).
- Proposal.ProposalCard.HandleYesClick: runs all celebration frames inside the handler; in the browser they interleave with later events, which the frames cannot affect since they touch no card state.
- IEEE-754 arithmetic: scales and positions are exact reals (in doubles, `3 * 0.2` is 0.6000000000000001).
- The `px` strings of the style: positions are kept as numbers.
- Proposal.Delivered, Proposal.DeliveredExactly, Proposal.StepIgnoresUnrendered, Proposal.AcceptedOnce, Proposal.AcceptedIsTerminal: events that arrive during an exit animation are not modelled. `AnimatePresence` keeps the question view (and a hidden No button) mounted, with the handlers of its last render, until its exit animation ends; a second Yes click in that window would run the celebration and `onAccept` again, and a No event would still reach the old handlers. The model removes a button the moment `accepted` or `!showNoButton` is set, and these lemmas hold under that gating.
- Animation, springs, `AnimatePresence` exit animations and the confetti parameters other than particle counts and origins (angle, spread, colours, shapes, scalar): foreign libraries.
- `preventDefault` and `stopPropagation` on the events: browser behaviour.
- Character.Lookup: property names inherited from `Object.prototype` (such as `constructor`) would be found by the JavaScript lookup; the model treats the table as holding only its two own keys.
- The image `onError` handler of the still image, which does nothing, and the mobile tip, sizes and texts of the card: presentation only.
- Cancelling the hide timer or the frame loop on unmount: the code does not do it.
- frontend/src/pages/HomePage.jsx, backend/server.py and frontend/eslint.config.js are not part of this model: form handling, network calls, payment glue and lint configuration.
