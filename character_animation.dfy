/** The character shown on the proposal card (CharacterAnimation.jsx): a
    lookup in a two-entry table with `bear` as the fallback, and the choice
    of one of four ways to render the entry. */
module Character {
  import opened Optional

  /** One entry of the `characters` table. */
  datatype CharacterEntry = CharacterEntry(
    name: string,
    lottieUrl: Option<string>,
    gifUrl: Option<string>,
    fallbackImage: Option<string>,
    fallbackEmoji: string)

  const BearImage: string := "https://customer-assets.emergentagent.com/job_cutematch-1/artifacts/ur3y0r94_couple-teddy-4096926_1280.jpg"
  const SealGif: string := "https://customer-assets.emergentagent.com/job_cutematch-1/artifacts/6uhb61yp_sappy-seals.gif"

  const Bear: CharacterEntry := CharacterEntry("Couple Teddy", None, None, Some(BearImage), "🧸")
  const Seal: CharacterEntry := CharacterEntry("Sappy Seals", None, Some(SealGif), None, "🦭")

  const Characters: map<string, CharacterEntry> := map["bear" := Bear, "seal" := Seal]

  /** The id used when the component is given none (the default parameter
      value `'bear'`). */
  const DefaultId: string := "bear"

  /** The entry for `characterType`; `None` stands for a missing (undefined
      or null) prop. Ids not in the table resolve to the bear. */
  function Lookup(characterType: Option<string>): (c: CharacterEntry)
    ensures c in Characters.Values
    ensures characterType.Some? && characterType.value in Characters ==> c == Characters[characterType.value]
    ensures characterType.None? || characterType.value !in Characters ==> c == Bear
  {
    var id := if characterType.Some? then characterType.value else DefaultId;
    if id in Characters then Characters[id] else Characters[DefaultId]
  }

  /** The four ways the component can render a character, in priority order. */
  datatype RenderMode =
    | LottiePlayer(src: string)
    | GifImage(src: string)
    | StillImage(src: string)
    | EmojiGlyph(glyph: string)

  /** The fallback (anything but the Lottie player) is shown when there is
      no Lottie animation to play or the player reported an error. */
  predicate ShowFallback(c: CharacterEntry, lottieError: bool) {
    !Truthy(c.lottieUrl) || lottieError
  }

  /** An independent description of the choice, against which `Render` is
      stated: which modes an entry can support at all, and their order of
      preference. */
  predicate Supports(c: CharacterEntry, lottieError: bool, m: RenderMode) {
    match m
    case LottiePlayer(src) => c.lottieUrl == Some(src) && src != "" && !lottieError
    case GifImage(src) => c.gifUrl == Some(src) && src != ""
    case StillImage(src) => c.fallbackImage == Some(src) && src != ""
    case EmojiGlyph(glyph) => glyph == c.fallbackEmoji
  }

  function Rank(m: RenderMode): nat {
    match m
    case LottiePlayer(_) => 0
    case GifImage(_) => 1
    case StillImage(_) => 2
    case EmojiGlyph(_) => 3
  }

  /** The mode the component renders for entry `c`: one the entry
      supports, and no supported mode is preferred to it, so that exactly
      one mode results, the first in priority order that applies. */
  function Render(c: CharacterEntry, lottieError: bool): (m: RenderMode)
    ensures Supports(c, lottieError, m)
    ensures forall other :: Supports(c, lottieError, other) ==> Rank(m) <= Rank(other)
    ensures forall other :: Supports(c, lottieError, other) && Rank(other) == Rank(m) ==> other == m
  {
    if !ShowFallback(c, lottieError) then LottiePlayer(c.lottieUrl.value)
    else if Truthy(c.gifUrl) then GifImage(c.gifUrl.value)
    else if Truthy(c.fallbackImage) then StillImage(c.fallbackImage.value)
    else EmojiGlyph(c.fallbackEmoji)
  }

  /** The fallback is shown exactly when the entry has no (or an empty)
      Lottie URL or the player reported an error, and exactly then the
      player is not rendered. */
  lemma FallbackExactly(c: CharacterEntry, lottieError: bool)
    ensures ShowFallback(c, lottieError) <==> c.lottieUrl == None || c.lottieUrl == Some("") || lottieError
    ensures ShowFallback(c, lottieError) <==> !Render(c, lottieError).LottiePlayer?
  {
  }

  /** No entry of the table has a Lottie animation, so the player is never
      rendered, whatever id is asked for and whatever the error flag. */
  lemma PlayerNeverRendered(characterType: Option<string>, lottieError: bool)
    ensures ShowFallback(Lookup(characterType), lottieError)
    ensures !Render(Lookup(characterType), lottieError).LottiePlayer?
  {
  }

  /** Asking for the seal shows its GIF; asking for anything else (a missing
      id, `bear`, or an id such as `panda` that is offered elsewhere but has
      no table entry) shows the teddy photo. */
  lemma RenderedForEveryId(characterType: Option<string>, lottieError: bool)
    ensures characterType == Some("seal") ==> Render(Lookup(characterType), lottieError) == GifImage(SealGif)
    ensures characterType != Some("seal") ==> Render(Lookup(characterType), lottieError) == StillImage(BearImage)
  {
  }

  lemma PandaShowsBear()
    ensures Lookup(Some("panda")) == Bear
  {
  }

  /** A mounted `CharacterAnimation`: its prop and its one piece of state. */
  class CharacterAnimation {
    const characterType: Option<string>
    var lottieError: bool

    constructor (characterType: Option<string>)
      ensures this.characterType == characterType
      ensures !lottieError
    {
      this.characterType := characterType;
      lottieError := false;
    }

    function Entry(): (c: CharacterEntry)
    {
      Lookup(characterType)
    }

    /** What the component renders in its current state. */
    function Mode(): RenderMode
      reads this
    {
      Render(Entry(), lottieError)
    }

    /** The Lottie player's error event: the flag only ever goes to true. */
    method HandleLottieError()
      modifies this
      ensures lottieError
      ensures ShowFallback(Entry(), lottieError)
      ensures !Mode().LottiePlayer?
    {
      lottieError := true;
    }
  }
}
