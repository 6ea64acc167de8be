/** Constants and value types shared by the round/vote controller of the art battle page. */
module Battle {

  /** The conventional optional value; `None` plays the part of the source's `null`. */
  datatype Option<T> = None | Some(value: T)

  /** Length of one round in milliseconds: one hour. */
  const RoundDuration: nat := 60 * 60 * 1000

  /** Length of one timer tick in milliseconds. */
  const TickLength: nat := 1000

  /** The two artworks on show are identified by 1 and 2. */
  type ArtworkId = x: int | x == 1 || x == 2 witness 1

  /** The artwork that is not `id`. */
  function Other(id: ArtworkId): (o: ArtworkId)
    ensures o != id
  {
    if id == 1 then 2 else 1
  }

  /** The vote tally: a count per artwork. */
  type Tally = map<ArtworkId, nat>

  /** Both keys are present in a tally. */
  predicate IsTally(t: Tally) {
    1 in t && 2 in t
  }

  /** The tally a round starts with. */
  const EmptyTally: Tally := map[1 := 0, 2 := 0]

  /** One entry of the "recent voters" feed: an origin flag, the artwork chosen and a timestamp in
      milliseconds since the epoch. */
  datatype VoterEvent = VoterEvent(country: string, artworkId: ArtworkId, timestamp: int)

  /** The origin flags a simulated voter is drawn from, as pairs of regional indicator letters:
      US, GB, DE, FR, JP, CA, AU, BR, IN, KR, NL, SE, CH, SG, IL. */
  const Countries: seq<string> := [
    "\U{1F1FA}\U{1F1F8}",
    "\U{1F1EC}\U{1F1E7}",
    "\U{1F1E9}\U{1F1EA}",
    "\U{1F1EB}\U{1F1F7}",
    "\U{1F1EF}\U{1F1F5}",
    "\U{1F1E8}\U{1F1E6}",
    "\U{1F1E6}\U{1F1FA}",
    "\U{1F1E7}\U{1F1F7}",
    "\U{1F1EE}\U{1F1F3}",
    "\U{1F1F0}\U{1F1F7}",
    "\U{1F1F3}\U{1F1F1}",
    "\U{1F1F8}\U{1F1EA}",
    "\U{1F1E8}\U{1F1ED}",
    "\U{1F1F8}\U{1F1EC}",
    "\U{1F1EE}\U{1F1F1}"
  ]

  /** The flag recorded for the local user's own vote: always the US flag. */
  const LocalUserCountry: string := "\U{1F1FA}\U{1F1F8}"
}
