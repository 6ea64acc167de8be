# AI Art Battle Arena: round and vote controller

The page shows two artworks side by side and runs hour-long voting rounds. Six pieces of state
drive it: the two-entry vote tally, the local user's vote, the milliseconds left in the round,
the round number, the feed of recent voters and a vote-in-flight flag. Four callbacks change
that state:

- the round timer, once per second;
- the simulated voter feed, which adds a random vote;
- the start of the local user's vote, which is guarded;
- the completion of that vote after an artificial delay.

On every render the page also derives the total, the two percentage shares, the leading artwork
and the countdown text from that state.

The model has four modules:

- `Battle`: constants and value types. These are the round length, the tick length, the artwork
  ids 1 and 2, the tally map, the voter event and the fifteen origin flags.
- `RecentVoters`: `Prepend10`, the bounded newest-first feed update. It comes with a reference
  meaning, `Newest` (the ten most recent events of the round, newest first), and the lemma that
  connects the two.
- `Display`: total, shares in exact `real` arithmetic, leader, and `formatTime`. It includes the
  decimal text of a natural number with its read-back, so the `m:ss` text is proved to read back
  as the right minutes and seconds.
- `Controller`: class `Arena` holds the six fields and one method per callback. The ghost field
  `ballots` is the list of votes accepted since the round began. `Valid()` ties the tally, the
  feed and the user's vote to it. The tally counts that round's ballots per artwork. The feed is
  `Newest` of their events. The local user has exactly one ballot when `userVote` is set, and
  none otherwise. The ghost field `pending` is the artwork id held by the suspended vote handler.
  `Valid()` also keeps the remaining time a positive multiple of 1000 no larger than one hour.

Two behaviours of the code are kept as they are. First, the reset on the last tick does not
touch `isVoting`. Second, the completion of a vote does not check the guard again. A vote still
in flight when the round resets therefore lands in the new round, and it is that round's only
user vote.

The timer resets the round when at most 1000 ms remain, not when the time reaches zero as a
plain description of the timer would suggest. Since the remaining time is always a positive
multiple of 1000, the clock goes from `0:01` straight to `60:00` and never shows `0:00`
(`Display.ClockNeverZero`). The model follows the code.

The flag literals in src/App.jsx show up as mis-decoded text. The model uses the flags those
bytes spell, written as pairs of regional indicator letters: US, GB, DE, FR, JP, CA, AU, BR, IN,
KR, NL, SE, CH, SG and IL. The local user's flag is the US one.

## Model

| member | source | states |
|---|---|---|
| `RecentVoters.Prepend10` | src/App.jsx:90-93 | the new entry is at index 0, the length is min(old length + 1, 10), and entry i >= 1 is old entry i - 1, so the feed never exceeds 10 entries |
| `RecentVoters.PrependKeepsNewest` | src/App.jsx:90-93 | prepending an event to the feed of a history gives the feed of the history extended by that event: the feed is always the ten most recent events |
| `RecentVoters.NewestFirst` | src/App.jsx:116-119 | the feed of a history has min(n, 10) entries; entry 0 is the newest event and entry i is the i-th before it |
| `Display.TotalVotes` | src/App.jsx:122 | the total is at least each tally, the two tallies make it up exactly, and it is zero only when both tallies are zero |
| `Display.Share` | src/App.jsx:123-126 | each share lies in [0, 100] and is exactly 50 when no vote has been cast |
| `Display.SharesSum` | src/App.jsx:123-126 | the two shares always add up to 100, including the 50/50 fallback |
| `Display.Leader` | src/App.jsx:134 | the leader is 1 exactly when artwork 1 has strictly more votes, 2 exactly when artwork 2 has, and there is none exactly on a tie |
| `Display.LeaderByShare` | src/App.jsx:122-134 | an artwork leads exactly when its share is above 50, and there is no leader exactly when the shares are equal |
| `Display.Decimal` | src/App.jsx:131 | the decimal text of a number is non-empty digits without a leading zero, one digit below 10 and at most two below 100 |
| `Display.DecimalRoundTrip` | src/App.jsx:131 | reading the decimal text back gives the number |
| `Display.PadStart2` | src/App.jsx:131 | padding makes the text at least two characters long by adding '0's in front and keeps the original text as its suffix |
| `Display.FormatTimeMeaning` | src/App.jsx:128-132 | the countdown text ends in ':' and two digits, and it reads back as minutes m and seconds s < 60 with m*60000 + s*1000 <= ms < m*60000 + s*1000 + 1000 |
| `Display.FormatRoundDuration` | src/App.jsx:15 | a full round of 3,600,000 ms reads "60:00" |
| `Display.ClockNeverZero` | src/App.jsx:64-72 | with at least one tick length left the clock does not read "0:00" |
| `Controller.CountsCoverBallots` | src/App.jsx:122 | each accepted ballot is counted for exactly one artwork, so the total equals the number of ballots |
| `Controller.Arena.constructor` | src/App.jsx:53-58 | the page starts in round 1 with a full hour, a {1:0, 2:0} tally, no user vote, an empty feed and no vote in flight |
| `Controller.Arena.Tick` | src/App.jsx:63-73 | with more than 1000 ms left it subtracts exactly 1000 and changes nothing else. Otherwise it resets the tally to {1:0, 2:0}, clears the user vote, the feed and the round's ballots, adds exactly 1 to the round and reloads the full hour, leaving the in-flight flag as it was |
| `Controller.Arena.SimulatedVote` | src/App.jsx:82-93 | it adds one to exactly the chosen artwork's tally and prepends an entry whose origin is one of the fifteen flags. The user vote, time, round and in-flight flag do not change. The invariant is kept |
| `Controller.Arena.BeginVote` | src/App.jsx:99-102 | when the user has already voted or a vote is in flight, the same condition that disables the buttons (src/App.jsx:245), nothing changes. Otherwise only the in-flight flag is set, for the chosen artwork |
| `Controller.Arena.CompleteVote` | src/App.jsx:107-119 | it adds one to the chosen artwork's tally, records the user's choice, clears the in-flight flag and prepends an entry with the local user's flag. The user then has exactly one ballot in the round |
| `Controller.Arena.TotalVotesNow` | src/App.jsx:122 | the displayed total equals the number of votes accepted since the round began |

## Left out

- Rendering: the markup, animations, UI components, styling, accessibility attributes and label
  texts. They are presentation only.
- The analytics component. It is a foreign library with no logic here.
- The image imports and the artwork titles and descriptions. They are static data; only the ids
  1 and 2 are modelled.
- Scheduling. The one-second interval, the random 2-5 s interval of the simulated feed, the
  500 ms delay and the clearing of the intervals on teardown are not modelled. Each callback is
  one atomic method call, and the order of calls stands for the event loop's interleaving.
- `Math.random()` and `Date.now()`. The chosen artwork, the flag index and the timestamp are
  parameters. `SimulatedVote` requires the flag index to be below 15, which is what
  `Math.floor(Math.random() * 15)` yields.
- Floating point. The shares are exact `real` values, and the one-decimal rendering with
  `toFixed(1)` is not modelled.
- React's batching of state updates. The setters called inside the timer's updater are one
  atomic reset.
- Controller.Arena.CompleteVote: requires that the suspended vote is for `artworkId`. The code
  reaches the completion only after an accepted start, and nothing else clears the in-flight
  flag. The guard reads the state of the last render; the model assumes every click sees the
  state left by the previous step.
- Display.TotalVotes: the tally map always holds both keys, so JavaScript's `undefined + n`
  (NaN) case is not modelled.
