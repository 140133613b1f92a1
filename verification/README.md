# Now-playing aggregator: a Dafny model of its core

This project models the in-memory core of a small now-playing server and the
pure helpers of its dashboard widget.

Reporters (browser userscripts and other integrations) post partial "now playing"
records for a fixed set of sources: `spotify`, `ytmusic`, `youtube`, `mpris`
and `other`. The server merges each report into the previous record of its
source. A local-player bridge watches the media players on the session bus and
copies the preferred one into the `mpris` record. Tamper suppression hides
that record while a trusted browser source is fresh. `GET /nowplaying`
arbitrates between the records: the newest fresh playing source wins, else
the newest fresh source, else nothing. Commands posted by the widget go into a
single-slot register that pollers read by id, and, unless tamper suppression
is on, they are carried out on the preferred local player.

Modelling choices:

- Time is an explicit `now` parameter.
- The configuration (`STALE_MS`, `TM_TTL_MS`, `TM_SOURCES`, `MPRIS_PREFER`)
  is a `Config` record.
- JavaScript values are one `JsValue` datatype, together with the coercions
  the code applies to them: truthiness, `String(v)`, `Number(v)`, `v == null`
  and the bus's variant unwrapping.
- Numbers are integers. A failed `Number(...)` conversion (NaN) is `None`.
- The store of records is a datatype with one field per source key.
- The bridge's player map is a sequence of snapshots in insertion order.
- Every bus call is replaced by its result. Replies to property queries are
  inputs. A command returns the call it would issue, and a flag supplies
  whether that call succeeded.
- A stable sort followed by taking element 0 is modelled as the first index
  at which the optimum occurs.

Modules, one per file:

| file | contents |
|---|---|
| `wrappers.dfy`, `seqs.dfy`, `strings.dfy` | `Option`, order-preserving filtering, and `trim` / ASCII `toLowerCase` / `includes` / decimal rendering |
| `jsvalues.dfy` | `JsValue` and its coercions, `cleanStr`, `asNumber`, `variantVal` |
| `settings.dfy` | the configuration and its defaults |
| `sourcestates.dfy` | `normSource`, the per-source record, `sanitizeIncoming`, the store and `POST /nowplaying` |
| `arbitration.dfy` | `isFresh`, `isTamperFresh`, `pickActive` and the per-source listing |
| `players.dfy` | `hintTerms`, `matchesHint`, `preferRank`, `chooseMprisPlayer` |
| `metadata.dfy` | `yearFromAny`, `parseMetadata` |
| `bridge.dfy` | snapshots, the `Seeked` signal, rescans, `syncMprisToState`, `execMprisCommand` |
| `commands.dfy` | the `cmd` register, `POST /command` and `GET /command` |
| `server.dfy` | the command route with tamper suppression, and the `GET /nowplaying` reply |
| `widget.dfy` | `getEnvKey`, `fmtMs`, `escHtml`, the displayed-year guard |
| `scenarios.dfy` | concrete runs: two reporting sources, a hinted raise, three commands, tamper suppression |

Behaviours of the code worth noting, which the model keeps:

- A report carrying `year: null` (or `""`) stores year 0, because
  `Number(null)` is a finite 0. Blank text fields keep their previous value.
- The bridge copies a snapshot without a year into the `mpris` record as
  year 0, not as null.
- A seek without a known track id computes its relative offset from the
  stored `mpris` position. That position was set at the last tick; the seek
  does not interpolate it to the present.
- A seek uses the chosen player's track id, else the one last copied into the
  `mpris` record, even when that record came from another player.

## Model

| member | source | states |
|---|---|---|
| JsValues.CleanStr | server.js:100-104 | null exactly for null, undefined or text that is all white space; otherwise the trimmed rendering, which is non-empty and trims to itself |
| Strings.Trim | server.js:102 | `trim()` gives the text between a leading and a trailing run of white space; it is not padded, and it is empty exactly for all-blank text |
| JsValues.CleanStrIdempotent | server.js:100-104 | cleaning an already cleaned value changes nothing, so the bridge's second `cleanStr` on snapshot text is harmless |
| JsValues.VariantVal | server.js:283-285 | a dictionary holding `value` is replaced by that value; anything else passes through |
| JsValues.AsNumber | server.js:274-281 | null and undefined read as 0; anything else as `Number(v)` |
| JsValues.VariantValUnwrapsOnce | server.js:283-285 | `variantVal` removes exactly one level of variant wrapping |
| JsValues.NumberOfDecimal | server.js:675 | `Number(String(n))` is `n` for every integer, so an id sent back as a query string compares as the number it was |
| SourceStates.KeyOfText | server.js:82-90 | a normalised source name selects the key whose alias list contains it, the alias lists do not overlap, and anything else is `other` |
| SourceStates.NormSource | server.js:82-90 | a report is filed under the key whose alias list holds its normalised source text, and under `other` when none does |
| SourceStates.NormSourceOfKeyName | server.js:82-90 | a report naming a key by its own name is filed under that key |
| SourceStates.BlankState | server.js:54-72 | a blank record is unwritten (`ts` 0), paused, without text, and satisfies the position invariant |
| SourceStates.Clamp | server.js:96-98 | for a non-empty range the result is `n` when it lies inside, `lo` below it and `hi` above it; an empty range gives `hi` |
| SourceStates.MergeText | server.js:122-127 | a null, undefined or blank input keeps the previous text; anything else replaces it, trimmed |
| SourceStates.Sanitize | server.js:106-133 | keeps the source, stamps `now`, takes `playing` from the report, keeps the position inside a positive duration, preserves validity, leaves the bridge fields alone |
| SourceStates.SanitizeMergesText | server.js:122-127 | each of the five text fields is merged as `MergeText` describes |
| SourceStates.SanitizeNumbers | server.js:109-125 | a numeric duration is taken (negative as 0), a missing one keeps the old value; an in-range position, reported or kept, is taken exactly, a negative one becomes 0 and one past a known duration becomes the duration; a finite `Number(year)` replaces the year, NaN keeps it |
| SourceStates.SanitizeNullYear | server.js:125 | an explicit null year stores 0 |
| SourceStates.SanitizeEmptyReport | server.js:106-133 | an empty report only clears `playing` and stamps the time |
| SourceStates.InitialStore | server.js:74-80 | every key starts with a blank record of its own source, unwritten |
| SourceStates.Write | server.js:649-653 | a report changes only the record of its key, stamps it `now`, and keeps every record under its key and inside its duration |
| SourceStates.Report | server.js:646-656 | a report rewrites only the record of its normalised source, as `Sanitize` merges it into the previous one, and keeps the store's invariants |
| SourceStates.ReportAllKeepsInvariants | server.js:646-656 | after any sequence of reports, every record is still under its own key and its position inside its duration |
| Arbitration.FreshnessLapses | server.js:142-144 | freshness only lapses with time, and a never-written record is never fresh |
| Arbitration.DefaultTamperSources | server.js:146-152 | with the default settings tamper suppression is on exactly while the YouTube Music or YouTube record is at most 12 s old |
| Arbitration.StaleIffNotFresh | server.js:142-161 | `pickActive`'s age test and `isFresh` agree: an entry is stale exactly when it is not fresh |
| Arbitration.NewestIndex | server.js:168 | the entry a stable newest-first sort puts first has the largest `ts`, and every earlier entry is strictly older |
| Arbitration.EligibleList | server.js:155-165 | the fresh list holds exactly the entries that are fresh and not the suppressed bridge entry |
| Arbitration.PickFrom | server.js:165-177 | the newest playing entry when one plays, else the newest entry, else none with `stale` set |
| Arbitration.PickActive | server.js:154-178 | total; the result is active exactly when the reason is not "none", never stale, never the suppressed bridge; "playing" exactly when a fresh entry plays, and then the newest playing entry |
| Arbitration.PlayingBeatsNewerPaused | server.js:165-170 | a fresh playing entry wins over any fresh paused one, however much newer |
| Arbitration.NewestPlayingWins | server.js:166-169 | among fresh playing entries the strictly newest is the result, reason "playing" |
| Arbitration.Listing | server.js:628-635 | every key is listed with its record, except the bridge's, which is null exactly while tamper suppression is on |
| Arbitration.TamperHidesBridge | server.js:146-158 | while a trusted source is fresh, the bridge record is neither active nor listed |
| Players.MatchesHint | server.js:304-309 | a name matches exactly when its lower case contains one of the non-empty hint terms |
| Players.MatchesSingleTerm | server.js:294-309 | for a hint with a single term, a match means containing that term |
| Players.HintSelects | server.js:294-309 | a blank hint matches nothing; "spotify" matches names containing it; "youtube" and "ytmusic" match names containing one of the browser names; any other hint matches names containing its lower-cased text |
| Players.PreferRank | server.js:287-292 | the index of the first preference entry the name contains, or 999 when none does |
| Players.FirstBestIndex | server.js:322-334 | the key a stable sort puts first: nothing sorts before it, and it sorts strictly before every earlier key |
| Players.CandidateList | server.js:316-320 | the candidates are the playing members of the freshish set (or of all players when none is freshish), or the whole set when none plays; never empty for a non-empty table |
| Players.ChoosePlayer | server.js:311-335 | none exactly when there are no players; otherwise a candidate that no other candidate sorts before |
| Players.HintMatchWins | server.js:322-325 | when some candidate matches the hint, the chosen player matches it |
| Players.ChoiceIsFreshish | server.js:316-317 | when any player is freshish, the chosen one is |
| Players.ChoiceIsPlaying | server.js:319-320 | when any member of the base set plays, the chosen one plays |
| Players.RankThenRecency | server.js:327-331 | among candidates that agree on the hint, the chosen one has the best rank, and among equal ranks the newest `ts` |
| Metadata.FirstYearIndex | server.js:370 | the leftmost offset where a whole-word 19xx or 20xx occurs, or -1 when none does |
| Metadata.YearIn | server.js:370-371 | a year exactly when the pattern occurs; then the value of its leftmost occurrence |
| Metadata.YearFromAny | server.js:367-372 | no year for a missing or blank value; otherwise the first year in its cleaned text, within 1900..2099 |
| Metadata.CleanAll | server.js:387 | the cleaned artist entries are all non-empty, and the list is empty exactly when every entry cleans to null |
| Metadata.CleanAllAppend | server.js:387 | cleaning a concatenation of lists cleans each part and keeps them in order, so each entry sits where its list put it |
| Metadata.CleanAllSingle | server.js:387 | a one-entry list keeps its cleaned entry unless it is blank, in which case it is dropped |
| Seqs.SomesAppend | server.js:387 | `.filter(Boolean)` after `.map(cleanStr)` keeps the present values of each part, in order |
| Seqs.FilterAppend | server.js:165-166 | `filter` of a concatenation is the concatenation of the filtered parts, so the kept elements keep their order |
| Metadata.ArtistOf | server.js:384-391 | a list gives its cleaned non-blank entries joined with ", " (entry by entry and in order, by `CleanAllAppend` and `CleanAllSingle`), and no artist exactly when every entry is blank; anything else is cleaned as one value |
| Strings.SplitJoin | server.js:388 | splitting a `join(", ")` on ", " gives back the pieces, in order, when none of them contains the separator |
| Strings.NatToDecimal | homepagedev-custom.js:87-89 | the decimal digits of a number, with no leading zero except for 0 itself |
| Metadata.ArtistListReadsBack | server.js:384-391 | the artist field of a list can be read back: splitting it on ", " gives `CleanAll` of the entries, that is the cleaned non-blank entries in their order |
| Metadata.ParsedTextIsClean | server.js:374-406 | every text field of a parsed track is absent or non-empty and trimmed, a joined artist list included |
| Metadata.LengthMs | server.js:400-401 | the whole milliseconds a positive microsecond length contains, else 0 |
| Metadata.ParseMetadata | server.js:374-406 | title, album and cover are the cleaned variants; the artist is `ArtistOf` the artist entry; the URL falls back to the comment; any year is in 1900..2099; the duration is the whole milliseconds of a positive length; a track id is kept exactly when it is truthy, as its text |
| Metadata.YearPriority | server.js:378-382 | the year is the date's, else the creation date's, else the comment's; none only when all three lack one |
| Metadata.UrlFallsBackToComment | server.js:393-396 | the URL is the cleaned URL field, else the cleaned comment, and null only when both are |
| Metadata.DurationFromLength | server.js:400-401 | a positive length of `us` microseconds gives `floor(us / 1000)` milliseconds |
| Bridge.IndexOfName | server.js:462 | the position of the snapshot with a given name, or -1 exactly when no snapshot has it |
| Bridge.Upsert | server.js:462 | `players.set` appends a snapshot with a new name at the end and puts one with a known name into that name's slot; other snapshots stay, and names stay unique |
| Bridge.Forget | server.js:593-596 | a player leaving the bus loses exactly its snapshot; the rest keep unique names |
| Bridge.ForgetKeepsOrder | server.js:593-596 | `Map.delete` keeps the insertion order of the rest: forgetting in a split table forgets in each part, and one snapshot stays exactly when it has another name |
| Bridge.Prune | server.js:500-506 | after a rescan exactly the snapshots of players still on the bus remain, with unique names |
| Bridge.PruneKeepsOrder | server.js:500-506 | the pruned table keeps its insertion order: pruning a split table prunes each part, and one snapshot stays exactly when its name is still on the bus |
| Bridge.IsPlayingStatus | server.js:435-436 | playing exactly when the cleaned status lower-cases to "playing" |
| Bridge.PositionMs | server.js:441-442 | the whole milliseconds of a positive `Position`, else 0 |
| Bridge.MetadataOf | server.js:438 | the unwrapped `Metadata` dictionary, or an empty one when it is missing or not a dictionary |
| Bridge.Snapshot | server.js:422-463 | a refresh stamps name and time, takes the position as its own interpolation base, sets `playing` from the status, and holds every track field exactly as parsed from the metadata |
| Bridge.SeekedMs | server.js:479 | the whole milliseconds a non-negative microsecond offset contains; a negative offset gives 0 |
| Bridge.OnSeeked | server.js:476-485 | the signal moves only the named player's snapshot, to the new position with a base taken now; an unknown player changes nothing |
| Bridge.ProjectPosition | server.js:342-349 | base plus elapsed time while playing with a base, else the stored position; clamped into `[0, duration]` for a known duration and to at least 0 otherwise |
| Bridge.ProjectionAdvances | server.js:344-348 | while playing, the projected position never moves backwards in time |
| Bridge.ProjectionAtBase | server.js:358-364 | a snapshot whose base was just taken projects to its stored position |
| Bridge.ProjectionHoldsWhenPaused | server.js:342-349 | a paused snapshot, or one without a base, projects to the same position at any time |
| Bridge.MprisRecord | server.js:351-364 | the copy keeps the source, stamps `now`, stores the projected position as the new base and a non-negative duration; the text fields are the cleaned texts of the snapshot, a missing year becomes 0, the track id and player name are carried over; the record is valid |
| Bridge.Sync | server.js:337-365 | only the `mpris` record changes, and only when there is a player; it becomes the copy of the player chosen without a hint |
| Bridge.SyncKeepsInvariants | server.js:337-365 | a sync keeps every record under its own key and inside its duration |
| Bridge.SyncCopiesTrack | server.js:351-364 | clean text and the track id come through the copy unchanged; a missing year becomes 0 |
| Bridge.RefreshedTrackReachesStore | server.js:351-364 | the track a refresh parsed from the metadata reaches the `mpris` record unchanged: title, artist, album, URL, cover, track id and duration |
| Bridge.Tick | server.js:601-604 | before the bus is connected, or with no player, the periodic tick changes nothing; otherwise only the `mpris` record changes, to the copy of the hintless choice, and the store invariants are kept |
| Bridge.CommandHint | server.js:514 | only a raise carries a hint, the cleaned value; other commands choose without one |
| Bridge.SeekTarget | server.js:535 | the seek target is the positive number given, else 0 |
| Bridge.SeekCallFor | server.js:536-551 | an absolute `SetPosition` to the target when a track id is known, else a relative `Seek` from the stored position that lands on the target |
| Bridge.Seeked | server.js:541-555 | after a seek the chosen snapshot holds the target as position and base, stamped now, and every other field, its track included, is as before; it projects to the target at once |
| Bridge.Dispatch | server.js:521-561 | raise calls `Raise` unless `CanRaise` is false, toggle/next/prev call `PlayPause`/`Next`/`Previous`, seek issues `SeekCallFor` the target; each reports success exactly when its call succeeds; unknown actions do nothing; only a successful seek changes the table, by writing the seeked snapshot |
| Bridge.Exec | server.js:511-565 | nothing happens before the bus is up or without a player; otherwise the command is dispatched, as `Dispatch` states, on the player chosen with the command's hint |
| Bridge.CallOutcomeDecides | server.js:521-557 | with the bus up and a player present, every known command except a refused raise issues a call and succeeds exactly when that call does |
| Bridge.ExecKeepsNamesUnique | server.js:534-558 | commands keep the player table keyed by name |
| Bridge.SeekUpdatesChosen | server.js:534-558 | a successful seek puts the chosen player at the target with a base taken now, so it projects to the target |
| Bridge.FailedCallChangesNothing | server.js:518-564 | a failed bus call reports failure and leaves every snapshot as it was |
| Bridge.NoRaiseWhenRefused | server.js:521-525 | a player whose `CanRaise` is false is not raised |
| Commands.ActionText | server.js:662 | the action is the trimmed text of a truthy value, empty for a falsy one or for white space |
| Commands.ValueOf | server.js:663 | a missing value becomes null; any other value is kept |
| Commands.Accept | server.js:661-667 | a blank action is refused; otherwise the new record has the next id, the trimmed action, the value and `now` |
| Commands.Poll | server.js:674-678 | the record is returned exactly when `since` is not a number or is smaller than its id |
| Commands.PollWithDecimal | server.js:674-677 | polling with the decimal text of `n` returns the record exactly when its id exceeds `n` |
| Commands.PollSeesEachCommandOnce | server.js:667-677 | a poller that saw the previous id gets the new record, and does not get it again once it has seen its id |
| Commands.AcceptAll | server.js:658-672 | over any sequence of requests the ids handed out are consecutive from `id + 1`, one per request with an action |
| Server.Submit | server.js:658-672 | a blank action is refused; an accepted command gets the next id; under tamper suppression nothing is executed or called |
| Server.SubmitExecutesWhenTrusted | server.js:669 | without tamper suppression a command is exactly what the bridge makes of it |
| Server.NowPlaying | server.js:625-644 | the reply carries the arbitration and the listing; its active record is listed under its own key, and while a trusted source is fresh the bridge is neither active nor listed |
| Server.ActiveIsListed | server.js:625-644 | for a well-formed store the active record of the arbitration is the listing's entry under its own key |
| Widget.GetEnvKey | homepagedev-custom.js:26-32 | the trimmed text unless it is empty, a `{{...}}` placeholder or names a variable, in which case "" |
| Widget.GetEnvKeyIdempotent | homepagedev-custom.js:26-32 | a key that passes the filter passes it again unchanged |
| Widget.VariableNameRefused | homepagedev-custom.js:30 | text naming `HOMEPAGE_VAR_` anywhere is refused |
| Widget.ToInt32 | homepagedev-custom.js:85 | `x \| 0` is the signed 32-bit value congruent to `x`, and `x` itself inside the range |
| Widget.Pad2 | homepagedev-custom.js:88 | two digits that read back as the number |
| Widget.FmtMs | homepagedev-custom.js:84-90 | digits, a colon, and two digits |
| Widget.FmtMsReadsBack | homepagedev-custom.js:84-90 | the minutes are the unpadded decimal of the whole minutes, and minutes times 60 plus the seconds read back to the whole seconds, with the seconds below 60 |
| Widget.FmtMsNegative | homepagedev-custom.js:85 | negative durations show as `0:00` |
| Widget.FmtMsWraps | homepagedev-custom.js:85 | a duration from 2^31 up to 2^32 ms turns negative under the signed 32-bit conversion and shows as `0:00` |
| Widget.EscChainIsPerChar | homepagedev-custom.js:96-103 | the five global replacements, `&` first, equal escaping each character on its own |
| Widget.EscHtml | homepagedev-custom.js:96-103 | `escHtml` escapes each character of the text of a truthy value, and gives "" for a falsy one |
| Widget.EscapeEachSafe | homepagedev-custom.js:96-103 | escaped text has no raw `<`, `>`, `"` or `'`, and every `&` in it begins an entity |
| Widget.UnescapeEscape | homepagedev-custom.js:96-103 | decoding the five entities gives back the original text |
| Widget.EscHtmlSafe | homepagedev-custom.js:96-103 | `escHtml` output is safe in markup and decodes to its input's text |
| Widget.DisplayYear | homepagedev-custom.js:419-420 | a year inside 1900..2100 is shown as that number; a falsy, non-numeric or out-of-range year becomes 0, which hides it |
| Widget.StoredYearShown | homepagedev-custom.js:419-420 | a year in the metadata range is displayed; the 0 stored for a missing year is not |
| Widget.MetadataYearShown | homepagedev-custom.js:419-420 | a year a local player reports in its metadata survives the refresh and the sync into the `mpris` record and is displayed; a track without a year shows none |
| Scenarios.NewerPlayingSourceWins | server.js:154-178 | Spotify playing, then YouTube Music playing shortly after: YouTube Music is active, and Spotify keeps its reported position |
| Scenarios.HintBeatsRecency | server.js:311-335 | a raise towards one player picks it over a playing player refreshed more recently |
| Scenarios.EdgeMatchesYtMusicHint | server.js:294-309 | a raise towards YouTube Music matches the `edge` player |
| Scenarios.BraveMatchesYtMusicHint | server.js:294-309 | a raise towards YouTube Music matches the `brave` player |
| Scenarios.MpvMissesYtMusicHint | server.js:294-309 | a raise towards YouTube Music does not match `mpv` |
| Scenarios.InterpolationExample | server.js:342-349 | a playing base of 10000 ms looked at 2500 ms later is at 12500 ms, or at the end of a shorter track |
| Scenarios.ThreeCommands | server.js:667-677 | three commands get ids 1, 2, 3; a poller at 2 gets the third, one at 3 gets nothing |
| Scenarios.TamperBeatsPlayingBridge | server.js:146-178 | a fresh paused trusted source is active over the playing bridge record |

## Left out

- HTTP routing, CORS, `auth`, `/widget-key` and the `/cover` proxy: network and file I/O. The model starts from the parsed request body.
- Cover URL rewriting and the client source labels in `mapStateForClient`: they depend on request headers and only change presentation. The listing returns the stored records.
- The bus transport: `getMprisIfaces`, the `GetAll` call, event subscriptions, `attachMprisPlayer`, `startMpris` and the timers. Their results are inputs (property replies, the names on the bus, success flags), and the periodic sync is `Bridge.Tick`.
- Environment parsing: the configuration is a parameter, with the defaults in `Settings.DefaultConfig`.
- The widget's DOM, fetch, `localStorage`, window and observer code, `normArtist`, and the Spotify URL helper.
- Floating point: every number is an integer. `Math.floor` of an integer is the integer itself, and so sanitized positions and durations are integers by construction.
- `Number(text)` parses only optionally signed decimal integers, surrounded by white space or blank. Hexadecimal, exponent, fractional and `Infinity` text is read as NaN.
- JsValues.AsNumber: the `bigint` and `valueOf` branches are not modelled; a value is converted with `Number(v)` as the model defines it.
- Strings.ToLower: lower-cases only ASCII letters, not the full Unicode case mapping of `toLowerCase`.
- Bridge.OnSeeked: the signal's position is an integer, as the 64-bit bus argument is; a non-numeric value cannot arrive.
- Metadata.ParseMetadata: a truthy track id is stored as its string rendering; an array-valued track id, which the code would keep as an array, becomes its joined text.
- Widget.FmtMs: takes an integer number of milliseconds; fractional inputs are not modelled.
- The console logging in `refreshMprisPlayer`.
- Bridge.Exec: a command is one atomic step. In the code, `execMprisCommand` awaits the bus interfaces and the call before it writes `chosen` back. A refresh or a player leaving the bus during those awaits is therefore overwritten by the stale snapshot, which can even re-add a departed player. The model does not interleave commands with other events.
- Arbitration.PickActive: the active record is the stored record. The code adds the computed `age` and `stale` fields to it, and the model leaves them out.
- Arbitration.PickActive: among fresh entries with equal timestamps the code returns the first in the state table's key order, since the sort is stable. The contract promises a newest entry but not which of several. `NewestIndex` states the first-index rule and `Seqs.FilterAppend` that filtering keeps order, but the two are not combined into the contract.
- Players.ChoosePlayer: likewise, among candidates with equal sort keys the code returns the first in the bridge's insertion order. `FirstBestIndex` states this rule for the candidate list, but the contract promises only a candidate that nothing sorts before.
- Server.NowPlaying: the reply's `stale` and `reason` fields are in the `Pick` it carries. Its `ts` field is the clock and is not modelled.
