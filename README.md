# GitHub Repository Bot — a Dafny model of its core

The bot (`main.py`) polls the GitHub account configured in `GITHUB_USERNAME`. Every
60 seconds it posts an embed to a Discord channel for each repository created since
its last check. Owner-only chat commands edit the bot's TOML configuration. This
project models the sequential logic behind the network and Discord calls and proves
properties of it:

- **the polling step** (`watcher.dfy`). A class `Watcher.RepoWatcher` holds
  `seen_repos` (`seen`) and `last_check` (`lastCheck`). Its `Cycle` method runs one
  turn of the `while True` loop in `on_ready`. The fetch result, the username and
  "now" are parameters. The method returns which repositories were announced, in
  posting order. The sort is a stable insertion sort (`SortNewestFirst`), newest
  first. The `for` loop is the method `AnnounceNew`, proved against the
  specification function `Announce`.
- **the timestamp parser** (`timestamps.dfy`): `datetime.strptime(s,
  "%Y-%m-%dT%H:%M:%SZ")` as `Parse`, with datetime's range checks (years 1–9999, real
  calendar days, no second 60), the chronological order `Before`, and the canonical
  spelling `Format` as its inverse.
- **colours** (`colour.dfy`): `hex_to_int` as `HexToInt`, and the colour check of
  `set_embed` (the `0x`→`#` rewrite, then the regular expression) as `IsValidColour`.
  `str.replace` and ASCII `str.lower` are in `strings.dfy`.
- **configuration commands** (`settings.dfy`, `collections.dfy`): a class
  `Settings.BotConfig` with `BOT.Owner`, `Server.owners` and the `[Embed]` table, and
  the methods `AddOwner`, `RemoveOwner`, `ListOwners` and `SetEmbed`, each guarded by
  `IsOwner` (`is_owner`).

What the code does, and what the model therefore states:

- A repository is announced when its `created_at` is strictly after `last_check` and
  its id is not in `seen_repos`. Its id is then added to `seen_repos`, which never
  shrinks. So no id is announced twice, not even when it occurs twice in one batch.
  The class keeps a ghost log of all announced ids. Its invariant `Valid()` says the
  log has no repetition and its elements are exactly `seen`.
- `last_check` starts at the time `on_ready` runs. It moves to "now" after every
  non-empty successful fetch, even when nothing was announced. While `utcnow()` never
  goes back, `last_check` never falls below the start time. So a repository created
  before startup is never announced and never added to `seen_repos`. The class keeps
  the start time as a ghost field `startedAt`. `ClockSane()` says that `last_check` is
  not before it. `Cycle` keeps `ClockSane()` whenever `now` is not before the old
  `last_check`. While it holds, everything announced was created after the start.
  With a clock that goes back, the code has no such guarantee, and neither does the
  model.
- Announcements come newest first. Equal creation times keep the fetched order,
  because Python's `sorted` is stable also with `reverse=True`.
- An empty username, a failed fetch (`None`, for a status other than 200) and an
  empty list change nothing.
- Two exceptions end the polling loop for good, because nothing in `on_ready` catches
  them. The first is a fetch that raises: `session.get` fails, or `response.json()`
  cannot decode a 200 body. The second is a `created_at` that `strptime` rejects,
  which raises `ValueError`. Python computes every sort key before it sorts, so
  nothing has been announced when that happens. The model marks both with the flag
  `stopped`: `Cycle` requires it to be false, because no further turn runs.
- `last_check` is read from `utcnow()` after the announcements are sent (main.py:146),
  not when the list is fetched. A repository created between the fetch and that line
  is therefore older than the new `last_check` and is never announced. `Cycle` takes
  `now` as a parameter and puts no bound on it, so the model does not exhibit this
  gap; it is a property of the code as written.
- `add_owner` and `remove_owner` edit `Server.owners`. `is_owner` checks
  `BOT.Owner`. So adding an owner does not let that user run owner commands. The
  methods state this as `IsOwner(user) == old(IsOwner(user))`.
- The colour check rewrites `0x` to `#` before it applies the pattern. So `0xfff`
  passes too. The pattern's `^0x…` alternative can never match. Every colour the check
  accepts is one `hex_to_int` reads without raising. `SetEmbed` therefore keeps the
  colour that the polling loop decodes readable.

The code has no path that edits messages it posted earlier. `last_check` moves after
every non-empty successful fetch, not just once at startup. Announcements come newest
first, and ties keep the fetched order.

Where time is compared, `now` is `utcnow()` truncated to whole seconds. Creation
times carry whole seconds, so `created > last_check` gives the same answer on the
truncated value.

## Model

| member | source | states |
|---|---|---|
| `Strings.ReplaceAll` | main.py:36 | `str.replace` scans from the left and replaces non-overlapping occurrences; every character of the result comes from the input or the replacement, and removal never lengthens the string |
| `Strings.ReplaceAbsent` | main.py:36 | a string that lacks the pattern's last character is left unchanged by the replacement |
| `Strings.RemovedCharGone` | main.py:36 | `replace('#', '')` leaves no `#` behind |
| `Strings.RewriteLeavesNoZeroX` | main.py:226 | after `replace('0x', '#')`, no `0` is followed by `x` |
| `Strings.Lower` | main.py:217-233 | `str.lower` on ASCII: same length, each upper-case letter mapped to its lower-case one, everything else kept, no upper-case letter left |
| `Colour.HexValue` | main.py:37 | the base-16 value of hex digits lies below 16 to the number of digits |
| `Colour.ParseHex` | main.py:37 | `int(s, 16)` succeeds exactly on non-empty strings of hex digits (either case) |
| `Colour.ToHex` | main.py:37 | the shortest hex spelling of a number is a non-empty string of hex digits |
| `Colour.ToHexRoundTrip` | main.py:37 | `int(s, 16)` reads back every number from its hex spelling |
| `Colour.HexDigitsUntouched` | main.py:36 | removing `#` and `0x` leaves a plain hex-digit string as it is |
| `Colour.HexToInt` | main.py:35-37 | `hex_to_int`: every `#` removed, then every `0x`, the rest read in base 16; its meaning is stated by `PrefixesIgnored` and `AcceptedColourDecodes` |
| `Colour.PrefixesIgnored` | main.py:35-37 | `hex_to_int` gives the same value for `h`, `#h` and `0xh`: the value of the digits `h` |
| `Colour.MatchesColourPattern` | main.py:225 | the regular expression of the colour check: an optional `#` and 3 or 6 hex digits, or `0x` and 6; its dead second branch is `SecondAlternativeDead` |
| `Colour.IsValidColour` | main.py:225-226 | the colour check: the pattern applied to the value with `0x` rewritten to `#`; `ValidColourShapes` characterises it on the raw value |
| `Colour.SecondAlternativeDead` | main.py:225-226 | after the rewrite, the pattern matches exactly when its first alternative (optional `#`, 3 or 6 hex digits) does |
| `Colour.RewriteWithoutHash` | main.py:226 | a rewrite whose result has no `#` replaced nothing |
| `Colour.ValidColourShapes` | main.py:224-228 | the colour check accepts exactly 3 or 6 hex digits, bare, after `#` or after `0x` (both directions) |
| `Colour.ZeroXShape` | main.py:225-226 | for a value starting with `0x`, the rewritten string matches exactly when the rest is 3 or 6 hex digits |
| `Colour.HashShape` | main.py:225-226 | for a value starting with `#`, the rewritten string matches exactly when the rest is 3 or 6 hex digits |
| `Colour.BareShape` | main.py:225-226 | for a value with neither prefix, the rewritten string matches exactly when the value is 3 or 6 hex digits |
| `Colour.AcceptedColourDecodes` | main.py:224-228 | every colour the check accepts is read by `hex_to_int` without error, as the value of its digits |
| `Colour.ShortColourAccepted` | main.py:225-226 | `#fff` passes the colour check |
| `Colour.LongColourAccepted` | main.py:225-226 | `3498db` passes the colour check |
| `Colour.ZeroXColourAccepted` | main.py:225-226 | `0x3498db` passes the colour check |
| `Colour.FourDigitsRejected` | main.py:225-228 | `#ffff` fails the colour check |
| `Colour.FiveDigitsRejected` | main.py:225-228 | `3498d` fails the colour check |
| `Timestamps.DaysInMonth` | main.py:68 | month lengths lie between 28 and 31, and 29 occurs exactly for February of a leap year |
| `Timestamps.BeforeIsStrictTotalOrder` | main.py:75 | the order of creation times is irreflexive, asymmetric, transitive and total |
| `Timestamps.DecimalValue` | main.py:68 | a fixed-width decimal field is below 10 to its width |
| `Timestamps.Digits` | main.py:68 | a zero-padded field has exactly its width and only digits |
| `Timestamps.Parse` | main.py:68 | a string that parses fits the `%Y-%m-%dT%H:%M:%SZ` layout (ignoring the case of `T`/`Z`) and denotes a date and time that datetime accepts |
| `Timestamps.Format` | main.py:68 | the canonical spelling of a stamp is 20 characters long |
| `Timestamps.DigitsRoundTrip` | main.py:68 | a zero-padded field reads back as the number it spells |
| `Timestamps.DecimalRoundTrip` | main.py:68 | a digit field is the zero-padded spelling of its own value |
| `Timestamps.FormatThenParse` | main.py:68 | every valid stamp reads back from its canonical spelling |
| `Timestamps.ParseThenFormat` | main.py:68 | a parsed string with upper-case `T` and `Z` is the canonical spelling of its stamp |
| `Timestamps.LeapDays` | main.py:68 | Feb 29 is valid in 2024 and 2000 but not in 2023 or 1900; second 60 and year 0 are rejected |
| `Watcher.Keyed` | main.py:66-70 | the sort keys exist exactly when every `created_at` parses; entry i holds the i-th fetched repository, its position and its parsed time |
| `Watcher.KeyedPositions` | main.py:66-70 | the keyed entries carry pairwise distinct fetched positions, which the stable order breaks ties on |
| `Watcher.PrecedesOrder` | main.py:66-70 | the newest-first, stable order is transitive and total on entries at distinct positions |
| `Watcher.ConsNewestFirst` | main.py:66-70 | an entry that precedes every element can go in front of a newest-first list |
| `Watcher.HeadPrecedesInserted` | main.py:66-70 | the head of a newest-first list precedes its tail with one more entry inserted after it |
| `Watcher.Insert` | main.py:66-70 | inserting into a newest-first list keeps it newest-first and adds exactly the one entry |
| `Watcher.SortNewestFirst` | main.py:66-70 | `sorted(..., reverse=True)` yields a permutation in non-increasing creation order with ties in fetched order |
| `Watcher.Announce` | main.py:72-76 | the `for` loop as a recursion: an entry is posted when newer than the cutoff and its id unseen, and its id is seen from then on; `AnnouncedPassed`, `AnnouncedIff`, `AnnouncedFresh` and `AnnouncedNewestFirst` state what it posts |
| `Watcher.AnnouncedPassed` | main.py:72-76 | every announced entry was fetched, is newer than `last_check` and was not in `seen_repos` |
| `Watcher.AnnouncedAfterStart` | main.py:60-76 | with `last_check` at or after the start time, every announced repository was created after the start |
| `Watcher.AnnouncedIff` | main.py:72-76 | an id is announced if and only if it is not yet seen and some fetched entry with that id is newer than `last_check` |
| `Watcher.AnnouncedFresh` | main.py:75-76 | the loop announces no id twice and none from `seen_repos` |
| `Watcher.AnnouncedNewestFirst` | main.py:66-76 | announcements keep the sorted order: newest first, ties in fetched order |
| `Watcher.Expected` | main.py:62-146 | the outcome of one turn: a turn checks exactly when the username is set, the fetch gave a non-empty list and every `created_at` parses; it stops on a malformed timestamp exactly when the username is set, the fetch gave a list and one `created_at` does not parse |
| `Watcher.SortedAnnouncesExactly` | main.py:66-76 | sorting and then announcing posts an id exactly when it is not yet seen and some fetched entry with that id is newer than `last_check` |
| `Watcher.ExpectedChecked` | main.py:62-70 | a turn with a username, a non-empty list and parseable timestamps checks, and posts what announcing the sorted keys gives |
| `Watcher.ExpectedAnnouncesExactly` | main.py:62-76 | when the username is set, the list is non-empty and every timestamp parses, the turn checks, and a repository id is posted exactly when it is new since `last_check` and not yet in `seen_repos` |
| `Watcher.ExpectedFreshAndOrdered` | main.py:59-76 | a turn with a username, a non-empty list and parseable timestamps checks; it posts no id twice and none posted in an earlier turn, newest first with ties in fetched order |
| `Watcher.RepoWatcher.constructor` | main.py:59-60 | at startup nothing is seen, `last_check` is the start time, and the clock invariant holds |
| `Watcher.RepoWatcher.AnnounceNew` | main.py:72-76 | the `for` loop posts exactly `Announce` of the sorted list and adds the posted ids to `seen_repos` |
| `Watcher.RepoWatcher.Cycle` | main.py:62-146 | one turn: no username, a non-200 fetch and an empty list change nothing; a fetch that raises or a bad timestamp stops the loop and changes nothing else; otherwise the announced ids join `seen_repos` and the lifetime log, and `last_check` becomes now, keeping the no-repeat invariant; while `now` does not go back, `last_check` stays at or after the start time and everything announced was created after the start |
| `Collections.IndexOf` | main.py:171 | the position found holds the element and no earlier position does |
| `Collections.RemoveFirst` | main.py:171 | `list.remove` takes out the first occurrence: the elements before it stay in place, those after it move up by one |
| `Collections.RemoveFirstNoDuplicates` | main.py:170-171 | on a list without repetitions, `remove` leaves no occurrence and no repetition |
| `Collections.AppendAbsentNoDuplicates` | main.py:160-161 | appending an absent id keeps the list free of repetitions |
| `Collections.AppendDisjointNoDuplicates` | main.py:75-76 | joining two repetition-free lists with no common element stays repetition-free |
| `Settings.StoredValue` | main.py:230-236 | `show_timestamp` is stored as the boolean `value.lower() == "true"`, every other setting as the given text |
| `Settings.Accepted` | main.py:218-228 | `set_embed` goes on to write exactly when the lower-cased name is one of the five settings and, for `color`, the value passes the colour check; what that means for the colour is `ValidColourShapes` |
| `Settings.EmbedReply` | main.py:217-238 | an unknown setting is refused, a bad colour is refused, and otherwise the lower-cased setting and stored value are reported |
| `Settings.EmbedAfter` | main.py:216-236 | a refused setting leaves `[Embed]` unchanged; an accepted one writes only that key, creating the table when it is missing |
| `Settings.EmbedColour` | main.py:96 | the colour the polling loop reads from `[Embed]`, `#3498db` when the key is missing |
| `Settings.ColourReadable` | main.py:96 | `hex_to_int` does not raise on that colour; `DefaultColourReadable` shows that the fallback table's colour decodes, and `EmbedAfterKeepsColourReadable` shows that `set_embed` keeps a readable colour readable |
| `Settings.BuiltInColoursDecode` | main.py:24 | the default colour `0x3498db` and the fallback `#3498db` decode to the same value |
| `Settings.DefaultColourReadable` | main.py:22-28 | a table whose colour is the default one has a colour `hex_to_int` reads |
| `Settings.EmbedAfterKeepsColourReadable` | main.py:224-236 | `set_embed` preserves "the embed colour decodes", so the polling loop's `hex_to_int` cannot raise on a colour it stored |
| `Settings.SettingNameCaseInsensitive` | main.py:217-220 | `Title` writes the `title` key; `colour` is not a setting |
| `Settings.BotConfig.constructor` | main.py:11-14 | a configuration holds the owners lists and the embed table as loaded |
| `Settings.BotConfig.Default` | main.py:16-29 | the fallback configuration has no owners and exactly the default `[Embed]` table (title, `0x3498db`, thumbnail, footer text, `show_timestamp` true), which holds all five settings and a readable colour |
| `Settings.BotConfig.IsOwner` | main.py:150-153 | `is_owner`: the author's id is in `BOT.Owner`; `AddOwner` and `RemoveOwner` are proved not to change it |
| `Settings.BotConfig.AddOwner` | main.py:155-165 | non-owners are refused; an absent id is appended, a present one is reported; duplicate-freedom is kept; `BOT.Owner` and hence `is_owner` are untouched |
| `Settings.BotConfig.RemoveOwner` | main.py:167-175 | non-owners are refused; a present id loses its first occurrence, otherwise nothing changes; duplicate-freedom is kept; `is_owner` is untouched |
| `Settings.BotConfig.ListOwners` | main.py:177-185 | an owner gets the `Server.owners` list, or the "no owners" reply when it is empty; non-owners are refused |
| `Settings.BotConfig.SetEmbed` | main.py:214-238 | non-owners are refused; otherwise the reply and the new `[Embed]` table are those of `EmbedReply` and `EmbedAfter`, and a readable colour stays readable |

## Left out

- The GitHub fetch (`aiohttp`, main.py:46-53) is a parameter of `Cycle`: an exception, `None` for a non-200 answer, or the decoded list of records. Only each record's `id` and `created_at` are modelled. Records are assumed to have both keys, and a body that decodes is assumed to be a JSON list.
- The Discord client, `bot.run`, `channel.send` and `ctx.send` are not modelled. A command's answer is the `Reply` value naming which message it sends. The text of the messages is not modelled.
- The embed built for each announcement (main.py:78-141) is not modelled. Exceptions raised while it is built or sent are not modelled either: a missing `[Embed]` table, an unreadable colour, or a failing `channel.send`. In the source they end the loop after that id was added to `seen_repos`. `ColourReadable` states when the colour cannot raise.
- `if channel:` (main.py:143) is not modelled. `Cycle` reports what it would post. Without a channel nothing is sent, and the ids still join `seen_repos`.
- The TOML load and save (main.py:11-33) are not modelled. The configuration is in memory. A missing `Server.owners` key reads as the empty list, as every command reads it.
- Without config.toml the program stops at import. The fallback table of `load_config` (main.py:16-29) has a `Server` key but no `SERVER` key, so `config["SERVER"]` at main.py:41 raises `KeyError`. No command and no polling turn ever runs on that table. `BotConfig.Default` and `DefaultColourReadable` describe the table itself. The colour of a configuration the bot actually runs with comes from config.toml, and nothing in main.py checks it.
- Settings.BotConfig.AddOwner: the model assumes that the loaded file has a `[Server]` table. The command indexes `config["Server"]` (main.py:158), and without that table it raises `KeyError`. TOML keys are case-sensitive, so the `[SERVER]` table that startup needs does not provide it. `serverOwners` is a plain list and cannot express a missing table.
- Settings.BotConfig.RemoveOwner: assumes a `[Server]` table in the same way (main.py:170).
- Settings.BotConfig.ListOwners: assumes a `[Server]` table in the same way (main.py:180).
- Real time and scheduling are not modelled: `utcnow()`, `asyncio.sleep(60)` and the async loop. `Cycle` is one turn, and `now` is its parameter.
- A fresh `on_ready` after a reconnect is not modelled. It would start a second loop with an empty `seen_repos`.
- The startup lookups of `config["SERVER"]` (main.py:41-42) are not modelled. The username is a parameter of each turn and the channel is not modelled.
- `set_username` is not modelled as a command. It rebinds `GITHUB_USERNAME` (main.py:199-200), which the loop reads in every turn (main.py:47, 63). `Cycle` takes the username as a per-turn parameter, so any sequence of renames is covered.
- `set_channel`, `set_token` and `show_embed_settings` are not modelled. `set_channel` rebinds `CHANNEL_ID`, but the running loop bound `channel` once at main.py:58, so it has no effect on that loop. `set_token` only rebinds a variable and saves it. `show_embed_settings` only renders text.
- Timestamps.Parse: strptime would also accept one-digit month, day, hour, minute and second fields, a space-padded day (` 5`), and non-ASCII digits. The model accepts only the fixed-width ASCII form GitHub sends.
- Colour.ParseHex: Python's `int(s, 16)` also accepts surrounding whitespace, a sign, underscores between digits and a `0x` or `0X` prefix. `hex_to_int` strips only lower-case `0x`, so `0X3498db` reaches `int` with its prefix, which the model rejects. The model takes plain hex-digit strings only.
- Colour.IsValidColour: `$` in Python's `re` also matches before a final newline. The model does not accept a trailing newline.
- Strings.Lower: only ASCII letters are case-folded. Python's `str.lower` folds all of Unicode.
- Watcher.RepoWatcher.Cycle: requires that the loop has not already stopped. After an exception no further turn runs, so nothing calls it then.
