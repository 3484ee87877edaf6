# Weather bot core, modelled in Dafny

The bot (`main.py`) answers chat messages with the current weather or a
three-day forecast taken from an external weather service. Nearly all of it
is network and chat-framework glue. This project models the three pieces of
pure logic inside it and proves their properties:

- **Weather symbol classifier** (`get_weather_emoji`), module `Emoji`. It
  holds the ordered keyword-to-symbol table. It returns the symbol of the
  first keyword found in the lower-cased description, or the thermometer
  when no keyword occurs. Because "дождь" comes before "небольшой дождь" in
  the table and occurs inside it, the 🌦️ entry is dead. No description can
  produce it (`NeverSunBehindRain`).
- **Forecast day selection** (the loop in `get_forecast`), module
  `Forecast`. Each provider entry is keyed by the date part of its `dt_txt`
  stamp. Entries of a date already collected are skipped, and the loop
  breaks once three dates are collected. `CollectDays` mirrors the loop,
  `break` included. `Select` is the reference it is proved equal to: one
  line per distinct date, taken from the first entry of that date, keeping
  the first three.
- **Message routing** (`handle_message`), module `Routing`. The trimmed
  text goes to the forecast path exactly when its lower-cased form ends
  with "прогноз". The forecast place is the lower-cased text with every
  "прогноз" deleted, then trimmed. Any other message goes to the
  current-weather path with its trimmed text in its original case.

Supporting modules: `Text` (Python's `str.isspace`, `str.lower` on the
capitals A-Z and U+0400-U+042F only, `str.strip()`), `Substrings` (`in`,
`endswith`, `replace(p, "")`) and `Wrappers` (`Option`). Temperatures are a
type parameter: they are carried through and never inspected.

`str.replace` (main.py:102) deletes every occurrence of the keyword, not
only the trailing one. `KeywordDeletedEverywhere` shows this.

## Model

| member | source | states |
|---|---|---|
| Text.LowerChar | main.py:33 | lower-casing changes exactly the modelled capitals (A-Z and U+0400-U+042F), leaves no capital behind, and keeps whitespace whitespace |
| Text.Lower | main.py:33 | the lower-cased text, as `description.lower()` here and `city.lower()` at main.py:101-102 compute it, has the input's length and each character lower-cased |
| Text.LowerIdempotent | main.py:33 | lower-casing an already lower-cased text changes nothing |
| Text.Strip | main.py:100 | the result has no whitespace at either end, and it is the input with only whitespace removed before and after it |
| Text.StripUnique | main.py:100 | any split of a text into leading whitespace, a middle with no whitespace at its ends, and trailing whitespace yields that middle as the trimmed text |
| Text.StripIdempotent | main.py:102 | trimming a trimmed text changes nothing |
| Text.StripPadded | main.py:100 | a text padded with whitespace on both sides trims back to itself |
| Substrings.RemoveAll | main.py:102 | deleting a keyword never lengthens the text, leaves it unchanged exactly when the keyword does not occur, and otherwise shortens it by at least the keyword's length |
| Substrings.RemoveAllLeftmost | main.py:102 | when no occurrence starts inside x, deleting the keyword from "x + keyword + y" keeps x, drops that occurrence and continues in y. With the unchanged-iff-absent clause of `RemoveAll`, this determines the result on every input |
| Substrings.RemoveAllJoin | main.py:102 | for a keyword that cannot overlap itself, deleting it from "x + keyword + y", where x has no occurrence, gives x followed by the deletion applied to y |
| Substrings.RemoveAllAppend | main.py:102 | for a keyword that cannot overlap itself, deleting it from "x + keyword" gives the same result as deleting it from x |
| Emoji.FindFrom | main.py:32-34 | the index found is the first table entry, in table order, whose keyword occurs in the text; None means no remaining keyword occurs |
| Emoji.Classify | main.py:31-35 | the result is the thermometer exactly when no keyword occurs in the lower-cased description; otherwise it is the symbol of the first occurring keyword |
| Emoji.ClassifyRange | main.py:18-35 | every result is one of the table's symbols or the thermometer |
| Emoji.ClassifyIgnoresCase | main.py:33 | only the lower-cased description matters |
| Emoji.NeverSunBehindRain | main.py:22-23 | no description is classified as 🌦️, because "дождь" precedes "небольшой дождь" and occurs inside it |
| Emoji.LightRainIsRain | main.py:22-23 | a description containing "небольшой дождь" and none of the first three keywords gets 🌧️ |
| Emoji.LightRainExample | main.py:22-23 | the provider's "Небольшой дождь" gets 🌧️ |
| Emoji.NonCyrillicIsDefault | main.py:35 | a description with no Cyrillic letter, such as "Clear sky", gets the thermometer |
| Forecast.DateKey | main.py:79 | the date key is a prefix of the stamp with no space in it, followed by a space or by the end of the stamp |
| Forecast.DateKeyUnique | main.py:79 | those three properties determine the date key |
| Forecast.DateKeyOfStamp | main.py:79 | keying "date time" returns the date when the date has no space |
| Forecast.ToDay | main.py:79-84 | a line carries the entry's date key: the stamp up to its first space, with no space in it. It keeps the entry's own description and temperature |
| Forecast.ToDaySymbol | main.py:81-82 | a line's symbol is the thermometer exactly when no keyword occurs in the lower-cased description, and otherwise the symbol of the first keyword that occurs |
| Forecast.CollectedCount | main.py:85-86 | when the lines have distinct dates, the seen-set has exactly one element per line, so the size test counts lines |
| Forecast.FirstDays | main.py:78-85 | the lines have pairwise distinct dates, and their dates are exactly the dates occurring in the entries |
| Forecast.FirstDaysCount | main.py:80-85 | there is one line per distinct date of the entries |
| Forecast.FirstDaysOrigins | main.py:78-85 | each line is made from the first entry carrying its date, and lines appear in the order those entries appear |
| Forecast.FirstDaysPrefix | main.py:78-87 | the lines of a prefix of the entries are a prefix of the lines of all of them |
| Forecast.RepeatedDateAddsNothing | main.py:80 | an entry whose date was already collected adds no line |
| Forecast.Select | main.py:76-87 | at most three lines are shown, with pairwise distinct dates |
| Forecast.SelectCount | main.py:76-87 | exactly three lines are shown when there are at least three distinct dates; otherwise one per distinct date. The lines shown are the first lines of the full first-occurrence list |
| Forecast.SelectStable | main.py:86-87 | once three dates are collected, later entries change nothing |
| Forecast.CollectDays | main.py:76-87 | the loop, with its break, yields exactly the reference selection, and its seen-set is exactly the set of dates it emitted |
| Routing.RouteMessage | main.py:99-105 | the forecast path is taken exactly when the trimmed, lower-cased text ends with "прогноз". The place passed on has no whitespace at its ends. The current-weather place is the trimmed text. The forecast place has no capitals and is at least a keyword shorter than the trimmed text |
| Routing.ForecastRequest | main.py:100-103 | "place прогноз", with the keyword in any case and any surrounding whitespace, routes to the forecast of the lower-cased place, provided the place does not contain the keyword |
| Routing.KeywordDeletedEverywhere | main.py:102 | "прогноз place прогноз" routes to the forecast of the lower-cased place: a leading keyword is deleted too |
| Routing.CurrentRequest | main.py:100-105 | a text that does not end with the keyword routes to the current weather of the trimmed text, in its original case |
| Routing.CurrentIdempotent | main.py:100-105 | routing the place of a current-weather route again gives the same route |
| Routing.BareKeyword | main.py:101-102 | the bare keyword routes to the forecast of the empty place name |

## Left out

- HTTP requests to the weather service, URL building and the status-code and empty-geocode checks (main.py:37-73). These are network I/O.
- The chat framework: the bot, the dispatcher, the `/start` and `/help` handlers, sending the reply and polling (main.py:15-16, 90-97, 106-112).
- Messages without text: `message.text` is `None` for those, and `strip()` raises (main.py:100). The model takes the text as a string.
- Malformed provider data: the model's entries always carry a stamp, a description and a temperature. A missing key or an empty `weather` list raises at main.py:78-83 and no reply is sent. The model therefore also does not show that main.py:81-83 read only entries with a new date, or that nothing after the `break` is read.
- Loading `.env` and the API keys (main.py:9-13). This is configuration I/O.
- Rendering: the HTML reply templates, the fixed Russian error texts, `capitalize()`, `title()` and the float formatting of temperature, humidity and wind. A forecast line is modelled as a `Day` record with its date, symbol, description and temperature, not as text.
- Text.LowerChar: lowers A-Z and U+0400-U+042F only. Every other character is left unchanged, including accented Latin capitals such as É and Ü and the Cyrillic capitals of Ukrainian and Kazakh such as Ґ, Қ and Ө, which Python lowers. Python's multi-character lower-case mappings are not modelled either. The reason is that Python's full Unicode case tables are out of scope. As a result, "Өскемен прогноз" routes to the forecast of "Өскемен" in the model, while Python produces "өскемен".
- Substrings.RemoveAll: requires a non-empty pattern. Python's `replace` with an empty pattern inserts the replacement between characters, but the handler only ever deletes the fixed keyword.
- Routing.RouteMessage: its contract gives properties of the forecast place, not the place itself. The exact place is proved for the usual message shapes by ForecastRequest, KeywordDeletedEverywhere and BareKeyword.
