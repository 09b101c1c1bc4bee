# chatmp core, modelled in Dafny

chatmp is a MicroPython ChatGPT client for the Raspberry Pi Pico W. This
project models the logic in its core:

- **The settings file.** `read_config_settings` turns `key=value` lines into
  a dictionary. Lines are stripped. Blank lines, `#` comments and lines
  without `=` are skipped. A kept line splits at its first `=` into a
  stripped key and a stripped value. A later line overrides an earlier one
  for the same key.
- **The Wi-Fi file.** `read_wifi_config` uses the same line rules. Keys are
  lower-cased and only `ssid` and `password` matter; the last line for each
  wins. Unless both were found, the result is `(None, None)`.
- **The chat loop.** The history starts with one system message. `call_openai`
  sends a window of the history (the system message plus the last
  `2 * HISTORY_LIMIT` messages) and extracts `choices[0].message.content`,
  stripped, from the decoded reply. `main` reads one input per pass. Blank
  input is skipped. `quit` or `exit`, in any case, ends the loop. Any other
  input appends a user message, then an assistant message if a reply came
  back.

Modules:

- `Wrappers` (`wrappers.dfy`): `Option`.
- `Text` (`text.dfy`): `strip()`, `lower()` and the search for the first
  `=`, all over ASCII.
- `LineFormat` (`line_format.dfy`): the per-line rules shared by both files.
  `FileRead` says what reading a file delivered: the open failed, or these
  lines were read, either to end of file or until a read error.
- `Config` (`config.dfy`): `read_config_settings`. It is a loop building a
  map, proved equal to a left fold over the lines' entries.
- `Wifi` (`wifi.dfy`): `read_wifi_config`. It is a loop reassigning `ssid`
  and `password`, proved equal to a "last value for each name" function.
- `Chat` (`chat.dfy`): the window, the completion call, and one turn of the
  loop as a function. `ChatSession` is a class whose `history` field the
  methods `Step` and `Run` append to in place, proved against that function.

The completion endpoint is a parameter `server: seq<Message> -> Response`.
It maps the message list that is sent to what comes back: a transport
failure, or an HTTP status with a body that either decodes as JSON or does
not, or whose reading raises. An interrupt during the call is a response of
its own. The console is a sequence of inputs. `None` stands for end of input or
a keyboard interrupt.

Three behaviours of the code differ from what a reader of its comments and
docstrings might expect. The model follows the code:

- With a history limit of 0 the window is not the system message alone.
  Python's `history[-0:]` is the whole list, so the first message is sent
  twice (`Chat.WindowLimitZero`). The constant is 6, so this never happens in
  the shipped program.
- A 200 response whose body is not JSON is not reported as a malformed
  response. `resp.json()` sits outside any `try`, so the exception leaves
  `call_openai` and `main`. The model calls this outcome `Raised` and the
  loop state `Crashed`. The same happens when the body cannot be read, for
  any status: the error notice for a status other than 200 reads
  `resp.text` outside any `try`. A `KeyboardInterrupt` during the POST is
  not an `Exception`, so it escapes as well.
- When reading the settings file fails partway through, the entries from the
  lines read so far are returned, not an empty map. The map is empty only
  when the open itself failed.

## Model

| member | source | states |
|---|---|---|
| Text.Strip | config.py:11 | The result is no longer than the input, and it neither starts nor ends with whitespace |
| Text.TrimStart | config.py:11 | The result is a suffix of the input; everything dropped is whitespace, and the result does not start with whitespace |
| Text.TrimEnd | config.py:11 | The result is a prefix of the input; everything dropped is whitespace, and the result does not end with whitespace |
| Text.StripIsSlice | config.py:11 | The stripped text is one contiguous slice of the input, with only whitespace before and after it |
| Text.StripUnique | config.py:11 | Any slice with only whitespace around it and no whitespace at its ends is the stripped text, so Strip is exactly Python's strip |
| Text.StripTrimStart | config.py:11 | Stripping text whose leading whitespace is already gone gives the same result as stripping the original |
| Text.StripTrimEnd | config.py:11 | Stripping text whose trailing whitespace is already gone gives the same result as stripping the original |
| Text.StripKeepsAbsent | config.py:16-17 | Stripping introduces no character, so text with no `=` still has none after stripping |
| Text.StripEmptyIff | config.py:11-12 | A line strips to the empty string exactly when every character is whitespace |
| Text.LowerChar | wifi.py:37 | `A`..`Z` move to `a`..`z`; every other character is unchanged |
| Text.Lower | wifi.py:37 | Lower-casing keeps the length and lower-cases each character in place |
| Text.IndexOf | config.py:14-16 | None exactly when the character is absent; otherwise the position of its first occurrence |
| LineFormat.ParseLine | config.py:11-18 | A line contributes no entry exactly when, stripped, it is blank, starts with `#`, or has no `=` |
| LineFormat.ParseLineSplits | config.py:16-18 | A kept line's key and value are the stripped text before and after its first `=`, and any such split gives the line's entry |
| LineFormat.EmptyKey | config.py:16-17 | A stripped line starting with `=` gives the empty key and the stripped rest as its value |
| LineFormat.ParseStrippedLine | config.py:14-18 | A line with no whitespace at its ends, not starting with `#`, splits at its first `=` into the stripped text before and after it |
| LineFormat.ValueMayHoldEquals | config.py:11-18 | Any key without `=` whose stripped text does not start with `#`, then `=`, then any value, `=` signs and surrounding whitespace included, gives that key and that whole value, stripped: only the first `=` splits |
| LineFormat.StripAroundEquals | config.py:11 | Stripping `key=value` removes only the whitespace in front of the key and after the value |
| LineFormat.ParseSameStrip | config.py:11-18 | Two lines with the same stripped text contribute the same entry |
| LineFormat.KeyHasNoEquals | config.py:16 | No key contains `=` |
| LineFormat.Entries | config.py:10-18 | One entry per line, in file order, each the entry of that line |
| LineFormat.EntriesConcat | config.py:10 | The entries of two runs of lines laid end to end are the entries of each, in order |
| LineFormat.EntriesOne | config.py:10 | A single line has just its own entry |
| Config.Collect | config.py:10-19 | The left fold of the entries into a map; each binding comes from a present entry. CollectKeys, CollectLastWins and CollectIgnoresNone characterize it |
| Config.Settings | config.py:10-19 | The map a fully read file yields; each binding is the entry of some line. SettingsKeys, SettingsLastWins and SettingsIgnoreSkipped characterize it |
| Config.ReadConfigSettings | config.py:1-22 | The loop yields the empty map when the open fails, and otherwise the fold of the entries of the lines read, including after a read error |
| Config.SettingsPrefix | config.py:10-19 | Each pass of the loop changes the map exactly as the current line's entry says |
| Config.SettingsSnoc | config.py:10-19 | One more line leaves the map alone if skipped, and otherwise sets its key to its value |
| Config.CollectSnoc | config.py:19 | One more entry sets its key to its value, and an absent entry changes nothing |
| Config.CollectKeys | config.py:19 | The keys of the fold are exactly the keys of its present entries |
| Config.CollectLastWins | config.py:19 | A key's value is that of the last present entry with that key |
| Config.CollectIgnoresNone | config.py:12-15 | An absent entry anywhere in the sequence does not change the fold |
| Config.SettingsKeys | config.py:10-19 | A key is in the settings exactly when some kept line has that key, as written and not lower-cased |
| Config.SettingsLastWins | config.py:19 | When several kept lines share a key, the value from the last one is in the settings |
| Config.SettingsIgnoreSkipped | config.py:11-15 | A blank, comment or `=`-less line anywhere in the file does not change the settings |
| Wifi.LastValue | wifi.py:39-42 | The value of the last entry whose lower-cased key is the name; None exactly when no entry has that key. LastValueIsLast and LastValueIgnoresOthers characterize it |
| Wifi.Credential | wifi.py:30-42 | The value the lines give to `ssid` or `password`; None exactly when no kept line has that lower-cased key. CredentialIsLast characterizes it |
| Wifi.WifiConfig | wifi.py:43-48 | Both fields are present or both are None, and a failed open or read gives (None, None) |
| Wifi.WifiConfigFound | wifi.py:43-45 | A fully read file gives a pair exactly when both names were set, each to its last value; an empty value counts as set |
| Wifi.CredentialSnoc | wifi.py:36-42 | One more line changes a credential only when its lower-cased key names it, and then to that line's value |
| Wifi.CredentialPrefix | wifi.py:30-42 | Each pass of the loop updates a credential exactly as the current line says |
| Wifi.ReadWifiConfig | wifi.py:18-48 | The loop's result equals WifiConfig of what reading the file delivered |
| Wifi.LastValueIsLast | wifi.py:39-42 | The value for a name is `v` exactly when some entry names it with `v` and no later entry names it |
| Wifi.LastValueIgnoresOthers | wifi.py:39-42 | An entry that does not name the key, wherever it stands, does not change that key's value |
| Wifi.CredentialIsLast | wifi.py:30-42 | At the level of lines, the credential is `v` exactly when the last kept line whose lower-cased key names it has value `v` |
| Wifi.WifiIgnoresOtherLines | wifi.py:39-42 | A line whose key is neither `ssid` nor `password`, wherever it stands, does not change the result |
| Chat.TailSlice | chatmp.py:39 | Python's `s[-k:]`: the last `k` elements, or all of `s` when `k` is 0 or `s` is no longer than `k` |
| Chat.Window | chatmp.py:37-39 | A history of at most `2*limit+1` messages is sent unchanged; a longer one is sent as exactly `2*limit+1` messages: its first message, then its last `2*limit` messages in order |
| Chat.WindowKeepsSystemMessage | chatmp.py:38-39 | The window of a well-formed history starts with the system message, contains no other system message, and holds only messages of the history |
| Chat.WindowIdempotent | chatmp.py:38-39 | A window is already short enough: windowing it again gives it back unchanged |
| Chat.WindowLimitZero | chatmp.py:39 | With a limit of 0, a history of two or more messages is sent with its first message repeated in front of all of it |
| Chat.ReplyContent | chatmp.py:63-67 | None exactly when `choices[0].message.content` is missing or not a string; otherwise that string, stripped |
| Chat.ReplyIsStripped | chatmp.py:64 | Content `"  hi there  "` is returned as `"hi there"` |
| Chat.CallOpenAI | chatmp.py:36-67 | The window is sent. A transport failure gives None. A status other than 200 gives None whatever its readable body. The call raises exactly when it was interrupted, the body cannot be read, or a 200 body is not JSON. A decoded 200 body gives the extracted reply |
| Chat.IsQuit | chatmp.py:89 | The lower-cased input is `quit` or `exit`; only four-letter inputs starting with `q` or `e` in either case qualify. QuitSpellings and QuitEndsLoop use it |
| Chat.QuitSpellings | chatmp.py:89 | `quit`, `Quit` and `EXIT` end the loop, and `quit now` does not |
| Chat.NextTurn | chatmp.py:82-101 | One pass of the loop. Nothing is sent exactly when the input ended, is blank, or is `quit`/`exit`; then the history is unchanged and the loop does not crash. EndOfInputExits, BlankInputIgnored, QuitEndsLoop, OtherInputAsks and NextTurnPreserves characterize it |
| Chat.EndOfInputExits | chatmp.py:84-86 | End of input or a keyboard interrupt at the prompt ends the loop with the history unchanged and nothing sent |
| Chat.Ask | chatmp.py:93-101 | The window of the history plus the user message is sent; the history gains that user message and at most one more, which is an assistant message; a crash leaves only the user message added, and asking never exits the loop |
| Chat.BlankInputIgnored | chatmp.py:87-88 | All-whitespace input makes no call, leaves the history unchanged and keeps the loop going |
| Chat.QuitEndsLoop | chatmp.py:89-91 | Input that strips to `quit` or `exit`, in any case, ends the loop with the history unchanged and nothing sent |
| Chat.OtherInputAsks | chatmp.py:93-101 | Any other input appends one user message with the stripped text and sends the window of that history. An assistant message is appended exactly when a reply came back. A raised call crashes the loop |
| Chat.AskPreserves | chatmp.py:93-101 | Asking keeps the history well-formed: the user message follows it and the assistant message, if any, follows the user message |
| Chat.NextTurnPreserves | chatmp.py:81-101 | Any single input keeps the history well-formed (one system message, first), grows it by at most two, and never changes its earlier messages |
| Chat.Session | chatmp.py:81-101 | The whole run over an input stream; it always ends in exit or crash and never shortens the history. SessionPreserves characterizes it |
| Chat.SessionPreserves | chatmp.py:81-101 | A run over any input stream ends (exit or crash), leaves the history well-formed, and only ever appends to it |
| Chat.ChatSession.constructor | chatmp.py:74-78 | The history starts as the system message alone |
| Chat.ChatSession.Step | chatmp.py:82-101 | The in-place update of `history` and the returned loop state and sent list are those of one turn; the history stays well-formed and only grows |
| Chat.ChatSession.Run | chatmp.py:81-101 | The loop's final state and history are those of the session over the input stream; the loop always ends and the history stays well-formed |

## Left out

- HTTP is not modelled: `urequests.post`, `ujson.dumps`, the request headers, the URL, the model name and API key, and `resp.close()`. The endpoint is the `server` parameter, which maps the sent message list to a `Response`.
- The request fields other than `messages` are not carried: `temperature`, `top_p` and `max_tokens`. `TEMPERATURE` and `TOP_P` are floats.
- Opening and reading files is not modelled. A file is a `FileRead`: the open failed, or the lines read so far and whether reading then raised.
- `print` output is not modelled. This includes the error notices of `call_openai`, `read_config_settings` and `read_wifi_config`, and the greetings of `main`.
- Console input is a sequence of `Option<string>`. `None` stands for `EOFError` or `KeyboardInterrupt`.
- `connect_wifi` and `get_external_ip` are not modelled. They poll Wi-Fi hardware and the network with `time.sleep`.
- The import-time code of `chatmp.py` is not modelled: reading `api_key` and `model_name`, connecting to Wi-Fi, and `sys.exit`.
- Text.Strip: only the ASCII whitespace that MicroPython's `strip()` removes counts as whitespace (space, tab, line feed, vertical tab, form feed, carriage return). Other Unicode spaces are kept.
- Text.Lower: only `A`..`Z` are lower-cased. Other Unicode letters are unchanged.
- Chat.ReplyContent: JSON numbers are integers; the client never reads one.
- Chat.CallOpenAI: a body that decodes as JSON and one that does not are told apart by the `Body` value, not by parsing bytes.
- Chat.Session: one `server` function answers the whole session, so the same message list sent twice always gets the same response; a real endpoint may answer differently each time.
- Chat.ChatSession.Run: the input stream is finite. Reading past its end is the end of input.
