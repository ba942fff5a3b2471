# ABeS beacon core in Dafny

ABeS ("APRS Beacon Sender") is a small desktop program. It periodically sends an APRS position report to the APRS-IS network. This project models its core and proves properties of that model:

- **Passcode.** `_aprs_base_callsign`, `compute_passcode` and `verify_passcode`: the APRS-IS passcode of a callsign, and how a typed passcode is checked against it.
- **Position.** `decimal_to_aprs`: the `DDMM.hhN` / `DDDMM.hhE` field layout of a latitude or longitude.
- **Packet.** The two lines `send_aprs_packet` writes to the server: the login line, then the position packet with its `DDHHMMz` timestamp.
- **Beacon.** `start_beacon`, `stop_beacon` and `beacon_loop`: the shared `running` flag and the loops that poll it.
- **Settings.** `save_and_start`: the settings form's checks, in the program's order, and the record it saves before starting the beacon.

Modules:

- `Wrappers` holds `Option`.
- `Text` holds Python's `strip()`, ASCII `upper()`, and `split(sep)[0]`.
- `Decimal` holds `str()` of a natural number, zero padding, and the `int()` reading of a string.
- `Passcode`, `Position`, `Packet`, `Beacon` and `Settings` follow the program's own functions.

The beacon threads become an explicit interleaving:

- Every loop ever spawned has a program counter. It is at the `while running` test, inside a send, inside the one-second wait with some iterations left, or exited.
- An event is a Start, a Stop, or one step of one loop.
- At the `while` test a step reads the flag and either enters a send or returns.
- A send completes at the loop's next step without reading the flag, as `send_aprs_packet` does.
- Inside the wait, a step reads the flag and either sleeps one second or breaks out.
- A loop whose start-up reads of the saved record fail is spawned already exited.

`Beacon.Tick` has an `ownerCheck` switch:

- `false` is the program as written.
- `true` is the correction described under Findings: a loop also requires that it is the newest one spawned.

`Settings.SaveAndStart` has a `checkPosition` switch in the same way. `true` is the second correction under Findings: a record the new loop could not read is refused with a dialog.

## Model

| member | source | states |
|---|---|---|
| Text.StripBy | ABeS.py:26 | trimming a given set of white space leaves none of it at either end and never lengthens the text; `strip()` and `int()`'s own trimming are its two instances |
| Text.StripByPadded | ABeS.py:26 | white space of the trimmed set added around a text that does not start or end with it is removed again |
| Text.Strip | ABeS.py:26 | `strip()` leaves no white space at either end and never lengthens the text |
| Text.StripPadded | ABeS.py:26 | any white space added around a text is removed again by `strip()` |
| Text.Upper | ABeS.py:26 | `upper()` keeps the length and maps each character on its own |
| Text.UpperStrip | ABeS.py:26 | upper-casing and stripping commute, so `strip().upper()` is the same in either order |
| Text.BeforeFirst | ABeS.py:26 | `split('-')[0]` is a prefix free of the separator, ending where the first separator stands |
| Text.BeforeFirstJoin | ABeS.py:26 | `split('-')[0]` of `call + "-" + ssid` is `call` when `call` has no dash |
| Text.IntStrip | ABeS.py:40 | `int()` trims only its own white space, which leaves out the separators U+001C-U+001F that `strip()` removes |
| Decimal.Format | ABeS.py:73 | `str(n)` is a non-empty digit string denoting `n`, without leading zeros |
| Decimal.PadZero | ABeS.py:87-89 | `{:02d}` / `{:03d}` gives digits denoting the number, of exactly the width or of `str(n)`'s length when that is longer |
| Decimal.PadZeroWidth | ABeS.py:87 | `{:02d}` / `{:03d}` gives exactly the width when the number fits in it |
| Decimal.ParseInt | ABeS.py:40 | `int()` succeeds exactly when the text, trimmed of the white space `int()` itself skips, is a numeral (digits with at most one leading sign); blank text fails, and an unsigned numeral reads as a non-negative number; more than 4300 digits (CPython's default `int_max_str_digits`, leading zeros included) fail, so whatever `int()` reads `str()` can print again |
| Decimal.ParseSigned | ABeS.py:40 | a sign followed by at most 4300 digits reads as the value of the digits, negated for `-` |
| Decimal.DigitsFit | ABeS.py:40 | the value of a digit string prints in no more digits than it was read from |
| Decimal.TooManyDigits | ABeS.py:40 | more than 4300 digits are refused by `int()`, whatever they denote |
| Decimal.SignedTooManyDigits | ABeS.py:40 | a sign followed by more than 4300 digits is refused by `int()` too |
| Decimal.ParseFormatted | ABeS.py:73 | `int(str(n)) == n`, also with leading zeros as typed into the form, as long as the text stays within the 4300-digit limit |
| Decimal.ParseNegative | ABeS.py:40 | `int("-" + str(n)) == -n` for any `n` of at most 4300 digits |
| Decimal.ParsePadded | ABeS.py:40 | white space that `int()` skips around the number does not change what `int()` reads |
| Decimal.SeparatorRejected | ABeS.py:40 | `int()` refuses `5` preceded by the separator U+001C |
| Decimal.SeparatorStripped | ABeS.py:185 | `int()` of the same text after `strip()` reads 5, so the form's `strip()` before `int()` matters |
| Passcode.BaseCallsign | ABeS.py:22-26 | the base callsign has no SSID dash, no white space at either end and no lower-case letter |
| Passcode.BaseIdempotent | ABeS.py:22-26 | reducing a callsign twice is reducing it once |
| Passcode.Hash | ABeS.py:30-35 | the loop over the base callsign starts from the seed 0x73E2, which an empty base leaves unchanged; `Passcode.HashAppend` gives each further step |
| Passcode.ComputePasscode | ABeS.py:28-36 | the passcode is at most 32767 (the 15-bit mask); an empty base callsign gives the seed 29666 |
| Passcode.HashAppend | ABeS.py:31-35 | appending one character XORs in its code, shifted left 8 bits at even positions and unshifted at odd ones |
| Passcode.PasscodeOfBase | ABeS.py:28-29 | the passcode depends only on the base callsign |
| Passcode.PasscodeIgnoresSsidAndPadding | ABeS.py:22-36 | surrounding white space and any `-SSID` suffix do not change the passcode |
| Passcode.PasscodeIgnoresCase | ABeS.py:22-36 | two callsigns that agree after ASCII upper-casing have the same passcode |
| Passcode.BaseOfUpper | ABeS.py:22-26 | upper-casing first does not change the base callsign |
| Passcode.KnownPasscodes | ABeS.py:28-36 | reference values: the empty callsign gives 29666 and `n0call-9` gives 13023 |
| Passcode.VerifyPasscode | ABeS.py:38-42 | accepted exactly when `int()` of the passcode succeeds and equals the computed passcode; unreadable text is rejected |
| Passcode.VerifyAcceptsPasscode | ABeS.py:38-42 | `str` of the computed passcode, with or without leading zeros, is accepted while the text stays within `int()`'s 4300-digit limit |
| Passcode.PasscodeDigits | ABeS.py:28-36 | a passcode prints in at most five digits, so the limit leaves room for 4295 leading zeros |
| Passcode.VerifyRejectsLong | ABeS.py:38-42 | a passcode typed with more than 4300 digits is rejected even when it denotes the right number, because `int()` raises |
| Passcode.VerifyUnique | ABeS.py:38-42 | all accepted passcodes for one callsign denote the same number |
| Position.Hemisphere | ABeS.py:79-82 | N or S for latitude and E or W for longitude, chosen by the sign, each in both directions |
| Position.Encode | ABeS.py:78-89 | the field is at least degree width plus 6 long and ends with the hemisphere letter |
| Position.EncodeLayout | ABeS.py:84-89 | for degrees that fit: 2 or 3 digits denoting the degrees, two digits of whole minutes, a dot, two digits of hundredths, then the hemisphere letter; the minute digits together denote the hundredths of a minute |
| Position.DecodeEncode | ABeS.py:78-89 | reading back an encoded in-range angle gives the same angle |
| Position.EncodeDecode | ABeS.py:78-89 | every field that reads back is exactly the encoding of what it reads as |
| Position.FromHundredths | ABeS.py:83-85 | a signed count of hundredths of a minute splits into sign, whole degrees and minutes under 60 |
| Position.RoundTrip | ABeS.py:78-89 | every latitude within 90 degrees and longitude within 180 degrees survives encoding and reading back, with the fixed length |
| Position.ExampleNorth | ABeS.py:87 | 41 degrees 7.40 minutes north encodes as `4107.40N` |
| Position.ExampleWest | ABeS.py:89 | 27 degrees 30 minutes west encodes as `02730.00W` |
| Position.ExampleEquator | ABeS.py:87 | the equator encodes as `0000.00N` |
| Packet.Timestamp | ABeS.py:94 | `%d%H%Mz` is seven characters: day, hour and minute as two digits each, then `z` |
| Packet.PositionPacket | ABeS.py:95 | the packet line gives back its callsign as the text before the first `>` when the callsign has none, and ends with the comment; `Packet.ParseBuild` reads every field back |
| Packet.ParseBuild | ABeS.py:95 | a packet built from well-formed fields reads back into the same fields |
| Packet.BuildParse | ABeS.py:95 | every packet that reads back is exactly the packet built from its fields |
| Packet.LoginLine | ABeS.py:100 | the login line opens with `user `, ends with a newline, and the callsign runs from there to the next space when it has none of its own; `Packet.LoginRoundTrip` reads it back |
| Packet.LoginRoundTrip | ABeS.py:100 | the login line gives back the callsign and passcode when the callsign has no space |
| Packet.LoginParseBuild | ABeS.py:100 | every line that reads as a login is exactly the login line of what it reads as |
| Packet.Transmit | ABeS.py:95-101 | the program writes two lines, each ending in a newline: the login line, opening with `user `, then the packet line, opening with the callsign and the fixed path header and ending with the comment just before the newline |
| Packet.BeaconReport | ABeS.py:91-95 | the report carries the station's callsign, table, symbol and comment as they are, the current zulu timestamp, and position fields that read back as the station's angles when they fit the layout |
| Packet.Session | ABeS.py:91-101 | one call writes two lines: the login line, opening with `user `, then the packet line, opening with the station's callsign and the path header and ending in a newline; `Packet.SessionRoundTrip` gives what a receiver reads from them |
| Packet.SessionRoundTrip | ABeS.py:91-101 | a receiver recovers the login, the whole report and both positions from the two lines |
| Beacon.Start | ABeS.py:125-131 | raises the flag; spawns exactly one loop when stopped and changes nothing when running; the loop is already exited when its start-up reads will fail |
| Beacon.Stop | ABeS.py:133-136 | lowers the flag and touches neither the loops nor the sends |
| Beacon.Tick | ABeS.py:118-123 | one loop step changes only that loop; a send is entered only from the `while` test when the loop may run, and completes at the next step whatever the flag says; a loop exits only at the `while` test with permission refused |
| Beacon.StartIdempotent | ABeS.py:125-131 | a second Start while running is a no-op, so at most one loop is spawned per run |
| Beacon.InFlightOnly | ABeS.py:118-123 | a loop that cannot pass its next test (older than the newest under the owner check, or with the flag down and no Start) sends at most once more, and only if it was already inside a send |
| Beacon.QuietStop | ABeS.py:118-136 | with the flag down and no send under way, nothing is sent and no send starts until the next Start |
| Beacon.NoSendAfterStop | ABeS.py:118-136 | with the flag down and no Start, the flag stays down, no loop is spawned, and every further send completes one already under way |
| Beacon.StopIsFinal | ABeS.py:118-136 | after Stop and until the next Start, each loop sends at most once more, and only if it was inside a send; if none was, nothing more is sent |
| Beacon.StopHaltsLoop | ABeS.py:118-123 | with the flag down, a loop exits within three of its own steps, sending only the attempt it was already making |
| Beacon.OutcomeIgnored | ABeS.py:104-105 | a failed send changes neither the flag nor any loop's progress |
| Beacon.WaitCompletes | ABeS.py:120-123 | while the loop may run, a wait of `k` iterations takes `k` steps and sends nothing |
| Beacon.PeriodicSend | ABeS.py:118-123 | an undisturbed loop sends once and is back at the `while` test `interval + 2` steps later |
| Beacon.Stalled | ABeS.py:118-131 | with the flag up and every loop gone, no events but a Stop change anything: Start is ignored and nothing is sent |
| Beacon.FreshStartSends | ABeS.py:118-131 | a Start from stopped whose start-up reads succeed gives a loop that sends at its second step and then waits the interval |
| Beacon.UnreadableStartStalls | ABeS.py:107-131 | a Start whose loop dies in its start-up reads leaves the flag up with no loop running, until a Stop |
| Beacon.RestartRace | ABeS.py:118-136 | as written, Stop followed by Start while the old loop is in its wait leaves two loops sending |
| Beacon.RestartWithOwnerCheck | ABeS.py:118-123 | with the owner check, the same events retire the old loop and only the new one sends |
| Beacon.OnlyNewestSends | ABeS.py:118-136 | with the owner check, a loop older than the newest sends at most once more, and only if it was inside a send, whatever follows |
| Settings.Validate | ABeS.py:171-194 | each error dialog appears exactly when its check is the first to fail, in the order passcode, interval number, interval minimum, symbol, and no position check is made; a saved record verifies, keeps the interval, and has a one-character symbol and stripped entries |
| Settings.SaveAndStart | ABeS.py:171-197 | a rejected form, or a record whose write raises, leaves the beacon untouched; a saved one starts it, and a new loop takes the saved interval (exited from the start when its reads will fail), while a running beacon is left as it was; with the position check an unreadable record is refused with a dialog |
| Settings.SaveIsStable | ABeS.py:171-195 | after a restart, pressing Start on the window filled from the saved record saves the same record, for a record ConfigParser reads back as written (no `%` in any entry, and a symbol table from the menu) |
| Settings.PaddingIgnored | ABeS.py:172-185 | white space around the entries changes neither the outcome nor the saved record |
| Settings.AcceptsValidForm | ABeS.py:171-195 | a form with the callsign's passcode, an interval of at least 300 within `int()`'s digit limit and a one-character symbol is saved |
| Settings.LongIntervalRejected | ABeS.py:184-190 | an interval of more than 4300 digits gets the "must be a number" dialog, since `int()` raises ValueError |
| Settings.SavedFormBeacons | ABeS.py:195-196 | from a stopped beacon, a form that is saved, written and readable spawns one loop with the entered interval, and that loop sends within two steps |
| Settings.StartWhileRunning | ABeS.py:125-127 | pressing Start while the flag is up never touches the scheduler |
| Settings.UnreadablePositionStalls | ABeS.py:107-113 | as written, a saved record with an unreadable position raises the flag with no loop: nothing is sent and every later Start is ignored until Stop |
| Settings.CheckedStartBeacons | ABeS.py:171-197 | with the position checked, Start from a stopped beacon either shows a dialog and changes nothing, or spawns a loop that passes its test and sends |

## Left out

- The Tk settings window and the tray icon (`create_image`, `open_settings`, `on_closing`, `setup_tray`, `setup_gui`, `main`, ABeS.py:138-169 and 199-299) are user interface. `Settings.Reopen` puts the stored record back into the entries the way `setup_gui` does at start-up, but only for a record that ConfigParser reads back unchanged; `open_settings` only shows the window again, with whatever the entries hold.
- `exit_program` is left out. It calls `stop_beacon`, which is modelled, and otherwise only tears down the interface.
- `load_settings` and `save_settings` (ABeS.py:45-76) are file I/O. The record is the `Settings.Stored` value, and the defaults written on first use are not modelled.
- Sockets, the 10-second timeout, `.encode()` and `print` in `send_aprs_packet` (ABeS.py:96-105) are not modelled. The network outcome is the `delivered` flag of each send.
- Threads and `time.sleep(1)` become the event interleaving in `Beacon`. One `Tick` stands for one second of waiting.
- `datetime.now(timezone.utc)` is a `Packet.Clock` parameter.
- `Position.Encode` is not the float part of `decimal_to_aprs`. `abs`, `int()` of a float, `* 60` and the `05.2f` rounding are left out, so the model takes an angle already split into sign, degrees and hundredths of a minute. It does not claim minutes stay below 60 after rounding (59.999 rounds to `60.00`).
- The `float()` reading of LAT and LON in `beacon_loop` (ABeS.py:112-113) is the `readable` bit of `Settings.Env`. The model does not decide which texts `float()` accepts, only what follows when the read fails. The same bit stands for a ConfigParser interpolation error on reading the record (an entry holding `%(`), and for the `nan`/`inf` values that `decimal_to_aprs` rejects before the first send's `try`.
- Settings.SaveAndStart: takes whether `save_settings` completes as the `written` bit of `Settings.Env` instead of deciding it. ConfigParser's rule that a `%` neither doubled nor opening `%(name)s` raises ValueError, and file errors, are not modelled; when the write raises, the model starts nothing, as the program does.
- `Decimal.ParseInt` models `int()` only for ASCII digits with an optional sign and surrounding white space. The white space is what `int()` skips: Python's white space except the separators U+001C-U+001F, which `strip()` does remove. Underscores between digits and non-ASCII digits, which Python also accepts, are rejected.
- Decimal.ParseInt: fixes the digit limit at CPython's default of 4300. `sys.set_int_max_str_digits` and the `PYTHONINTMAXSTRDIGITS` setting are not modelled, and neither are Python versions without the limit (before 3.11, apart from the 3.7-3.10 security releases that added it).
- Settings.SaveIsStable: holds only for records without `%` whose symbol table is one the menu offers. ConfigParser's interpolation on reading (`%%` becomes `%`, `%(name)s` is substituted) and its file syntax are not modelled, so a record holding `%` may read back as different text, and `beacon_loop` may raise on it.
- `Text.Upper` upper-cases only ASCII `a`-`z`. Python's full Unicode case mapping is not modelled, and it can change the length of a string.
- The passcode hash uses 32-bit XOR. Python's unbounded integers give the same result, because the largest term is below 2^29.
- The packet builder takes the fields as text. The `Packet.Station` route fixes their widths; the packet itself does not check them.
- The model does not show `beacon_loop` re-reading the settings file when it starts. A new loop is given the interval `save_and_start` just saved, and whether its reads succeed, at the Start that spawns it; a save between the spawn and the thread's first read is not modelled.

## Findings

| source | as written | input that shows it | evidently intended | confidence | as-written member | corrected member |
|---|---|---|---|---|---|---|
| ABeS.py:118-136 | each loop tests only the shared `running` flag, so Stop followed by Start within one poll leaves the old loop running next to the new one | Start, the loop's test and send, Stop, Start while the old loop waits, then steps of both loops: both loops send, and nothing ever stops the older one while the flag stays up | a Stop ends the current loop, so at most one loop beacons at a time | not executed | Beacon.RestartRace | Beacon.OnlyNewestSends |
| ABeS.py:107-113 | `save_and_start` saves LAT and LON without reading them as numbers; `beacon_loop` reads them with `float()` after `start_beacon` has raised the flag, and an exception there ends the thread | an otherwise valid form with latitude `abc` (or `nan`, which fails in `decimal_to_aprs`): the thread dies, `running` stays True, nothing is sent, and Start does nothing until Stop | `save_and_start` refuses a position that is not a finite number, as it refuses a bad interval | not executed | Settings.UnreadablePositionStalls | Settings.CheckedStartBeacons |
