# IoT humidity controller: server decision, device registry, connection list and client state machine

This project models the core of a small IoT system in Dafny.

- **Sensor clients** periodically send a report `"<device id> <temperature> <humidity>"`.
- **The server** splits the report and looks the device id up in a flat table file (`MIB_TABLE.txt`). The file holds lines `id<TAB>ip<TAB>place<NEWLINE>`.
  - When the id is absent, the server registers it. It composes a human-readable place name from the id's four dotted segments (site, floor, room, sensor kind) and appends a line.
  - The server then answers with an actuation code `"humidifier.led.buzzer"`. `write_act` chooses the code from four temperature bands and their humidity thresholds.
  - The server keeps the sockets of connected clients in a fixed array of ten slots with a counter.
- **The client** splits the code on `.` and updates four flags: the red, green and blue LEDs and the humidifier. The nesting of its `if`/`else if` branches is kept exactly as written.

Modules:

| file | module | what it holds |
|---|---|---|
| `options.dfy` | `Options` | `Option` |
| `cstrings.dfy` | `CStrings` | `strtok` with one delimiter, `atoi`, `sprintf("%d")`, and `fscanf("%[^c]<ws>")` on a stream position |
| `decision.dfy` | `Decision` | `write_act`, the policy table, and the reply rendering |
| `registry.dfy` | `Registry` | the table line format, the lookup scan, place composition, and the `MibTable` class |
| `connections.dfy` | `Connections` | the `ConnectionList` class over `clnt_socks`/`clnt_number` |
| `session.dfy` | `Session` | report parsing, serving one report, and the per-connection loop |
| `client.dfy` | `Client` | reply parsing, the `Panel` flags, and their closed-form specification `Next` |

How the model is organised:

- **The table is its file text.** `Registry.MibTable.text` holds the file's contents.
  - `Lookup` runs serv.c's `while (true)` loop over a stream position.
  - It follows the C library's rules: a `%[^c]` conversion fails on an empty match, consumes nothing and leaves the buffer as it was. A whitespace directive skips every following whitespace character.
  - The specification of that loop is the recursive function `ScanLookup`.
  - `ScanSerialised` proves that, on a table written as `Serialise(records)`, this scan is the first-match search `FirstMatch` over the records.
  - `ParseSerialise` proves that the line format round-trips. It holds for fields that are non-empty, free of tabs and newlines, and do not start with whitespace.
- **Faults are `None` / `Fault`.** Some inputs make the C code dereference a NULL `strtok` result: a report with fewer than three tokens, an id with fewer than four segments, or a reply with fewer than three fields. The model represents that outcome as `None` or `Fault`.

## Model

| member | source | states |
|---|---|---|
| CStrings.Tokens | serv.c:168-176 | every token strtok returns is non-empty and free of the delimiter |
| CStrings.TokensOfJoin | serv.c:228-238 | strtok on a delimiter recovers exactly the fields that were joined with it, when none is empty or holds the delimiter |
| CStrings.Atoi | serv.c:172-176 | atoi reads a string holding no digit as 0, so a non-numeric temperature or humidity is accepted as 0 |
| CStrings.AtoiOfIntToString | serv.c:172-176 | atoi reads back any integer written with `%d` |
| CStrings.ScanAt | serv.c:186 | a `%[^c]` conversion consumes something exactly when it reads a non-empty field, and never moves past the end of the stream |
| CStrings.FieldEndAtRest | serv.c:186 | the end of a `%[^c]` field found on a stream position is the end strtok's field search finds on the rest of the text |
| CStrings.SpacesEndAtRest | serv.c:186 | the whitespace directive's skip on a stream position is atoi's leading-space skip on the rest of the text |
| CStrings.ScanAtField | serv.c:186 | a non-empty field followed by its whitespace stop character is read back whole, and the stream moves just past the stop when the next character is not whitespace |
| Decision.WriteAct | serv.c:307-349 | write_act always produces one of "1.0.0", "0.1.0", "0.2.1": the cases write_act leaves without an `else` are unreachable |
| Decision.IdealHumidity | serv.c:311-346 | each temperature band's threshold is one of 70, 60, 50, 40 |
| Decision.Intended | serv.c:311-346 | the policy lights exactly one LED; the humidifier runs exactly under red, the buzzer sounds exactly under blue, and green means the humidity equals the band's threshold |
| Decision.WriteActCases | serv.c:311-346 | "1.0.0" exactly when humidity is below the band's threshold (70, 60, 50, 40), "0.1.0" exactly when equal, "0.2.1" exactly when above |
| Decision.WriteActRendersIntended | serv.c:311-346 | the reply is the policy written as "%d.%d.%d": humidifier digit 1 iff below the threshold, LED red/green/blue for below/equal/above, buzzer digit 1 iff above |
| Decision.IdealHumidityFalls | serv.c:311-346 | a warmer temperature band never has a higher humidity threshold |
| Registry.FormatRecordLine | serv.c:270 | a line written with "%s\t%s\t%s\n" from valid fields holds exactly two tabs and one newline, at its end |
| Registry.SerialiseLines | serv.c:270-271 | a table written from valid records holds exactly one line per record |
| Registry.ReadLineAt | serv.c:186-203 | reading a line moves the stream forward whenever an id was read |
| Registry.ScanLookupAt | serv.c:182-205 | the lookup loop from a stream position finds an id only when it is non-empty, and what it reads as the place is then non-empty |
| Registry.ScanLookup | serv.c:180-205 | the lookup on a freshly opened table finds only a non-empty id, with a non-empty place |
| Registry.FirstMatch | serv.c:182-205 | no result exactly when no record has the id; otherwise the place of a record with the id that no earlier record has |
| Registry.ReadFormattedAfter | serv.c:270-271 | a line written with "%s\t%s\t%s\n" and followed by a non-whitespace character or the end of the file is read back as its three fields, and the stream then stands at the next line |
| Registry.ParseSerialise | serv.c:270-271 | reading a table written from valid records gives back exactly those records |
| Registry.ScanSerialised | serv.c:182-205 | the lookup loop on a table written from valid records finds the place of the first record with the id, and finds nothing when no record has it |
| Registry.SerialiseAppend | serv.c:270-271 | appending a record to the table appends its line after the existing ones |
| Registry.FirstMatchAppend | serv.c:182-205 | a record added at the end is found only by an id no earlier record has |
| Registry.LookupAfterAppend | serv.c:270-271 | after the line of a previously absent id is appended, looking that id up finds its place |
| Registry.LookupOtherAfterAppend | serv.c:270-271 | appending a line leaves the lookup of every other id unchanged |
| Registry.FloorText | serv.c:245-252 | the text a floor segment contributes holds no tab or newline |
| Registry.RoomText | serv.c:254-261 | the text a room segment contributes holds no tab or newline |
| Registry.SensorText | serv.c:263-268 | the text a sensor segment contributes holds no tab or newline |
| Registry.ComposePlace | serv.c:226-268 | composition faults exactly when the id has fewer than four dotted segments; the site is unknown exactly when the first segment is neither "1" nor "2" |
| Registry.ComposedPlaceValid | serv.c:240-271 | a composed place is a field the lookup scan reads back whole |
| Registry.DeviceIdTokens | serv.c:228-238 | the four segments strtok takes from a device id are the four numbers it was written from |
| Registry.PlaceOfValidId | serv.c:240-268 | for site in {1,2}, floor and room in {0..3}, and sensor in {1,2,3}, the place is the site name and a space, then the floor name and a space unless the floor is 0, then the room name and a space unless the room is 0, then the sensor name |
| Registry.MibTable.constructor | serv.c:180 | the table holds the stored file text |
| Registry.MibTable.Lookup | serv.c:182-205 | the loop's fscanf calls, in order: read the id into the buffer, stop when that fails, on a match read the ip and the place into the same buffer; MIB_flag is set exactly when `ScanLookup` finds the id, and mib_place is what it reads as the place |
| Registry.MibTable.Register | serv.c:226-271 | the placement is the composed place; exactly one line `id\tip\tplace\n` is appended after the existing text when a place was composed, and the text is otherwise unchanged |
| Connections.RemoveFirst | serv.c:283-297 | removing a present socket shortens the list by one; an absent one leaves it as it was |
| Connections.RemoveFirstAt | serv.c:288-293 | removing the first occurrence at index i leaves the entries before i and shifts those after it left by one |
| Connections.RemoveFirstCount | serv.c:283-297 | removing a present socket takes away exactly one occurrence of it and keeps every other entry; an absent socket leaves the list as it was |
| Connections.GapClosed | serv.c:290-291 | shifting the later entries left over the found index leaves the list without its first occurrence of the socket |
| Connections.ConnectionList.constructor | serv.c:67-68 | the list starts empty with ten slots |
| Connections.ConnectionList.Admit | serv.c:109-123 | a socket is accepted exactly when fewer than ten are in use; an accepted socket is stored after the others and the count grows by one, and a refused one changes nothing |
| Connections.ConnectionList.Remove | serv.c:283-297 | the socket's first occurrence is removed and later entries move left in order; when the socket is absent the count still decreases, dropping the last entry |
| Session.ParseReport | serv.c:168-176 | a report is read exactly when it has at least three space-separated tokens; the id is then non-empty and free of spaces |
| Session.ParseFormatReport | clnt.c:90 | the server reads back the id, temperature and humidity of a report "id temper humid"; the client writes the fixed id 1.1.1.1 ("1.1.1.1 %d %d"), generalised here to any non-empty id without spaces |
| Session.Replay | serv.c:164-281 | the reports of one connection served in order: at most one reply per report, one for each when nothing faults, and the table text only grows |
| Session.ReplayAnswers | serv.c:164-281 | reply k answers report k with write_act's code for its temperature and humidity |
| Session.ReplayFault | serv.c:164-281 | after a fault the replies are exactly those of the reports before the faulting one, and that report faults on the table they left |
| Session.Serve | serv.c:166-279 | one report served on the table text: when a reply is sent the report was well formed, the reply is write_act's code for its temperature and humidity, and the table text only grows, and only for an id the lookup did not find; it faults exactly when the report has fewer than three tokens, or its id is not in the table and has fewer than four dotted segments |
| Session.ServeRegistersOnce | serv.c:179-279 | the first report of an absent, valid id appends its line and replies; an identical second report finds it, replies the same and appends nothing |
| Session.ServeKnown | serv.c:209-214 | a report from an id already in the table is answered with the policy's code, and the table is unchanged |
| Session.FirstReport | serv.c:164-281 | the first report of any valid device on an empty table replies with write_act's code and leaves exactly one line, with the device's composed place |
| Session.HandleReport | serv.c:166-279 | handling one report on the shared table gives the outcome `Serve` defines, and leaves the table text it names |
| Session.ReplayReplies | serv.c:164-281 | every reply of a connection is one of the three codes |
| Session.ServeReports | serv.c:164-281 | the report loop sends the replies and leaves the table that `Replay` defines, stopping at the first fault |
| Session.Connection | serv.c:135-299 | a connection serves its reports and then leaves the connection list as `Remove` does; after a fault the list is untouched |
| Client.ParseReply | clnt.c:101-103 | a reply is read exactly when it has at least three dot-separated fields |
| Client.ParseRender | clnt.c:101-103 | every reply written as "%d.%d.%d" is read back as its three codes |
| Client.ParseServerCodes | clnt.c:101-103 | the server's three replies read as (1,0,0), (0,1,0) and (0,2,1) |
| Client.Next | clnt.c:105-211 | an LED code in {0,1,2} lights exactly its own LED; any other LED code changes nothing; the alarm sounds only under BLUE with humi OFF, buzzer ON and a running humidifier |
| Client.HumidifierAfter | clnt.c:126-210 | humi OFF stops the humidifier; humi ON starts it under RED; under GREEN it starts unless the blue LED was lit; under BLUE it starts only if the blue LED was already lit |
| Client.ServerReplyEffect | clnt.c:105-211 | after any server reply the humidifier runs iff humidity is below the band threshold, the lit LED says below/equal/above, and the alarm sounds iff humidity is above while the humidifier was running |
| Client.Panel.constructor | clnt.c:52-55 | all four flags start off |
| Client.Panel.Apply | clnt.c:105-211 | clnt.c's nested updates of the four flags end in the state, and sound the alarm, exactly as `Next` says |
| Client.Panel.HandleReply | clnt.c:95-211 | a malformed reply is a fault that changes nothing; otherwise the flags change as `Next` says for the parsed codes |

Behaviour of serv.c that the model keeps:

- **A non-numeric report field is accepted.** A report such as `"1.2.3.1 abc 50"` is not rejected: `atoi` reads `abc` as 0, so the report is served with temperature 0.
- **Which reports fault.** A report faults exactly when it has fewer than three tokens (`ParseReport` is `None`), or its id is not in the table and has fewer than four dotted segments (`MissingSegment`); every other report is answered (`Session.Serve`). In the code that NULL dereference takes down the whole server process, not just one session.
- **Registration checks only the segment count and the site.**
  - A site other than 1 or 2 is not rejected (`UnknownSite`; see below).
  - Unknown floor, room or sensor values are accepted and contribute no text to the place.

## Left out

- Sockets, `accept`/`connect`, `read`/`write`, `end_write`, `get_ipaddr`, and `sock_read` are left out. The client's address is a parameter, and messages are the strings up to their NUL.
- Threads and the mutex are left out, so the model is sequential. The race between lookup and append is not modelled: the lock is released in between, so two sessions can register the same id twice.
- The model does not cover `write_log`, `get_now_time`, the log directory, or every `printf` and notice message. The exception is the client's ventilation alarm, modelled as the `alert` result.
- `get_mutx_no` is not modelled because nothing calls it. `error_handling`, argument checks, `sleep`, and the client's `rand()` readings are not modelled either.
- Opening and closing `MIB_TABLE.txt` is not modelled; the table is its text.
- Registry.MibTable.Register: when the site segment is neither 1 nor 2, serv.c appends a line whose place is the uninitialised `place_full` buffer. The model appends nothing in that case (`UnknownSite`), because the buffer's contents are undefined.
- Registry.ComposePlace: the repeated `sprintf(place_full, "%s%s ", place_full, …)` reads and writes the same buffer, which is undefined in C. It is modelled as the intended append.
- Connections.ConnectionList.Remove: requires at least one socket in use. Every connection thread was admitted first, so serv.c never reaches that line with `clnt_number == 0`. Below that, the count would go negative.
- CStrings.Atoi: `int` overflow is not modelled, and the model's integers are unbounded.
- Client.ParseReply: the buzzer field is read with `atof` and truncated to `int`. The model reads it as `atoi`, which agrees on the replies the server sends.
- Fixed buffer sizes are not modelled: the 200-byte message and field buffers, the 400-byte line buffer, and the buffers the id's segments are copied into during registration (`place` of 50 bytes, and `place_1`, `place_2` and `sensor_no` of 40 bytes each, serv.c:217-220), together with the overflows that longer input would cause. The one exception is the ten-slot connection array.
- Passing `&clnt_sock` to the new thread shares one variable between connections; this aliasing is not modelled. Each `Session.Connection` gets its own socket.
