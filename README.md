# AgendaPro in Dafny

AgendaPro is a console agenda. It keeps people (`Persona`: a unique integer id, a name and a
telephone number) and appointments (`Cita`: the id of the person, a date and time, and a
description) in two in-memory lists. A menu offers six options:

- a) register a person;
- b) list the people;
- c) book an appointment for a registered person;
- d) list one person's appointments;
- e) list every appointment;
- f) leave.

The values each option needs are read by three retrying readers:

- an integer reader (`int.Parse` on the trimmed line);
- a date reader (seven exact patterns, then `DateTime.TryParse`);
- a non-empty text reader.

The model is split into modules that follow the program's layers:

| file | module | what it holds |
|---|---|---|
| `optional.dfy` | `Optional` | `Option`, and a console line as `Option<string>` (`None` is the null `ReadLine` returns) |
| `decimal.dfy` | `Decimal` | digit strings, their values and zero-padded rendering |
| `text.dfy` | `Text` | `Char.IsWhiteSpace`, `String.Trim`, `IsNullOrWhiteSpace`, `ToLower`, and one attempt of the text reader |
| `int32parse.dfy` | `Int32Parse` | `Int32.Parse` with its three outcomes (value, format error, overflow), and `Int32.ToString` |
| `datetimes.dfy` | `DateTimes` | `DateTime` to the minute and its Gregorian validity, the seven patterns of `TryParseExact` as token lists, and the `yyyy-MM-dd HH:mm` rendering |
| `agenda.dfy` | `Agenda` | `Persona` and `Cita` values, `Exists`/`Find`/`FindAll`, and the `Store` class whose two `seq` fields are the program's lists, with the five store operations |
| `menu.dfy` | `Menu` | menu commands, the retry loops over a finite input, options a) to e) as functions and as methods on the store, one pass of the main loop (`Pass`, `Step`) and the whole run (`Session`, `Run`) |

The console is modelled as a finite sequence of lines. Every reader and handler returns the
position of the next unread line. Each imperative part of the program is a method proved
against a pure function:

- `ReadUntil` computes `Retry` (the readers' `while (true)` loops);
- `Step` computes `Pass` (one pass of the menu loop);
- `Run` computes `Session` (`Main`'s do-while loop);
- the `Store` methods compute the listing functions.

The program's properties are lemmas about those functions.

## Model

| member | source | states |
|---|---|---|
| Decimal.DigitsValue | Program.cs:235-240 | the value of a digit string of length n is below 10^n |
| Decimal.PadValue | Program.cs:177 | a number below 10^w written in w zero-padded digits reads back as the number |
| Decimal.PadOfValue | Program.cs:240 | a digit string is the zero-padded rendering of its own value in its own width (leading zeros kept) |
| Text.Trim | Program.cs:41 | the trimmed text is empty exactly when the input is all white space, and otherwise neither starts nor ends with white space |
| Text.TrimInfix | Program.cs:261 | the trimmed text is an infix of the input, with only white space before and after it |
| Text.TrimPadded | Program.cs:261 | surrounding a text that has no white space at either end with white space, then trimming, gives the text back |
| Text.TrimIdempotent | Program.cs:261 | trimming twice is trimming once |
| Text.ReadText | Program.cs:261-263 | one attempt of LeerTextoNoVacio is refused exactly when the line is blank or absent, and otherwise yields the trimmed line, which is non-empty and neither starts nor ends with white space |
| Text.IsFieldTextMeans | Program.cs:261-263 | a text LeerTextoNoVacio can return (non-empty, no white space at either end) is exactly a text that is not blank and that trimming leaves unchanged |
| Text.LeadingWhite | Program.cs:261 | every character before the first one Trim keeps is white space |
| Text.TrailingWhite | Program.cs:261 | every character after the last one Trim keeps is white space |
| Int32Parse.ParseInt | Program.cs:209 | a parsed value always lies in the 32-bit range |
| Int32Parse.ParseIntMeans | Program.cs:209 | in both directions: a text of the accepted shape (white space, optional sign, digits, white space, NULs) parses to its value or overflows, and a text that is not a format error has that shape and the value of the result |
| Int32Parse.ParseFramed | Program.cs:209 | a text of the accepted shape parses to the value of its sign and digits, or overflows when that value does not fit in 32 bits |
| Int32Parse.ParseAccepted | Program.cs:209 | a text Int32.Parse does not refuse as malformed can be split into the accepted shape, and the result is the value of its sign and digits |
| Int32Parse.ParseSignedDigits | Program.cs:209-218 | an optionally signed digit string yields its value when it fits in [-2^31, 2^31-1], and is an overflow (not a format error) otherwise |
| Int32Parse.ParseWithoutDigits | Program.cs:209-213 | text with no decimal digit is a format error |
| Int32Parse.ParseTrailingGarbage | Program.cs:209-213 | digits followed by a character other than a digit, number white space or NUL are a format error, however many digits there are |
| Int32Parse.ParseShow | Program.cs:176-209 | Int32.ToString read back by Int32.Parse is the integer when it fits in 32 bits and an overflow otherwise |
| Int32Parse.ReadIntShow | Program.cs:205-209 | a rendered id read back by one attempt of LeerEntero is that id when it fits, with both limits included |
| Int32Parse.ReadIntMeans | Program.cs:205-218 | one attempt of LeerEntero yields v exactly when the line is present and its trimmed text is an integer text for the 32-bit value v, and is an overflow exactly when that text denotes an integer out of range |
| Int32Parse.Show | Program.cs:176 | Int32.ToString is never empty, and starts with a minus sign exactly for negative numbers |
| Int32Parse.ReadIntTen | Program.cs:209 | "10" is read as 10 |
| Int32Parse.ReadIntNotANumber | Program.cs:208-213 | "abc" and an absent line are format errors |
| DateTimes.DaysInMonth | Program.cs:240 | every month has 28 to 31 days; February has 29 exactly in Gregorian leap years |
| DateTimes.With | Program.cs:240 | setting one field of a date changes that field and no other |
| DateTimes.ParseExact | Program.cs:240-242 | a date one pattern accepts exists (years 1..9999, real month lengths, 24 h, 60 min) |
| DateTimes.FirstMatch | Program.cs:233-242 | whatever the pattern list accepts is a date that exists |
| DateTimes.ReadDateMeans | Program.cs:227-247 | one attempt of LeerFecha on a present line: any of the seven patterns that accepts the trimmed text gives the result, wherever it stands in the list, and the fallback decides only when every pattern refuses the text |
| DateTimes.ReadDate | Program.cs:227-247 | an absent line fails, and a result is a date that exists whenever the fallback only yields dates that exist |
| DateTimes.ParseDate | Program.cs:240-241 | whatever TryParseExact with the seven patterns yields is a date that exists |
| DateTimes.ParseDateMeans | Program.cs:240-242 | TryParseExact with the seven patterns fails exactly when every pattern refuses the text, and otherwise any pattern that accepts the text gives the result |
| DateTimes.ScanRender | Program.cs:235-240 | scanning the rendering of a date by a pattern recovers every field the pattern names, and keeps the rest |
| DateTimes.ScanKeeps | Program.cs:237-240 | a field a pattern does not name keeps its starting value |
| DateTimes.RenderScan | Program.cs:240 | a text that a pattern with distinct fields accepts is the rendering of the date it yields |
| DateTimes.ScanClasses | Program.cs:235-240 | an accepted text has the pattern's length, digits where the pattern has fields and the pattern's literals elsewhere |
| DateTimes.FormatClasses | Program.cs:235-237 | the lengths of the seven patterns and their classes at positions 2 and 4 |
| DateTimes.FormatFacts | Program.cs:235-237 | every pattern names year, month and day once each, has no digit literal, and names hour and minute exactly when it is one of the first four |
| DateTimes.FormatsExclusive | Program.cs:233-242 | no text is accepted by two different patterns, so the order they are tried in never matters |
| DateTimes.ScanAgrees | Program.cs:235-240 | two different patterns never both scan the same text |
| DateTimes.FirstMatchAt | Program.cs:240-242 | the earliest pattern that accepts a text decides the result |
| DateTimes.FirstMatchNone | Program.cs:240-247 | there is no result exactly when every pattern refuses the text |
| DateTimes.ParseDateAccepted | Program.cs:240-242 | a text accepted by one of the patterns is read by that pattern |
| DateTimes.RenderedFormat | Program.cs:235-240 | each pattern scans its own rendering of any fields that fit its widths back to those fields |
| DateTimes.ParseRendered | Program.cs:235-242 | the rendering of some fields by any of the seven patterns is accepted exactly when the fields form a date that exists, and then yields that date |
| DateTimes.RejectedEverywhere | Program.cs:240-247 | a text that one pattern scans to a date that does not exist is refused by all of them |
| DateTimes.FormatThenParse | Program.cs:177 | every date the program can hold, rendered by FormatFecha as the listings render it ("yyyy-MM-dd HH:mm", also line 195), is accepted by TryParseExact with the seven patterns as the same date |
| DateTimes.FormatThenRead | Program.cs:230-245 | every date the program can hold, rendered as the listings render it (line 177), is read by one attempt of LeerFecha as the same date: Trim leaves the rendering whole and TryParseExact accepts it, so the TryParse fallback is never consulted |
| DateTimes.ParseThenFormat | Program.cs:235-242 | a "yyyy-MM-dd HH:mm" text that names an existing date is read by the first pattern and renders back as the same text |
| DateTimes.DateOnlyIsMidnight | Program.cs:237-242 | a date-only pattern yields 00:00 of the date it reads |
| DateTimes.OctoberExample | Program.cs:140 | "2025-10-15 14:30" is read as that minute and rendered as the same text |
| DateTimes.MidnightExample | Program.cs:237 | "15/10/2025" is midnight of 15 October 2025 |
| DateTimes.NoSuchDayExample | Program.cs:240 | "29/02/2023" is refused (2023 is not a leap year) |
| DateTimes.MonthThirteenExample | Program.cs:240 | "2025-13-01 10:00" is refused |
| DateTimes.FebruaryThirtyExample | Program.cs:240 | "2024-02-30" is refused |
| Agenda.Find | Program.cs:133 | personas.Find finds a person exactly when one has the id, and what it finds has that id and is in the list |
| Agenda.FindFirst | Program.cs:133 | Find returns the person at the first position that holds the id |
| Agenda.FindUnique | Program.cs:133 | with unique ids, Find returns the only person with the id |
| Agenda.FindAll | Program.cs:165 | citas.FindAll keeps exactly the appointments of the person, and nothing else |
| Agenda.FindAllAppend | Program.cs:143-165 | booking an appointment adds it once, at the end, to its person's listing, and to no other listing |
| Agenda.FindAllEmpty | Program.cs:165-170 | a person's listing is empty exactly when no appointment is theirs |
| Agenda.FindAllOrdered | Program.cs:165-174 | the person's listing is the list read at increasing positions (insertion order) |
| Agenda.FindAllCount | Program.cs:165 | each appointment of the person occurs in the listing as often as in the list |
| Agenda.FilaReadsBack | Program.cs:175-177 | the PersonaId column read by one attempt of LeerEntero gives the appointment's id when it fits in 32 bits, and the Fecha column of a valid date is accepted by TryParseExact and read by one attempt of LeerFecha, whatever its TryParse fallback, as the appointment's date |
| Agenda.FilaExample | Program.cs:175-178 | the row of the example appointment is "1", "2025-10-15 14:30", "Checkup" |
| Agenda.CitasListingForMeans | Program.cs:153-179 | option d) refuses exactly the unknown ids, is empty exactly when none of the appointments is the person's, and otherwise shows one row per appointment of that person, in order |
| Agenda.ConsistentAddPersona | Program.cs:98-107 | registering under a free id keeps ids unique and every appointment attached to a registered person |
| Agenda.ConsistentAddCita | Program.cs:133-148 | booking for a registered person keeps the lists consistent |
| Agenda.Store.constructor | Program.cs:30-31 | both lists start empty and consistent |
| Agenda.Store.RegistrarPersona | Program.cs:96-108 | refused exactly when the id is already taken, which leaves the lists as they were; otherwise exactly the new person is appended; appointments untouched; ids stay unique |
| Agenda.Store.CrearCita | Program.cs:131-148 | refused exactly when nobody has the id, which leaves the lists as they were; otherwise exactly the new appointment is appended and the person returned is the unique one with the id; people untouched |
| Agenda.Store.ListarPersonas | Program.cs:111-125 | empty for no people, otherwise every person in registration order |
| Agenda.Store.ListarCitasPorPersona | Program.cs:153-179 | refused for an unknown id, otherwise the person's appointment rows (see CitasListingForMeans) |
| Agenda.Store.ListarTodasLasCitas | Program.cs:181-197 | empty for no appointments, otherwise one row per appointment in order |
| Agenda.Tabla | Program.cs:174-178 | the foreach loop writes one row per appointment, in order |
| Agenda.TablaSnoc | Program.cs:174-178 | one more appointment adds its row at the end of the table |
| Agenda.RegistrationScenario | Program.cs:96-108 | a second registration of id 1 is refused and leaves one person |
| Agenda.BookingScenario | Program.cs:131-196 | a booking for person 1 is made for that person; one for the unknown id 99 is refused; both listings show exactly the one booked appointment |
| Menu.Select | Program.cs:43-66 | an option selected by the normalised line is the one whose letter the line is, and the line is the invalid option exactly when it is none of the six letters |
| Menu.SelectKey | Program.cs:45-60 | each option's own letter selects it |
| Menu.ParseCommandKey | Program.cs:41-60 | one letter in either case, surrounded by any white space, selects the option of that letter |
| Menu.ParseCommandNull | Program.cs:41-64 | an absent line is the invalid option, never the exit |
| Menu.Normalize | Program.cs:41 | the normalised line is empty exactly when the line is blank or absent, and is as long as the trimmed line |
| Menu.ParseCommand | Program.cs:41-66 | an option other than the invalid one is chosen only when the normalised line is exactly its letter, and a blank or absent line is the invalid option |
| Menu.IntLine | Program.cs:205-218 | an attempt of LeerEntero yields a value exactly when the trimmed line is an integer text whose value fits in 32 bits, and then that value; it fails on a format error or an overflow |
| Menu.Retry | Program.cs:202-266 | a retry loop stops right after a line the attempt accepts, with that line's result, or at the end of the input with nothing |
| Menu.Attempt | Program.cs:202-219 | one pass of a retry loop consumes at least one line |
| Menu.RetrySkipsRefused | Program.cs:211-265 | every line a retry loop skips is one the attempt refuses |
| Menu.RetryPair | Program.cs:104-105 | two retry loops in a row that both succeed read their values from the line each one stops at; every line before the first value, and between the two, is refused by the loop that skips it |
| Menu.RetryPairStalls | Program.cs:104-105 | two retry loops in a row run out of input exactly when no line accepted by the first is followed by a line accepted by the second |
| Menu.ReadUntil | Program.cs:202-266 | the loop computes Retry |
| Menu.Registration | Program.cs:92-109 | option a) yields a new person, a taken id or stalls; a taken id is registered and was read from a line, a new person's id is free and both texts can be returned by the text reader |
| Menu.RegistrationChecksId | Program.cs:96-104 | the id option a) reads (the first line holding a 32-bit integer) is refused exactly when it is taken, and is the id of the person registered |
| Menu.RegistrationRefuses | Program.cs:96-101 | a taken id is the one on the first line at or after the option line that holds a 32-bit integer, and that line is the last one option a) reads |
| Menu.RegistrationReads | Program.cs:96-107 | a free id is the one on the first line holding a 32-bit integer, and the name and telephone are read from the lines right after it |
| Menu.NewPersona | Program.cs:104-107 | the person added carries the id it was given and two texts the text reader can return, and at least two lines were read |
| Menu.NewPersonaReads | Program.cs:104-105 | the name is the text of the first line LeerTextoNoVacio accepts and the telephone that of the next accepted line, which is the last line read; every line before each of them is refused |
| Menu.NewPersonaStalls | Program.cs:104-105 | reading the name and telephone runs out of input exactly when no accepted line is followed by another accepted line |
| Menu.ReadRegistration | Program.cs:96-105 | the reading of option a) computes Registration |
| Menu.ReadNewPersona | Program.cs:104-105 | the reading of name and telephone computes NewPersona |
| Menu.DoRegister | Program.cs:92-109 | option a) on the store computes Registration, and appends exactly the person it shows |
| Menu.Booking | Program.cs:127-151 | option c) yields an appointment, an unknown id or stalls; an unknown id has no person, the booked person is the one Find returns, the description can be returned by the text reader, and the date exists when the fallback only yields existing dates |
| Menu.BookingChecksId | Program.cs:131-138 | the id option c) reads is refused exactly when nobody has it, and is the id the appointment is booked for |
| Menu.BookingRefuses | Program.cs:131-138 | an unknown id is the one on the first line at or after the option line that holds a 32-bit integer, and that line is the last one option c) reads |
| Menu.BookingReads | Program.cs:131-141 | a known id is the one on the first line holding a 32-bit integer, and the date and description are read from the lines right after it |
| Menu.NewCita | Program.cs:140-148 | the appointment is for the person found, under that person's id, with a description the text reader can return, and at least two lines were read |
| Menu.NewCitaReads | Program.cs:140-141 | the date is the result of the first line LeerFecha accepts and the description the text of the next line LeerTextoNoVacio accepts, which is the last line read; every line before each of them is refused by its reader |
| Menu.NewCitaStalls | Program.cs:140-141 | reading the date and description runs out of input exactly when no line LeerFecha accepts is followed by one LeerTextoNoVacio accepts |
| Menu.ReadBooking | Program.cs:131-141 | the reading of option c) computes Booking |
| Menu.ReadNewCita | Program.cs:140-141 | the reading of date and description computes NewCita |
| Menu.DoBook | Program.cs:127-151 | option c) on the store computes Booking, and appends exactly the appointment it shows |
| Menu.Consultation | Program.cs:153-179 | option d) shows a listing or stalls at the end of the input |
| Menu.ConsultationListsReadId | Program.cs:156-179 | option d) lists CitasListingFor of the id on the first line holding a 32-bit integer |
| Menu.RetryInt | Program.cs:202-219 | LeerEntero stops at the first line holding a 32-bit integer, with its value, and finds none only when no line holds one |
| Menu.ConsultationRetries | Program.cs:156-158 | option d) lists exactly when the id loop finds an id, and then the listing of that id |
| Menu.DoListFor | Program.cs:153-179 | option d) on the store computes Consultation |
| Menu.Pass | Program.cs:38-75 | one pass of the menu loop consumes at least one line; it shows Goodbye exactly when the menu line selects f, and then consumes only that line; options a) to e) are exactly the handlers Registration, the people listing, Booking, Consultation and the appointments listing run on the lines after the menu line; an invalid option consumes only the menu line; only a) and c) change the lists, each appending exactly the entry it shows, under a free id or for a registered person |
| Menu.PassConsistent | Program.cs:38-75 | a pass keeps ids unique and every appointment attached to a registered person |
| Menu.PassClean | Program.cs:104-141 | everything a pass stores was trimmed and is not blank, and its dates exist |
| Menu.CleanAppendPersona | Program.cs:107 | appending a person with reader-checked texts keeps the lists clean |
| Menu.CleanAppendCita | Program.cs:143-148 | appending an appointment with a reader-checked text and an existing date keeps the lists clean |
| Menu.Step | Program.cs:38-75 | one pass on the store computes Pass and keeps the store consistent |
| Menu.Session | Program.cs:37-75 | a run only appends to both lists and consumes no more than the input |
| Menu.SessionEnds | Program.cs:68-75 | a run stops right after a menu line that selects f, or at the end of the input, and shows at most one event per line |
| Menu.ExitOnlyOnF | Program.cs:68-75 | a run exits only when the last line it consumes selects f |
| Menu.SessionEvents | Program.cs:60-75 | a run has exited exactly when its last event is Goodbye, and no earlier event is Goodbye |
| Menu.SessionFirst | Program.cs:38-66 | a run is silent only on exhausted input, and its first event is the event of one pass on the first menu line, which answers the option on that line |
| Menu.SessionConsistent | Program.cs:37-75 | a whole run keeps ids unique and every appointment attached to a registered person |
| Menu.SessionClean | Program.cs:37-75 | everything a whole run stores went through the readers |
| Menu.SessionAfterPass | Program.cs:38-75 | a run that is at line pos goes on with one pass, and stops there when the pass shows Goodbye |
| Menu.Run | Program.cs:33-76 | Main's loop on the store computes Session and keeps the store consistent |

## Left out

- Console output is not modelled: the menu text, prompts, messages, emoji and UTF-8 encoding (Program.cs:35, 79-89). Each pass shows one `Event` instead.
- The "press a key" pause (`ReadKey` and `Clear`, Program.cs:70-72) consumes no line in the model. It reads a key, not a line. With redirected input, .NET throws from `ReadKey`; that is not modelled.
- `DateTime.TryParse` (Program.cs:244) depends on the culture and on the clock: it fills the parts of a date the text leaves out from the current date. Both are abstracted by one function parameter (`fallback`). Whatever the model says about its dates holds under `ValidFallback`, the assumption that it only yields dates that exist.
- Culture: the patterns' `/` and `:` are taken as literal characters. The sign is taken to be `+` or `-`. The calendar is Gregorian.
- Text.ToLowerChar: only `A`..`Z` are lower-cased. This is exact for the six option letters. For other letters it can differ from culture-aware `ToLower`.
- Text.IsWhiteSpace: the Unicode white-space set is written out as a list of characters. It is not derived from Unicode data.
- Int32Parse.ParseInt: models .NET's `int.Parse` under `NumberStyles.Integer` in two stages: it first computes the value of the digit run as an unbounded integer (ParseMagnitude), and only then checks it against the 32-bit range (Ranged), where .NET checks for overflow digit by digit; both give the same outcome. A well-formed text outside the range is an overflow, and any malformed text is a format error, however long its digit run. Thousands separators, parentheses and other culture signs are not accepted, because `NumberStyles.Integer` does not accept them.
- Seconds, milliseconds and `DateTimeKind` of `DateTime` are left out. None of the seven patterns sets them, so they are zero (and the kind unspecified) for every date the patterns read. A date that comes from the `TryParse` fallback can carry seconds, milliseconds or a kind; the model's `DateTime` keeps only its year to minute, which is all the listings show.
- The culture-default rendering of the date in CrearCita's confirmation message (Program.cs:150) is output only and is not modelled.
- Table padding and separator lines (Program.cs:121-122, 172-173, 190-191) are not modelled. `ListarPersonas` returns the people shown. The appointment listings return the three columns of each row as text.
- Infinite retry: on a closed console the readers would ask forever (`ReadLine` keeps returning null). The model's input is finite, so a reader that runs out of lines stops and the pass shows `Stalled`. A run that ends without option f has `exited == false`.
- `Persona` and `Cita` are C# classes, but the program never changes one after creating it. They are modelled as values. Agenda.FindAllAppend: a new appointment shows up once at the end of its listing. With values, an earlier appointment equal to it field by field would also match, where C# reference identity would tell them apart.
- `Store.Valid()` is `Consistent`: unique ids, and every appointment attached to a registered person. Clean (every stored text came through the text reader and every date exists) is not part of it, because the store methods accept any text and date, as the C# lists do. Clean is stated as lemmas about Pass and Session instead.
- `IsFieldText` (a text LeerTextoNoVacio can return) is defined by its first and last characters. Text.IsFieldTextMeans proves this equal to "not blank, and unchanged by Trim".
