# Reminder scheduler: store and poll cycle

A Dafny model of the core of a small desktop reminder application
(`main.py`). Users register daily reminders (a text and an "HH:MM" time).
A background scheduler polls the store and is meant to fire each reminder
once per calendar date, at its minute. As written it can miss that when two
reminders share an id (see "## Findings"). The model covers four pieces:

- **Time validation.** `validar_horario` is `datetime.strptime(s, "%H:%M")`:
  the hour field is the pattern `2[0-3]|[0-1]\d|\d`, the minute field is
  `[0-5]\d|\d`, and the match must reach the end of the string. `TimeOfDay`
  also models the clock's zero-padded rendering (`strftime("%H:%M")` in
  `agora_hhmm`).
- **`str.strip()`.** `adicionar` uses it on text and time, with Python's full
  `isspace` set (`Text`).
- **The store.** `Reminders.Store` is a class whose `reminders` field is the
  document's `"lembretes"` list of `Reminder` records. Its methods are
  `listar`, `adicionar`, `atualizar` and `remover`. `atualizar` patches the
  *first* record with the id, or fails with `NotFound` (the source's
  `KeyError`) and changes nothing. The store does not validate anything.
- **One poll cycle.** `Scheduling.Scheduler.Poll` is `Scheduler.verificar`
  with the clock reading `hh` and the date `today` passed in. It visits a
  snapshot of the list. A record fires when all four hold: it is active, its
  time is valid, it was not fired today, and its time equals `hh` as a
  string. Each fired record is marked through `atualizar(id,
  ultimo_disparo_em=today)` and then announced as `("Lembrete", horario + " -
  " + texto)`. The cycle returns the announcements and the status line
  `"Monitorando — " + hh`.

The poll is proved against `AfterPoll`, a fold over the snapshot that repeats
the source's mark-by-id step. The lemmas then state what that fold means:

- Whatever the ids, only fired marks change (`AfterPoll`, `AfterPollFrame`).
- With distinct ids, exactly the due records are marked (`AfterPollUnique`).
- With distinct ids, a second cycle at the same minute and date announces
  nothing (`SecondPollSilent`). For any ids, only the corrected `PollFixed`
  is silent (`MarkDueSilent`).
- Whatever the ids, a fired record fires again on a later date that no record
  carries yet (`Rollover`). This holds only for records that were
  announced. The duplicate-id fault below can repeat a notification within
  its minute (`DuplicateIdRefires`). It can also silence, on every date, a
  reminder listed before a twin with an earlier time (`LateTwinSilenced`).
- Inactive records never fire (`Fired`).
- An unpadded time such as `"9:05"` never fires, because the clock always
  renders five characters (`UnpaddedNeverFires`, `ParseThenFormat`).

Ids are taken as inputs and are not assumed unique:

- The store itself does not validate. Only the UI checks text and time
  before calling it (main.py:228-233, 253).
- Ids are millisecond timestamps and need not be unique (main.py:63).

## Model

| member | source | states |
|---|---|---|
| TimeOfDay.ParseTime | main.py:25-30 | a successful `strptime(s, "%H:%M")` always yields an hour below 24 and a minute below 60 |
| TimeOfDay.HourFieldMeaning | main.py:27 | the `%H` pattern accepts exactly one or two digits whose value is at most 23 |
| TimeOfDay.MinuteFieldMeaning | main.py:27 | the `%M` pattern accepts exactly one or two digits whose value is at most 59 |
| TimeOfDay.ValidTime | main.py:25-30 | `validar_horario`: a valid time is three to five characters, with the colon at index 1 or 2 and digits at both ends |
| TimeOfDay.ParseTimeMeaning | main.py:25-30 | the parse yields time t if and only if s is 1–2 digits, a colon, 1–2 digits, whose values are t's hour (≤ 23) and minute (≤ 59) |
| TimeOfDay.ValidTimeExamples | main.py:25-30 | "9:05", "09:5", "23:59", "0:0" are accepted; "25:99", "24:00", "12:60", "12:345", "123:45", " 9:05" and "" are rejected |
| TimeOfDay.FormatHHMM | main.py:32-33 | the clock's "%H:%M" rendering is always five characters |
| TimeOfDay.FormatThenParse | main.py:32-33 | every clock rendering is a valid time that parses back to the same hour and minute |
| TimeOfDay.ParseThenFormat | main.py:25-33 | a valid time string equals the clock's rendering of its own time if and only if it is five characters long (zero-padded) |
| Text.TrimStart | main.py:64-65 | drops a whitespace prefix and keeps a suffix of the input that starts with a non-space |
| Text.TrimEnd | main.py:64-65 | drops a whitespace suffix and keeps a prefix of the input that ends with a non-space |
| Text.Strip | main.py:64-65 | `str.strip()` leaves no whitespace at either end and never lengthens the string |
| Text.StripIsSlice | main.py:64-65 | the stripped string is a contiguous slice of the input between two all-whitespace ends |
| Text.StripUnique | main.py:64-65 | any slice with whitespace-only surroundings and non-space ends is the stripped string (reference characterisation) |
| Text.StripTrimmed | main.py:64-65 | a string with no whitespace at its ends is left unchanged |
| Text.StripIdempotent | main.py:64-65 | stripping twice equals stripping once |
| Reminders.Apply | main.py:76 | `dict.update(campos)`: each given field takes its new value, every other field and the id are kept |
| Reminders.IndexOfId | main.py:74-75 | the search finds the first position holding the id, or reports absence exactly when no record has the id |
| Reminders.UpdateFirst | main.py:73-79 | `atualizar` keeps the length, patches the first record with the id only in the given fields, and leaves every other record unchanged (the whole list when the id is absent) |
| Reminders.WithoutId | main.py:81-82 | `remover` keeps exactly the records whose id differs, and returns the list unchanged when the id is absent |
| Reminders.WithoutIdAppend | main.py:82 | the filter distributes over concatenation, so the kept records stay in their relative order |
| Reminders.WithoutIdIdempotent | main.py:81-83 | removing an id twice is removing it once |
| Reminders.Store.constructor | main.py:39-52 | the store starts from the list that loading produced |
| Reminders.Store.List | main.py:58-59 | `listar` returns the stored records in insertion order |
| Reminders.Store.Add | main.py:61-71 | `adicionar` appends exactly one record at the end, with stripped text and time, the given active flag and no fired date; earlier records are unchanged; when the new id is absent from a list of distinct ids, ids stay distinct (the store itself never checks this) |
| Reminders.Store.Update | main.py:73-79 | `atualizar` patches the first record with the id and returns it; for an unknown id it returns `NotFound(id)` and the list is unchanged |
| Reminders.Store.Remove | main.py:81-83 | `remover` leaves exactly the records with another id, in order; absent ids change nothing |
| Reminders.Store.MarkFiredAt | main.py:122 | sets the fired date of the record at one position and changes nothing else (used only by the corrected poll) |
| Scheduling.Due | main.py:114-120 | the four checks of the cycle; a record that passes them matches only a valid clock reading, and marking it always changes it |
| Scheduling.Announce | main.py:123-124 | the message is the record's time, " - ", then its text, so both can be read back from it; the title is "Lembrete" |
| Scheduling.StatusLine | main.py:139 | the status is the fixed 14-character prefix "Monitorando — " followed by the clock reading |
| Scheduling.Fired | main.py:113-120 | a record is announced if and only if it is active, its time is valid, it was not fired today and its time equals `hh` |
| Scheduling.PollFold | main.py:113-122 | marking through `atualizar` while visiting the snapshot never changes the list's length |
| Scheduling.PollFoldFrame | main.py:118-122 | during the cycle, each record either stays as it was or gets today's fired date, and a record whose id no due record carries stays as it was |
| Scheduling.AfterPoll | main.py:113-122 | the list after a whole cycle, for any ids, keeps its length and order, and each record either stays as it was or gets today's fired date |
| Scheduling.AfterPollFrame | main.py:110-124 | a whole cycle, for any ids, leaves alone every record whose id no due record carries |
| Scheduling.PollFoldUnique | main.py:113-122 | with distinct ids, after visiting a prefix of the snapshot, exactly the due records in that prefix carry today's date |
| Scheduling.AfterPollUnique | main.py:113-122 | with distinct ids, a cycle gives every fired record today's date and leaves every other record unchanged |
| Scheduling.MarkDueSilent | main.py:118-119 | once every due record carries today's date, a cycle at the same minute and date announces nothing |
| Scheduling.SecondPollSilent | main.py:113-124 | with distinct ids, a second cycle at the same minute on the same date announces nothing |
| Scheduling.Rollover | main.py:118-124 | for any ids, every record announced on one date is announced again, with the same message, at that minute on another date that no record yet carries |
| Scheduling.UnpaddedNeverFires | main.py:111-120 | a record whose time is not five characters never matches a clock reading, so a valid "9:05" never fires |
| Scheduling.PaddedFiresAtItsMinute | main.py:111-120 | an active, valid, zero-padded record not yet fired today fires at the clock minute its time denotes |
| Scheduling.TwinsFired | main.py:113-120 | of an inactive and an active record with the same id and time, the cycle announces only the active one |
| Scheduling.TwinsAfterPoll | main.py:122 | the same cycle puts the fired date on the inactive record and leaves the announced one unmarked |
| Scheduling.EarlyCycleMarksLate | main.py:122 | with two active records sharing an id, the first set later in the day, the cycle at the second's minute puts today's date on the first and leaves the second unmarked |
| Scheduling.LateTwinSilenced | main.py:113-124 | in that list, the earlier cycle announces the second record, and the first, which would otherwise be due at its own minute, is then skipped at that minute on the same date, whatever date it is |
| Scheduling.LateTwinFiresWhenMarkedInPlace | main.py:113-122 | in that list, after the corrected cycle at the second's minute, the first record is still announced at its own minute |
| Scheduling.DuplicateIdRefires | main.py:113-124 | with two records that share an id, the cycle after the first announces the active record again at the same minute on the same date |
| Scheduling.ClampInterval | main.py:93 | the poll interval is at least one second, and a positive interval is kept as given |
| Scheduling.Scheduler.constructor | main.py:90-97 | the scheduler holds the store and the clamped interval |
| Scheduling.Scheduler.Poll | main.py:110-141 | one `verificar` cycle leaves the list as `AfterPoll` describes, announces ("Lembrete", horario + " - " + texto) for the fired records in list order, and reports "Monitorando — hh" |
| Scheduling.Scheduler.PollFixed | main.py:110-141 | the corrected cycle marks every due record itself and no other record, and announces the same messages as `Poll` |
| Scheduling.SingleReminderCycle | main.py:111-124 | a fresh active reminder whose time is the clock's rendering of `now` is announced and marked by the cycle at `now`; the next cycle at `now` announces nothing |
| Scheduling.ValidTimeIsTrimmed | main.py:65 | stripping a valid time leaves it unchanged |
| Scheduling.PollTwice | main.py:110-124 | two cycles at clock time `now`, when the only reminder's time is the rendering of `now`: the first announces and marks it, the second announces nothing |
| Scheduling.AddThenPollTwice | main.py:61-124 | end to end: after adding to an empty store a reminder whose stripped time is the clock's rendering of `now`, the first cycle at `now` announces "horario - texto" (stripped) once and records today's date; the second cycle announces nothing |

## Left out

- The Tk `App` class (main.py:143-297) is not modelled: widgets, dialogs, selection, search and sort for display. This includes the UI-only checks for empty text and valid time before `adicionar` and `atualizar` (main.py:228-233, 253).
- Loading and saving the JSON document (`carregar`, `salvar`, `exportar`, main.py:44-56, 85-87) are file I/O and are not modelled. The store's constructor takes the loaded list, `salvar` is a no-op, and an I/O error raised by `salvar` after the in-memory change is not modelled.
- The thread loop (`run`, `parar`, `time.sleep`, the stop event and `demo_speed`, main.py:99-108) is concurrency and timing. The model is one `verificar` cycle. Concurrent store calls from the UI thread during a cycle are not modelled.
- Clock reads (`agora_hhmm`, `hoje_iso`, main.py:32-36) are parameters of `Poll`. `FormatHHMM` models only the `"%H:%M"` format. `ativar_demo`'s `timedelta` arithmetic (main.py:279-290) is not modelled.
- The timestamp id (main.py:63) depends on the clock, so `Add` takes the id as an input.
- Native notifications, the popup callback and the status callback (main.py:126-141) are foreign calls whose errors are swallowed. `Poll` returns the messages it would hand them. Whether a callback is set, and whether delivery succeeds, is not modelled.
- `listar` returns the live list object. The model returns its value, so aliasing between the caller and the store is not modelled. In a single-threaded cycle the snapshot's shared records are only modified at or before the current position, so reading the snapshot by value gives the same results.
- TimeOfDay.ParseTime: only ASCII `0`–`9` count as digits. Python's `\d` also accepts other Unicode decimal digits in the positions the pattern matches with `\d`.
- Records are always complete and typed. The defaults `it.get("ativo", True)` and `it.get("horario", "")`, and non-string values from a hand-edited document, are not modelled. A document without the `"lembretes"` key behaves as the empty list.
- Scheduling.ClampInterval: takes an integer; `int()` truncating a fractional or string interval is not modelled.
- Reminders.Patch covers the four fields that callers pass to `atualizar`. Other keyword arguments, including `id`, are not modelled.

## Findings

| source | as written | input that shows it | evidently intended | confidence | as-written member | corrected member |
|---|---|---|---|---|---|---|
| main.py:122 | a fired reminder is marked with `atualizar(it["id"], ...)`, which patches the *first* record with that id, not necessarily the one announced | two records with id 7 and time "09:00", the first inactive and the second active, never fired; a cycle at 09:00 announces the second but marks the first, and every further cycle that minute announces it again. In demo mode (main.py:286-287) ids added in the same millisecond collide this way, and the popup would repeat every second for a whole minute | mark the announced record itself, so each record fires at most once per date whatever the ids | medium (ids collide only within one millisecond), not executed | Scheduling.DuplicateIdRefires | Scheduling.Scheduler.PollFixed |
| main.py:122 | the same marking by id can land on an earlier-listed record with the same id and a later time | two active records with id 7, listed as B at "10:00" then A at "09:00", neither fired today; the 09:00 cycle announces A and marks B, so at 10:00 B is skipped as already fired; this repeats on every date, and B never fires | mark the announced record itself, so each record fires at its minute once per date whatever the ids | medium (ids collide only within one millisecond), not executed | Scheduling.LateTwinSilenced | Scheduling.Scheduler.PollFixed |

`Scheduler.Poll` and `AfterPoll` model the code as written. `PollFixed` marks
each due record by its position (`Store.MarkFiredAt`). Its result is
`MarkDue`, and `MarkDueSilent` proves that a second cycle then announces
nothing, without any assumption about ids. `LateTwinFiresWhenMarkedInPlace`
shows that the corrected cycle leaves the silenced record of the second row due.
