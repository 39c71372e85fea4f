/**
 * One poll cycle of the scheduler (`Scheduler.verificar`) with the clock
 * reading `hh` ("HH:MM") and the date `today` passed in, and what the cycle
 * does to the store and which notifications it emits.
 */
module Scheduling {
  import opened Wrappers
  import opened TimeOfDay
  import opened Reminders

  /** A (titulo, mensagem) pair handed to the notifier and to the popup callback. */
  datatype Notification = Notification(title: string, message: string)

  const Title: string := "Lembrete"

  /**
   * The four checks of the cycle, in the order it makes them. Only a valid
   * clock reading can match, and a due record is one that marking changes.
   */
  predicate Due(r: Reminder, hh: string, today: string)
    ensures Due(r, hh, today) ==> ValidTime(hh) && Marked(r, today) != r
  {
    && r.ativo
    && ValidTime(r.horario)
    && r.ultimoDisparoEm != Some(today)
    && r.horario == hh
  }

  /** The popup for `r`: its message is the time, " - ", then the text. */
  function Announce(r: Reminder): (n: Notification)
    ensures n.title == Title && |n.message| == |r.horario| + 3 + |r.texto|
    ensures n.message[..|r.horario|] == r.horario && n.message[|r.horario| + 3..] == r.texto
  {
    Notification(Title, r.horario + " - " + r.texto)
  }

  function Announcements(rs: seq<Reminder>): seq<Notification> {
    seq(|rs|, k requires 0 <= k < |rs| => Announce(rs[k]))
  }

  /** The heartbeat handed to the status callback at the end of every cycle. */
  function StatusLine(hh: string): (r: string)
    ensures |r| == |hh| + 14 && r[14..] == hh
  {
    "Monitorando \U{2014} " + hh
  }

  /** The keyword argument `ultimo_disparo_em=hoje`. */
  function FiredMark(today: string): Patch {
    Patch(None, None, None, Some(Some(today)))
  }

  function Marked(r: Reminder, today: string): Reminder {
    r.(ultimoDisparoEm := Some(today))
  }

  /** The reminders a cycle over `rs` announces, in list order. */
  function Fired(rs: seq<Reminder>, hh: string, today: string): (r: seq<Reminder>)
    ensures forall x :: x in r <==> x in rs && Due(x, hh, today)
    ensures |r| <= |rs|
    decreases |rs|
  {
    if rs == [] then []
    else
      var last := rs[|rs| - 1];
      assert rs == rs[..|rs| - 1] + [last];
      Fired(rs[..|rs| - 1], hh, today) + (if Due(last, hh, today) then [last] else [])
  }

  /** One visited record: when due, `atualizar(it["id"], ultimo_disparo_em=hoje)`. */
  function MarkStep(rs: seq<Reminder>, it: Reminder, hh: string, today: string): seq<Reminder> {
    if Due(it, hh, today) then UpdateFirst(rs, it.id, FiredMark(today)) else rs
  }

  /** The list once the cycle has visited `visited`, the front of its snapshot. */
  function PollFold(rs: seq<Reminder>, visited: seq<Reminder>, hh: string, today: string): (r: seq<Reminder>)
    ensures |r| == |rs|
    decreases |visited|
  {
    if visited == [] then rs
    else MarkStep(PollFold(rs, visited[..|visited| - 1], hh, today), visited[|visited| - 1], hh, today)
  }

  /**
   * The list after a whole cycle, as the source computes it: whatever the ids,
   * length and order are kept and a record changes only by getting today's mark.
   */
  function AfterPoll(rs: seq<Reminder>, hh: string, today: string): (r: seq<Reminder>)
    ensures |r| == |rs|
    ensures forall k | 0 <= k < |rs| :: r[k] in {rs[k], Marked(rs[k], today)}
  {
    PollFoldFrame(rs, rs, hh, today);
    PollFold(rs, rs, hh, today)
  }

  /** The intended effect of a cycle: every due record, and only it, carries today's mark. */
  function MarkDue(rs: seq<Reminder>, hh: string, today: string): seq<Reminder> {
    MarkDuePrefix(rs, |rs|, hh, today)
  }

  function MarkDuePrefix(rs: seq<Reminder>, i: nat, hh: string, today: string): seq<Reminder> {
    seq(|rs|, k requires 0 <= k < |rs| => if k < i && Due(rs[k], hh, today) then Marked(rs[k], today) else rs[k])
  }

  lemma FiredSnoc(s: seq<Reminder>, x: Reminder, hh: string, today: string)
    ensures Fired(s + [x], hh, today) == Fired(s, hh, today) + (if Due(x, hh, today) then [x] else [])
  {
    assert (s + [x])[..|s|] == s;
  }

  lemma PollFoldSnoc(rs: seq<Reminder>, v: seq<Reminder>, x: Reminder, hh: string, today: string)
    ensures PollFold(rs, v + [x], hh, today) == MarkStep(PollFold(rs, v, hh, today), x, hh, today)
  {
    assert (v + [x])[..|v|] == v;
  }

  lemma AnnouncementsSnoc(s: seq<Reminder>, x: Reminder)
    ensures Announcements(s + [x]) == Announcements(s) + [Announce(x)]
  {
  }

  lemma MarkDuePrefixStep(rs: seq<Reminder>, i: nat, hh: string, today: string)
    requires i < |rs|
    ensures |MarkDuePrefix(rs, i, hh, today)| == |rs| && MarkDuePrefix(rs, i, hh, today)[i] == rs[i]
    ensures MarkDuePrefix(rs, i + 1, hh, today) ==
      if Due(rs[i], hh, today) then MarkDuePrefix(rs, i, hh, today)[i := Marked(rs[i], today)]
      else MarkDuePrefix(rs, i, hh, today)
  {
  }

  /** The announcements after visiting one more record of the snapshot. */
  lemma AnnouncementsStep(s: seq<Reminder>, i: nat, hh: string, today: string)
    requires i < |s|
    ensures Announcements(Fired(s[..i + 1], hh, today)) ==
      Announcements(Fired(s[..i], hh, today)) + (if Due(s[i], hh, today) then [Announce(s[i])] else [])
  {
    assert s[..i + 1] == s[..i] + [s[i]];
    FiredSnoc(s[..i], s[i], hh, today);
    AnnouncementsSnoc(Fired(s[..i], hh, today), s[i]);
  }

  /** Some due record among `visited` carries `id`. */
  predicate DueIdIn(visited: seq<Reminder>, id: int, hh: string, today: string) {
    exists x | x in visited :: Due(x, hh, today) && x.id == id
  }

  /**
   * Whatever the ids, a partial cycle changes nothing but fired marks, and
   * leaves alone every record whose id no due visited record carries.
   */
  lemma {:induction false} PollFoldFrame(rs: seq<Reminder>, visited: seq<Reminder>, hh: string, today: string)
    ensures forall k | 0 <= k < |rs| ::
      PollFold(rs, visited, hh, today)[k] in {rs[k], Marked(rs[k], today)}
    ensures forall k | 0 <= k < |rs| && !DueIdIn(visited, rs[k].id, hh, today) ::
      PollFold(rs, visited, hh, today)[k] == rs[k]
    decreases |visited|
  {
    if visited != [] {
      var front := visited[..|visited| - 1];
      var x := visited[|visited| - 1];
      assert visited == front + [x];
      PollFoldFrame(rs, front, hh, today);
      var p := PollFold(rs, front, hh, today);
      if Due(x, hh, today) {
        var q := UpdateFirst(p, x.id, FiredMark(today));
        forall k | 0 <= k < |rs|
          ensures q[k] in {rs[k], Marked(rs[k], today)}
          ensures !DueIdIn(visited, rs[k].id, hh, today) ==> q[k] == rs[k]
        {
          assert p[k].id == rs[k].id;
        }
      }
    }
  }

  /** A cycle, whatever the ids, leaves alone every record whose id no due record carries. */
  lemma AfterPollFrame(rs: seq<Reminder>, hh: string, today: string)
    ensures forall k | 0 <= k < |rs| && !DueIdIn(rs, rs[k].id, hh, today) ::
      AfterPoll(rs, hh, today)[k] == rs[k]
  {
    PollFoldFrame(rs, rs, hh, today);
  }

  lemma {:induction false} PollFoldUnique(rs: seq<Reminder>, i: nat, hh: string, today: string)
    requires UniqueIds(rs) && i <= |rs|
    ensures PollFold(rs, rs[..i], hh, today) == MarkDuePrefix(rs, i, hh, today)
  {
    if i == 0 {
      assert rs[..0] == [];
    } else {
      PollFoldUnique(rs, i - 1, hh, today);
      assert rs[..i][..i - 1] == rs[..i - 1];
      var x := rs[i - 1];
      var p := MarkDuePrefix(rs, i - 1, hh, today);
      var want := MarkDuePrefix(rs, i, hh, today);
      if Due(x, hh, today) {
        var q := UpdateFirst(p, x.id, FiredMark(today));
        forall k | 0 <= k < |rs| ensures q[k] == want[k] {
          assert p[k].id == rs[k].id;
          if k != i - 1 {
            assert !IsFirstWithId(p, k, x.id) by {
              if k > i - 1 {
                assert p[i - 1].id == x.id;
              }
            }
          }
        }
      } else {
        assert p == want;
      }
    }
  }

  /** With distinct ids the cycle marks exactly the due records. */
  lemma AfterPollUnique(rs: seq<Reminder>, hh: string, today: string)
    requires UniqueIds(rs)
    ensures AfterPoll(rs, hh, today) == MarkDue(rs, hh, today)
  {
    assert rs[..|rs|] == rs;
    PollFoldUnique(rs, |rs|, hh, today);
  }

  /** Once every due record carries today's mark, a cycle at the same minute and date announces nothing. */
  lemma MarkDueSilent(rs: seq<Reminder>, hh: string, today: string)
    ensures Fired(MarkDue(rs, hh, today), hh, today) == []
  {
    var m := MarkDue(rs, hh, today);
    var f := Fired(m, hh, today);
    if f != [] {
      assert f[0] in m;
      var k :| 0 <= k < |m| && m[k] == f[0];
    }
  }

  /** With distinct ids, a second cycle at the same minute on the same date announces nothing. */
  lemma SecondPollSilent(rs: seq<Reminder>, hh: string, today: string)
    requires UniqueIds(rs)
    ensures Fired(AfterPoll(rs, hh, today), hh, today) == []
  {
    AfterPollUnique(rs, hh, today);
    MarkDueSilent(rs, hh, today);
  }

  /**
   * Date rollover, whatever the ids: every record announced on `day` is
   * announced again, with the same message, at the same minute on a later
   * date that no record carries yet.
   */
  lemma Rollover(rs: seq<Reminder>, hh: string, day: string, nextDay: string)
    requires day != nextDay
    requires forall k | 0 <= k < |rs| :: rs[k].ultimoDisparoEm != Some(nextDay)
    ensures forall k | 0 <= k < |rs| && Due(rs[k], hh, day) ::
      && AfterPoll(rs, hh, day)[k] in Fired(AfterPoll(rs, hh, day), hh, nextDay)
      && Announce(AfterPoll(rs, hh, day)[k]) == Announce(rs[k])
  {
    var m := AfterPoll(rs, hh, day);
    forall k | 0 <= k < |rs| && Due(rs[k], hh, day)
      ensures m[k] in Fired(m, hh, nextDay)
    {
      assert m[k] in m && Due(m[k], hh, nextDay);
    }
  }

  /** The clock always renders "HH:MM" zero-padded, so a record whose time has another length never fires. */
  lemma UnpaddedNeverFires(r: Reminder, now: Time, today: string)
    requires now.Valid() && |r.horario| != 5
    ensures !Due(r, FormatHHMM(now), today)
  {
  }

  /** A valid zero-padded time fires at the clock minute it denotes, unless inactive or already fired today. */
  lemma PaddedFiresAtItsMinute(r: Reminder, today: string)
    requires r.ativo && ValidTime(r.horario) && |r.horario| == 5 && r.ultimoDisparoEm != Some(today)
    ensures ParseTime(r.horario).value.Valid()
    ensures Due(r, FormatHHMM(ParseTime(r.horario).value), today)
  {
    ParseThenFormat(r.horario);
  }

  function Twins(id: int, a: string, b: string, hh: string): seq<Reminder> {
    [Reminder(id, a, hh, false, None), Reminder(id, b, hh, true, None)]
  }

  lemma TwinsFired(id: int, a: string, b: string, hh: string, day: string)
    requires ValidTime(hh)
    ensures Fired(Twins(id, a, b, hh), hh, day) == [Twins(id, a, b, hh)[1]]
  {
    var rs := Twins(id, a, b, hh);
    assert rs == [rs[0]] + [rs[1]] && [rs[0]] == [] + [rs[0]];
    FiredSnoc([], rs[0], hh, day);
    FiredSnoc([rs[0]], rs[1], hh, day);
  }

  lemma TwinsAfterPoll(id: int, a: string, b: string, hh: string, day: string)
    requires ValidTime(hh)
    ensures AfterPoll(Twins(id, a, b, hh), hh, day) == [Marked(Twins(id, a, b, hh)[0], day), Twins(id, a, b, hh)[1]]
  {
    var rs := Twins(id, a, b, hh);
    assert rs == [rs[0]] + [rs[1]] && [rs[0]] == [] + [rs[0]];
    PollFoldSnoc(rs, [], rs[0], hh, day);
    PollFoldSnoc(rs, [rs[0]], rs[1], hh, day);
    var after := UpdateFirst(rs, id, FiredMark(day));
    assert IsFirstWithId(rs, 0, id) && !IsFirstWithId(rs, 1, id);
    assert after == [Marked(rs[0], day), rs[1]];
  }

  /**
   * Two records sharing an id, the first inactive: the cycle announces the
   * second but marks the first, so the next cycle at the same minute on the
   * same date announces the second again.
   */
  lemma DuplicateIdRefires(id: int, a: string, b: string, hh: string, day: string)
    requires ValidTime(hh)
    ensures Fired(Twins(id, a, b, hh), hh, day) == [Twins(id, a, b, hh)[1]]
    ensures Fired(AfterPoll(Twins(id, a, b, hh), hh, day), hh, day) == [Twins(id, a, b, hh)[1]]
  {
    TwinsFired(id, a, b, hh, day);
    TwinsAfterPoll(id, a, b, hh, day);
    var after := AfterPoll(Twins(id, a, b, hh), hh, day);
    assert after == [after[0]] + [after[1]] && [after[0]] == [] + [after[0]];
    FiredSnoc([], after[0], hh, day);
    FiredSnoc([after[0]], after[1], hh, day);
  }

  /**
   * Two active records sharing an id, the one listed first set later in the
   * day than the other; the first may carry any earlier fired date.
   */
  function EarlyLate(id: int, a: string, b: string, early: string, late: string, mark: Option<string>): seq<Reminder> {
    [Reminder(id, b, late, true, mark), Reminder(id, a, early, true, None)]
  }

  lemma EarlyCycleMarksLate(id: int, a: string, b: string, early: string, late: string, mark: Option<string>, day: string)
    requires ValidTime(early) && early != late
    ensures var rs := EarlyLate(id, a, b, early, late, mark);
      AfterPoll(rs, early, day) == [Marked(rs[0], day), rs[1]]
  {
    var rs := EarlyLate(id, a, b, early, late, mark);
    assert rs == [rs[0]] + [rs[1]] && [rs[0]] == [] + [rs[0]];
    PollFoldSnoc(rs, [], rs[0], early, day);
    PollFoldSnoc(rs, [rs[0]], rs[1], early, day);
    assert IsFirstWithId(rs, 0, id) && !IsFirstWithId(rs, 1, id);
    assert UpdateFirst(rs, id, FiredMark(day)) == [Marked(rs[0], day), rs[1]];
  }

  /**
   * The earlier cycle announces the second record but marks the first, which
   * is then skipped at its own minute: on every date it would have fired, it
   * stays silent.
   */
  lemma LateTwinSilenced(id: int, a: string, b: string, early: string, late: string, mark: Option<string>, day: string)
    requires ValidTime(early) && ValidTime(late) && early != late && mark != Some(day)
    ensures var rs := EarlyLate(id, a, b, early, late, mark);
      && Fired(rs, early, day) == [rs[1]]
      && rs[0] in Fired(rs, late, day)
      && Fired(AfterPoll(rs, early, day), late, day) == []
  {
    var rs := EarlyLate(id, a, b, early, late, mark);
    assert rs == [rs[0]] + [rs[1]] && [rs[0]] == [] + [rs[0]];
    FiredSnoc([], rs[0], early, day);
    FiredSnoc([rs[0]], rs[1], early, day);
    EarlyCycleMarksLate(id, a, b, early, late, mark, day);
    var after := AfterPoll(rs, early, day);
    assert after == [after[0]] + [after[1]] && [after[0]] == [] + [after[0]];
    FiredSnoc([], after[0], late, day);
    FiredSnoc([after[0]], after[1], late, day);
  }

  /** The corrected cycle marks only the record it announces, so the first record stays due at its own minute. */
  lemma LateTwinFiresWhenMarkedInPlace(id: int, a: string, b: string, early: string, late: string, mark: Option<string>, day: string)
    requires ValidTime(early) && ValidTime(late) && early != late && mark != Some(day)
    ensures var rs := EarlyLate(id, a, b, early, late, mark);
      rs[0] in Fired(MarkDue(rs, early, day), late, day)
  {
    var rs := EarlyLate(id, a, b, early, late, mark);
    var m := MarkDue(rs, early, day);
    assert m[0] == rs[0] && m[0] in m;
  }

  /** `max(1, int(intervalo))`: the poll period is at least one second; a positive one is kept. */
  function ClampInterval(intervalo: int): (r: int)
    ensures r >= 1
    ensures intervalo >= 1 ==> r == intervalo
    ensures intervalo < 1 ==> r == 1
  {
    if intervalo < 1 then 1 else intervalo
  }

  class Scheduler {
    const store: Store
    /** Seconds between cycles of the (unmodelled) thread loop. */
    const interval: int

    constructor (store: Store, intervalo: int)
      ensures this.store == store && interval == ClampInterval(intervalo)
    {
      this.store := store;
      interval := ClampInterval(intervalo);
    }

    /**
     * `verificar`: visits a snapshot of the list; each due record is marked
     * through `atualizar` by its id, then announced.
     */
    method Poll(hh: string, today: string) returns (notes: seq<Notification>, status: string)
      modifies store
      ensures store.reminders == AfterPoll(old(store.reminders), hh, today)
      ensures notes == Announcements(Fired(old(store.reminders), hh, today))
      ensures status == StatusLine(hh)
    {
      var snapshot := store.List();
      notes := [];
      for i := 0 to |snapshot|
        invariant store.reminders == PollFold(snapshot, snapshot[..i], hh, today)
        invariant notes == Announcements(Fired(snapshot[..i], hh, today))
      {
        var it := snapshot[i];
        assert snapshot[..i + 1] == snapshot[..i] + [it];
        FiredSnoc(snapshot[..i], it, hh, today);
        PollFoldSnoc(snapshot, snapshot[..i], it, hh, today);
        AnnouncementsSnoc(Fired(snapshot[..i], hh, today), it);
        if !it.ativo {
          continue;
        }
        if !ValidTime(it.horario) {
          continue;
        }
        if it.ultimoDisparoEm == Some(today) {
          continue;
        }
        if it.horario == hh {
          PollFoldFrame(snapshot, snapshot[..i], hh, today);
          assert store.reminders[i].id == it.id;
          var marked := store.Update(it.id, FiredMark(today));
          // The record is still there, so the KeyError path is never taken.
          assert marked.Ok?;
          var mensagem := it.horario + " - " + it.texto;
          notes := notes + [Notification(Title, mensagem)];
        }
      }
      assert snapshot[..|snapshot|] == snapshot;
      status := StatusLine(hh);
    }

    /** `verificar` with each due record marked in place, by its position, instead of by its id. */
    method PollFixed(hh: string, today: string) returns (notes: seq<Notification>, status: string)
      modifies store
      ensures store.reminders == MarkDue(old(store.reminders), hh, today)
      ensures notes == Announcements(Fired(old(store.reminders), hh, today))
      ensures status == StatusLine(hh)
    {
      var snapshot := store.List();
      notes := [];
      assert MarkDuePrefix(snapshot, 0, hh, today) == snapshot;
      for i := 0 to |snapshot|
        invariant store.reminders == MarkDuePrefix(snapshot, i, hh, today)
        invariant notes == Announcements(Fired(snapshot[..i], hh, today))
      {
        var it := snapshot[i];
        AnnouncementsStep(snapshot, i, hh, today);
        MarkDuePrefixStep(snapshot, i, hh, today);
        if Due(it, hh, today) {
          store.MarkFiredAt(i, today);
          notes := notes + [Announce(it)];
        }
      }
      assert snapshot[..|snapshot|] == snapshot;
      status := StatusLine(hh);
    }
  }

  /**
   * One active record, never fired, whose time is the clock's rendering of
   * `now`: the cycle at `now` announces it and marks it, the next announces nothing.
   */
  lemma SingleReminderCycle(r: Reminder, now: Time, day: string)
    requires r.ativo && now.Valid() && r.horario == FormatHHMM(now) && r.ultimoDisparoEm == None
    ensures Fired([r], FormatHHMM(now), day) == [r]
    ensures AfterPoll([r], FormatHHMM(now), day) == [Marked(r, day)]
    ensures Fired(AfterPoll([r], FormatHHMM(now), day), FormatHHMM(now), day) == []
  {
    var hh := FormatHHMM(now);
    FormatThenParse(now);
    assert [r] == [] + [r];
    FiredSnoc([], r, hh, day);
    AfterPollUnique([r], hh, day);
    assert MarkDue([r], hh, day) == [Marked(r, day)];
    SecondPollSilent([r], hh, day);
  }

  /** A valid time has digits at both ends, so stripping leaves it as it is. */
  lemma ValidTimeIsTrimmed(s: string)
    requires ValidTime(s)
    ensures Text.Strip(s) == s
  {
    assert IsDigit(s[0]) && IsDigit(s[|s| - 1]);
    Text.StripTrimmed(s);
  }

  /**
   * Two cycles at clock time `now`, on the same date, over a store whose only
   * reminder is set to that time: the first announces it and marks it, the
   * second announces nothing.
   */
  method PollTwice(store: Store, r: Reminder, now: Time, day: string)
    returns (first: seq<Notification>, second: seq<Notification>)
    requires store.reminders == [r] && r.ativo && r.ultimoDisparoEm == None
    requires now.Valid() && r.horario == FormatHHMM(now)
    modifies store
    ensures first == [Announce(r)] && second == []
    ensures store.reminders == [Marked(r, day)]
  {
    SingleReminderCycle(r, now, day);
    var scheduler := new Scheduler(store, 5);
    var status;
    first, status := scheduler.Poll(FormatHHMM(now), day);
    second, status := scheduler.Poll(FormatHHMM(now), day);
  }

  /**
   * The end-to-end run: add a reminder to an empty store with a time that,
   * once stripped, is the clock's rendering of `now`, then poll twice at `now`
   * on the same date; the first poll announces it once and marks it, the
   * second announces nothing.
   */
  method AddThenPollTwice(id: int, texto: string, horario: string, now: Time, day: string)
    returns (first: seq<Notification>, second: seq<Notification>, after: seq<Reminder>)
    requires now.Valid() && Text.Strip(horario) == FormatHHMM(now)
    ensures first == [Notification("Lembrete", FormatHHMM(now) + " - " + Text.Strip(texto))]
    ensures after == [Reminder(id, Text.Strip(texto), FormatHHMM(now), true, Some(day))]
    ensures second == []
  {
    var store := new Store([]);
    var item := store.Add(id, texto, horario, true);
    assert store.reminders == [item];
    first, second := PollTwice(store, item, now, day);
    after := store.List();
  }
}
