/**
 * Birthday reminders: a stored birthday "YYYY-MM-DD" becomes a yearly alarm at
 * 09:00 on its month and day, registered with the host's notification service
 * under the identifier "birthday-<contact id>" by cancel-then-schedule. A pass
 * over the whole contacts table schedules every contact with a birthday and
 * counts the attempts.
 */
module Notifications {
  import opened Optional
  import opened Sequences
  import opened Text
  import opened Database
  import ContactSync

  /** A calendar trigger of the notification service. */
  datatype Trigger = Trigger(month: int, day: int, hour: int, minute: int, repeats: bool)

  /** A scheduled notification: its content, the contact it is about, and when it fires. */
  datatype Alarm = Alarm(title: string, body: string, contactId: int, trigger: Trigger)

  /** The columns of a contact the scheduler reads. */
  datatype ContactSummary = ContactSummary(
    id: int, firstName: Option<string>, lastName: Option<string>, birthday: Option<string>)

  const ReminderTitle: string := "Birthday Reminder!"
  const ReminderHour: int := 9
  const ReminderMinute: int := 0
  const KeyPrefix: string := "birthday-"

  predicate ValidMonthDay(month: int, day: int) {
    1 <= month <= 12 && 1 <= day <= 31
  }

  // ---------------------------------------------------------------------------
  // Parsing a stored birthday
  // ---------------------------------------------------------------------------

  /**
   * The trigger for a stored birthday, or None when scheduling is skipped: no
   * (or an empty) birthday, not exactly three '-'-separated parts, or a month
   * or day that parseInt rejects or that is out of range. The year part is
   * never read, and the day is not checked against the month.
   */
  function BirthdayTrigger(birthday: Option<string>): (t: Option<Trigger>)
    ensures birthday.None? || birthday.value == "" ==> t.None?
    ensures birthday.Some? && |Split(birthday.value, '-')| != 3 ==> t.None?
    ensures t.Some? ==> ValidMonthDay(t.value.month, t.value.day)
    ensures t.Some? ==> t.value.hour == ReminderHour && t.value.minute == ReminderMinute && t.value.repeats
  {
    if birthday.None? || birthday.value == "" then None
    else
      var parts := Split(birthday.value, '-');
      if |parts| != 3 then None
      else
        var month := ParseInt(parts[1]);
        var day := ParseInt(parts[2]);
        if month.None? || day.None? || !ValidMonthDay(month.value, day.value) then None
        else Some(Trigger(month.value, day.value, ReminderHour, ReminderMinute, true))
  }

  /**
   * A birthday made of three dash-free parts is scheduled exactly when the
   * second and third parse to a month in 1..12 and a day in 1..31, and then on
   * that month and day.
   */
  lemma TriggerOfParts(year: string, month: string, day: string)
    requires '-' !in year && '-' !in month && '-' !in day
    ensures BirthdayTrigger(Some(year + "-" + month + "-" + day)) ==
      if ParseInt(month).Some? && ParseInt(day).Some? && ValidMonthDay(ParseInt(month).value, ParseInt(day).value)
      then Some(Trigger(ParseInt(month).value, ParseInt(day).value, ReminderHour, ReminderMinute, true))
      else None
  {
    SplitThree(year, month, day, '-');
    assert year + ['-'] + month + ['-'] + day == year + "-" + month + "-" + day;
  }

  /** The year is ignored: changing a dash-free year part never changes the trigger. */
  lemma YearIgnored(year1: string, year2: string, rest: string)
    requires '-' !in year1 && '-' !in year2
    ensures BirthdayTrigger(Some(year1 + "-" + rest)) == BirthdayTrigger(Some(year2 + "-" + rest))
  {
    SplitPrefix(year1, '-', rest);
    SplitPrefix(year2, '-', rest);
    assert year1 + ['-'] + rest == year1 + "-" + rest;
    assert year2 + ['-'] + rest == year2 + "-" + rest;
    assert |year1 + "-" + rest| > 0 && |year2 + "-" + rest| > 0;
  }

  /**
   * Round trip with the device sync: a birthday the sync stored from a
   * positive year, month and day is scheduled exactly when the month and day
   * are in range, and then on that month and day.
   */
  lemma BirthdayRoundTrip(year: int, month: int, day: int)
    requires year > 0 && month > 0 && day > 0
    ensures var t := BirthdayTrigger(ContactSync.FormatBirthday(
      ContactSync.DeviceBirthday(Some(year), Some(month), Some(day))));
      && (t.Some? <==> month <= 12 && day <= 31)
      && (t.Some? ==> t.value.month == month && t.value.day == day)
  {
    var yyyy, mm, dd := IntToDecimal(year), ContactSync.TwoDigits(month), ContactSync.TwoDigits(day);
    ContactSync.FormatBirthdaySplits(year, month, day);
    ContactSync.TwoDigitsOfPositive(month);
    ContactSync.TwoDigitsOfPositive(day);
    ContactSync.NoDashInDigits(yyyy);
    ContactSync.NoDashInDigits(mm);
    ContactSync.NoDashInDigits(dd);
    TriggerOfParts(yyyy, mm, dd);
  }

  lemma DashFirst(x: string, y: string, z: string)
    ensures ("-" + x) + "-" + y + "-" + z == "-" + (x + "-" + y + "-" + z)
  {
  }

  /**
   * There is no day-of-month check: a stored 31 February (any positive year)
   * is scheduled for month 2, day 31.
   */
  lemma Feb31Accepted(year: int)
    requires year > 0
    ensures BirthdayTrigger(ContactSync.FormatBirthday(ContactSync.DeviceBirthday(Some(year), Some(2), Some(31))))
      == Some(Trigger(2, 31, ReminderHour, ReminderMinute, true))
  {
    BirthdayRoundTrip(year, 2, 31);
  }

  /** A birthday with a leading '-' before three parts has four parts and is skipped. */
  lemma LeadingDashRejected(tail: string)
    requires |Split(tail, '-')| == 3
    ensures BirthdayTrigger(Some("-" + tail)).None?
  {
    SplitPrefix([], '-', tail);
    assert [] + ['-'] + tail == "-" + tail;
  }

  lemma NegativeYearText(year: int, month: int, day: int)
    requires year < 0 && month > 0 && day > 0
    ensures ContactSync.FormatBirthday(ContactSync.DeviceBirthday(Some(year), Some(month), Some(day))) ==
      Some(IntToDecimal(year) + "-" + ContactSync.TwoDigits(month) + "-" + ContactSync.TwoDigits(day))
  {
  }

  /**
   * A negative year is written with a leading '-', which splits into four
   * parts, so the stored birthday is never scheduled.
   */
  lemma NegativeYearNeverScheduled(year: int, month: int, day: int)
    requires year < 0 && month > 0 && day > 0
    ensures BirthdayTrigger(ContactSync.FormatBirthday(
      ContactSync.DeviceBirthday(Some(year), Some(month), Some(day)))).None?
  {
    var digits := NatToDecimal(-year);
    var mm := ContactSync.TwoDigits(month);
    var dd := ContactSync.TwoDigits(day);
    ContactSync.TwoDigitsOfPositive(month);
    ContactSync.TwoDigitsOfPositive(day);
    ContactSync.NoDashInDigits(digits);
    ContactSync.NoDashInDigits(mm);
    ContactSync.NoDashInDigits(dd);
    var tail := digits + "-" + mm + "-" + dd;
    SplitThree(digits, mm, dd, '-');
    assert digits + ['-'] + mm + ['-'] + dd == tail;
    LeadingDashRejected(tail);
    DashFirst(digits, mm, dd);
    NegativeYearText(year, month, day);
    assert IntToDecimal(year) == "-" + digits;
  }

  // ---------------------------------------------------------------------------
  // The alarm for one contact
  // ---------------------------------------------------------------------------

  /** The notification identifier of a contact: "birthday-" and its id. */
  function AlarmKey(id: int): (k: string)
    ensures |k| > |KeyPrefix| && k[..|KeyPrefix|] == KeyPrefix
  {
    KeyPrefix + IntToDecimal(id)
  }

  /** Different contacts have different notification identifiers. */
  lemma AlarmKeyInjective(a: int, b: int)
    requires AlarmKey(a) == AlarmKey(b)
    ensures a == b
  {
    assert AlarmKey(a)[|KeyPrefix|..] == IntToDecimal(a);
    assert AlarmKey(b)[|KeyPrefix|..] == IntToDecimal(b);
    DecimalInjective(a, b);
  }

  /** `name || ''` */
  function OrEmpty(name: Option<string>): string {
    name.GetOr("")
  }

  const ReminderClosing: string := "'s birthday today! Don't forget to send your wishes."

  /** The body greets the contact by first and last name, then closes with the reminder. */
  function ReminderBody(c: ContactSummary): (r: string)
    ensures var first, last := OrEmpty(c.firstName), OrEmpty(c.lastName);
      && |r| == 5 + |first| + 1 + |last| + |ReminderClosing|
      && r[..5] == "It's "
      && r[5..5 + |first|] == first
      && r[5 + |first|] == ' '
      && r[6 + |first|..6 + |first| + |last|] == last
      && r[6 + |first| + |last|..] == ReminderClosing
  {
    "It's " + OrEmpty(c.firstName) + " " + OrEmpty(c.lastName) + ReminderClosing
  }

  /** The alarm for `c`: the reminder title, the greeting, the contact's id in its data, and `t`. */
  function AlarmFor(c: ContactSummary, t: Trigger): (a: Alarm)
    ensures a.title == ReminderTitle && a.body == ReminderBody(c)
    ensures a.contactId == c.id && a.trigger == t
  {
    Alarm(ReminderTitle, ReminderBody(c), c.id, t)
  }

  /**
   * The scheduled alarms after scheduling `c`: unchanged when its birthday
   * is skipped, otherwise its identifier maps to its one alarm and every other
   * identifier is untouched.
   */
  function AfterSchedule(m: map<string, Alarm>, c: ContactSummary): (r: map<string, Alarm>)
    ensures BirthdayTrigger(c.birthday).None? ==> r == m
    ensures BirthdayTrigger(c.birthday).Some? ==>
      AlarmKey(c.id) in r && r[AlarmKey(c.id)] == AlarmFor(c, BirthdayTrigger(c.birthday).value)
    ensures forall k :: k != AlarmKey(c.id) ==> (k in r <==> k in m) && (k in r ==> r[k] == m[k])
  {
    match BirthdayTrigger(c.birthday)
    case None => m
    case Some(t) => (m - {AlarmKey(c.id)})[AlarmKey(c.id) := AlarmFor(c, t)]
  }

  /** Cancel-then-schedule makes scheduling the same contact twice the same as once. */
  lemma ScheduleTwiceSameAsOnce(m: map<string, Alarm>, c: ContactSummary)
    ensures AfterSchedule(AfterSchedule(m, c), c) == AfterSchedule(m, c)
  {
    var once := AfterSchedule(m, c);
    var twice := AfterSchedule(once, c);
    assert twice.Keys == once.Keys;
  }

  /** The host's scheduled notifications, by identifier. */
  class NotificationCenter {
    var scheduled: map<string, Alarm>

    constructor()
      ensures scheduled == map[]
    {
      scheduled := map[];
    }

    /** cancelScheduledNotificationAsync: an unknown identifier is a no-op. */
    method Cancel(id: string)
      modifies this
      ensures scheduled == old(scheduled) - {id}
      ensures id !in scheduled
    {
      scheduled := scheduled - {id};
    }

    /** scheduleNotificationAsync with an explicit identifier. */
    method Schedule(id: string, alarm: Alarm)
      modifies this
      ensures scheduled == old(scheduled)[id := alarm]
    {
      scheduled := scheduled[id := alarm];
    }
  }

  /** scheduleBirthdayNotification: validate the birthday, then cancel and schedule under the contact's identifier. */
  method ScheduleBirthdayNotification(center: NotificationCenter, c: ContactSummary)
    modifies center
    ensures center.scheduled == AfterSchedule(old(center.scheduled), c)
  {
    var trigger := BirthdayTrigger(c.birthday);
    if trigger.None? {
      return;
    }
    var id := AlarmKey(c.id);
    center.Cancel(id);
    center.Schedule(id, AlarmFor(c, trigger.value));
  }

  // ---------------------------------------------------------------------------
  // Scheduling every contact
  // ---------------------------------------------------------------------------

  /** `contact.birthday` is truthy. */
  predicate HasBirthday(c: Contact)
    ensures !HasBirthday(c) ==> BirthdayTrigger(c.birthday).None?
  {
    c.birthday.Some? && c.birthday.value != ""
  }

  function SummaryOf(c: Contact): ContactSummary {
    ContactSummary(c.id, c.firstName, c.lastName, c.birthday)
  }

  /** The alarms after scheduling the contacts with a birthday, in the order of `cs`. */
  function ScheduleAll(m: map<string, Alarm>, cs: seq<Contact>): (r: map<string, Alarm>)
    ensures m.Keys <= r.Keys
    decreases |cs|
  {
    if cs == [] then m
    else
      var prior := ScheduleAll(m, cs[..|cs| - 1]);
      var c := cs[|cs| - 1];
      if HasBirthday(c) then AfterSchedule(prior, SummaryOf(c)) else prior
  }

  /** The identifiers a pass over `cs` schedules. */
  ghost function TriggeredKeys(cs: seq<Contact>): set<string> {
    set c | c in cs && BirthdayTrigger(c.birthday).Some? :: AlarmKey(c.id)
  }

  /** Rows with the same id are the same row. */
  ghost predicate IdsDetermineRows(cs: seq<Contact>) {
    forall a, b :: a in cs && b in cs && a.id == b.id ==> a == b
  }

  /**
   * What a pass over `cs` leaves behind: each contact with a valid birthday
   * has its alarm, and every other identifier is as before.
   */
  lemma {:induction false} ScheduleAllEffect(m: map<string, Alarm>, cs: seq<Contact>)
    requires IdsDetermineRows(cs)
    ensures forall c :: c in cs && BirthdayTrigger(c.birthday).Some? ==>
      AlarmKey(c.id) in ScheduleAll(m, cs) &&
      ScheduleAll(m, cs)[AlarmKey(c.id)] == AlarmFor(SummaryOf(c), BirthdayTrigger(c.birthday).value)
    ensures forall k :: k !in TriggeredKeys(cs) ==>
      (k in ScheduleAll(m, cs) <==> k in m) && (k in m ==> ScheduleAll(m, cs)[k] == m[k])
    decreases |cs|
  {
    if cs != [] {
      var init := cs[..|cs| - 1];
      var last := cs[|cs| - 1];
      assert cs == init + [last];
      assert forall c :: c in init ==> c in cs;
      ScheduleAllEffect(m, init);
      var prior := ScheduleAll(m, init);
      var r := ScheduleAll(m, cs);
      assert r == if HasBirthday(last) then AfterSchedule(prior, SummaryOf(last)) else prior;
      forall c | c in cs && BirthdayTrigger(c.birthday).Some?
        ensures AlarmKey(c.id) in r && r[AlarmKey(c.id)] == AlarmFor(SummaryOf(c), BirthdayTrigger(c.birthday).value)
      {
        if c != last {
          assert c in init;
          if HasBirthday(last) && BirthdayTrigger(last.birthday).Some? && AlarmKey(c.id) == AlarmKey(last.id) {
            AlarmKeyInjective(c.id, last.id);
            assert false;
          }
        }
      }
      forall k | k !in TriggeredKeys(cs)
        ensures (k in r <==> k in m) && (k in m ==> r[k] == m[k])
      {
        assert k !in TriggeredKeys(init);
        if BirthdayTrigger(last.birthday).Some? {
          assert k != AlarmKey(last.id);
        }
      }
    }
  }

  /** One identifier of two passes over the same contacts, in any order. */
  lemma ScheduleAllSameAt(m: map<string, Alarm>, a: seq<Contact>, b: seq<Contact>, k: string)
    requires forall c :: c in a <==> c in b
    requires IdsDetermineRows(a) && IdsDetermineRows(b)
    ensures k in ScheduleAll(m, a) <==> k in ScheduleAll(m, b)
    ensures k in ScheduleAll(m, a) ==> ScheduleAll(m, a)[k] == ScheduleAll(m, b)[k]
  {
    ScheduleAllEffect(m, a);
    ScheduleAllEffect(m, b);
    if k in TriggeredKeys(a) {
      var c :| c in a && BirthdayTrigger(c.birthday).Some? && k == AlarmKey(c.id);
      assert c in b;
    } else {
      assert k !in TriggeredKeys(b);
    }
  }

  /** The order of a pass does not matter when ids determine rows. */
  lemma ScheduleAllOrderIrrelevant(m: map<string, Alarm>, a: seq<Contact>, b: seq<Contact>)
    requires multiset(a) == multiset(b)
    requires IdsDetermineRows(a)
    ensures ScheduleAll(m, a) == ScheduleAll(m, b)
  {
    SameMembers(a, b);
    assert IdsDetermineRows(b);
    var ra := ScheduleAll(m, a);
    var rb := ScheduleAll(m, b);
    forall k ensures (k in ra <==> k in rb) && (k in ra ==> ra[k] == rb[k]) {
      ScheduleAllSameAt(m, a, b, k);
    }
  }

  /** Distinct ids (as the contacts table has) determine rows. */
  lemma DistinctIdsDetermineRows(cs: seq<Contact>)
    requires Pairwise(cs, ContactIdLess)
    ensures IdsDetermineRows(cs)
  {
    forall a, b | a in cs && b in cs && a.id == b.id ensures a == b {
      var i :| 0 <= i < |cs| && cs[i] == a;
      var j :| 0 <= j < |cs| && cs[j] == b;
    }
  }

  /**
   * The loop of scheduleAllBirthdayNotifications: schedule each contact with
   * a birthday and count it, whether or not its birthday then turns out valid.
   */
  method ScheduleEach(center: NotificationCenter, cs: seq<Contact>) returns (scheduledCount: nat)
    modifies center
    ensures center.scheduled == ScheduleAll(old(center.scheduled), cs)
    ensures scheduledCount == |Filter(cs, HasBirthday)|
  {
    scheduledCount := 0;
    ghost var m := center.scheduled;
    for i := 0 to |cs|
      invariant center.scheduled == ScheduleAll(m, cs[..i])
      invariant scheduledCount == |Filter(cs[..i], HasBirthday)|
    {
      var contact := cs[i];
      assert cs[..i + 1] == cs[..i] + [contact];
      assert cs[..i + 1][..i] == cs[..i];
      FilterConcat(cs[..i], [contact], HasBirthday);
      if HasBirthday(contact) {
        ScheduleBirthdayNotification(center, SummaryOf(contact));
        scheduledCount := scheduledCount + 1;
      }
    }
    assert cs[..|cs|] == cs;
  }

  /**
   * scheduleAllBirthdayNotifications: nothing without permission; otherwise
   * make sure the schema exists (a failure there ends the pass), then schedule
   * every stored contact with a birthday, in name order, counting attempts.
   */
  method ScheduleAllBirthdayNotifications(
    center: NotificationCenter, db: Store, permissionGranted: bool, schemaFault: Option<nat>)
    returns (scheduledCount: nat)
    requires db.Valid()
    modifies center, db`hasSchema, db`categories, db`nextCategoryId, db`lastInsertRowId
    ensures db.Valid()
    ensures db.contacts == old(db.contacts)
    ensures !permissionGranted ==>
      scheduledCount == 0 && center.scheduled == old(center.scheduled) && unchanged(db)
    ensures permissionGranted && schemaFault.Some? && schemaFault.value < |DefaultCategories| ==>
      && scheduledCount == 0 && center.scheduled == old(center.scheduled)
      && db.hasSchema == old(db.hasSchema) && db.categories == old(db.categories)
      && db.nextCategoryId == old(db.nextCategoryId)
    ensures permissionGranted ==>
      db.lastInsertRowId == SchemaLastId(old(db.categories), old(db.nextCategoryId), old(db.lastInsertRowId), schemaFault)
    ensures permissionGranted && (schemaFault.None? || schemaFault.value >= |DefaultCategories|) ==>
      SchemaCommitted(old(db.categories), old(db.nextCategoryId), db.hasSchema, db.categories, db.nextCategoryId)
    ensures permissionGranted && (schemaFault.None? || schemaFault.value >= |DefaultCategories|) ==>
      && scheduledCount == |Filter(db.contacts, HasBirthday)|
      && center.scheduled == ScheduleAll(old(center.scheduled), db.contacts)
  {
    if !permissionGranted {
      return 0;
    }
    var outcome := db.InitializeSchema(schemaFault);
    if outcome.RolledBack? {
      return 0;
    }
    var all := db.AllContacts();
    ghost var m := center.scheduled;
    DistinctIdsDetermineRows(db.contacts);
    ScheduleAllOrderIrrelevant(m, db.contacts, all);
    FilterCountPermutation(db.contacts, all, HasBirthday);
    if |all| == 0 {
      return 0;
    }
    scheduledCount := ScheduleEach(center, all);
  }
}
