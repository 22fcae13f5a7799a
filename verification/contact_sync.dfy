/**
 * Copying the device's address book into the record store: a device entry is
 * mapped to a contact row, entries without an id or already stored (by native
 * id) are skipped, and the number of inserted rows is counted.
 */
module ContactSync {
  import opened Optional
  import opened Sequences
  import opened Text
  import opened Database

  /** A device birthday; any part may be missing. */
  datatype DeviceBirthday = DeviceBirthday(year: Option<int>, month: Option<int>, day: Option<int>)

  /**
   * One entry of the device snapshot. A missing phone or e-mail list is the
   * empty sequence; each list item carries its optional `number`/`email` field.
   */
  datatype DeviceContact = DeviceContact(
    id: Option<string>,
    firstName: Option<string>,
    lastName: Option<string>,
    phoneNumbers: seq<Option<string>>,
    emails: seq<Option<string>>,
    birthday: Option<DeviceBirthday>)

  /** The category new device contacts are filed under. */
  const SyncCategoryName: string := "Buddies / Casual Connections"

  /** JavaScript truthiness of an optional number: present and non-zero. */
  predicate Truthy(n: Option<int>) {
    n.Some? && n.value != 0
  }

  predicate IsComplete(b: DeviceBirthday) {
    Truthy(b.year) && Truthy(b.month) && Truthy(b.day)
  }

  /** `n.toString().padStart(2, '0')` */
  function TwoDigits(n: int): (r: string)
    ensures |r| >= 2 && |r| >= |IntToDecimal(n)|
    ensures 0 <= n < 100 ==> |r| == 2
    ensures r[|r| - |IntToDecimal(n)|..] == IntToDecimal(n)
    ensures forall i :: 0 <= i < |r| - |IntToDecimal(n)| ==> r[i] == '0'
  {
    PadStart(IntToDecimal(n), 2, '0')
  }

  /** formatBirthday: "YYYY-MM-DD" when year, month and day are all truthy, otherwise undefined. */
  function FormatBirthday(b: DeviceBirthday): (r: Option<string>)
    ensures r.Some? <==> IsComplete(b)
  {
    if IsComplete(b) then
      Some(IntToDecimal(b.year.value) + "-" + TwoDigits(b.month.value) + "-" + TwoDigits(b.day.value))
    else None
  }

  /** A positive number padded to two places is all digits, at least two of them. */
  lemma TwoDigitsAllDigits(n: int)
    requires n > 0
    ensures |TwoDigits(n)| >= 2 && AllDigits(TwoDigits(n))
  {
    var s := IntToDecimal(n);
    var r := TwoDigits(n);
    assert AllDigits(s);
    forall i | 0 <= i < |r| ensures IsDigit(r[i]) {
      if i >= |r| - |s| {
        assert r[i] == r[|r| - |s|..][i - (|r| - |s|)];
      }
    }
  }

  /** A positive number padded to two places reads back as itself. */
  lemma {:induction false} TwoDigitsOfPositive(n: int)
    requires n > 0
    ensures |TwoDigits(n)| >= 2 && AllDigits(TwoDigits(n))
    ensures ParseInt(TwoDigits(n)) == Some(n)
  {
    TwoDigitsAllDigits(n);
    ParseIntOfPadded(n, []);
    assert TwoDigits(n) + [] == TwoDigits(n);
  }

  /** A string of digits holds no '-'. */
  lemma NoDashInDigits(s: string)
    requires AllDigits(s)
    ensures '-' !in s
  {
  }

  /** With positive parts, a formatted birthday splits on '-' into its three numerals. */
  lemma FormatBirthdaySplits(y: int, m: int, d: int)
    requires y > 0 && m > 0 && d > 0
    ensures FormatBirthday(DeviceBirthday(Some(y), Some(m), Some(d))) ==
      Some(IntToDecimal(y) + "-" + TwoDigits(m) + "-" + TwoDigits(d))
    ensures Split(IntToDecimal(y) + "-" + TwoDigits(m) + "-" + TwoDigits(d), '-') ==
      [IntToDecimal(y), TwoDigits(m), TwoDigits(d)]
  {
    assert IsComplete(DeviceBirthday(Some(y), Some(m), Some(d)));
    NumeralsSplit(y, m, d);
  }

  lemma NumeralsSplit(y: int, m: int, d: int)
    requires y > 0 && m > 0 && d > 0
    ensures Split(IntToDecimal(y) + "-" + TwoDigits(m) + "-" + TwoDigits(d), '-') ==
      [IntToDecimal(y), TwoDigits(m), TwoDigits(d)]
  {
    var yyyy, mm, dd := IntToDecimal(y), TwoDigits(m), TwoDigits(d);
    TwoDigitsAllDigits(m);
    TwoDigitsAllDigits(d);
    NoDashInDigits(yyyy);
    NoDashInDigits(mm);
    NoDashInDigits(dd);
    SplitThree(yyyy, mm, dd, '-');
  }

  lemma NineteenNinety()
    ensures IntToDecimal(1990) == "1990"
  {
    assert DigitChar(1) == '1' && DigitChar(9) == '9' && DigitChar(0) == '0';
    assert NatToDecimal(19) == "19";
    assert NatToDecimal(199) == "199";
  }

  lemma PaddedFive()
    ensures TwoDigits(5) == "05"
  {
    assert DigitChar(5) == '5';
    assert PadStart("5", 2, '0') == "0" + "5";
  }

  lemma PaddedThree()
    ensures TwoDigits(3) == "03"
  {
    assert DigitChar(3) == '3';
    assert PadStart("3", 2, '0') == "0" + "3";
  }

  /**
   * The "YYYY-MM-DD" shape: with a positive year and a month and day below
   * 100, the text is the year's digits, a dash, exactly two digits, a dash and
   * exactly two digits.
   */
  lemma FormatBirthdayShape(y: int, m: int, d: int)
    requires y > 0 && 0 < m < 100 && 0 < d < 100
    ensures FormatBirthday(DeviceBirthday(Some(y), Some(m), Some(d))).Some?
    ensures var s := FormatBirthday(DeviceBirthday(Some(y), Some(m), Some(d))).value;
      && |s| == |IntToDecimal(y)| + 6
      && s[..|s| - 6] == IntToDecimal(y) && AllDigits(s[..|s| - 6])
      && s[|s| - 6] == '-' && s[|s| - 3] == '-'
      && AllDigits(s[|s| - 5..|s| - 3]) && AllDigits(s[|s| - 2..])
  {
    FormatBirthdaySplits(y, m, d);
    TwoDigitsAllDigits(m);
    TwoDigitsAllDigits(d);
    var yyyy, mm, dd := IntToDecimal(y), TwoDigits(m), TwoDigits(d);
    var s := yyyy + "-" + mm + "-" + dd;
    assert |mm| == 2 && |dd| == 2;
    assert s[..|s| - 6] == yyyy;
    assert s[|s| - 5..|s| - 3] == mm;
    assert s[|s| - 2..] == dd;
  }

  /** The documented example: {1990, 5, 3} becomes "1990-05-03". */
  lemma FormatBirthdayExample()
    ensures FormatBirthday(DeviceBirthday(Some(1990), Some(5), Some(3))) == Some("1990-05-03")
  {
    var b := DeviceBirthday(Some(1990), Some(5), Some(3));
    calc {
      FormatBirthday(b);
      { assert IsComplete(b); }
      Some(IntToDecimal(1990) + "-" + TwoDigits(5) + "-" + TwoDigits(3));
      { NineteenNinety(); PaddedFive(); PaddedThree(); }
      Some("1990" + "-" + "05" + "-" + "03");
      {
        assert "1990" + "-" == "1990-";
        assert "1990-" + "05" == "1990-05";
        assert "1990-05" + "-" == "1990-05-";
        assert "1990-05-" + "03" == "1990-05-03";
      }
      Some("1990-05-03");
    }
  }

  /** A birthday with a missing or zero part is dropped. */
  lemma PartialBirthdayDropped(b: DeviceBirthday)
    requires b.year.None? || b.month.None? || b.day.None? || b.year == Some(0) || b.month == Some(0) || b.day == Some(0)
    ensures FormatBirthday(b).None?
  {
  }

  /** `!deviceContact.id`: entries without a (non-empty) id are skipped. */
  predicate HasId(d: DeviceContact) {
    d.id.Some? && d.id.value != ""
  }

  /** `list?.[0]?.field || null` */
  function FirstOrNull(xs: seq<Option<string>>): (r: Option<string>)
    ensures r.Some? <==> |xs| > 0 && xs[0].Some? && xs[0].value != ""
    ensures r.Some? ==> r == xs[0]
  {
    if xs == [] then None else NullIfEmpty(xs[0])
  }

  /** `defaultCategory?.id || null` */
  function DefaultCategoryId(c: Option<Category>): (r: Option<int>)
    ensures r.Some? <==> c.Some? && c.value.id != 0
    ensures r.Some? ==> r.value == c.value.id
  {
    if c.Some? && c.value.id != 0 then Some(c.value.id) else None
  }

  /** The row a new device entry becomes. */
  function ToNewContact(d: DeviceContact, categoryId: Option<int>): (row: NewContact)
    requires HasId(d)
    ensures row.nativeId == d.id && row.categoryId == categoryId
    ensures row.foodPreferences.None? && row.notes.None?
    ensures row.birthday.Some? <==> d.birthday.Some? && IsComplete(d.birthday.value)
    ensures row.firstName.Some? <==> d.firstName.Some? && d.firstName.value != ""
    ensures row.firstName.Some? ==> row.firstName == d.firstName
    ensures row.lastName.Some? <==> d.lastName.Some? && d.lastName.value != ""
    ensures row.lastName.Some? ==> row.lastName == d.lastName
    ensures row.phoneNumber.Some? <==> |d.phoneNumbers| > 0 && d.phoneNumbers[0].Some? && d.phoneNumbers[0].value != ""
    ensures row.phoneNumber.Some? ==> row.phoneNumber == d.phoneNumbers[0]
    ensures row.email.Some? <==> |d.emails| > 0 && d.emails[0].Some? && d.emails[0].value != ""
    ensures row.email.Some? ==> row.email == d.emails[0]
    ensures row.birthday == if d.birthday.Some? then FormatBirthday(d.birthday.value) else None
  {
    NewContact(
      d.id,
      NullIfEmpty(d.firstName),
      NullIfEmpty(d.lastName),
      FirstOrNull(d.phoneNumbers),
      FirstOrNull(d.emails),
      categoryId,
      if d.birthday.Some? then FormatBirthday(d.birthday.value) else None,
      None,
      None)
  }

  /**
   * The rows one sync pass inserts, in order, when `taken` holds the native
   * ids already stored: each entry with an id not yet taken is inserted and
   * its id becomes taken.
   */
  function SyncedRows(taken: set<string>, snapshot: seq<DeviceContact>, categoryId: Option<int>): (rows: seq<NewContact>)
    ensures |rows| <= |snapshot|
    decreases |snapshot|
  {
    if snapshot == [] then []
    else
      var d := snapshot[0];
      if !HasId(d) || d.id.value in taken then SyncedRows(taken, snapshot[1..], categoryId)
      else [ToNewContact(d, categoryId)] + SyncedRows(taken + {d.id.value}, snapshot[1..], categoryId)
  }

  /** The native ids a sequence of new rows carries. */
  function RowNativeIds(rows: seq<NewContact>): set<string> {
    set r | r in rows && r.nativeId.Some? :: r.nativeId.value
  }

  /** The caller-supplied columns of each row, in order. */
  function ColumnsOfAll(cs: seq<Contact>): seq<NewContact> {
    seq(|cs|, i requires 0 <= i < |cs| => ColumnsOf(cs[i]))
  }

  /**
   * Every inserted row carries a native id that was not yet stored, the sync
   * category, and no food preferences or notes.
   */
  lemma {:induction false} SyncedRowsFresh(taken: set<string>, snapshot: seq<DeviceContact>, categoryId: Option<int>)
    ensures forall r :: r in SyncedRows(taken, snapshot, categoryId) ==>
      && r.nativeId.Some? && r.nativeId.value !in taken
      && r.categoryId == categoryId && r.foodPreferences.None? && r.notes.None?
    decreases |snapshot|
  {
    if snapshot != [] {
      var d := snapshot[0];
      if !HasId(d) || d.id.value in taken {
        SyncedRowsFresh(taken, snapshot[1..], categoryId);
      } else {
        SyncedRowsFresh(taken + {d.id.value}, snapshot[1..], categoryId);
      }
    }
  }

  /** Every inserted row is the mapping of some snapshot entry that has an id. */
  lemma {:induction false} SyncedRowsFromSnapshot(taken: set<string>, snapshot: seq<DeviceContact>, categoryId: Option<int>)
    ensures forall r :: r in SyncedRows(taken, snapshot, categoryId) ==>
      exists d :: d in snapshot && HasId(d) && r == ToNewContact(d, categoryId)
    decreases |snapshot|
  {
    if snapshot != [] {
      var d := snapshot[0];
      var taken' := if !HasId(d) || d.id.value in taken then taken else taken + {d.id.value};
      SyncedRowsFromSnapshot(taken', snapshot[1..], categoryId);
      forall r | r in SyncedRows(taken, snapshot, categoryId)
        ensures exists d :: d in snapshot && HasId(d) && r == ToNewContact(d, categoryId)
      {
        if r in SyncedRows(taken', snapshot[1..], categoryId) {
          var e :| e in snapshot[1..] && HasId(e) && r == ToNewContact(e, categoryId);
          assert e in snapshot;
        } else {
          assert r == ToNewContact(d, categoryId);
        }
      }
    }
  }

  /** `snapshot[j]` has an id that no earlier entry carries. */
  predicate FirstWithId(snapshot: seq<DeviceContact>, j: nat)
    requires j < |snapshot|
  {
    HasId(snapshot[j]) && forall i :: 0 <= i < j ==> !HasId(snapshot[i]) || snapshot[i].id != snapshot[j].id
  }

  /**
   * Of several device entries sharing an id, the row comes from the first:
   * every inserted row is the mapping of an entry whose id no earlier entry
   * carries, because the later ones find that id already stored.
   */
  lemma {:induction false} SyncedRowsKeepFirst(taken: set<string>, snapshot: seq<DeviceContact>, categoryId: Option<int>)
    ensures forall r :: r in SyncedRows(taken, snapshot, categoryId) ==>
      exists j :: 0 <= j < |snapshot| && FirstWithId(snapshot, j) && r == ToNewContact(snapshot[j], categoryId)
    decreases |snapshot|
  {
    if snapshot != [] {
      var d := snapshot[0];
      var taken' := if !HasId(d) || d.id.value in taken then taken else taken + {d.id.value};
      var rest := snapshot[1..];
      SyncedRowsKeepFirst(taken', rest, categoryId);
      SyncedRowsFresh(taken', rest, categoryId);
      forall r | r in SyncedRows(taken, snapshot, categoryId)
        ensures exists j :: 0 <= j < |snapshot| && FirstWithId(snapshot, j) && r == ToNewContact(snapshot[j], categoryId)
      {
        if r in SyncedRows(taken', rest, categoryId) {
          var j :| 0 <= j < |rest| && FirstWithId(rest, j) && r == ToNewContact(rest[j], categoryId);
          assert rest[j] == snapshot[j + 1];
          assert r.nativeId == snapshot[j + 1].id && r.nativeId.value !in taken';
          forall i | 0 <= i < j + 1
            ensures !HasId(snapshot[i]) || snapshot[i].id != snapshot[j + 1].id
          {
            if i > 0 {
              assert snapshot[i] == rest[i - 1];
            }
          }
          assert FirstWithId(snapshot, j + 1);
        } else {
          assert r == ToNewContact(snapshot[0], categoryId) && FirstWithId(snapshot, 0);
        }
      }
    }
  }

  /** No two rows a pass inserts share a native id. */
  lemma {:induction false} SyncedRowsDistinct(taken: set<string>, snapshot: seq<DeviceContact>, categoryId: Option<int>)
    ensures forall i, j :: 0 <= i < j < |SyncedRows(taken, snapshot, categoryId)| ==>
      SyncedRows(taken, snapshot, categoryId)[i].nativeId != SyncedRows(taken, snapshot, categoryId)[j].nativeId
    decreases |snapshot|
  {
    if snapshot != [] {
      var d := snapshot[0];
      if !HasId(d) || d.id.value in taken {
        SyncedRowsDistinct(taken, snapshot[1..], categoryId);
      } else {
        var taken' := taken + {d.id.value};
        SyncedRowsDistinct(taken', snapshot[1..], categoryId);
        SyncedRowsFresh(taken', snapshot[1..], categoryId);
        var rest := SyncedRows(taken', snapshot[1..], categoryId);
        var rows := SyncedRows(taken, snapshot, categoryId);
        assert rows == [ToNewContact(d, categoryId)] + rest;
        forall i, j | 0 <= i < j < |rows| ensures rows[i].nativeId != rows[j].nativeId {
          assert rows[j] == rest[j - 1];
          if i == 0 {
            assert rest[j - 1] in rest;
          } else {
            assert rows[i] == rest[i - 1];
          }
        }
      }
    }
  }

  /** After a pass, every id in the snapshot is stored: either it was already, or the pass inserted it. */
  lemma {:induction false} SyncCoversSnapshot(taken: set<string>, snapshot: seq<DeviceContact>, categoryId: Option<int>)
    ensures forall d :: d in snapshot && HasId(d) ==>
      d.id.value in taken + RowNativeIds(SyncedRows(taken, snapshot, categoryId))
    decreases |snapshot|
  {
    if snapshot != [] {
      var d := snapshot[0];
      var rows := SyncedRows(taken, snapshot, categoryId);
      if !HasId(d) || d.id.value in taken {
        SyncCoversSnapshot(taken, snapshot[1..], categoryId);
      } else {
        var taken' := taken + {d.id.value};
        SyncCoversSnapshot(taken', snapshot[1..], categoryId);
        var rest := SyncedRows(taken', snapshot[1..], categoryId);
        assert rows == [ToNewContact(d, categoryId)] + rest;
        assert ToNewContact(d, categoryId) in rows;
        assert RowNativeIds(rest) <= RowNativeIds(rows);
      }
    }
  }

  /** When every id in the snapshot is already stored, a pass inserts nothing. */
  lemma {:induction false} SyncedRowsNoneNew(taken: set<string>, snapshot: seq<DeviceContact>, categoryId: Option<int>)
    requires forall d :: d in snapshot && HasId(d) ==> d.id.value in taken
    ensures SyncedRows(taken, snapshot, categoryId) == []
    decreases |snapshot|
  {
    if snapshot != [] {
      assert snapshot[0] in snapshot;
      assert forall d :: d in snapshot[1..] ==> d in snapshot;
      SyncedRowsNoneNew(taken, snapshot[1..], categoryId);
    }
  }

  /** NativeIds of a table that grew by `rows` (as ColumnsOf sees them). */
  lemma NativeIdsGrow(before: seq<Contact>, after: seq<Contact>)
    requires before <= after
    ensures NativeIds(after) == NativeIds(before) + RowNativeIds(ColumnsOfAll(after[|before|..]))
  {
    var added := after[|before|..];
    var cols := ColumnsOfAll(added);
    forall x | x in NativeIds(after) ensures x in NativeIds(before) + RowNativeIds(cols) {
      var c :| c in after && c.nativeId == Some(x);
      var k :| 0 <= k < |after| && after[k] == c;
      if k < |before| {
        assert before[k] == c;
      } else {
        assert cols[k - |before|] == ColumnsOf(c);
      }
    }
    forall x | x in RowNativeIds(cols) ensures x in NativeIds(after) {
      var r :| r in cols && r.nativeId == Some(x);
      var k :| 0 <= k < |cols| && cols[k] == r;
      assert after[|before| + k] in after;
    }
    forall x | x in NativeIds(before) ensures x in NativeIds(after) {
      var c :| c in before && c.nativeId == Some(x);
      var k :| 0 <= k < |before| && before[k] == c;
      assert after[k] == c;
    }
  }

  /**
   * Syncing the same snapshot a second time adds nothing: whatever the first
   * pass stored (rows `after[|before|..]`), the second pass finds every id taken.
   */
  lemma SecondSyncAddsNothing(
    before: seq<Contact>, after: seq<Contact>, snapshot: seq<DeviceContact>,
    categoryId: Option<int>, laterCategoryId: Option<int>)
    requires before <= after
    requires ColumnsOfAll(after[|before|..]) == SyncedRows(NativeIds(before), snapshot, categoryId)
    ensures SyncedRows(NativeIds(after), snapshot, laterCategoryId) == []
  {
    NativeIdsGrow(before, after);
    SyncCoversSnapshot(NativeIds(before), snapshot, categoryId);
    SyncedRowsNoneNew(NativeIds(after), snapshot, laterCategoryId);
  }

  /**
   * Sync progress after the entries `snapshot[..i]`: the rows appended to
   * `start` so far, followed by the rows the remaining entries will still
   * add, are the rows of the whole pass.
   */
  ghost predicate Synced(
    start: seq<Contact>, current: seq<Contact>, snapshot: seq<DeviceContact>, i: nat,
    categoryId: Option<int>, target: seq<NewContact>)
  {
    && i <= |snapshot|
    && start <= current
    && ColumnsOfAll(current[|start|..]) + SyncedRows(NativeIds(current), snapshot[i..], categoryId) == target
  }

  lemma SyncBegins(start: seq<Contact>, snapshot: seq<DeviceContact>, categoryId: Option<int>)
    ensures Synced(start, start, snapshot, 0, categoryId, SyncedRows(NativeIds(start), snapshot, categoryId))
  {
    assert snapshot[0..] == snapshot && start[|start|..] == [];
  }

  /** An entry without an id, or whose id is stored, contributes nothing. */
  lemma SkipStep(
    start: seq<Contact>, current: seq<Contact>, snapshot: seq<DeviceContact>, i: nat,
    categoryId: Option<int>, target: seq<NewContact>)
    requires i < |snapshot| && Synced(start, current, snapshot, i, categoryId, target)
    requires !HasId(snapshot[i]) || snapshot[i].id.value in NativeIds(current)
    ensures Synced(start, current, snapshot, i + 1, categoryId, target)
  {
    assert snapshot[i..][0] == snapshot[i] && snapshot[i..][1..] == snapshot[i + 1..];
  }

  /** Inserting the row of a new entry moves it from the pending rows to the stored ones. */
  lemma InsertStep(
    start: seq<Contact>, current: seq<Contact>, c: Contact, snapshot: seq<DeviceContact>, i: nat,
    categoryId: Option<int>, target: seq<NewContact>)
    requires i < |snapshot| && Synced(start, current, snapshot, i, categoryId, target)
    requires HasId(snapshot[i]) && snapshot[i].id.value !in NativeIds(current)
    requires ColumnsOf(c) == ToNewContact(snapshot[i], categoryId)
    ensures Synced(start, current + [c], snapshot, i + 1, categoryId, target)
  {
    var d := snapshot[i];
    assert snapshot[i..][0] == d && snapshot[i..][1..] == snapshot[i + 1..];
    assert (current + [c])[|start|..] == current[|start|..] + [c];
    assert ColumnsOfAll(current[|start|..] + [c]) == ColumnsOfAll(current[|start|..]) + [ColumnsOf(c)];
    NativeIdsGrow(current, current + [c]);
    assert (current + [c])[|current|..] == [c];
    assert ColumnsOfAll([c]) == [ColumnsOf(c)];
    assert RowNativeIds([ColumnsOf(c)]) == {d.id.value};
  }

  lemma SyncDone(
    start: seq<Contact>, current: seq<Contact>, snapshot: seq<DeviceContact>,
    categoryId: Option<int>, target: seq<NewContact>)
    requires Synced(start, current, snapshot, |snapshot|, categoryId, target)
    ensures start <= current && ColumnsOfAll(current[|start|..]) == target
  {
    assert snapshot[|snapshot|..] == [];
  }

  /**
   * The rows a run of inserts of `rows` at `now` appends to the contacts
   * table, numbered on from `firstId`.
   */
  function InsertedRows(firstId: int, rows: seq<NewContact>, now: Timestamp): (cs: seq<Contact>)
    ensures |cs| == |rows|
    decreases |rows|
  {
    if rows == [] then []
    else InsertedRows(firstId, rows[..|rows| - 1], now) + [InsertedContact(firstId + |rows| - 1, rows[|rows| - 1], now)]
  }

  /**
   * The contacts table, its id counter and the last insert rowid after the
   * inserts of `rows` at `now` into a table `start` whose counter and last
   * rowid stood at `firstId` and `startLast`.
   */
  ghost predicate Inserted(
    start: seq<Contact>, firstId: int, startLast: int, rows: seq<NewContact>, now: Timestamp,
    contacts: seq<Contact>, next: int, last: int)
  {
    && start <= contacts && contacts[|start|..] == InsertedRows(firstId, rows, now)
    && next == firstId + |rows|
    && last == (if rows == [] then startLast else next - 1)
  }

  /** One more insert appends one more row with the next id, which becomes the last rowid. */
  lemma InsertedStep(
    start: seq<Contact>, firstId: int, startLast: int, rows: seq<NewContact>, row: NewContact, now: Timestamp,
    contacts: seq<Contact>, next: int, last: int)
    requires Inserted(start, firstId, startLast, rows, now, contacts, next, last)
    ensures Inserted(start, firstId, startLast, rows + [row], now,
      contacts + [InsertedContact(next, row, now)], next + 1, next)
  {
    assert (rows + [row])[..|rows|] == rows;
    assert (contacts + [InsertedContact(next, row, now)])[|start|..] == contacts[|start|..] + [InsertedContact(next, row, now)];
  }

  /**
   * Inserted row `k` is the insert of `rows[k]` with id `firstId + k` and both
   * timestamps `now`; so the inserted rows carry exactly the columns given.
   */
  lemma {:induction false} InsertedRowsAt(firstId: int, rows: seq<NewContact>, now: Timestamp)
    ensures forall k :: 0 <= k < |rows| ==> InsertedRows(firstId, rows, now)[k] == InsertedContact(firstId + k, rows[k], now)
    ensures ColumnsOfAll(InsertedRows(firstId, rows, now)) == rows
    decreases |rows|
  {
    if rows != [] {
      var init := rows[..|rows| - 1];
      InsertedRowsAt(firstId, init, now);
      var cs := InsertedRows(firstId, rows, now);
      assert cs == InsertedRows(firstId, init, now) + [InsertedContact(firstId + |init|, rows[|init|], now)];
      forall k | 0 <= k < |rows|
        ensures cs[k] == InsertedContact(firstId + k, rows[k], now)
      {
        if k < |init| {
          assert cs[k] == InsertedRows(firstId, init, now)[k];
          assert rows[k] == init[k];
        }
      }
      assert ColumnsOfAll(cs) == rows by {
        forall k | 0 <= k < |rows| ensures ColumnsOfAll(cs)[k] == rows[k] {
          assert cs[k] == InsertedContact(firstId + k, rows[k], now);
        }
      }
    }
  }

  /** At the end of a pass, the rows inserted are exactly the pass's rows. */
  lemma PassComplete(
    start: seq<Contact>, current: seq<Contact>, snapshot: seq<DeviceContact>, categoryId: Option<int>,
    target: seq<NewContact>, firstId: int, rows: seq<NewContact>, now: Timestamp)
    requires Synced(start, current, snapshot, |snapshot|, categoryId, target)
    requires start <= current && current[|start|..] == InsertedRows(firstId, rows, now)
    ensures rows == target
  {
    SyncDone(start, current, snapshot, categoryId, target);
    InsertedRowsAt(firstId, rows, now);
  }

  /**
   * One iteration of the sync loop over `snapshot[i]`: skip an entry without
   * an id or whose id is already stored, otherwise insert its row under
   * `categoryId`. The pass stays on course towards `target`.
   */
  method SyncEntry(
    db: Store, snapshot: seq<DeviceContact>, i: nat, categoryId: Option<int>, now: Timestamp,
    ghost start: seq<Contact>, ghost target: seq<NewContact>)
    returns (inserted: bool)
    requires db.Valid() && db.hasSchema
    requires categoryId.Some? ==> categoryId.value in CategoryIds(db.categories)
    requires i < |snapshot| && Synced(start, db.contacts, snapshot, i, categoryId, target)
    modifies db`contacts, db`nextContactId, db`lastInsertRowId
    ensures db.Valid()
    ensures Synced(start, db.contacts, snapshot, i + 1, categoryId, target)
    ensures inserted <==> HasId(snapshot[i]) && snapshot[i].id.value !in NativeIds(old(db.contacts))
    ensures inserted ==>
      && db.contacts == old(db.contacts) + [InsertedContact(old(db.nextContactId), ToNewContact(snapshot[i], categoryId), now)]
      && db.nextContactId == old(db.nextContactId) + 1
      && db.lastInsertRowId == old(db.nextContactId)
    ensures !inserted ==>
      && db.contacts == old(db.contacts)
      && db.nextContactId == old(db.nextContactId) && db.lastInsertRowId == old(db.lastInsertRowId)
  {
    var d := snapshot[i];
    if !HasId(d) {
      SkipStep(start, db.contacts, snapshot, i, categoryId, target);
      return false;
    }
    var existing := db.ContactByNativeId(d.id.value);
    if existing.Some? {
      SkipStep(start, db.contacts, snapshot, i, categoryId, target);
      return false;
    }
    ghost var before := db.contacts;
    var row := ToNewContact(d, categoryId);
    var result := db.AddContact(row, now);
    InsertStep(start, before, InsertedContact(result.value.lastInsertRowId, row, now), snapshot, i, categoryId, target);
    inserted := result.Some? && result.value.lastInsertRowId != 0;
  }

  /**
   * The loop of syncContactsToDB: for each device entry with an id that is
   * not yet stored, insert its row under `categoryId` and count it.
   */
  method InsertNewEntries(db: Store, snapshot: seq<DeviceContact>, categoryId: Option<int>, now: Timestamp)
    returns (added: nat)
    requires db.Valid() && db.hasSchema
    requires categoryId.Some? ==> categoryId.value in CategoryIds(db.categories)
    modifies db`contacts, db`nextContactId, db`lastInsertRowId
    ensures db.Valid()
    ensures added == |db.contacts| - |old(db.contacts)|
    ensures Inserted(old(db.contacts), old(db.nextContactId), old(db.lastInsertRowId),
      SyncedRows(NativeIds(old(db.contacts)), snapshot, categoryId), now,
      db.contacts, db.nextContactId, db.lastInsertRowId)
  {
    added := 0;
    ghost var start, firstId, startLast := db.contacts, db.nextContactId, db.lastInsertRowId;
    ghost var target := SyncedRows(NativeIds(start), snapshot, categoryId);
    ghost var rows: seq<NewContact> := [];
    SyncBegins(start, snapshot, categoryId);
    for i := 0 to |snapshot|
      invariant db.Valid()
      invariant Synced(start, db.contacts, snapshot, i, categoryId, target)
      invariant Inserted(start, firstId, startLast, rows, now, db.contacts, db.nextContactId, db.lastInsertRowId)
      invariant added == |rows|
      invariant db.hasSchema && db.categories == old(db.categories)
    {
      ghost var before, beforeNext, beforeLast := db.contacts, db.nextContactId, db.lastInsertRowId;
      var inserted := SyncEntry(db, snapshot, i, categoryId, now, start, target);
      if inserted {
        ghost var row := ToNewContact(snapshot[i], categoryId);
        InsertedStep(start, firstId, startLast, rows, row, now, before, beforeNext, beforeLast);
        rows := rows + [row];
        added := added + 1;
      }
    }
    PassComplete(start, db.contacts, snapshot, categoryId, target, firstId, rows, now);
  }

  /**
   * syncContactsToDB: make sure the schema exists, stop if it cannot be set up
   * or permission is denied, then insert every device entry whose id is not yet
   * stored, filed under the default category. Returns how many rows it added.
   */
  method SyncContactsToDB(
    db: Store, schemaFault: Option<nat>, permissionGranted: bool,
    snapshot: seq<DeviceContact>, now: Timestamp)
    returns (added: nat)
    requires db.Valid()
    modifies db`hasSchema, db`categories, db`nextCategoryId, db`lastInsertRowId, db`contacts, db`nextContactId
    ensures db.Valid()
    ensures db.events == old(db.events) && db.news == old(db.news)
    ensures added == |db.contacts| - |old(db.contacts)|
    ensures !permissionGranted ==> added == 0
    ensures schemaFault.Some? && schemaFault.value < |DefaultCategories| ==>
      && db.categories == old(db.categories) && db.nextCategoryId == old(db.nextCategoryId)
      && db.hasSchema == old(db.hasSchema)
    ensures schemaFault.None? || schemaFault.value >= |DefaultCategories| ==>
      SchemaCommitted(old(db.categories), old(db.nextCategoryId), db.hasSchema, db.categories, db.nextCategoryId)
    ensures (schemaFault.None? || schemaFault.value >= |DefaultCategories|) && permissionGranted ==>
      FirstWhere(db.categories, CategoryNamed(SyncCategoryName)).Some?
    ensures Inserted(old(db.contacts), old(db.nextContactId),
      SchemaLastId(old(db.categories), old(db.nextCategoryId), old(db.lastInsertRowId), schemaFault),
      if (schemaFault.None? || schemaFault.value >= |DefaultCategories|) && permissionGranted
      then SyncedRows(NativeIds(old(db.contacts)), snapshot,
        DefaultCategoryId(FirstWhere(db.categories, CategoryNamed(SyncCategoryName))))
      else [],
      now, db.contacts, db.nextContactId, db.lastInsertRowId)
  {
    var outcome := db.InitializeSchema(schemaFault);
    if outcome.RolledBack? {
      assert db.contacts[|db.contacts|..] == [];
      return 0;
    }
    assert DefaultCategories[3] in DefaultCategories;
    added := SyncWithSchema(db, permissionGranted, snapshot, now);
  }

  /**
   * The part of syncContactsToDB after the schema is in place: the
   * permission check, the lookup of the default category and the loop.
   */
  method SyncWithSchema(db: Store, permissionGranted: bool, snapshot: seq<DeviceContact>, now: Timestamp)
    returns (added: nat)
    requires db.Valid() && db.hasSchema && NamedIn(db.categories, SyncCategoryName)
    modifies db`contacts, db`nextContactId, db`lastInsertRowId
    ensures db.Valid()
    ensures db.hasSchema == old(db.hasSchema) && db.categories == old(db.categories)
    ensures db.nextCategoryId == old(db.nextCategoryId) && db.events == old(db.events) && db.news == old(db.news)
    ensures added == |db.contacts| - |old(db.contacts)|
    ensures !permissionGranted ==> added == 0
    ensures Inserted(old(db.contacts), old(db.nextContactId), old(db.lastInsertRowId),
      if permissionGranted
      then SyncedRows(NativeIds(old(db.contacts)), snapshot,
        DefaultCategoryId(FirstWhere(db.categories, CategoryNamed(SyncCategoryName))))
      else [],
      now, db.contacts, db.nextContactId, db.lastInsertRowId)
  {
    if !permissionGranted {
      assert db.contacts[|db.contacts|..] == [];
      return 0;
    }
    var categoryId := DefaultCategoryId(db.CategoryByName(SyncCategoryName));
    if |snapshot| == 0 {
      assert db.contacts[|db.contacts|..] == [];
      return 0;
    }
    added := InsertNewEntries(db, snapshot, categoryId, now);
  }
}
