# Oruma contact store, device sync and birthday reminders

Oruma is a personal relationship app. Its data layer keeps four SQLite tables:
categories, contacts, contact events and contact news. Two services sit on top.
The contact sync copies the device address book into the contacts table. It
skips entries without an id or whose native id is already stored, and files new
rows under the "Buddies / Casual Connections" category. The notification service
turns each stored birthday ("YYYY-MM-DD") into a yearly reminder at 09:00 on that
month and day, registered under the identifier `birthday-<id>`.

The model has six modules:

- `Optional`: the option type.
- `Sequences`: filtering, first-match lookup, and a stable insertion sort with
  their ordering and counting facts. These stand for SQL `WHERE`,
  `getFirstAsync` and `ORDER BY`.
- `Text`: JavaScript string behaviour the services rely on. It covers
  `split` (empty pieces kept), `Number.prototype.toString` on integers,
  `padStart`, `parseInt(s, 10)` (leading white space, a sign, leading digits,
  `NaN` as `None`) and SQLite's BINARY text ordering.
- `Database`: the class `Store`. Each table is a sequence field, with one
  AUTOINCREMENT counter per table and the connection's last insert rowid.
  The invariant `Valid()` is the schema's constraints: ascending ids below the
  counter, UNIQUE category name, UNIQUE native id, and foreign keys from contacts
  to categories and from events and news to contacts. Writers are methods; each
  `SELECT` is a function that reads the store. A refused statement (a
  constraint violation or a missing table) is `None`, the accessor's `null`.
- `ContactSync`: `formatBirthday`, the mapping from a device entry to a row, and
  the sync loop. The loop is proved against `SyncedRows`, a function giving the
  rows one pass inserts.
- `Notifications`: birthday parsing and validation, the class
  `NotificationCenter` (the host's scheduled alarms by identifier),
  cancel-then-schedule, and the pass over all contacts. That pass is proved
  against the fold `ScheduleAll`.

The model assumes that SQLite enforces the declared foreign keys and the
`ON DELETE CASCADE` clauses. The module never turns on `PRAGMA foreign_keys`, so
on a connection where enforcement is off, the category and contact checks and the
cascade would not happen.

## Model

| member | source | states |
|---|---|---|
| Database.Store.constructor | OrumaApp/src/database/database.ts:44-47 | A freshly opened database file has no tables and no rows, and satisfies the schema invariant. Every AUTOINCREMENT counter starts at 1, so the first row of each table gets id 1. The last insert rowid is 0. |
| Database.Store.InitializeSchema | OrumaApp/src/database/database.ts:50-133 | The transaction commits exactly when no default-category insert fails for a reason other than UNIQUE. A failure restores the tables, the categories and their counter. The last insert rowid is connection state and is not rolled back: it keeps the id of the last default inserted before the failure, or its old value. On commit the table is the old one plus one row per missing default, in order, numbered from the counter. All four defaults are then present exactly once, and a second run changes nothing. Contacts, events and news are left untouched. |
| Database.Store.SeedDefault | OrumaApp/src/database/database.ts:118-130 | One seeding turn appends default `i` with the next id, advances the counter and sets the last insert rowid to that id. If a category of that name exists, the UNIQUE refusal is swallowed and nothing changes. Either way the table is the start table plus the seeded rows for the first `i + 1` defaults. |
| Database.Store.SeedDefaults | OrumaApp/src/database/database.ts:118-130 | The loop tries the defaults in order and stops at the failing insert, if any. The table, the counter and the last insert rowid are then exactly as `SeedRows` gives for the defaults tried. |
| Database.SeedRowsNamed | OrumaApp/src/database/database.ts:112-130 | Seeding adds only rows named after defaults already tried. |
| Database.SeedRowsCover | OrumaApp/src/database/database.ts:118-130 | After seeding, every default tried is present. |
| Database.NothingToSeed | OrumaApp/src/database/database.ts:111 | Seeding a table that already holds every default adds nothing. |
| Database.DefaultNotYetSeeded | OrumaApp/src/database/database.ts:118-124 | During seeding, a default is present iff it was present before seeding began, because the rows added so far carry other default names. |
| Database.Store.SeededUnique | OrumaApp/src/database/database.ts:56 | After seeding, every default name is held by exactly one row, because names are UNIQUE. |
| Database.Store.AddCategory | OrumaApp/src/database/database.ts:138-146 | The insert is refused (null) iff the table is missing or the name is taken. Otherwise it appends a row with the next AUTOINCREMENT id and reports that id and one change. |
| Database.Store.CategoryById | OrumaApp/src/database/database.ts:148-156 | Finds a row iff some category has that id, and returns a stored row with that id. |
| Database.Store.CategoryByName | OrumaApp/src/database/database.ts:158-166 | Finds a row iff some category has that name, and returns a stored row with that name. |
| Database.Store.AllCategories | OrumaApp/src/database/database.ts:168-176 | Returns a permutation of the categories table, ordered by name (empty without tables). |
| Database.Store.AddContact | OrumaApp/src/database/database.ts:179-195 | Refused iff the tables are missing, the native id is already stored (UNIQUE), or the category does not exist (foreign key). Otherwise it appends the row with the next id, both timestamps set to now, and reports that id. |
| Database.InsertedContact | OrumaApp/src/database/database.ts:185-189 | A new row holds the supplied columns unchanged, the given id, and now as both timestamps. |
| Database.Store.UpdateContact | OrumaApp/src/database/database.ts:197-218 | No supplied field gives null and no change. An unknown id gives zero changes. A UNIQUE or foreign-key clash gives null. Otherwise exactly row `id` is patched and its `updated_at` refreshed. |
| Database.Store.UpdateRejected | OrumaApp/src/database/database.ts:207-211 | An update can be refused only when it writes a non-NULL native id or a non-NULL category. |
| Database.Store.ContactById | OrumaApp/src/database/database.ts:220-228 | Finds a row iff one has that id, and returns it. |
| Database.Store.ContactByNativeId | OrumaApp/src/database/database.ts:230-238 | Finds a row iff one carries that native id, and returns it. |
| Database.Store.AllContacts | OrumaApp/src/database/database.ts:240-248 | Returns a permutation of the contacts table ordered by last name, then first name, with NULL first. |
| Database.Store.ContactsByCategory | OrumaApp/src/database/database.ts:250-261 | Returns exactly the contacts of that category, each as often as stored, in name order. |
| Database.Store.ContactsByCategoryIsFilteredAll | OrumaApp/src/database/database.ts:240-261 | The category query returns the full listing restricted to that category, in the same order up to ties between contacts with equal names: the model's stable sort breaks those ties the same way in both queries, which SQLite does not promise across two statements. |
| Database.Store.DeleteContact | OrumaApp/src/database/database.ts:263-272 | Removes the row with that id, and by cascade its events and news, and nothing else. Reports one change if the id was stored and zero otherwise. |
| Database.Store.EventsForContact | OrumaApp/src/database/database.ts:275-286 | Returns exactly the contact's events, newest date first with NULL dates last, then by id descending. |
| Database.Store.AddEventForContact | OrumaApp/src/database/database.ts:288-303 | Refused iff the contact does not exist. Otherwise it appends the event with the next id, storing an absent or empty date or description as NULL. |
| Database.Store.NewsForContact | OrumaApp/src/database/database.ts:306-317 | Returns exactly the contact's news items, newest first, then by id descending. |
| Database.Store.AddNewsForContact | OrumaApp/src/database/database.ts:319-334 | Refused iff the contact does not exist. Otherwise it appends the item with the next id, dated now. |
| Database.Patched | OrumaApp/src/database/database.ts:197-212 | Supplied columns take their new value and the others keep theirs. The id and creation time are untouched and `updated_at` becomes now. |
| Database.UpdateRows | OrumaApp/src/database/database.ts:209-211 | `WHERE id = ?` patches the matching rows and keeps every other row in place. |
| Database.NullableLeFacts | OrumaApp/src/database/database.ts:242 | NULL-first text ordering is total, antisymmetric and transitive. |
| Database.CategoryOrderIsTotal | OrumaApp/src/database/database.ts:170 | `ORDER BY name` is a total preorder. |
| Database.ContactOrderIsTotal | OrumaApp/src/database/database.ts:242 | `ORDER BY last_name, first_name` is a total preorder. |
| Database.EventOrderIsTotal | OrumaApp/src/database/database.ts:278 | `ORDER BY event_date DESC, id DESC` is a total preorder. |
| Database.NewsOrderIsTotal | OrumaApp/src/database/database.ts:309 | `ORDER BY date_recorded DESC, id DESC` is a total preorder. |
| Database.UniqueNameCount | OrumaApp/src/database/database.ts:56 | Under UNIQUE(name), a name that is present matches exactly one row. |
| Database.RemovedCount | OrumaApp/src/database/database.ts:263-272 | Deleting by id removes exactly one row when the id is stored and none otherwise. |
| Database.UpdateKeepsIds | OrumaApp/src/database/database.ts:209-211 | An update never changes the set of contact ids. |
| Database.UpdateKeepsNativeIds | OrumaApp/src/database/database.ts:64 | An update that does not reuse another row's native id keeps native ids unique and ids ascending. |
| Database.UpdateKeepsCategories | OrumaApp/src/database/database.ts:75 | An update to an existing category keeps every contact's category reference valid. |
| Database.UpdateKeepsConstraints | OrumaApp/src/database/database.ts:61-77 | An update the store accepts keeps the contacts table's constraints and its ids. |
| Database.ContactAppendOk | OrumaApp/src/database/database.ts:61-77 | Appending a contact with the next id, a fresh native id and an existing category keeps every table's constraints. |
| Database.ReferencesWiden | OrumaApp/src/database/database.ts:75 | Foreign keys stay valid when the set of referenced ids grows. |
| Database.DeleteKeepsConstraints | OrumaApp/src/database/database.ts:96 | Deleting a contact together with its cascaded events and news keeps every constraint, so no dangling reference remains. |
| Sequences.Filter | OrumaApp/src/database/database.ts:253 | A `WHERE` clause keeps exactly the rows satisfying it, never more than there were. |
| Sequences.FirstWhere | OrumaApp/src/database/database.ts:150 | `getFirstAsync` finds a matching row iff one exists. |
| Sequences.SortBy | OrumaApp/src/database/database.ts:170 | Sorting is a permutation. |
| Sequences.SortBySorted | OrumaApp/src/database/database.ts:170 | Sorting by a total preorder yields an ordered sequence. |
| Sequences.FilterSortCommute | OrumaApp/src/database/database.ts:253 | Filtering after sorting gives the same rows, in the same order, as sorting after filtering. |
| Sequences.FilterPairwise | OrumaApp/src/database/database.ts:266 | Removing rows keeps the remaining rows in their order. |
| Sequences.FilterConcat | OrumaApp/src/services/NotificationService.ts:123-134 | Filtering distributes over concatenation. |
| Sequences.FilterCountPermutation | OrumaApp/src/services/NotificationService.ts:116-135 | Permutations of each other have equally many rows satisfying a condition. |
| Text.TextLeTotal | OrumaApp/src/database/database.ts:170 | BINARY text comparison is total. |
| Text.TextLeAntisymmetric | OrumaApp/src/database/database.ts:170 | BINARY text comparison is antisymmetric. |
| Text.TextLeTransitive | OrumaApp/src/database/database.ts:170 | BINARY text comparison is transitive. |
| Text.Split | OrumaApp/src/services/NotificationService.ts:62 | `split('-')` yields at least one piece and no piece contains the separator. |
| Text.JoinSplit | OrumaApp/src/services/NotificationService.ts:62 | Joining the pieces with the separator gives back the original string. |
| Text.SplitThree | OrumaApp/src/services/NotificationService.ts:62-63 | Three separator-free parts joined by `-` split back into exactly those three. |
| Text.SplitPrefix | OrumaApp/src/services/NotificationService.ts:62 | A separator-free head followed by the separator splits off as the first piece. |
| Text.NatToDecimal | OrumaApp/src/services/ContactSyncService.ts:44-47 | `toString` of a natural number is a non-empty digit string without leading zeros. It has one digit iff the number is below 10, and at most two below 100. |
| Text.NatToDecimalValue | OrumaApp/src/services/ContactSyncService.ts:44-47 | Reading the decimal digits of `n` gives `n` back. |
| Text.IntToDecimal | OrumaApp/src/services/ContactSyncService.ts:44-47 | `toString` of a non-negative integer is a non-empty digit string without leading zeros: one digit iff below 10, at most two below 100. Of a negative integer it is `-` followed by exactly the magnitude's numeral, so two characters iff above -10 and at most three above -100. |
| Text.PadStart | OrumaApp/src/services/ContactSyncService.ts:45-46 | `padStart` fills on the left to the width and keeps the string as its suffix. |
| Text.TrimStart | OrumaApp/src/services/NotificationService.ts:69-70 | `parseInt` skips exactly the leading white space: every skipped character is white space, and what remains does not start with white space. |
| Text.LeadingDigits | OrumaApp/src/services/NotificationService.ts:69-70 | `parseInt` reads the longest run of leading digits. |
| Text.ParseInt | OrumaApp/src/services/NotificationService.ts:69-70 | `parseInt` gives a number iff a digit follows the leading white space and an optional sign. A negative result comes only from a leading `-`. |
| Text.ParseIntOfDigits | OrumaApp/src/services/NotificationService.ts:69-70 | `parseInt` of a digit run followed by a non-digit is the value of the run. |
| Text.ParseIntOfDecimal | OrumaApp/src/services/NotificationService.ts:69-70 | `parseInt` reads back any integer's decimal text, sign included, whatever non-digit follows. |
| Text.ParseIntOfPadded | OrumaApp/src/services/NotificationService.ts:69-70 | `parseInt` reads back a positive number padded with zeros to two places. |
| Text.DecimalInjective | OrumaApp/src/services/NotificationService.ts:77 | Different integers have different decimal texts. |
| Text.NullIfEmpty | OrumaApp/src/database/database.ts:296 | An optional value left out when empty is NULL iff it is absent or empty, and the value otherwise. |
| ContactSync.FormatBirthday | OrumaApp/src/services/ContactSyncService.ts:40-50 | A birthday is formatted iff year, month and day are all present and non-zero. |
| ContactSync.TwoDigits | OrumaApp/src/services/ContactSyncService.ts:45-46 | A month or day is written as its numeral padded on the left with zeros to at least two characters, and to exactly two for any value in 0..99. |
| ContactSync.TwoDigitsOfPositive | OrumaApp/src/services/ContactSyncService.ts:45-46 | A positive month or day is written with at least two digits that parse back to it. |
| ContactSync.FormatBirthdaySplits | OrumaApp/src/services/ContactSyncService.ts:40-50 | A positive birthday becomes year, padded month and padded day joined by `-`, which split back into those three parts. |
| ContactSync.FormatBirthdayExample | OrumaApp/src/services/ContactSyncService.ts:43-47 | {1990, 5, 3} becomes "1990-05-03". |
| ContactSync.FormatBirthdayShape | OrumaApp/src/services/ContactSyncService.ts:40-50 | With a positive year and a month and day in 1..99, the text is the year's digits, `-`, exactly two digits, `-` and exactly two digits. |
| ContactSync.PartialBirthdayDropped | OrumaApp/src/services/ContactSyncService.ts:41-49 | A birthday with a missing or zero part is not stored. |
| ContactSync.HasId | OrumaApp/src/services/ContactSyncService.ts:91-94 | An entry is synced only when its id is present and non-empty. |
| ContactSync.FirstOrNull | OrumaApp/src/services/ContactSyncService.ts:108-109 | The first phone number or e-mail is taken iff the list has a non-empty first item. |
| ContactSync.DefaultCategoryId | OrumaApp/src/services/ContactSyncService.ts:110 | The sync category's id is used iff the category was found with a truthy id. |
| ContactSync.ToNewContact | OrumaApp/src/services/ContactSyncService.ts:104-114 | The new row has the device id as native id and the sync category. The first and last names, the first phone number and the first e-mail are kept iff present and non-empty. The birthday is the formatted device birthday. There are no food preferences or notes. |
| ContactSync.SyncedRows | OrumaApp/src/services/ContactSyncService.ts:89-126 | A pass inserts at most one row per snapshot entry. |
| ContactSync.SyncedRowsFresh | OrumaApp/src/services/ContactSyncService.ts:97-114 | Every row a pass inserts has a native id not stored before the pass, the sync category, and no food preferences or notes. |
| ContactSync.SyncedRowsFromSnapshot | OrumaApp/src/services/ContactSyncService.ts:90-114 | Every inserted row is the mapping of a snapshot entry that has an id. |
| ContactSync.SyncedRowsDistinct | OrumaApp/src/services/ContactSyncService.ts:97-102 | No two rows one pass inserts share a native id, even when the snapshot repeats an id. |
| ContactSync.SyncedRowsKeepFirst | OrumaApp/src/services/ContactSyncService.ts:96-102 | Of several device entries sharing an id, the row comes from the first one: each inserted row maps an entry whose id no earlier entry carries. |
| ContactSync.SyncCoversSnapshot | OrumaApp/src/services/ContactSyncService.ts:90-126 | After a pass, every snapshot id is stored, either from before or by the pass. |
| ContactSync.SyncedRowsNoneNew | OrumaApp/src/services/ContactSyncService.ts:97-102 | When every snapshot id is already stored, a pass inserts nothing. |
| ContactSync.NativeIdsGrow | OrumaApp/src/services/ContactSyncService.ts:116 | The stored native ids after appending rows are the old ones plus the rows' own. |
| ContactSync.SecondSyncAddsNothing | OrumaApp/src/services/ContactSyncService.ts:89-126 | Syncing the same snapshot again inserts nothing. |
| ContactSync.SkipStep | OrumaApp/src/services/ContactSyncService.ts:91-102 | An entry without an id, or whose id is stored, contributes no row. |
| ContactSync.InsertStep | OrumaApp/src/services/ContactSyncService.ts:104-122 | Inserting a new entry's row moves it from the pending rows to the stored ones. |
| ContactSync.InsertedRows | OrumaApp/src/database/database.ts:185-189 | A run of inserts appends one row per inserted column set. |
| ContactSync.InsertedRowsAt | OrumaApp/src/database/database.ts:185-189 | Inserted row `k` holds the `k`-th column set, the id `k` places after the first, and now as both timestamps. The inserted rows therefore carry exactly the columns given. |
| ContactSync.InsertedStep | OrumaApp/src/database/database.ts:185-189 | One more insert appends one row with the next id. The counter advances by one, and that id becomes the last insert rowid. |
| ContactSync.PassComplete | OrumaApp/src/services/ContactSyncService.ts:89-126 | At the end of the loop, the column sets inserted are exactly the rows of the pass. |
| ContactSync.SyncEntry | OrumaApp/src/services/ContactSyncService.ts:90-126 | One loop turn inserts iff the entry has an id not yet stored. It then appends exactly the entry's row with the next id and both timestamps now, advances the counter and sets the last insert rowid. Otherwise nothing changes. |
| ContactSync.InsertNewEntries | OrumaApp/src/services/ContactSyncService.ts:89-126 | The loop appends exactly the rows of `SyncedRows`, in order, with consecutive ids from the counter and both timestamps now, and counts them. The counter advances by the count. The last insert rowid is the last new id, or unchanged when nothing was added. |
| ContactSync.SyncWithSchema | OrumaApp/src/services/ContactSyncService.ts:61-126 | Without permission nothing is added. Otherwise the appended rows are exactly one pass's rows under the sync category, with consecutive ids and timestamps now. The counter and the last insert rowid follow the inserts, and the count is their number. |
| ContactSync.SyncContactsToDB | OrumaApp/src/services/ContactSyncService.ts:52-129 | A failed schema setup adds nothing and leaves the categories as they were. Otherwise the categories are the old ones plus the seeded defaults. A refused permission adds no contact. Otherwise the new rows are exactly one pass's rows, with consecutive ids from the counter and timestamps now. The contact counter advances by the count. The last insert rowid is the last new contact id, or what the schema setup left. Events and news are never touched. |
| Notifications.BirthdayTrigger | OrumaApp/src/services/NotificationService.ts:57-75 | No or empty birthday, or not exactly three parts, is skipped. A trigger is always a month in 1..12 and a day in 1..31, at 09:00, repeating. |
| Notifications.TriggerOfParts | OrumaApp/src/services/NotificationService.ts:62-75 | Three dash-free parts are scheduled iff the second and third parse to an in-range month and day, and then on exactly those. |
| Notifications.YearIgnored | OrumaApp/src/services/NotificationService.ts:68-70 | The year part never changes the trigger. |
| Notifications.BirthdayRoundTrip | OrumaApp/src/services/NotificationService.ts:62-75 | A birthday the sync stored from positive parts is scheduled iff month ≤ 12 and day ≤ 31, on that month and day. |
| Notifications.Feb31Accepted | OrumaApp/src/services/NotificationService.ts:72 | The day is not checked against the month: a stored 31 February is scheduled for 2/31. |
| Notifications.LeadingDashRejected | OrumaApp/src/services/NotificationService.ts:62-66 | A leading `-` before three parts gives four parts, and the birthday is skipped. |
| Notifications.NegativeYearNeverScheduled | OrumaApp/src/services/NotificationService.ts:62-66 | A birthday stored with a negative year is never scheduled. |
| Notifications.AlarmKey | OrumaApp/src/services/NotificationService.ts:77 | The identifier starts with "birthday-". |
| Notifications.AlarmKeyInjective | OrumaApp/src/services/NotificationService.ts:77 | Different contacts get different identifiers. |
| Notifications.ReminderBody | OrumaApp/src/services/NotificationService.ts:88 | The body is "It's ", the first name, a space, the last name and the closing reminder text, with each name empty when absent. |
| Notifications.AlarmFor | OrumaApp/src/services/NotificationService.ts:84-98 | The alarm carries the reminder title, the greeting, the contact's id as data, and the trigger. |
| Notifications.AfterSchedule | OrumaApp/src/services/NotificationService.ts:77-98 | A skipped birthday leaves the alarms unchanged. Otherwise the contact's identifier maps to its one alarm and no other identifier changes. |
| Notifications.ScheduleTwiceSameAsOnce | OrumaApp/src/services/NotificationService.ts:80-81 | Cancel-then-schedule makes scheduling a contact twice the same as once. |
| Notifications.NotificationCenter.constructor | OrumaApp/src/services/NotificationService.ts:79-98 | No alarm is scheduled at first. |
| Notifications.NotificationCenter.Cancel | OrumaApp/src/services/NotificationService.ts:81 | Cancelling removes that identifier, and only that one. |
| Notifications.NotificationCenter.Schedule | OrumaApp/src/services/NotificationService.ts:84-98 | Scheduling sets that identifier's alarm, and only that one. |
| Notifications.ScheduleBirthdayNotification | OrumaApp/src/services/NotificationService.ts:54-103 | The alarms after the call are `AfterSchedule` of those before. |
| Notifications.HasBirthday | OrumaApp/src/services/NotificationService.ts:124 | A contact the pass skips for lacking a birthday would not have been scheduled anyway. |
| Notifications.ScheduleAll | OrumaApp/src/services/NotificationService.ts:122-135 | A pass never removes an identifier. |
| Notifications.ScheduleAllEffect | OrumaApp/src/services/NotificationService.ts:122-135 | After a pass, each contact with a valid birthday has its alarm, and every other identifier is as before. |
| Notifications.ScheduleAllSameAt | OrumaApp/src/services/NotificationService.ts:116-135 | Two passes over the same contacts, in any order, agree on each identifier: it is present in both or in neither, with the same alarm. |
| Notifications.ScheduleAllOrderIrrelevant | OrumaApp/src/services/NotificationService.ts:116-135 | When ids determine rows, the order of the pass does not change the resulting alarms. |
| Notifications.DistinctIdsDetermineRows | OrumaApp/src/database/database.ts:63 | With distinct contact ids, rows with the same id are the same row. |
| Notifications.ScheduleEach | OrumaApp/src/services/NotificationService.ts:122-135 | The loop leaves `ScheduleAll` of the contacts and counts the contacts with a birthday, valid or not. |
| Notifications.ScheduleAllBirthdayNotifications | OrumaApp/src/services/NotificationService.ts:106-142 | Without permission nothing happens. A failed schema setup schedules nothing and leaves the categories as they were. Otherwise the categories are exactly the old ones plus the seeded defaults, with the counter advanced to match, so every default is present. With permission, the last insert rowid is what the schema setup leaves, on commit and on rollback alike. Every stored contact is scheduled, with the same result as in table order, and the count is the number of contacts with a birthday. Contacts are never changed. |

## Left out

- The host APIs are not called. Contacts permission, notification permission and the device snapshot are parameters. The host's scheduled notifications are the `NotificationCenter` map. `requestContactsPermission`, `fetchDeviceContacts`, `requestNotificationPermissions`, the notification handler and the Android channel setup are not part of this model.
- `CURRENT_TIMESTAMP` is a `now` parameter, the same for every row one call writes.
- Logging, `Alert` and `async`/`await` are not modelled. Calls run one after another with no interleaving.
- SQL text, the `orumaDb` export and the database file name are not modelled. Each statement is modelled by its effect on the tables.
- Storage faults are modelled only in the seeding loop of `initializeSchema`, as the index of the insert that fails, which rolls the transaction back. Every other statement either succeeds or is refused by a constraint. The `try`/`catch` blocks that turn other errors into `null`, `[]` or a log line are not modelled. That includes the catch around `getCategoryByName` in the sync, whose failure the model does not produce.
- Notification API failures (the catch at NotificationService.ts:100-102) are not modelled: cancel and schedule always succeed.
- `undefined` and `null` columns are both `None`.
- JavaScript numbers are unbounded integers. `parseInt` of a numeral beyond 2^53, fractional device birthday parts and `NaN` arithmetic are not modelled.
- Database.Store.AllCategories: states sorted order and a permutation, not which of several equal-key rows comes first, because SQL leaves that order unspecified. The same goes for AllContacts, ContactsByCategory, EventsForContact and NewsForContact.
- ContactSync.SyncContactsToDB: the number of new contacts is only logged by the source. The model returns it so that it can be stated.
- Notifications.ScheduleAllBirthdayNotifications: `scheduledCount` is only logged by the source. The model returns it.
- The unit tests mock the database driver. Where the mock and database.ts disagree (a duplicate category), the model follows database.ts: `addCategory` returns `null`.
