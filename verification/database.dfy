/**
 * The local record store: four tables (categories, contacts, contact_events,
 * contact_news) behind one database handle, with the schema's constraints as
 * the store's invariant and one method or function per exported accessor.
 *
 * The model assumes SQLite enforces the declared foreign keys (a contact's
 * category must exist, an event's or news item's contact must exist, and
 * deleting a contact cascades to its events and news).
 */
module Database {
  import opened Optional
  import opened Sequences
  import opened Text

  /** A CURRENT_TIMESTAMP reading; where it comes from is not modelled. */
  type Timestamp = string

  datatype Category = Category(id: int, name: string)

  datatype Contact = Contact(
    id: int,
    nativeId: Option<string>,
    firstName: Option<string>,
    lastName: Option<string>,
    phoneNumber: Option<string>,
    email: Option<string>,
    categoryId: Option<int>,
    birthday: Option<string>,
    foodPreferences: Option<string>,
    notes: Option<string>,
    createdAt: Timestamp,
    updatedAt: Timestamp)

  /** The columns a caller supplies when adding a contact. */
  datatype NewContact = NewContact(
    nativeId: Option<string>,
    firstName: Option<string>,
    lastName: Option<string>,
    phoneNumber: Option<string>,
    email: Option<string>,
    categoryId: Option<int>,
    birthday: Option<string>,
    foodPreferences: Option<string>,
    notes: Option<string>)

  /** One column of a partial update: left alone, or set to a new value. */
  datatype Change<T> = Keep | Set(value: T) {
    function Or(current: T): T {
      if Set? then value else current
    }
  }

  /** A partial contact update: the keys present in the object passed to updateContact. */
  datatype ContactPatch = ContactPatch(
    nativeId: Change<Option<string>>,
    firstName: Change<Option<string>>,
    lastName: Change<Option<string>>,
    phoneNumber: Change<Option<string>>,
    email: Change<Option<string>>,
    categoryId: Change<Option<int>>,
    birthday: Change<Option<string>>,
    foodPreferences: Change<Option<string>>,
    notes: Change<Option<string>>)
  {
    predicate IsEmpty() {
      && nativeId.Keep? && firstName.Keep? && lastName.Keep? && phoneNumber.Keep?
      && email.Keep? && categoryId.Keep? && birthday.Keep? && foodPreferences.Keep? && notes.Keep?
    }
  }

  datatype ContactEvent = ContactEvent(
    id: int,
    contactId: int,
    eventName: string,
    eventDate: Option<string>,
    description: Option<string>)

  datatype ContactNews = ContactNews(id: int, contactId: int, newsItem: string, dateRecorded: Timestamp)

  /** What a successful INSERT, UPDATE or DELETE reports. */
  datatype RunResult = RunResult(lastInsertRowId: int, changes: nat)

  /** How the schema-initialization transaction ended. */
  datatype Outcome = Committed | RolledBack

  const DefaultCategories: seq<string> :=
    ["Friends", "Family", "Work Colleagues", "Buddies / Casual Connections"]

  // ---------------------------------------------------------------------------
  // Rows
  // ---------------------------------------------------------------------------

  /** The row an INSERT of `c` creates; both timestamps take their DEFAULT. */
  function InsertedContact(id: int, c: NewContact, now: Timestamp): (row: Contact)
    ensures ColumnsOf(row) == c
    ensures row.id == id && row.createdAt == now && row.updatedAt == now
  {
    Contact(id, c.nativeId, c.firstName, c.lastName, c.phoneNumber, c.email,
            c.categoryId, c.birthday, c.foodPreferences, c.notes, now, now)
  }

  /** The caller-supplied columns of a stored contact. */
  function ColumnsOf(c: Contact): NewContact {
    NewContact(c.nativeId, c.firstName, c.lastName, c.phoneNumber, c.email,
               c.categoryId, c.birthday, c.foodPreferences, c.notes)
  }

  /** Whether a column was written as `change` says: set to its value, or left at `before`. */
  predicate Wrote<T(==)>(change: Change<T>, before: T, after: T) {
    after == (if change.Set? then change.value else before)
  }

  /**
   * The row after `UPDATE contacts SET <supplied columns>` and the trigger that
   * refreshes `updated_at`: supplied columns take their new value, the others
   * keep theirs, the id and creation time never change.
   */
  function Patched(c: Contact, p: ContactPatch, now: Timestamp): (r: Contact)
    ensures r.id == c.id && r.createdAt == c.createdAt && r.updatedAt == now
    ensures Wrote(p.nativeId, c.nativeId, r.nativeId) && Wrote(p.firstName, c.firstName, r.firstName)
    ensures Wrote(p.lastName, c.lastName, r.lastName) && Wrote(p.phoneNumber, c.phoneNumber, r.phoneNumber)
    ensures Wrote(p.email, c.email, r.email) && Wrote(p.categoryId, c.categoryId, r.categoryId)
    ensures Wrote(p.birthday, c.birthday, r.birthday) && Wrote(p.foodPreferences, c.foodPreferences, r.foodPreferences)
    ensures Wrote(p.notes, c.notes, r.notes)
  {
    c.(nativeId := p.nativeId.Or(c.nativeId),
       firstName := p.firstName.Or(c.firstName),
       lastName := p.lastName.Or(c.lastName),
       phoneNumber := p.phoneNumber.Or(c.phoneNumber),
       email := p.email.Or(c.email),
       categoryId := p.categoryId.Or(c.categoryId),
       birthday := p.birthday.Or(c.birthday),
       foodPreferences := p.foodPreferences.Or(c.foodPreferences),
       notes := p.notes.Or(c.notes),
       updatedAt := now)
  }

  /** `UPDATE ... WHERE id = ?`: the row with that id is patched, every other row is kept. */
  function UpdateRows(cs: seq<Contact>, id: int, p: ContactPatch, now: Timestamp): (r: seq<Contact>)
    ensures |r| == |cs|
    ensures forall i :: 0 <= i < |cs| ==> r[i] == if cs[i].id == id then Patched(cs[i], p, now) else cs[i]
  {
    seq(|cs|, i requires 0 <= i < |cs| => if cs[i].id == id then Patched(cs[i], p, now) else cs[i])
  }

  function CategoryIds(cs: seq<Category>): set<int> {
    set c | c in cs :: c.id
  }

  function ContactIds(cs: seq<Contact>): set<int> {
    set c | c in cs :: c.id
  }

  function NativeIds(cs: seq<Contact>): set<string> {
    set c | c in cs && c.nativeId.Some? :: c.nativeId.value
  }

  predicate NamedIn(cs: seq<Category>, name: string) {
    exists c :: c in cs && c.name == name
  }

  ghost predicate DefaultsPresent(cs: seq<Category>) {
    forall n :: n in DefaultCategories ==> NamedIn(cs, n)
  }

  // Row selectors, one per WHERE clause.

  function CategoryWithId(id: int): Category -> bool { (c: Category) => c.id == id }
  function CategoryNamed(name: string): Category -> bool { (c: Category) => c.name == name }
  function ContactWithId(id: int): Contact -> bool { (c: Contact) => c.id == id }
  function ContactNot(id: int): Contact -> bool { (c: Contact) => c.id != id }
  function ContactWithNativeId(nativeId: string): Contact -> bool { (c: Contact) => c.nativeId == Some(nativeId) }
  function InCategory(categoryId: int): Contact -> bool { (c: Contact) => c.categoryId == Some(categoryId) }
  function EventOf(contactId: int): ContactEvent -> bool { (e: ContactEvent) => e.contactId == contactId }
  function EventNotOf(contactId: int): ContactEvent -> bool { (e: ContactEvent) => e.contactId != contactId }
  function NewsOf(contactId: int): ContactNews -> bool { (n: ContactNews) => n.contactId == contactId }
  function NewsNotOf(contactId: int): ContactNews -> bool { (n: ContactNews) => n.contactId != contactId }

  // ---------------------------------------------------------------------------
  // Orderings (ORDER BY clauses); NULL sorts before every text value
  // ---------------------------------------------------------------------------

  predicate NullableLe(a: Option<string>, b: Option<string>) {
    a.None? || (b.Some? && TextLe(a.value, b.value))
  }

  predicate NullableLt(a: Option<string>, b: Option<string>) {
    NullableLe(a, b) && a != b
  }

  /** ORDER BY name */
  predicate CategoryBefore(a: Category, b: Category) {
    TextLe(a.name, b.name)
  }

  /** ORDER BY last_name, first_name */
  predicate ContactBefore(a: Contact, b: Contact) {
    NullableLt(a.lastName, b.lastName) || (a.lastName == b.lastName && NullableLe(a.firstName, b.firstName))
  }

  /** ORDER BY event_date DESC, id DESC (in descending order NULL comes last) */
  predicate EventBefore(a: ContactEvent, b: ContactEvent) {
    NullableLt(b.eventDate, a.eventDate) || (a.eventDate == b.eventDate && a.id >= b.id)
  }

  /** ORDER BY date_recorded DESC, id DESC */
  predicate NewsBefore(a: ContactNews, b: ContactNews) {
    TextLt(b.dateRecorded, a.dateRecorded) || (a.dateRecorded == b.dateRecorded && a.id >= b.id)
  }

  lemma NullableLeFacts(a: Option<string>, b: Option<string>, c: Option<string>)
    ensures NullableLe(a, b) || NullableLe(b, a)
    ensures NullableLe(a, b) && NullableLe(b, a) ==> a == b
    ensures NullableLe(a, b) && NullableLe(b, c) ==> NullableLe(a, c)
  {
    if a.Some? && b.Some? {
      TextLeTotal(a.value, b.value);
      if TextLe(a.value, b.value) && TextLe(b.value, a.value) {
        TextLeAntisymmetric(a.value, b.value);
      }
    }
    if a.Some? && b.Some? && c.Some? && TextLe(a.value, b.value) && TextLe(b.value, c.value) {
      TextLeTransitive(a.value, b.value, c.value);
    }
  }

  lemma CategoryOrderIsTotal()
    ensures TotalPreorder(CategoryBefore)
  {
    forall a: Category, b: Category ensures CategoryBefore(a, b) || CategoryBefore(b, a) {
      TextLeTotal(a.name, b.name);
    }
    forall a: Category, b: Category, c: Category | CategoryBefore(a, b) && CategoryBefore(b, c)
      ensures CategoryBefore(a, c)
    {
      TextLeTransitive(a.name, b.name, c.name);
    }
  }

  lemma ContactOrderIsTotal()
    ensures TotalPreorder(ContactBefore)
  {
    forall a: Contact, b: Contact ensures ContactBefore(a, b) || ContactBefore(b, a) {
      NullableLeFacts(a.lastName, b.lastName, a.lastName);
      NullableLeFacts(a.firstName, b.firstName, a.firstName);
    }
    forall a: Contact, b: Contact, c: Contact | ContactBefore(a, b) && ContactBefore(b, c)
      ensures ContactBefore(a, c)
    {
      NullableLeFacts(a.lastName, b.lastName, c.lastName);
      NullableLeFacts(a.firstName, b.firstName, c.firstName);
      NullableLeFacts(b.lastName, a.lastName, c.lastName);
    }
  }

  lemma EventOrderIsTotal()
    ensures TotalPreorder(EventBefore)
  {
    forall a: ContactEvent, b: ContactEvent ensures EventBefore(a, b) || EventBefore(b, a) {
      NullableLeFacts(a.eventDate, b.eventDate, a.eventDate);
    }
    forall a: ContactEvent, b: ContactEvent, c: ContactEvent | EventBefore(a, b) && EventBefore(b, c)
      ensures EventBefore(a, c)
    {
      NullableLeFacts(c.eventDate, b.eventDate, a.eventDate);
      NullableLeFacts(b.eventDate, c.eventDate, a.eventDate);
    }
  }

  lemma NewsOrderIsTotal()
    ensures TotalPreorder(NewsBefore)
  {
    forall a: ContactNews, b: ContactNews ensures NewsBefore(a, b) || NewsBefore(b, a) {
      NullableLeFacts(Some(a.dateRecorded), Some(b.dateRecorded), Some(a.dateRecorded));
    }
    forall a: ContactNews, b: ContactNews, c: ContactNews | NewsBefore(a, b) && NewsBefore(b, c)
      ensures NewsBefore(a, c)
    {
      NullableLeFacts(Some(c.dateRecorded), Some(b.dateRecorded), Some(a.dateRecorded));
      NullableLeFacts(Some(b.dateRecorded), Some(c.dateRecorded), Some(a.dateRecorded));
    }
  }

  // ---------------------------------------------------------------------------
  // Table constraints
  // ---------------------------------------------------------------------------

  predicate CategoryIdLess(a: Category, b: Category) { a.id < b.id }
  predicate NamesDiffer(a: Category, b: Category) { a.name != b.name }
  predicate ContactIdLess(a: Contact, b: Contact) { a.id < b.id }
  predicate NativeIdsDiffer(a: Contact, b: Contact) { a.nativeId.None? || a.nativeId != b.nativeId }
  predicate EventIdLess(a: ContactEvent, b: ContactEvent) { a.id < b.id }
  predicate NewsIdLess(a: ContactNews, b: ContactNews) { a.id < b.id }

  /** AUTOINCREMENT ids below the next one to hand out, in insertion order; UNIQUE name. */
  ghost predicate CategoryTableOk(cs: seq<Category>, nextId: int) {
    && 0 < nextId
    && (forall c :: c in cs ==> 0 < c.id < nextId)
    && Pairwise(cs, CategoryIdLess)
    && Pairwise(cs, NamesDiffer)
  }

  /** AUTOINCREMENT ids; UNIQUE native_id (NULLs may repeat); category_id references a category. */
  ghost predicate ContactTableOk(cs: seq<Contact>, nextId: int, categoryIds: set<int>) {
    && 0 < nextId
    && (forall c :: c in cs ==> 0 < c.id < nextId)
    && (forall c :: c in cs && c.categoryId.Some? ==> c.categoryId.value in categoryIds)
    && Pairwise(cs, ContactIdLess)
    && Pairwise(cs, NativeIdsDiffer)
  }

  /** AUTOINCREMENT ids; contact_id references a contact. */
  ghost predicate EventTableOk(es: seq<ContactEvent>, nextId: int, contactIds: set<int>) {
    && 0 < nextId
    && (forall e :: e in es ==> 0 < e.id < nextId && e.contactId in contactIds)
    && Pairwise(es, EventIdLess)
  }

  ghost predicate NewsTableOk(ns: seq<ContactNews>, nextId: int, contactIds: set<int>) {
    && 0 < nextId
    && (forall n :: n in ns ==> 0 < n.id < nextId && n.contactId in contactIds)
    && Pairwise(ns, NewsIdLess)
  }

  /** The schema's constraints over the whole database. */
  ghost predicate TablesOk(
    hasSchema: bool, cats: seq<Category>, cs: seq<Contact>, es: seq<ContactEvent>, ns: seq<ContactNews>,
    nextCategory: int, nextContact: int, nextEvent: int, nextNews: int)
  {
    && (!hasSchema ==> cats == [] && cs == [] && es == [] && ns == [])
    && CategoryTableOk(cats, nextCategory)
    && ContactTableOk(cs, nextContact, CategoryIds(cats))
    && EventTableOk(es, nextEvent, ContactIds(cs))
    && NewsTableOk(ns, nextNews, ContactIds(cs))
  }

  /**
   * The rows that seeding the first `i` default categories appends to a
   * category table `start` whose AUTOINCREMENT counter stood at `next`: one
   * row per default name the table did not already hold, numbered on from
   * `next`, in the order of the defaults.
   */
  ghost function SeedRows(start: seq<Category>, next: int, i: nat): seq<Category>
    requires i <= |DefaultCategories|
  {
    if i == 0 then []
    else
      var rows := SeedRows(start, next, i - 1);
      if NamedIn(start, DefaultCategories[i - 1]) then rows
      else rows + [Category(next + |rows|, DefaultCategories[i - 1])]
  }

  /** Every seeded row carries one of the default names seeded so far. */
  lemma {:induction false} SeedRowsNamed(start: seq<Category>, next: int, i: nat)
    requires i <= |DefaultCategories|
    ensures forall c :: c in SeedRows(start, next, i) ==> c.name in DefaultCategories[..i]
  {
    if i > 0 {
      SeedRowsNamed(start, next, i - 1);
      assert DefaultCategories[..i] == DefaultCategories[..i - 1] + [DefaultCategories[i - 1]];
    }
  }

  /** After seeding the first `i` defaults, each of them is present. */
  lemma {:induction false} SeedRowsCover(start: seq<Category>, next: int, i: nat)
    requires i <= |DefaultCategories|
    ensures forall k :: 0 <= k < i ==> NamedIn(start + SeedRows(start, next, i), DefaultCategories[k])
  {
    if i > 0 {
      SeedRowsCover(start, next, i - 1);
      var before, after := start + SeedRows(start, next, i - 1), start + SeedRows(start, next, i);
      assert before <= after;
      forall k | 0 <= k < i
        ensures NamedIn(after, DefaultCategories[k])
      {
        if k < i - 1 {
          var c :| c in before && c.name == DefaultCategories[k];
          var j :| 0 <= j < |before| && before[j] == c;
          assert after[j] == c;
        } else if NamedIn(start, DefaultCategories[k]) {
          var c :| c in start && c.name == DefaultCategories[k];
          var j :| 0 <= j < |start| && start[j] == c;
          assert after[j] == c;
        } else {
          assert after[|after| - 1].name == DefaultCategories[k];
        }
      }
    }
  }

  /** Seeding a table that already holds every default name appends nothing. */
  lemma {:induction false} NothingToSeed(start: seq<Category>, next: int, i: nat)
    requires i <= |DefaultCategories| && DefaultsPresent(start)
    ensures SeedRows(start, next, i) == []
  {
    if i > 0 {
      NothingToSeed(start, next, i - 1);
      assert DefaultCategories[i - 1] in DefaultCategories;
    }
  }

  /** The last insert rowid after `n` inserts starting at id `next`, or `last` if there were none. */
  function SeedLastId(next: int, last: int, n: nat): int {
    if n == 0 then last else next + n - 1
  }

  /**
   * The last insert rowid initializeSchema leaves behind over a category table
   * `cats` whose counter and last rowid stood at `next` and `last`: the id of
   * the last default it inserted before the failing insert `fault` (or before
   * the end), or `last` if it inserted none. Rolling back does not restore it.
   */
  ghost function SchemaLastId(cats: seq<Category>, next: int, last: int, fault: Option<nat>): int {
    var tried := if fault.Some? && fault.value < |DefaultCategories| then fault.value else |DefaultCategories|;
    SeedLastId(next, last, |SeedRows(cats, next, tried)|)
  }

  /**
   * The category table after initializeSchema commits over `before`, whose
   * AUTOINCREMENT counter stood at `beforeNext`: the schema exists, every
   * default name is present, and exactly the seeded rows were appended, each
   * with a default name.
   */
  ghost predicate SchemaCommitted(
    before: seq<Category>, beforeNext: int, hasSchema: bool, after: seq<Category>, afterNext: int)
  {
    var rows := SeedRows(before, beforeNext, |DefaultCategories|);
    && hasSchema
    && DefaultsPresent(after)
    && after == before + rows
    && afterNext == beforeNext + |rows|
    && (forall c :: c in rows ==> c.name in DefaultCategories)
  }

  /**
   * While seeding, default `i` is present in the table exactly when it was
   * present before seeding began: the rows added so far carry earlier,
   * different default names.
   */
  lemma DefaultNotYetSeeded(start: seq<Category>, cs: seq<Category>, i: nat)
    requires i < |DefaultCategories| && start <= cs
    requires forall c :: c in cs[|start|..] ==> c.name in DefaultCategories[..i]
    ensures NamedIn(cs, DefaultCategories[i]) <==> NamedIn(start, DefaultCategories[i])
  {
    var name := DefaultCategories[i];
    assert name !in DefaultCategories[..i];
    if NamedIn(start, name) {
      var c :| c in start && c.name == name;
      var k :| 0 <= k < |start| && start[k] == c;
      assert cs[k] == c;
    }
  }

  // ---------------------------------------------------------------------------
  // The store
  // ---------------------------------------------------------------------------

  class Store {
    /** Whether the tables and the trigger exist (initializeSchema has committed once). */
    var hasSchema: bool
    /** Each table in rowid order. */
    var categories: seq<Category>
    var contacts: seq<Contact>
    var events: seq<ContactEvent>
    var news: seq<ContactNews>
    /** The id AUTOINCREMENT hands out next, per table. */
    var nextCategoryId: int
    var nextContactId: int
    var nextEventId: int
    var nextNewsId: int
    /** The connection's last_insert_rowid(). */
    var lastInsertRowId: int

    ghost predicate Valid()
      reads this
    {
      TablesOk(hasSchema, categories, contacts, events, news, nextCategoryId, nextContactId, nextEventId, nextNewsId)
    }

    /** A freshly opened, empty database file. */
    constructor ()
      ensures Valid() && !hasSchema && lastInsertRowId == 0
      ensures categories == [] && contacts == [] && events == [] && news == []
      ensures nextCategoryId == 1 && nextContactId == 1 && nextEventId == 1 && nextNewsId == 1
    {
      hasSchema := false;
      categories, contacts, events, news := [], [], [], [];
      nextCategoryId, nextContactId, nextEventId, nextNewsId := 1, 1, 1, 1;
      lastInsertRowId := 0;
    }

    // ----- Categories -----

    /**
     * Creates the tables and trigger if absent, then inserts each default
     * category inside one transaction, treating a UNIQUE violation as "already
     * there". `fault` is the index of a default-category insert that fails for
     * any other reason (a storage error); that failure rolls everything back.
     */
    method InitializeSchema(fault: Option<nat>) returns (outcome: Outcome)
      requires Valid()
      modifies this`hasSchema, this`categories, this`nextCategoryId, this`lastInsertRowId
      ensures Valid()
      ensures contacts == old(contacts) && nextContactId == old(nextContactId) && events == old(events) && news == old(news)
      ensures outcome.RolledBack? <==> fault.Some? && fault.value < |DefaultCategories|
      ensures outcome.RolledBack? ==>
        hasSchema == old(hasSchema) && categories == old(categories) && nextCategoryId == old(nextCategoryId)
      ensures outcome.Committed? ==>
        SchemaCommitted(old(categories), old(nextCategoryId), hasSchema, categories, nextCategoryId)
      ensures outcome.Committed? ==>
        forall n :: n in DefaultCategories ==> |Filter(categories, CategoryNamed(n))| == 1
      ensures lastInsertRowId == SchemaLastId(old(categories), old(nextCategoryId), old(lastInsertRowId), fault)
      ensures outcome.Committed? && old(DefaultsPresent(categories)) ==>
        categories == old(categories) && nextCategoryId == old(nextCategoryId) && lastInsertRowId == old(lastInsertRowId)
    {
      var savedSchema, savedCategories, savedNext := hasSchema, categories, nextCategoryId;
      hasSchema := true;
      var seeded := SeedDefaults(fault);
      if seeded < |DefaultCategories| {
        // ROLLBACK undoes the rows and the AUTOINCREMENT counter, but not
        // the connection's last insert rowid.
        hasSchema, categories, nextCategoryId := savedSchema, savedCategories, savedNext;
        assert Valid();
        return RolledBack;
      }
      ghost var rows := SeedRows(old(categories), old(nextCategoryId), |DefaultCategories|);
      SeedRowsNamed(old(categories), old(nextCategoryId), |DefaultCategories|);
      SeedRowsCover(old(categories), old(nextCategoryId), |DefaultCategories|);
      assert categories[|old(categories)|..] == rows;
      assert DefaultCategories[..|DefaultCategories|] == DefaultCategories;
      SeededUnique();
      if old(DefaultsPresent(categories)) {
        NothingToSeed(old(categories), old(nextCategoryId), |DefaultCategories|);
      }
      return Committed;
    }

    /**
     * The seeding loop inside the transaction: default categories are inserted
     * in order until `fault` names the insert that fails, if any.
     */
    method SeedDefaults(fault: Option<nat>) returns (seeded: nat)
      requires Valid() && hasSchema
      modifies this`categories, this`nextCategoryId, this`lastInsertRowId
      ensures Valid()
      ensures seeded == if fault.Some? && fault.value < |DefaultCategories| then fault.value else |DefaultCategories|
      ensures Seeded(old(categories), old(nextCategoryId), old(lastInsertRowId), seeded)
    {
      seeded := 0;
      while seeded < |DefaultCategories| && fault != Some(seeded)
        invariant seeded <= |DefaultCategories| && Valid()
        invariant fault.None? || fault.value >= seeded
        invariant Seeded(old(categories), old(nextCategoryId), old(lastInsertRowId), seeded)
      {
        SeedDefault(seeded, old(categories), old(nextCategoryId), old(lastInsertRowId));
        seeded := seeded + 1;
      }
    }

    /**
     * The table, the id counter and the last insert rowid after seeding the
     * first `i` defaults into `start`, whose counter and last rowid were
     * `startNext` and `startLast`.
     */
    ghost predicate Seeded(start: seq<Category>, startNext: int, startLast: int, i: nat)
      requires i <= |DefaultCategories|
      reads this
    {
      var rows := SeedRows(start, startNext, i);
      && categories == start + rows
      && nextCategoryId == startNext + |rows|
      && lastInsertRowId == SeedLastId(startNext, startLast, |rows|)
    }

    /**
     * One turn of the seeding loop: insert default category `i`, swallowing a
     * UNIQUE refusal. Whether the name is already there is decided by the
     * table as it was before seeding began.
     */
    method SeedDefault(i: nat, ghost start: seq<Category>, ghost startNext: int, ghost startLast: int)
      requires Valid() && hasSchema && i < |DefaultCategories| && Seeded(start, startNext, startLast, i)
      modifies this`categories, this`nextCategoryId, this`lastInsertRowId
      ensures Valid() && Seeded(start, startNext, startLast, i + 1)
      ensures NamedIn(old(categories), DefaultCategories[i]) ==>
        categories == old(categories) && nextCategoryId == old(nextCategoryId) && lastInsertRowId == old(lastInsertRowId)
      ensures !NamedIn(old(categories), DefaultCategories[i]) ==>
        && categories == old(categories) + [Category(old(nextCategoryId), DefaultCategories[i])]
        && nextCategoryId == old(nextCategoryId) + 1
        && lastInsertRowId == old(nextCategoryId)
    {
      SeedRowsNamed(start, startNext, i);
      assert categories[|start|..] == SeedRows(start, startNext, i);
      DefaultNotYetSeeded(start, categories, i);
      var _ := AddCategory(DefaultCategories[i]);
    }

    /** After seeding, each default name is held by exactly one row. */
    lemma SeededUnique()
      requires Valid() && forall k :: 0 <= k < |DefaultCategories| ==> NamedIn(categories, DefaultCategories[k])
      ensures DefaultsPresent(categories)
      ensures forall n :: n in DefaultCategories ==> |Filter(categories, CategoryNamed(n))| == 1
    {
      forall n | n in DefaultCategories
        ensures NamedIn(categories, n) && |Filter(categories, CategoryNamed(n))| == 1
      {
        var k :| 0 <= k < |DefaultCategories| && DefaultCategories[k] == n;
        UniqueNameCount(categories, n);
      }
    }

    /** INSERT INTO categories; a name already present (or a missing table) gives null. */
    method AddCategory(name: string) returns (r: Option<RunResult>)
      requires Valid()
      modifies this`categories, this`nextCategoryId, this`lastInsertRowId
      ensures Valid()
      ensures r.None? <==> !hasSchema || NamedIn(old(categories), name)
      ensures r.None? ==>
        categories == old(categories) && nextCategoryId == old(nextCategoryId) && lastInsertRowId == old(lastInsertRowId)
      ensures r.Some? ==>
        && categories == old(categories) + [Category(old(nextCategoryId), name)]
        && nextCategoryId == old(nextCategoryId) + 1
        && lastInsertRowId == old(nextCategoryId)
        && r.value == RunResult(old(nextCategoryId), 1)
    {
      if !hasSchema || NamedIn(categories, name) {
        return None;
      }
      var row := Category(nextCategoryId, name);
      PairwiseAppend(categories, row, CategoryIdLess);
      PairwiseAppend(categories, row, NamesDiffer);
      categories := categories + [row];
      assert CategoryIds(categories) == CategoryIds(old(categories)) + {row.id};
      ReferencesWiden(contacts, events, news, nextContactId, nextEventId, nextNewsId,
        CategoryIds(old(categories)), CategoryIds(categories), ContactIds(contacts), ContactIds(contacts));
      nextCategoryId := nextCategoryId + 1;
      lastInsertRowId := row.id;
      r := Some(RunResult(row.id, 1));
    }

    /** SELECT * FROM categories WHERE id = ? */
    function CategoryById(id: int): (r: Option<Category>)
      reads this
      ensures r.Some? <==> hasSchema && id in CategoryIds(categories)
      ensures r.Some? ==> r.value in categories && r.value.id == id
    {
      if hasSchema then FirstWhere(categories, CategoryWithId(id)) else None
    }

    /** SELECT * FROM categories WHERE name = ? */
    function CategoryByName(name: string): (r: Option<Category>)
      reads this
      ensures r.Some? <==> hasSchema && NamedIn(categories, name)
      ensures r.Some? ==> r.value in categories && r.value.name == name
    {
      if hasSchema then FirstWhere(categories, CategoryNamed(name)) else None
    }

    /** SELECT * FROM categories ORDER BY name */
    function AllCategories(): (r: seq<Category>)
      reads this
      ensures multiset(r) == multiset(if hasSchema then categories else [])
      ensures Pairwise(r, CategoryBefore)
    {
      if hasSchema then
        CategoryOrderIsTotal();
        SortBySorted(categories, CategoryBefore);
        SortBy(categories, CategoryBefore)
      else []
    }

    // ----- Contacts -----

    /**
     * INSERT INTO contacts; refused (null) when the tables are missing, when
     * the native id is already stored (UNIQUE), or when the category does not
     * exist (foreign key).
     */
    method AddContact(row: NewContact, now: Timestamp) returns (r: Option<RunResult>)
      requires Valid()
      modifies this`contacts, this`nextContactId, this`lastInsertRowId
      ensures Valid()
      ensures r.None? <==>
        || !hasSchema
        || (row.nativeId.Some? && row.nativeId.value in NativeIds(old(contacts)))
        || (row.categoryId.Some? && row.categoryId.value !in CategoryIds(categories))
      ensures r.None? ==>
        contacts == old(contacts) && nextContactId == old(nextContactId) && lastInsertRowId == old(lastInsertRowId)
      ensures r.Some? ==>
        && contacts == old(contacts) + [InsertedContact(old(nextContactId), row, now)]
        && nextContactId == old(nextContactId) + 1
        && lastInsertRowId == old(nextContactId)
        && r.value == RunResult(old(nextContactId), 1)
    {
      if || !hasSchema
         || (row.nativeId.Some? && row.nativeId.value in NativeIds(contacts))
         || (row.categoryId.Some? && row.categoryId.value !in CategoryIds(categories))
      {
        return None;
      }
      var c := InsertedContact(nextContactId, row, now);
      ContactAppendOk(categories, contacts, events, news, nextCategoryId, nextContactId, nextEventId, nextNewsId, c);
      contacts := contacts + [c];
      nextContactId := nextContactId + 1;
      lastInsertRowId := c.id;
      r := Some(RunResult(c.id, 1));
    }

    /** Whether `UPDATE contacts SET ... WHERE id = ?` would break UNIQUE(native_id) or the category foreign key. */
    predicate UpdateRejected(id: int, p: ContactPatch)
      reads this
      ensures UpdateRejected(id, p) ==>
        (p.nativeId.Set? && p.nativeId.value.Some?) || (p.categoryId.Set? && p.categoryId.value.Some?)
    {
      || (p.nativeId.Set? && p.nativeId.value.Some? && NativeIdTaken(contacts, id, p.nativeId.value.value))
      || (p.categoryId.Set? && p.categoryId.value.Some? && p.categoryId.value.value !in CategoryIds(categories))
    }

    /**
     * updateContact(id, fields): with no field supplied it returns null and
     * issues no query; otherwise it writes the supplied columns of row `id`,
     * the trigger refreshes `updated_at`, and no other row changes.
     */
    method UpdateContact(id: int, patch: ContactPatch, now: Timestamp) returns (r: Option<RunResult>)
      requires Valid()
      modifies this`contacts
      ensures Valid()
      ensures patch.IsEmpty() || !hasSchema ==> r.None? && contacts == old(contacts)
      ensures !patch.IsEmpty() && hasSchema && id !in ContactIds(old(contacts)) ==>
        r == Some(RunResult(lastInsertRowId, 0)) && contacts == old(contacts)
      ensures !patch.IsEmpty() && hasSchema && id in ContactIds(old(contacts)) ==>
        if old(UpdateRejected(id, patch)) then r.None? && contacts == old(contacts)
        else r == Some(RunResult(lastInsertRowId, 1)) && contacts == UpdateRows(old(contacts), id, patch, now)
    {
      if patch.IsEmpty() || !hasSchema {
        return None;
      }
      if id !in ContactIds(contacts) {
        return Some(RunResult(lastInsertRowId, 0));
      }
      if UpdateRejected(id, patch) {
        return None;
      }
      var updated := UpdateRows(contacts, id, patch, now);
      UpdateKeepsConstraints(contacts, id, patch, now, nextContactId, CategoryIds(categories));
      contacts := updated;
      r := Some(RunResult(lastInsertRowId, 1));
    }

    /** SELECT * FROM contacts WHERE id = ? */
    function ContactById(id: int): (r: Option<Contact>)
      reads this
      ensures r.Some? <==> hasSchema && id in ContactIds(contacts)
      ensures r.Some? ==> r.value in contacts && r.value.id == id
    {
      if hasSchema then FirstWhere(contacts, ContactWithId(id)) else None
    }

    /** SELECT * FROM contacts WHERE native_id = ? */
    function ContactByNativeId(nativeId: string): (r: Option<Contact>)
      reads this
      ensures r.Some? <==> hasSchema && nativeId in NativeIds(contacts)
      ensures r.Some? ==> r.value in contacts && r.value.nativeId == Some(nativeId)
    {
      if hasSchema then FirstWhere(contacts, ContactWithNativeId(nativeId)) else None
    }

    /** SELECT * FROM contacts ORDER BY last_name, first_name */
    function AllContacts(): (r: seq<Contact>)
      reads this
      ensures multiset(r) == multiset(if hasSchema then contacts else [])
      ensures Pairwise(r, ContactBefore)
    {
      if hasSchema then
        ContactOrderIsTotal();
        SortBySorted(contacts, ContactBefore);
        SortBy(contacts, ContactBefore)
      else []
    }

    /** SELECT * FROM contacts WHERE category_id = ? ORDER BY last_name, first_name */
    function ContactsByCategory(categoryId: int): (r: seq<Contact>)
      reads this
      ensures forall c :: c in r <==> hasSchema && c in contacts && c.categoryId == Some(categoryId)
      ensures multiset(r) == multiset(if hasSchema then Filter(contacts, InCategory(categoryId)) else [])
      ensures Pairwise(r, ContactBefore)
    {
      if hasSchema then
        ContactOrderIsTotal();
        var rows := Filter(contacts, InCategory(categoryId));
        SortBySorted(rows, ContactBefore);
        SameMembers(SortBy(rows, ContactBefore), rows);
        SortBy(rows, ContactBefore)
      else []
    }

    /**
     * The category query lists exactly the rows of the full listing that are
     * in the category, in the same order.
     */
    lemma ContactsByCategoryIsFilteredAll(categoryId: int)
      ensures ContactsByCategory(categoryId) == Filter(AllContacts(), InCategory(categoryId))
    {
      if hasSchema {
        ContactOrderIsTotal();
        FilterSortCommute(contacts, InCategory(categoryId), ContactBefore);
      }
    }

    /**
     * DELETE FROM contacts WHERE id = ?, with ON DELETE CASCADE removing the
     * contact's events and news; nothing else changes.
     */
    method DeleteContact(id: int) returns (r: Option<RunResult>)
      requires Valid()
      modifies this`contacts, this`events, this`news
      ensures Valid()
      ensures !hasSchema ==> r.None? && contacts == old(contacts) && events == old(events) && news == old(news)
      ensures hasSchema ==>
        && contacts == Filter(old(contacts), ContactNot(id))
        && events == Filter(old(events), EventNotOf(id))
        && news == Filter(old(news), NewsNotOf(id))
        && r == Some(RunResult(lastInsertRowId, if id in ContactIds(old(contacts)) then 1 else 0))
    {
      if !hasSchema {
        return None;
      }
      var remaining := Filter(contacts, ContactNot(id));
      var remainingEvents := Filter(events, EventNotOf(id));
      var remainingNews := Filter(news, NewsNotOf(id));
      DeleteKeepsConstraints(categories, contacts, events, news, id, nextCategoryId, nextContactId, nextEventId, nextNewsId);
      RemovedCount(contacts, id);
      var removed := |contacts| - |remaining|;
      contacts, events, news := remaining, remainingEvents, remainingNews;
      r := Some(RunResult(lastInsertRowId, removed));
    }

    // ----- Contact events -----

    /** SELECT * FROM contact_events WHERE contact_id = ? ORDER BY event_date DESC, id DESC */
    function EventsForContact(contactId: int): (r: seq<ContactEvent>)
      reads this
      ensures forall e :: e in r <==> hasSchema && e in events && e.contactId == contactId
      ensures multiset(r) == multiset(if hasSchema then Filter(events, EventOf(contactId)) else [])
      ensures Pairwise(r, EventBefore)
    {
      if hasSchema then
        EventOrderIsTotal();
        var rows := Filter(events, EventOf(contactId));
        SortBySorted(rows, EventBefore);
        SameMembers(SortBy(rows, EventBefore), rows);
        SortBy(rows, EventBefore)
      else []
    }

    /**
     * INSERT INTO contact_events; an absent or empty date or description is
     * stored as NULL. Refused when the contact does not exist (foreign key).
     */
    method AddEventForContact(contactId: int, eventName: string, eventDate: Option<string>, description: Option<string>)
      returns (r: Option<RunResult>)
      requires Valid()
      modifies this`events, this`nextEventId, this`lastInsertRowId
      ensures Valid()
      ensures r.None? <==> !hasSchema || contactId !in ContactIds(contacts)
      ensures r.None? ==>
        events == old(events) && nextEventId == old(nextEventId) && lastInsertRowId == old(lastInsertRowId)
      ensures r.Some? ==>
        && events == old(events) + [ContactEvent(old(nextEventId), contactId, eventName, NullIfEmpty(eventDate), NullIfEmpty(description))]
        && nextEventId == old(nextEventId) + 1
        && lastInsertRowId == old(nextEventId)
        && r.value == RunResult(old(nextEventId), 1)
    {
      if !hasSchema || contactId !in ContactIds(contacts) {
        return None;
      }
      var e := ContactEvent(nextEventId, contactId, eventName, NullIfEmpty(eventDate), NullIfEmpty(description));
      PairwiseAppend(events, e, EventIdLess);
      events := events + [e];
      nextEventId := nextEventId + 1;
      lastInsertRowId := e.id;
      r := Some(RunResult(e.id, 1));
    }

    // ----- Contact news -----

    /** SELECT * FROM contact_news WHERE contact_id = ? ORDER BY date_recorded DESC, id DESC */
    function NewsForContact(contactId: int): (r: seq<ContactNews>)
      reads this
      ensures forall n :: n in r <==> hasSchema && n in news && n.contactId == contactId
      ensures multiset(r) == multiset(if hasSchema then Filter(news, NewsOf(contactId)) else [])
      ensures Pairwise(r, NewsBefore)
    {
      if hasSchema then
        NewsOrderIsTotal();
        var rows := Filter(news, NewsOf(contactId));
        SortBySorted(rows, NewsBefore);
        SameMembers(SortBy(rows, NewsBefore), rows);
        SortBy(rows, NewsBefore)
      else []
    }

    /** INSERT INTO contact_news; `date_recorded` takes its DEFAULT. Refused for an unknown contact. */
    method AddNewsForContact(contactId: int, newsItem: string, now: Timestamp) returns (r: Option<RunResult>)
      requires Valid()
      modifies this`news, this`nextNewsId, this`lastInsertRowId
      ensures Valid()
      ensures r.None? <==> !hasSchema || contactId !in ContactIds(contacts)
      ensures r.None? ==>
        news == old(news) && nextNewsId == old(nextNewsId) && lastInsertRowId == old(lastInsertRowId)
      ensures r.Some? ==>
        && news == old(news) + [ContactNews(old(nextNewsId), contactId, newsItem, now)]
        && nextNewsId == old(nextNewsId) + 1
        && lastInsertRowId == old(nextNewsId)
        && r.value == RunResult(old(nextNewsId), 1)
    {
      if !hasSchema || contactId !in ContactIds(contacts) {
        return None;
      }
      var n := ContactNews(nextNewsId, contactId, newsItem, now);
      PairwiseAppend(news, n, NewsIdLess);
      news := news + [n];
      nextNewsId := nextNewsId + 1;
      lastInsertRowId := n.id;
      r := Some(RunResult(n.id, 1));
    }
  }

  // ---------------------------------------------------------------------------
  // Lemmas behind the store's contracts
  // ---------------------------------------------------------------------------

  /** Under UNIQUE(name), a name that is present is present exactly once. */
  lemma {:induction false} UniqueNameCount(cs: seq<Category>, name: string)
    requires Pairwise(cs, NamesDiffer)
    requires NamedIn(cs, name)
    ensures |Filter(cs, CategoryNamed(name))| == 1
  {
    if cs[0].name == name {
      forall c | c in cs[1..] ensures c.name != name {
        var k :| 0 <= k < |cs[1..]| && cs[1..][k] == c;
        assert NamesDiffer(cs[0], cs[k + 1]);
      }
      FilterNone(cs[1..], CategoryNamed(name));
    } else {
      var c :| c in cs && c.name == name;
      assert c in cs[1..];
      assert Pairwise(cs[1..], NamesDiffer);
      UniqueNameCount(cs[1..], name);
    }
  }

  /** Deleting by id removes one row when the id is stored and none otherwise. */
  lemma {:induction false} RemovedCount(cs: seq<Contact>, id: int)
    requires Pairwise(cs, ContactIdLess)
    ensures |Filter(cs, ContactNot(id))| == |cs| - (if id in ContactIds(cs) then 1 else 0)
  {
    if cs != [] {
      assert Pairwise(cs[1..], ContactIdLess);
      RemovedCount(cs[1..], id);
      if cs[0].id == id {
        assert cs[0] in cs;
        assert id !in ContactIds(cs[1..]) by {
          forall c | c in cs[1..] ensures c.id != id {
            var k :| 0 <= k < |cs[1..]| && cs[1..][k] == c;
            assert ContactIdLess(cs[0], cs[k + 1]);
          }
        }
      } else {
        if id in ContactIds(cs) {
          var c :| c in cs && c.id == id;
          var k :| 0 <= k < |cs| && cs[k] == c;
          assert cs[1..][k - 1] == c;
        }
        if id in ContactIds(cs[1..]) {
          var c :| c in cs[1..] && c.id == id;
          assert c in cs;
        }
      }
    }
  }

  /** Some row other than `id` already holds native id `v`. */
  predicate NativeIdTaken(cs: seq<Contact>, id: int, v: string) {
    exists c :: c in cs && c.id != id && c.nativeId == Some(v)
  }

  lemma UpdateKeepsIds(cs: seq<Contact>, id: int, p: ContactPatch, now: Timestamp)
    ensures ContactIds(UpdateRows(cs, id, p, now)) == ContactIds(cs)
  {
    var r := UpdateRows(cs, id, p, now);
    forall x | x in ContactIds(cs) ensures x in ContactIds(r) {
      var k :| 0 <= k < |cs| && cs[k].id == x;
      assert r[k] in r;
    }
    forall x | x in ContactIds(r) ensures x in ContactIds(cs) {
      var k :| 0 <= k < |r| && r[k].id == x;
      assert cs[k] in cs;
    }
  }

  lemma UpdateKeepsNativeIds(cs: seq<Contact>, id: int, p: ContactPatch, now: Timestamp)
    requires Pairwise(cs, ContactIdLess) && Pairwise(cs, NativeIdsDiffer)
    requires !(p.nativeId.Set? && p.nativeId.value.Some? && NativeIdTaken(cs, id, p.nativeId.value.value))
    ensures Pairwise(UpdateRows(cs, id, p, now), ContactIdLess)
    ensures Pairwise(UpdateRows(cs, id, p, now), NativeIdsDiffer)
  {
    var r := UpdateRows(cs, id, p, now);
    forall i, j | 0 <= i < j < |r| ensures ContactIdLess(r[i], r[j]) && NativeIdsDiffer(r[i], r[j]) {
      assert ContactIdLess(cs[i], cs[j]) && NativeIdsDiffer(cs[i], cs[j]);
      if cs[i].id == id {
        assert cs[j] in cs && cs[j].id != id && r[j] == cs[j];
      } else if cs[j].id == id {
        assert cs[i] in cs && cs[i].id != id && r[i] == cs[i];
      }
    }
  }

  lemma UpdateKeepsCategories(cs: seq<Contact>, id: int, p: ContactPatch, now: Timestamp, nextId: int, categoryIds: set<int>)
    requires ContactTableOk(cs, nextId, categoryIds)
    requires !(p.categoryId.Set? && p.categoryId.value.Some? && p.categoryId.value.value !in categoryIds)
    ensures forall c :: c in UpdateRows(cs, id, p, now) ==> 0 < c.id < nextId
    ensures forall c :: c in UpdateRows(cs, id, p, now) && c.categoryId.Some? ==> c.categoryId.value in categoryIds
  {
    var r := UpdateRows(cs, id, p, now);
    forall c | c in r ensures 0 < c.id < nextId && (c.categoryId.Some? ==> c.categoryId.value in categoryIds) {
      var k :| 0 <= k < |r| && r[k] == c;
      assert cs[k] in cs;
    }
  }

  lemma UpdateKeepsConstraints(cs: seq<Contact>, id: int, p: ContactPatch, now: Timestamp, nextId: int, categoryIds: set<int>)
    requires ContactTableOk(cs, nextId, categoryIds)
    requires !(p.nativeId.Set? && p.nativeId.value.Some? && NativeIdTaken(cs, id, p.nativeId.value.value))
    requires !(p.categoryId.Set? && p.categoryId.value.Some? && p.categoryId.value.value !in categoryIds)
    ensures ContactTableOk(UpdateRows(cs, id, p, now), nextId, categoryIds)
    ensures ContactIds(UpdateRows(cs, id, p, now)) == ContactIds(cs)
  {
    UpdateKeepsIds(cs, id, p, now);
    UpdateKeepsNativeIds(cs, id, p, now);
    UpdateKeepsCategories(cs, id, p, now, nextId, categoryIds);
  }

  /** Appending a contact with the next id, a fresh native id and an existing category keeps every constraint. */
  lemma ContactAppendOk(
    cats: seq<Category>, cs: seq<Contact>, es: seq<ContactEvent>, ns: seq<ContactNews>,
    nextCategory: int, nextContact: int, nextEvent: int, nextNews: int, c: Contact)
    requires TablesOk(true, cats, cs, es, ns, nextCategory, nextContact, nextEvent, nextNews)
    requires c.id == nextContact
    requires c.nativeId.Some? ==> c.nativeId.value !in NativeIds(cs)
    requires c.categoryId.Some? ==> c.categoryId.value in CategoryIds(cats)
    ensures TablesOk(true, cats, cs + [c], es, ns, nextCategory, nextContact + 1, nextEvent, nextNews)
  {
    PairwiseAppend(cs, c, ContactIdLess);
    forall i | 0 <= i < |cs| ensures NativeIdsDiffer(cs[i], c) {
      if cs[i].nativeId.Some? {
        assert cs[i].nativeId.value in NativeIds(cs);
      }
    }
    PairwiseAppend(cs, c, NativeIdsDiffer);
    assert ContactIds(cs + [c]) == ContactIds(cs) + {c.id};
    ReferencesWiden(cs, es, ns, nextContact, nextEvent, nextNews,
      CategoryIds(cats), CategoryIds(cats), ContactIds(cs), ContactIds(cs + [c]));
  }

  /** Widening the set of ids a foreign key may point at keeps each table valid. */
  lemma ReferencesWiden(
    cs: seq<Contact>, es: seq<ContactEvent>, ns: seq<ContactNews>,
    nextContact: int, nextEvent: int, nextNews: int,
    categoryIds: set<int>, moreCategoryIds: set<int>, contactIds: set<int>, moreContactIds: set<int>)
    requires categoryIds <= moreCategoryIds && contactIds <= moreContactIds
    requires ContactTableOk(cs, nextContact, categoryIds)
    requires EventTableOk(es, nextEvent, contactIds)
    requires NewsTableOk(ns, nextNews, contactIds)
    ensures ContactTableOk(cs, nextContact, moreCategoryIds)
    ensures EventTableOk(es, nextEvent, moreContactIds)
    ensures NewsTableOk(ns, nextNews, moreContactIds)
  {
  }

  lemma DeleteKeepsConstraints(
    cats: seq<Category>, cs: seq<Contact>, es: seq<ContactEvent>, ns: seq<ContactNews>, id: int,
    nextCategory: int, nextContact: int, nextEvent: int, nextNews: int)
    requires TablesOk(true, cats, cs, es, ns, nextCategory, nextContact, nextEvent, nextNews)
    ensures TablesOk(true, cats, Filter(cs, ContactNot(id)), Filter(es, EventNotOf(id)), Filter(ns, NewsNotOf(id)),
                     nextCategory, nextContact, nextEvent, nextNews)
  {
    var kept := Filter(cs, ContactNot(id));
    FilterPairwise(cs, ContactNot(id), ContactIdLess);
    FilterPairwise(cs, ContactNot(id), NativeIdsDiffer);
    FilterPairwise(es, EventNotOf(id), EventIdLess);
    FilterPairwise(ns, NewsNotOf(id), NewsIdLess);
    forall x | x in ContactIds(cs) && x != id ensures x in ContactIds(kept) {
      var c :| c in cs && c.id == x;
      assert c in kept;
    }
  }
}
