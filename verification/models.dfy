/** The schema of `core/models.py`: users, categories, events, volunteer
    applications and likes, the constraints the database enforces on them
    (unique category names, one application and one like per user and event,
    foreign keys with CASCADE or PROTECT), the choice field `status`, the
    `created_at`/`updated_at` stamps and the `__str__` formats.

    The database is a `Store` of tables. A table is a sequence of rows in
    insertion order. Applications and likes carry no separate primary key:
    the (user, event) pair that `unique_together` makes unique identifies
    them. Timestamps are abstract naturals read from a clock the caller
    passes in as `now`. */
module Models {
  import opened Wrappers
  import opened Sequences

  type Id = nat

  /** The authentication user, reduced to what this application reads. */
  datatype User = User(id: Id, username: string, isStaff: bool, isSuperuser: bool, perms: set<string>)

  /** `created_at` (set on insert) and `updated_at` (set on every save). */
  datatype Stamps = Stamps(createdAt: nat, updatedAt: nat)

  datatype Category = Category(id: Id, name: string, stamps: Stamps)

  datatype Event = Event(
    id: Id, category: Id, title: string, description: string,
    eventDate: nat, location: string, stamps: Stamps)

  /** The choices of `VolunteerApplication.status`. */
  datatype Status = New | Approved | Rejected

  /** The value a status is stored as. */
  function StatusValue(s: Status): string {
    match s
    case New => "new"
    case Approved => "approved"
    case Rejected => "rejected"
  }

  /** The status a new application receives. */
  const DefaultStatus: Status := New

  /** Reads a stored status value back; only the three choice values are
      accepted, and each is read back as the status it was stored from. */
  function ParseStatus(v: string): (r: Option<Status>)
    ensures r.Some? ==> StatusValue(r.value) == v
    ensures r.None? ==> forall s: Status :: StatusValue(s) != v
  {
    if v == "new" then Some(New)
    else if v == "approved" then Some(Approved)
    else if v == "rejected" then Some(Rejected)
    else None
  }

  datatype Application = Application(user: Id, event: Id, motivation: string, status: Status, stamps: Stamps)

  datatype Like = Like(user: Id, event: Id, stamps: Stamps)

  /** The (user, event) pair that `unique_together` constrains. */
  datatype Pair = Pair(user: Id, event: Id)

  function ApplicationKey(a: Application): Pair { Pair(a.user, a.event) }
  function LikeKey(l: Like): Pair { Pair(l.user, l.event) }
  function ApplicationUser(a: Application): Id { a.user }
  function ApplicationEvent(a: Application): Id { a.event }
  function LikeUser(l: Like): Id { l.user }
  function LikeEvent(l: Like): Id { l.event }
  function CategoryName(c: Category): string { c.name }
  function CategoryId(c: Category): Id { c.id }
  function EventId(e: Event): Id { e.id }
  function UserId(u: User): Id { u.id }

  datatype Store = Store(
    users: seq<User>, categories: seq<Category>, events: seq<Event>,
    applications: seq<Application>, likes: seq<Like>, nextId: Id)

  /** The errors the database raises on a write. */
  datatype DbError =
    | IntegrityError   // a unique or foreign-key constraint would break
    | ProtectedError   // a PROTECT foreign key still references the row

  predicate UserExists(st: Store, id: Id) {
    exists u :: u in st.users && u.id == id
  }

  predicate CategoryExists(st: Store, id: Id) {
    exists c :: c in st.categories && c.id == id
  }

  predicate EventExists(st: Store, id: Id) {
    exists e :: e in st.events && e.id == id
  }

  /** Every foreign key points at an existing row. */
  ghost predicate ReferencesResolve(st: Store) {
    && (forall e :: e in st.events ==> CategoryExists(st, e.category))
    && (forall a :: a in st.applications ==> UserExists(st, a.user) && EventExists(st, a.event))
    && (forall l :: l in st.likes ==> UserExists(st, l.user) && EventExists(st, l.event))
  }

  /** Every primary key issued so far is below `nextId`. */
  ghost predicate IdsIssued(st: Store) {
    && (forall c :: c in st.categories ==> c.id < st.nextId)
    && (forall e :: e in st.events ==> e.id < st.nextId)
  }

  /** The constraints the database schema enforces. */
  ghost predicate Valid(st: Store) {
    && UniqueBy(st.users, UserId)
    && UniqueBy(st.categories, CategoryId)
    && UniqueBy(st.categories, CategoryName)
    && UniqueBy(st.events, EventId)
    && UniqueBy(st.applications, ApplicationKey)
    && UniqueBy(st.likes, LikeKey)
    && ReferencesResolve(st)
    && IdsIssued(st)
  }

  // ---------------------------------------------------------------------
  // Timestamps

  /** The stamps of a row inserted at time `now`. */
  function Created(now: nat): Stamps {
    Stamps(now, now)
  }

  /** Saving a row again: `created_at` is left alone, `updated_at` becomes
      `now`. With a clock that does not run backwards the creation stamp
      never exceeds the update stamp. */
  function Saved(t: Stamps, now: nat): (r: Stamps)
    ensures r.createdAt == t.createdAt
    ensures r.updatedAt == now
    ensures t.createdAt <= now ==> r.createdAt <= r.updatedAt
  {
    t.(updatedAt := now)
  }

  // ---------------------------------------------------------------------
  // Reads

  /** The application of `user` for `event`, if there is one. */
  function FindApplication(st: Store, user: Id, event: Id): (r: Option<Application>)
    ensures r.Some? ==> r.value in st.applications && r.value.user == user && r.value.event == event
    ensures r.None? <==> forall a :: a in st.applications ==> ApplicationKey(a) != Pair(user, event)
  {
    FindByKey(st.applications, ApplicationKey, Pair(user, event))
  }

  /** The like of `user` for `event`, if there is one. */
  function FindLike(st: Store, user: Id, event: Id): (r: Option<Like>)
    ensures r.Some? ==> r.value in st.likes && r.value.user == user && r.value.event == event
    ensures r.None? <==> forall l :: l in st.likes ==> LikeKey(l) != Pair(user, event)
  {
    FindByKey(st.likes, LikeKey, Pair(user, event))
  }

  function FindEvent(st: Store, id: Id): (r: Option<Event>)
    ensures r.Some? ==> r.value in st.events && r.value.id == id
    ensures r.None? <==> forall e :: e in st.events ==> e.id != id
  {
    FindByKey(st.events, EventId, id)
  }

  /** The (user, event) pairs that currently have a like. */
  ghost function LikePairs(st: Store): set<Pair> {
    set l | l in st.likes :: LikeKey(l)
  }

  /** The (user, event) pairs that currently have an application. */
  ghost function ApplicationPairs(st: Store): set<Pair> {
    set a | a in st.applications :: ApplicationKey(a)
  }

  /** Removing the rows of one pair removes exactly that pair. */
  lemma LikePairsAfterDelete(st: Store, user: Id, event: Id)
    ensures LikePairs(DeleteLike(st, user, event)) == LikePairs(st) - {Pair(user, event)}
  {
    var r := DeleteLike(st, user, event);
    forall q | q in LikePairs(st) && q != Pair(user, event) ensures q in LikePairs(r) {
      var l :| l in st.likes && LikeKey(l) == q;
      assert l in r.likes;
    }
  }

  /** Appending a row adds exactly its pair. */
  lemma LikePairsAfterAppend(st: Store, l: Like)
    ensures LikePairs(st.(likes := st.likes + [l])) == LikePairs(st) + {LikeKey(l)}
  {
    var r := st.(likes := st.likes + [l]);
    assert l in r.likes;
    forall q | q in LikePairs(st) ensures q in LikePairs(r) {
      var l' :| l' in st.likes && LikeKey(l') == q;
      assert l' in r.likes;
    }
  }

  /** In a valid store each (user, event) pair has at most one application
      and at most one like. */
  lemma AtMostOnePerPair(st: Store, user: Id, event: Id)
    requires Valid(st)
    ensures |Filter(st.applications, KeyIs(ApplicationKey, Pair(user, event)))| <= 1
    ensures |Filter(st.likes, KeyIs(LikeKey, Pair(user, event)))| <= 1
  {
    AtMostOneWithKey(st.applications, ApplicationKey, Pair(user, event));
    AtMostOneWithKey(st.likes, LikeKey, Pair(user, event));
  }

  // ---------------------------------------------------------------------
  // Writes

  /** The store with a new category row appended under the next id, before
      any constraint is checked. */
  function WithCategory(st: Store, name: string, now: nat): Store {
    st.(categories := st.categories + [Category(st.nextId, name, Created(now))], nextId := st.nextId + 1)
  }

  /** `Category.objects.create(name=...)`: refused when the name is taken. */
  function CreateCategory(st: Store, name: string, now: nat): (r: Result<Store, DbError>)
    ensures r.Err? <==> exists c :: c in st.categories && c.name == name
    ensures r.Err? ==> r.error == IntegrityError
    ensures r.Ok? ==> r.value == WithCategory(st, name, now)
  {
    if exists c :: c in st.categories && c.name == name then Err(IntegrityError)
    else Ok(WithCategory(st, name, now))
  }

  /** The database refuses the insert exactly when the row would break a
      constraint: on a consistent store the insert succeeds if and only if
      the store with the row appended is consistent. */
  lemma CreateCategoryChecksSchema(st: Store, name: string, now: nat)
    requires Valid(st)
    ensures CreateCategory(st, name, now).Ok? <==> Valid(WithCategory(st, name, now))
  {
    if exists c :: c in st.categories && c.name == name {
      var c :| c in st.categories && c.name == name;
      AppendBreaksUnique(st.categories, Category(st.nextId, name, Created(now)), CategoryName, c);
    } else {
      CreateCategoryKeepsValid(st, name, now);
    }
  }

  lemma CreateCategoryKeepsValid(st: Store, name: string, now: nat)
    requires Valid(st)
    ensures CreateCategory(st, name, now).Ok? ==> Valid(CreateCategory(st, name, now).value)
  {
    var r := CreateCategory(st, name, now);
    if r.Ok? {
      var c := Category(st.nextId, name, Created(now));
      AppendKeepsUnique(st.categories, c, CategoryId);
      AppendKeepsUnique(st.categories, c, CategoryName);
      forall e | e in r.value.events ensures CategoryExists(r.value, e.category) {
        var c0 :| c0 in st.categories && c0.id == e.category;
        assert c0 in r.value.categories;
      }
    }
  }

  /** `Event.objects.create(category=..., ...)`: refused when the category
      does not exist (foreign-key constraint). */
  function CreateEvent(st: Store, category: Id, title: string, description: string,
                       eventDate: nat, location: string, now: nat): (r: Result<Store, DbError>)
    ensures r.Err? <==> !CategoryExists(st, category)
    ensures r.Err? ==> r.error == IntegrityError
    ensures r.Ok? ==> r.value == WithEvent(st, category, title, description, eventDate, location, now)
  {
    if !CategoryExists(st, category) then Err(IntegrityError)
    else Ok(WithEvent(st, category, title, description, eventDate, location, now))
  }

  /** The store with a new event row appended under the next id. */
  function WithEvent(st: Store, category: Id, title: string, description: string,
                     eventDate: nat, location: string, now: nat): Store {
    st.(events := st.events + [Event(st.nextId, category, title, description, eventDate, location, Created(now))],
        nextId := st.nextId + 1)
  }

  /** The insert is refused exactly when the appended row would break a
      constraint (here: the category foreign key). */
  lemma CreateEventChecksSchema(st: Store, category: Id, title: string, description: string,
                                eventDate: nat, location: string, now: nat)
    requires Valid(st)
    ensures CreateEvent(st, category, title, description, eventDate, location, now).Ok?
        <==> Valid(WithEvent(st, category, title, description, eventDate, location, now))
  {
    var st' := WithEvent(st, category, title, description, eventDate, location, now);
    if !CategoryExists(st, category) {
      var e := Event(st.nextId, category, title, description, eventDate, location, Created(now));
      assert e in st'.events && !CategoryExists(st', e.category);
    } else {
      CreateEventKeepsValid(st, category, title, description, eventDate, location, now);
    }
  }

  lemma CreateEventKeepsValid(st: Store, category: Id, title: string, description: string,
                              eventDate: nat, location: string, now: nat)
    requires Valid(st)
    ensures var r := CreateEvent(st, category, title, description, eventDate, location, now);
            r.Ok? ==> Valid(r.value)
  {
    var r := CreateEvent(st, category, title, description, eventDate, location, now);
    if r.Ok? {
      var e := Event(st.nextId, category, title, description, eventDate, location, Created(now));
      AppendKeepsUnique(st.events, e, EventId);
      forall a | a in r.value.applications ensures EventExists(r.value, a.event) {
        var e0 :| e0 in st.events && e0.id == a.event;
        assert e0 in r.value.events;
      }
      forall l | l in r.value.likes ensures EventExists(r.value, l.event) {
        var e0 :| e0 in st.events && e0.id == l.event;
        assert e0 in r.value.events;
      }
    }
  }

  /** Inserting a `VolunteerApplication` (status `new` by default): refused
      when the pair already has one or a foreign key does not resolve. */
  function CreateApplication(st: Store, user: Id, event: Id, motivation: string, now: nat): (r: Result<Store, DbError>)
    ensures r.Err? <==> (FindApplication(st, user, event).Some? || !UserExists(st, user) || !EventExists(st, event))
    ensures r.Err? ==> r.error == IntegrityError
    ensures r.Ok? ==> r.value == WithApplication(st, user, event, motivation, now)
  {
    if FindApplication(st, user, event).Some? || !UserExists(st, user) || !EventExists(st, event) then Err(IntegrityError)
    else Ok(WithApplication(st, user, event, motivation, now))
  }

  /** The store with a new application row (status `new`) appended. */
  function WithApplication(st: Store, user: Id, event: Id, motivation: string, now: nat): Store {
    st.(applications := st.applications + [Application(user, event, motivation, DefaultStatus, Created(now))])
  }

  /** The appended application puts its pair on record and keeps every event. */
  lemma WithApplicationRecordsPair(st: Store, user: Id, event: Id, motivation: string, now: nat)
    ensures var st' := WithApplication(st, user, event, motivation, now);
            Pair(user, event) in ApplicationPairs(st') && st'.events == st.events
  {
    var a := Application(user, event, motivation, DefaultStatus, Created(now));
    assert a in WithApplication(st, user, event, motivation, now).applications;
  }

  /** The insert is refused exactly when the appended row would break a
      constraint: the second application of a pair, or a dangling user or
      event. */
  lemma CreateApplicationChecksSchema(st: Store, user: Id, event: Id, motivation: string, now: nat)
    requires Valid(st)
    ensures CreateApplication(st, user, event, motivation, now).Ok?
        <==> Valid(WithApplication(st, user, event, motivation, now))
  {
    var st' := WithApplication(st, user, event, motivation, now);
    var a := Application(user, event, motivation, DefaultStatus, Created(now));
    assert a in st'.applications;
    match FindApplication(st, user, event)
    case Some(a0) =>
      AppendBreaksUnique(st.applications, a, ApplicationKey, a0);
    case None =>
      if UserExists(st, user) && EventExists(st, event) {
        CreateApplicationKeepsValid(st, user, event, motivation, now);
      }
  }

  lemma CreateApplicationKeepsValid(st: Store, user: Id, event: Id, motivation: string, now: nat)
    requires Valid(st)
    ensures var r := CreateApplication(st, user, event, motivation, now);
            r.Ok? ==> Valid(r.value)
  {
    var r := CreateApplication(st, user, event, motivation, now);
    if r.Ok? {
      AppendKeepsUnique(st.applications, Application(user, event, motivation, DefaultStatus, Created(now)), ApplicationKey);
    }
  }

  /** `EventLike.objects.create(user=..., event=...)`: refused when the pair
      already has a like or a foreign key does not resolve. */
  function CreateLike(st: Store, user: Id, event: Id, now: nat): (r: Result<Store, DbError>)
    ensures r.Err? <==> (FindLike(st, user, event).Some? || !UserExists(st, user) || !EventExists(st, event))
    ensures r.Err? ==> r.error == IntegrityError
    ensures r.Ok? ==> r.value == WithLike(st, user, event, now)
  {
    if FindLike(st, user, event).Some? || !UserExists(st, user) || !EventExists(st, event) then Err(IntegrityError)
    else Ok(WithLike(st, user, event, now))
  }

  /** The store with a new like row appended. */
  function WithLike(st: Store, user: Id, event: Id, now: nat): Store {
    st.(likes := st.likes + [Like(user, event, Created(now))])
  }

  /** The insert is refused exactly when the appended row would break a
      constraint: the second like of a pair, or a dangling user or event. */
  lemma CreateLikeChecksSchema(st: Store, user: Id, event: Id, now: nat)
    requires Valid(st)
    ensures CreateLike(st, user, event, now).Ok? <==> Valid(WithLike(st, user, event, now))
  {
    var st' := WithLike(st, user, event, now);
    var l := Like(user, event, Created(now));
    assert l in st'.likes;
    match FindLike(st, user, event)
    case Some(l0) =>
      AppendBreaksUnique(st.likes, l, LikeKey, l0);
    case None =>
      if UserExists(st, user) && EventExists(st, event) {
        CreateLikeKeepsValid(st, user, event, now);
      }
  }

  lemma CreateLikeKeepsValid(st: Store, user: Id, event: Id, now: nat)
    requires Valid(st)
    ensures var r := CreateLike(st, user, event, now);
            r.Ok? ==> Valid(r.value)
  {
    var r := CreateLike(st, user, event, now);
    if r.Ok? {
      AppendKeepsUnique(st.likes, Like(user, event, Created(now)), LikeKey);
    }
  }

  /** `like.delete()`: removes the like of the pair and nothing else. */
  function DeleteLike(st: Store, user: Id, event: Id): (r: Store)
    ensures r.users == st.users && r.categories == st.categories && r.events == st.events
    ensures r.applications == st.applications && r.nextId == st.nextId
    ensures forall l :: l in r.likes <==> l in st.likes && LikeKey(l) != Pair(user, event)
  {
    st.(likes := RemoveByKey(st.likes, LikeKey, Pair(user, event)))
  }

  lemma DeleteLikeKeepsValid(st: Store, user: Id, event: Id)
    requires Valid(st)
    ensures Valid(DeleteLike(st, user, event))
  {
    RemoveByKeyKeepsUnique(st.likes, LikeKey, Pair(user, event), LikeKey);
  }

  /** `application.save()` after a status change: only the pair's row
      changes, its status becomes `status` and its stamps follow `Saved`. */
  function SaveApplicationStatus(st: Store, user: Id, event: Id, status: Status, now: nat): (r: Store)
    ensures r.users == st.users && r.categories == st.categories && r.events == st.events
    ensures r.likes == st.likes && r.nextId == st.nextId
    ensures |r.applications| == |st.applications|
    ensures forall i :: 0 <= i < |r.applications| ==>
              if ApplicationKey(st.applications[i]) == Pair(user, event)
              then r.applications[i] == st.applications[i].(status := status, stamps := Saved(st.applications[i].stamps, now))
              else r.applications[i] == st.applications[i]
  {
    st.(applications := UpdateStatus(st.applications, Pair(user, event), status, now))
  }

  /** A status change keeps every constraint: keys and references are
      untouched. */
  lemma SaveApplicationStatusKeepsValid(st: Store, user: Id, event: Id, status: Status, now: nat)
    requires Valid(st)
    ensures Valid(SaveApplicationStatus(st, user, event, status, now))
  {
    var r := SaveApplicationStatus(st, user, event, status, now);
    SameKeysKeepUnique(st.applications, r.applications, ApplicationKey);
    forall a | a in r.applications ensures UserExists(r, a.user) && EventExists(r, a.event) {
      var i :| 0 <= i < |r.applications| && r.applications[i] == a;
      assert st.applications[i] in st.applications;
    }
  }

  function UpdateStatus(apps: seq<Application>, key: Pair, status: Status, now: nat): (r: seq<Application>)
    ensures |r| == |apps|
    ensures forall i :: 0 <= i < |r| ==>
              if ApplicationKey(apps[i]) == key
              then r[i] == apps[i].(status := status, stamps := Saved(apps[i].stamps, now))
              else r[i] == apps[i]
  {
    if |apps| == 0 then []
    else
      var a := apps[0];
      var a' := if ApplicationKey(a) == key then a.(status := status, stamps := Saved(a.stamps, now)) else a;
      [a'] + UpdateStatus(apps[1..], key, status, now)
  }

  /** Deleting an event also deletes its applications and likes (CASCADE). */
  function DeleteEvent(st: Store, id: Id): (r: Store)
    ensures r.users == st.users && r.categories == st.categories && r.nextId == st.nextId
    ensures forall e :: e in r.events <==> e in st.events && e.id != id
    ensures forall a :: a in r.applications <==> a in st.applications && a.event != id
    ensures forall l :: l in r.likes <==> l in st.likes && l.event != id
  {
    st.(events := RemoveByKey(st.events, EventId, id),
        applications := RemoveByKey(st.applications, ApplicationEvent, id),
        likes := RemoveByKey(st.likes, LikeEvent, id))
  }

  lemma DeleteEventKeepsValid(st: Store, id: Id)
    requires Valid(st)
    ensures Valid(DeleteEvent(st, id))
  {
    RemoveByKeyKeepsUnique(st.events, EventId, id, EventId);
    RemoveByKeyKeepsUnique(st.applications, ApplicationEvent, id, ApplicationKey);
    RemoveByKeyKeepsUnique(st.likes, LikeEvent, id, LikeKey);
    DeleteEventKeepsReferences(st, id);
  }

  /** The CASCADE takes every row that referenced the event with it. */
  lemma DeleteEventKeepsReferences(st: Store, id: Id)
    requires ReferencesResolve(st)
    ensures ReferencesResolve(DeleteEvent(st, id))
  {
    var r := DeleteEvent(st, id);
    forall a | a in r.applications ensures UserExists(r, a.user) && EventExists(r, a.event) {
      var e0 :| e0 in st.events && e0.id == a.event;
      assert e0 in r.events;
    }
    forall l | l in r.likes ensures UserExists(r, l.user) && EventExists(r, l.event) {
      var e0 :| e0 in st.events && e0.id == l.event;
      assert e0 in r.events;
    }
  }

  /** Deleting a category is refused while an event references it
      (PROTECT); otherwise only the category row goes. */
  function DeleteCategory(st: Store, id: Id): (r: Result<Store, DbError>)
    ensures r.Err? <==> exists e :: e in st.events && e.category == id
    ensures r.Err? ==> r.error == ProtectedError
    ensures r.Ok? ==> r.value.users == st.users && r.value.events == st.events && r.value.nextId == st.nextId
    ensures r.Ok? ==> r.value.applications == st.applications && r.value.likes == st.likes
    ensures r.Ok? ==> forall c :: c in r.value.categories <==> c in st.categories && c.id != id
  {
    if exists e :: e in st.events && e.category == id then Err(ProtectedError)
    else
      Ok(st.(categories := RemoveByKey(st.categories, CategoryId, id)))
  }

  lemma DeleteCategoryKeepsValid(st: Store, id: Id)
    requires Valid(st)
    ensures DeleteCategory(st, id).Ok? ==> Valid(DeleteCategory(st, id).value)
  {
    var r := DeleteCategory(st, id);
    if r.Ok? {
      RemoveByKeyKeepsUnique(st.categories, CategoryId, id, CategoryId);
      RemoveByKeyKeepsUnique(st.categories, CategoryId, id, CategoryName);
      forall e | e in r.value.events ensures CategoryExists(r.value, e.category) {
        var c0 :| c0 in st.categories && c0.id == e.category;
        assert c0 in r.value.categories;
      }
    }
  }

  /** Deleting a user also deletes the user's applications and likes
      (CASCADE). */
  function DeleteUser(st: Store, id: Id): (r: Store)
    ensures r.categories == st.categories && r.events == st.events && r.nextId == st.nextId
    ensures forall u :: u in r.users <==> u in st.users && u.id != id
    ensures forall a :: a in r.applications <==> a in st.applications && a.user != id
    ensures forall l :: l in r.likes <==> l in st.likes && l.user != id
  {
    st.(users := RemoveByKey(st.users, UserId, id),
        applications := RemoveByKey(st.applications, ApplicationUser, id),
        likes := RemoveByKey(st.likes, LikeUser, id))
  }

  lemma DeleteUserKeepsValid(st: Store, id: Id)
    requires Valid(st)
    ensures Valid(DeleteUser(st, id))
  {
    RemoveByKeyKeepsUnique(st.users, UserId, id, UserId);
    RemoveByKeyKeepsUnique(st.applications, ApplicationUser, id, ApplicationKey);
    RemoveByKeyKeepsUnique(st.likes, LikeUser, id, LikeKey);
    DeleteUserKeepsReferences(st, id);
  }

  /** The CASCADE takes every row that referenced the user with it. */
  lemma DeleteUserKeepsReferences(st: Store, id: Id)
    requires ReferencesResolve(st)
    ensures ReferencesResolve(DeleteUser(st, id))
  {
    var r := DeleteUser(st, id);
    forall a | a in r.applications ensures UserExists(r, a.user) && EventExists(r, a.event) {
      var u0 :| u0 in st.users && u0.id == a.user;
      assert u0 in r.users;
    }
    forall l | l in r.likes ensures UserExists(r, l.user) && EventExists(r, l.event) {
      var u0 :| u0 in st.users && u0.id == l.user;
      assert u0 in r.users;
    }
  }

  // ---------------------------------------------------------------------
  // String forms

  /** `str(user)` of the authentication user model: the username. */
  function UserStr(u: User): string { u.username }

  function CategoryStr(c: Category): string { c.name }

  function EventStr(e: Event): string { e.title }

  /** `"<user> -> <event> (<status>)"`, with the stored status value. */
  function ApplicationStr(a: Application, u: User, e: Event): string {
    UserStr(u) + " -> " + EventStr(e) + " (" + StatusValue(a.status) + ")"
  }

  /** The text between the user and the event in a like's string form. */
  const LikesSep: string := " likes "

  /** `"<user> likes <event>"`. */
  function LikeStr(u: User, e: Event): string {
    UserStr(u) + LikesSep + EventStr(e)
  }

  /** A model instance with the related rows its string form reads. */
  datatype Instance =
    | UserInstance(user: User)
    | CategoryInstance(category: Category)
    | EventInstance(event: Event)
    | ApplicationInstance(application: Application, applicant: User, target: Event)
    | LikeInstance(like: Like, liker: User, liked: Event)

  /** `str(instance)`: a user shows its username, a category its name, an
      event its title; an application shows its status, and a like its user
      and event, in a form they can be read back from. */
  function Display(x: Instance): (r: string)
    ensures x.UserInstance? ==> r == x.user.username
    ensures x.CategoryInstance? ==> r == x.category.name
    ensures x.EventInstance? ==> r == x.event.title
    ensures x.ApplicationInstance? ==> StatusOfApplicationStr(r) == Some(x.application.status)
    ensures x.ApplicationInstance? && ' ' !in x.applicant.username ==>
              PartsOfApplicationStr(r) == Some((x.applicant.username, x.target.title, x.application.status))
    ensures x.LikeInstance? && ' ' !in x.liker.username ==>
              UserAndEventOfLikeStr(r) == Some((x.liker.username, x.liked.title))
  {
    match x
    case UserInstance(u) => UserStr(u)
    case CategoryInstance(c) => CategoryStr(c)
    case EventInstance(e) => EventStr(e)
    case ApplicationInstance(a, u, e) =>
      ApplicationStrShowsStatus(a, u, e);
      if ' ' !in u.username then
        ApplicationStrReadsBack(a, u, e);
        ApplicationStr(a, u, e)
      else ApplicationStr(a, u, e)
    case LikeInstance(_, u, e) =>
      if ' ' !in u.username then
        LikeStrReadsBack(u, e);
        LikeStr(u, e)
      else LikeStr(u, e)
  }

  /** The status value inside the parentheses that end an application's
      string form. */
  function StatusOfApplicationStr(s: string): (r: Option<Status>)
  {
    if |s| >= 2 && s[|s| - 1] == ')' then
      var open := LastIndexOf(s[..|s| - 1], '(');
      if open.Some? then ParseStatus(s[open.value + 1..|s| - 1]) else None
    else None
  }

  /** The position of the last occurrence of `c` in `s`. */
  function LastIndexOf(s: string, c: char): (r: Option<nat>)
    ensures r.Some? ==> r.value < |s| && s[r.value] == c && c !in s[r.value + 1..]
    ensures r.None? ==> c !in s
  {
    if |s| == 0 then None
    else if s[|s| - 1] == c then Some(|s| - 1)
    else
      var r := LastIndexOf(s[..|s| - 1], c);
      assert s == s[..|s| - 1] + [s[|s| - 1]];
      r
  }

  /** The status of an application can always be read back from its string
      form, whatever the username and event title contain. */
  lemma {:induction false} ApplicationStrShowsStatus(a: Application, u: User, e: Event)
    ensures StatusOfApplicationStr(ApplicationStr(a, u, e)) == Some(a.status)
  {
    var v := StatusValue(a.status);
    var head := UserStr(u) + " -> " + EventStr(e) + " ";
    StatusValueRoundTrip(a.status);
    var body := head + ['('] + v;
    var s := body + [')'];
    assert ApplicationStr(a, u, e) == s;
    assert s[..|s| - 1] == body;
    LastIndexOfBefore(head, '(', v);
    assert s[|head| + 1..|s| - 1] == v;
  }

  /** The username, event title and status in an application's string
      form: the text before the first space, then after the arrow the text
      up to the last ` (`, and the status value inside the parentheses. */
  function PartsOfApplicationStr(s: string): Option<(string, string, Status)> {
    match SplitAtFirst(s, ' ')
    case None => None
    case Some(parts) =>
      if "-> " <= parts.1 then
        match TitleAndStatus(parts.1[3..])
        case None => None
        case Some(ts) => Some((parts.0, ts.0, ts.1))
      else None
  }

  /** An event title followed by ` (<status value>)`. */
  function TitleAndStatus(s: string): Option<(string, Status)> {
    if |s| >= 2 && s[|s| - 1] == ')' then
      match LastIndexOf(s[..|s| - 1], '(')
      case None => None
      case Some(open) =>
        if open >= 1 && s[open - 1] == ' ' then
          match ParseStatus(s[open + 1..|s| - 1])
          case None => None
          case Some(status) => Some((s[..open - 1], status))
        else None
    else None
  }

  /** The title and status read back from the tail of an application's
      string form, whatever the title contains. */
  lemma TitleAndStatusOfJoin(title: string, status: Status)
    ensures TitleAndStatus(title + " (" + StatusValue(status) + ")") == Some((title, status))
  {
    var v := StatusValue(status);
    StatusValueRoundTrip(status);
    var head := title + " ";
    var s := head + ['('] + v + [')'];
    StatusTailShape(title, v);
    LastIndexOfBefore(head, '(', v);
  }

  /** Where the title, the space and the status value sit in
      `title + " (" + v + ")"`. */
  lemma StatusTailShape(title: string, v: string)
    ensures var head := title + " ";
            var s := head + ['('] + v + [')'];
            && title + " (" + v + ")" == s
            && s[..|s| - 1] == head + ['('] + v
            && s[|head| - 1] == ' ' && s[..|head| - 1] == title && s[|head| + 1..|s| - 1] == v
  {
    var head := title + " ";
    var s := head + ['('] + v + [')'];
    assert s[..|s| - 1] == head + ['('] + v;
    assert s[..|head| - 1] == title;
  }

  /** An application's string form gives back the username, the event
      title and the status; usernames contain no spaces. */
  lemma ApplicationStrReadsBack(a: Application, u: User, e: Event)
    requires ' ' !in u.username
    ensures PartsOfApplicationStr(ApplicationStr(a, u, e)) == Some((u.username, e.title, a.status))
  {
    var tail := e.title + " (" + StatusValue(a.status) + ")";
    ApplicationStrShape(a, u, e);
    SplitAtFirstOfJoin(u.username, ' ', "-> " + tail);
    ArrowThen(tail);
    TitleAndStatusOfJoin(e.title, a.status);
  }

  lemma ApplicationStrShape(a: Application, u: User, e: Event)
    ensures ApplicationStr(a, u, e)
         == u.username + [' '] + ("-> " + (e.title + " (" + StatusValue(a.status) + ")"))
  {
  }

  lemma ArrowThen(tail: string)
    ensures "-> " <= "-> " + tail && ("-> " + tail)[3..] == tail
  {
  }

  lemma StatusValueRoundTrip(st: Status)
    ensures ParseStatus(StatusValue(st)) == Some(st)
    ensures '(' !in StatusValue(st) && ')' !in StatusValue(st)
  {
  }

  /** The last `c` in `a + [c] + b` is the one after `a` when `b` has none. */
  lemma {:induction false} LastIndexOfBefore(a: string, c: char, b: string)
    requires c !in b
    ensures LastIndexOf(a + [c] + b, c) == Some(|a|)
  {
    var x := a + [c] + b;
    if |b| > 0 {
      assert x[|x| - 1] == b[|b| - 1];
      assert x[..|x| - 1] == a + [c] + b[..|b| - 1];
      LastIndexOfBefore(a, c, b[..|b| - 1]);
    }
  }

  /** The username and event title in a like's string form: the text
      before the first space, and the text after the separator that
      follows it. */
  function UserAndEventOfLikeStr(s: string): Option<(string, string)> {
    match SplitAtFirst(s, ' ')
    case None => None
    case Some(parts) =>
      var rest := LikesSep[1..];
      if rest <= parts.1 then Some((parts.0, parts.1[|rest|..])) else None
  }

  /** A like's string form gives back both the username and the event
      title, whatever the title contains; usernames contain no spaces. */
  lemma LikeStrReadsBack(u: User, e: Event)
    requires ' ' !in u.username
    ensures UserAndEventOfLikeStr(LikeStr(u, e)) == Some((u.username, e.title))
  {
    var rest := LikesSep[1..];
    assert LikesSep == [' '] + rest;
    assert LikeStr(u, e) == u.username + [' '] + (rest + e.title);
    SplitAtFirstOfJoin(u.username, ' ', rest + e.title);
    assert (rest + e.title)[..|rest|] == rest;
    assert (rest + e.title)[|rest|..] == e.title;
  }
}
