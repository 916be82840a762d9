/** The views of `core/views.py` that read or change likes and volunteer
    applications: `event_detail`, `apply_to_event`, `toggle_like` and
    `my_dashboard`. A view is a function from the store and the request to a
    response tag and the store after the request. Templates, flash messages
    and the HTTP layer are reduced to the tag. */
module Views {
  import opened Wrappers
  import opened Sequences
  import opened Models

  /** `request.user`: anonymous or an authenticated user. */
  datatype Principal = Anonymous | Authenticated(user: User)

  datatype Method = Get | Post

  /** What a rendered template is given. */
  datatype Page =
    | EventDetailPage(event: Event, likesCount: nat, applicationsCount: nat,
                      liked: bool, application: Option<Application>)
    | ApplyPage(event: Event, formErrors: bool)
    | DashboardPage(applications: seq<Application>, likes: seq<Like>)

  datatype Response =
    | Render(page: Page)
    | RedirectToEventDetail(pk: Id)
    | RedirectToLogin       // `login_required` on an anonymous request
    | NotFound              // `get_object_or_404`
    | MethodNotAllowed      // `require_POST` on another verb
    | ServerError           // an uncaught database error

  datatype Outcome = Outcome(response: Response, store: Store)

  // ---------------------------------------------------------------------
  // The application form

  /** Python's `str.isspace()`. */
  predicate IsSpace(c: char) {
    || c == ' ' || '\t' <= c <= '\r' || '\U{1C}' <= c <= '\U{1F}'
    || c == '\U{85}' || c == '\U{A0}' || c == '\U{1680}'
    || '\U{2000}' <= c <= '\U{200A}' || c == '\U{2028}' || c == '\U{2029}'
    || c == '\U{202F}' || c == '\U{205F}' || c == '\U{3000}'
  }

  /** Every character of `t` is whitespace. */
  predicate AllSpace(t: string) {
    forall k :: 0 <= k < |t| ==> IsSpace(t[k])
  }

  /** `s.strip()`: `s` without its leading and trailing whitespace. */
  function Strip(s: string): (r: string)
    ensures |r| <= |s|
    ensures |r| > 0 ==> !IsSpace(r[0]) && !IsSpace(r[|r| - 1])
  {
    StripRight(StripLeft(s))
  }

  /** The number of leading whitespace characters of `s`. */
  function LeadingSpace(s: string): nat {
    |s| - |StripLeft(s)|
  }

  /** What `Strip` removes is whitespace on both sides, and what it keeps
      is the untouched middle of `s`. */
  lemma StripRemovesOnlySpace(s: string)
    ensures var i, r := LeadingSpace(s), Strip(s);
            && i + |r| <= |s| && r == s[i..i + |r|]
            && AllSpace(s[..i]) && AllSpace(s[i + |r|..])
  {
    var l := StripLeft(s);
    var r := StripRight(l);
    var i := |s| - |l|;
    assert l == s[i..];
    assert r == l[..|r|];
    assert AllSpace(s[..i]) by {
      forall k | 0 <= k < i ensures IsSpace(s[..i][k]) {
        assert s[..i][k] == s[k];
      }
    }
    var post := s[i + |r|..];
    assert AllSpace(post) by {
      forall k | 0 <= k < |post| ensures IsSpace(post[k]) {
        assert post[k] == l[|r| + k];
      }
    }
  }

  /** `s.lstrip()`: the suffix of `s` after its leading whitespace. */
  function StripLeft(s: string): (r: string)
    ensures |r| <= |s| && r == s[|s| - |r|..]
    ensures forall k :: 0 <= k < |s| - |r| ==> IsSpace(s[k])
    ensures |r| > 0 ==> !IsSpace(r[0])
  {
    if |s| > 0 && IsSpace(s[0]) then
      var r := StripLeft(s[1..]);
      assert forall k :: 1 <= k < |s| - |r| ==> IsSpace(s[k]) by {
        forall k | 1 <= k < |s| - |r| ensures IsSpace(s[k]) {
          assert s[k] == s[1..][k - 1];
        }
      }
      r
    else s
  }

  /** `s.rstrip()`: the prefix of `s` before its trailing whitespace. */
  function StripRight(s: string): (r: string)
    ensures |r| <= |s| && r == s[..|r|]
    ensures forall k :: |r| <= k < |s| ==> IsSpace(s[k])
    ensures |r| > 0 ==> !IsSpace(r[|r| - 1])
    ensures |s| > 0 && !IsSpace(s[0]) ==> |r| > 0
  {
    if |s| > 0 && IsSpace(s[|s| - 1]) then
      var r := StripRight(s[..|s| - 1]);
      assert forall k :: |r| <= k < |s| - 1 ==> IsSpace(s[k]) by {
        forall k | |r| <= k < |s| - 1 ensures IsSpace(s[k]) {
          assert s[k] == s[..|s| - 1][k];
        }
      }
      r
    else s
  }

  /** The `motivation` field of `VolunteerApplicationForm` (a required text
      field): the submitted text stripped of surrounding whitespace, or
      `None` when it is missing, blank or contains a NUL character. */
  function CleanMotivation(data: Option<string>): (r: Option<string>)
    ensures data.None? ==> r.None?
    ensures data.Some? && r.Some? ==> r.value == Strip(data.value)
    ensures r.Some? ==> |r.value| > 0 && '\U{0}' !in r.value
    ensures data.Some? && |Strip(data.value)| > 0 && '\U{0}' !in data.value ==> r.Some?
  {
    match data
    case None => None
    case Some(v) =>
      var m := Strip(v);
      if |m| == 0 || '\U{0}' in m then None else Some(m)
  }

  // ---------------------------------------------------------------------
  // event_detail

  /** The number of likes and applications an event has (the `Count`
      annotations). */
  function LikesCount(st: Store, event: Id): nat {
    |SelectByKey(st.likes, LikeEvent, event)|
  }

  function ApplicationsCount(st: Store, event: Id): nat {
    |SelectByKey(st.applications, ApplicationEvent, event)|
  }

  /** `Count("likes", distinct=True)`: on a consistent store no like row is
      repeated, so counting the event's likes counts distinct rows. */
  lemma LikesCountIsDistinct(st: Store, event: Id)
    requires Valid(st)
    ensures LikesCount(st, event) == |set l | l in st.likes && l.event == event|
  {
    var r := SelectByKey(st.likes, LikeEvent, event);
    forall x ensures multiset(r)[x] <= 1 {
      assert multiset(st.likes)[x] <= 1;
    }
    DistinctLength(r);
    assert (set x | x in r) == (set l | l in st.likes && l.event == event) by {
      forall x ensures x in r <==> x in st.likes && x.event == event {
        assert x in r <==> multiset(r)[x] > 0;
        assert x in st.likes <==> multiset(st.likes)[x] > 0;
      }
    }
  }

  /** `Count("applications", distinct=True)`, likewise. */
  lemma ApplicationsCountIsDistinct(st: Store, event: Id)
    requires Valid(st)
    ensures ApplicationsCount(st, event) == |set a | a in st.applications && a.event == event|
  {
    var r := SelectByKey(st.applications, ApplicationEvent, event);
    forall x ensures multiset(r)[x] <= 1 {
      assert multiset(st.applications)[x] <= 1;
    }
    DistinctLength(r);
    assert (set x | x in r) == (set a | a in st.applications && a.event == event) by {
      forall x ensures x in r <==> x in st.applications && x.event == event {
        assert x in r <==> multiset(r)[x] > 0;
        assert x in st.applications <==> multiset(st.applications)[x] > 0;
      }
    }
  }

  /** `event_detail`: a read-only page; an anonymous visitor is never shown
      as having liked or applied. */
  function EventDetail(st: Store, who: Principal, pk: Id): (r: Response)
    ensures r.NotFound? <==> !EventExists(st, pk)
    ensures !r.NotFound? ==> r.Render? && r.page.EventDetailPage? && r.page.event.id == pk && r.page.event in st.events
    ensures r.Render? && who.Anonymous? ==> !r.page.liked && r.page.application.None?
    ensures r.Render? && who.Authenticated? ==>
              (r.page.liked <==> Pair(who.user.id, pk) in LikePairs(st))
    ensures r.Render? && who.Authenticated? ==>
              (r.page.application.Some? <==> Pair(who.user.id, pk) in ApplicationPairs(st))
    ensures r.Render? && r.page.application.Some? ==>
              r.page.application.value in st.applications
              && ApplicationKey(r.page.application.value) == Pair(who.user.id, pk)
    ensures r.Render? ==> r.page.likesCount == LikesCount(st, pk)
                          && r.page.applicationsCount == ApplicationsCount(st, pk)
  {
    match FindEvent(st, pk)
    case None => NotFound
    case Some(event) =>
      var liked := if who.Authenticated? then FindLike(st, who.user.id, pk).Some? else false;
      var application := if who.Authenticated? then FindApplication(st, who.user.id, pk) else None;
      assert who.Authenticated? ==> (liked <==> Pair(who.user.id, pk) in LikePairs(st)) by {
        if who.Authenticated? && !liked {
          assert forall l :: l in st.likes ==> LikeKey(l) != Pair(who.user.id, pk);
        }
      }
      assert who.Authenticated? ==> (application.Some? <==> Pair(who.user.id, pk) in ApplicationPairs(st)) by {
        if who.Authenticated? && application.None? {
          assert forall a :: a in st.applications ==> ApplicationKey(a) != Pair(who.user.id, pk);
        }
      }
      Render(EventDetailPage(event, LikesCount(st, pk), ApplicationsCount(st, pk), liked, application))
  }

  // ---------------------------------------------------------------------
  // apply_to_event

  /** `apply_to_event`: login required; an existing application for the
      pair only redirects; a valid POST inserts one application; anything
      else renders the form and writes nothing. */
  function ApplyToEvent(st: Store, who: Principal, pk: Id, verb: Method,
                        motivation: Option<string>, now: nat): (r: Outcome)
    ensures who.Anonymous? ==> r == Outcome(RedirectToLogin, st)
    ensures who.Authenticated? && !EventExists(st, pk) ==> r == Outcome(NotFound, st)
    ensures who.Authenticated? && EventExists(st, pk) && Pair(who.user.id, pk) in ApplicationPairs(st) ==>
              r == Outcome(RedirectToEventDetail(pk), st)
    ensures (verb == Get || CleanMotivation(motivation).None?) ==> r.store == st
    ensures who.Authenticated? && EventExists(st, pk) && UserExists(st, who.user.id)
            && Pair(who.user.id, pk) !in ApplicationPairs(st)
            && verb == Post && CleanMotivation(motivation).Some? ==>
              && r.response == RedirectToEventDetail(pk)
              && r.store == st.(applications := st.applications
                   + [Application(who.user.id, pk, CleanMotivation(motivation).value, DefaultStatus, Created(now))])
    ensures r.store != st ==> r.response == RedirectToEventDetail(pk)
    ensures r.response.ServerError? ==> who.Authenticated? && !UserExists(st, who.user.id)
    ensures who.Authenticated? && EventExists(st, pk) && Pair(who.user.id, pk) !in ApplicationPairs(st)
            && (verb == Get || CleanMotivation(motivation).None?) ==>
              && r.response.Render? && r.response.page.ApplyPage?
              && r.response.page.event.id == pk && r.response.page.formErrors == (verb == Post)
  {
    if who.Anonymous? then Outcome(RedirectToLogin, st)
    else
      var uid := who.user.id;
      match FindEvent(st, pk)
      case None => Outcome(NotFound, st)
      case Some(event) =>
        if FindApplication(st, uid, pk).Some? then
          Outcome(RedirectToEventDetail(pk), st)
        else
          assert Pair(uid, pk) !in ApplicationPairs(st);
          if verb == Post then
            match CleanMotivation(motivation)
            case Some(m) =>
              (match CreateApplication(st, uid, pk, m, now)
               case Ok(st') => Outcome(RedirectToEventDetail(pk), st')
               case Err(_) => Outcome(ServerError, st))
            case None => Outcome(Render(ApplyPage(event, true)), st)
          else Outcome(Render(ApplyPage(event, false)), st)
  }

  /** A successful application adds exactly one row: the count grows by
      one and the new row belongs to the requester and the target event. */
  lemma ApplyAddsOne(st: Store, user: User, pk: Id, motivation: Option<string>, now: nat)
    requires UserExists(st, user.id) && EventExists(st, pk)
    requires Pair(user.id, pk) !in ApplicationPairs(st)
    requires CleanMotivation(motivation).Some?
    ensures var r := ApplyToEvent(st, Authenticated(user), pk, Post, motivation, now);
            && |r.store.applications| == |st.applications| + 1
            && Pair(user.id, pk) in ApplicationPairs(r.store)
            && ApplicationPairs(r.store) == ApplicationPairs(st) + {Pair(user.id, pk)}
            && r.response == RedirectToEventDetail(pk)
  {
    var r := ApplyToEvent(st, Authenticated(user), pk, Post, motivation, now);
    var a := Application(user.id, pk, CleanMotivation(motivation).value, DefaultStatus, Created(now));
    assert r.store.applications == st.applications + [a];
    assert a in r.store.applications;
  }

  /** A successful application raises the event's application count shown
      on its page by one and leaves every other event's count alone. */
  lemma ApplyRaisesApplicationsCount(st: Store, user: User, pk: Id, motivation: Option<string>, now: nat)
    requires UserExists(st, user.id) && EventExists(st, pk)
    requires Pair(user.id, pk) !in ApplicationPairs(st)
    requires CleanMotivation(motivation).Some?
    ensures var r := ApplyToEvent(st, Authenticated(user), pk, Post, motivation, now).store;
            && ApplicationsCount(r, pk) == ApplicationsCount(st, pk) + 1
            && (forall e :: e != pk ==> ApplicationsCount(r, e) == ApplicationsCount(st, e))
  {
    var r := ApplyToEvent(st, Authenticated(user), pk, Post, motivation, now).store;
    var a := Application(user.id, pk, CleanMotivation(motivation).value, DefaultStatus, Created(now));
    assert r.applications == st.applications + [a];
    SelectAfterAppend(st.applications, a, ApplicationEvent, pk);
    forall e | e != pk ensures ApplicationsCount(r, e) == ApplicationsCount(st, e) {
      SelectAfterAppend(st.applications, a, ApplicationEvent, e);
    }
  }

  /** Applying again after an application exists changes nothing: the
      view is idempotent for each (user, event) pair, whatever the second
      request carries. */
  lemma ApplyIsIdempotent(st: Store, user: User, pk: Id, m1: Method, d1: Option<string>, t1: nat,
                          m2: Method, d2: Option<string>, t2: nat)
    requires ApplyToEvent(st, Authenticated(user), pk, m1, d1, t1).response == RedirectToEventDetail(pk)
    ensures var r1 := ApplyToEvent(st, Authenticated(user), pk, m1, d1, t1);
            ApplyToEvent(r1.store, Authenticated(user), pk, m2, d2, t2) == Outcome(RedirectToEventDetail(pk), r1.store)
  {
    ApplyRedirectRecordsApplication(st, user, pk, m1, d1, t1);
  }

  /** A redirect to the event's page leaves the event in place and an
      application of the requester for it on record. */
  lemma ApplyRedirectRecordsApplication(st: Store, user: User, pk: Id, verb: Method,
                                        motivation: Option<string>, now: nat)
    requires ApplyToEvent(st, Authenticated(user), pk, verb, motivation, now).response == RedirectToEventDetail(pk)
    ensures var r := ApplyToEvent(st, Authenticated(user), pk, verb, motivation, now).store;
            EventExists(r, pk) && Pair(user.id, pk) in ApplicationPairs(r)
  {
    var r := ApplyToEvent(st, Authenticated(user), pk, verb, motivation, now);
    assert EventExists(st, pk);
    if FindApplication(st, user.id, pk).None? {
      var m := ApplyInserts(st, user, pk, verb, motivation, now);
      WithApplicationRecordsPair(st, user.id, pk, m, now);
    } else {
      var a := FindApplication(st, user.id, pk).value;
      assert ApplicationKey(a) == Pair(user.id, pk);
    }
  }

  /** Without an application on record, a redirect comes only from the
      insert of the cleaned motivation. */
  lemma ApplyInserts(st: Store, user: User, pk: Id, verb: Method,
                     motivation: Option<string>, now: nat) returns (m: string)
    requires ApplyToEvent(st, Authenticated(user), pk, verb, motivation, now).response == RedirectToEventDetail(pk)
    requires FindApplication(st, user.id, pk).None?
    ensures CleanMotivation(motivation) == Some(m)
    ensures ApplyToEvent(st, Authenticated(user), pk, verb, motivation, now).store
         == WithApplication(st, user.id, pk, m, now)
  {
    m := CleanMotivation(motivation).value;
  }

  lemma ApplyKeepsValid(st: Store, who: Principal, pk: Id, verb: Method, motivation: Option<string>, now: nat)
    requires Valid(st)
    ensures Valid(ApplyToEvent(st, who, pk, verb, motivation, now).store)
  {
    if who.Authenticated? && FindEvent(st, pk).Some? && FindApplication(st, who.user.id, pk).None?
       && verb == Post && CleanMotivation(motivation).Some? {
      CreateApplicationKeepsValid(st, who.user.id, pk, CleanMotivation(motivation).value, now);
    } else {
      assert ApplyToEvent(st, who, pk, verb, motivation, now).store == st;
    }
  }

  // ---------------------------------------------------------------------
  // toggle_like

  /** `toggle_like`: login required, POST only; removes the requester's
      like of the event when there is one and adds it otherwise. */
  function ToggleLike(st: Store, who: Principal, pk: Id, verb: Method, now: nat): (r: Outcome)
    ensures who.Anonymous? ==> r == Outcome(RedirectToLogin, st)
    ensures who.Authenticated? && verb == Get ==> r == Outcome(MethodNotAllowed, st)
    ensures who.Authenticated? && verb == Post && !EventExists(st, pk) ==> r == Outcome(NotFound, st)
    ensures r.store.users == st.users && r.store.categories == st.categories
    ensures r.store.events == st.events && r.store.applications == st.applications
    ensures r.store.nextId == st.nextId
    ensures r.store != st ==> r.response == RedirectToEventDetail(pk)
    ensures who.Authenticated? && verb == Post && EventExists(st, pk) && UserExists(st, who.user.id) ==>
              r.response == RedirectToEventDetail(pk)
    ensures r.response == RedirectToEventDetail(pk) ==>
              var p := Pair(who.user.id, pk);
              && (p in LikePairs(st) ==> LikePairs(r.store) == LikePairs(st) - {p})
              && (p !in LikePairs(st) ==> LikePairs(r.store) == LikePairs(st) + {p})
              && (forall l :: LikeKey(l) != p ==> (l in r.store.likes <==> l in st.likes))
  {
    if who.Anonymous? then Outcome(RedirectToLogin, st)
    else if verb == Get then Outcome(MethodNotAllowed, st)
    else
      var p := Pair(who.user.id, pk);
      match FindEvent(st, pk)
      case None => Outcome(NotFound, st)
      case Some(_) =>
        match FindLike(st, who.user.id, pk)
        case Some(_) =>
          LikePairsAfterDelete(st, who.user.id, pk);
          Outcome(RedirectToEventDetail(pk), DeleteLike(st, who.user.id, pk))
        case None =>
          assert p !in LikePairs(st);
          match CreateLike(st, who.user.id, pk, now)
          case Ok(st') =>
            LikePairsAfterAppend(st, Like(who.user.id, pk, Created(now)));
            Outcome(RedirectToEventDetail(pk), st')
          case Err(_) => Outcome(ServerError, st)
  }

  lemma ToggleKeepsValid(st: Store, who: Principal, pk: Id, verb: Method, now: nat)
    requires Valid(st)
    ensures Valid(ToggleLike(st, who, pk, verb, now).store)
  {
    var r := ToggleLike(st, who, pk, verb, now);
    if r.store != st {
      if FindLike(st, who.user.id, pk).Some? {
        DeleteLikeKeepsValid(st, who.user.id, pk);
      } else {
        CreateLikeKeepsValid(st, who.user.id, pk, now);
      }
    }
  }

  /** Toggling twice restores the set of liked (user, event) pairs; when
      the pair was not liked before, the whole store is restored. */
  lemma ToggleTwiceRestores(st: Store, user: User, pk: Id, t1: nat, t2: nat)
    requires Valid(st) && user in st.users && EventExists(st, pk)
    ensures var r1 := ToggleLike(st, Authenticated(user), pk, Post, t1);
            var r2 := ToggleLike(r1.store, Authenticated(user), pk, Post, t2);
            && r2.response == RedirectToEventDetail(pk)
            && LikePairs(r2.store) == LikePairs(st)
            && (Pair(user.id, pk) !in LikePairs(st) ==> r2.store == st)
  {
    var who, p, pairs := Authenticated(user), Pair(user.id, pk), LikePairs(st);
    assert UserExists(st, user.id);
    var r1 := ToggleLike(st, who, pk, Post, t1);
    ToggleKeepsValid(st, who, pk, Post, t1);
    assert UserExists(r1.store, user.id);
    var r2 := ToggleLike(r1.store, who, pk, Post, t2);
    if p in pairs {
      assert LikePairs(r1.store) == pairs - {p};
      assert LikePairs(r2.store) == (pairs - {p}) + {p};
    } else {
      assert LikePairs(r1.store) == pairs + {p};
      assert LikePairs(r2.store) == (pairs + {p}) - {p};
      LikeThenUnlikeRestoresLikes(st, user, pk, t1, t2);
    }
  }

  /** The second half of `ToggleTwiceRestores`: a like added by the first
      toggle is the one the second toggle deletes. */
  lemma LikeThenUnlikeRestoresLikes(st: Store, user: User, pk: Id, t1: nat, t2: nat)
    requires Valid(st) && user in st.users && EventExists(st, pk)
    requires Pair(user.id, pk) !in LikePairs(st)
    ensures var r1 := ToggleLike(st, Authenticated(user), pk, Post, t1);
            ToggleLike(r1.store, Authenticated(user), pk, Post, t2).store.likes == st.likes
  {
    var p := Pair(user.id, pk);
    assert FindLike(st, user.id, pk).None? by {
      forall x | x in st.likes ensures LikeKey(x) != p {
        assert LikeKey(x) in LikePairs(st);
      }
    }
    var l := Like(user.id, pk, Created(t1));
    ToggleAddsLike(st, user, pk, t1);
    var s1 := st.(likes := st.likes + [l]);
    assert l in s1.likes;
    ToggleDeletesLike(s1, user, pk, t2);
    assert forall x :: x in st.likes ==> KeyIsNot(LikeKey, p)(x);
    FilterSnoc(st.likes, l, KeyIsNot(LikeKey, p));
    FilterKeepsAll(st.likes, KeyIsNot(LikeKey, p));
  }

  /** A toggle by a known user on an existing event they have not liked
      appends their like. */
  lemma ToggleAddsLike(st: Store, user: User, pk: Id, now: nat)
    requires user in st.users && EventExists(st, pk) && FindLike(st, user.id, pk).None?
    ensures ToggleLike(st, Authenticated(user), pk, Post, now).store
         == st.(likes := st.likes + [Like(user.id, pk, Created(now))])
  {
    assert UserExists(st, user.id);
  }

  /** A toggle on an existing event the user has liked deletes the like. */
  lemma ToggleDeletesLike(st: Store, user: User, pk: Id, now: nat)
    requires EventExists(st, pk) && FindLike(st, user.id, pk).Some?
    ensures ToggleLike(st, Authenticated(user), pk, Post, now).store == DeleteLike(st, user.id, pk)
  {
  }

  /** A toggle moves the event's like count shown on its page by exactly
      one, down when the requester had liked it and up otherwise, and
      leaves every other event's count alone. */
  lemma ToggleMovesLikesCountByOne(st: Store, user: User, pk: Id, now: nat)
    requires Valid(st) && user in st.users && EventExists(st, pk)
    ensures var r := ToggleLike(st, Authenticated(user), pk, Post, now).store;
            && (Pair(user.id, pk) in LikePairs(st) ==> LikesCount(r, pk) + 1 == LikesCount(st, pk))
            && (Pair(user.id, pk) !in LikePairs(st) ==> LikesCount(r, pk) == LikesCount(st, pk) + 1)
            && (forall e :: e != pk ==> LikesCount(r, e) == LikesCount(st, e))
  {
    var p := Pair(user.id, pk);
    assert UserExists(st, user.id);
    var r := ToggleLike(st, Authenticated(user), pk, Post, now).store;
    match FindLike(st, user.id, pk)
    case Some(x0) =>
      assert p in LikePairs(st);
      assert r.likes == RemoveByKey(st.likes, LikeKey, p);
      SelectAfterRemoveOne(st.likes, LikeKey, p, LikeEvent, pk, x0);
      forall e | e != pk ensures LikesCount(r, e) == LikesCount(st, e) {
        SelectAfterRemoveOther(st.likes, LikeKey, p, LikeEvent, e);
      }
    case None =>
      assert p !in LikePairs(st);
      var l := Like(user.id, pk, Created(now));
      assert r.likes == st.likes + [l];
      SelectAfterAppend(st.likes, l, LikeEvent, pk);
      forall e | e != pk ensures LikesCount(r, e) == LikesCount(st, e) {
        SelectAfterAppend(st.likes, l, LikeEvent, e);
      }
  }

  // ---------------------------------------------------------------------
  // my_dashboard

  function NewestFirstApplication(a: Application): int { -(a.stamps.createdAt as int) }
  function NewestFirstLike(l: Like): int { -(l.stamps.createdAt as int) }

  lemma NewestFirstApplicationsOrder(apps: seq<Application>)
    requires SortedBy(apps, NewestFirstApplication)
    ensures forall i, j :: 0 <= i < j < |apps| ==> apps[i].stamps.createdAt >= apps[j].stamps.createdAt
  {
    forall i, j | 0 <= i < j < |apps| ensures apps[i].stamps.createdAt >= apps[j].stamps.createdAt {
      assert NewestFirstApplication(apps[i]) <= NewestFirstApplication(apps[j]);
    }
  }

  lemma NewestFirstLikesOrder(likes: seq<Like>)
    requires SortedBy(likes, NewestFirstLike)
    ensures forall i, j :: 0 <= i < j < |likes| ==> likes[i].stamps.createdAt >= likes[j].stamps.createdAt
  {
    forall i, j | 0 <= i < j < |likes| ensures likes[i].stamps.createdAt >= likes[j].stamps.createdAt {
      assert NewestFirstLike(likes[i]) <= NewestFirstLike(likes[j]);
    }
  }

  /** `my_dashboard`: exactly the requester's applications and likes, each
      newest first by `created_at`. */
  function MyDashboard(st: Store, who: Principal): (r: Response)
    ensures who.Anonymous? <==> r == RedirectToLogin
    ensures who.Authenticated? ==> r.Render? && r.page.DashboardPage?
    ensures r.Render? ==>
              && (forall a :: multiset(r.page.applications)[a] ==
                    if a.user == who.user.id then multiset(st.applications)[a] else 0)
              && (forall i, j :: 0 <= i < j < |r.page.applications| ==>
                    r.page.applications[i].stamps.createdAt >= r.page.applications[j].stamps.createdAt)
    ensures r.Render? ==>
              && (forall l :: multiset(r.page.likes)[l] ==
                    if l.user == who.user.id then multiset(st.likes)[l] else 0)
              && (forall i, j :: 0 <= i < j < |r.page.likes| ==>
                    r.page.likes[i].stamps.createdAt >= r.page.likes[j].stamps.createdAt)
  {
    if who.Anonymous? then RedirectToLogin
    else
      var uid := who.user.id;
      var apps := SortBy(SelectByKey(st.applications, ApplicationUser, uid), NewestFirstApplication);
      var likes := SortBy(SelectByKey(st.likes, LikeUser, uid), NewestFirstLike);
      NewestFirstApplicationsOrder(apps);
      NewestFirstLikesOrder(likes);
      Render(DashboardPage(apps, likes))
  }

  // ---------------------------------------------------------------------
  // Any sequence of requests

  datatype Request =
    | ApplyRequest(who: Principal, pk: Id, verb: Method, motivation: Option<string>, now: nat)
    | ToggleLikeRequest(who: Principal, pk: Id, verb: Method, now: nat)
    | EventDetailRequest(who: Principal, pk: Id)
    | DashboardRequest(who: Principal)

  function Handle(st: Store, req: Request): Outcome {
    match req
    case ApplyRequest(who, pk, m, d, now) => ApplyToEvent(st, who, pk, m, d, now)
    case ToggleLikeRequest(who, pk, m, now) => ToggleLike(st, who, pk, m, now)
    case EventDetailRequest(who, pk) => Outcome(EventDetail(st, who, pk), st)
    case DashboardRequest(who) => Outcome(MyDashboard(st, who), st)
  }

  /** The store after serving `reqs` one after another. */
  function Serve(st: Store, reqs: seq<Request>): Store
    decreases |reqs|
  {
    if |reqs| == 0 then st else Serve(Handle(st, reqs[0]).store, reqs[1..])
  }

  /** Whatever requests arrive, the schema constraints keep holding, so every
      (user, event) pair has at most one application and at most one like. */
  lemma {:induction false} ServeKeepsValid(st: Store, reqs: seq<Request>)
    requires Valid(st)
    ensures Valid(Serve(st, reqs))
    ensures forall u: Id, e: Id :: |Filter(Serve(st, reqs).applications, KeyIs(ApplicationKey, Pair(u, e)))| <= 1
    ensures forall u: Id, e: Id :: |Filter(Serve(st, reqs).likes, KeyIs(LikeKey, Pair(u, e)))| <= 1
    decreases |reqs|
  {
    if |reqs| > 0 {
      match reqs[0] {
        case ApplyRequest(who, pk, m, d, now) => ApplyKeepsValid(st, who, pk, m, d, now);
        case ToggleLikeRequest(who, pk, m, now) => ToggleKeepsValid(st, who, pk, m, now);
        case EventDetailRequest(_, _) =>
        case DashboardRequest(_) =>
      }
      ServeKeepsValid(Handle(st, reqs[0]).store, reqs[1..]);
    }
    var fin := Serve(st, reqs);
    forall u: Id, e: Id ensures |Filter(fin.applications, KeyIs(ApplicationKey, Pair(u, e)))| <= 1
                             && |Filter(fin.likes, KeyIs(LikeKey, Pair(u, e)))| <= 1 {
      AtMostOnePerPair(fin, u, e);
    }
  }
}
