/**
 * The read-only operations: the class catalogue with live availability, a trainer's
 * schedule, member search and details, admin sign-in, and the MemberHealthSummary view.
 */
module Queries {
  import opened Wrappers
  import opened Seqs
  import opened Text
  import opened Schema

  function ClassTime(c: FitnessClass): int { c.classTime }
  function SessionTime(p: PTSession): int { p.sessionTime }
  function RoomIdName(r: Room): (int, string) { (r.id, r.name) }
  function TrainerIdName(x: Trainer): (int, string) { (x.id, x.name) }
  function MemberIdName(m: Member): (int, string) { (m.id, m.name) }

  // ---------------------------------------------------------------------------
  // view_available_classes

  /** What the catalogue shows in its last column. */
  datatype Availability = Full | Spots(count: int)

  /** One line of the class catalogue. */
  datatype ClassListing = ClassListing(
    cls: FitnessClass, trainerName: string, roomName: string,
    enrolled: nat, spaces: int, status: Availability)

  /** The inner joins with Room and Trainer keep a class whose room and trainer both exist. */
  function HasRoomAndTrainer(t: Tables): (p: FitnessClass -> bool)
    ensures forall c :: p(c) <==> c.roomId in Keys(t.rooms, RoomId) && c.trainerId in Keys(t.trainers, TrainerId)
  {
    (c: FitnessClass) => c.roomId in Keys(t.rooms, RoomId) && c.trainerId in Keys(t.trainers, TrainerId)
  }

  /** The catalogue line of one class: its live enrollment count and the spaces left. */
  function Listing(t: Tables, c: FitnessClass): (l: ClassListing)
    requires c.roomId in Keys(t.rooms, RoomId) && c.trainerId in Keys(t.trainers, TrainerId)
    ensures l.cls == c
    ensures (c.roomId, l.roomName) in Keys(t.rooms, RoomIdName)
    ensures (c.trainerId, l.trainerName) in Keys(t.trainers, TrainerIdName)
    ensures l.enrolled == EnrolledCount(t.enrollments, c.id)
    ensures l.spaces == c.capacity - l.enrolled
    ensures l.status == Full <==> l.spaces == 0
    ensures l.status.Spots? ==> l.status.count == l.spaces
  {
    var room := t.rooms[FirstIndex(t.rooms, RoomId, c.roomId)];
    var trainer := t.trainers[FirstIndex(t.trainers, TrainerId, c.trainerId)];
    assert room in t.rooms && trainer in t.trainers;
    var n := EnrolledCount(t.enrollments, c.id);
    var spaces := c.capacity - n;
    ClassListing(c, trainer.name, room.name, n, spaces, if spaces == 0 then Full else Spots(spaces))
  }

  /** The classes a listing shows, in order. */
  function ListedClasses(r: seq<ClassListing>): (cs: seq<FitnessClass>)
    ensures |cs| == |r| && forall i :: 0 <= i < |r| ==> cs[i] == r[i].cls
  {
    seq(|r|, i requires 0 <= i < |r| => r[i].cls)
  }

  /**
   * The class catalogue: every class whose room and trainer exist, ordered by class time,
   * each with its enrollment count and spaces left ("FULL" exactly when none are left).
   */
  function AvailableClasses(t: Tables): (r: seq<ClassListing>)
    ensures forall i, j :: 0 <= i < j < |r| ==> r[i].cls.classTime <= r[j].cls.classTime
    ensures multiset(ListedClasses(r)) == multiset(Filter(t.classes, HasRoomAndTrainer(t)))
    ensures forall l :: l in r ==> l.cls.roomId in Keys(t.rooms, RoomId) && l.cls.trainerId in Keys(t.trainers, TrainerId)
    ensures forall l :: l in r ==> l == Listing(t, l.cls)
  {
    var joined := Filter(t.classes, HasRoomAndTrainer(t));
    var sorted := SortBy(joined, ClassTime);
    SameMembers(sorted, joined);
    var r := Listings(t, sorted);
    assert ListedClasses(r) == sorted;
    r
  }

  /** The catalogue lines of `cs`, in order. */
  function Listings(t: Tables, cs: seq<FitnessClass>): (r: seq<ClassListing>)
    requires forall c :: c in cs ==> c.roomId in Keys(t.rooms, RoomId) && c.trainerId in Keys(t.trainers, TrainerId)
    ensures |r| == |cs| && forall i :: 0 <= i < |cs| ==> r[i] == Listing(t, cs[i])
  {
    if cs == [] then [] else [Listing(t, cs[0])] + Listings(t, cs[1..])
  }

  /** In valid tables the catalogue lists every class exactly once. */
  lemma CatalogueListsEveryClass(t: Tables)
    requires Valid(t)
    ensures multiset(ListedClasses(AvailableClasses(t))) == multiset(t.classes)
  {
    FilterAll(t.classes, HasRoomAndTrainer(t));
  }

  /**
   * While no class is overbooked the catalogue never shows a negative number of spaces, and
   * it shows FULL exactly for the classes whose enrollments have reached their capacity.
   */
  lemma CatalogueSpacesNonNegative(t: Tables)
    requires ClassesNotOverbooked(t)
    ensures forall l :: l in AvailableClasses(t) ==>
      l.spaces >= 0 && (l.status == Full <==> l.enrolled == l.cls.capacity)
  {
    var r := AvailableClasses(t);
    forall l | l in r ensures l.spaces >= 0 {
      var i :| 0 <= i < |r| && r[i] == l;
      assert ListedClasses(r)[i] == l.cls;
      assert l.cls in multiset(Filter(t.classes, HasRoomAndTrainer(t)));
    }
  }

  // ---------------------------------------------------------------------------
  // view_trainer_schedule

  datatype SessionEntry = SessionEntry(session: PTSession, memberName: string)
  datatype ClassEntry = ClassEntry(cls: FitnessClass, roomName: string)
  datatype Schedule = Schedule(sessions: seq<SessionEntry>, classes: seq<ClassEntry>)

  /** Sessions of the trainer whose member exists (the inner join with Member). */
  function TrainerSessionJoined(t: Tables, trainerId: int): (p: PTSession -> bool)
    ensures forall s :: p(s) <==> s.trainerId == trainerId && s.memberId in Keys(t.members, MemberId)
  {
    (s: PTSession) => s.trainerId == trainerId && s.memberId in Keys(t.members, MemberId)
  }

  /** Classes of the trainer whose room exists (the inner join with Room). */
  function TrainerClassJoined(t: Tables, trainerId: int): (p: FitnessClass -> bool)
    ensures forall c :: p(c) <==> c.trainerId == trainerId && c.roomId in Keys(t.rooms, RoomId)
  {
    (c: FitnessClass) => c.trainerId == trainerId && c.roomId in Keys(t.rooms, RoomId)
  }

  function ScheduledSessions(s: seq<SessionEntry>): (ps: seq<PTSession>)
    ensures |ps| == |s| && forall i :: 0 <= i < |s| ==> ps[i] == s[i].session
  {
    seq(|s|, i requires 0 <= i < |s| => s[i].session)
  }

  function ScheduledClasses(s: seq<ClassEntry>): (cs: seq<FitnessClass>)
    ensures |cs| == |s| && forall i :: 0 <= i < |s| ==> cs[i] == s[i].cls
  {
    seq(|s|, i requires 0 <= i < |s| => s[i].cls)
  }

  /**
   * A trainer's schedule: NotFound for an unknown trainer, otherwise the trainer's PT
   * sessions and classes, each ordered by time, with the member's and the room's name.
   */
  function TrainerSchedule(t: Tables, trainerId: int): (r: Result<Schedule, Error>)
    ensures r.Err? <==> trainerId !in Keys(t.trainers, TrainerId)
    ensures r.Err? ==> r.error == NotFound
    ensures r.Ok? ==> var ps := r.value.sessions;
      && (forall i, j :: 0 <= i < j < |ps| ==> ps[i].session.sessionTime <= ps[j].session.sessionTime)
      && multiset(ScheduledSessions(ps)) == multiset(Filter(t.sessions, TrainerSessionJoined(t, trainerId)))
      && (forall e :: e in ps ==> (e.session.memberId, e.memberName) in Keys(t.members, MemberIdName))
    ensures r.Ok? ==> var cs := r.value.classes;
      && (forall i, j :: 0 <= i < j < |cs| ==> cs[i].cls.classTime <= cs[j].cls.classTime)
      && multiset(ScheduledClasses(cs)) == multiset(Filter(t.classes, TrainerClassJoined(t, trainerId)))
      && (forall e :: e in cs ==> (e.cls.roomId, e.roomName) in Keys(t.rooms, RoomIdName))
  {
    if trainerId !in Keys(t.trainers, TrainerId) then Err(NotFound)
    else
      var ps := SortBy(Filter(t.sessions, TrainerSessionJoined(t, trainerId)), SessionTime);
      var cs := SortBy(Filter(t.classes, TrainerClassJoined(t, trainerId)), ClassTime);
      SameMembers(ps, Filter(t.sessions, TrainerSessionJoined(t, trainerId)));
      SameMembers(cs, Filter(t.classes, TrainerClassJoined(t, trainerId)));
      var sessions := SessionEntries(t, ps);
      var classes := ClassEntries(t, cs);
      assert ScheduledSessions(sessions) == ps;
      assert ScheduledClasses(classes) == cs;
      Ok(Schedule(sessions, classes))
  }

  function SessionEntries(t: Tables, ps: seq<PTSession>): (r: seq<SessionEntry>)
    requires forall p :: p in ps ==> p.memberId in Keys(t.members, MemberId)
    ensures |r| == |ps|
    ensures forall i :: 0 <= i < |ps| ==> r[i].session == ps[i]
    ensures forall e :: e in r ==> (e.session.memberId, e.memberName) in Keys(t.members, MemberIdName)
  {
    if ps == [] then [] else [SessionEntry(ps[0], MemberName(t, ps[0].memberId))] + SessionEntries(t, ps[1..])
  }

  function ClassEntries(t: Tables, cs: seq<FitnessClass>): (r: seq<ClassEntry>)
    requires forall c :: c in cs ==> c.roomId in Keys(t.rooms, RoomId)
    ensures |r| == |cs|
    ensures forall i :: 0 <= i < |cs| ==> r[i].cls == cs[i]
    ensures forall e :: e in r ==> (e.cls.roomId, e.roomName) in Keys(t.rooms, RoomIdName)
  {
    if cs == [] then [] else [ClassEntry(cs[0], RoomNameOf(t, cs[0].roomId))] + ClassEntries(t, cs[1..])
  }

  function MemberName(t: Tables, id: int): (n: string)
    requires id in Keys(t.members, MemberId)
    ensures (id, n) in Keys(t.members, MemberIdName)
  {
    var m := t.members[FirstIndex(t.members, MemberId, id)];
    assert m in t.members;
    m.name
  }

  function RoomNameOf(t: Tables, id: int): (n: string)
    requires id in Keys(t.rooms, RoomId)
    ensures (id, n) in Keys(t.rooms, RoomIdName)
  {
    var room := t.rooms[FirstIndex(t.rooms, RoomId, id)];
    assert room in t.rooms;
    room.name
  }

  /** In valid tables the schedule drops none of the trainer's sessions or classes. */
  lemma ScheduleIsComplete(t: Tables, trainerId: int)
    requires Valid(t) && trainerId in Keys(t.trainers, TrainerId)
    ensures var s := TrainerSchedule(t, trainerId).value;
      && multiset(ScheduledSessions(s.sessions)) == multiset(Filter(t.sessions, KeyIs(SessionTrainer, trainerId)))
      && multiset(ScheduledClasses(s.classes)) == multiset(Filter(t.classes, KeyIs(ClassTrainer, trainerId)))
  {
    FilterSame(t.sessions, TrainerSessionJoined(t, trainerId), KeyIs(SessionTrainer, trainerId));
    FilterSame(t.classes, TrainerClassJoined(t, trainerId), KeyIs(ClassTrainer, trainerId));
  }

  /** Two WHERE clauses that agree on every row select the same rows. */
  lemma {:induction false} FilterSame<T(!new)>(s: seq<T>, p: T -> bool, q: T -> bool)
    requires forall x :: x in s ==> (p(x) <==> q(x))
    ensures Filter(s, p) == Filter(s, q)
  {
    if s != [] {
      assert s[0] in s;
      assert forall x :: x in s[1..] ==> x in s;
      FilterSame(s[1..], p, q);
    }
  }

  // ---------------------------------------------------------------------------
  // member_lookup

  /** The LIKE pattern built from the search text: `%` + lower(text) + `%`. */
  function NamePattern(query: string): string
  {
    "%" + Lower(query) + "%"
  }

  function NameMatches(query: string): (p: Member -> bool)
    ensures forall m :: p(m) <==> Like(Lower(m.name), NamePattern(query))
  {
    (m: Member) => Like(Lower(m.name), NamePattern(query))
  }

  /**
   * The members whose lower-cased name is LIKE the pattern built from the search text. The
   * text is used as a pattern as it is, so `%`, `_` and backslash in it keep their LIKE meaning.
   */
  function MemberLookup(t: Tables, query: string): (r: seq<Member>)
    ensures forall m :: m in r <==> m in t.members && Like(Lower(m.name), NamePattern(query))
  {
    Filter(t.members, NameMatches(query))
  }

  /**
   * For search text without LIKE special characters, the lookup is a case-insensitive
   * substring search on the name.
   */
  lemma LookupIsSubstringSearch(t: Tables, query: string, m: Member)
    requires IsLiteral(query)
    ensures m in MemberLookup(t, query) <==> m in t.members && Contains(Lower(m.name), Lower(query))
  {
    LowerKeepsLiteral(query);
    LikeIsSubstringSearch(Lower(m.name), Lower(query));
  }

  /** The search text "_" is a wildcard: it finds every member with a non-empty name. */
  lemma UnderscoreFindsEveryNamedMember(t: Tables, m: Member)
    requires m in t.members && m.name != []
    ensures m in MemberLookup(t, "_")
  {
    var s := Lower(m.name);
    assert NamePattern("_") == "%" + "_%";
    LikeLeadingPercent(s, "_%");
    assert "_%"[1..] == "%";
    LikePercentMatchesAll(s[1..]);
    assert s[0..] == s;
  }

  /** The details shown for one member. */
  datatype MemberDetails = MemberDetails(member: Member, latestMetric: Option<HealthMetric>, goals: seq<FitnessGoal>)

  /**
   * The health metric of `memberId` with the latest timestamp (ORDER BY timestamp DESC, first
   * row), or None when the member has none.
   */
  function LatestMetric(ms: seq<HealthMetric>, memberId: int): (r: Option<HealthMetric>)
    ensures r.None? <==> memberId !in Keys(ms, MetricMember)
    ensures r.Some? ==> r.value in ms && r.value.memberId == memberId
    ensures r.Some? ==> forall h :: h in ms && h.memberId == memberId ==> h.timestamp <= r.value.timestamp
  {
    if ms == [] then None
    else
      assert ms == [ms[0]] + ms[1..];
      KeysCons(ms, MetricMember);
      var rest := LatestMetric(ms[1..], memberId);
      if ms[0].memberId != memberId then rest
      else if rest.Some? && rest.value.timestamp > ms[0].timestamp then rest
      else Some(ms[0])
  }

  /** The details of member `memberId`: NotFound, or the member, its latest metric and its goals. */
  function LookupDetails(t: Tables, memberId: int): (r: Result<MemberDetails, Error>)
    ensures r.Err? <==> memberId !in Keys(t.members, MemberId)
    ensures r.Err? ==> r.error == NotFound
    ensures r.Ok? ==> r.value.member in t.members && r.value.member.id == memberId
    ensures r.Ok? ==> r.value.latestMetric == LatestMetric(t.metrics, memberId)
    ensures r.Ok? ==> forall g :: g in r.value.goals <==> g in t.goals && g.memberId == memberId
  {
    var i := FirstIndex(t.members, MemberId, memberId);
    if i < 0 then Err(NotFound)
    else Ok(MemberDetails(t.members[i], LatestMetric(t.metrics, memberId), Filter(t.goals, KeyIs(GoalMember, memberId))))
  }

  // ---------------------------------------------------------------------------
  // authenticate_admin

  /**
   * Sign-in: the admin with that username, when its stored password equals the one entered
   * (a plain comparison; nothing is hashed).
   */
  function AuthenticateAdmin(t: Tables, username: string, password: string): (r: Option<Admin>)
    ensures r.Some? ==> r.value in t.admins && r.value.username == username && r.value.passwordHash == password
  {
    var i := FirstIndex(t.admins, AdminUsername, username);
    if i >= 0 && t.admins[i].passwordHash == password then
      assert t.admins[i] in t.admins;
      Some(t.admins[i])
    else None
  }

  /** With unique usernames, sign-in succeeds exactly for a stored username and password pair. */
  lemma AuthenticateExact(t: Tables, username: string, password: string)
    requires UniqueBy(t.admins, AdminUsername)
    ensures AuthenticateAdmin(t, username, password).Some? <==>
      exists a :: a in t.admins && a.username == username && a.passwordHash == password
  {
    if exists a :: a in t.admins && a.username == username && a.passwordHash == password {
      var a :| a in t.admins && a.username == username && a.passwordHash == password;
      var k :| 0 <= k < |t.admins| && t.admins[k] == a;
      var i := FirstIndex(t.admins, AdminUsername, username);
      assert AdminUsername(t.admins[k]) == username;
      assert i == k;
    }
  }

  // ---------------------------------------------------------------------------
  // The MemberHealthSummary view

  datatype MetricReading = MetricReading(metricType: string, metricValue: int, timestamp: Instant)

  /** One row of the view: a member and its most recent metric (NULLs when it has none). */
  datatype HealthSummaryRow = HealthSummaryRow(memberId: int, memberName: string, email: string, last: Option<MetricReading>)

  function Reading(h: HealthMetric): MetricReading
  {
    MetricReading(h.metricType, h.metricValue, h.timestamp)
  }

  function MemberReading(h: HealthMetric): (int, MetricReading) { (h.memberId, Reading(h)) }

  /** The view row of one member (the LEFT JOIN LATERAL of its latest metric). */
  function SummaryRow(ms: seq<HealthMetric>, m: Member): HealthSummaryRow
  {
    var latest := LatestMetric(ms, m.id);
    HealthSummaryRow(m.id, m.name, m.email, if latest.Some? then Some(Reading(latest.value)) else None)
  }

  /**
   * The view: one row per member, in table order, showing the member's most recent health
   * metric, or nothing when the member has none.
   */
  function HealthSummary(t: Tables): (r: seq<HealthSummaryRow>)
    ensures |r| == |t.members|
    ensures forall i :: 0 <= i < |r| ==>
      r[i].memberId == t.members[i].id && r[i].memberName == t.members[i].name && r[i].email == t.members[i].email
    ensures forall i :: 0 <= i < |r| ==> (r[i].last.None? <==> t.members[i].id !in Keys(t.metrics, MetricMember))
    ensures forall i :: 0 <= i < |r| && r[i].last.Some? ==>
      && (r[i].memberId, r[i].last.value) in Keys(t.metrics, MemberReading)
      && forall h :: h in t.metrics && h.memberId == r[i].memberId ==> h.timestamp <= r[i].last.value.timestamp
  {
    var r := seq(|t.members|, i requires 0 <= i < |t.members| => SummaryRow(t.metrics, t.members[i]));
    forall i | 0 <= i < |r| && r[i].last.Some?
      ensures (r[i].memberId, r[i].last.value) in Keys(t.metrics, MemberReading)
    {
      var h := LatestMetric(t.metrics, t.members[i].id).value;
      assert MemberReading(h) == (r[i].memberId, r[i].last.value);
    }
    r
  }
}
