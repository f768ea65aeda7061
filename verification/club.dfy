/**
 * The club's database as a mutable store, and the operations of the console application
 * that change it. Every operation either commits one change or is refused and leaves the
 * tables as they were (the `rollback` of each `except` branch). Each table's SERIAL id
 * comes from a counter that, like a PostgreSQL sequence, is consumed by every INSERT the
 * application issues, whether or not the row is then stored.
 */
module Club {
  import opened Wrappers
  import opened Seqs
  import opened Text
  import opened Schema
  import opened Queries

  /** The date of birth as typed: left empty, not a valid date, or a date. */
  datatype BirthDate = NotGiven | Unparsable | Parsed(date: Date)

  /** An unparsable date of birth is dropped with a warning; the member is still registered. */
  function BirthDateValue(b: BirthDate): Option<Date>
  {
    if b.Parsed? then Some(b.date) else None
  }

  /** Python's `text or None`: an empty answer to an optional prompt is stored as NULL. */
  function OrNone(s: string): Option<string>
  {
    if s == [] then None else Some(s)
  }

  /**
   * A profile edit: each of the name and phone answers is stripped, and an answer that is
   * blank after stripping keeps the current value. Nothing else is touched.
   */
  function EditProfile(m: Member, nameInput: string, phoneInput: string): (r: Member)
    ensures r.id == m.id && r.email == m.email && r.dateOfBirth == m.dateOfBirth && r.gender == m.gender
    ensures IsBlank(nameInput) ==> r.name == m.name
    ensures !IsBlank(nameInput) ==> r.name == Strip(nameInput) && r.name != []
    ensures IsBlank(phoneInput) ==> r.phone == m.phone
    ensures !IsBlank(phoneInput) ==> r.phone == Some(Strip(phoneInput))
  {
    var name := Strip(nameInput);
    var phone := Strip(phoneInput);
    assert name == [] <==> IsBlank(nameInput);
    assert phone == [] <==> IsBlank(phoneInput);
    m.(name := if name == [] then m.name else name,
       phone := if phone == [] then m.phone else Some(phone))
  }

  /** Editing with the same answers a second time changes nothing more. */
  lemma EditProfileIdempotent(m: Member, nameInput: string, phoneInput: string)
    ensures EditProfile(EditProfile(m, nameInput, phoneInput), nameInput, phoneInput)
      == EditProfile(m, nameInput, phoneInput)
  {
  }

  /** The class with id `classId`, if there is one (a query by id followed by `.first()`). */
  function FindClass(cs: seq<FitnessClass>, classId: int): (r: Option<FitnessClass>)
    ensures r.None? <==> classId !in Keys(cs, ClassId)
    ensures r.Some? ==> r.value in cs && r.value.id == classId
  {
    var i := FirstIndex(cs, ClassId, classId);
    if i < 0 then None
    else
      assert cs[i] in cs;
      Some(cs[i])
  }

  /**
   * What signing member `memberId` up for class `classId` leads to: NotFound for an unknown
   * member or class, AlreadyEnrolled, ClassFull with the class's capacity and count, or the
   * number of places left once the new enrollment is in.
   */
  function SignupOutcome(t: Tables, memberId: int, classId: int): (r: Result<int, Error>)
    ensures r == Err(NotFound) <==>
      memberId !in Keys(t.members, MemberId) || classId !in Keys(t.classes, ClassId)
    ensures r == Err(AlreadyEnrolled) <==>
      memberId in Keys(t.members, MemberId) && classId in Keys(t.classes, ClassId)
      && (memberId, classId) in Keys(t.enrollments, MemberClass)
    ensures r.Ok? <==>
      memberId in Keys(t.members, MemberId) && classId in Keys(t.classes, ClassId)
      && (memberId, classId) !in Keys(t.enrollments, MemberClass)
      && EnrolledCount(t.enrollments, classId) < FindClass(t.classes, classId).value.capacity
    ensures r.Ok? ==> r.value == FindClass(t.classes, classId).value.capacity - EnrolledCount(t.enrollments, classId) - 1
    ensures (r.Err? && r.error.ClassFull?) <==>
      memberId in Keys(t.members, MemberId) && classId in Keys(t.classes, ClassId)
      && (memberId, classId) !in Keys(t.enrollments, MemberClass)
      && EnrolledCount(t.enrollments, classId) >= FindClass(t.classes, classId).value.capacity
    ensures r.Err? && r.error.ClassFull? ==>
      r.error == ClassFull(FindClass(t.classes, classId).value.capacity, EnrolledCount(t.enrollments, classId))
      && r.error.enrolled >= r.error.capacity
  {
    if memberId !in Keys(t.members, MemberId) then Err(NotFound)
    else match FindClass(t.classes, classId)
      case None => Err(NotFound)
      case Some(c) =>
        if (memberId, classId) in Keys(t.enrollments, MemberClass) then Err(AlreadyEnrolled)
        else
          var n := EnrolledCount(t.enrollments, classId);
          if n >= c.capacity then Err(ClassFull(c.capacity, n)) else Ok(c.capacity - n - 1)
  }

  /**
   * A successful signup keeps the tables valid and no class overbooked; it adds one to the
   * class's count, the places it reports are the capacity less the new count, and signing
   * up again for the same class is refused as AlreadyEnrolled.
   */
  lemma SignupKeepsCapacity(t: Tables, e: ClassEnrollment)
    requires Valid(t) && ClassesNotOverbooked(t)
    requires SignupOutcome(t, e.memberId, e.classId).Ok?
    requires e.id !in Keys(t.enrollments, EnrollmentId)
    ensures var t' := t.(enrollments := t.enrollments + [e]);
      && Valid(t') && ClassesNotOverbooked(t')
      && EnrolledCount(t'.enrollments, e.classId) == EnrolledCount(t.enrollments, e.classId) + 1
      && EnrolledCount(t'.enrollments, e.classId) <= FindClass(t.classes, e.classId).value.capacity
      && SignupOutcome(t, e.memberId, e.classId).value
         == FindClass(t.classes, e.classId).value.capacity - EnrolledCount(t'.enrollments, e.classId)
      && SignupOutcome(t', e.memberId, e.classId) == Err(AlreadyEnrolled)
  {
    var t' := t.(enrollments := t.enrollments + [e]);
    var c := FindClass(t.classes, e.classId).value;
    assert EnrollmentViolation(t, e).None?;
    EnrollmentInsertExact(t, e);
    forall d | d in t.classes && d.id == e.classId
      ensures EnrolledCount(t.enrollments, d.id) < d.capacity
    {
      FirstIndexUnique(t.classes, ClassId, d);
      FirstIndexUnique(t.classes, ClassId, c);
    }
    EnrollmentKeepsCapacity(t, e);
    KeysAppend(t.enrollments, e, MemberClass);
    assert MemberClass(e) == (e.memberId, e.classId);
  }

  const DefaultAdminUsername := "admin"
  const DefaultAdminPassword := "admin123"
  const DefaultAdminEmail := "admin@fitnessclub.com"

  /** The account created at start-up when no admin is called 'admin'. */
  function DefaultAdmin(id: int): Admin
  {
    Admin(id, DefaultAdminUsername, DefaultAdminPassword, "System Administrator", DefaultAdminEmail)
  }

  /** Once the default account is stored, signing in with its username and password finds it. */
  lemma DefaultAdminSignsIn(t: Tables, a: Admin)
    requires UniqueBy(t.admins + [a], AdminUsername)
    requires a.username == DefaultAdminUsername && a.passwordHash == DefaultAdminPassword
    ensures DefaultAdminUsername in Keys(t.admins + [a], AdminUsername)
    ensures AuthenticateAdmin(t.(admins := t.admins + [a]), DefaultAdminUsername, DefaultAdminPassword) == Some(a)
  {
    assert a in t.admins + [a];
    FirstIndexUnique(t.admins + [a], AdminUsername, a);
  }

  lemma InsertMemberKeeps(t: Tables, n: NextIds, m: Member)
    requires StoreInvariant(t, n) && m.id == n.members && MemberViolation(t, m).None?
    ensures StoreInvariant(t.(members := t.members + [m]), n.(members := n.members + 1))
  {
    MemberInsertExact(t, m);
  }

  lemma UpdateMemberKeeps(t: Tables, n: NextIds, i: nat, m: Member)
    requires StoreInvariant(t, n) && i < |t.members|
    requires m.id == t.members[i].id && m.email == t.members[i].email
    ensures StoreInvariant(t.(members := t.members[i := m]), n)
  {
    MemberUpdateKeepsValid(t, i, m);
    assert forall x :: x in t.members[i := m] ==> x == m || x in t.members;
  }

  lemma InsertTrainerKeeps(t: Tables, n: NextIds, x: Trainer)
    requires StoreInvariant(t, n) && x.id == n.trainers && TrainerViolation(t, x).None?
    ensures StoreInvariant(t.(trainers := t.trainers + [x]), n.(trainers := n.trainers + 1))
  {
    TrainerInsertExact(t, x);
  }

  lemma InsertAdminKeeps(t: Tables, n: NextIds, a: Admin)
    requires StoreInvariant(t, n) && a.id == n.admins && AdminViolation(t, a).None?
    ensures StoreInvariant(t.(admins := t.admins + [a]), n.(admins := n.admins + 1))
  {
    AdminInsertExact(t, a);
  }

  lemma InsertMetricKeeps(t: Tables, n: NextIds, h: HealthMetric)
    requires StoreInvariant(t, n) && h.id == n.metrics && MetricViolation(t, h).None?
    ensures StoreInvariant(t.(metrics := t.metrics + [h]), n.(metrics := n.metrics + 1))
  {
    MetricInsertExact(t, h);
  }

  lemma InsertRoomKeeps(t: Tables, n: NextIds, r: Room)
    requires StoreInvariant(t, n) && r.id == n.rooms && RoomViolation(t, r).None?
    ensures StoreInvariant(t.(rooms := t.rooms + [r]), n.(rooms := n.rooms + 1))
  {
    RoomInsertExact(t, r);
  }

  lemma InsertClassKeeps(t: Tables, n: NextIds, c: FitnessClass)
    requires StoreInvariant(t, n) && c.id == n.classes && ClassViolation(t, c).None?
    ensures StoreInvariant(t.(classes := t.classes + [c]), n.(classes := n.classes + 1))
  {
    ClassInsertExact(t, c);
    ClassInsertNotOverbooked(t, c);
    ClassIdsBelow(t, n, c);
  }

  lemma ClassIdsBelow(t: Tables, n: NextIds, c: FitnessClass)
    requires IdsBelow(t, n) && c.id == n.classes
    ensures IdsBelow(t.(classes := t.classes + [c]), n.(classes := n.classes + 1))
  {
  }

  lemma InsertSessionKeeps(t: Tables, n: NextIds, p: PTSession)
    requires StoreInvariant(t, n) && p.id == n.sessions && SessionViolation(t, p).None?
    ensures StoreInvariant(t.(sessions := t.sessions + [p]), n.(sessions := n.sessions + 1))
  {
    SessionInsertExact(t, p);
  }

  lemma InsertEnrollmentKeeps(t: Tables, n: NextIds, e: ClassEnrollment)
    requires StoreInvariant(t, n) && e.id == n.enrollments && SignupOutcome(t, e.memberId, e.classId).Ok?
    ensures StoreInvariant(t.(enrollments := t.enrollments + [e]), n.(enrollments := n.enrollments + 1))
    ensures EnrolledCount(t.enrollments + [e], e.classId) == EnrolledCount(t.enrollments, e.classId) + 1
  {
    NextIdsFresh(t, n);
    SignupKeepsCapacity(t, e);
  }

  /** The nine tables and, for each table the application inserts into, its id sequence. */
  class Store {
    var members: seq<Member>
    var trainers: seq<Trainer>
    var admins: seq<Admin>
    var goals: seq<FitnessGoal>
    var metrics: seq<HealthMetric>
    var rooms: seq<Room>
    var classes: seq<FitnessClass>
    var sessions: seq<PTSession>
    var enrollments: seq<ClassEnrollment>

    var nextMember: int
    var nextTrainer: int
    var nextAdmin: int
    var nextMetric: int
    var nextRoom: int
    var nextClass: int
    var nextSession: int
    var nextEnrollment: int

    /** The tables as a value. */
    function Snapshot(): Tables
      reads this
    {
      Tables(members, trainers, admins, goals, metrics, rooms, classes, sessions, enrollments)
    }

    /** The sequences as a value. */
    function Next(): NextIds
      reads this
    {
      NextIds(nextMember, nextTrainer, nextAdmin, nextMetric, nextRoom, nextClass, nextSession, nextEnrollment)
    }

    ghost predicate Valid()
      reads this
    {
      StoreInvariant(Snapshot(), Next())
    }

    /** Freshly created tables: all empty, every sequence starting at 1. */
    constructor()
      ensures Valid()
      ensures Snapshot() == EmptyTables
      ensures Next() == NextIds(1, 1, 1, 1, 1, 1, 1, 1)
    {
      members, trainers, admins, goals, metrics := [], [], [], [], [];
      rooms, classes, sessions, enrollments := [], [], [], [];
      nextMember, nextTrainer, nextAdmin, nextMetric := 1, 1, 1, 1;
      nextRoom, nextClass, nextSession, nextEnrollment := 1, 1, 1, 1;
      EmptyTablesValid();
    }

    /**
     * register_member: inserts the member, storing empty optional answers and an
     * unparsable date of birth as NULL; refused, with nothing stored, exactly when the
     * email is already registered.
     */
    method RegisterMember(name: string, email: string, dob: BirthDate, gender: string, phone: string)
      returns (r: Result<int, Error>)
      requires Valid()
      modifies this`members, this`nextMember
      ensures Valid()
      ensures nextMember == old(nextMember) + 1
      ensures r.Ok? <==> email !in Keys(old(members), MemberEmail)
      ensures r.Ok? ==>
        && r.value == old(nextMember)
        && members == old(members) + [Member(old(nextMember), name, email, BirthDateValue(dob), OrNone(gender), OrNone(phone))]
      ensures r.Err? ==> r.error == UniqueViolation("Member_email_key") && members == old(members)
    {
      ghost var t, n := Snapshot(), Next();
      NextIdsFresh(t, n);
      var m := Member(nextMember, name, email, BirthDateValue(dob), OrNone(gender), OrNone(phone));
      nextMember := nextMember + 1;
      var violation := MemberViolation(Snapshot(), m);
      if violation.Some? {
        SkipIds(t, n, Next());
        assert Snapshot() == t;
        r := Err(violation.value);
        return;
      }
      InsertMemberKeeps(t, n, m);
      members := members + [m];
      assert Snapshot() == t.(members := t.members + [m]) && Next() == n.(members := n.members + 1);
      r := Ok(m.id);
    }

    /**
     * update_member_profile: NotFound for an unknown member; otherwise the member's row is
     * replaced by its edit (see EditProfile), in place.
     */
    method UpdateMemberProfile(memberId: int, nameInput: string, phoneInput: string)
      returns (r: Result<Member, Error>)
      requires Valid()
      modifies this`members
      ensures Valid()
      ensures memberId !in Keys(old(members), MemberId) ==> r == Err(NotFound) && members == old(members)
      ensures memberId in Keys(old(members), MemberId) ==>
        var i := FirstIndex(old(members), MemberId, memberId);
        && r == Ok(EditProfile(old(members)[i], nameInput, phoneInput))
        && members == old(members)[i := r.value]
    {
      var i := FirstIndex(members, MemberId, memberId);
      if i < 0 {
        r := Err(NotFound);
        return;
      }
      var m := EditProfile(members[i], nameInput, phoneInput);
      ReplaceMember(i, m);
      r := Ok(m);
    }

    /** The UPDATE of row `i` of Member to `m`, which keeps the row's id and email. */
    method ReplaceMember(i: nat, m: Member)
      requires Valid() && i < |members| && m.id == members[i].id && m.email == members[i].email
      modifies this`members
      ensures Valid()
      ensures members == old(members)[i := m]
    {
      ghost var t, n := Snapshot(), Next();
      UpdateMemberKeeps(t, n, i, m);
      members := members[i := m];
      assert Snapshot() == t.(members := t.members[i := m]) && Next() == n;
    }

    /**
     * add_health_metric: NotFound, with nothing inserted, for an unknown member; otherwise
     * the reading is recorded with the current time.
     */
    method AddHealthMetric(memberId: int, metricType: string, metricValue: int, now: Instant)
      returns (r: Result<int, Error>)
      requires Valid()
      modifies this`metrics, this`nextMetric
      ensures Valid()
      ensures memberId !in Keys(members, MemberId) ==>
        r == Err(NotFound) && metrics == old(metrics) && nextMetric == old(nextMetric)
      ensures memberId in Keys(members, MemberId) ==>
        && r == Ok(old(nextMetric)) && nextMetric == old(nextMetric) + 1
        && metrics == old(metrics) + [HealthMetric(old(nextMetric), memberId, metricType, metricValue, now)]
    {
      if FirstIndex(members, MemberId, memberId) < 0 {
        r := Err(NotFound);
        return;
      }
      var id := InsertMetric(memberId, metricType, metricValue, now);
      r := Ok(id);
    }

    /** The INSERT of a reading for an existing member. */
    method InsertMetric(memberId: int, metricType: string, metricValue: int, now: Instant) returns (id: int)
      requires Valid() && memberId in Keys(members, MemberId)
      modifies this`metrics, this`nextMetric
      ensures Valid()
      ensures id == old(nextMetric) && nextMetric == old(nextMetric) + 1
      ensures metrics == old(metrics) + [HealthMetric(old(nextMetric), memberId, metricType, metricValue, now)]
    {
      ghost var t, n := Snapshot(), Next();
      NextIdsFresh(t, n);
      var h := HealthMetric(nextMetric, memberId, metricType, metricValue, now);
      nextMetric := nextMetric + 1;
      assert MetricViolation(t, h).None?;
      InsertMetricKeeps(t, n, h);
      metrics := metrics + [h];
      assert Snapshot() == t.(metrics := t.metrics + [h]) && Next() == n.(metrics := n.metrics + 1);
      id := h.id;
    }

    /**
     * book_pt_session: inserts a 'scheduled' session without looking anything up first; the
     * database refuses it, with nothing stored, exactly when the trainer already has a
     * session at that time or the member or the trainer does not exist.
     */
    method BookPTSession(memberId: int, trainerId: int, time: Instant) returns (r: Result<int, Error>)
      requires Valid()
      modifies this`sessions, this`nextSession
      ensures Valid()
      ensures nextSession == old(nextSession) + 1
      ensures r.Ok? <==>
        (trainerId, time) !in Keys(old(sessions), TrainerSlot)
        && memberId in Keys(members, MemberId) && trainerId in Keys(trainers, TrainerId)
      ensures r.Ok? ==>
        && r.value == old(nextSession)
        && sessions == old(sessions) + [PTSession(old(nextSession), memberId, trainerId, time, DefaultStatus)]
      ensures r.Err? ==>
        && sessions == old(sessions)
        && r.error == SessionViolation(old(Snapshot()), PTSession(old(nextSession), memberId, trainerId, time, DefaultStatus)).value
    {
      ghost var t, n := Snapshot(), Next();
      NextIdsFresh(t, n);
      var p := PTSession(nextSession, memberId, trainerId, time, DefaultStatus);
      nextSession := nextSession + 1;
      var violation := SessionViolation(Snapshot(), p);
      if violation.Some? {
        SkipIds(t, n, Next());
        assert Snapshot() == t;
        r := Err(violation.value);
        return;
      }
      InsertSessionKeeps(t, n, p);
      sessions := sessions + [p];
      assert Snapshot() == t.(sessions := t.sessions + [p]) && Next() == n.(sessions := n.sessions + 1);
      r := Ok(p.id);
    }

    /**
     * signup_for_class: the outcome is SignupOutcome's; only a successful signup inserts an
     * enrollment (and uses an id).
     */
    method SignupForClass(memberId: int, classId: int, now: Instant) returns (r: Result<int, Error>)
      requires Valid()
      modifies this`enrollments, this`nextEnrollment
      ensures Valid()
      ensures r == SignupOutcome(old(Snapshot()), memberId, classId)
      ensures r.Ok? ==>
        && nextEnrollment == old(nextEnrollment) + 1
        && enrollments == old(enrollments) + [ClassEnrollment(old(nextEnrollment), memberId, classId, now)]
        && EnrolledCount(enrollments, classId) == EnrolledCount(old(enrollments), classId) + 1
      ensures r.Err? ==> enrollments == old(enrollments) && nextEnrollment == old(nextEnrollment)
    {
      r := CheckSignup(memberId, classId);
      if r.Ok? {
        Enroll(memberId, classId, now);
      }
    }

    /**
     * The checks signup_for_class makes before it inserts anything, in its order: the
     * member, the class, an existing enrollment, then the count against the capacity.
     */
    method CheckSignup(memberId: int, classId: int) returns (r: Result<int, Error>)
      ensures r == SignupOutcome(Snapshot(), memberId, classId)
    {
      if FirstIndex(members, MemberId, memberId) < 0 {
        return Err(NotFound);
      }
      var found := FindClass(classes, classId);
      if found.None? {
        return Err(NotFound);
      }
      var c := found.value;
      if FirstIndex(enrollments, MemberClass, (memberId, classId)) >= 0 {
        return Err(AlreadyEnrolled);
      }
      var count := EnrolledCount(enrollments, classId);
      if count >= c.capacity {
        return Err(ClassFull(c.capacity, count));
      }
      return Ok(c.capacity - count - 1);
    }

    /** The INSERT of a signup that SignupOutcome accepts. */
    method Enroll(memberId: int, classId: int, now: Instant)
      requires Valid() && SignupOutcome(Snapshot(), memberId, classId).Ok?
      modifies this`enrollments, this`nextEnrollment
      ensures Valid()
      ensures nextEnrollment == old(nextEnrollment) + 1
      ensures enrollments == old(enrollments) + [ClassEnrollment(old(nextEnrollment), memberId, classId, now)]
      ensures EnrolledCount(enrollments, classId) == EnrolledCount(old(enrollments), classId) + 1
    {
      ghost var t, n := Snapshot(), Next();
      var e := ClassEnrollment(nextEnrollment, memberId, classId, now);
      InsertEnrollmentKeeps(t, n, e);
      nextEnrollment := nextEnrollment + 1;
      enrollments := enrollments + [e];
      assert Snapshot() == t.(enrollments := t.enrollments + [e]);
      assert Next() == n.(enrollments := n.enrollments + 1);
    }

    /**
     * create_trainer: inserts the trainer (an empty specialization as NULL); refused, with
     * nothing stored, exactly when the email is already registered.
     */
    method CreateTrainer(name: string, email: string, specialization: string) returns (r: Result<int, Error>)
      requires Valid()
      modifies this`trainers, this`nextTrainer
      ensures Valid()
      ensures nextTrainer == old(nextTrainer) + 1
      ensures r.Ok? <==> email !in Keys(old(trainers), TrainerEmail)
      ensures r.Ok? ==>
        && r.value == old(nextTrainer)
        && trainers == old(trainers) + [Trainer(old(nextTrainer), name, email, OrNone(specialization))]
      ensures r.Err? ==> r.error == UniqueViolation("Trainer_email_key") && trainers == old(trainers)
    {
      ghost var t, n := Snapshot(), Next();
      NextIdsFresh(t, n);
      var x := Trainer(nextTrainer, name, email, OrNone(specialization));
      nextTrainer := nextTrainer + 1;
      var violation := TrainerViolation(Snapshot(), x);
      if violation.Some? {
        SkipIds(t, n, Next());
        assert Snapshot() == t;
        r := Err(violation.value);
        return;
      }
      InsertTrainerKeeps(t, n, x);
      trainers := trainers + [x];
      assert Snapshot() == t.(trainers := t.trainers + [x]) && Next() == n.(trainers := n.trainers + 1);
      r := Ok(x.id);
    }

    /**
     * create_room: inserts the room; refused, with nothing stored, when the capacity is not
     * positive or the name is taken (the CHECK constraint is evaluated first).
     */
    method CreateRoom(name: string, capacity: int) returns (r: Result<int, Error>)
      requires Valid()
      modifies this`rooms, this`nextRoom
      ensures Valid()
      ensures nextRoom == old(nextRoom) + 1
      ensures r.Ok? <==> capacity > 0 && name !in Keys(old(rooms), RoomName)
      ensures r.Ok? ==> r.value == old(nextRoom) && rooms == old(rooms) + [Room(old(nextRoom), name, capacity)]
      ensures r.Err? ==>
        && rooms == old(rooms)
        && r.error == (if capacity <= 0 then CheckViolation("check_capacity_positive") else UniqueViolation("Room_name_key"))
    {
      ghost var t, n := Snapshot(), Next();
      NextIdsFresh(t, n);
      var room := Room(nextRoom, name, capacity);
      nextRoom := nextRoom + 1;
      var violation := RoomViolation(Snapshot(), room);
      if violation.Some? {
        SkipIds(t, n, Next());
        assert Snapshot() == t;
        r := Err(violation.value);
        return;
      }
      InsertRoomKeeps(t, n, room);
      rooms := rooms + [room];
      assert Snapshot() == t.(rooms := t.rooms + [room]) && Next() == n.(rooms := n.rooms + 1);
      r := Ok(room.id);
    }

    /**
     * create_class: inserts the class, with no check of its own; the trigger and the
     * constraints decide. A class larger than its room is refused by the trigger, and a
     * refused class leaves the table as it was.
     */
    method CreateClass(trainerId: int, roomId: int, className: string, time: Instant, capacity: int)
      returns (r: Result<int, Error>)
      requires Valid()
      modifies this`classes, this`nextClass
      ensures Valid()
      ensures nextClass == old(nextClass) + 1
      ensures var c := FitnessClass(old(nextClass), trainerId, roomId, className, time, capacity);
        && (r.Ok? <==> ClassViolation(old(Snapshot()), c).None?)
        && (r.Ok? ==> r.value == c.id && classes == old(classes) + [c])
        && (r.Err? ==> r.error == ClassViolation(old(Snapshot()), c).value && classes == old(classes))
      ensures r.Ok? ==>
        && capacity > 0 && trainerId in Keys(trainers, TrainerId) && roomId in Keys(rooms, RoomId)
        && (roomId, time) !in Keys(old(classes), RoomSlot)
      ensures forall room :: room in rooms && room.id == roomId && capacity > room.capacity ==>
        r == Err(CapacityExceedsRoom(capacity, room.capacity)) && classes == old(classes)
    {
      ghost var t, n := Snapshot(), Next();
      NextIdsFresh(t, n);
      var c := FitnessClass(nextClass, trainerId, roomId, className, time, capacity);
      nextClass := nextClass + 1;
      forall room | room in rooms && room.id == roomId && capacity > room.capacity
        ensures ClassViolation(t, c) == Some(CapacityExceedsRoom(capacity, room.capacity))
      {
        TriggerRejectsOversized(t, c, room);
      }
      var violation := ClassViolation(Snapshot(), c);
      if violation.Some? {
        SkipIds(t, n, Next());
        assert Snapshot() == t;
        r := Err(violation.value);
        return;
      }
      InsertClassKeeps(t, n, c);
      classes := classes + [c];
      assert Snapshot() == t.(classes := t.classes + [c]) && Next() == n.(classes := n.classes + 1);
      r := Ok(c.id);
    }

    /**
     * create_default_admin: Ok(false), changing nothing, when an admin called 'admin'
     * exists; otherwise inserts the default account, after which signing in as
     * admin/admin123 succeeds.
     */
    method CreateDefaultAdmin() returns (r: Result<bool, Error>)
      requires Valid()
      modifies this`admins, this`nextAdmin
      ensures Valid()
      ensures DefaultAdminUsername in Keys(old(admins), AdminUsername) ==>
        r == Ok(false) && admins == old(admins) && nextAdmin == old(nextAdmin)
      ensures DefaultAdminUsername !in Keys(old(admins), AdminUsername) ==>
        && nextAdmin == old(nextAdmin) + 1
        && r != Ok(false)
        && (r == Ok(true) <==> DefaultAdminEmail !in Keys(old(admins), AdminEmail))
      ensures r == Ok(true) ==> admins == old(admins) + [DefaultAdmin(old(nextAdmin))]
      ensures r.Err? ==> r.error == UniqueViolation("Admin_email_key") && admins == old(admins)
      ensures r.Ok? ==> DefaultAdminUsername in Keys(admins, AdminUsername)
      ensures r == Ok(true) ==>
        AuthenticateAdmin(Snapshot(), DefaultAdminUsername, DefaultAdminPassword) == Some(DefaultAdmin(old(nextAdmin)))
    {
      if FirstIndex(admins, AdminUsername, DefaultAdminUsername) >= 0 {
        r := Ok(false);
        return;
      }
      r := InsertDefaultAdmin();
    }

    /** The INSERT of the default account, made when no admin is called 'admin'. */
    method InsertDefaultAdmin() returns (r: Result<bool, Error>)
      requires Valid() && DefaultAdminUsername !in Keys(admins, AdminUsername)
      modifies this`admins, this`nextAdmin
      ensures Valid()
      ensures nextAdmin == old(nextAdmin) + 1
      ensures r.Ok? ==> r.value
      ensures r == Ok(true) <==> DefaultAdminEmail !in Keys(old(admins), AdminEmail)
      ensures r == Ok(true) ==> admins == old(admins) + [DefaultAdmin(old(nextAdmin))]
      ensures r.Err? ==> r.error == UniqueViolation("Admin_email_key") && admins == old(admins)
      ensures r == Ok(true) ==> DefaultAdminUsername in Keys(admins, AdminUsername)
      ensures r == Ok(true) ==>
        AuthenticateAdmin(Snapshot(), DefaultAdminUsername, DefaultAdminPassword) == Some(DefaultAdmin(old(nextAdmin)))
    {
      ghost var t, n := Snapshot(), Next();
      NextIdsFresh(t, n);
      var a := DefaultAdmin(nextAdmin);
      nextAdmin := nextAdmin + 1;
      var violation := AdminViolation(Snapshot(), a);
      if violation.Some? {
        SkipIds(t, n, Next());
        assert Snapshot() == t;
        r := Err(violation.value);
        return;
      }
      InsertAdminKeeps(t, n, a);
      DefaultAdminSignsIn(t, a);
      admins := admins + [a];
      assert Snapshot() == t.(admins := t.admins + [a]) && Next() == n.(admins := n.admins + 1);
      r := Ok(true);
    }

    /**
     * Running create_default_admin a second time, after a first run that ended in Ok,
     * returns Ok(false) and leaves the admins and their sequence as the first run left them.
     */
    method CreateDefaultAdminTwice() returns (first: Result<bool, Error>, second: Result<bool, Error>)
      requires Valid()
      modifies this`admins, this`nextAdmin
      ensures Valid()
      ensures first.Ok? ==> second == Ok(false)
      ensures first == Ok(false) ==> admins == old(admins) && nextAdmin == old(nextAdmin)
      ensures first == Ok(true) ==>
        admins == old(admins) + [DefaultAdmin(old(nextAdmin))] && nextAdmin == old(nextAdmin) + 1
    {
      first := CreateDefaultAdmin();
      ghost var between := admins;
      second := CreateDefaultAdmin();
      assert first.Ok? ==> admins == between;
    }
  }

  /**
   * Start-up on empty tables: the tables are created and the default admin account is
   * added, so signing in as admin/admin123 works.
   */
  method Startup() returns (s: Store)
    ensures fresh(s) && s.Valid()
    ensures AuthenticateAdmin(s.Snapshot(), DefaultAdminUsername, DefaultAdminPassword).Some?
  {
    s := new Store();
    var created := s.CreateDefaultAdmin();
    assert created == Ok(true);
  }
}
