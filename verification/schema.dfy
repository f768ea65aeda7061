/**
 * The fitness club's relational schema: one record type per table, the constraints the
 * tables declare (primary keys, UNIQUE, CHECK, foreign keys) and the class-capacity rule of
 * the `check_class_capacity` trigger, the order in which PostgreSQL evaluates them when a
 * row is inserted, and the ON DELETE policies (CASCADE from members and classes, RESTRICT
 * from trainers and rooms).
 */
module Schema {
  import opened Wrappers
  import opened Seqs

  /** A calendar date (a day number). */
  type Date = int
  /** A point in time (a DATETIME column), in some fixed unit. */
  type Instant = int

  datatype Member = Member(
    id: int, name: string, email: string,
    dateOfBirth: Option<Date>, gender: Option<string>, phone: Option<string>)

  datatype Trainer = Trainer(id: int, name: string, email: string, specialization: Option<string>)

  datatype Admin = Admin(id: int, username: string, passwordHash: string, name: string, email: string)

  /** `targetValue` is NUMERIC(6,2), held in hundredths. */
  datatype FitnessGoal = FitnessGoal(
    id: int, memberId: int, goalType: string, targetValue: Option<int>,
    startDate: Option<Date>, endDate: Option<Date>)

  /** `metricValue` is NUMERIC(6,2), held in hundredths. */
  datatype HealthMetric = HealthMetric(
    id: int, memberId: int, metricType: string, metricValue: int, timestamp: Instant)

  datatype Room = Room(id: int, name: string, capacity: int)

  /** A row of the `Class` table. */
  datatype FitnessClass = FitnessClass(
    id: int, trainerId: int, roomId: int, className: string, classTime: Instant, capacity: int)

  datatype PTSession = PTSession(
    id: int, memberId: int, trainerId: int, sessionTime: Instant, status: string)

  datatype ClassEnrollment = ClassEnrollment(
    id: int, memberId: int, classId: int, enrollmentDate: Instant)

  /** The contents of the nine tables. */
  datatype Tables = Tables(
    members: seq<Member>,
    trainers: seq<Trainer>,
    admins: seq<Admin>,
    goals: seq<FitnessGoal>,
    metrics: seq<HealthMetric>,
    rooms: seq<Room>,
    classes: seq<FitnessClass>,
    sessions: seq<PTSession>,
    enrollments: seq<ClassEnrollment>)

  const EmptyTables := Tables([], [], [], [], [], [], [], [], [])

  /** Why an operation was refused (after which its transaction is rolled back). */
  datatype Error =
    | NotFound
    | AlreadyEnrolled
    | ClassFull(capacity: int, enrolled: int)
    | UniqueViolation(constraint: string)
    | CheckViolation(constraint: string)
    | ForeignKeyViolation(constraint: string)
    | CapacityExceedsRoom(classCapacity: int, roomCapacity: int)
    | UndefinedTable(name: string)

  const DefaultStatus := "scheduled"

  // ---------------------------------------------------------------------------
  // Columns, as functions from a row to the column's value

  function MemberId(m: Member): int { m.id }
  function MemberEmail(m: Member): string { m.email }
  function TrainerId(x: Trainer): int { x.id }
  function TrainerEmail(x: Trainer): string { x.email }
  function AdminId(a: Admin): int { a.id }
  function AdminUsername(a: Admin): string { a.username }
  function AdminEmail(a: Admin): string { a.email }
  function GoalId(g: FitnessGoal): int { g.id }
  function GoalMember(g: FitnessGoal): int { g.memberId }
  function MetricId(h: HealthMetric): int { h.id }
  function MetricMember(h: HealthMetric): int { h.memberId }
  function RoomId(r: Room): int { r.id }
  function RoomName(r: Room): string { r.name }
  function ClassId(c: FitnessClass): int { c.id }
  function ClassTrainer(c: FitnessClass): int { c.trainerId }
  function ClassRoom(c: FitnessClass): int { c.roomId }
  /** The column pair of `uq_room_time`. */
  function RoomSlot(c: FitnessClass): (int, Instant) { (c.roomId, c.classTime) }
  function SessionId(p: PTSession): int { p.id }
  function SessionMember(p: PTSession): int { p.memberId }
  function SessionTrainer(p: PTSession): int { p.trainerId }
  /** The column pair of `uq_trainer_time`. */
  function TrainerSlot(p: PTSession): (int, Instant) { (p.trainerId, p.sessionTime) }
  function EnrollmentId(e: ClassEnrollment): int { e.id }
  function EnrollmentMember(e: ClassEnrollment): int { e.memberId }
  function EnrollmentClass(e: ClassEnrollment): int { e.classId }
  /** The column pair of `uq_member_class`. */
  function MemberClass(e: ClassEnrollment): (int, int) { (e.memberId, e.classId) }

  // ---------------------------------------------------------------------------
  // The declared constraints

  /** Every table's primary key is unique. */
  ghost predicate PrimaryKeys(t: Tables)
  {
    && UniqueBy(t.members, MemberId)
    && UniqueBy(t.trainers, TrainerId)
    && UniqueBy(t.admins, AdminId)
    && UniqueBy(t.goals, GoalId)
    && UniqueBy(t.metrics, MetricId)
    && UniqueBy(t.rooms, RoomId)
    && UniqueBy(t.classes, ClassId)
    && UniqueBy(t.sessions, SessionId)
    && UniqueBy(t.enrollments, EnrollmentId)
  }

  /** The UNIQUE columns and column pairs. */
  ghost predicate UniqueColumns(t: Tables)
  {
    && UniqueBy(t.members, MemberEmail)
    && UniqueBy(t.trainers, TrainerEmail)
    && UniqueBy(t.admins, AdminUsername)
    && UniqueBy(t.admins, AdminEmail)
    && UniqueBy(t.rooms, RoomName)
    && UniqueBy(t.classes, RoomSlot)
    && UniqueBy(t.sessions, TrainerSlot)
    && UniqueBy(t.enrollments, MemberClass)
  }

  /** `check_capacity_positive` and `check_class_capacity_positive`. */
  ghost predicate CapacitiesPositive(t: Tables)
  {
    && (forall r :: r in t.rooms ==> r.capacity > 0)
    && (forall c :: c in t.classes ==> c.capacity > 0)
  }

  /** Every foreign key names an existing row. */
  ghost predicate ForeignKeys(t: Tables)
  {
    && (forall g :: g in t.goals ==> g.memberId in Keys(t.members, MemberId))
    && (forall h :: h in t.metrics ==> h.memberId in Keys(t.members, MemberId))
    && (forall c :: c in t.classes ==> c.trainerId in Keys(t.trainers, TrainerId))
    && (forall c :: c in t.classes ==> c.roomId in Keys(t.rooms, RoomId))
    && (forall p :: p in t.sessions ==> p.memberId in Keys(t.members, MemberId))
    && (forall p :: p in t.sessions ==> p.trainerId in Keys(t.trainers, TrainerId))
    && (forall e :: e in t.enrollments ==> e.memberId in Keys(t.members, MemberId))
    && (forall e :: e in t.enrollments ==> e.classId in Keys(t.classes, ClassId))
  }

  /** The trigger's rule: no class holds more people than its room. */
  ghost predicate ClassesFitRooms(t: Tables)
  {
    forall c, r :: c in t.classes && r in t.rooms && r.id == c.roomId ==> c.capacity <= r.capacity
  }

  /** Everything the database guarantees about its tables. */
  ghost predicate Valid(t: Tables)
  {
    PrimaryKeys(t) && UniqueColumns(t) && CapacitiesPositive(t) && ForeignKeys(t) && ClassesFitRooms(t)
  }

  /** The enrollments of class `classId`. */
  function EnrolledCount(es: seq<ClassEnrollment>, classId: int): nat
  {
    |Filter(es, KeyIs(EnrollmentClass, classId))|
  }

  /**
   * The application's rule, checked before every enrollment: no class has more enrollments
   * than its capacity.
   */
  ghost predicate ClassesNotOverbooked(t: Tables)
  {
    forall c :: c in t.classes ==> EnrolledCount(t.enrollments, c.id) <= c.capacity
  }

  lemma EmptyTablesValid()
    ensures Valid(EmptyTables) && ClassesNotOverbooked(EmptyTables)
  {
  }

  // ---------------------------------------------------------------------------
  // The SERIAL sequences

  /** The id each table's sequence hands out next. */
  datatype NextIds = NextIds(
    members: int, trainers: int, admins: int, metrics: int,
    rooms: int, classes: int, sessions: int, enrollments: int)

  /** Every sequence starts at 1 and is ahead of all ids already in its table. */
  ghost predicate IdsBelow(t: Tables, n: NextIds)
  {
    && 1 <= n.members && (forall m :: m in t.members ==> m.id < n.members)
    && 1 <= n.trainers && (forall x :: x in t.trainers ==> x.id < n.trainers)
    && 1 <= n.admins && (forall a :: a in t.admins ==> a.id < n.admins)
    && 1 <= n.metrics && (forall h :: h in t.metrics ==> h.id < n.metrics)
    && 1 <= n.rooms && (forall r :: r in t.rooms ==> r.id < n.rooms)
    && 1 <= n.classes && (forall c :: c in t.classes ==> c.id < n.classes)
    && 1 <= n.sessions && (forall p :: p in t.sessions ==> p.id < n.sessions)
    && 1 <= n.enrollments && (forall e :: e in t.enrollments ==> e.id < n.enrollments)
  }

  /**
   * The invariant of the database the application keeps: the declared constraints and the
   * trigger rule hold, no class has more enrollments than its capacity, and every sequence
   * is ahead of its table.
   */
  ghost predicate StoreInvariant(t: Tables, n: NextIds)
  {
    Valid(t) && ClassesNotOverbooked(t) && IdsBelow(t, n)
  }

  /** The next id of each sequence is not yet used in its table. */
  lemma NextIdsFresh(t: Tables, n: NextIds)
    requires IdsBelow(t, n)
    ensures n.members !in Keys(t.members, MemberId) && n.trainers !in Keys(t.trainers, TrainerId)
    ensures n.admins !in Keys(t.admins, AdminId) && n.metrics !in Keys(t.metrics, MetricId)
    ensures n.rooms !in Keys(t.rooms, RoomId) && n.classes !in Keys(t.classes, ClassId)
    ensures n.sessions !in Keys(t.sessions, SessionId) && n.enrollments !in Keys(t.enrollments, EnrollmentId)
  {
  }

  /** An id consumed by a refused INSERT is simply skipped. */
  lemma SkipIds(t: Tables, n: NextIds, n': NextIds)
    requires StoreInvariant(t, n)
    requires n.members <= n'.members && n.trainers <= n'.trainers && n.admins <= n'.admins
    requires n.metrics <= n'.metrics && n.rooms <= n'.rooms && n.classes <= n'.classes
    requires n.sessions <= n'.sessions && n.enrollments <= n'.enrollments
    ensures StoreInvariant(t, n')
  {
  }

  // ---------------------------------------------------------------------------
  // What the database does with one INSERT: the first constraint the new row breaks, in
  // the order PostgreSQL evaluates them (BEFORE ROW triggers, CHECK constraints, unique
  // indexes with the primary key first, then the foreign keys), or None when it is stored.

  function MemberViolation(t: Tables, m: Member): Option<Error>
  {
    if m.id in Keys(t.members, MemberId) then Some(UniqueViolation("Member_pkey"))
    else if m.email in Keys(t.members, MemberEmail) then Some(UniqueViolation("Member_email_key"))
    else None
  }

  function TrainerViolation(t: Tables, x: Trainer): Option<Error>
  {
    if x.id in Keys(t.trainers, TrainerId) then Some(UniqueViolation("Trainer_pkey"))
    else if x.email in Keys(t.trainers, TrainerEmail) then Some(UniqueViolation("Trainer_email_key"))
    else None
  }

  function AdminViolation(t: Tables, a: Admin): Option<Error>
  {
    if a.id in Keys(t.admins, AdminId) then Some(UniqueViolation("Admin_pkey"))
    else if a.username in Keys(t.admins, AdminUsername) then Some(UniqueViolation("Admin_username_key"))
    else if a.email in Keys(t.admins, AdminEmail) then Some(UniqueViolation("Admin_email_key"))
    else None
  }

  function MetricViolation(t: Tables, h: HealthMetric): Option<Error>
  {
    if h.id in Keys(t.metrics, MetricId) then Some(UniqueViolation("HealthMetric_pkey"))
    else if h.memberId !in Keys(t.members, MemberId) then Some(ForeignKeyViolation("HealthMetric_member_id_fkey"))
    else None
  }

  function RoomViolation(t: Tables, r: Room): Option<Error>
  {
    if r.capacity <= 0 then Some(CheckViolation("check_capacity_positive"))
    else if r.id in Keys(t.rooms, RoomId) then Some(UniqueViolation("Room_pkey"))
    else if r.name in Keys(t.rooms, RoomName) then Some(UniqueViolation("Room_name_key"))
    else None
  }

  /**
   * The `check_class_capacity` trigger, run BEFORE INSERT OR UPDATE of a class row: it reads
   * the capacity of the row's room and raises when the class capacity is larger. When no
   * room has that id the comparison is with NULL, which is not true, so the row passes (and
   * the foreign key rejects it later).
   */
  function CapacityTrigger(t: Tables, c: FitnessClass): (r: Option<Error>)
    ensures r.Some? ==> exists room :: room in t.rooms && room.id == c.roomId && c.capacity > room.capacity
    ensures c.roomId !in Keys(t.rooms, RoomId) ==> r.None?
  {
    var i := FirstIndex(t.rooms, RoomId, c.roomId);
    if i >= 0 && c.capacity > t.rooms[i].capacity then
      assert t.rooms[i] in t.rooms;
      Some(CapacityExceedsRoom(c.capacity, t.rooms[i].capacity))
    else None
  }

  /** A class row: the trigger first, then the table's own constraints. */
  function ClassViolation(t: Tables, c: FitnessClass): Option<Error>
  {
    var fired := CapacityTrigger(t, c);
    if fired.Some? then fired else ClassConstraintViolation(t, c)
  }

  /** The constraints declared on the Class table, without the trigger. */
  function ClassConstraintViolation(t: Tables, c: FitnessClass): Option<Error>
  {
    if c.capacity <= 0 then Some(CheckViolation("check_class_capacity_positive"))
    else if c.id in Keys(t.classes, ClassId) then Some(UniqueViolation("Class_pkey"))
    else if RoomSlot(c) in Keys(t.classes, RoomSlot) then Some(UniqueViolation("uq_room_time"))
    else if c.trainerId !in Keys(t.trainers, TrainerId) then Some(ForeignKeyViolation("Class_trainer_id_fkey"))
    else if c.roomId !in Keys(t.rooms, RoomId) then Some(ForeignKeyViolation("Class_room_id_fkey"))
    else None
  }

  function SessionViolation(t: Tables, p: PTSession): Option<Error>
  {
    if p.id in Keys(t.sessions, SessionId) then Some(UniqueViolation("PTSession_pkey"))
    else if TrainerSlot(p) in Keys(t.sessions, TrainerSlot) then Some(UniqueViolation("uq_trainer_time"))
    else if p.memberId !in Keys(t.members, MemberId) then Some(ForeignKeyViolation("PTSession_member_id_fkey"))
    else if p.trainerId !in Keys(t.trainers, TrainerId) then Some(ForeignKeyViolation("PTSession_trainer_id_fkey"))
    else None
  }

  function EnrollmentViolation(t: Tables, e: ClassEnrollment): Option<Error>
  {
    if e.id in Keys(t.enrollments, EnrollmentId) then Some(UniqueViolation("ClassEnrollment_pkey"))
    else if MemberClass(e) in Keys(t.enrollments, MemberClass) then Some(UniqueViolation("uq_member_class"))
    else if e.memberId !in Keys(t.members, MemberId) then Some(ForeignKeyViolation("ClassEnrollment_member_id_fkey"))
    else if e.classId !in Keys(t.classes, ClassId) then Some(ForeignKeyViolation("ClassEnrollment_class_id_fkey"))
    else None
  }

  // ---------------------------------------------------------------------------
  // The database stores a row exactly when the tables stay valid with it

  lemma MemberInsertExact(t: Tables, m: Member)
    requires Valid(t)
    ensures MemberViolation(t, m).None? <==> Valid(t.(members := t.members + [m]))
  {
    UniqueByAppendIff(t.members, m, MemberId);
    UniqueByAppendIff(t.members, m, MemberEmail);
    KeysAppend(t.members, m, MemberId);
  }

  lemma TrainerInsertExact(t: Tables, x: Trainer)
    requires Valid(t)
    ensures TrainerViolation(t, x).None? <==> Valid(t.(trainers := t.trainers + [x]))
  {
    UniqueByAppendIff(t.trainers, x, TrainerId);
    UniqueByAppendIff(t.trainers, x, TrainerEmail);
    KeysAppend(t.trainers, x, TrainerId);
  }

  lemma AdminInsertExact(t: Tables, a: Admin)
    requires Valid(t)
    ensures AdminViolation(t, a).None? <==> Valid(t.(admins := t.admins + [a]))
  {
    UniqueByAppendIff(t.admins, a, AdminId);
    UniqueByAppendIff(t.admins, a, AdminUsername);
    UniqueByAppendIff(t.admins, a, AdminEmail);
  }

  lemma MetricInsertExact(t: Tables, h: HealthMetric)
    requires Valid(t)
    ensures MetricViolation(t, h).None? <==> Valid(t.(metrics := t.metrics + [h]))
  {
    UniqueByAppendIff(t.metrics, h, MetricId);
    assert h in t.metrics + [h];
  }

  lemma RoomInsertExact(t: Tables, r: Room)
    requires Valid(t)
    ensures RoomViolation(t, r).None? <==> Valid(t.(rooms := t.rooms + [r]))
  {
    var t' := t.(rooms := t.rooms + [r]);
    UniqueByAppendIff(t.rooms, r, RoomId);
    UniqueByAppendIff(t.rooms, r, RoomName);
    KeysAppend(t.rooms, r, RoomId);
    assert r in t'.rooms;
    if RoomViolation(t, r).None? {
      assert forall c :: c in t.classes ==> c.roomId != r.id;
    }
  }

  lemma ClassInsertExact(t: Tables, c: FitnessClass)
    requires Valid(t)
    ensures ClassViolation(t, c).None? <==> Valid(t.(classes := t.classes + [c]))
  {
    var t' := t.(classes := t.classes + [c]);
    UniqueByAppendIff(t.classes, c, ClassId);
    UniqueByAppendIff(t.classes, c, RoomSlot);
    KeysAppend(t.classes, c, ClassId);
    assert c in t'.classes;
    var i := FirstIndex(t.rooms, RoomId, c.roomId);
    if ClassViolation(t, c).None? {
      assert i >= 0;
      assert ClassesFitRooms(t') by {
        forall d, room | d in t'.classes && room in t'.rooms && room.id == d.roomId
          ensures d.capacity <= room.capacity
        {
          if d == c {
            var k :| 0 <= k < |t.rooms| && t.rooms[k] == room;
            assert RoomId(t.rooms[k]) == RoomId(t.rooms[i]);
          }
        }
      }
    } else if CapacityTrigger(t, c).Some? {
      assert t.rooms[i] in t'.rooms;
    }
  }

  /**
   * With room ids unique, a class larger than its room is refused by the trigger, before
   * any other constraint is looked at.
   */
  lemma TriggerRejectsOversized(t: Tables, c: FitnessClass, room: Room)
    requires UniqueBy(t.rooms, RoomId)
    requires room in t.rooms && room.id == c.roomId && c.capacity > room.capacity
    ensures ClassViolation(t, c) == Some(CapacityExceedsRoom(c.capacity, room.capacity))
  {
    FirstIndexUnique(t.rooms, RoomId, room);
  }

  lemma SessionInsertExact(t: Tables, p: PTSession)
    requires Valid(t)
    ensures SessionViolation(t, p).None? <==> Valid(t.(sessions := t.sessions + [p]))
  {
    UniqueByAppendIff(t.sessions, p, SessionId);
    UniqueByAppendIff(t.sessions, p, TrainerSlot);
    assert p in t.sessions + [p];
  }

  lemma EnrollmentInsertExact(t: Tables, e: ClassEnrollment)
    requires Valid(t)
    ensures EnrollmentViolation(t, e).None? <==> Valid(t.(enrollments := t.enrollments + [e]))
  {
    UniqueByAppendIff(t.enrollments, e, EnrollmentId);
    UniqueByAppendIff(t.enrollments, e, MemberClass);
    assert e in t.enrollments + [e];
  }

  /** Changing a member's row in place, keeping its id and email, keeps the tables valid. */
  lemma MemberUpdateKeepsValid(t: Tables, i: nat, m: Member)
    requires Valid(t) && i < |t.members|
    requires m.id == t.members[i].id && m.email == t.members[i].email
    ensures Valid(t.(members := t.members[i := m]))
  {
    UniqueByUpdate(t.members, i, m, MemberId);
    UniqueByUpdate(t.members, i, m, MemberEmail);
  }

  /** A class the database accepts has no enrollments yet, so it is not overbooked. */
  lemma ClassInsertNotOverbooked(t: Tables, c: FitnessClass)
    requires Valid(t) && ClassesNotOverbooked(t)
    requires ClassViolation(t, c).None?
    ensures ClassesNotOverbooked(t.(classes := t.classes + [c]))
  {
    var t' := t.(classes := t.classes + [c]);
    forall d | d in t'.classes ensures EnrolledCount(t'.enrollments, d.id) <= d.capacity {
      if d == c {
        assert forall e :: e in t.enrollments ==> e.classId != c.id;
        FilterNone(t.enrollments, KeyIs(EnrollmentClass, c.id));
      } else {
        assert d in t.classes;
      }
    }
  }

  /**
   * An enrollment in a class that still has room keeps every class within capacity; it
   * adds one to its own class's count and leaves the others alone.
   */
  lemma EnrollmentKeepsCapacity(t: Tables, e: ClassEnrollment)
    requires ClassesNotOverbooked(t)
    requires forall c :: c in t.classes && c.id == e.classId ==> EnrolledCount(t.enrollments, c.id) < c.capacity
    ensures ClassesNotOverbooked(t.(enrollments := t.enrollments + [e]))
    ensures forall c :: c in t.classes ==>
      EnrolledCount(t.enrollments + [e], c.id) == EnrolledCount(t.enrollments, c.id) + (if c.id == e.classId then 1 else 0)
  {
    forall c | c in t.classes
      ensures EnrolledCount(t.enrollments + [e], c.id)
        == EnrolledCount(t.enrollments, c.id) + (if c.id == e.classId then 1 else 0)
    {
      FilterAppend(t.enrollments, e, KeyIs(EnrollmentClass, c.id));
    }
  }

  // ---------------------------------------------------------------------------
  // ON DELETE policies

  /**
   * Deleting a member deletes, with it, all of its fitness goals, health metrics, PT
   * sessions and class enrollments (ON DELETE CASCADE); nothing else changes.
   */
  function DeleteMember(t: Tables, id: int): (r: Tables)
    ensures id !in Keys(r.members, MemberId)
    ensures forall m :: m in r.members <==> m in t.members && m.id != id
    ensures forall g :: g in r.goals <==> g in t.goals && g.memberId != id
    ensures forall h :: h in r.metrics <==> h in t.metrics && h.memberId != id
    ensures forall p :: p in r.sessions <==> p in t.sessions && p.memberId != id
    ensures forall e :: e in r.enrollments <==> e in t.enrollments && e.memberId != id
    ensures r.trainers == t.trainers && r.admins == t.admins && r.rooms == t.rooms && r.classes == t.classes
  {
    KeysFilterNot(t.members, MemberId, id);
    t.(members := Filter(t.members, KeyIsNot(MemberId, id)),
       goals := Filter(t.goals, KeyIsNot(GoalMember, id)),
       metrics := Filter(t.metrics, KeyIsNot(MetricMember, id)),
       sessions := Filter(t.sessions, KeyIsNot(SessionMember, id)),
       enrollments := Filter(t.enrollments, KeyIsNot(EnrollmentMember, id)))
  }

  /** Deleting a class deletes its enrollments (ON DELETE CASCADE); nothing else changes. */
  function DeleteClass(t: Tables, id: int): (r: Tables)
    ensures id !in Keys(r.classes, ClassId)
    ensures forall c :: c in r.classes <==> c in t.classes && c.id != id
    ensures forall e :: e in r.enrollments <==> e in t.enrollments && e.classId != id
    ensures r.members == t.members && r.trainers == t.trainers && r.admins == t.admins
    ensures r.goals == t.goals && r.metrics == t.metrics && r.rooms == t.rooms && r.sessions == t.sessions
  {
    KeysFilterNot(t.classes, ClassId, id);
    t.(classes := Filter(t.classes, KeyIsNot(ClassId, id)),
       enrollments := Filter(t.enrollments, KeyIsNot(EnrollmentClass, id)))
  }

  /**
   * Deleting a trainer is refused while a class or a PT session refers to it (ON DELETE
   * RESTRICT); otherwise only the trainer's row goes.
   */
  function DeleteTrainer(t: Tables, id: int): (r: Result<Tables, Error>)
    ensures r.Err? <==> id in Keys(t.classes, ClassTrainer) || id in Keys(t.sessions, SessionTrainer)
    ensures r.Err? ==> r.error.ForeignKeyViolation?
    ensures r.Ok? ==> r.value == t.(trainers := r.value.trainers)
    ensures r.Ok? ==> forall x :: x in r.value.trainers <==> x in t.trainers && x.id != id
  {
    if id in Keys(t.classes, ClassTrainer) then Err(ForeignKeyViolation("Class_trainer_id_fkey"))
    else if id in Keys(t.sessions, SessionTrainer) then Err(ForeignKeyViolation("PTSession_trainer_id_fkey"))
    else Ok(t.(trainers := Filter(t.trainers, KeyIsNot(TrainerId, id))))
  }

  /**
   * Deleting a room is refused while a class refers to it (ON DELETE RESTRICT); otherwise
   * only the room's row goes.
   */
  function DeleteRoom(t: Tables, id: int): (r: Result<Tables, Error>)
    ensures r.Err? <==> id in Keys(t.classes, ClassRoom)
    ensures r.Err? ==> r.error.ForeignKeyViolation?
    ensures r.Ok? ==> r.value == t.(rooms := r.value.rooms)
    ensures r.Ok? ==> forall x :: x in r.value.rooms <==> x in t.rooms && x.id != id
  {
    if id in Keys(t.classes, ClassRoom) then Err(ForeignKeyViolation("Class_room_id_fkey"))
    else Ok(t.(rooms := Filter(t.rooms, KeyIsNot(RoomId, id))))
  }

  lemma DeleteMemberKeepsValid(t: Tables, id: int)
    requires Valid(t) && ClassesNotOverbooked(t)
    ensures Valid(DeleteMember(t, id)) && ClassesNotOverbooked(DeleteMember(t, id))
  {
    var r := DeleteMember(t, id);
    FilterUnique(t.members, KeyIsNot(MemberId, id), MemberId);
    FilterUnique(t.members, KeyIsNot(MemberId, id), MemberEmail);
    FilterUnique(t.goals, KeyIsNot(GoalMember, id), GoalId);
    FilterUnique(t.metrics, KeyIsNot(MetricMember, id), MetricId);
    FilterUnique(t.sessions, KeyIsNot(SessionMember, id), SessionId);
    FilterUnique(t.sessions, KeyIsNot(SessionMember, id), TrainerSlot);
    FilterUnique(t.enrollments, KeyIsNot(EnrollmentMember, id), EnrollmentId);
    FilterUnique(t.enrollments, KeyIsNot(EnrollmentMember, id), MemberClass);
    KeysFilterNot(t.members, MemberId, id);
    forall c | c in r.classes ensures EnrolledCount(r.enrollments, c.id) <= c.capacity {
      FilterFilterShorter(t.enrollments, KeyIsNot(EnrollmentMember, id), KeyIs(EnrollmentClass, c.id));
    }
  }

  lemma DeleteClassKeepsValid(t: Tables, id: int)
    requires Valid(t) && ClassesNotOverbooked(t)
    ensures Valid(DeleteClass(t, id)) && ClassesNotOverbooked(DeleteClass(t, id))
  {
    var r := DeleteClass(t, id);
    FilterUnique(t.classes, KeyIsNot(ClassId, id), ClassId);
    FilterUnique(t.classes, KeyIsNot(ClassId, id), RoomSlot);
    FilterUnique(t.enrollments, KeyIsNot(EnrollmentClass, id), EnrollmentId);
    FilterUnique(t.enrollments, KeyIsNot(EnrollmentClass, id), MemberClass);
    KeysFilterNot(t.classes, ClassId, id);
    forall c | c in r.classes ensures EnrolledCount(r.enrollments, c.id) <= c.capacity {
      FilterFilterShorter(t.enrollments, KeyIsNot(EnrollmentClass, id), KeyIs(EnrollmentClass, c.id));
    }
  }

  lemma DeleteTrainerKeepsValid(t: Tables, id: int)
    requires Valid(t) && ClassesNotOverbooked(t)
    requires DeleteTrainer(t, id).Ok?
    ensures Valid(DeleteTrainer(t, id).value) && ClassesNotOverbooked(DeleteTrainer(t, id).value)
  {
    FilterUnique(t.trainers, KeyIsNot(TrainerId, id), TrainerId);
    FilterUnique(t.trainers, KeyIsNot(TrainerId, id), TrainerEmail);
    KeysFilterNot(t.trainers, TrainerId, id);
    assert forall c :: c in t.classes ==> c.trainerId != id;
    assert forall p :: p in t.sessions ==> p.trainerId != id;
  }

  lemma DeleteRoomKeepsValid(t: Tables, id: int)
    requires Valid(t) && ClassesNotOverbooked(t)
    requires DeleteRoom(t, id).Ok?
    ensures Valid(DeleteRoom(t, id).value) && ClassesNotOverbooked(DeleteRoom(t, id).value)
  {
    FilterUnique(t.rooms, KeyIsNot(RoomId, id), RoomId);
    FilterUnique(t.rooms, KeyIsNot(RoomId, id), RoomName);
    KeysFilterNot(t.rooms, RoomId, id);
    assert forall c :: c in t.classes ==> c.roomId != id;
  }
}
