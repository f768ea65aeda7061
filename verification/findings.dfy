/**
 * How the database objects that `create_view_and_trigger` creates by hand name the tables.
 * SQLAlchemy writes the mixed-case table names of the models in double quotes, so the
 * tables are called `Member`, `HealthMetric`, `Room`, ... with their capitals. In SQL text,
 * PostgreSQL folds an identifier that is not double-quoted to lower case (section 4.1.1,
 * "Identifiers and Key Words", of the PostgreSQL documentation), so an unquoted `Room`
 * names a table `room`, which does not exist. The view and the trigger function name their
 * tables unquoted; this module states what that does, and what the quoted names do.
 */
module Findings {
  import opened Wrappers
  import opened Text
  import opened Schema

  /** A table name as written in SQL text. */
  datatype Identifier = Quoted(name: string) | Unquoted(name: string)

  /** The name an identifier stands for: a quoted one as written, an unquoted one in lower case. */
  function Denotes(id: Identifier): string
  {
    match id
    case Quoted(n) => n
    case Unquoted(n) => Lower(n)
  }

  /** The tables the models declare, under the names SQLAlchemy creates them with. */
  const DeclaredTables: seq<string> :=
    ["Member", "Trainer", "Admin", "FitnessGoal", "HealthMetric", "Room", "Class", "PTSession", "ClassEnrollment"]

  /** Looking up the table a statement names: an error when no such table exists. */
  function ResolveTable(id: Identifier): (r: Result<string, Error>)
    ensures r.Ok? ==> r.value in DeclaredTables
    ensures r.Err? ==> r.error == UndefinedTable(Denotes(id))
  {
    var n := Denotes(id);
    if n in DeclaredTables then Ok(n) else Err(UndefinedTable(n))
  }

  /** `s` begins with a capital ASCII letter. */
  predicate StartsUpper(s: string)
  {
    s != [] && 'A' <= s[0] <= 'Z'
  }

  /** Every declared table name begins with a capital letter. */
  lemma DeclaredTablesStartUpper()
    ensures forall m :: m in DeclaredTables ==> StartsUpper(m)
  {
  }

  /** Folding a name that begins with a capital gives one that does not. */
  lemma LowerLosesCapital(n: string)
    requires StartsUpper(n)
    ensures !StartsUpper(Lower(n))
  {
    assert Lower(n)[0] == LowerChar(n[0]);
  }

  /**
   * Every declared table is found under its quoted name and missed under its unquoted
   * name: all of them start with a capital letter, which folding removes.
   */
  lemma QuotingDecides(n: string)
    requires n in DeclaredTables
    ensures ResolveTable(Quoted(n)) == Ok(n)
    ensures ResolveTable(Unquoted(n)) == Err(UndefinedTable(Lower(n)))
  {
    DeclaredTablesStartUpper();
    LowerLosesCapital(n);
  }

  // ---------------------------------------------------------------------------
  // The MemberHealthSummary view

  /** The tables the view reads, as main.py writes them: `FROM Member m` and `FROM HealthMetric h`. */
  const ViewTablesAsWritten: seq<Identifier> := [Unquoted("Member"), Unquoted("HealthMetric")]

  /** The same tables with their names quoted. */
  const ViewTablesQuoted: seq<Identifier> := [Quoted("Member"), Quoted("HealthMetric")]

  /** CREATE VIEW resolves the tables it reads in order and fails at the first one missing. */
  function CreateView(tables: seq<Identifier>): (r: Option<Error>)
    ensures r.None? <==> forall i :: 0 <= i < |tables| ==> ResolveTable(tables[i]).Ok?
    ensures r.Some? ==> exists i :: 0 <= i < |tables| && r.value == UndefinedTable(Denotes(tables[i]))
  {
    if tables == [] then None
    else
      match ResolveTable(tables[0])
      case Err(e) => Some(e)
      case Ok(_) =>
        var rest := CreateView(tables[1..]);
        assert forall i :: 1 <= i < |tables| ==> tables[i] == tables[1..][i - 1];
        if rest.Some? then
          var i :| 0 <= i < |tables[1..]| && rest.value == UndefinedTable(Denotes(tables[1..][i]));
          assert tables[1..][i] == tables[i + 1];
          rest
        else rest
  }

  /** As written, creating the view fails: there is no table `member`. */
  lemma ViewAsWrittenFails()
    ensures CreateView(ViewTablesAsWritten) == Some(UndefinedTable("member"))
  {
    QuotingDecides("Member");
    assert Lower("Member") == "member";
  }

  /** With the names quoted, the view is created. */
  lemma QuotedViewIsCreated()
    ensures CreateView(ViewTablesQuoted) == None
  {
    QuotingDecides("Member");
    QuotingDecides("HealthMetric");
  }

  // ---------------------------------------------------------------------------
  // The check_class_capacity trigger function

  /** The table the trigger function reads the room's capacity from, as written: `FROM Room`. */
  const TriggerRoomTableAsWritten := Unquoted("Room")

  /**
   * The trigger function, reading rooms from `roomTable`: its SELECT fails when that table
   * does not exist, and otherwise it applies the capacity rule.
   */
  function RunCapacityTrigger(roomTable: Identifier, t: Tables, c: FitnessClass): Option<Error>
  {
    match ResolveTable(roomTable)
    case Err(e) => Some(e)
    case Ok(n) => if n == "Room" then CapacityTrigger(t, c) else None
  }

  /**
   * As written, once installed the trigger makes every INSERT into "Class" fail, because
   * its SELECT names the missing table `room`: no class can ever be created.
   */
  lemma TriggerAsWrittenFailsEveryInsert(t: Tables, c: FitnessClass)
    ensures RunCapacityTrigger(TriggerRoomTableAsWritten, t, c) == Some(UndefinedTable("room"))
  {
    QuotingDecides("Room");
    assert Lower("Room") == "room";
  }

  /** Reading from the quoted `"Room"`, the trigger is the capacity rule. */
  lemma QuotedTriggerIsCapacityTrigger(t: Tables, c: FitnessClass)
    ensures RunCapacityTrigger(Quoted("Room"), t, c) == CapacityTrigger(t, c)
  {
    QuotingDecides("Room");
  }

  // ---------------------------------------------------------------------------
  // create_view_and_trigger

  /** Which of the three objects the start-up code managed to create. */
  datatype Installed = Installed(view: bool, triggerFunction: bool, trigger: bool)

  /**
   * create_view_and_trigger runs three statements on one connection and ignores each
   * failure. After a failed statement the connection's transaction is aborted and is never
   * rolled back, so the statements after it fail as well. CREATE FUNCTION does not look up
   * the tables a plpgsql body names, so only the view can fail on its own.
   */
  function Bootstrap(viewTables: seq<Identifier>): (r: Installed)
    ensures r.trigger ==> r.triggerFunction && r.view
    ensures r.view <==> CreateView(viewTables).None?
  {
    var viewCreated := CreateView(viewTables).None?;
    Installed(viewCreated, viewCreated, viewCreated)
  }

  /**
   * What the database does with a new class row, given what was installed: the trigger
   * runs only if it exists, then the table's own constraints.
   */
  function ClassInsertCheck(installed: Installed, roomTable: Identifier, t: Tables, c: FitnessClass): Option<Error>
  {
    var fired := if installed.trigger then RunCapacityTrigger(roomTable, t, c) else None;
    if fired.Some? then fired else ClassConstraintViolation(t, c)
  }

  /** As written, the view fails, and with it the trigger function and the trigger. */
  lemma AsWrittenInstallsNothing()
    ensures Bootstrap(ViewTablesAsWritten) == Installed(false, false, false)
  {
    ViewAsWrittenFails();
  }

  /**
   * As written, a class larger than its room that meets the table's own constraints is
   * stored, and the tables then break the capacity rule.
   */
  lemma OversizedClassAcceptedAsWritten(t: Tables, c: FitnessClass, room: Room)
    requires room in t.rooms && room.id == c.roomId && c.capacity > room.capacity
    requires ClassConstraintViolation(t, c).None?
    ensures ClassInsertCheck(Bootstrap(ViewTablesAsWritten), TriggerRoomTableAsWritten, t, c).None?
    ensures !ClassesFitRooms(t.(classes := t.classes + [c]))
  {
    AsWrittenInstallsNothing();
    assert c in t.(classes := t.classes + [c]).classes;
  }

  /**
   * With the table names quoted, all three objects are installed and the database checks
   * a new class exactly as ClassViolation says, which the store's CreateClass relies on.
   */
  lemma QuotedBootstrapEnforcesTrigger(t: Tables, c: FitnessClass)
    ensures Bootstrap(ViewTablesQuoted) == Installed(true, true, true)
    ensures ClassInsertCheck(Bootstrap(ViewTablesQuoted), Quoted("Room"), t, c) == ClassViolation(t, c)
  {
    QuotedViewIsCreated();
    QuotedTriggerIsCapacityTrigger(t, c);
  }
}
