/** Any number of calls in progress at once, interleaved statement by statement. */
module Concurrency {
  import opened Domain
  import opened Ordering
  import opened Query
  import opened Repository
  import opened HiveClient
  import opened Service
  import opened ServiceRuns
  import opened Interleaving

  /** A call in progress, between two of its statements: nothing done yet, a
      listing that has counted, an update that has read and edited its record, a
      cascade that has listed and has these ids to clean, or answered. */
  datatype Task =
    | Waiting(call: Call)
    | Counted(call: Call, total: nat)
    | Read(call: Call, h: Harvest)
    | Cleaning(call: Call, todo: set<Uuid>)
    | Answered(call: Call, r: Response)

  /** Task `who` goes next; a cleaning task cleans `pick`. */
  datatype Turn = Turn(who: nat, pick: Uuid)

  datatype Pool = Pool(t: Table, tasks: seq<Task>)

  // ----- one statement

  ghost function HivesOf(c: Call): set<Uuid> {
    match c.op
    case List(hive, _, _) => {hive}
    case _ => if c.owned.Owned? then Elements(c.owned.ids) else {}
  }

  ghost predicate MayList(c: Call) {
    match c.op
    case List(_, _, filter) => c.verdict.Granted? && WellFormed(filter)
    case ListAll(_, filter) => c.owned.Owned? && WellFormed(filter)
    case _ => false
  }

  /** The first statement of a call.  A call that is refused, and one of a
      single statement, has then answered. */
  ghost function Begin(t: Table, c: Call): (Table, Task)
    requires ValidCall(c)
  {
    if MayList(c) then (t, Counted(c, |Selected(t, HivesOf(c), c.op.filter)|))
    else
      match c.op
      case Update(hive, id, content) =>
        if c.verdict == Granted(true) && id in t && t[id].hiveId == hive
        then (t, Read(c, Edited(t[id], content, c.now)))
        else (t, Answered(c, Step(t, c).1))
      case DeleteByHive(hive) =>
        if c.verdict.Granted? then (t, Cleaning(c, if c.reminders.Reminders? then IdsUnder(t, hive) else {}))
        else (t, Answered(c, Refusal(VerdictError(c.verdict))))
      case _ => (Step(t, c).0, Answered(c, Step(t, c).1))
  }

  ghost function ListRows(t: Table, c: Call, total: nat): Response
    requires ValidCall(c) && (c.op.List? || c.op.ListAll?)
  {
    Many(Page(FullListing(t, HivesOf(c), c.op.filter), c.op.page.limit, Offset(c.op.page)), total)
  }

  /** The UPDATE statement, with the record as it was read and edited. */
  function WriteBack(t: Table, h: Harvest): (Table, Response) {
    if !(h.id in t && t[h.id].hiveId == h.hiveId) then (t, Refusal(HarvestNotFound))
    else if !Storable(h) then (t, Refusal(Internal))
    else (WithEdit(t, h), One(h))
  }

  ghost function Clean(t: Table, c: Call, todo: set<Uuid>, pick: Uuid): (Table, Task)
    requires c.op.DeleteByHive?
  {
    if todo == {} then (WithoutHive(t, c.op.hive), Answered(c, DeletedIds(IdsUnder(t, c.op.hive))))
    else if pick !in todo then (t, Cleaning(c, todo))
    else if c.reminders.Reminders? && !c.reminders.cleans(pick) then (t, Answered(c, Refusal(Internal)))
    else (t, Cleaning(c, todo - {pick}))
  }

  /** What a task has in hand fits its call. */
  ghost predicate Fits(k: Task) {
    && ValidCall(k.call)
    && match k
       case Waiting(_) => true
       case Counted(c, _) => MayList(c)
       case Read(c, h) =>
         && c.op.Update? && c.verdict == Granted(true) && h.id == c.op.id && h.hiveId == c.op.hive
         && h == Edited(h, c.op.content, c.now)
       case Cleaning(c, _) => c.op.DeleteByHive? && c.verdict.Granted?
       case Answered(_, _) => true
  }

  ghost function Statement(t: Table, k: Task, pick: Uuid): (Table, Task)
    requires Fits(k)
  {
    match k
    case Waiting(c) => Begin(t, c)
    case Counted(c, total) => (t, Answered(c, ListRows(t, c, total)))
    case Read(c, h) => (WriteBack(t, h).0, Answered(c, WriteBack(t, h).1))
    case Cleaning(c, todo) => Clean(t, c, todo, pick)
    case Answered(_, _) => (t, k)
  }

  lemma StatementFits(t: Table, k: Task, pick: Uuid)
    requires Fits(k)
    ensures Fits(Statement(t, k, pick).1) && Statement(t, k, pick).1.call == k.call
  {
  }

  /** The call a statement counts as: its last statement is the whole call.  A
      cascade that deletes counts as one without reminders, for it has cleaned;
      one that does not delete counts for nothing. */
  ghost function Counts(t: Table, k: Task, pick: Uuid): seq<Call>
    requires Fits(k)
  {
    if k.Answered? || !Statement(t, k, pick).1.Answered? then []
    else if k.Cleaning? then if k.todo == {} then [k.call.(reminders := NoReminders)] else []
    else [k.call]
  }

  /** A statement writes what the call it counts as would write there and then. */
  lemma StatementWrites(t: Table, k: Task, pick: Uuid)
    requires Fits(k)
    ensures ValidCalls(Counts(t, k, pick)) && Statement(t, k, pick).0 == After(t, Counts(t, k, pick))
  {
    var counted := Counts(t, k, pick);
    if counted != [] {
      assert counted == [counted[0]] && counted[1..] == [];
      assert After(t, counted) == Step(t, counted[0]).0;
    }
  }

  // ----- all of them

  ghost predicate AllFit(tasks: seq<Task>) {
    forall i | 0 <= i < |tasks| :: Fits(tasks[i])
  }

  ghost function Next(p: Pool, turn: Turn): Pool
    requires AllFit(p.tasks)
  {
    if turn.who >= |p.tasks| then p
    else
      var (t, k) := Statement(p.t, p.tasks[turn.who], turn.pick);
      Pool(t, p.tasks[turn.who := k])
  }

  lemma NextFits(p: Pool, turn: Turn)
    requires AllFit(p.tasks)
    ensures AllFit(Next(p, turn).tasks) && |Next(p, turn).tasks| == |p.tasks|
  {
    if turn.who < |p.tasks| {
      StatementFits(p.t, p.tasks[turn.who], turn.pick);
    }
  }

  /** The pool after these turns. */
  ghost function Played(p: Pool, turns: seq<Turn>): (q: Pool)
    requires AllFit(p.tasks)
    ensures AllFit(q.tasks) && |q.tasks| == |p.tasks|
  {
    if turns == [] then p
    else
      var front := Played(p, turns[..|turns| - 1]);
      NextFits(front, turns[|turns| - 1]);
      Next(front, turns[|turns| - 1])
  }

  ghost function CountsAs(p: Pool, turn: Turn): seq<Call>
    requires AllFit(p.tasks)
  {
    if turn.who >= |p.tasks| then [] else Counts(p.t, p.tasks[turn.who], turn.pick)
  }

  /** The calls in the order of their last statements. */
  ghost function Log(p: Pool, turns: seq<Turn>): seq<Call>
    requires AllFit(p.tasks)
  {
    if turns == [] then []
    else
      var front := turns[..|turns| - 1];
      Log(p, front) + CountsAs(Played(p, front), turns[|turns| - 1])
  }

  /** Serializability: however the statements of the calls interleave, the table
      is that of the calls performed whole, one after another, in the order of
      their last statements. */
  lemma {:induction false} Serializable(p: Pool, turns: seq<Turn>)
    requires AllFit(p.tasks)
    ensures ValidCalls(Log(p, turns)) && Played(p, turns).t == After(p.t, Log(p, turns))
    decreases |turns|
  {
    if turns == [] {
    } else {
      var front, turn := turns[..|turns| - 1], turns[|turns| - 1];
      var q := Played(p, front);
      Serializable(p, front);
      if turn.who < |q.tasks| {
        StatementWrites(q.t, q.tasks[turn.who], turn.pick);
      }
      AfterConcat(p.t, Log(p, front), CountsAs(q, turn));
    }
  }

  // ----- what the calls are told

  /** What a call is told whose first statement finds the table `first` and whose
      last one finds `last`: a listing gets the total of the one and the page of
      the other; a cascade deletes what is there last if what was there first is
      clean; and everything else is told as if performed whole at the last. */
  ghost predicate RightAnswer(first: Table, last: Table, c: Call, r: Response)
    requires ValidCall(c)
  {
    match c.op
    case List(hive, page, filter) =>
      r == if c.verdict.Granted? then SplitListResponse(first, last, {hive}, page, filter)
           else Refusal(VerdictError(c.verdict))
    case ListAll(page, filter) =>
      r == if c.owned.Owned? then SplitListResponse(first, last, Elements(c.owned.ids), page, filter)
           else Refusal(Internal)
    case DeleteByHive(hive) =>
      r == if !c.verdict.Granted? then Refusal(VerdictError(c.verdict))
           else if AllClean(c.reminders, IdsUnder(first, hive)) then DeletedIds(IdsUnder(last, hive))
           else Refusal(Internal)
    case _ => r == Step(last, c).1
  }

  /** What a task has in hand, in terms of the table its first statement found. */
  ghost predicate InHand(first: Table, k: Task)
    requires Fits(k)
  {
    match k
    case Counted(c, total) => total == |Selected(first, HivesOf(c), c.op.filter)|
    case Read(c, h) => h.id in first && first[h.id].hiveId == h.hiveId && SameIdentity(h, first[h.id])
    case Cleaning(c, todo) =>
      && (c.reminders.NoReminders? ==> todo == {})
      && todo <= IdsUnder(first, c.op.hive)
      && (c.reminders.Reminders? ==> forall id | id in IdsUnder(first, c.op.hive) - todo :: c.reminders.cleans(id))
    case _ => true
  }

  /** A record that was read is still itself, if it is still there. */
  predicate StillItself(t: Table, k: Task) {
    k.Read? && k.h.id in t ==> SameIdentity(k.h, t[k.h.id])
  }

  lemma BeginsRight(t: Table, c: Call)
    requires ValidCall(c)
    ensures Fits(Begin(t, c).1) && InHand(t, Begin(t, c).1)
    ensures Begin(t, c).1.Answered? ==> RightAnswer(t, t, c, Begin(t, c).1.r)
  {
  }

  lemma EndsRight(first: Table, last: Table, k: Task, pick: Uuid)
    requires Fits(k) && !k.Waiting? && !k.Answered? && InHand(first, k) && StillItself(last, k)
    ensures var k' := Statement(last, k, pick).1;
            Fits(k') && if k'.Answered? then RightAnswer(first, last, k.call, k'.r) else InHand(first, k')
  {
  }

  // ----- generated ids

  predicate WillInsert(k: Task) {
    k.Waiting? && Inserts(k.call)
  }

  /** Ids that are still to be inserted are in no use and differ. */
  ghost predicate FreshAhead(p: Pool) {
    && (forall i | 0 <= i < |p.tasks| && WillInsert(p.tasks[i]) :: p.tasks[i].call.freshId !in p.t)
    && (forall i, j | 0 <= i < |p.tasks| && 0 <= j < |p.tasks| && WillInsert(p.tasks[i]) && p.tasks[j].Read? ::
          p.tasks[i].call.freshId != p.tasks[j].h.id)
    && (forall i, j | 0 <= i < j < |p.tasks| && WillInsert(p.tasks[i]) && WillInsert(p.tasks[j]) ::
          p.tasks[i].call.freshId != p.tasks[j].call.freshId)
  }

  ghost predicate AllStill(p: Pool) {
    forall i | 0 <= i < |p.tasks| :: StillItself(p.t, p.tasks[i])
  }

  lemma WriteKeepsRow(t: Table, k: Task, pick: Uuid, id: Uuid)
    requires Fits(k) && (WillInsert(k) ==> k.call.freshId !in t && k.call.freshId != id)
    ensures id in Statement(t, k, pick).0 ==> id in t && SameIdentity(t[id], Statement(t, k, pick).0[id])
  {
    if k.Waiting? {
      StepProvenance(t, k.call, id);
      StepKeys(t, k.call);
    }
  }

  lemma WriteKeepsKeys(t: Table, k: Task, pick: Uuid)
    requires Fits(k)
    ensures Statement(t, k, pick).0.Keys <= t.Keys + (if WillInsert(k) then {k.call.freshId} else {})
  {
    if k.Waiting? {
      StepKeys(t, k.call);
    }
  }

  lemma OwnRecord(t: Table, k: Task, pick: Uuid)
    requires Fits(k)
    ensures var (t', k') := Statement(t, k, pick);
            StillItself(t', k') && (k'.Read? ==> k'.h.id in t) && !WillInsert(k')
  {
  }

  lemma NextStays(p: Pool, turn: Turn)
    requires AllFit(p.tasks) && FreshAhead(p) && AllStill(p) && turn.who < |p.tasks|
    ensures AllStill(Next(p, turn))
  {
    var q := Next(p, turn);
    forall i | 0 <= i < |q.tasks| ensures StillItself(q.t, q.tasks[i]) {
      if i == turn.who {
        OwnRecord(p.t, p.tasks[i], turn.pick);
      } else if q.tasks[i].Read? {
        WriteKeepsRow(p.t, p.tasks[turn.who], turn.pick, q.tasks[i].h.id);
        assert StillItself(p.t, p.tasks[i]);
      }
    }
  }

  lemma NextFresh(p: Pool, turn: Turn)
    requires AllFit(p.tasks) && FreshAhead(p) && turn.who < |p.tasks|
    ensures FreshAhead(Next(p, turn))
  {
    var q := Next(p, turn);
    OwnRecord(p.t, p.tasks[turn.who], turn.pick);
    WriteKeepsKeys(p.t, p.tasks[turn.who], turn.pick);
  }

  lemma {:induction false} AlwaysFresh(p: Pool, turns: seq<Turn>)
    requires AllFit(p.tasks) && FreshAhead(p) && AllStill(p)
    ensures FreshAhead(Played(p, turns)) && AllStill(Played(p, turns))
    decreases |turns|
  {
    if turns == [] {
    } else {
      var front, turn := turns[..|turns| - 1], turns[|turns| - 1];
      AlwaysFresh(p, front);
      if turn.who < |p.tasks| {
        NextStays(Played(p, front), turn);
        NextFresh(Played(p, front), turn);
      }
    }
  }

  // ----- every answer is right

  /** The pool that the turn number `a` finds. */
  ghost function PoolAt(p: Pool, turns: seq<Turn>, a: nat): (q: Pool)
    requires AllFit(p.tasks) && a <= |turns|
    ensures AllFit(q.tasks) && |q.tasks| == |p.tasks|
  {
    Played(p, turns[..a])
  }

  /** The first turn of task `i`, which performs the first statement of its call. */
  ghost predicate FirstTurn(turns: seq<Turn>, i: nat, a: nat) {
    a < |turns| && turns[a].who == i && forall c | 0 <= c < a :: turns[c].who != i
  }

  /** The turn in which task `i` answers, which performs its last statement. */
  ghost predicate LastTurn(p: Pool, turns: seq<Turn>, i: nat, b: nat)
    requires AllFit(p.tasks) && i < |p.tasks|
  {
    && b < |turns| && turns[b].who == i
    && !PoolAt(p, turns, b).tasks[i].Answered? && PoolAt(p, turns, b + 1).tasks[i].Answered?
  }

  /** Task `k` has answered what is right for the tables that its first turn `a`
      and its last turn `b` found. */
  ghost predicate ToldRight(p: Pool, turns: seq<Turn>, i: nat, a: nat, b: nat, k: Task)
    requires AllFit(p.tasks) && i < |p.tasks| && Fits(k)
  {
    && FirstTurn(turns, i, a) && LastTurn(p, turns, i, b) && a <= b
    && k.Answered? && RightAnswer(PoolAt(p, turns, a).t, PoolAt(p, turns, b).t, k.call, k.r)
  }

  ghost predicate Holds(p: Pool, turns: seq<Turn>, i: nat, a: nat, k: Task)
    requires AllFit(p.tasks) && i < |p.tasks| && Fits(k)
  {
    FirstTurn(turns, i, a) && InHand(PoolAt(p, turns, a).t, k)
  }

  ghost predicate Explained(p: Pool, turns: seq<Turn>, i: nat, k: Task)
    requires AllFit(p.tasks) && i < |p.tasks| && Fits(k)
  {
    match k
    case Waiting(_) => forall c | 0 <= c < |turns| :: turns[c].who != i
    case Answered(_, _) => exists a: nat, b: nat :: ToldRight(p, turns, i, a, b, k)
    case _ => exists a: nat :: Holds(p, turns, i, a, k)
  }

  lemma SamePoolAt(p: Pool, turns: seq<Turn>, turn: Turn, a: nat)
    requires AllFit(p.tasks) && a <= |turns|
    ensures PoolAt(p, turns + [turn], a) == PoolAt(p, turns, a)
    ensures PoolAt(p, turns, |turns|) == Played(p, turns)
  {
    assert (turns + [turn])[..a] == turns[..a] && turns[..|turns|] == turns;
  }

  lemma FirstTurnStays(turns: seq<Turn>, turn: Turn, i: nat, a: nat)
    requires FirstTurn(turns, i, a)
    ensures FirstTurn(turns + [turn], i, a)
  {
  }

  lemma StaysExplained(p: Pool, turns: seq<Turn>, turn: Turn, i: nat, k: Task)
    requires AllFit(p.tasks) && i < |p.tasks| && Fits(k) && Explained(p, turns, i, k)
    requires turn.who != i || k.Answered?
    ensures Explained(p, turns + [turn], i, k)
  {
    if k.Answered? {
      var a: nat, b: nat :| ToldRight(p, turns, i, a, b, k);
      SamePoolAt(p, turns, turn, a);
      SamePoolAt(p, turns, turn, b);
      SamePoolAt(p, turns, turn, b + 1);
      FirstTurnStays(turns, turn, i, a);
      assert ToldRight(p, turns + [turn], i, a, b, k);
    } else if !k.Waiting? {
      var a: nat :| Holds(p, turns, i, a, k);
      SamePoolAt(p, turns, turn, a);
      FirstTurnStays(turns, turn, i, a);
      assert Holds(p, turns + [turn], i, a, k);
    }
  }

  /** The last turn is one of task `i`, which has `k` before it and `k'` after. */
  lemma TurnExplained(p: Pool, turns: seq<Turn>, turn: Turn, i: nat, a: nat, k: Task, k': Task)
    requires AllFit(p.tasks) && i < |p.tasks| && turn.who == i && Fits(k) && Fits(k')
    requires k == Played(p, turns).tasks[i] && k' == Played(p, turns + [turn]).tasks[i] && !k.Answered?
    requires FirstTurn(turns + [turn], i, a)
    requires var first, last := PoolAt(p, turns + [turn], a).t, Played(p, turns).t;
             if k'.Answered? then RightAnswer(first, last, k'.call, k'.r) else !k'.Waiting? && InHand(first, k')
    ensures Explained(p, turns + [turn], i, k')
  {
    var b := |turns|;
    SamePoolAt(p, turns, turn, b);
    assert (turns + [turn])[..b + 1] == turns + [turn];
    if k'.Answered? {
      assert ToldRight(p, turns + [turn], i, a, b, k');
    } else {
      assert Holds(p, turns + [turn], i, a, k');
    }
  }

  lemma NewTurnIsFirst(turns: seq<Turn>, turn: Turn, i: nat)
    requires turn.who == i && forall c | 0 <= c < |turns| :: turns[c].who != i
    ensures FirstTurn(turns + [turn], i, |turns|)
  {
  }

  lemma OneMoreTurn(p: Pool, turns: seq<Turn>, turn: Turn)
    requires AllFit(p.tasks) && turn.who < |p.tasks|
    ensures var q := Played(p, turns);
            Played(p, turns + [turn]).tasks[turn.who] == Statement(q.t, q.tasks[turn.who], turn.pick).1
  {
    assert (turns + [turn])[..|turns + [turn]| - 1] == turns;
  }

  lemma FirstTurnExplained(p: Pool, turns: seq<Turn>, turn: Turn, i: nat, k: Task, k': Task)
    requires AllFit(p.tasks) && i < |p.tasks| && turn.who == i && k.Waiting? && Fits(k) && Fits(k')
    requires k == Played(p, turns).tasks[i] && k' == Played(p, turns + [turn]).tasks[i]
    requires k' == Statement(Played(p, turns).t, k, turn.pick).1 && Explained(p, turns, i, k)
    ensures Explained(p, turns + [turn], i, k')
  {
    BeginsRight(Played(p, turns).t, k.call);
    NewTurnIsFirst(turns, turn, i);
    assert PoolAt(p, turns + [turn], |turns|) == Played(p, turns) by { SamePoolAt(p, turns, turn, |turns|); }
    TurnExplained(p, turns, turn, i, |turns|, k, k');
  }

  lemma LaterTurnExplained(p: Pool, turns: seq<Turn>, turn: Turn, i: nat, a: nat, k: Task, k': Task)
    requires AllFit(p.tasks) && i < |p.tasks| && turn.who == i && Fits(k) && Fits(k')
    requires k == Played(p, turns).tasks[i] && k' == Played(p, turns + [turn]).tasks[i]
    requires k' == Statement(Played(p, turns).t, k, turn.pick).1 && StillItself(Played(p, turns).t, k)
    requires !k.Waiting? && !k.Answered? && Holds(p, turns, i, a, k)
    ensures Explained(p, turns + [turn], i, k')
  {
    EndsRight(PoolAt(p, turns, a).t, Played(p, turns).t, k, turn.pick);
    SamePoolAt(p, turns, turn, a);
    FirstTurnStays(turns, turn, i, a);
    TurnExplained(p, turns, turn, i, a, k, k');
  }

  lemma {:induction false} AlwaysExplained(p: Pool, turns: seq<Turn>, i: nat)
    requires AllFit(p.tasks) && FreshAhead(p) && i < |p.tasks|
    requires forall j | 0 <= j < |p.tasks| :: p.tasks[j].Waiting?
    ensures Explained(p, turns, i, Played(p, turns).tasks[i])
    decreases |turns|
  {
    if turns == [] {
    } else {
      var front, turn := turns[..|turns| - 1], turns[|turns| - 1];
      var k := Played(p, front).tasks[i];
      assert turns == front + [turn];
      AlwaysExplained(p, front, i);
      AlwaysFresh(p, front);
      if turn.who != i || k.Answered? {
        StaysExplained(p, front, turn, i, k);
      } else {
        var k' := Played(p, turns).tasks[i];
        OneMoreTurn(p, front, turn);
        if k.Waiting? {
          FirstTurnExplained(p, front, turn, i, k, k');
        } else {
          var a: nat :| Holds(p, front, i, a, k);
          LaterTurnExplained(p, front, turn, i, a, k, k');
        }
      }
    }
  }

  /** However the statements interleave, every call that has answered was told
      what is right for the two tables that its own first and its own last
      statement found. */
  lemma AnswersAreRight(p: Pool, turns: seq<Turn>, i: nat) returns (a: nat, b: nat)
    requires AllFit(p.tasks) && FreshAhead(p) && i < |p.tasks|
    requires forall j | 0 <= j < |p.tasks| :: p.tasks[j].Waiting?
    requires Played(p, turns).tasks[i].Answered?
    ensures FirstTurn(turns, i, a) && LastTurn(p, turns, i, b) && a <= b
    ensures RightAnswer(PoolAt(p, turns, a).t, PoolAt(p, turns, b).t, p.tasks[i].call, Played(p, turns).tasks[i].r)
  {
    AlwaysExplained(p, turns, i);
    CallsStay(p, turns, i);
    a, b :| ToldRight(p, turns, i, a, b, Played(p, turns).tasks[i]);
  }

  // ----- every call counts once

  /** The tasks whose calls the log lists, in its order. */
  ghost function Order(p: Pool, turns: seq<Turn>): seq<nat>
    requires AllFit(p.tasks)
  {
    if turns == [] then []
    else
      var front := turns[..|turns| - 1];
      Order(p, front) + (if CountsAs(Played(p, front), turns[|turns| - 1]) == [] then [] else [turns[|turns| - 1].who])
  }

  /** The call itself, or a cascade that has cleaned what it had to. */
  ghost predicate SameCall(logged: Call, c: Call) {
    logged == c || (c.op.DeleteByHive? && logged == c.(reminders := NoReminders))
  }

  /** Tasks in the order have answered and are there once, and the log has their calls. */
  ghost predicate InOrder(p: Pool, order: seq<nat>, log: seq<Call>) {
    && |order| == |log|
    && (forall i, j | 0 <= i < j < |order| :: order[i] != order[j])
    && (forall i | 0 <= i < |order| ::
          order[i] < |p.tasks| && p.tasks[order[i]].Answered? && SameCall(log[i], p.tasks[order[i]].call))
  }

  /** A task that has answered is in the order, but for a cascade that stopped at
      a failed cleaning. */
  ghost predicate InOrderOrFailed(k: Task, who: nat, order: seq<nat>) {
    k.Answered? ==> who in order || (k.call.op.DeleteByHive? && k.r == Refusal(Internal))
  }

  lemma OrderGrows(q: Pool, turn: Turn, order: seq<nat>, log: seq<Call>)
    requires AllFit(q.tasks) && InOrder(q, order, log)
    ensures InOrder(Next(q, turn), order + (if CountsAs(q, turn) == [] then [] else [turn.who]),
                    log + CountsAs(q, turn))
  {
    if turn.who < |q.tasks| {
      StatementFits(q.t, q.tasks[turn.who], turn.pick);
    }
  }

  /** The log lists no call twice, and every call that has answered. */
  lemma {:induction false} LoggedOnce(p: Pool, turns: seq<Turn>, who: nat)
    requires AllFit(p.tasks) && who < |p.tasks| && p.tasks[who].Waiting?
    ensures InOrder(Played(p, turns), Order(p, turns), Log(p, turns))
    ensures InOrderOrFailed(Played(p, turns).tasks[who], who, Order(p, turns))
    decreases |turns|
  {
    if turns == [] {
    } else {
      var front, turn := turns[..|turns| - 1], turns[|turns| - 1];
      LoggedOnce(p, front, who);
      OrderGrows(Played(p, front), turn, Order(p, front), Log(p, front));
    }
  }

  lemma {:induction false} CallsStay(p: Pool, turns: seq<Turn>, i: nat)
    requires AllFit(p.tasks) && i < |p.tasks|
    ensures Played(p, turns).tasks[i].call == p.tasks[i].call
    decreases |turns|
  {
    if turns == [] {
    } else {
      var front, turn := turns[..|turns| - 1], turns[|turns| - 1];
      CallsStay(p, front, i);
      if turn.who < |p.tasks| {
        StatementFits(Played(p, front).t, Played(p, front).tasks[turn.who], turn.pick);
      }
    }
  }

  // ----- every answer is that of the serial run

  /** Equal, but that a listing may have counted an earlier table. */
  ghost predicate SameButTotal(r: Response, serial: Response) {
    r == serial || (r.Many? && serial.Many? && r.items == serial.items)
  }

  /** The last statement of a call answers what the call it counts as would. */
  lemma StatementAnswers(t: Table, k: Task, pick: Uuid)
    requires Fits(k) && StillItself(t, k) && Counts(t, k, pick) != []
    ensures var r, serial := Statement(t, k, pick).1.r, Step(t, Counts(t, k, pick)[0]).1;
            SameButTotal(r, serial) && (!k.Counted? ==> r == serial)
  {
  }

  lemma {:induction false} LogGrows(p: Pool, turns: seq<Turn>, b: nat)
    requires AllFit(p.tasks) && b <= |turns|
    ensures Log(p, turns[..b]) <= Log(p, turns) && Order(p, turns[..b]) <= Order(p, turns)
    decreases |turns|
  {
    if b == |turns| {
      assert turns[..b] == turns;
    } else {
      var front := turns[..|turns| - 1];
      assert front[..b] == turns[..b];
      LogGrows(p, front, b);
    }
  }

  lemma {:induction false} AnswerStays(p: Pool, turns: seq<Turn>, i: nat, b: nat)
    requires AllFit(p.tasks) && i < |p.tasks| && b <= |turns| && PoolAt(p, turns, b).tasks[i].Answered?
    ensures Played(p, turns).tasks[i] == PoolAt(p, turns, b).tasks[i]
    decreases |turns|
  {
    if b == |turns| {
      assert turns[..b] == turns;
    } else {
      var front := turns[..|turns| - 1];
      assert front[..b] == turns[..b];
      AnswerStays(p, front, i, b);
    }
  }

  /** What the last turn of task `i` adds to the log, and where. */
  lemma LastTurnLogs(p: Pool, turns: seq<Turn>, i: nat, b: nat)
    requires AllFit(p.tasks) && i < |p.tasks| && p.tasks[i].Waiting? && LastTurn(p, turns, i, b)
    requires CountsAs(PoolAt(p, turns, b), turns[b]) != []
    ensures var m := |Log(p, turns[..b])|;
            && m < |Log(p, turns)| == |Order(p, turns)| && Order(p, turns)[m] == i
            && Log(p, turns)[..m] == Log(p, turns[..b])
            && Log(p, turns)[m] == CountsAs(PoolAt(p, turns, b), turns[b])[0]
  {
    assert turns[..b + 1][..b] == turns[..b];
    LogGrows(p, turns, b);
    LogGrows(p, turns, b + 1);
    LoggedOnce(p, turns[..b], i);
    LoggedOnce(p, turns, i);
  }

  lemma CountsOnAnswer(p: Pool, turns: seq<Turn>, i: nat, b: nat)
    requires AllFit(p.tasks) && i < |p.tasks| && LastTurn(p, turns, i, b)
    ensures var q := PoolAt(p, turns, b);
            && PoolAt(p, turns, b + 1).tasks[i] == Statement(q.t, q.tasks[i], turns[b].pick).1
            && CountsAs(q, turns[b]) == Counts(q.t, q.tasks[i], turns[b].pick)
  {
    assert turns[..b + 1][..b] == turns[..b];
  }

  /** Every answer is the one the serial run gives, at the place its call has in
      the log; only the total of a listing may be that of an earlier table, and
      only a cascade that stopped at a failed cleaning has no place. */
  lemma AnswersAreSerial(p: Pool, turns: seq<Turn>, i: nat) returns (m: nat)
    requires AllFit(p.tasks) && FreshAhead(p) && i < |p.tasks|
    requires forall j | 0 <= j < |p.tasks| :: p.tasks[j].Waiting?
    requires Played(p, turns).tasks[i].Answered?
    requires p.tasks[i].call.op.DeleteByHive? ==> Played(p, turns).tasks[i].r != Refusal(Internal)
    ensures m < |Log(p, turns)| == |Order(p, turns)| && Order(p, turns)[m] == i
    ensures SameCall(Log(p, turns)[m], p.tasks[i].call) && ValidCalls(Log(p, turns)[..m]) && ValidCall(Log(p, turns)[m])
    ensures var r, serial := Played(p, turns).tasks[i].r, Step(After(p.t, Log(p, turns)[..m]), Log(p, turns)[m]).1;
            SameButTotal(r, serial) && (!p.tasks[i].call.op.List? && !p.tasks[i].call.op.ListAll? ==> r == serial)
  {
    var a, b := AnswersAreRight(p, turns, i);
    var q := PoolAt(p, turns, b);
    CountsOnAnswer(p, turns, i, b);
    AnswerStays(p, turns, i, b + 1);
    CallsStay(p, turns, i);
    CallsStay(p, turns[..b], i);
    AlwaysFresh(p, turns[..b]);
    LastTurnLogs(p, turns, i, b);
    Serializable(p, turns[..b]);
    StatementWrites(q.t, q.tasks[i], turns[b].pick);
    StatementAnswers(q.t, q.tasks[i], turns[b].pick);
    m := |Log(p, turns[..b])|;
  }

  // ----- what holds of every run

  lemma LoggedCall(p: Pool, turns: seq<Turn>, i: nat)
    requires AllFit(p.tasks) && InOrder(Played(p, turns), Order(p, turns), Log(p, turns)) && i < |Log(p, turns)|
    ensures Order(p, turns)[i] < |p.tasks| && SameCall(Log(p, turns)[i], p.tasks[Order(p, turns)[i]].call)
  {
    CallsStay(p, turns, Order(p, turns)[i]);
  }

  /** The log is a run with new ids, so what holds of every run holds of every
      interleaving: content stays valid, records keep their identity and change
      only by calls that may, and callers do not interfere. */
  lemma LogIsNew(p: Pool, turns: seq<Turn>)
    requires AllFit(p.tasks) && FreshAhead(p) && forall j | 0 <= j < |p.tasks| :: p.tasks[j].Waiting?
    ensures NewIds(p.t.Keys, Log(p, turns))
  {
    var log, order := Log(p, turns), Order(p, turns);
    if p.tasks == [] {
      NothingLogged(p, turns);
    } else {
      LoggedOnce(p, turns, 0);
      forall i | 0 <= i < |log| && Inserts(log[i]) ensures log[i].freshId !in p.t {
        LoggedCall(p, turns, i);
        assert WillInsert(p.tasks[order[i]]);
      }
      forall i, j | 0 <= i < j < |log| && Inserts(log[i]) && Inserts(log[j]) ensures log[i].freshId != log[j].freshId {
        LoggedCall(p, turns, i);
        LoggedCall(p, turns, j);
        assert WillInsert(p.tasks[order[i]]) && WillInsert(p.tasks[order[j]]);
      }
    }
  }

  lemma {:induction false} NothingLogged(p: Pool, turns: seq<Turn>)
    requires p.tasks == []
    ensures Log(p, turns) == []
    decreases |turns|
  {
    if turns == [] {
    } else {
      NothingLogged(p, turns[..|turns| - 1]);
    }
  }

  /** A record that is there before and after any interleaving has kept its id,
      hive, owner and creation time; every record that came, changed or went has
      the logged call that did it. */
  lemma ConcurrentProvenance(p: Pool, turns: seq<Turn>, id: Uuid)
    requires AllFit(p.tasks) && FreshAhead(p) && forall j | 0 <= j < |p.tasks| :: p.tasks[j].Waiting?
    ensures var end, log := Played(p, turns).t, Log(p, turns);
            && ValidCalls(log)
            && (id in p.t && id in end ==> SameIdentity(p.t[id], end[id]))
            && (id in p.t && id in end && end[id] != p.t[id] ==> SomeEdits(log, end[id]))
            && (id in p.t && id !in end ==> SomeRemoves(log, p.t[id]))
            && (id !in p.t && id in end ==> SomeCreates(log, end[id]) && SomeWrites(log, end[id]))
  {
    Serializable(p, turns);
    LogIsNew(p, turns);
    RunProvenance(p.t, Log(p, turns), id);
  }
}
