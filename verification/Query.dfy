/** The list query: optional filters compiled to numbered conditions and a
    positional argument vector, and what PostgreSQL makes of the two. */
module Query {
  import opened Domain
  import opened Calendar
  import opened Ordering

  /** The optional filters of a listing.  `dateTo` is the exclusive bound. */
  datatype Filter = Filter(
    product: Option<string>,
    amountOperator: Option<string>,
    amount: Option<real>,
    dateFrom: Option<CalendarDate>,
    dateTo: Option<CalendarDate>,
    sortOrder: Option<string>)

  // ----- what a listing should select

  /** The conjunction of the given filters, with no query in between. */
  ghost predicate Wanted(hives: set<Uuid>, f: Filter, h: Harvest) {
    && h.hiveId in hives
    && (f.product.Some? ==> h.product == f.product.value)
    && (f.amountOperator.Some? && f.amount.Some? ==> AmountMatches(f.amountOperator.value, h.amount, f.amount.value))
    && (f.dateFrom.Some? ==> DayNumber(f.dateFrom.value) <= h.harvestedAt)
    && (f.dateTo.Some? ==> h.harvestedAt < DayNumber(f.dateTo.value))
  }

  ghost function Selected(t: Table, hives: set<Uuid>, f: Filter): set<Harvest> {
    set id | id in t && Wanted(hives, f, t[id]) :: t[id]
  }

  /** The amount filter applies only when both halves are present; then its
      operator must be a known one, or the text of the query is not SQL.  A
      date bound must not lie in year 0, which the server's calendar lacks. */
  predicate WellFormed(f: Filter) {
    && (f.amountOperator.Some? && f.amount.Some? ==> ValidOperator(f.amountOperator.value))
    && (f.dateFrom.Some? ==> f.dateFrom.value.year >= 1)
    && (f.dateTo.Some? ==> f.dateTo.value.year >= 1)
  }

  // ----- orders

  datatype Order = HarvestedDesc | CreatedAsc | CreatedDesc

  /** The ORDER BY clause: newest harvest first unless the request asks for
      creation order; anything but "desc" is ascending. */
  function OrderOf(sortOrder: Option<string>): Order {
    if sortOrder.None? then HarvestedDesc
    else if sortOrder.value == "desc" then CreatedDesc
    else CreatedAsc
  }

  predicate Before(o: Order, a: Harvest, b: Harvest) {
    match o
    case HarvestedDesc => a.harvestedAt > b.harvestedAt || (a.harvestedAt == b.harvestedAt && a.id > b.id)
    case CreatedAsc => a.createdAt < b.createdAt || (a.createdAt == b.createdAt && a.id < b.id)
    case CreatedDesc => a.createdAt > b.createdAt || (a.createdAt == b.createdAt && a.id > b.id)
  }

  function Less(o: Order): (Harvest, Harvest) -> bool {
    (a: Harvest, b: Harvest) => Before(o, a, b)
  }

  ghost predicate DistinctIds(s: set<Harvest>) {
    forall a, b | a in s && b in s :: a.id == b.id ==> a == b
  }

  /** The id breaks every tie, so each order is total on rows of one table. */
  lemma OrderIsTotal(o: Order, s: set<Harvest>)
    requires DistinctIds(s)
    ensures StrictTotal(Less(o), s)
  {
  }

  /** Rows in an order. */
  ghost function Listing(o: Order, s: set<Harvest>): seq<Harvest>
    requires DistinctIds(s)
  {
    OrderIsTotal(o, s);
    OrderBy(Less(o), s)
  }

  lemma ListingLists(o: Order, s: set<Harvest>)
    requires DistinctIds(s)
    ensures Sorted(Less(o), Listing(o, s)) && Elements(Listing(o, s)) == s && |Listing(o, s)| == |s|
  {
    OrderIsTotal(o, s);
    OrderByLists(Less(o), s);
  }

  lemma ListingUnique(o: Order, s: set<Harvest>, xs: seq<Harvest>)
    requires DistinctIds(s) && Sorted(Less(o), xs) && Elements(xs) == s
    ensures xs == Listing(o, s)
  {
    OrderIsTotal(o, s);
    SortedIsOrderBy(Less(o), xs, s);
  }

  lemma ListingPositions(o: Order, s: set<Harvest>, a: Harvest, b: Harvest) returns (i: nat, j: nat)
    requires DistinctIds(s) && a in s && b in s && Before(o, a, b)
    ensures i < j < |Listing(o, s)| && Listing(o, s)[i] == a && Listing(o, s)[j] == b
  {
    var xs := Listing(o, s);
    ListingLists(o, s);
    OrderIsTotal(o, s);
    assert a in Elements(xs) && b in Elements(xs);
    i :| 0 <= i < |xs| && xs[i] == a;
    j :| 0 <= j < |xs| && xs[j] == b;
    OrderOfIndices(Less(o), xs, i, j);
  }

  lemma CreatedOrdersMirror(s: set<Harvest>)
    requires DistinctIds(s)
    ensures Listing(CreatedDesc, s) == Reverse(Listing(CreatedAsc, s))
  {
    OrderIsTotal(CreatedAsc, s);
    OrderIsTotal(CreatedDesc, s);
    OppositeOrderReverses(Less(CreatedAsc), Less(CreatedDesc), s);
  }

  lemma ListingOfUnion(o: Order, a: set<Harvest>, b: set<Harvest>)
    requires DistinctIds(a) && DistinctIds(b) && DistinctIds(a + b) && a !! b
    ensures Listing(o, a + b) == Merge(Less(o), Listing(o, a), Listing(o, b))
    ensures |Listing(o, a + b)| == |Listing(o, a)| + |Listing(o, b)|
  {
    OrderIsTotal(o, a + b);
    UnionIsMerge(Less(o), a, b);
    ListingLists(o, a);
    ListingLists(o, b);
    ListingLists(o, a + b);
  }

  // ----- the query as the repository writes it

  datatype Column = HiveId | Product | Amount | HarvestedAt

  /** `Blank` is the empty text an unknown amount operator turns into. */
  datatype Operator = AnyOf | Equal | Greater | Smaller | AtLeast | Blank

  /** ` AND <column> <operator> $<argIdx>`. */
  datatype Condition = Condition(column: Column, operator: Operator, argIdx: nat)

  datatype Argument = Ids(ids: seq<Uuid>) | Text(text: string) | Number(number: real) | Count(count: int)

  datatype RowQuery = RowQuery(conditions: seq<Condition>, order: Order, limitIdx: nat, offsetIdx: nat)

  function SqlOperator(operator: string): Operator {
    if operator == GT then Greater
    else if operator == LT then Smaller
    else if operator == EQ then Equal
    else Blank
  }

  /** Whether the condition is SQL and its placeholder is bound to an argument
      of the column's type; a date column reads its text as a date. */
  predicate Binds(c: Condition, args: seq<Argument>) {
    && 1 <= c.argIdx <= |args|
    && var arg := args[c.argIdx - 1];
       match c.column
       case HiveId => c.operator.AnyOf? && arg.Ids?
       case Product => c.operator.Equal? && arg.Text?
       case Amount => (c.operator.Equal? || c.operator.Greater? || c.operator.Smaller?) && arg.Number?
       case HarvestedAt => (c.operator.AtLeast? || c.operator.Smaller?) && arg.Text? && SqlDate(arg.text).Some?
  }

  predicate Holds(c: Condition, args: seq<Argument>, h: Harvest)
    requires Binds(c, args)
  {
    var arg := args[c.argIdx - 1];
    match c.column
    case HiveId => h.hiveId in arg.ids
    case Product => h.product == arg.text
    case Amount =>
      (match c.operator
       case Equal => h.amount == arg.number
       case Greater => h.amount > arg.number
       case _ => h.amount < arg.number)
    case HarvestedAt =>
      var day := DayNumber(SqlDate(arg.text).value);
      if c.operator.AtLeast? then h.harvestedAt >= day else h.harvestedAt < day
  }

  predicate AllBind(cs: seq<Condition>, args: seq<Argument>) {
    forall c | c in cs :: Binds(c, args)
  }

  predicate AllHold(cs: seq<Condition>, args: seq<Argument>, h: Harvest)
    requires AllBind(cs, args)
  {
    forall c | c in cs :: Holds(c, args, h)
  }

  ghost predicate Placed(cs: seq<Condition>, i: nat) {
    exists c :: c in cs && c.argIdx == i
  }

  /** The server takes a statement only when its placeholders are exactly
      $1 .. $n for the n arguments it is given. */
  ghost predicate Accepts(cs: seq<Condition>, more: set<nat>, args: seq<Argument>) {
    && AllBind(cs, args)
    && (forall i: nat :: 1 <= i <= |args| <==> i in more || Placed(cs, i))
  }

  ghost function Rows(t: Table, cs: seq<Condition>, args: seq<Argument>): set<Harvest>
    requires AllBind(cs, args)
  {
    set id | id in t && AllHold(cs, args, t[id]) :: t[id]
  }

  /** Conditions and arguments in step: the i-th condition is the one that
      uses the i-th argument. */
  predicate InStep(cs: seq<Condition>, args: seq<Argument>) {
    |cs| == |args| && forall i | 0 <= i < |cs| :: cs[i].argIdx == i + 1
  }

  /** Arguments appended later never change what earlier conditions mean. */
  lemma LaterArgumentsIrrelevant(cs: seq<Condition>, args: seq<Argument>, more: seq<Argument>)
    requires AllBind(cs, args)
    ensures AllBind(cs, args + more)
    ensures forall h :: AllHold(cs, args + more, h) <==> AllHold(cs, args, h)
  {
    forall c | c in cs ensures Binds(c, args + more) && forall h :: Holds(c, args + more, h) == Holds(c, args, h) {
      assert Binds(c, args);
      assert (args + more)[c.argIdx - 1] == args[c.argIdx - 1];
    }
  }

  /** Appending arguments cannot repair conditions that do not bind. */
  lemma BoundBefore(cs: seq<Condition>, args: seq<Argument>, more: seq<Argument>)
    requires InStep(cs, args)
    ensures AllBind(cs, args + more) <==> AllBind(cs, args)
  {
    forall c | c in cs ensures Binds(c, args + more) <==> Binds(c, args) {
      var i :| 0 <= i < |cs| && cs[i] == c;
      assert (args + more)[c.argIdx - 1] == args[c.argIdx - 1];
    }
  }

  /** What appending one more numbered condition adds to the meaning. */
  lemma AppendedCondition(cs: seq<Condition>, args: seq<Argument>, c: Condition, arg: Argument)
    requires InStep(cs, args) && c.argIdx == |args| + 1
    ensures InStep(cs + [c], args + [arg])
    ensures AllBind(cs + [c], args + [arg]) <==> AllBind(cs, args) && Binds(c, args + [arg])
    ensures AllBind(cs + [c], args + [arg]) ==>
              forall h :: AllHold(cs + [c], args + [arg], h) <==>
                          AllHold(cs, args, h) && Holds(c, args + [arg], h)
  {
    var cs', args' := cs + [c], args + [arg];
    assert forall x :: x in cs' <==> x in cs || x == c;
    forall x | x in cs ensures Binds(x, args') <==> Binds(x, args) {
      var i :| 0 <= i < |cs| && cs[i] == x;
      assert args'[x.argIdx - 1] == args[x.argIdx - 1];
    }
    if AllBind(cs, args) && Binds(c, args') {
      LaterArgumentsIrrelevant(cs, args, [arg]);
      forall h ensures AllHold(cs', args', h) <==> AllHold(cs, args, h) && Holds(c, args', h) {
        assert AllHold(cs, args', h) <==> AllHold(cs, args, h);
      }
    }
  }

  lemma StepAccepts(cs: seq<Condition>, args: seq<Argument>)
    requires InStep(cs, args) && AllBind(cs, args)
    ensures Accepts(cs, {}, args)
    ensures forall a, b :: Accepts(cs, {|args| + 1, |args| + 2}, args + [a, b])
  {
    forall i: nat ensures 1 <= i <= |args| <==> Placed(cs, i) {
      if 1 <= i <= |args| {
        assert cs[i - 1] in cs;
      }
    }
    forall a, b ensures Accepts(cs, {|args| + 1, |args| + 2}, args + [a, b]) {
      LaterArgumentsIrrelevant(cs, args, [a, b]);
      assert forall i: nat :: Placed(cs, i) <==> 1 <= i <= |args|;
    }
  }

  /** What the conditions collected so far must mean once the first `n` of the
      four optional filters have been compiled. */
  ghost predicate WantedSoFar(n: nat, hives: set<Uuid>, f: Filter, h: Harvest) {
    && h.hiveId in hives
    && (n >= 1 && f.product.Some? ==> h.product == f.product.value)
    && (n >= 2 && f.amountOperator.Some? && f.amount.Some? ==>
          AmountMatches(f.amountOperator.value, h.amount, f.amount.value))
    && (n >= 3 && f.dateFrom.Some? ==> DayNumber(f.dateFrom.value) <= h.harvestedAt)
    && (n >= 4 && f.dateTo.Some? ==> h.harvestedAt < DayNumber(f.dateTo.value))
  }

  /** The part of well-formedness that the first `n` filters are responsible for. */
  predicate WellFormedSoFar(n: nat, f: Filter) {
    && (n >= 2 && f.amountOperator.Some? && f.amount.Some? ==> ValidOperator(f.amountOperator.value))
    && (n >= 3 && f.dateFrom.Some? ==> f.dateFrom.value.year >= 1)
    && (n >= 4 && f.dateTo.Some? ==> f.dateTo.value.year >= 1)
  }

  ghost predicate Means(p: Compiled, n: nat, hives: set<Uuid>, f: Filter) {
    && InStep(p.conditions, p.args)
    && (AllBind(p.conditions, p.args) <==> WellFormedSoFar(n, f))
    && (AllBind(p.conditions, p.args) ==>
          forall h :: AllHold(p.conditions, p.args, h) <==> WantedSoFar(n, hives, f, h))
  }

  /** A condition list and its arguments. */
  datatype Compiled = Compiled(conditions: seq<Condition>, args: seq<Argument>) {
    function With(column: Column, operator: Operator, arg: Argument): Compiled {
      Compiled(conditions + [Condition(column, operator, |args| + 1)], args + [arg])
    }
  }

  function WithHives(ids: seq<Uuid>): Compiled {
    Compiled([Condition(HiveId, AnyOf, 1)], [Ids(ids)])
  }

  function WithProduct(p: Compiled, f: Filter): Compiled {
    if f.product.Some? then p.With(Product, Equal, Text(f.product.value)) else p
  }

  function WithAmount(p: Compiled, f: Filter): Compiled {
    if f.amountOperator.Some? && f.amount.Some?
    then p.With(Amount, SqlOperator(f.amountOperator.value), Number(f.amount.value))
    else p
  }

  function WithDateFrom(p: Compiled, f: Filter): Compiled {
    if f.dateFrom.Some? then p.With(HarvestedAt, AtLeast, Text(FormatDate(f.dateFrom.value))) else p
  }

  function WithDateTo(p: Compiled, f: Filter): Compiled {
    if f.dateTo.Some? then p.With(HarvestedAt, Smaller, Text(FormatDate(f.dateTo.value))) else p
  }

  function CompileFilter(ids: seq<Uuid>, f: Filter): Compiled {
    WithDateTo(WithDateFrom(WithAmount(WithProduct(WithHives(ids), f), f), f), f)
  }

  lemma HivesMeaning(ids: seq<Uuid>, f: Filter)
    ensures Means(WithHives(ids), 0, Elements(ids), f)
  {
    var c := Condition(HiveId, AnyOf, 1);
    assert Binds(c, [Ids(ids)]);
    assert forall h :: AllHold([c], [Ids(ids)], h) <==> Holds(c, [Ids(ids)], h);
  }

  lemma ProductMeaning(p: Compiled, hives: set<Uuid>, f: Filter)
    requires Means(p, 0, hives, f)
    ensures Means(WithProduct(p, f), 1, hives, f)
  {
    if f.product.Some? {
      AppendedCondition(p.conditions, p.args, Condition(Product, Equal, |p.args| + 1), Text(f.product.value));
    }
  }

  lemma AmountMeaning(p: Compiled, hives: set<Uuid>, f: Filter)
    requires Means(p, 1, hives, f)
    ensures Means(WithAmount(p, f), 2, hives, f)
  {
    if f.amountOperator.Some? && f.amount.Some? {
      AppendedCondition(p.conditions, p.args,
        Condition(Amount, SqlOperator(f.amountOperator.value), |p.args| + 1), Number(f.amount.value));
    }
  }

  lemma DateFromMeaning(p: Compiled, hives: set<Uuid>, f: Filter)
    requires Means(p, 2, hives, f)
    ensures Means(WithDateFrom(p, f), 3, hives, f)
  {
    if f.dateFrom.Some? {
      SqlDateOfFormat(f.dateFrom.value);
      AppendedCondition(p.conditions, p.args,
        Condition(HarvestedAt, AtLeast, |p.args| + 1), Text(FormatDate(f.dateFrom.value)));
    }
  }

  lemma DateToMeaning(p: Compiled, hives: set<Uuid>, f: Filter)
    requires Means(p, 3, hives, f)
    ensures Means(WithDateTo(p, f), 4, hives, f)
  {
    if f.dateTo.Some? {
      SqlDateOfFormat(f.dateTo.value);
      AppendedCondition(p.conditions, p.args,
        Condition(HarvestedAt, Smaller, |p.args| + 1), Text(FormatDate(f.dateTo.value)));
    }
  }

  /** Compiling preserves meaning: whatever filters are present, the conditions
      are in step with the arguments, bind exactly when the filter is well
      formed, and then select exactly the wanted rows. */
  lemma CompileFilterMeaning(ids: seq<Uuid>, f: Filter)
    ensures Means(CompileFilter(ids, f), 4, Elements(ids), f)
  {
    HivesMeaning(ids, f);
    ProductMeaning(WithHives(ids), Elements(ids), f);
    AmountMeaning(WithProduct(WithHives(ids), f), Elements(ids), f);
    DateFromMeaning(WithAmount(WithProduct(WithHives(ids), f), f), Elements(ids), f);
    DateToMeaning(WithDateFrom(WithAmount(WithProduct(WithHives(ids), f), f), f), Elements(ids), f);
  }

  /** Complete conditions, seen with the two arguments of LIMIT and OFFSET. */
  lemma CompiledQuery(ids: seq<Uuid>, cs: seq<Condition>, args: seq<Argument>, f: Filter,
                      rows: RowQuery, rowArgs: seq<Argument>)
    requires Compiled(cs, args) == CompileFilter(ids, f)
    requires rows.conditions == cs && rows.limitIdx == |args| + 1 && rows.offsetIdx == |args| + 2
    requires args < rowArgs && |rowArgs| == |args| + 2
    ensures InStep(cs, args)
    ensures WellFormed(f) <==> AllBind(cs, args)
    ensures WellFormed(f) <==> Accepts(cs, {}, args)
    ensures WellFormed(f) <==> Accepts(rows.conditions, {rows.limitIdx, rows.offsetIdx}, rowArgs)
    ensures WellFormed(f) ==> forall h :: AllHold(cs, args, h) <==> Wanted(Elements(ids), f, h)
    ensures WellFormed(f) ==> forall h :: AllHold(rows.conditions, rowArgs, h) <==> Wanted(Elements(ids), f, h)
  {
    CompileFilterMeaning(ids, f);
    var more := rowArgs[|args|..];
    assert rowArgs == args + more;
    BoundBefore(cs, args, more);
    assert forall h :: WantedSoFar(4, Elements(ids), f, h) <==> Wanted(Elements(ids), f, h);
    if WellFormed(f) {
      StepAccepts(cs, args);
      LaterArgumentsIrrelevant(cs, args, more);
    }
  }

  /** The builder: two statements grown side by side over one argument vector. */
  method BuildList(hiveIds: seq<Uuid>, limit: nat, offset: nat, f: Filter)
    returns (count: seq<Condition>, countArgs: seq<Argument>, rows: RowQuery, rowArgs: seq<Argument>)
    ensures rows.conditions == count && rows.order == OrderOf(f.sortOrder)
    ensures InStep(count, countArgs)
    ensures rowArgs == countArgs + [Count(limit), Count(offset)]
    ensures rows.limitIdx == |rowArgs| - 1 && rows.offsetIdx == |rowArgs|
    ensures WellFormed(f) <==> AllBind(count, countArgs)
    ensures WellFormed(f) <==> Accepts(count, {}, countArgs)
    ensures WellFormed(f) <==> Accepts(rows.conditions, {rows.limitIdx, rows.offsetIdx}, rowArgs)
    ensures WellFormed(f) ==> forall h :: AllHold(count, countArgs, h) <==> Wanted(Elements(hiveIds), f, h)
    ensures WellFormed(f) ==> forall h :: AllHold(rows.conditions, rowArgs, h) <==> Wanted(Elements(hiveIds), f, h)
  {
    count := [Condition(HiveId, AnyOf, 1)];
    var q := [Condition(HiveId, AnyOf, 1)];
    countArgs := [Ids(hiveIds)];
    var argIdx := 2;
    ghost var start := WithHives(hiveIds);

    if f.product.Some? {
      var cond := Condition(Product, Equal, argIdx);
      count, q := count + [cond], q + [cond];
      countArgs := countArgs + [Text(f.product.value)];
      argIdx := argIdx + 1;
    }
    ghost var p1 := WithProduct(start, f);
    assert Compiled(count, countArgs) == p1 && q == count && argIdx == |countArgs| + 1;

    if f.amountOperator.Some? && f.amount.Some? {
      var cond := Condition(Amount, SqlOperator(f.amountOperator.value), argIdx);
      count, q := count + [cond], q + [cond];
      countArgs := countArgs + [Number(f.amount.value)];
      argIdx := argIdx + 1;
    }
    ghost var p2 := WithAmount(p1, f);
    assert Compiled(count, countArgs) == p2 && q == count && argIdx == |countArgs| + 1;

    if f.dateFrom.Some? {
      var cond := Condition(HarvestedAt, AtLeast, argIdx);
      count, q := count + [cond], q + [cond];
      countArgs := countArgs + [Text(FormatDate(f.dateFrom.value))];
      argIdx := argIdx + 1;
    }
    ghost var p3 := WithDateFrom(p2, f);
    assert Compiled(count, countArgs) == p3 && q == count && argIdx == |countArgs| + 1;

    if f.dateTo.Some? {
      var cond := Condition(HarvestedAt, Smaller, argIdx);
      count, q := count + [cond], q + [cond];
      countArgs := countArgs + [Text(FormatDate(f.dateTo.value))];
      argIdx := argIdx + 1;
    }
    assert Compiled(count, countArgs) == CompileFilter(hiveIds, f) && q == count && argIdx == |countArgs| + 1;

    rows := RowQuery(q, OrderOf(f.sortOrder), argIdx, argIdx + 1);
    rowArgs := countArgs + [Count(limit), Count(offset)];
    CompiledQuery(hiveIds, count, countArgs, f, rows, rowArgs);
  }
}
