/** `TableSelect` (modules/mod_mysqlx_table_select.cc): the chained builder
    behind `table.select(...).where(...)...execute()`. Its constructor
    registers, for each chain function, the functions after which it may
    be called; every chain function records its argument in the select
    statement and then enables the functions registered after it. */
module TableSelectChain {
  import opened Basics

  /** The chain functions, and `Initial` for the name `""` the constructor
      passes to `update_functions`. */
  datatype Step =
    | Initial | Select | Where | GroupBy | Having | OrderBy
    | Limit | Offset | Bind | Execute | ShellHook

  /** The name a function is registered under. */
  function Name(f: Step): string {
    match f
    case Initial => ""
    case Select => "select"
    case Where => "where"
    case GroupBy => "groupBy"
    case Having => "having"
    case OrderBy => "orderBy"
    case Limit => "limit"
    case Offset => "offset"
    case Bind => "bind"
    case Execute => "execute"
    case ShellHook => "__shell_hook__"
  }

  /** The constructor's `register_dynamic_function(name, predecessors)`
      calls: the functions after which `f` may be called. Every function
      but `Initial` has one, and only `select` follows the constructor's
      update. */
  function Predecessors(f: Step): (r: set<Step>)
    ensures r == {} <==> f == Initial
    ensures Initial in r <==> f == Select
  {
    match f
    case Initial => {}
    case Select => {Initial}
    case Where => {Select}
    case GroupBy => {Select, Where}
    case Having => {GroupBy}
    case OrderBy => {Select, Where, GroupBy, Having}
    case Limit => {Select, Where, GroupBy, Having, OrderBy}
    case Offset => {Limit}
    case Bind => {Select, Where, GroupBy, Having, OrderBy, Offset, Limit}
    case Execute => {Select, Where, GroupBy, Having, OrderBy, Offset, Limit, Bind}
    case ShellHook => {Select, Where, GroupBy, Having, OrderBy, Offset, Limit, Bind}
  }

  /** The registered functions. */
  const Registered: set<Step> :=
    {Select, Where, GroupBy, Having, OrderBy, Limit, Offset, Bind, Execute, ShellHook}

  /** `update_functions(Name(f))`: the functions enabled after `f`, those
      registered with `f` among their predecessors. They all come later in
      the chain order, `select` only at the start, and `execute` after
      every function that updates the enabled set. */
  function EnabledAfter(f: Step): (r: set<Step>)
    ensures r <= Registered
    ensures forall g :: g in r ==> Rank(f) < Rank(g)
    ensures Select in r <==> f == Initial
    ensures Execute in r <==> f in {Select, Where, GroupBy, Having, OrderBy, Limit, Offset, Bind}
  {
    assert Select in Registered && Execute in Registered;
    set g | Enables(f, g)
  }

  /** `g` is registered with `f` among its predecessors. */
  predicate Enables(f: Step, g: Step) {
    g in Registered && f in Predecessors(g)
  }

  /** What the select statement has been given so far. The X protocol
      builder (`::mysqlx::SelectStatement`) is not part of this model; it
      is represented by the arguments it was handed. */
  datatype SelectStatement = SelectStatement(
    fields: seq<string>,
    criteria: Option<string>,
    grouping: seq<string>,
    groupingCriteria: Option<string>,
    ordering: seq<string>,
    limit: Option<uint64>,
    offset: Option<uint64>)

  /** `table->_table_impl->select(fields)`: a statement over `fields`
      (all columns when empty) with nothing else set. */
  function NewStatement(fields: seq<string>): (st: SelectStatement)
    ensures st.fields == fields && st.criteria == None && st.limit == None
  {
    SelectStatement(fields, None, [], None, [], None, None)
  }

  class TableSelect {
    /** `_select_statement`: `None` until `select` has run. */
    var statement: Option<SelectStatement>
    /** The functions currently enabled. */
    var enabled: set<Step>
    /** The last name passed to `update_functions`. */
    ghost var last: Step
    /** The chain functions that have updated the enabled set, in order. */
    ghost var calls: seq<Step>

    /** The calls so far form a chain ending in the last update, the
        enabled set is the one that update gave, and a statement exists
        exactly once a chain function has run; before that only `select`
        can be called. */
    ghost predicate Valid()
      reads this
    {
      && IsChain(calls)
      && last == LastCall(calls)
      && enabled == EnabledAfter(last)
      && (last == Initial <==> statement.None?)
      && (statement.None? ==> enabled == {Select})
    }

    /** The constructor registers the functions and calls
        `update_functions("")`. */
    constructor()
      ensures Valid()
      ensures enabled == {Select} && statement == None && calls == []
    {
      statement := None;
      enabled := EnabledAfter(Initial);
      last := Initial;
      calls := [];
      new;
      InitialEnablesOnlySelect();
    }

    /** `update_functions(Name(f))`. */
    method UpdateFunctions(f: Step)
      modifies this
      ensures enabled == EnabledAfter(f) && last == f
      ensures statement == old(statement) && calls == old(calls)
    {
      enabled := EnabledAfter(f);
      last := f;
    }

    /** `select([fields])`: `fields` is `None` when no argument is given.
        When the owner table is gone (`ownerAlive` false) nothing happens. */
    method DoSelect(fields: Option<seq<string>>, ownerAlive: bool) returns (r: Result<TableSelect>)
      requires Valid() && Select in enabled
      modifies this
      ensures Valid()
      ensures r.Err? <==> ownerAlive && fields == Some([])
      ensures r.Err? ==> r.msg == "Field selection criteria can not be empty"
      ensures r.Ok? ==> r.value == this
      ensures r.Err? || !ownerAlive ==> unchanged(this)
      ensures r.Ok? && ownerAlive ==>
                && statement == Some(NewStatement(if fields.Some? then fields.value else []))
                && enabled == EnabledAfter(Select)
                && calls == old(calls) + [Select] && Select !in old(calls)
    {
      if ownerAlive {
        var columns := [];
        if fields.Some? {
          columns := fields.value;
          if |columns| == 0 {
            return Err("Field selection criteria can not be empty");
          }
        }
        ChainExtend(calls, Select);
        statement := Some(NewStatement(columns));
        UpdateFunctions(Select);
        calls := calls + [Select];
      }
      return Ok(this);
    }

    /** `where(searchCondition)`. */
    method DoWhere(searchCondition: string) returns (r: Result<TableSelect>)
      requires Valid() && Where in enabled
      modifies this
      ensures Valid() && r == Ok(this)
      ensures statement == Some(old(statement.value).(criteria := Some(searchCondition)))
      ensures enabled == EnabledAfter(Where)
      ensures calls == old(calls) + [Where] && Where !in old(calls)
    {
      ChainExtend(calls, Where);
      statement := Some(statement.value.(criteria := Some(searchCondition)));
      UpdateFunctions(Where);
      calls := calls + [Where];
      return Ok(this);
    }

    /** `groupBy(fields)`. */
    method DoGroupBy(fields: seq<string>) returns (r: Result<TableSelect>)
      requires Valid() && GroupBy in enabled
      modifies this
      ensures Valid()
      ensures r.Err? <==> fields == []
      ensures r.Err? ==> r.msg == "Grouping criteria can not be empty" && unchanged(this)
      ensures r.Ok? ==> && r.value == this
                        && statement == Some(old(statement.value).(grouping := fields))
                        && enabled == EnabledAfter(GroupBy)
                        && calls == old(calls) + [GroupBy] && GroupBy !in old(calls)
    {
      if |fields| == 0 {
        return Err("Grouping criteria can not be empty");
      }
      ChainExtend(calls, GroupBy);
      statement := Some(statement.value.(grouping := fields));
      UpdateFunctions(GroupBy);
      calls := calls + [GroupBy];
      return Ok(this);
    }

    /** `having(searchCondition)`. */
    method DoHaving(searchCondition: string) returns (r: Result<TableSelect>)
      requires Valid() && Having in enabled
      modifies this
      ensures Valid() && r == Ok(this)
      ensures statement == Some(old(statement.value).(groupingCriteria := Some(searchCondition)))
      ensures enabled == EnabledAfter(Having)
      ensures calls == old(calls) + [Having] && Having !in old(calls)
    {
      ChainExtend(calls, Having);
      statement := Some(statement.value.(groupingCriteria := Some(searchCondition)));
      UpdateFunctions(Having);
      calls := calls + [Having];
      return Ok(this);
    }

    /** `orderBy(fields)`. */
    method DoOrderBy(fields: seq<string>) returns (r: Result<TableSelect>)
      requires Valid() && OrderBy in enabled
      modifies this
      ensures Valid()
      ensures r.Err? <==> fields == []
      ensures r.Err? ==> r.msg == "Order criteria can not be empty" && unchanged(this)
      ensures r.Ok? ==> && r.value == this
                        && statement == Some(old(statement.value).(ordering := fields))
                        && enabled == EnabledAfter(OrderBy)
                        && calls == old(calls) + [OrderBy] && OrderBy !in old(calls)
    {
      if |fields| == 0 {
        return Err("Order criteria can not be empty");
      }
      ChainExtend(calls, OrderBy);
      statement := Some(statement.value.(ordering := fields));
      UpdateFunctions(OrderBy);
      calls := calls + [OrderBy];
      return Ok(this);
    }

    /** `limit(numberOfRows)`. */
    method DoLimit(numberOfRows: uint64) returns (r: Result<TableSelect>)
      requires Valid() && Limit in enabled
      modifies this
      ensures Valid() && r == Ok(this)
      ensures statement == Some(old(statement.value).(limit := Some(numberOfRows)))
      ensures enabled == EnabledAfter(Limit)
      ensures calls == old(calls) + [Limit] && Limit !in old(calls)
    {
      ChainExtend(calls, Limit);
      statement := Some(statement.value.(limit := Some(numberOfRows)));
      UpdateFunctions(Limit);
      calls := calls + [Limit];
      return Ok(this);
    }

    /** `offset(limitOffset)`. */
    method DoOffset(limitOffset: uint64) returns (r: Result<TableSelect>)
      requires Valid() && Offset in enabled
      modifies this
      ensures Valid() && r == Ok(this)
      ensures statement == Some(old(statement.value).(offset := Some(limitOffset)))
      ensures enabled == EnabledAfter(Offset)
      ensures calls == old(calls) + [Offset] && Offset !in old(calls)
    {
      ChainExtend(calls, Offset);
      statement := Some(statement.value.(offset := Some(limitOffset)));
      UpdateFunctions(Offset);
      calls := calls + [Offset];
      return Ok(this);
    }

    /** `bind(...)`: always throws. */
    method DoBind() returns (r: Result<TableSelect>)
      requires Valid() && Bind in enabled
      ensures r == Err("TableSelect.bind: not yet implemented.")
    {
      return Err("TableSelect.bind: not yet implemented.");
    }

    /** `execute()`: hands the statement to the server; here it returns the
        statement that is executed. It can follow any other function, and
        the functions enabled stay as they are. */
    method DoExecute() returns (executed: SelectStatement)
      requires Valid() && Execute in enabled
      ensures executed == statement.value
    {
      return statement.value;
    }
  }

  /** After construction only `select` can be called. */
  lemma InitialEnablesOnlySelect()
    ensures EnabledAfter(Initial) == {Select}
  {
    forall g | g in EnabledAfter(Initial)
      ensures g == Select
    {
    }
  }

  /** `where` is enabled only right after `select`, `having` only right
      after `groupBy`, `offset` only right after `limit`. */
  lemma SinglePredecessors(f: Step)
    ensures Where in EnabledAfter(f) <==> f == Select
    ensures Having in EnabledAfter(f) <==> f == GroupBy
    ensures Offset in EnabledAfter(f) <==> f == Limit
  {
    assert Where in Registered && Having in Registered && Offset in Registered;
  }

  /** The order in which the chain functions may appear. */
  function Rank(f: Step): nat {
    match f
    case Initial => 0
    case Select => 1
    case Where => 2
    case GroupBy => 3
    case Having => 4
    case OrderBy => 5
    case Limit => 6
    case Offset => 7
    case Bind => 8
    case Execute => 9
    case ShellHook => 9
  }

  /** Every enabling moves forward in that order. */
  lemma EnablingRaisesRank(f: Step, g: Step)
    requires Enables(f, g)
    ensures Rank(f) < Rank(g)
  {
  }

  /** A sequence of calls each of which was enabled by the one before it
      (the first by the constructor). */
  predicate IsChain(calls: seq<Step>) {
    forall i {:trigger Before(calls, i)} :: 0 <= i < |calls| ==> Enables(Before(calls, i), calls[i])
  }

  /** The last call of `calls`; the constructor's update when there is none. */
  function LastCall(calls: seq<Step>): Step {
    if calls == [] then Initial else calls[|calls| - 1]
  }

  /** The call before `calls[i]`; the constructor's update before the first. */
  function Before(calls: seq<Step>, i: nat): Step
    requires i < |calls|
  {
    if i == 0 then Initial else calls[i - 1]
  }

  /** Along a chain the order strictly increases, so no function is called
      twice and a chain has at most nine calls. */
  lemma {:induction false} ChainRanksIncrease(calls: seq<Step>)
    requires IsChain(calls)
    ensures forall i, j :: 0 <= i < j < |calls| ==> Rank(calls[i]) < Rank(calls[j])
    ensures forall i :: 0 <= i < |calls| ==> Rank(calls[i]) >= i + 1
    decreases |calls|
  {
    if calls != [] {
      var n := |calls| - 1;
      var init := calls[..n];
      ChainPrefix(calls);
      ChainRanksIncrease(init);
      ChainLastStep(calls);
      assert forall i :: 0 <= i < n ==> init[i] == calls[i];
      forall i, j | 0 <= i < j < |calls|
        ensures Rank(calls[i]) < Rank(calls[j])
      {
        if j < n {
          assert Rank(init[i]) < Rank(init[j]);
        } else if i < n - 1 {
          assert Rank(init[i]) < Rank(init[n - 1]);
        }
      }
    }
  }

  /** Dropping the last call of a chain leaves a chain. */
  lemma ChainPrefix(calls: seq<Step>)
    requires IsChain(calls) && calls != []
    ensures IsChain(calls[..|calls| - 1])
  {
    var init := calls[..|calls| - 1];
    forall i | 0 <= i < |init|
      ensures Enables(Before(init, i), init[i])
    {
      assert init[i] == calls[i] && Before(init, i) == Before(calls, i);
    }
  }

  /** The last call of a chain ranks above the one before it, and above the
      constructor's update. */
  lemma ChainLastStep(calls: seq<Step>)
    requires IsChain(calls) && calls != []
    ensures |calls| >= 2 ==> Rank(calls[|calls| - 2]) < Rank(calls[|calls| - 1])
    ensures Rank(calls[|calls| - 1]) >= 1
  {
    var n := |calls| - 1;
    assert Enables(Before(calls, n), calls[n]);
    EnablingRaisesRank(Before(calls, n), calls[n]);
  }

  /** A call enabled by the last one extends the chain, and is a function
      that has not been called before. */
  lemma ChainExtend(calls: seq<Step>, g: Step)
    requires IsChain(calls) && Enables(LastCall(calls), g)
    ensures IsChain(calls + [g])
    ensures g !in calls
  {
    ChainAppend(calls, g);
    var ext := calls + [g];
    ChainRanksIncrease(ext);
    forall k | 0 <= k < |calls|
      ensures calls[k] != g
    {
      assert ext[k] == calls[k] && ext[|calls|] == g;
      assert Rank(ext[k]) < Rank(ext[|calls|]);
    }
  }

  /** Appending a call enabled by the last one keeps a chain. */
  lemma ChainAppend(calls: seq<Step>, g: Step)
    requires IsChain(calls) && Enables(LastCall(calls), g)
    ensures IsChain(calls + [g])
  {
    var ext := calls + [g];
    forall i | 0 <= i < |ext|
      ensures Enables(Before(ext, i), ext[i])
    {
      if i < |calls| {
        assert ext[i] == calls[i] && Before(ext, i) == Before(calls, i);
      } else {
        assert ext[i] == g && Before(ext, i) == LastCall(calls);
      }
    }
  }

  /** No function appears twice in a chain, and a chain is at most nine
      calls long. */
  lemma ChainHasNoRepeats(calls: seq<Step>)
    requires IsChain(calls)
    ensures forall i, j :: 0 <= i < j < |calls| ==> calls[i] != calls[j]
    ensures |calls| <= 9
  {
    ChainRanksIncrease(calls);
    if calls != [] {
      assert Rank(calls[|calls| - 1]) >= |calls|;
    }
  }

  /** On the object itself, no chain function has run twice and at most
      nine have run: each can be invoked only once in a chain. */
  lemma CallsNeverRepeat(t: TableSelect)
    requires t.Valid()
    ensures forall i, j :: 0 <= i < j < |t.calls| ==> t.calls[i] != t.calls[j]
    ensures |t.calls| <= 9
  {
    ChainHasNoRepeats(t.calls);
  }

  /** Once anything but `select` is enabled, the statement exists, so the
      chain functions never reach a missing `_select_statement`. */
  lemma EnabledImpliesStatement(t: TableSelect, f: Step)
    requires t.Valid() && f in t.enabled && f != Select
    ensures t.statement.Some?
  {
    if t.last == Initial {
      InitialEnablesOnlySelect();
    }
  }
}
