/**
  The controller of one entry of a column's transformation menu
  (`TransformMenuCtrl`). Selecting an entry either fetches dynamic parameters
  and opens the parameter modal, or opens the modal directly, or appends the
  transformation as a new preparation step at once.

  The two services are not modelled: each call is recorded in `effects`, and
  the settling of each request is an explicit event method.
 */
module TransformMenu {
  import opened Wrappers

  const ScopeKey: string := "scope"
  const ColumnIdKey: string := "column_id"
  const ColumnNameKey: string := "column_name"

  datatype Column = Column(id: string, name: string)

  /** A menu entry; `parameters` and `items` are `None` when absent, and any
      list, even an empty one, is truthy. */
  datatype Menu = Menu(
    name: string,
    dynamic: bool,
    parameters: Option<seq<string>>,
    items: Option<seq<string>>)

  /** What the dynamic-parameter request is told about the column. */
  datatype DynamicInfos = DynamicInfos(columnId: string, datasetId: string, preparationId: Option<string>)

  /** The service calls the controller makes. */
  datatype Effect =
    | InitDynamicParameters(menu: Menu, infos: DynamicInfos)
    | AppendStep(action: string, params: map<string, string>)

  /** The parameters a transformation step is sent with: the caller's entries,
      overwritten by the scope and the column's id and name. */
  function ClosureParams(given: map<string, string>, scope: string, column: Column): (r: map<string, string>)
    ensures r.Keys == given.Keys + {ScopeKey, ColumnIdKey, ColumnNameKey}
    ensures r[ScopeKey] == scope && r[ColumnIdKey] == column.id && r[ColumnNameKey] == column.name
    ensures forall k :: k in given && k != ScopeKey && k != ColumnIdKey && k != ColumnNameKey ==> r[k] == given[k]
  {
    given[ScopeKey := scope][ColumnIdKey := column.id][ColumnNameKey := column.name]
  }

  /** The closure writes into the caller's object, so a form submitted twice
      with the same object sends the same parameters the second time. */
  lemma ClosureParamsIdempotent(given: map<string, string>, scope: string, column: Column)
    ensures ClosureParams(ClosureParams(given, scope, column), scope, column) == ClosureParams(given, scope, column)
  {
  }

  /** The parameter object a form hands to the transformation closure; the
      closure writes into it. */
  class StepParams {
    var entries: map<string, string>

    constructor (entries: map<string, string>)
      ensures this.entries == entries
    {
      this.entries := entries;
    }
  }

  class TransformMenuCtrl {
    /** The directive's bound column, read again on every call. */
    var column: Column

    var showModal: bool
    var dynamicFetchInProgress: bool
    var selectedMenu: Option<Menu>
    var selectedScope: Option<string>

    /** Service calls made so far, oldest first. */
    var effects: seq<Effect>
    /** Requests issued whose promise has not settled yet. */
    var pendingFetches: nat
    var pendingAppends: nat

    /** The spinner is only shown while a dynamic-parameter request is in
        flight, and the modal is only open on a selected entry. */
    ghost predicate Valid()
      reads this
    {
      (dynamicFetchInProgress ==> pendingFetches > 0) &&
      (showModal ==> selectedMenu.Some? && selectedScope.Some?)
    }

    constructor (column: Column)
      ensures Valid()
      ensures this.column == column
      ensures !showModal && !dynamicFetchInProgress
      ensures selectedMenu.None? && selectedScope.None?
      ensures effects == [] && pendingFetches == 0 && pendingAppends == 0
    {
      this.column := column;
      showModal := false;
      dynamicFetchInProgress := false;
      selectedMenu := None;
      selectedScope := None;
      effects := [];
      pendingFetches := 0;
      pendingAppends := 0;
    }

    /** `select(menu, scope)`: a dynamic entry fetches its parameters and opens
        the modal (whatever else it has); an entry with parameters or choices
        opens the modal; any other entry is applied at once. `datasetId` and
        `preparationId` are what `PlaygroundService.currentMetadata.id` and
        `PreparationService.currentPreparationId` hold at the time of the call. */
    method Select(menu: Menu, scope: string, datasetId: string, preparationId: Option<string>)
      requires Valid()
      modifies this
      ensures Valid()
      ensures column == old(column)
      ensures menu.dynamic ==>
        && showModal && dynamicFetchInProgress
        && selectedMenu == Some(menu) && selectedScope == Some(scope)
        && effects == old(effects) + [InitDynamicParameters(menu, DynamicInfos(column.id, datasetId, preparationId))]
        && pendingFetches == old(pendingFetches) + 1 && pendingAppends == old(pendingAppends)
      ensures !menu.dynamic && (menu.parameters.Some? || menu.items.Some?) ==>
        && showModal && dynamicFetchInProgress == old(dynamicFetchInProgress)
        && selectedMenu == Some(menu) && selectedScope == Some(scope)
        && effects == old(effects)
        && pendingFetches == old(pendingFetches) && pendingAppends == old(pendingAppends)
      ensures !menu.dynamic && menu.parameters.None? && menu.items.None? ==>
        && showModal == old(showModal) && dynamicFetchInProgress == old(dynamicFetchInProgress)
        && selectedMenu == old(selectedMenu) && selectedScope == old(selectedScope)
        && effects == old(effects) + [AppendStep(menu.name, ClosureParams(map[], scope, column))]
        && pendingFetches == old(pendingFetches) && pendingAppends == old(pendingAppends) + 1
    {
      if menu.dynamic {
        dynamicFetchInProgress := true;
        showModal := true;
        selectedMenu := Some(menu);
        selectedScope := Some(scope);
        InitDynamicParams(menu, datasetId, preparationId);
      } else if menu.parameters.Some? || menu.items.Some? {
        showModal := true;
        selectedMenu := Some(menu);
        selectedScope := Some(scope);
      } else {
        TransformClosure(menu, scope, null);
      }
    }

    /** The directive binds another column to the controller; later calls send
        its id and name. */
    method BindColumn(column: Column)
      requires Valid()
      modifies this`column
      ensures Valid()
      ensures this.column == column
    {
      this.column := column;
    }

    /** `initDynamicParams(menu)`: ask for the entry's dynamic parameters, with
        the dataset and preparation ids the services hold at the time of the
        call. `Select` calls it with the spinner already on, so it is not
        bound to `Valid()`. */
    method InitDynamicParams(menu: Menu, datasetId: string, preparationId: Option<string>)
      modifies this`effects, this`pendingFetches
      ensures effects == old(effects) + [InitDynamicParameters(menu, DynamicInfos(column.id, datasetId, preparationId))]
      ensures pendingFetches == old(pendingFetches) + 1
    {
      effects := effects + [InitDynamicParameters(menu, DynamicInfos(column.id, datasetId, preparationId))];
      pendingFetches := pendingFetches + 1;
    }

    /** The closure `transformClosure(menu, scope)` applied to `params`
        (`null` when the form passes none): it writes the scope and the column
        into the caller's object and appends the step. */
    method TransformClosure(menu: Menu, scope: string, params: StepParams?)
      requires Valid()
      modifies this`effects, this`pendingAppends, params
      ensures Valid()
      ensures params != null ==> params.entries == ClosureParams(old(params.entries), scope, column)
      ensures effects == old(effects) +
        [AppendStep(menu.name, ClosureParams(if params == null then map[] else old(params.entries), scope, column))]
      ensures pendingAppends == old(pendingAppends) + 1
    {
      var entries := if params == null then map[] else params.entries;
      entries := entries[ScopeKey := scope];
      entries := entries[ColumnIdKey := column.id];
      entries := entries[ColumnNameKey := column.name];
      if params != null {
        params.entries := entries;
      }
      Transform(menu, entries);
    }

    /** `transform(menu, params)`: append a step named after the entry. */
    method Transform(menu: Menu, params: map<string, string>)
      requires Valid()
      modifies this`effects, this`pendingAppends
      ensures Valid()
      ensures effects == old(effects) + [AppendStep(menu.name, params)]
      ensures pendingAppends == old(pendingAppends) + 1
    {
      effects := effects + [AppendStep(menu.name, params)];
      pendingAppends := pendingAppends + 1;
    }

    /** The dynamic-parameter request settles; the spinner stops whether it
        succeeded or failed. */
    method DynamicParamsSettled(succeeded: bool)
      requires Valid() && pendingFetches > 0
      modifies this`dynamicFetchInProgress, this`pendingFetches
      ensures Valid()
      ensures !dynamicFetchInProgress
      ensures pendingFetches == old(pendingFetches) - 1
    {
      dynamicFetchInProgress := false;
      pendingFetches := pendingFetches - 1;
    }

    /** The step append settles; only a success closes the modal. */
    method AppendStepSettled(succeeded: bool)
      requires Valid() && pendingAppends > 0
      modifies this`showModal, this`pendingAppends
      ensures Valid()
      ensures showModal == (old(showModal) && !succeeded)
      ensures pendingAppends == old(pendingAppends) - 1
    {
      if succeeded {
        showModal := false;
      }
      pendingAppends := pendingAppends - 1;
    }
  }
}
