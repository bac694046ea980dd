/**
 * The grid reducer over row objects that it shares with the page: `delete`, `selected = true` and
 * `push` act in place on objects that every earlier state still refers to.
 */
module Grid {
  import opened Wrappers
  import opened GridModel

  class Row {
    const name: string
    var selected: bool

    constructor (name: string)
      ensures this.name == name && !selected
    {
      this.name := name;
      selected := false;
    }
  }

  /** A JavaScript array of rows. */
  class Rows {
    var items: seq<Row>

    constructor (items: seq<Row>)
      ensures this.items == items
    {
      this.items := items;
    }
  }

  /** `state.row`, as an object. */
  datatype Pointer = Null | Pointer(row: Row) | NormalModule

  datatype Action =
    | GridDataLoad(rows: Rows)
    | GridSelectRowClean
    | GridSelectRow(payload: Row?)
    | GridInsertRow(inserted: Row)
    | GridRefreshRows
    | GridFilteredRows(text: string)
    | Other

  function Names(rows: seq<Row>): (ns: seq<string>)
    ensures |ns| == |rows| && forall i | 0 <= i < |rows| :: ns[i] == rows[i].name
  {
    seq(|rows|, i requires 0 <= i < |rows| => rows[i].name)
  }

  predicate Distinct(rows: seq<Row>) {
    forall i, j | 0 <= i < j < |rows| :: rows[i] != rows[j]
  }

  class Store {
    var row: Pointer
    var data: Rows
    var filter: Option<string>

    ghost var created: set<Row>  // every row ever shown, loads long gone included
    ghost var view: View

    ghost predicate Valid()
      reads this, data, created
    {
      && view.names == Names(data.items) && Distinct(data.items)
      && (forall r <- data.items :: r in created)
      && view.filter == filter
      && Points()
      && forall r <- created :: r.selected <==> view.lit && row == Pointer(r)
    }

    /** The pointer and the mark denote the same row of the current data. */
    ghost predicate Points()
      reads this, data
    {
      match view.mark
      case Nowhere => row == Null
      case Module => row == NormalModule
      case AtIndex(i) => i < |data.items| && row == Pointer(data.items[i])
    }

    constructor ()
      ensures Valid() && view == INITIAL && fresh(data) && created == {}
    {
      data := new Rows([]);
      row, filter := Null, None;
      created, view := {}, INITIAL;
    }

    /**
     * What the page can dispatch: loaded and inserted rows are new to the grid and not marked, and
     * a clicked row is one of the rows on show.
     */
    ghost predicate Offered(a: Action)
      reads this, data, created
      reads if a.GridDataLoad? then {a.rows} else {}
      reads if a.GridDataLoad? then set r | r in a.rows.items else {}
      reads if a.GridInsertRow? then {a.inserted} else {}
    {
      match a
      case GridDataLoad(rows) =>
        rows != data && Distinct(rows.items) && forall r <- rows.items :: r !in created && !r.selected
      case GridSelectRow(payload) => payload != null ==> payload in data.items
      case GridInsertRow(inserted) => inserted !in created && !inserted.selected
      case _ => true
    }

    /** The value of an action. */
    ghost function StepOf(a: Action): Step
      requires Offered(a)
      reads this, data, created
      reads if a.GridDataLoad? then {a.rows} else {}
      reads if a.GridDataLoad? then set r | r in a.rows.items else {}
      reads if a.GridInsertRow? then {a.inserted} else {}
    {
      match a
      case GridDataLoad(rows) => DataLoad(Names(rows.items))
      case GridSelectRowClean => SelectClean
      case GridSelectRow(payload) =>
        if payload == null then Select(None) else Select(Some(IndexOf(data.items, payload)))
      case GridInsertRow(inserted) => InsertRow(inserted.name)
      case GridRefreshRows => RefreshRows
      case GridFilteredRows(text) => FilteredRows(Some(text))
      case Other => Unrelated
    }

    /** `if (state.row) delete state.row.selected` */
    method Unmark()
      requires Valid()
      modifies this`view, created
      ensures Valid() && view == old(view).(lit := false)
    {
      if row.Pointer? {
        assert row.row in data.items;
        row.row.selected := false;
      }
      view := view.(lit := false);
    }

    /** GRID_DATA_LOAD */
    method Load(rows: Rows)
      requires Valid() && Offered(GridDataLoad(rows))
      modifies this, created
      ensures Valid() && data == rows && data.items == old(rows.items)
      ensures view == old(Apply(view, DataLoad(Names(rows.items))))
      ensures created == old(created) + (set r | r in data.items)
    {
      Unmark();
      row, data := Null, rows;
      created := created + set r | r in rows.items;
      view := View(Names(rows.items), Nowhere, false, view.filter);
    }

    /** GRID_SELECT_ROW */
    method SelectRow(payload: Row?)
      requires Valid() && Offered(GridSelectRow(payload))
      modifies `row, `view, created
      ensures Valid() && view == old(Apply(view, StepOf(GridSelectRow(payload))))
    {
      Unmark();
      if payload != null {
        payload.selected := true;
        row := Pointer(payload);
        view := view.(mark := AtIndex(IndexOf(data.items, payload)), lit := true);
      } else {
        row := Null;
        view := view.(mark := Nowhere);
      }
    }

    /** GRID_INSERT_ROW: the array grows in place, and the marked row keeps being `state.row`. */
    method Insert(inserted: Row)
      requires Valid() && Offered(GridInsertRow(inserted))
      modifies `view, `created, data, created
      ensures Valid() && data.items == old(data.items) + [inserted]
      ensures view == old(Apply(view, InsertRow(inserted.name)))
      ensures created == old(created) + {inserted}
    {
      Unmark();
      data.items := data.items + [inserted];
      created := created + {inserted};
      view := view.(names := view.names + [inserted.name]);
    }

    /** GRID_REFRESH_ROWS: a copy of the array, and the imported module as the row. */
    method Refresh()
      requires Valid()
      modifies this, created
      ensures Valid() && fresh(data) && data.items == old(data.items)
      ensures view == old(view).(mark := Module, lit := false)
      ensures row == NormalModule && filter == old(filter) && created == old(created)
    {
      Unmark();
      row := NormalModule;
      data := new Rows(data.items);
      view := view.(mark := Module);
    }

    /** The reducer: the new state, rows mutated in place, and the view it amounts to. */
    method Reduce(a: Action)
      requires Valid() && Offered(a)
      modifies this, data, created
      ensures Valid()
      ensures view == Apply(old(view), old(StepOf(a)))
      ensures a.GridInsertRow? ==> data == old(data) && data.items == old(data.items) + [a.inserted]
      ensures a.GridRefreshRows? ==> fresh(data) && data.items == old(data.items) && old(data).items == old(data.items)
      ensures a.GridDataLoad? ==> data == a.rows && data.items == old(a.rows.items)
      ensures !a.GridInsertRow? && !a.GridRefreshRows? && !a.GridDataLoad? ==>
        data == old(data) && data.items == old(data.items)
      ensures created == old(created) + (set r | r in data.items)
      ensures row == match a
        case GridDataLoad(_) => Null
        case GridSelectRowClean => Null
        case GridSelectRow(payload) => if payload == null then Null else Pointer(payload)
        case GridRefreshRows => NormalModule
        case _ => old(row)
      ensures filter == if a.GridFilteredRows? then Some(a.text) else old(filter)
      ensures if a.GridFilteredRows? || a.Other? then forall r <- old(created) :: r.selected == old(r.selected)
        else forall r <- created :: r.selected <==> a.GridSelectRow? && r == a.payload
    {
      hide Names, IndexOf, Distinct;
      match a
      case GridDataLoad(rows) =>
        Load(rows);
      case GridSelectRowClean =>
        Unmark();
        row := Null;
        view := view.(mark := Nowhere);
      case GridSelectRow(payload) =>
        SelectRow(payload);
      case GridInsertRow(inserted) =>
        Insert(inserted);
      case GridRefreshRows =>
        Refresh();
      case GridFilteredRows(text) =>
        filter := Some(text);
        view := view.(filter := Some(text));
      case Other =>
    }
  }

  ghost function IndexOf(rows: seq<Row>, r: Row): (i: nat)
    requires r in rows
    ensures i < |rows| && rows[i] == r
  {
    var i :| 0 <= i < |rows| && rows[i] == r;
    i
  }

  // ----- Thunks -----

  /** The rows of a decoded response: new message objects, none of them marked. */
  method NewRows(names: seq<string>) returns (rows: Rows)
    ensures fresh(rows) && Names(rows.items) == names && Distinct(rows.items)
    ensures forall r <- rows.items :: fresh(r) && !r.selected
  {
    var items: seq<Row> := [];
    for i := 0 to |names|
      invariant Names(items) == names[..i] && Distinct(items)
      invariant forall r <- items :: fresh(r) && !r.selected
    {
      var r := new Row(names[i]);
      items := items + [r];
      assert names[..i + 1] == names[..i] + [names[i]];
    }
    rows := new Rows(items);
  }

  /** Rows and arrays are only ever added. */
  twostate predicate Grown(store: Store)
    reads store
  {
    && (fresh(store.data) || store.data == old(store.data))
    && (forall r <- store.created :: fresh(r) || r in old(store.created))
    && old(store.created) <= store.created
  }

  /** `actionDataLoad`, when the request succeeds. */
  method DataLoadSucceeds(store: Store, names: seq<string>)
    requires store.Valid()
    modifies store, store.data, store.created
    ensures store.Valid() && store.view == Play(old(store.view), Loaded(names)) && Grown(store)
    ensures Names(store.data.items) == names && store.row == Null && forall r <- store.created :: !r.selected
  {
    PlayCases(store.view, Loaded(names));
    store.Reduce(Other);
    store.Reduce(Other);
    var rows := NewRows(names);
    store.Reduce(GridDataLoad(rows));
  }

  /** `actionSelectRow`, on a row that is shown. */
  method SelectShown(store: Store, i: nat)
    requires store.Valid() && i < |store.data.items|
    modifies store, store.data, store.created
    ensures store.Valid() && store.view == Play(old(store.view), Clicked(i)) && Grown(store)
    ensures store.data == old(store.data) && store.data.items == old(store.data.items)
    ensures store.row == Pointer(store.data.items[i])
    ensures forall r <- store.created :: r.selected <==> r == store.data.items[i]
  {
    PlayCases(store.view, Clicked(i));
    PickSame(store, i);
    store.Reduce(GridSelectRow(store.data.items[i]));
  }

  /** `actionUploadingFile`, when the request succeeds: the row grows the old array, and is copied with it. */
  method UploadSucceeds(store: Store, name: string)
    requires store.Valid()
    modifies store, store.data, store.created
    ensures store.Valid() && store.view == Play(old(store.view), Uploaded(name)) && Grown(store)
    ensures fresh(store.data) && old(store.data).items == store.data.items
    ensures exists row: Row :: fresh(row) && row.name == name && store.data.items == old(store.data.items) + [row]
    ensures store.row == NormalModule && forall r <- store.created :: !r.selected
  {
    hide Names, Distinct, IndexOf, Play;
    PlayCases(store.view, Uploaded(name));
    store.Reduce(Other);
    var row := InsertAndRefresh(store, name);
    store.Reduce(Other);
    store.Reduce(Other);
  }

  method InsertAndRefresh(store: Store, name: string) returns (row: Row)
    requires store.Valid()
    modifies store, store.data, store.created
    ensures store.Valid() && store.view == old(View(store.view.names + [name], Module, false, store.view.filter))
    ensures Grown(store)
    ensures fresh(store.data) && old(store.data).items == store.data.items
    ensures fresh(row) && row.name == name && store.data.items == old(store.data.items) + [row]
    ensures store.row == NormalModule && forall r <- store.created :: !r.selected
  {
    hide Names, Distinct, IndexOf;
    row := new Row(name);
    store.Reduce(GridInsertRow(row));
    store.Reduce(GridRefreshRows);
  }

  /** A download, or any request that fails: three actions that the grid ignores. */
  method Bystand(store: Store, b: Burst)
    requires store.Valid() && (b.Downloaded? || b.Failed?)
    modifies store, store.data, store.created
    ensures store.Valid() && store.view == Play(old(store.view), b) && Grown(store)
    ensures store.row == old(store.row) && store.filter == old(store.filter)
    ensures store.data == old(store.data) && store.data.items == old(store.data.items)
    ensures store.created == old(store.created) && forall r <- store.created :: r.selected == old(r.selected)
  {
    PlayCases(store.view, b);
    store.Reduce(Other);
    store.Reduce(Other);
    store.Reduce(Other);
  }

  /** A thunk's dispatches, from the user's or the server's side of it. */
  method Perform(store: Store, b: Burst)
    requires store.Valid() && (b.Clicked? ==> b.index < |store.view.names|)
    modifies store, store.data, store.created
    ensures store.Valid() && store.view == Play(old(store.view), b) && Grown(store)
  {
    PlayCases(store.view, b);
    match b
    case Loaded(names) =>
      DataLoadSucceeds(store, names);
    case Clicked(i) =>
      SelectShown(store, i);
    case Cleared =>
      store.Reduce(GridSelectRowClean);
    case Uploaded(name) =>
      UploadSucceeds(store, name);
    case NothingToSend =>
      store.Reduce(GridRefreshRows);
    case Typed(text) =>
      store.Reduce(GridFilteredRows(text));
    case Downloaded | Failed =>
      Bystand(store, b);
  }

  lemma PickSame(store: Store, i: nat)
    requires store.Valid() && i < |store.data.items|
    ensures IndexOf(store.data.items, store.data.items[i]) == i
  {
  }

  /**
   * Every run of the page: the store shows what the run on values shows; over all rows ever
   * created, a row is highlighted exactly if it is `state.row`, which is then a row of the data.
   */
  method RunAll(bursts: seq<Burst>) returns (store: Store)
    requires Legal(bursts)
    ensures store.Valid() && store.view == After(bursts)
    ensures Names(store.data.items) == After(bursts).names
    ensures forall r <- store.created :: r.selected <==> store.row == Pointer(r)
    ensures store.row.Pointer? ==> store.row.row in store.data.items && store.row.row.selected
  {
    store := new Store();
    for i := 0 to |bursts|
      invariant store.Valid() && store.view == After(bursts[..i])
      invariant fresh(store) && fresh(store.data) && forall r <- store.created :: fresh(r)
    {
      assert bursts[..i + 1][..i] == bursts[..i];
      Perform(store, bursts[i]);
    }
    assert bursts[..|bursts|] == bursts;
    MarkedIsLit(bursts);
  }
}
