/** The file grid as a value: names, a mark, and whether the marked row is highlighted. */
module GridModel {
  import opened Wrappers

  /** `state.row`: nothing, a row of the grid, or the module object that a refresh stores there. */
  datatype Mark = Nowhere | AtIndex(index: nat) | Module

  datatype View = View(names: seq<string>, mark: Mark, lit: bool, filter: Option<string>)

  const INITIAL: View := View([], Nowhere, false, None)

  /** A dispatched action; a selected row is given by its position. */
  datatype Step =
    | DataLoad(names: seq<string>)
    | SelectClean
    | Select(index: Option<nat>)
    | InsertRow(name: string)
    | RefreshRows
    | FilteredRows(filter: Option<string>)
    | Unrelated

  /** What the reducer does, on values. */
  function Apply(v: View, a: Step): View {
    match a
    case DataLoad(names) => View(names, Nowhere, false, v.filter)
    case SelectClean => v.(mark := Nowhere, lit := false)
    case Select(None) => v.(mark := Nowhere, lit := false)
    case Select(Some(i)) => v.(mark := AtIndex(i), lit := true)
    case InsertRow(name) => v.(names := v.names + [name], lit := false)
    case RefreshRows => v.(mark := Module, lit := false)
    case FilteredRows(f) => v.(filter := f)
    case Unrelated => v
  }

  function ApplyAll(v: View, steps: seq<Step>): View
    decreases |steps|
  {
    if steps == [] then v else ApplyAll(Apply(v, steps[0]), steps[1..])
  }

  // ----- Actions of other reducers -----

  /** The steps that are addressed to the grid. */
  function Related(steps: seq<Step>): seq<Step> {
    if steps == [] then []
    else (if steps[0].Unrelated? then [] else [steps[0]]) + Related(steps[1..])
  }

  /** Every action reaches every reducer; those of others may be dropped from any sequence, or put in. */
  lemma {:induction false} OthersIgnored(v: View, steps: seq<Step>)
    ensures ApplyAll(v, steps) == ApplyAll(v, Related(steps))
    decreases |steps|
  {
    if steps != [] {
      OthersIgnored(Apply(v, steps[0]), steps[1..]);
      var first := if steps[0].Unrelated? then [] else [steps[0]];
      assert steps[0].Unrelated? ==> first + Related(steps[1..]) == Related(steps[1..]);
      assert !steps[0].Unrelated? ==> (first + Related(steps[1..]))[1..] == Related(steps[1..]);
    }
  }

  lemma {:induction false} RelatedConcat(a: seq<Step>, b: seq<Step>)
    ensures Related(a + b) == Related(a) + Related(b)
    decreases |a|
  {
    if a == [] {
      assert a + b == b;
    } else {
      RelatedConcat(a[1..], b);
      assert (a + b)[0] == a[0] && (a + b)[1..] == a[1..] + b;
      var first := if a[0].Unrelated? then [] else [a[0]];
      assert first + (Related(a[1..]) + Related(b)) == (first + Related(a[1..])) + Related(b);
    }
  }

  lemma {:induction false} ApplyAllConcat(v: View, a: seq<Step>, b: seq<Step>)
    ensures ApplyAll(v, a + b) == ApplyAll(ApplyAll(v, a), b)
    decreases |a|
  {
    hide Apply;
    if a == [] {
      assert a + b == b;
    } else {
      ApplyAllConcat(Apply(v, a[0]), a[1..], b);
      assert (a + b)[1..] == a[1..] + b;
    }
  }

  // ----- Thunks -----

  /** What a user or a response can set off. */
  datatype Burst =
    | Loaded(names: seq<string>)
    | Clicked(index: nat)
    | Cleared
    | Uploaded(name: string)
    | NothingToSend
    | Typed(filter: string)
    | Downloaded
    | Failed

  /**
   * The actions a thunk dispatches, in order; the loading flag and the toasts are actions of other
   * reducers. A failed request turns the flag on and off and reports the error.
   */
  function Dispatches(b: Burst): seq<Step> {
    match b
    case Loaded(names) => [Unrelated, Unrelated, DataLoad(names)]
    case Clicked(i) => [Select(Some(i))]
    case Cleared => [SelectClean]
    case Uploaded(name) => [Unrelated, InsertRow(name), RefreshRows, Unrelated, Unrelated]
    case NothingToSend => [RefreshRows]
    case Typed(f) => [FilteredRows(Some(f))]
    case Downloaded => [Unrelated, Unrelated, Unrelated]
    case Failed => [Unrelated, Unrelated, Unrelated]
  }

  function Play(v: View, b: Burst): View {
    ApplyAll(v, Dispatches(b))
  }

  /** The view after a whole run. */
  function After(bursts: seq<Burst>): View {
    if bursts == [] then INITIAL else Play(After(bursts[..|bursts| - 1]), bursts[|bursts| - 1])
  }

  /** Clicks hit rows that are shown. */
  predicate Legal(bursts: seq<Burst>) {
    forall i | 0 <= i < |bursts| && bursts[i].Clicked? :: bursts[i].index < |After(bursts[..i]).names|
  }

  lemma PlayCases(v: View, b: Burst)
    ensures Play(v, b) == match b
      case Loaded(names) => View(names, Nowhere, false, v.filter)
      case Clicked(i) => v.(mark := AtIndex(i), lit := true)
      case Cleared => v.(mark := Nowhere, lit := false)
      case Uploaded(name) => View(v.names + [name], Module, false, v.filter)
      case NothingToSend => v.(mark := Module, lit := false)
      case Typed(f) => v.(filter := Some(f))
      case Downloaded => v
      case Failed => v
  {
    OthersIgnored(v, Dispatches(b));
    GridSteps(b);
    if b.Uploaded? {
      ApplyAllConcat(v, [InsertRow(b.name)], [RefreshRows]);
      PlayOne(v, InsertRow(b.name));
      PlayOne(Apply(v, InsertRow(b.name)), RefreshRows);
    } else if !b.Failed? && !b.Downloaded? {
      PlayOne(v, Related(Dispatches(b))[0]);
    }
  }

  /** What a thunk dispatches to the grid. */
  lemma GridSteps(b: Burst)
    ensures Related(Dispatches(b)) == match b
      case Loaded(names) => [DataLoad(names)]
      case Clicked(i) => [Select(Some(i))]
      case Cleared => [SelectClean]
      case Uploaded(name) => [InsertRow(name)] + [RefreshRows]
      case NothingToSend => [RefreshRows]
      case Typed(f) => [FilteredRows(Some(f))]
      case Downloaded => []
      case Failed => []
  {
    hide Related;
    match b {
      case Loaded(names) =>
        assert Dispatches(b) == [Unrelated, Unrelated] + [DataLoad(names)];
        RelatedConcat([Unrelated, Unrelated], [DataLoad(names)]);
        RelatedPair();
        RelatedOne(DataLoad(names));
      case Uploaded(name) =>
        var grid := [InsertRow(name)] + [RefreshRows];
        assert Dispatches(b) == ([Unrelated] + grid) + [Unrelated, Unrelated];
        RelatedConcat([Unrelated] + grid, [Unrelated, Unrelated]);
        RelatedConcat([Unrelated], grid);
        RelatedConcat([InsertRow(name)], [RefreshRows]);
        RelatedPair();
        RelatedOne(Unrelated);
        RelatedOne(InsertRow(name));
        RelatedOne(RefreshRows);
      case Downloaded | Failed =>
        assert Dispatches(b) == [Unrelated] + [Unrelated, Unrelated];
        RelatedConcat([Unrelated], [Unrelated, Unrelated]);
        RelatedPair();
        RelatedOne(Unrelated);
      case _ =>
        RelatedOne(Dispatches(b)[0]);
    }
  }

  lemma RelatedOne(a: Step)
    ensures Related([a]) == if a.Unrelated? then [] else [a]
  {
    assert [a][1..] == [];
  }

  lemma RelatedPair()
    ensures Related([Unrelated, Unrelated]) == []
  {
    RelatedConcat([Unrelated], [Unrelated]);
    RelatedOne(Unrelated);
    assert [Unrelated, Unrelated] == [Unrelated] + [Unrelated];
  }

  lemma PlayOne(v: View, a: Step)
    ensures ApplyAll(v, [a]) == Apply(v, a)
  {
    assert [a][1..] == [];
    assert ApplyAll(Apply(v, a), []) == Apply(v, a);
  }

  /** After every complete burst, a marked row is highlighted and belongs to the current data. */
  lemma {:induction false} MarkedIsLit(bursts: seq<Burst>)
    requires Legal(bursts)
    ensures var v := After(bursts);
      && (v.mark.AtIndex? ==> v.lit && v.mark.index < |v.names|)
      && (v.lit ==> v.mark.AtIndex?)
    decreases |bursts|
  {
    if bursts != [] {
      var n := |bursts| - 1;
      assert forall i | 0 <= i < n :: bursts[..n][..i] == bursts[..i];
      MarkedIsLit(bursts[..n]);
      PlayCases(After(bursts[..n]), bursts[n]);
    }
  }

  /** The last successful load of a run, if any, and what was uploaded since. */
  function LastLoad(bursts: seq<Burst>): (k: nat)
    ensures k <= |bursts| && (k > 0 ==> bursts[k - 1].Loaded?)
    ensures forall i | k <= i < |bursts| :: !bursts[i].Loaded?
  {
    if bursts == [] then 0
    else if bursts[|bursts| - 1].Loaded? then |bursts|
    else LastLoad(bursts[..|bursts| - 1])
  }

  function Uploads(bursts: seq<Burst>): seq<string> {
    if bursts == [] then []
    else (if bursts[0].Uploaded? then [bursts[0].name] else []) + Uploads(bursts[1..])
  }

  lemma {:induction false} UploadsSnoc(bursts: seq<Burst>, b: Burst)
    ensures Uploads(bursts + [b]) == Uploads(bursts) + if b.Uploaded? then [b.name] else []
    decreases |bursts|
  {
    if bursts == [] {
      assert bursts + [b] == [b] && [b][1..] == [];
    } else {
      UploadsSnoc(bursts[1..], b);
      assert (bursts + [b])[1..] == bursts[1..] + [b];
    }
  }

  /** The last loaded list, followed by the rows uploaded since. */
  function LoadPlusUploads(bursts: seq<Burst>): seq<string> {
    var k := LastLoad(bursts);
    (if k == 0 then [] else bursts[k - 1].names) + Uploads(bursts[k..])
  }

  lemma LoadPlusUploadsSnoc(before: seq<Burst>, b: Burst)
    ensures LoadPlusUploads(before + [b]) ==
      if b.Loaded? then b.names else LoadPlusUploads(before) + if b.Uploaded? then [b.name] else []
  {
    hide Uploads;
    var bursts := before + [b];
    assert bursts[..|bursts| - 1] == before;
    var k := LastLoad(before);
    if b.Loaded? {
      assert bursts[|bursts|..] == [];
      NoUploads();
      assert b.names + [] == b.names;
    } else {
      assert LastLoad(bursts) == k;
      assert bursts[k..] == before[k..] + [b];
      UploadsSnoc(before[k..], b);
      var loaded := if k == 0 then [] else before[k - 1].names;
      assert k > 0 ==> bursts[k - 1] == before[k - 1];
      var more := if b.Uploaded? then [b.name] else [];
      assert (loaded + Uploads(before[k..])) + more == loaded + (Uploads(before[k..]) + more);
    }
  }

  lemma NoUploads()
    ensures Uploads([]) == [] && LoadPlusUploads([]) == []
  {
  }

  function LastTyped(bursts: seq<Burst>): Option<string> {
    if bursts == [] then None
    else if bursts[|bursts| - 1].Typed? then Some(bursts[|bursts| - 1].filter)
    else LastTyped(bursts[..|bursts| - 1])
  }

  /**
   * In every run the data is the last loaded list followed by the rows inserted since, in order,
   * and the filter is the last text typed, whatever else happens.
   */
  lemma {:induction false} DataIsLoadPlusUploads(bursts: seq<Burst>)
    ensures After(bursts).names == LoadPlusUploads(bursts)
    ensures After(bursts).filter == LastTyped(bursts)
    decreases |bursts|
  {
    hide LoadPlusUploads, Play;
    if bursts == [] {
      NoUploads();
    } else {
      var n := |bursts| - 1;
      DataIsLoadPlusUploads(bursts[..n]);
      assert bursts == bursts[..n] + [bursts[n]];
      LoadPlusUploadsSnoc(bursts[..n], bursts[n]);
      NamesStep(After(bursts[..n]), bursts[n]);
      PlayCases(After(bursts[..n]), bursts[n]);
    }
  }

  lemma NamesStep(v: View, b: Burst)
    ensures Play(v, b).names == if b.Loaded? then b.names else v.names + if b.Uploaded? then [b.name] else []
  {
    PlayCases(v, b);
    assert v.names + [] == v.names;
  }

  // ----- Requests that overlap -----

  /** Everything that is dispatched in a run, burst after burst. */
  function AllDispatches(bursts: seq<Burst>): seq<Step> {
    if bursts == [] then [] else AllDispatches(bursts[..|bursts| - 1]) + Dispatches(bursts[|bursts| - 1])
  }

  lemma {:induction false} AfterDispatches(bursts: seq<Burst>)
    ensures After(bursts) == ApplyAll(INITIAL, AllDispatches(bursts))
    decreases |bursts|
  {
    hide Dispatches;
    if bursts != [] {
      var n := |bursts| - 1;
      AfterDispatches(bursts[..n]);
      ApplyAllConcat(INITIAL, AllDispatches(bursts[..n]), Dispatches(bursts[n]));
    }
  }

  /**
   * A request's loading flag and toasts are dispatched when the request is sent and answered, and
   * other bursts may come in between. Wherever they fall, the grid ends up as after the bursts.
   */
  lemma Interleaved(bursts: seq<Burst>, steps: seq<Step>)
    requires Related(steps) == Related(AllDispatches(bursts))
    ensures ApplyAll(INITIAL, steps) == After(bursts)
  {
    hide Related, AllDispatches, After;
    OthersIgnored(INITIAL, steps);
    OthersIgnored(INITIAL, AllDispatches(bursts));
    AfterDispatches(bursts);
  }
}
