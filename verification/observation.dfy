/**
 * The Python observation combinators: a `TupleFunction` packs observation
 * functions given by position and a `DictFunction` packs them by keyword name.
 * Both forward `reset` to every packed function and collect the packed
 * functions' observations, as a tuple in stored order or as a dict by name.
 *
 * An observation function is an abstract value of type `F`. What its own
 * `reset(model)` does to it is the parameter `reset`, a function from the old
 * state and the model to the new state; what its `obtain_observation(model)`
 * returns is the parameter `obtain`. The model is of any type `M` and an
 * observation of any type `O`.
 */
module Observation {

  /* ---------------------------------------------------------------------- */
  /* What the combinators compute, as functions on the stored functions      */
  /* ---------------------------------------------------------------------- */

  /**
   * The result of `g` for `model` on each of `fs`, in stored order: the
   * observations when `g` obtains an observation, the new function states
   * when `g` resets a function.
   */
  function ApplyEach<F, M, R>(fs: seq<F>, model: M, g: (F, M) -> R): (r: seq<R>)
    ensures |r| == |fs|
    ensures forall i :: 0 <= i < |fs| ==> r[i] == g(fs[i], model)
  {
    if fs == [] then []
    else ApplyEach(fs[..|fs| - 1], model, g) + [g(fs[|fs| - 1], model)]
  }

  /** The names of the entries of an insertion-ordered dict, in order. */
  function Names<F>(entries: seq<(string, F)>): (names: seq<string>)
    ensures |names| == |entries|
    ensures forall i :: 0 <= i < |entries| ==> names[i] == entries[i].0
  {
    if entries == [] then []
    else Names(entries[..|entries| - 1]) + [entries[|entries| - 1].0]
  }

  /** The values of the entries of an insertion-ordered dict, in order. */
  function Values<F>(entries: seq<(string, F)>): (values: seq<F>)
    ensures |values| == |entries|
    ensures forall i :: 0 <= i < |entries| ==> values[i] == entries[i].1
  {
    if entries == [] then []
    else Values(entries[..|entries| - 1]) + [entries[|entries| - 1].1]
  }

  /** No name occurs twice, as in a dict built from keyword arguments. */
  predicate DistinctNames<F>(entries: seq<(string, F)>)
  {
    forall i, j :: 0 <= i < j < |entries| ==> entries[i].0 != entries[j].0
  }

  /**
   * The dict comprehension `{name: obtain(f) for name, f in entries}`: its keys
   * are exactly the names, and with distinct names each name maps to the
   * observation of the function stored under it.
   */
  function DictObservations<F, M, O>(entries: seq<(string, F)>, model: M, obtain: (F, M) -> O): (obs: map<string, O>)
    ensures forall n :: n in obs <==> n in Names(entries)
    ensures DistinctNames(entries) ==>
      forall i :: 0 <= i < |entries| ==> obs[entries[i].0] == obtain(entries[i].1, model)
  {
    if entries == [] then map[]
    else
      var init := entries[..|entries| - 1];
      var last := entries[|entries| - 1];
      assert forall i :: 0 <= i < |init| ==> init[i] == entries[i];
      DictObservations(init, model, obtain)[last.0 := obtain(last.1, model)]
  }

  /** With distinct names the dict has exactly one entry per stored function. */
  lemma {:induction false} DictObservationsSize<F, M, O>(entries: seq<(string, F)>, model: M, obtain: (F, M) -> O)
    requires DistinctNames(entries)
    ensures |DictObservations(entries, model, obtain)| == |entries|
  {
    if entries != [] {
      var init := entries[..|entries| - 1];
      var last := entries[|entries| - 1];
      assert forall i :: 0 <= i < |init| ==> init[i] == entries[i];
      DictObservationsSize(init, model, obtain);
      assert last.0 !in Names(init);
    }
  }

  /**
   * Packing the same functions by name or by position gives the same
   * observations: the dict has as many entries as the tuple, and it maps the
   * i-th name to the i-th tuple entry.
   */
  lemma DictMatchesTuple<F, M, O>(entries: seq<(string, F)>, model: M, obtain: (F, M) -> O)
    requires DistinctNames(entries)
    ensures |DictObservations(entries, model, obtain)| == |ApplyEach(Values(entries), model, obtain)|
    ensures forall i :: 0 <= i < |entries| ==>
      DictObservations(entries, model, obtain)[Names(entries)[i]] == ApplyEach(Values(entries), model, obtain)[i]
  {
    DictObservationsSize(entries, model, obtain);
  }

  /* ---------------------------------------------------------------------- */
  /* The combinators                                                         */
  /* ---------------------------------------------------------------------- */

  /** Observation functions packed by position; observations come back as a tuple. */
  class TupleFunction<F> {
    /** The packed functions, in the order they were given. */
    var observationFunctions: seq<F>
    /** Every function reset so far, in the order the resets were made. */
    ghost var resetLog: seq<F>

    /** Stores the positional functions unchanged. */
    constructor (observationFunctions: seq<F>)
      ensures this.observationFunctions == observationFunctions
      ensures resetLog == []
    {
      this.observationFunctions := observationFunctions;
      resetLog := [];
    }

    /**
     * Resets every packed function for `model`, each exactly once and in
     * stored order, and nothing else.
     */
    method Reset<M>(model: M, reset: (F, M) -> F)
      modifies this
      ensures observationFunctions == ApplyEach(old(observationFunctions), model, reset)
      ensures resetLog == old(resetLog) + old(observationFunctions)
    {
      ghost var fs := observationFunctions;
      var n := |observationFunctions|;
      for i := 0 to n
        invariant |observationFunctions| == |fs|
        invariant forall j :: 0 <= j < i ==> observationFunctions[j] == reset(fs[j], model)
        invariant forall j :: i <= j < |fs| ==> observationFunctions[j] == fs[j]
        invariant resetLog == old(resetLog) + fs[..i]
      {
        assert fs[..i + 1] == fs[..i] + [fs[i]];
        resetLog := resetLog + [observationFunctions[i]];
        observationFunctions := observationFunctions[i := reset(observationFunctions[i], model)];
      }
      assert fs[..|fs|] == fs;
    }

    /** The tuple of the packed functions' observations, in positional order. */
    function ObtainObservation<M, O>(model: M, obtain: (F, M) -> O): (obs: seq<O>)
      reads this
      ensures |obs| == |observationFunctions|
      ensures forall i :: 0 <= i < |obs| ==> obs[i] == obtain(observationFunctions[i], model)
    {
      ApplyEach(observationFunctions, model, obtain)
    }
  }

  /** Observation functions packed by keyword name; observations come back as a dict. */
  class DictFunction<F> {
    /** The packed functions with their names, in the order they were given. */
    var observationFunctions: seq<(string, F)>
    /** Every function reset so far, in the order the resets were made. */
    ghost var resetLog: seq<F>

    /** The names stay distinct: keyword arguments cannot repeat a name. */
    ghost predicate Valid()
      reads this
    {
      DistinctNames(observationFunctions)
    }

    /** Stores the keyword functions unchanged. */
    constructor (observationFunctions: seq<(string, F)>)
      requires DistinctNames(observationFunctions)
      ensures Valid()
      ensures this.observationFunctions == observationFunctions
      ensures resetLog == []
    {
      this.observationFunctions := observationFunctions;
      resetLog := [];
    }

    /**
     * Resets every packed function for `model`, each exactly once and in
     * insertion order; the names and their order stay as they were.
     */
    method Reset<M>(model: M, reset: (F, M) -> F)
      requires Valid()
      modifies this
      ensures Valid()
      ensures Names(observationFunctions) == Names(old(observationFunctions))
      ensures Values(observationFunctions) == ApplyEach(Values(old(observationFunctions)), model, reset)
      ensures resetLog == old(resetLog) + Values(old(observationFunctions))
    {
      ghost var entries := observationFunctions;
      ghost var fs := Values(entries);
      var n := |observationFunctions|;
      for i := 0 to n
        invariant |observationFunctions| == |entries|
        invariant forall j :: 0 <= j < |entries| ==> observationFunctions[j].0 == entries[j].0
        invariant forall j :: 0 <= j < i ==> observationFunctions[j].1 == reset(entries[j].1, model)
        invariant forall j :: i <= j < |entries| ==> observationFunctions[j].1 == entries[j].1
        invariant resetLog == old(resetLog) + fs[..i]
      {
        assert fs[..i + 1] == fs[..i] + [fs[i]];
        var (name, obsFunc) := observationFunctions[i];
        resetLog := resetLog + [obsFunc];
        observationFunctions := observationFunctions[i := (name, reset(obsFunc, model))];
      }
      assert fs[..|fs|] == fs;
    }

    /** The dict of the packed functions' observations, keyed by their names. */
    function ObtainObservation<M, O>(model: M, obtain: (F, M) -> O): (obs: map<string, O>)
      requires Valid()
      reads this
      ensures |obs| == |observationFunctions|
      ensures forall n :: n in obs <==> n in Names(observationFunctions)
      ensures forall i :: 0 <= i < |observationFunctions| ==>
        obs[observationFunctions[i].0] == obtain(observationFunctions[i].1, model)
    {
      DictObservationsSize(observationFunctions, model, obtain);
      DictObservations(observationFunctions, model, obtain)
    }
  }
}
