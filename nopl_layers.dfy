/**
 * The two computations of NOPLManager over values: grouping a sequence of
 * drawables into layers (splitDrawablesIntoLayers) and reconciling the
 * cache of layers against a new list of layers (update).
 *
 * A drawable is its non-overlapping-polygon group key ("" when it has none)
 * and its geometry (None for null). String standardisation and the
 * geometry-membership test of a layer are parameters.
 */
module NoplLayers {
  import opened Wrappers

  datatype Drawable<G> = Drawable(key: string, geom: Option<G>)

  datatype LayerType = Normal | Novlpl

  /** A DrawableObjectLayer; a NORMAL layer's group id is "". */
  datatype Layer<G> = Layer(kind: LayerType, groupId: string, objects: seq<Drawable<G>>)

  // ---------------------------------------------------------------------
  // splitDrawablesIntoLayers
  // ---------------------------------------------------------------------

  /**
   * String.equals(Object) called with a Boolean argument: a String never
   * equals a Boolean, so this is false whatever its arguments.
   */
  function StringEqualsBoolean(s: string, b: bool): bool
  {
    false
  }

  /**
   * The scan for an existing NOVLPL layer: the index of the last layer of
   * `ls` that matches, or -1. The match compares the layer's group id with
   * the boolean `novlpl`, as the source does.
   */
  function Scan<G>(ls: seq<Layer<G>>, novlpl: bool): (r: int)
    ensures -1 <= r < |ls|
  {
    if ls == [] then -1
    else if ls[|ls| - 1].kind == Novlpl && StringEqualsBoolean(ls[|ls| - 1].groupId, novlpl) then |ls| - 1
    else Scan(ls[..|ls| - 1], novlpl)
  }

  /** The scan never finds a layer. */
  lemma {:induction false} ScanNeverMatches<G>(ls: seq<Layer<G>>, novlpl: bool)
    ensures Scan(ls, novlpl) == -1
  {
    if ls != [] {
      ScanNeverMatches(ls[..|ls| - 1], novlpl);
    }
  }

  /** The loop's state: the layers built so far and the index of currentLayer (-1 for null). */
  datatype Acc<G> = Acc(layers: seq<Layer<G>>, current: int)

  predicate AccInRange<G>(a: Acc<G>)
  {
    -1 <= a.current < |a.layers|
  }

  function AddAt<G>(ls: seq<Layer<G>>, i: nat, o: Drawable<G>): seq<Layer<G>>
    requires i < |ls|
  {
    ls[i := ls[i].(objects := ls[i].objects + [o])]
  }

  /** The first half of an iteration: keep, find or create the layer the object goes to. */
  function Choose<G>(std: string -> string, a: Acc<G>, o: Drawable<G>): (r: Acc<G>)
    requires AccInRange(a)
    ensures AccInRange(r) && r.current != -1
  {
    var novlpl := o.key != "";
    if novlpl then
      var stdGroup := std(o.key);
      if a.current == -1 || a.layers[a.current].kind != Novlpl || a.layers[a.current].groupId != stdGroup then
        var found := Scan(a.layers, novlpl);
        if found == -1 then Acc(a.layers + [Layer(Novlpl, stdGroup, [])], |a.layers|)
        else Acc(a.layers, found)
      else a
    else
      if a.current == -1 || a.layers[a.current].kind != Normal then
        Acc(a.layers + [Layer(Normal, "", [])], |a.layers|)
      else a
  }

  /** One iteration of the loop: choose the current layer, then add the object to it. */
  function Place<G>(std: string -> string, a: Acc<G>, o: Drawable<G>): (r: Acc<G>)
    requires AccInRange(a)
    ensures AccInRange(r) && r.current != -1
  {
    var c := Choose(std, a, o);
    Acc(AddAt(c.layers, c.current, o), c.current)
  }

  /** The loop state after the first |xs| drawables. */
  function Run<G>(std: string -> string, xs: seq<Drawable<G>>): (r: Acc<G>)
    ensures AccInRange(r)
  {
    if xs == [] then Acc([], -1)
    else Place(std, Run(std, xs[..|xs| - 1]), xs[|xs| - 1])
  }

  /** The layers splitDrawablesIntoLayers returns. */
  function Split<G>(std: string -> string, xs: seq<Drawable<G>>): seq<Layer<G>>
  {
    Run(std, xs).layers
  }

  /** The objects of all layers, in order. */
  function Flatten<G>(ls: seq<Layer<G>>): seq<Drawable<G>>
  {
    if ls == [] then [] else Flatten(ls[..|ls| - 1]) + ls[|ls| - 1].objects
  }

  /** The kind of layer an object belongs in. */
  function KindOf<G>(o: Drawable<G>): LayerType
  {
    if o.key != "" then Novlpl else Normal
  }

  /** The group id of the layer an object belongs in. */
  function GroupOf<G>(std: string -> string, o: Drawable<G>): string
  {
    if o.key != "" then std(o.key) else ""
  }

  /** An object belongs in a layer of this kind and group. */
  predicate Fits<G>(std: string -> string, l: Layer<G>, o: Drawable<G>)
  {
    l.kind == KindOf(o) && l.groupId == GroupOf(std, o)
  }

  /** Two layers that a single run would have merged. */
  predicate SameGroup<G>(a: Layer<G>, b: Layer<G>)
  {
    a.kind == b.kind && a.groupId == b.groupId
  }

  ghost predicate NonEmptyLayers<G>(ls: seq<Layer<G>>)
  {
    forall i :: 0 <= i < |ls| ==> ls[i].objects != []
  }

  ghost predicate AllFit<G>(std: string -> string, ls: seq<Layer<G>>)
  {
    forall i, j :: 0 <= i < |ls| && 0 <= j < |ls[i].objects| ==> Fits(std, ls[i], ls[i].objects[j])
  }

  ghost predicate Apart<G>(ls: seq<Layer<G>>)
  {
    forall i :: 0 < i < |ls| ==> !SameGroup(ls[i - 1], ls[i])
  }

  /**
   * The grouping laws: every layer is non-empty, each object fits its
   * layer, and consecutive layers never belong to the same group (so a new
   * layer starts exactly when the kind or the group id changes).
   */
  ghost predicate WellGrouped<G>(std: string -> string, ls: seq<Layer<G>>)
  {
    NonEmptyLayers(ls) && AllFit(std, ls) && Apart(ls)
  }

  /** With the current layer last, an iteration extends it when the object fits and opens a layer otherwise. */
  lemma PlaceAtEnd<G>(std: string -> string, a: Acc<G>, o: Drawable<G>)
    requires AccInRange(a) && a.current == |a.layers| - 1
    requires a.layers != [] && a.layers[|a.layers| - 1].kind == Normal ==> a.layers[|a.layers| - 1].groupId == ""
    ensures Place(std, a, o).current == |Place(std, a, o).layers| - 1
    ensures Place(std, a, o).layers ==
      if a.layers != [] && Fits(std, a.layers[|a.layers| - 1], o) then AddAt(a.layers, |a.layers| - 1, o)
      else a.layers + [Layer(KindOf(o), GroupOf(std, o), [o])]
  {
    ScanNeverMatches(a.layers, o.key != "");
    var n := |a.layers|;
    var c := Choose(std, a, o);
    if a.layers != [] && Fits(std, a.layers[n - 1], o) {
      assert c == a;
    } else {
      var l := Layer(KindOf(o), GroupOf(std, o), []);
      assert c == Acc(a.layers + [l], n);
      assert l.objects + [o] == [o];
      assert AddAt(a.layers + [l], n, o) == a.layers + [l.(objects := [o])];
    }
  }

  lemma FlattenAddLast<G>(ls: seq<Layer<G>>, o: Drawable<G>)
    requires ls != []
    ensures Flatten(AddAt(ls, |ls| - 1, o)) == Flatten(ls) + [o]
  {
    var ls' := AddAt(ls, |ls| - 1, o);
    assert ls'[..|ls'| - 1] == ls[..|ls| - 1];
  }

  lemma FlattenAppend<G>(ls: seq<Layer<G>>, l: Layer<G>)
    ensures Flatten(ls + [l]) == Flatten(ls) + l.objects
  {
    assert (ls + [l])[..|ls|] == ls;
  }

  lemma ExtendKeepsGrouping<G>(std: string -> string, ls: seq<Layer<G>>, o: Drawable<G>)
    requires WellGrouped(std, ls) && ls != [] && Fits(std, ls[|ls| - 1], o)
    ensures WellGrouped(std, AddAt(ls, |ls| - 1, o))
  {
    var r := AddAt(ls, |ls| - 1, o);
    var n := |ls|;
    assert forall i :: 0 <= i < n - 1 ==> r[i] == ls[i];
    assert SameGroup(r[n - 1], ls[n - 1]);
    var rl := r[n - 1].objects;
    assert forall j :: 0 <= j < |rl| ==> rl[j] == if j < |ls[n - 1].objects| then ls[n - 1].objects[j] else o;
  }

  lemma OpenKeepsGrouping<G>(std: string -> string, ls: seq<Layer<G>>, o: Drawable<G>)
    requires WellGrouped(std, ls) && (ls == [] || !Fits(std, ls[|ls| - 1], o))
    ensures WellGrouped(std, ls + [Layer(KindOf(o), GroupOf(std, o), [o])])
  {
    var l := Layer(KindOf(o), GroupOf(std, o), [o]);
    var r := ls + [l];
    assert forall i :: 0 <= i < |ls| ==> r[i] == ls[i];
    assert AllFit(std, r) by {
      forall i, j | 0 <= i < |r| && 0 <= j < |r[i].objects| ensures Fits(std, r[i], r[i].objects[j]) {
        if i < |ls| {
          assert r[i] == ls[i];
        }
      }
    }
    if ls != [] {
      assert Fits(std, ls[|ls| - 1], ls[|ls| - 1].objects[0]);
    }
  }

  /** A well-grouped NORMAL layer has the group id "". */
  lemma NormalLayerHasNoGroup<G>(std: string -> string, ls: seq<Layer<G>>, i: nat)
    requires WellGrouped(std, ls) && i < |ls| && ls[i].kind == Normal
    ensures ls[i].groupId == ""
  {
    assert Fits(std, ls[i], ls[i].objects[0]);
  }

  /** An iteration with the current layer last keeps the grouping laws and appends the object to the concatenation. */
  lemma PlaceKeepsGrouping<G>(std: string -> string, a: Acc<G>, o: Drawable<G>)
    requires AccInRange(a) && a.current == |a.layers| - 1 && WellGrouped(std, a.layers)
    ensures Place(std, a, o).current == |Place(std, a, o).layers| - 1
    ensures WellGrouped(std, Place(std, a, o).layers)
    ensures Flatten(Place(std, a, o).layers) == Flatten(a.layers) + [o]
  {
    if a.layers != [] && a.layers[|a.layers| - 1].kind == Normal {
      NormalLayerHasNoGroup(std, a.layers, |a.layers| - 1);
    }
    PlaceAtEnd(std, a, o);
    if a.layers != [] && Fits(std, a.layers[|a.layers| - 1], o) {
      ExtendKeepsGrouping(std, a.layers, o);
      FlattenAddLast(a.layers, o);
    } else {
      var l := Layer(KindOf(o), GroupOf(std, o), [o]);
      OpenKeepsGrouping(std, a.layers, o);
      FlattenAppend(a.layers, l);
    }
  }

  /** The loop state always satisfies the grouping laws and reproduces its input. */
  lemma {:induction false} RunIsWellGrouped<G>(std: string -> string, xs: seq<Drawable<G>>)
    ensures Run(std, xs).current == |Run(std, xs).layers| - 1
    ensures WellGrouped(std, Run(std, xs).layers)
    ensures Flatten(Run(std, xs).layers) == xs
  {
    if xs != [] {
      var init := xs[..|xs| - 1];
      var o := xs[|xs| - 1];
      assert init + [o] == xs;
      RunIsWellGrouped(std, init);
      var a := Run(std, init);
      assert Run(std, xs) == Place(std, a, o);
      PlaceKeepsGrouping(std, a, o);
    }
  }

  /**
   * splitDrawablesIntoLayers returns non-empty layers whose concatenation
   * is its input in order; empty keys only in NORMAL layers, non-empty keys
   * only in the NOVLPL layer of their standardised key; never two
   * consecutive layers of the same group.
   */
  lemma SplitIsWellGrouped<G>(std: string -> string, xs: seq<Drawable<G>>)
    ensures WellGrouped(std, Split(std, xs))
    ensures Flatten(Split(std, xs)) == xs
  {
    RunIsWellGrouped(std, xs);
  }

  lemma FlattenEmpty<G>(std: string -> string, ls: seq<Layer<G>>)
    requires WellGrouped(std, ls)
    ensures Flatten(ls) == [] <==> ls == []
  {
    if ls != [] {
      assert ls[|ls| - 1].objects != [];
    }
  }

  lemma WellGroupedTake<G>(std: string -> string, ls: seq<Layer<G>>, k: nat)
    requires WellGrouped(std, ls) && k <= |ls|
    ensures WellGrouped(std, ls[..k])
  {
    var p := ls[..k];
    assert forall i :: 0 <= i < k ==> p[i] == ls[i];
  }

  /** Removing the last object of a layer with at least two keeps the grouping laws. */
  lemma ShrinkKeepsGrouping<G>(std: string -> string, ls: seq<Layer<G>>)
    requires WellGrouped(std, ls) && ls != [] && |ls[|ls| - 1].objects| >= 2
    ensures var last := ls[|ls| - 1];
      WellGrouped(std, ls[..|ls| - 1] + [last.(objects := last.objects[..|last.objects| - 1])])
  {
    var n := |ls|;
    var last := ls[n - 1];
    var r := ls[..n - 1] + [last.(objects := last.objects[..|last.objects| - 1])];
    assert forall i :: 0 <= i < n - 1 ==> r[i] == ls[i];
    assert SameGroup(r[n - 1], last);
    assert forall j :: 0 <= j < |r[n - 1].objects| ==> r[n - 1].objects[j] == last.objects[j];
  }

  /** A last layer holding one object is a layer opened for that object. */
  lemma LastLayerAlone<G>(std: string -> string, ls: seq<Layer<G>>)
    requires WellGrouped(std, ls) && ls != [] && |ls[|ls| - 1].objects| == 1
    ensures var prev := ls[..|ls| - 1];
      var o := ls[|ls| - 1].objects[0];
      && WellGrouped(std, prev)
      && ls == prev + [Layer(KindOf(o), GroupOf(std, o), [o])]
      && (prev == [] || !Fits(std, prev[|prev| - 1], o))
      && Flatten(ls) == Flatten(prev) + [o]
  {
    var n := |ls|;
    var last := ls[n - 1];
    var o := last.objects[0];
    WellGroupedTake(std, ls, n - 1);
    assert Fits(std, last, o);
    assert last.objects == [o];
    assert ls == ls[..n - 1] + [last];
    FlattenAppend(ls[..n - 1], last);
    if n > 1 {
      assert !SameGroup(ls[n - 2], ls[n - 1]);
    }
  }

  /** A last layer holding several objects is the extension of a layering without its last object. */
  lemma LastLayerShared<G>(std: string -> string, ls: seq<Layer<G>>)
    requires WellGrouped(std, ls) && ls != [] && |ls[|ls| - 1].objects| >= 2
    ensures var last := ls[|ls| - 1];
      var o := last.objects[|last.objects| - 1];
      var ls' := ls[..|ls| - 1] + [last.(objects := last.objects[..|last.objects| - 1])];
      && WellGrouped(std, ls')
      && Fits(std, ls'[|ls'| - 1], o)
      && ls == AddAt(ls', |ls'| - 1, o)
      && Flatten(ls) == Flatten(ls') + [o]
  {
    var n := |ls|;
    var last := ls[n - 1];
    var o := last.objects[|last.objects| - 1];
    var shorter := last.(objects := last.objects[..|last.objects| - 1]);
    var ls' := ls[..n - 1] + [shorter];
    ShrinkKeepsGrouping(std, ls);
    assert Fits(std, last, o);
    assert last.objects == shorter.objects + [o];
    assert ls == AddAt(ls', n - 1, o);
    FlattenAddLast(ls', o);
  }

  /** A layering extended by one object: into its last layer when the object fits, else into a new layer. */
  function Extend<G>(std: string -> string, ls: seq<Layer<G>>, o: Drawable<G>): seq<Layer<G>>
  {
    if ls != [] && Fits(std, ls[|ls| - 1], o) then AddAt(ls, |ls| - 1, o)
    else ls + [Layer(KindOf(o), GroupOf(std, o), [o])]
  }

  /** Split of a non-empty sequence in terms of Split of all but its last object. */
  lemma SplitSnoc<G>(std: string -> string, xs: seq<Drawable<G>>)
    requires xs != []
    ensures Split(std, xs) == Extend(std, Split(std, xs[..|xs| - 1]), xs[|xs| - 1])
  {
    var init := xs[..|xs| - 1];
    RunIsWellGrouped(std, init);
    var a := Run(std, init);
    if a.layers != [] && a.layers[|a.layers| - 1].kind == Normal {
      NormalLayerHasNoGroup(std, a.layers, |a.layers| - 1);
    }
    PlaceAtEnd(std, a, xs[|xs| - 1]);
  }

  /** The last object of a layering whose last layer is non-empty. */
  function LastObject<G>(ls: seq<Layer<G>>): Drawable<G>
    requires ls != [] && ls[|ls| - 1].objects != []
  {
    var last := ls[|ls| - 1];
    last.objects[|last.objects| - 1]
  }

  /** A layering without its last object, dropping the last layer when that empties it. */
  function DropLast<G>(ls: seq<Layer<G>>): seq<Layer<G>>
    requires ls != []
  {
    var last := ls[|ls| - 1];
    if |last.objects| <= 1 then ls[..|ls| - 1]
    else ls[..|ls| - 1] + [last.(objects := last.objects[..|last.objects| - 1])]
  }

  /** Every well-grouped non-empty layering is a well-grouped layering extended by its last object. */
  lemma DropLastFacts<G>(std: string -> string, ls: seq<Layer<G>>)
    requires WellGrouped(std, ls) && ls != []
    ensures ls[|ls| - 1].objects != []
    ensures WellGrouped(std, DropLast(ls))
    ensures ls == Extend(std, DropLast(ls), LastObject(ls))
    ensures Flatten(ls) == Flatten(DropLast(ls)) + [LastObject(ls)]
  {
    assert ls[|ls| - 1].objects != [];
    if |ls[|ls| - 1].objects| == 1 {
      LastLayerAlone(std, ls);
    } else {
      LastLayerShared(std, ls);
    }
  }

  /** The layers are exactly the maximal runs: any layering obeying the laws is Split's. */
  lemma {:induction false} SplitIsUnique<G>(std: string -> string, xs: seq<Drawable<G>>, ls: seq<Layer<G>>)
    requires WellGrouped(std, ls) && Flatten(ls) == xs
    ensures ls == Split(std, xs)
    decreases |xs|
  {
    FlattenEmpty(std, ls);
    if xs != [] {
      var r := DropLast(ls);
      DropLastFacts(std, ls);
      assert xs[..|xs| - 1] == Flatten(r) && xs[|xs| - 1] == LastObject(ls);
      SplitIsUnique(std, xs[..|xs| - 1], r);
      SplitSnoc(std, xs);
    }
  }

  // ---------------------------------------------------------------------
  // update
  // ---------------------------------------------------------------------

  /** A cache entry after update: the old LayerCache kept, or a fresh one for a new layer. */
  datatype Cached<G> = Kept(layer: Layer<G>) | Fresh(layer: Layer<G>)

  /** Every non-null geometry of `l` is known to the cached layer. */
  ghost predicate KnowsAll<G>(hasGeom: (Layer<G>, G) -> bool, cached: Layer<G>, l: Layer<G>)
  {
    forall j :: 0 <= j < |l.objects| && l.objects[j].geom.Some? ==> hasGeom(cached, l.objects[j].geom.value)
  }

  /** One iteration of update's first loop. */
  ghost function Reconcile<G>(std: string -> string, hasGeom: (Layer<G>, G) -> bool, m: map<string, Cached<G>>, l: Layer<G>): map<string, Cached<G>>
  {
    var id := std(l.groupId);
    if id !in m then m[id := Fresh(l)]
    else if !KnowsAll(hasGeom, m[id].layer, l) then m[id := Fresh(l)]
    else m
  }

  /** The map after the first loop has seen the layers `ls`. */
  ghost function ReconcileAll<G>(std: string -> string, hasGeom: (Layer<G>, G) -> bool, m: map<string, Cached<G>>, ls: seq<Layer<G>>): map<string, Cached<G>>
  {
    if ls == [] then m
    else Reconcile(std, hasGeom, ReconcileAll(std, hasGeom, m, ls[..|ls| - 1]), ls[|ls| - 1])
  }

  /** The standardised group ids of the layers. */
  ghost function Ids<G>(std: string -> string, ls: seq<Layer<G>>): set<string>
  {
    set i | 0 <= i < |ls| :: std(ls[i].groupId)
  }

  /** The cache before update, every entry kept. */
  ghost function AllKept<G>(cur: map<string, Layer<G>>): map<string, Cached<G>>
  {
    map id | id in cur :: Kept(cur[id])
  }

  /** The cache after update: the reconciled map restricted to the new ids. */
  ghost function Update<G>(std: string -> string, hasGeom: (Layer<G>, G) -> bool, cur: map<string, Layer<G>>, ls: seq<Layer<G>>): map<string, Cached<G>>
  {
    var m := ReconcileAll(std, hasGeom, AllKept(cur), ls);
    map id | id in m && id in Ids(std, ls) :: m[id]
  }

  /** No new layer with this id brings a geometry the cached layer lacks. */
  ghost predicate Unchanged<G>(std: string -> string, hasGeom: (Layer<G>, G) -> bool, cur: map<string, Layer<G>>, ls: seq<Layer<G>>, id: string)
  {
    id in cur && forall i :: 0 <= i < |ls| && std(ls[i].groupId) == id ==> KnowsAll(hasGeom, cur[id], ls[i])
  }

  lemma IdsSnoc<G>(std: string -> string, ls: seq<Layer<G>>)
    requires ls != []
    ensures Ids(std, ls) == Ids(std, ls[..|ls| - 1]) + {std(ls[|ls| - 1].groupId)}
  {
    var init := ls[..|ls| - 1];
    forall id | id in Ids(std, ls) ensures id in Ids(std, init) + {std(ls[|ls| - 1].groupId)} {
      var i :| 0 <= i < |ls| && std(ls[i].groupId) == id;
      if i < |ls| - 1 { assert init[i] == ls[i]; }
    }
    forall id | id in Ids(std, init) ensures id in Ids(std, ls) {
      var i :| 0 <= i < |init| && std(init[i].groupId) == id;
      assert ls[i] == init[i];
    }
  }

  lemma UnchangedSnoc<G>(std: string -> string, hasGeom: (Layer<G>, G) -> bool, cur: map<string, Layer<G>>, ls: seq<Layer<G>>, id: string)
    requires ls != []
    ensures var l := ls[|ls| - 1];
      Unchanged(std, hasGeom, cur, ls, id) <==>
        Unchanged(std, hasGeom, cur, ls[..|ls| - 1], id) && (std(l.groupId) == id ==> KnowsAll(hasGeom, cur[id], l))
  {
    var init := ls[..|ls| - 1];
    assert forall i :: 0 <= i < |init| ==> init[i] == ls[i];
  }

  /** The first loop adds the new ids to the cached ones and removes none. */
  lemma {:induction false} ReconcileAllKeys<G>(std: string -> string, hasGeom: (Layer<G>, G) -> bool, cur: map<string, Layer<G>>, ls: seq<Layer<G>>)
    ensures ReconcileAll(std, hasGeom, AllKept(cur), ls).Keys == cur.Keys + Ids(std, ls)
  {
    if ls != [] {
      ReconcileAllKeys(std, hasGeom, cur, ls[..|ls| - 1]);
      IdsSnoc(std, ls);
    }
  }

  /** A kept entry is the cached layer and exists iff no new layer of its id brings an unknown geometry. */
  lemma {:induction false} ReconcileAllKept<G>(std: string -> string, hasGeom: (Layer<G>, G) -> bool, cur: map<string, Layer<G>>, ls: seq<Layer<G>>)
    ensures var m := ReconcileAll(std, hasGeom, AllKept(cur), ls);
      && (forall id :: id in m && m[id].Kept? ==> id in cur && m[id].layer == cur[id])
      && (forall id :: id in m ==> (m[id].Kept? <==> Unchanged(std, hasGeom, cur, ls, id)))
  {
    if ls != [] {
      var init := ls[..|ls| - 1];
      var l := ls[|ls| - 1];
      ReconcileAllKept(std, hasGeom, cur, init);
      ReconcileAllKeys(std, hasGeom, cur, init);
      var m0 := ReconcileAll(std, hasGeom, AllKept(cur), init);
      var m := ReconcileAll(std, hasGeom, AllKept(cur), ls);
      assert m == Reconcile(std, hasGeom, m0, l);
      forall id | id in m ensures m[id].Kept? <==> Unchanged(std, hasGeom, cur, ls, id) {
        UnchangedSnoc(std, hasGeom, cur, ls, id);
        if id != std(l.groupId) {
          assert m[id] == m0[id];
        } else if id !in m0 {
          assert id !in cur;
        } else if m0[id].Kept? {
          assert m0[id].layer == cur[id];
        }
      }
    }
  }

  /** A fresh entry wraps one of the new layers of its id. */
  lemma {:induction false} ReconcileAllFresh<G>(std: string -> string, hasGeom: (Layer<G>, G) -> bool, cur: map<string, Layer<G>>, ls: seq<Layer<G>>)
    ensures var m := ReconcileAll(std, hasGeom, AllKept(cur), ls);
      forall id :: id in m && m[id].Fresh? ==>
        exists i :: 0 <= i < |ls| && ls[i] == m[id].layer && std(ls[i].groupId) == id
  {
    if ls != [] {
      var init := ls[..|ls| - 1];
      var l := ls[|ls| - 1];
      ReconcileAllFresh(std, hasGeom, cur, init);
      var m0 := ReconcileAll(std, hasGeom, AllKept(cur), init);
      assert var m := ReconcileAll(std, hasGeom, AllKept(cur), init);
      forall id :: id in m && m[id].Fresh? ==>
        exists i :: 0 <= i < |init| && init[i] == m[id].layer && std(init[i].groupId) == id;
      var m := ReconcileAll(std, hasGeom, AllKept(cur), ls);
      assert m == Reconcile(std, hasGeom, m0, l);
      forall id | id in m && m[id].Fresh? ensures exists i :: 0 <= i < |ls| && ls[i] == m[id].layer && std(ls[i].groupId) == id {
        if id == std(l.groupId) && m[id] == Fresh(l) {
          assert ls[|ls| - 1] == l;
        } else {
          assert id in m0 && m[id] == m0[id] && m0[id].Fresh?;
          assert exists i :: 0 <= i < |init| && init[i] == m0[id].layer && std(init[i].groupId) == id;
          var i :| 0 <= i < |init| && init[i] == m0[id].layer && std(init[i].groupId) == id;
          assert ls[i] == init[i];
        }
      }
    }
  }

  /**
   * After update: the cache holds exactly the standardised ids of the new
   * layers; an id keeps its old cache iff it was cached and none of its new
   * layers brings a non-null geometry the cached layer lacks; every other
   * id maps to a fresh cache of one of its new layers.
   */
  lemma UpdateFacts<G>(std: string -> string, hasGeom: (Layer<G>, G) -> bool, cur: map<string, Layer<G>>, ls: seq<Layer<G>>)
    ensures var u := Update(std, hasGeom, cur, ls);
      && u.Keys == Ids(std, ls)
      && (forall id :: id in u ==> (u[id].Kept? <==> Unchanged(std, hasGeom, cur, ls, id)))
      && (forall id :: id in u && u[id].Kept? ==> u[id].layer == cur[id])
      && (forall id :: id in u && u[id].Fresh? ==>
            exists i :: 0 <= i < |ls| && ls[i] == u[id].layer && std(ls[i].groupId) == id)
  {
    ReconcileAllKeys(std, hasGeom, cur, ls);
    ReconcileAllKept(std, hasGeom, cur, ls);
    ReconcileAllFresh(std, hasGeom, cur, ls);
  }

  /** Objects without a geometry never invalidate a cached layer. */
  lemma NullGeometriesKeepCache<G>(std: string -> string, hasGeom: (Layer<G>, G) -> bool, cur: map<string, Layer<G>>, ls: seq<Layer<G>>, id: string)
    requires id in cur && id in Ids(std, ls)
    requires forall i, j :: 0 <= i < |ls| && std(ls[i].groupId) == id && 0 <= j < |ls[i].objects| ==> ls[i].objects[j].geom.None?
    ensures id in Update(std, hasGeom, cur, ls) && Update(std, hasGeom, cur, ls)[id] == Kept(cur[id])
  {
    UpdateFacts(std, hasGeom, cur, ls);
  }
}
