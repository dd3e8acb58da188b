/**
 * NOPLManager: the cache of non-overlapping-polygon layers, keyed by
 * standardised group id, and the grouping of drawables into layers.
 * Each method is proved against the functions of NoplLayers.
 */
module LayerManager {
  import opened Wrappers
  import opened NoplLayers

  /** A cached layer; the tile cache it also holds is not modelled. */
  class LayerCache<G> {
    const layer: Layer<G>

    constructor (layer: Layer<G>)
      ensures this.layer == layer
    {
      this.layer := layer;
    }
  }

  class NoplManager<G> {
    var currentLayers: map<string, LayerCache<G>>
    /** Strings.std */
    const std: string -> string
    /** DrawableObjectLayer.hasGeom */
    const hasGeom: (Layer<G>, G) -> bool

    constructor (std: string -> string, hasGeom: (Layer<G>, G) -> bool)
      ensures currentLayers == map[]
      ensures this.std == std && this.hasGeom == hasGeom
    {
      currentLayers := map[];
      this.std := std;
      this.hasGeom := hasGeom;
    }

    /** The layers held by the cache. */
    ghost function CachedLayers(): map<string, Layer<G>>
      reads this
    {
      map id | id in currentLayers :: currentLayers[id].layer
    }

    /**
     * Replaces the cache by one entry per standardised id of the new
     * layers: the old LayerCache object where it is still valid, a fresh
     * one wrapping a new layer otherwise (see NoplLayers.UpdateFacts).
     */
    method Update(newLayers: seq<Layer<G>>)
      modifies this`currentLayers
      ensures var u := NoplLayers.Update(std, hasGeom, old(CachedLayers()), newLayers);
        && currentLayers.Keys == u.Keys
        && (forall id :: id in u ==> currentLayers[id].layer == u[id].layer)
        && (forall id :: id in u && u[id].Kept? ==> id in old(currentLayers) && currentLayers[id] == old(currentLayers)[id])
        && (forall id :: id in u && u[id].Fresh? ==> fresh(currentLayers[id]))
    {
      ghost var cur0 := CachedLayers();
      ghost var old0 := currentLayers;
      var newLayerIds: set<string> := {};
      for i := 0 to |newLayers|
        invariant newLayerIds == Ids(std, newLayers[..i])
        invariant var m := ReconcileAll(std, hasGeom, AllKept(cur0), newLayers[..i]);
          && currentLayers.Keys == m.Keys
          && (forall id :: id in m ==> currentLayers[id].layer == m[id].layer)
          && (forall id :: id in m && m[id].Kept? ==> id in old0 && currentLayers[id] == old0[id])
          && (forall id :: id in m && m[id].Fresh? ==> fresh(currentLayers[id]))
      {
        ghost var m0 := ReconcileAll(std, hasGeom, AllKept(cur0), newLayers[..i]);
        var newLayer := newLayers[i];
        assert newLayers[..i + 1][..i] == newLayers[..i];
        IdsSnoc(std, newLayers[..i + 1]);
        var groupId := std(newLayer.groupId);
        newLayerIds := newLayerIds + {groupId};
        ReconcileLayer(newLayer, m0);
      }

      // remove any layers which are no longer used
      assert newLayers[..|newLayers|] == newLayers;
      RemoveUnused(newLayerIds);
    }

    /** Update's second loop: drop every cached layer whose id is not among `ids`. */
    method RemoveUnused(ids: set<string>)
      modifies this`currentLayers
      ensures currentLayers.Keys == old(currentLayers).Keys * ids
      ensures forall id :: id in currentLayers ==> currentLayers[id] == old(currentLayers)[id]
    {
      var remaining := currentLayers.Keys;
      while remaining != {}
        invariant remaining <= old(currentLayers).Keys
        invariant currentLayers.Keys == set id | id in old(currentLayers) && (id in remaining || id in ids)
        invariant forall id :: id in currentLayers ==> currentLayers[id] == old(currentLayers)[id]
        decreases remaining
      {
        var id :| id in remaining;
        if id !in ids {
          currentLayers := currentLayers - {id};
        }
        remaining := remaining - {id};
      }
    }

    /** One iteration of update's first loop, mirroring Reconcile on the ghost map `m`. */
    method ReconcileLayer(newLayer: Layer<G>, ghost m: map<string, Cached<G>>)
      modifies this`currentLayers
      requires currentLayers.Keys == m.Keys
      requires forall id :: id in m ==> currentLayers[id].layer == m[id].layer
      ensures var m' := Reconcile(std, hasGeom, m, newLayer);
        && currentLayers.Keys == m'.Keys
        && (forall id :: id in m' ==> currentLayers[id].layer == m'[id].layer)
        && (forall id :: id in m' ==>
              (id in m && m'[id] == m[id] && currentLayers[id] == old(currentLayers)[id])
              || (m'[id].Fresh? && fresh(currentLayers[id])))
    {
      var groupId := std(newLayer.groupId);
      var addLayer := false;
      if groupId !in currentLayers {
        // the layer is new
        addLayer := true;
      } else {
        var cachedLayer := currentLayers[groupId];
        var unknown := HasUnknownGeom(cachedLayer, newLayer);
        if unknown {
          // the new layer has a geometry the cached one lacks: invalidate it
          currentLayers := currentLayers - {groupId};
          addLayer := true;
        }
      }
      if addLayer {
        var c := new LayerCache(newLayer);
        currentLayers := currentLayers[groupId := c];
      }
    }

    /** Whether some object of the new layer has a non-null geometry the cached layer lacks. */
    method HasUnknownGeom(cachedLayer: LayerCache<G>, newLayer: Layer<G>) returns (unknown: bool)
      ensures unknown <==> !KnowsAll(hasGeom, cachedLayer.layer, newLayer)
    {
      for j := 0 to |newLayer.objects|
        invariant forall k :: 0 <= k < j && newLayer.objects[k].geom.Some? ==> hasGeom(cachedLayer.layer, newLayer.objects[k].geom.value)
      {
        var obj := newLayer.objects[j];
        if obj.geom.Some? && !hasGeom(cachedLayer.layer, obj.geom.value) {
          return true;
        }
      }
      return false;
    }

    /** The scan of splitDrawablesIntoLayers for an earlier NOVLPL layer to reuse. */
    method ScanLayers(ret: seq<Layer<G>>, novlpl: bool) returns (found: int)
      ensures found == Scan(ret, novlpl)
    {
      found := -1;
      for j := 0 to |ret|
        invariant found == Scan(ret[..j], novlpl)
      {
        assert ret[..j + 1][..j] == ret[..j];
        if ret[j].kind == Novlpl && StringEqualsBoolean(ret[j].groupId, novlpl) {
          found := j;
        }
      }
      assert ret[..|ret|] == ret;
    }

    /** Makes the layer the next object goes to the current one, creating it if needed. */
    method ChooseLayer(ret: seq<Layer<G>>, current: int, o: Drawable<G>) returns (ret': seq<Layer<G>>, current': int)
      requires -1 <= current < |ret|
      ensures Acc(ret', current') == Choose(std, Acc(ret, current), o)
    {
      ret', current' := ret, current;
      var novlpl := o.key != "";
      if novlpl {
        var stdGroup := std(o.key);
        if current' == -1 || ret'[current'].kind != Novlpl || ret'[current'].groupId != stdGroup {
          current' := ScanLayers(ret', novlpl);
          if current' == -1 {
            ret' := ret' + [Layer(Novlpl, stdGroup, [])];
            current' := |ret'| - 1;
          }
        }
      } else {
        if current' == -1 || ret'[current'].kind != Normal {
          ret' := ret' + [Layer(Normal, "", [])];
          current' := |ret'| - 1;
        }
      }
    }

    /**
     * Groups the drawables, in order, into maximal runs of the same kind and
     * group id: NORMAL runs of objects without a key and NOVLPL runs of
     * objects whose key standardises to the same id.
     */
    method SplitDrawablesIntoLayers(drawables: seq<Drawable<G>>) returns (ret: seq<Layer<G>>)
      ensures ret == Split(std, drawables)
      ensures WellGrouped(std, ret) && Flatten(ret) == drawables
    {
      ret := [];
      var current := -1;
      for i := 0 to |drawables|
        invariant Run(std, drawables[..i]) == Acc(ret, current)
      {
        assert drawables[..i + 1][..i] == drawables[..i];
        var o := drawables[i];
        ret, current := ChooseLayer(ret, current, o);
        // add the object to the current layer
        ret := ret[current := ret[current].(objects := ret[current].objects + [o])];
      }
      assert drawables[..|drawables|] == drawables;
      SplitIsWellGrouped(std, drawables);
    }
  }
}
