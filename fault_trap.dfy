/**
 * The terminate handler: on an unexpected fault, and only when no shutdown
 * has been requested, destroy every spawned actor that still exists and is
 * alive, then exit with status 1.
 *
 * An entry of the actor list is a shared pointer that may be null
 * (`None`); a non-null entry carries the remote actor's state, of which
 * only its aliveness matters here.  The shutdown flag `quit` is a plain
 * boolean read once.
 */
module FaultTrap {
  import opened Wrappers

  datatype ActorState = ActorState(id: nat, alive: bool)

  /** A non-null entry whose actor is alive: what the handler destroys. */
  predicate IsLive(entry: Option<ActorState>) {
    entry.Some? && entry.value.alive
  }

  /** The entry after the sweep has passed over it. */
  function Reclaimed(entry: Option<ActorState>): Option<ActorState> {
    if IsLive(entry) then Some(entry.value.(alive := false)) else entry
  }

  /** The actor list after a sweep over all of `entries`. */
  function Swept(entries: seq<Option<ActorState>>): seq<Option<ActorState>>
    decreases |entries|
  {
    if entries == [] then []
    else Swept(entries[..|entries| - 1]) + [Reclaimed(entries[|entries| - 1])]
  }

  /** The indices the sweep issues `Destroy` on, in the order it issues them. */
  function LiveIndices(entries: seq<Option<ActorState>>): seq<nat>
    decreases |entries|
  {
    if entries == [] then []
    else LiveIndices(entries[..|entries| - 1]) + if IsLive(entries[|entries| - 1]) then [|entries| - 1] else []
  }

  /**
   * `Destroy` is issued exactly on the live entries: each index once, in
   * list order.
   */
  lemma {:induction false} LiveIndicesExact(entries: seq<Option<ActorState>>)
    ensures forall j :: 0 <= j < |LiveIndices(entries)| ==>
      LiveIndices(entries)[j] < |entries| && IsLive(entries[LiveIndices(entries)[j]])
    ensures forall k :: 0 <= k < |entries| && IsLive(entries[k]) ==> k in LiveIndices(entries)
    ensures forall a, b :: 0 <= a < b < |LiveIndices(entries)| ==> LiveIndices(entries)[a] < LiveIndices(entries)[b]
    decreases |entries|
  {
    if entries != [] {
      var n := |entries| - 1;
      var front := entries[..n];
      LiveIndicesExact(front);
      assert forall k :: 0 <= k < n ==> front[k] == entries[k];
    }
  }

  /**
   * After the sweep no non-null entry is alive; null and dead entries are
   * untouched, and a live entry keeps its identity and only stops being
   * alive.
   */
  lemma {:induction false} SweptEntries(entries: seq<Option<ActorState>>)
    ensures |Swept(entries)| == |entries|
    ensures forall k :: 0 <= k < |entries| ==> !IsLive(Swept(entries)[k])
    ensures forall k :: 0 <= k < |entries| && !IsLive(entries[k]) ==> Swept(entries)[k] == entries[k]
    ensures forall k :: 0 <= k < |entries| && IsLive(entries[k]) ==>
      Swept(entries)[k] == Some(ActorState(entries[k].value.id, false))
    decreases |entries|
  {
    if entries != [] {
      var n := |entries| - 1;
      var front := entries[..n];
      SweptEntries(front);
      assert forall k :: 0 <= k < n ==> front[k] == entries[k];
      assert forall k :: 0 <= k < n ==> Swept(entries)[k] == Swept(front)[k];
    }
  }

  /** Run again over the swept list, the sweep would find nothing to destroy. */
  lemma SweptHasNothingLive(entries: seq<Option<ActorState>>)
    ensures LiveIndices(Swept(entries)) == []
  {
    SweptEntries(entries);
    LiveIndicesExact(Swept(entries));
  }

  /** The ids of the actors the non-null entries name. */
  function Ids(entries: seq<Option<ActorState>>): set<nat>
    decreases |entries|
  {
    if entries == [] then {}
    else
      var last := entries[|entries| - 1];
      Ids(entries[..|entries| - 1]) + if last.Some? then {last.value.id} else {}
  }

  /**
   * No two non-null entries name the same actor: the list holds the actors
   * spawned for this session, each one once.
   */
  predicate DistinctActors(entries: seq<Option<ActorState>>)
    decreases |entries|
  {
    entries == [] ||
    var last := entries[|entries| - 1];
    DistinctActors(entries[..|entries| - 1]) && (last.Some? ==> last.value.id !in Ids(entries[..|entries| - 1]))
  }

  lemma {:induction false} IdsAt(entries: seq<Option<ActorState>>, k: nat)
    requires k < |entries| && entries[k].Some?
    ensures entries[k].value.id in Ids(entries)
    decreases |entries|
  {
    if k < |entries| - 1 {
      var front := entries[..|entries| - 1];
      IdsAt(front, k);
    }
  }

  /** `DistinctActors` says exactly that two different non-null entries have different ids. */
  lemma {:induction false} DistinctActorsPairwise(entries: seq<Option<ActorState>>)
    ensures DistinctActors(entries) <==>
      forall a, b :: 0 <= a < b < |entries| && entries[a].Some? && entries[b].Some? ==>
        entries[a].value.id != entries[b].value.id
    decreases |entries|
  {
    if entries != [] {
      var n := |entries| - 1;
      var front := entries[..n];
      DistinctActorsPairwise(front);
      assert forall a :: 0 <= a < n ==> front[a] == entries[a];
      if entries[n].Some? && entries[n].value.id in Ids(front) {
        var a := IdsIndex(front, entries[n].value.id);
        assert entries[a].value.id == entries[n].value.id;
      }
      if DistinctActors(entries) {
        forall a | 0 <= a < n && entries[a].Some? && entries[n].Some?
          ensures entries[a].value.id != entries[n].value.id
        {
          IdsAt(front, a);
        }
      }
    }
  }

  /** Every id in `Ids` comes from some non-null entry. */
  lemma {:induction false} IdsIndex(entries: seq<Option<ActorState>>, id: nat) returns (k: nat)
    requires id in Ids(entries)
    ensures k < |entries| && entries[k].Some? && entries[k].value.id == id
    decreases |entries|
  {
    var n := |entries| - 1;
    if entries[n].Some? && entries[n].value.id == id {
      k := n;
    } else {
      k := IdsIndex(entries[..n], id);
    }
  }

  /** The sweep keeps every entry's identity: it names the same actors as before. */
  lemma {:induction false} SweptKeepsIds(entries: seq<Option<ActorState>>)
    ensures Ids(Swept(entries)) == Ids(entries)
    decreases |entries|
  {
    if entries != [] {
      var n := |entries| - 1;
      var front := entries[..n];
      SweptKeepsIds(front);
      SweptEntries(front);
      var swept := Swept(entries);
      assert swept[..n] == Swept(front) && swept[n] == Reclaimed(entries[n]);
    }
  }

  /** Distinct actors stay distinct through the sweep. */
  lemma {:induction false} SweptKeepsDistinct(entries: seq<Option<ActorState>>)
    requires DistinctActors(entries)
    ensures DistinctActors(Swept(entries))
    decreases |entries|
  {
    if entries != [] {
      var n := |entries| - 1;
      var front := entries[..n];
      SweptKeepsIds(front);
      SweptKeepsDistinct(front);
      SweptEntries(front);
      assert Swept(entries)[..n] == Swept(front);
    }
  }

  /** Clearing the aliveness of one non-null entry keeps the actors distinct. */
  lemma ClearAliveKeepsDistinct(entries: seq<Option<ActorState>>, k: nat)
    requires k < |entries| && entries[k].Some? && DistinctActors(entries)
    ensures DistinctActors(entries[k := Some(entries[k].value.(alive := false))])
  {
    var cleared := entries[k := Some(entries[k].value.(alive := false))];
    DistinctActorsPairwise(entries);
    DistinctActorsPairwise(cleared);
    assert forall j :: 0 <= j < |entries| ==>
      cleared[j].Some? == entries[j].Some? && (cleared[j].Some? ==> cleared[j].value.id == entries[j].value.id);
  }

  /**
   * When the entries name distinct actors, the sweep's `Destroy` calls go to
   * distinct actors: no actor is destroyed twice in one sweep.
   */
  lemma EachActorDestroyedOnce(entries: seq<Option<ActorState>>)
    requires DistinctActors(entries)
    ensures forall j :: 0 <= j < |LiveIndices(entries)| ==>
      LiveIndices(entries)[j] < |entries| && entries[LiveIndices(entries)[j]].Some?
    ensures forall a, b :: 0 <= a < b < |LiveIndices(entries)| ==>
      entries[LiveIndices(entries)[a]].value.id != entries[LiveIndices(entries)[b]].value.id
  {
    LiveIndicesExact(entries);
    DistinctActorsPairwise(entries);
  }

  /**
   * One more step of the sweep over `entries`: once the first `k` entries
   * are swept, reclaiming entry `k` gives the first `k + 1` swept, and the
   * destroy log grows by `k` exactly when that entry is live.
   */
  lemma SweepStep(entries: seq<Option<ActorState>>, k: nat, current: seq<Option<ActorState>>)
    requires k < |entries| && current == Swept(entries[..k]) + entries[k..]
    ensures |Swept(entries[..k])| == k && current[k] == entries[k]
    ensures current[k := Reclaimed(entries[k])] == Swept(entries[..k + 1]) + entries[k + 1..]
    ensures LiveIndices(entries[..k + 1]) == LiveIndices(entries[..k]) + if IsLive(entries[k]) then [k] else []
  {
    SweptEntries(entries[..k]);
    assert entries[..k + 1][..k] == entries[..k];
  }

  /** What the handler does: return to its caller, or end the process with a status. */
  datatype HandlerOutcome = Returned | Exited(status: int)

  /**
   * The published actor list together with the remote state of its actors,
   * and the `Destroy` calls issued on it so far (by index).
   */
  class Registry {
    var entries: seq<Option<ActorState>>
    var destroyed: seq<nat>

    /** Each entry names a different actor. */
    predicate Valid()
      reads this
    {
      DistinctActors(entries)
    }

    /** Publishing the spawned actors; nothing has been destroyed yet. */
    constructor (published: seq<Option<ActorState>>)
      requires DistinctActors(published)
      ensures Valid()
      ensures entries == published && destroyed == []
    {
      entries := published;
      destroyed := [];
    }

    /** The remote destroy call on the non-null entry `k`. */
    method Destroy(k: nat)
      requires Valid() && k < |entries| && entries[k].Some?
      modifies this
      ensures Valid()
      ensures entries == old(entries)[k := Some(old(entries)[k].value.(alive := false))]
      ensures destroyed == old(destroyed) + [k]
    {
      ClearAliveKeepsDistinct(entries, k);
      entries := entries[k := Some(entries[k].value.(alive := false))];
      destroyed := destroyed + [k];
    }

    /**
     * One iteration of the handler's loop: with the first `k` entries of
     * `initial` swept and their `Destroy` calls logged after `log`, entry `k`
     * is destroyed if it is live, and then `k + 1` entries are swept.
     */
    method SweepEntry(k: nat, ghost initial: seq<Option<ActorState>>, ghost log: seq<nat>)
      requires Valid() && k < |initial|
      requires entries == Swept(initial[..k]) + initial[k..]
      requires destroyed == log + LiveIndices(initial[..k])
      modifies this
      ensures Valid() && |entries| == |initial|
      ensures entries == Swept(initial[..k + 1]) + initial[k + 1..]
      ensures destroyed == log + LiveIndices(initial[..k + 1])
    {
      SweepStep(initial, k, entries);
      ghost var before := entries;
      if entries[k].Some? && entries[k].value.alive {
        Destroy(k);
      }
      assert entries == before[k := Reclaimed(initial[k])];
    }

    /**
     * With `quit` set, nothing happens and the handler returns; otherwise
     * every live entry is destroyed, in list order, and the process exits
     * with status 1.
     */
    method Handler(quit: bool) returns (outcome: HandlerOutcome)
      requires Valid()
      modifies this
      ensures Valid()
      ensures quit ==> outcome == Returned && entries == old(entries) && destroyed == old(destroyed)
      ensures !quit ==> outcome == Exited(1)
      ensures !quit ==> entries == Swept(old(entries)) && destroyed == old(destroyed) + LiveIndices(old(entries))
    {
      if quit {
        return Returned;
      }
      ghost var initial := entries;
      var k := 0;
      while k < |entries|
        invariant Valid()
        invariant 0 <= k <= |entries| == |initial|
        invariant entries == Swept(initial[..k]) + initial[k..]
        invariant destroyed == old(destroyed) + LiveIndices(initial[..k])
        decreases |entries| - k
      {
        SweepEntry(k, initial, old(destroyed));
        k := k + 1;
      }
      assert initial[..k] == initial && entries == Swept(initial);
      outcome := Exited(1);
    }
  }
}
