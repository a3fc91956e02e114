/** The ledger of owned resources of the publication fixture: names are recorded before a resource
    is created and dropped only after its absence was observed. */
module Ledger {
  import opened Options
  import opened Daemon

  // ---------------------------------------------------------------- the safety invariant

  /** Every container of the run, held now or created late, is in the ledger; a name is held or
      late, not both; and identifiers observed as ours denote nothing that is not ours. */
  ghost predicate Safe(w: World, owner: string, ledger: set<string>, used: set<string>, observed: set<nat>) {
    && NamesUnique(w) && IdsUsed(w)
    && w.late <= ledger <= used
    && (forall i :: i in w.containers && w.containers[i].owner == owner ==>
          w.containers[i].name in ledger && w.containers[i].name !in w.late)
    && (forall i :: i in observed ==>
          i < w.nextId && (i in w.containers ==> w.containers[i].owner == owner))
  }

  ghost predicate SafeVolumes(w: World, owner: string, ledger: set<string>, used: set<string>) {
    && w.lateVolumes <= ledger <= used
    && (forall n :: n in w.volumes && w.volumes[n].owner == owner ==> n in ledger && n !in w.lateVolumes)
  }

  lemma DriftKeepsSafe(w: World, w': World, owner: string, ledger: set<string>, used: set<string>, observed: set<nat>)
    requires Safe(w, owner, ledger, used, observed) && Drifts(w, w', owner)
    ensures Safe(w', owner, ledger, used, observed)
  {
  }

  lemma DriftKeepsSafeVolumes(w: World, w': World, owner: string, ledger: set<string>, used: set<string>)
    requires SafeVolumes(w, owner, ledger, used) && Drifts(w, w', owner)
    ensures SafeVolumes(w', owner, ledger, used)
  {
  }

  /** Nothing of the run is left, and nothing of it can still appear. */
  ghost predicate Gone(w: World, owner: string) {
    && (forall i :: i in w.containers ==> w.containers[i].owner != owner)
    && (forall n :: n in w.volumes ==> w.volumes[n].owner != owner)
    && w.late == {} && w.lateVolumes == {}
  }

  /** Once gone, gone for ever, whatever the others do. */
  lemma {:induction false} GoneForEver(worlds: seq<World>, owner: string)
    requires worlds != [] && Gone(worlds[0], owner)
    requires forall i :: 0 <= i < |worlds| - 1 ==> Drifts(worlds[i], worlds[i + 1], owner)
    ensures forall i :: 0 <= i < |worlds| ==> Gone(worlds[i], owner)
  {
    if |worlds| > 1 {
      assert Drifts(worlds[0], worlds[1], owner);
      var rest := worlds[1..];
      forall i | 0 <= i < |rest| - 1 ensures Drifts(rest[i], rest[i + 1], owner) {
        assert Drifts(worlds[i + 1], worlds[i + 2], owner);
      }
      GoneForEver(rest, owner);
      forall i | 0 <= i < |worlds| ensures Gone(worlds[i], owner) {
        assert i > 0 ==> worlds[i] == rest[i - 1];
      }
    }
  }

  // ---------------------------------------------------------------- undisturbed runs

  type Entries = map<string, Option<nat>>

  ghost predicate Holds(cs: map<nat, Container>, owner: string, name: string, entry: Option<nat>, id: nat) {
    id in cs && cs[id].name == name && cs[id].owner == owner && (entry == None || entry == Some(id))
  }

  /** The run still holds everything its ledger lists, under the recorded identifiers. */
  ghost predicate AllHeld(cs: map<nat, Container>, owner: string, ledger: Entries) {
    forall n :: n in ledger ==> exists id :: Holds(cs, owner, n, ledger[n], id)
  }

  ghost predicate AllHeldVolumes(vs: map<string, Volume>, owner: string, ledger: Entries) {
    forall n :: n in ledger ==>
      && n in vs && vs[n].owner == owner
      && (ledger[n] == None || ledger[n] == Some(vs[n].createdAt))
  }

  lemma CreatedHeld(w: World, owner: string, ledger: Entries, name: string)
    requires AllHeld(w.containers, owner, ledger) && IdsUsed(w)
    ensures AllHeld(Created(w, name, owner).containers, owner, ledger[name := None])
  {
    var cs, more := Created(w, name, owner).containers, ledger[name := None];
    assert Holds(cs, owner, name, None, w.nextId);
    forall n | n in more && n != name ensures exists id :: Holds(cs, owner, n, more[n], id) {
      var id :| Holds(w.containers, owner, n, ledger[n], id);
      assert Holds(cs, owner, n, more[n], id);
    }
  }

  lemma IdentifiedHeld(cs: map<nat, Container>, owner: string, ledger: Entries, name: string, id: nat)
    requires AllHeld(cs, owner, ledger) && Holds(cs, owner, name, None, id)
    ensures AllHeld(cs, owner, ledger[name := Some(id)])
  {
    var more := ledger[name := Some(id)];
    assert Holds(cs, owner, name, more[name], id);
    forall n | n in more && n != name ensures exists i :: Holds(cs, owner, n, more[n], i) {
      var i :| Holds(cs, owner, n, ledger[n], i);
      assert Holds(cs, owner, n, more[n], i);
    }
  }

  lemma StoppedHeld(w: World, owner: string, ledger: Entries, id: nat)
    requires AllHeld(w.containers, owner, ledger) && id in w.containers
    ensures AllHeld(Stopped(w, id).containers, owner, ledger)
  {
    var cs := Stopped(w, id).containers;
    forall n | n in ledger ensures exists i :: Holds(cs, owner, n, ledger[n], i) {
      var i :| Holds(w.containers, owner, n, ledger[n], i);
      assert Holds(cs, owner, n, ledger[n], i);
    }
  }

  lemma RemovedHeld(w: World, owner: string, ledger: Entries, name: string, id: nat)
    requires AllHeld(w.containers, owner, ledger) && id in w.containers && w.containers[id].name == name
    ensures AllHeld(Removed(w, id).containers, owner, ledger - {name})
  {
    var cs, rest := Removed(w, id).containers, ledger - {name};
    forall n | n in rest ensures exists i :: Holds(cs, owner, n, rest[n], i) {
      var i :| Holds(w.containers, owner, n, ledger[n], i);
      assert Holds(cs, owner, n, rest[n], i);
    }
  }

  // ---------------------------------------------------------------- the fixture

  /** What the run does next; a name is drawn afresh for every creation. */
  datatype Op =
    | OpContainer(name: string)
    | OpVolume(name: string)
    | OpRemove(name: string)
    | OpTool(name: string)
    | OpOther

  datatype Receipt = Receipt(ok: bool, failed: bool, cleanup: seq<string>,
                             remainingContainers: nat, remainingVolumes: nat)

  class Fixture {
    const daemon: Daemon
    var containers: Entries
    var volumes: Entries
    var notes: seq<string>

    ghost var used: set<string>
    ghost var usedVolumes: set<string>
    ghost var observed: set<nat>   // identifiers inspected with this run's label
    ghost var commanded: set<nat>  // identifiers given to stop or rm
    ghost var discarded: set<(string, nat)>  // volumes given to rm, with the creation time observed

    ghost predicate Valid()
      reads this, daemon
    {
      && Safe(daemon.world, daemon.owner, containers.Keys, used, observed)
      && SafeVolumes(daemon.world, daemon.owner, volumes.Keys, usedVolumes)
      && commanded <= observed
    }

    /** The world the run left alone still holds everything in the ledger. */
    ghost predicate Complete()
      reads this`containers, this`volumes, daemon
    {
      && AllHeld(daemon.world.containers, daemon.owner, containers)
      && AllHeldVolumes(daemon.world.volumes, daemon.owner, volumes)
    }

    constructor (daemon: Daemon)
      requires NamesUnique(daemon.world) && IdsUsed(daemon.world)
      requires Gone(daemon.world, daemon.owner)
      ensures Valid() && this.daemon == daemon && fresh(this)
      ensures containers == map[] && volumes == map[] && notes == []
      ensures used == {} && usedVolumes == {} && Complete()
    {
      this.daemon := daemon;
      containers, volumes, notes := map[], map[], [];
      used, usedVolumes, observed, commanded, discarded := {}, {}, {}, {}, {};
    }

    // -------------------------------------------------------------- single commands

    /** `absent("container", name)`. */
    method ContainerAbsent(name: string) returns (ok: bool)
      requires Valid()
      modifies daemon`world
      ensures Valid() && daemon.world.late <= old(daemon.world.late)
      ensures ok ==> NameFree(daemon.world, name)
      ensures daemon.undisturbed ==> daemon.world == old(daemon.world) && ok == NameFree(daemon.world, name)
    {
      ok := daemon.ContainerAbsent(name);
    }

    method RecordContainer(name: string)
      requires Valid()
      modifies this
      ensures Valid() && containers == old(containers)[name := None] && used == old(used) + {name}
      ensures volumes == old(volumes) && notes == old(notes) && usedVolumes == old(usedVolumes)
      ensures observed == old(observed) && commanded == old(commanded)
    {
      containers := containers[name := None];
      used := used + {name};
    }

    /** The creation of a recorded name that was never used before. */
    method IssueContainer(name: string) returns (ok: bool)
      requires Valid() && name in containers && name !in daemon.world.late
      requires forall i :: i in daemon.world.containers && daemon.world.containers[i].owner == daemon.owner
                           ==> daemon.world.containers[i].name != name
      modifies daemon`world
      ensures Valid()
      ensures daemon.undisturbed && NameFree(old(daemon.world), name) ==>
                ok && daemon.world == Created(old(daemon.world), name, daemon.owner)
    {
      var reply, done, w := daemon.CreateContainer(name);
      DriftKeepsSafe(old(daemon.world), w, daemon.owner, containers.Keys, used, observed);
      DriftKeepsSafeVolumes(old(daemon.world), w, daemon.owner, volumes.Keys, usedVolumes);
      ok := reply == Exit(0);
    }

    /** An inspection that must show this run's label. */
    method InspectOwned(name: string) returns (ok: bool, seen: Seen)
      requires Valid()
      modifies this`observed, daemon`world
      ensures Valid() && daemon.world.late <= old(daemon.world.late)
      ensures old(observed) <= observed
      ensures ok ==> seen.Seen? && seen.id in observed && name !in daemon.world.late
      ensures ok ==> Holds(daemon.world.containers, daemon.owner, name, None, seen.id)
                     && daemon.world.containers[seen.id].running == seen.running
      ensures daemon.undisturbed ==> daemon.world == old(daemon.world)
      ensures daemon.undisturbed ==>
                forall id :: Holds(daemon.world.containers, daemon.owner, name, None, id) ==> ok && seen.id == id
    {
      seen := daemon.InspectContainer(name);
      ok := seen.Seen? && seen.owner == daemon.owner;
      if ok {
        observed := observed + {seen.id};
      }
    }

    method StopContainer(id: nat) returns (ok: bool)
      requires Valid() && id in observed
      modifies this`commanded, daemon`world
      ensures Valid() && daemon.world.late <= old(daemon.world.late)
      ensures commanded == old(commanded) + {id}
      ensures daemon.undisturbed && id in old(daemon.world.containers) ==>
                ok && daemon.world == Stopped(old(daemon.world), id)
    {
      commanded := commanded + {id};
      var reply := daemon.StopContainer(id);
      ok := reply == Exit(0);
    }

    method RemoveById(id: nat) returns (ok: bool)
      requires Valid() && id in observed
      modifies this`commanded, daemon`world
      ensures Valid() && daemon.world.late <= old(daemon.world.late)
      ensures commanded == old(commanded) + {id}
      ensures var w := old(daemon.world);
              daemon.undisturbed && id in w.containers && !w.containers[id].running ==>
                ok && daemon.world == Removed(w, id)
    {
      commanded := commanded + {id};
      var reply, w := daemon.RemoveContainer(id);
      DriftKeepsSafe(old(daemon.world), w, daemon.owner, containers.Keys, used, observed);
      ok := reply == Exit(0);
    }

    /** An interruption may fall even after an entry was dropped. */
    method Uninterrupted() returns (ok: bool)
      ensures daemon.undisturbed ==> ok
    {
      ok := *;
      ok := ok || daemon.undisturbed;
    }

    method ForgetContainer(name: string)
      requires Valid() && NameFree(daemon.world, name) && name !in daemon.world.late
      modifies this`containers
      ensures Valid() && containers == old(containers) - {name}
    {
      containers := containers - {name};
    }

    // -------------------------------------------------------------- containers

    /** `container(...)`: absent, recorded, created, inspected, identified. `false` is an
        exception at any of these points. */
    method Container(name: string) returns (ok: bool)
      requires Valid() && name !in used
      modifies this, daemon
      ensures Valid()
      ensures containers.Keys <= old(containers.Keys) + {name} && used <= old(used) + {name}
      ensures volumes == old(volumes) && notes == old(notes) && usedVolumes == old(usedVolumes)
      ensures ok ==> name in containers && containers[name].Some? && containers[name].value in observed
      ensures commanded == old(commanded)
      ensures daemon.undisturbed && old(Complete()) ==>
                Complete() && (ok <==> NameFree(old(daemon.world), name))
    {
      ok := ContainerAbsent(name);
      if !ok {
        return;
      }
      RecordContainer(name);
      ok := IssueContainer(name);
      if !ok {
        return;
      }
      var seen;
      if daemon.undisturbed && old(Complete()) {
        CreatedHeld(old(daemon.world), daemon.owner, old(containers), name);
      }
      ok, seen := InspectOwned(name);
      if ok {
        if daemon.undisturbed && old(Complete()) {
          IdentifiedHeld(daemon.world.containers, daemon.owner, containers, name, seen.id);
        }
        containers := containers[name := Some(seen.id)];
      }
    }

    /** `remove(name)`: stopped and removed by the observed identifier, then dropped from the
        ledger once the name is absent. */
    method Remove(name: string) returns (ok: bool)
      requires Valid()
      modifies this, daemon
      ensures Valid()
      ensures ok ==> name in old(containers) && containers == old(containers) - {name}
      ensures !ok ==> containers == old(containers) || containers == old(containers) - {name}
      ensures used == old(used)
      ensures volumes == old(volumes) && notes == old(notes) && usedVolumes == old(usedVolumes)
      ensures name !in old(containers) ==> commanded == old(commanded)
      ensures name in old(containers) && old(containers)[name].Some? ==>
                commanded <= old(commanded) + {old(containers)[name].value}
      ensures daemon.undisturbed && old(Complete()) ==> Complete() && (ok <==> name in old(containers))
    {
      var seen;
      ok, seen := InspectOwned(name);
      if daemon.undisturbed && old(Complete()) && name in containers {
        ghost var id :| Holds(daemon.world.containers, daemon.owner, name, containers[name], id);
        assert Holds(daemon.world.containers, daemon.owner, name, None, id);
      }
      if !ok || name !in containers || !(containers[name] == None || containers[name] == Some(seen.id)) {
        return false;
      }
      ok := RemoveSeen(name, seen);
    }

    /** The second half of `remove`: a running container is stopped first, since `rm` refuses it. */
    method RemoveSeen(name: string, seen: Seen) returns (ok: bool)
      requires Valid() && name in containers && name !in daemon.world.late
      requires seen.Seen? && seen.id in observed && Holds(daemon.world.containers, daemon.owner, name, None, seen.id)
      requires daemon.world.containers[seen.id].running == seen.running
      modifies this`commanded, this`containers, daemon`world
      ensures Valid()
      ensures ok ==> containers == old(containers) - {name}
      ensures !ok ==> containers == old(containers) || containers == old(containers) - {name}
      ensures commanded <= old(commanded) + {seen.id}
      ensures daemon.undisturbed && old(Complete()) ==> Complete() && ok
    {
      if seen.running {
        ok := StopContainer(seen.id);
        if !ok {
          return;
        }
        if daemon.undisturbed && old(Complete()) {
          StoppedHeld(old(daemon.world), daemon.owner, containers, seen.id);
        }
      }
      ghost var w := daemon.world;
      ok := RemoveById(seen.id);
      if !ok {
        return;
      }
      if daemon.undisturbed && old(Complete()) {
        RemovedHeld(w, daemon.owner, containers, name, seen.id);
      }
      ok := ContainerAbsent(name);
      if !ok {
        return;
      }
      ForgetContainer(name);
      ok := Uninterrupted();
    }

    /** `tool(...)`: a container that is always removed again, even when its command failed. */
    method Tool(name: string) returns (ok: bool)
      requires Valid() && name !in used
      modifies this, daemon
      ensures Valid()
      ensures containers.Keys <= old(containers.Keys) + {name} && used <= old(used) + {name}
      ensures ok ==> notes == old(notes)
      ensures volumes == old(volumes) && usedVolumes == old(usedVolumes)
      ensures ok ==> name !in containers
      ensures daemon.undisturbed && old(Complete()) ==> Complete() && notes == old(notes)
    {
      ok := Container(name);
      if !ok {
        return;
      }
      var failed: bool := *;
      var removed := Remove(name);
      if !removed && failed {
        notes := notes + ["tool_cleanup_failed"];
      }
      ok := removed && !failed;
    }

    // -------------------------------------------------------------- volumes

    method VolumeAbsent(name: string) returns (ok: bool)
      requires Valid()
      modifies daemon`world
      ensures Valid() && daemon.world.lateVolumes <= old(daemon.world.lateVolumes)
      ensures ok ==> name !in daemon.world.volumes
      ensures daemon.undisturbed ==> daemon.world == old(daemon.world) && ok == (name !in daemon.world.volumes)
    {
      ok := daemon.VolumeAbsent(name);
    }

    method IssueVolume(name: string) returns (ok: bool)
      requires Valid() && name in volumes && name !in daemon.world.lateVolumes
      requires name in daemon.world.volumes ==> daemon.world.volumes[name].owner != daemon.owner
      modifies daemon`world
      ensures Valid()
      ensures daemon.undisturbed && name !in old(daemon.world.volumes) ==>
                && ok && daemon.world.containers == old(daemon.world.containers)
                && name in daemon.world.volumes && daemon.world.volumes[name].owner == daemon.owner
                && daemon.world.volumes == old(daemon.world.volumes)[name := daemon.world.volumes[name]]
    {
      var reply, done, w, at := daemon.CreateVolume(name);
      DriftKeepsSafe(old(daemon.world), w, daemon.owner, containers.Keys, used, observed);
      DriftKeepsSafeVolumes(old(daemon.world), w, daemon.owner, volumes.Keys, usedVolumes);
      ok := reply == Exit(0);
    }

    method InspectVolume(name: string) returns (ok: bool, seen: SeenVolume)
      requires Valid()
      modifies daemon`world
      ensures Valid() && daemon.world.lateVolumes <= old(daemon.world.lateVolumes)
      ensures ok ==> seen.SeenVolume? && name !in daemon.world.lateVolumes
      ensures daemon.undisturbed ==> daemon.world == old(daemon.world)
      ensures daemon.undisturbed && name in daemon.world.volumes && daemon.world.volumes[name].owner == daemon.owner
              ==> ok && seen.createdAt == daemon.world.volumes[name].createdAt
    {
      seen := daemon.InspectVolume(name);
      ok := seen.SeenVolume? && seen.owner == daemon.owner;
    }

    /** `volume(suffix)`. */
    method CreateVolume(name: string) returns (ok: bool)
      requires Valid() && name !in usedVolumes
      modifies this, daemon
      ensures Valid()
      ensures volumes.Keys <= old(volumes.Keys) + {name} && usedVolumes <= old(usedVolumes) + {name}
      ensures containers == old(containers) && notes == old(notes) && used == old(used)
      ensures daemon.undisturbed && old(Complete()) ==>
                Complete() && (ok <==> name !in old(daemon.world.volumes))
    {
      ok := VolumeAbsent(name);
      if !ok {
        return;
      }
      volumes := volumes[name := None];
      usedVolumes := usedVolumes + {name};
      ok := IssueVolume(name);
      if !ok {
        return;
      }
      var seen;
      ok, seen := InspectVolume(name);
      if ok {
        volumes := volumes[name := Some(seen.createdAt)];
      }
    }

    /** The removal of one volume in `cleanup`. */
    method RemoveVolume(name: string) returns (ok: bool)
      requires Valid() && name in volumes
      modifies this, daemon
      ensures Valid()
      ensures ok ==> volumes == old(volumes) - {name}
      ensures !ok ==> volumes == old(volumes) || volumes == old(volumes) - {name}
      ensures containers == old(containers) && notes == old(notes)
      ensures old(volumes)[name].Some? ==> discarded <= old(discarded) + {(name, old(volumes)[name].value)}
      ensures daemon.undisturbed && old(Complete()) ==> Complete() && ok
    {
      var seen;
      ok, seen := InspectVolume(name);
      if !ok || !(volumes[name] == None || volumes[name] == Some(seen.createdAt)) {
        return false;
      }
      discarded := discarded + {(name, seen.createdAt)};
      ok := RemoveVolumeByName(name);
      if !ok {
        return;
      }
      ok := VolumeAbsent(name);
      if !ok {
        return;
      }
      volumes := volumes - {name};
      ok := Uninterrupted();
    }

    method RemoveVolumeByName(name: string) returns (ok: bool)
      requires Valid()
      modifies daemon`world
      ensures Valid() && daemon.world.lateVolumes <= old(daemon.world.lateVolumes)
      ensures daemon.undisturbed ==>
                && ok && daemon.world.containers == old(daemon.world.containers)
                && daemon.world.volumes == old(daemon.world.volumes) - {name}
    {
      var reply, w := daemon.RemoveVolume(name);
      DriftKeepsSafe(old(daemon.world), w, daemon.owner, containers.Keys, used, observed);
      DriftKeepsSafeVolumes(old(daemon.world), w, daemon.owner, volumes.Keys, usedVolumes);
      ok := reply == Exit(0);
    }

    // -------------------------------------------------------------- cleanup and receipt

    /** The containers' half of `cleanup()`: every entry is removed or noted. An interruption between
        two entries ends it. */
    method CleanContainers() returns (finished: bool)
      requires Valid()
      modifies this, daemon
      ensures Valid() && volumes == old(volumes) && old(notes) <= notes
      ensures finished ==> |notes| >= |old(notes)| + |containers|
      ensures daemon.undisturbed && old(Complete()) ==>
                Complete() && finished && containers == map[] && notes == old(notes)
    {
      var todo := containers.Keys;
      while todo != {}
        invariant Valid() && volumes == old(volumes) && old(notes) <= notes
        invariant todo <= containers.Keys && |notes| + |todo| >= |old(notes)| + |containers|
        invariant daemon.undisturbed && old(Complete()) ==>
                    Complete() && todo == containers.Keys && notes == old(notes)
        decreases todo
      {
        var goesOn := Uninterrupted();
        if !goesOn {
          return false;
        }
        var name :| name in todo;
        var removed := Remove(name);
        if !removed {
          notes := notes + ["container_cleanup_failed"];
        }
        todo := todo - {name};
      }
      finished := true;
    }

    /** The volumes' half of `cleanup()`. */
    method CleanVolumes() returns (finished: bool)
      requires Valid()
      modifies this, daemon
      ensures Valid() && containers == old(containers) && old(notes) <= notes
      ensures finished ==> |notes| >= |old(notes)| + |volumes|
      ensures daemon.undisturbed && old(Complete()) ==>
                finished && volumes == map[] && notes == old(notes)
    {
      var todo := volumes.Keys;
      while todo != {}
        invariant Valid() && containers == old(containers) && old(notes) <= notes
        invariant todo <= volumes.Keys && |notes| + |todo| >= |old(notes)| + |volumes|
        invariant daemon.undisturbed && old(Complete()) ==>
                    Complete() && todo == volumes.Keys && notes == old(notes)
        decreases todo
      {
        var goesOn := Uninterrupted();
        if !goesOn {
          return false;
        }
        var name :| name in todo;
        var removed := RemoveVolume(name);
        if !removed {
          notes := notes + ["volume_cleanup_failed"];
        }
        todo := todo - {name};
      }
      finished := true;
    }

    /** `cleanup()`: what is left in the ledger afterwards was noted, entry by entry. */
    method Cleanup() returns (finished: bool)
      requires Valid()
      modifies this, daemon
      ensures Valid() && old(notes) <= notes
      ensures finished ==> |notes| >= |old(notes)| + |containers| + |volumes|
      ensures daemon.undisturbed && old(Complete()) ==>
                finished && containers == map[] && volumes == map[] && notes == old(notes)
    {
      finished := CleanContainers();
      if finished {
        finished := CleanVolumes();
      }
    }

    /** One step of the run. */
    method Perform(op: Op) returns (ok: bool)
      requires Valid()
      requires (op.OpContainer? || op.OpTool?) ==> op.name !in used
      requires op.OpVolume? ==> op.name !in usedVolumes
      modifies this, daemon
      ensures Valid()
      ensures ok ==> notes == old(notes)
      ensures used <= old(used) + (if op.OpContainer? || op.OpTool? then {op.name} else {})
      ensures usedVolumes <= old(usedVolumes) + (if op.OpVolume? then {op.name} else {})
      ensures daemon.undisturbed && old(Complete()) ==> Complete() && notes == old(notes)
    {
      match op
      case OpContainer(name) => ok := Container(name);
      case OpVolume(name) => ok := CreateVolume(name);
      case OpRemove(name) => ok := Remove(name);
      case OpTool(name) => ok := Tool(name);
      case OpOther => ok := *;
    }

    /** The run, its cleanup and its receipt. Whatever the run does, and whatever is lost or fails
        on the way: every container of the run is in the ledger, only identifiers observed with the
        run's label were stopped or removed, and a receipt that counts nothing as remaining, after a
        failure too, means that nothing of the run is left and nothing of it can still appear. An
        empty list of cleanup notes means that nothing is counted, and so does `ok`. A run that
        nothing disturbs always ends with such a receipt, whatever its own steps do. */
    method Session(ops: seq<Op>) returns (receipt: Option<Receipt>)
      requires Valid() && notes == [] && used == {} && usedVolumes == {}
      requires FreshNames(ops)
      modifies this, daemon
      ensures Valid()
      ensures receipt.Some? ==> var r := receipt.value;
                && r.ok == (!r.failed && r.cleanup == [])
                && r.remainingContainers + r.remainingVolumes <= |r.cleanup|
                && (r.remainingContainers + r.remainingVolumes == 0 ==> Gone(daemon.world, daemon.owner))
      ensures receipt.Some? && receipt.value.ok ==> Gone(daemon.world, daemon.owner)
      ensures daemon.undisturbed && old(Complete()) ==>
                receipt.Some? && receipt.value.cleanup == [] && Gone(daemon.world, daemon.owner)
    {
      var failed, i := false, 0;
      while i < |ops| && !failed
        invariant 0 <= i <= |ops| && Valid()
        invariant !failed ==> notes == []
        invariant used <= NamesOf(ops[..i]) && usedVolumes <= VolumeNamesOf(ops[..i])
        invariant daemon.undisturbed && old(Complete()) ==> Complete() && notes == []
      {
        FreshAt(ops, i);
        var ok := Perform(ops[i]);
        failed := !ok;
        i := i + 1;
      }
      var finished := Cleanup();
      if !finished {
        return None;
      }
      var good := !failed && notes == [];
      receipt := Some(Receipt(good, failed, notes, |containers|, |volumes|));
    }
  }

  // ---------------------------------------------------------------- fresh names

  function NamesOf(ops: seq<Op>): set<string> {
    set i | 0 <= i < |ops| && (ops[i].OpContainer? || ops[i].OpTool?) :: ops[i].name
  }

  function VolumeNamesOf(ops: seq<Op>): set<string> {
    set i | 0 <= i < |ops| && ops[i].OpVolume? :: ops[i].name
  }

  /** No name is drawn twice: names carry random parts. */
  ghost predicate FreshNames(ops: seq<Op>) {
    forall i :: 0 <= i < |ops| ==>
      && ((ops[i].OpContainer? || ops[i].OpTool?) ==> ops[i].name !in NamesOf(ops[..i]))
      && (ops[i].OpVolume? ==> ops[i].name !in VolumeNamesOf(ops[..i]))
  }

  lemma FreshAt(ops: seq<Op>, i: nat)
    requires i < |ops|
    ensures NamesOf(ops[..i + 1]) == NamesOf(ops[..i])
            + (if ops[i].OpContainer? || ops[i].OpTool? then {ops[i].name} else {})
    ensures VolumeNamesOf(ops[..i + 1]) == VolumeNamesOf(ops[..i])
            + (if ops[i].OpVolume? then {ops[i].name} else {})
  {
    var a, b := ops[..i], ops[..i + 1];
    assert forall j :: 0 <= j < i ==> a[j] == b[j];
    assert b[i] == ops[i];
    forall n
      ensures n in NamesOf(b) <==> n in NamesOf(a) || ((ops[i].OpContainer? || ops[i].OpTool?) && n == ops[i].name)
    {
      if n in NamesOf(b) {
        var j :| 0 <= j < |b| && (b[j].OpContainer? || b[j].OpTool?) && b[j].name == n;
        assert j < i ==> a[j].name == n;
      }
      if n in NamesOf(a) {
        var j :| 0 <= j < |a| && (a[j].OpContainer? || a[j].OpTool?) && a[j].name == n;
        assert b[j].name == n;
      }
    }
    forall n ensures n in VolumeNamesOf(b) <==> n in VolumeNamesOf(a) || (ops[i].OpVolume? && n == ops[i].name) {
      if n in VolumeNamesOf(b) {
        var j :| 0 <= j < |b| && b[j].OpVolume? && b[j].name == n;
        assert j < i ==> a[j].name == n;
      }
      if n in VolumeNamesOf(a) {
        var j :| 0 <= j < |a| && a[j].OpVolume? && a[j].name == n;
        assert b[j].name == n;
      }
    }
  }
}
