/** The container daemon as the publication fixture sees it. Other users act between any two
    commands, every command may fail or lose its reply, and a creation whose reply was lost may
    still take effect later. All of these are nondeterministic choices. */
module Daemon {

  /** The label of a container names the run that created it. */
  datatype Container = Container(name: string, owner: string, running: bool)

  datatype Volume = Volume(owner: string, createdAt: nat)

  /** The daemon's containers by identifier, and its volumes by name. Identifiers are never
      reused. `late` and `lateVolumes` are accepted creations that have not happened yet. */
  datatype World = World(containers: map<nat, Container>, nextId: nat, late: set<string>,
                         volumes: map<string, Volume>, lateVolumes: set<string>)

  predicate NamesUnique(w: World) {
    forall i, j ::
      (i in w.containers && j in w.containers && w.containers[i].name == w.containers[j].name) ==> i == j
  }

  predicate IdsUsed(w: World) {
    forall i :: i in w.containers ==> i < w.nextId
  }

  predicate NameFree(w: World, name: string) {
    forall i :: i in w.containers ==> w.containers[i].name != name
  }

  /** What may happen between two commands of the run `owner`: anything to the containers and
      volumes of others; to its own, only stopping, exiting, disappearing, and late creation. */
  predicate Drifts(w: World, w': World, owner: string) {
    && NamesUnique(w') && IdsUsed(w') && w.nextId <= w'.nextId
    && w'.late <= w.late && w'.lateVolumes <= w.lateVolumes
    && (forall i :: i in w'.containers && i < w.nextId ==>
          i in w.containers && w'.containers[i].name == w.containers[i].name
          && w'.containers[i].owner == w.containers[i].owner)
    && (forall i :: i in w'.containers && i >= w.nextId && w'.containers[i].owner == owner ==>
          w'.containers[i].name in w.late && w'.containers[i].name !in w'.late)
    && (forall n :: n in w'.volumes && w'.volumes[n].owner == owner ==>
          || (n in w.volumes && w.volumes[n] == w'.volumes[n])
          || (n in w.lateVolumes && n !in w'.lateVolumes))
  }

  /** The world after a creation, a stop and a removal that were carried out. */
  function Created(w: World, name: string, owner: string): World {
    w.(containers := w.containers[w.nextId := Container(name, owner, false)], nextId := w.nextId + 1)
  }

  function Stopped(w: World, id: nat): World
    requires id in w.containers
  {
    w.(containers := w.containers[id := w.containers[id].(running := false)])
  }

  function Removed(w: World, id: nat): World {
    w.(containers := w.containers - {id})
  }

  datatype Reply = Raised | Exit(code: int)

  /** `inspect` of a container. */
  datatype Seen = Unseen | Seen(id: nat, owner: string, running: bool)

  datatype SeenVolume = UnseenVolume | SeenVolume(owner: string, createdAt: nat)

  class Daemon {
    const owner: string
    const undisturbed: bool // no one else acts, no command is lost, and no signal arrives
    var world: World

    constructor (owner: string, undisturbed: bool, world: World)
      ensures this.owner == owner && this.undisturbed == undisturbed && this.world == world
    {
      this.owner, this.undisturbed, this.world := owner, undisturbed, world;
    }

    /** The others act. */
    method Drift()
      requires NamesUnique(world) && IdsUsed(world)
      modifies this`world
      ensures Drifts(old(world), world, owner)
      ensures undisturbed ==> world == old(world)
    {
      var w: World := *;
      if !undisturbed && Drifts(world, w, owner) {
        world := w;
      }
    }

    /** `docker container create --name name --label owner`: done at once, done late or not done;
        the reply 0 says that it was done. `w` is the world the command met. */
    method CreateContainer(name: string) returns (reply: Reply, done: bool, ghost w: World)
      requires NamesUnique(world) && IdsUsed(world)
      modifies this`world
      ensures Drifts(old(world), w, owner)
      ensures reply == Exit(0) ==> done
      ensures if done then
                && NameFree(w, name)
                && world == Created(w, name, owner)
              else world == w || world == w.(late := w.late + {name})
      ensures undisturbed && NameFree(old(world), name) ==> reply == Exit(0) && w == old(world)
    {
      Drift();
      w := world;
      var late: bool := *;
      done, reply := *, *;
      if undisturbed {
        done, reply := true, Exit(0);
      }
      done := done && NameFree(world, name);
      if done {
        world := Created(world, name, owner);
      } else {
        if late {
          world := world.(late := world.late + {name});
        }
        if reply == Exit(0) {
          reply := Raised;
        }
      }
    }

    /** `docker container inspect name`. */
    method InspectContainer(name: string) returns (seen: Seen)
      requires NamesUnique(world) && IdsUsed(world)
      modifies this`world
      ensures Drifts(old(world), world, owner)
      ensures seen.Seen? ==>
                && seen.id in world.containers
                && world.containers[seen.id] == Container(name, seen.owner, seen.running)
      ensures undisturbed ==> world == old(world) && (seen.Seen? <==> !NameFree(world, name))
    {
      Drift();
      seen := Unseen;
      var answered: bool := *;
      if (undisturbed || answered) && !NameFree(world, name) {
        var id :| id in world.containers && world.containers[id].name == name;
        seen := Seen(id, world.containers[id].owner, world.containers[id].running);
      }
    }

    /** `docker container ls --all`: whether the listing succeeded without the name. */
    method ContainerAbsent(name: string) returns (absent: bool)
      requires NamesUnique(world) && IdsUsed(world)
      modifies this`world
      ensures Drifts(old(world), world, owner)
      ensures absent ==> NameFree(world, name)
      ensures undisturbed ==> world == old(world) && absent == NameFree(world, name)
    {
      Drift();
      var answered: bool := *;
      absent := (undisturbed || answered) && NameFree(world, name);
    }

    /** `docker container stop id` or `docker container start name`, seen from the outside: it may
        change whether containers run. */
    method StopContainer(id: nat) returns (reply: Reply)
      requires NamesUnique(world) && IdsUsed(world)
      modifies this`world
      ensures Drifts(old(world), world, owner)
      ensures undisturbed && id in old(world.containers) ==> reply == Exit(0) && world == Stopped(old(world), id)
    {
      Drift();
      reply := *;
      if undisturbed {
        reply := Exit(0);
      }
      if id in world.containers {
        world := Stopped(world, id);
      }
    }

    /** `docker container rm id`, which a running container refuses; the reply 0 says that it was done. */
    method RemoveContainer(id: nat) returns (reply: Reply, ghost w: World)
      requires NamesUnique(world) && IdsUsed(world)
      modifies this`world
      ensures Drifts(old(world), w, owner)
      ensures world == w || world == Removed(w, id)
      ensures reply == Exit(0) ==> id in w.containers && !w.containers[id].running && world == Removed(w, id)
      ensures undisturbed ==> w == old(world)
      ensures undisturbed && id in w.containers && !w.containers[id].running ==> reply == Exit(0)
    {
      Drift();
      w := world;
      var done: bool := *;
      reply := *;
      if undisturbed {
        done, reply := true, Exit(0);
      }
      if done && id in world.containers && !world.containers[id].running {
        world := Removed(world, id);
      } else if reply == Exit(0) {
        reply := Raised;
      }
    }

    /** `docker volume create --label owner name`; a taken name is reported as done unchanged. */
    method CreateVolume(name: string) returns (reply: Reply, done: bool, ghost w: World, ghost at: nat)
      requires NamesUnique(world) && IdsUsed(world)
      modifies this`world
      ensures Drifts(old(world), w, owner)
      ensures reply == Exit(0) ==> done
      ensures if done then
                if name in w.volumes then world == w
                else world == w.(volumes := w.volumes[name := Volume(owner, at)])
              else world == w || world == w.(lateVolumes := w.lateVolumes + {name})
      ensures undisturbed ==> reply == Exit(0) && w == old(world)
    {
      Drift();
      w, at := world, 0;
      var late: bool := *;
      done, reply := *, *;
      if undisturbed {
        done, reply := true, Exit(0);
      }
      if done {
        var now: nat := *;
        at := now;
        if name !in world.volumes {
          world := world.(volumes := world.volumes[name := Volume(owner, now)]);
        }
      } else {
        if late {
          world := world.(lateVolumes := world.lateVolumes + {name});
        }
        if reply == Exit(0) {
          reply := Raised;
        }
      }
    }

    /** `docker volume inspect name`. */
    method InspectVolume(name: string) returns (seen: SeenVolume)
      requires NamesUnique(world) && IdsUsed(world)
      modifies this`world
      ensures Drifts(old(world), world, owner)
      ensures seen.SeenVolume? ==>
                name in world.volumes && world.volumes[name] == Volume(seen.owner, seen.createdAt)
      ensures undisturbed ==> world == old(world) && (seen.SeenVolume? <==> name in world.volumes)
    {
      Drift();
      seen := UnseenVolume;
      var answered: bool := *;
      if (undisturbed || answered) && name in world.volumes {
        seen := SeenVolume(world.volumes[name].owner, world.volumes[name].createdAt);
      }
    }

    /** `docker volume ls`: whether the listing succeeded without the name. */
    method VolumeAbsent(name: string) returns (absent: bool)
      requires NamesUnique(world) && IdsUsed(world)
      modifies this`world
      ensures Drifts(old(world), world, owner)
      ensures absent ==> name !in world.volumes
      ensures undisturbed ==> world == old(world) && absent == (name !in world.volumes)
    {
      Drift();
      var answered: bool := *;
      absent := (undisturbed || answered) && name !in world.volumes;
    }

    /** `docker volume rm name`. */
    method RemoveVolume(name: string) returns (reply: Reply, ghost w: World)
      requires NamesUnique(world) && IdsUsed(world)
      modifies this`world
      ensures Drifts(old(world), w, owner)
      ensures world == w || world == w.(volumes := w.volumes - {name})
      ensures undisturbed ==> w == old(world) && reply == Exit(0) && world == w.(volumes := w.volumes - {name})
    {
      Drift();
      w := world;
      reply := *;
      var done: bool := *;
      if undisturbed {
        done, reply := true, Exit(0);
      }
      if done {
        world := world.(volumes := world.volumes - {name});
      }
    }
  }
}
