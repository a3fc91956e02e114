/** The clients of the fixture: the directory installation, the background writer and the measured
    reads, with the number of requests they issue. Others may mutate between any two of its steps, and
    requests or answers may be lost, unless the client is said to be sole and reliable. */
module BenchClient {
  import opened Bytes
  import opened Options
  import opened BenchServer

  /** Equal but for the request counter. */
  predicate Same(s: State, t: State) {
    s.revision == t.revision && SameDirectory(s, t)
  }

  lemma CommitSame(s: State, t: State, c: Call)
    requires Same(s, t)
    ensures Commit(s, c).1 == Commit(t, c).1 && Same(Commit(s, c).0, Commit(t, c).0)
  {
  }

  /** What a successful mutation's response shows. */
  predicate Shows(s: State, m: Mutation) {
    match m
    case CreateUser(u) => u in s.accounts && s.accounts[u] == Ascii("id-") + u
    case CreateGroup(name) => name in s.directory && s.directory[name] == {}
    case AddMember(group, u) => group in s.directory && u in s.accounts && s.accounts[u] in s.directory[group]
  }

  class Client {
    const server: Server
    const sole: bool           // no other client mutates
    const reliable: bool       // every request is answered
    ghost var issued: nat      // requests issued
    ghost var conflicts: nat   // writes whose first attempt was refused

    constructor (server: Server, sole: bool, reliable: bool)
      ensures this.server == server && this.sole == sole && this.reliable == reliable
      ensures issued == 0 && conflicts == 0
    {
      this.server, this.sole, this.reliable := server, sole, reliable;
      issued, conflicts := 0, 0;
    }

    /** Steps of other clients. */
    method Interfere()
      modifies server
      ensures sole ==> Same(server.state, old(server.state))
    {
      if sole {
        var others: int := *;
        if others > 0 {
          server.state := server.state.(requests := server.state.requests + others);
        }
      } else {
        var steps: seq<Step> := *;
        server.state := At(server.state, steps, |steps|);
      }
    }

    /** A request or an answer can be lost, unless the connection is reliable. */
    method Lost() returns (lost: bool)
      ensures reliable ==> !lost
    {
      lost := *;
      lost := lost && !reliable;
    }

    method Read() returns (ok: bool, snapshot: State)
      modifies this`issued, server
      ensures snapshot == server.state && issued == old(issued) + 1 && (reliable ==> ok)
      ensures sole ==> Same(server.state, old(server.state))
    {
      Interfere();
      issued := issued + 1;
      snapshot := server.Count();
      var lost := Lost();
      ok := !lost;
    }

    /** One mutating request; status 0 stands for no answer, whether or not the mutation committed. */
    method Send(change: Mutation, revision: nat) returns (status: int)
      modifies this`issued, server
      ensures issued == old(issued) + 1 && (reliable ==> status != 0)
      ensures status == 200 ==> server.state.revision == revision + 1 && Shows(server.state, change)
      ensures sole && status != 0 ==>
                var c := Commit(old(server.state), Call(true, true, Some(Tag(revision)), change));
                status == c.1 && Same(server.state, c.0)
    {
      issued := issued + 1;
      Interfere();
      var lost := Lost();
      if lost {
        return 0;
      }
      var _ := server.Count();
      Interfere();
      ghost var before := server.state;
      var call := Call(true, true, Some(Tag(revision)), change);
      if sole {
        CommitSame(old(server.state), before, call);
      }
      status := server.CommitMutation(call);
      if status == 200 {
        CommitsOn(before, call);
        TagInjective(revision, before.revision);
      }
      lost := Lost();
      if lost {
        status := 0;
      }
    }

    /** `bound_write`: a conflict is answered by one refresh and one more attempt. The revision it
        returns is the server's. With no other mutator and the server's revision it never conflicts:
        it commits, or a lost request ends it. */
    method BoundWrite(change: Mutation, revision: nat) returns (r: Option<nat>)
      modifies this, server
      ensures r.Some? ==> server.state.revision == r.value && Shows(server.state, change)
      ensures old(conflicts) <= conflicts <= old(conflicts) + 1
      ensures issued <= old(issued) + 1 + 2 * (conflicts - old(conflicts))
      ensures r.Some? ==> issued == old(issued) + 1 + 2 * (conflicts - old(conflicts))
      ensures sole && revision == old(server.state.revision) && Apply(old(server.state), change).1 == 200 ==>
                && conflicts == old(conflicts) && (reliable ==> r.Some?)
                && (r.Some? ==> r == Some(revision + 1))
                && (r.Some? ==> SameDirectory(server.state, Apply(old(server.state), change).0))
    {
      var based := revision;
      ghost var direct :=
        sole && revision == old(server.state.revision) && Apply(old(server.state), change).1 == 200;
      for attempt := 1 to 3
        invariant issued == old(issued) + 2 * (attempt - 1) && conflicts == old(conflicts) + (attempt - 1)
        invariant attempt == 1 ==> based == revision && server.state == old(server.state)
        invariant attempt < 3
        invariant attempt == 2 ==> !direct
      {
        var status := Send(change, based);
        if status == 200 {
          return Some(based + 1);
        }
        if status != 409 || attempt == 2 {
          return None;
        }
        conflicts := conflicts + 1;
        var ok, current := Read();
        if !ok {
          return None;
        }
        based := current.revision;
      }
      return None;
    }
  }
}
