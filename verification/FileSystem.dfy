/**
  The system calls that extraction makes, on a tree that the process owns. Any
  call may fail for reasons outside this model, unless the file system is
  reliable. `escaped` is raised when a path leads out of the tree.
*/
module FileSystem {
  import opened Archive
  import opened FileTree

  /** What was changed: a file or directory made or filled, a symbolic link made,
      or the owner or mode of a directory set. */
  datatype Event = Placed(path: Path) | Linked(path: Path) | Stamped(path: Path)

  function Phase(e: Event): nat {
    match e
    case Placed(_) => 0
    case Linked(_) => 1
    case Stamped(_) => 2
  }

  /** Links come after all files, and directory metadata after all links; so far
      no phase behind this one. */
  predicate Phased(events: seq<Event>, phase: nat) {
    && (forall i, j :: 0 <= i < j < |events| ==> Phase(events[i]) <= Phase(events[j]))
    && (forall i :: 0 <= i < |events| ==> Phase(events[i]) <= phase)
  }

  /** Nothing happened but that files were filled. */
  ghost predicate OnlyPlaced(before: seq<Event>, after: seq<Event>) {
    before <= after && forall i :: |before| <= i < |after| ==> after[i].Placed?
  }

  datatype Outcome = Done | Exists | Failed

  datatype Stat = Found(node: Node) | Absent | Unknown

  class Files {
    const env: Env
    const reliable: bool
    var nodes: Nodes
    var escaped: bool
    ghost var events: seq<Event>

    constructor (env: Env, reliable: bool, destination: Node)
      ensures this.env == env && this.reliable == reliable
      ensures nodes == map[[] := destination] && !escaped && events == []
    {
      this.env, this.reliable := env, reliable;
      nodes := map[[] := destination];
      escaped := false;
      events := [];
    }

    /** Whether a call may go ahead in the tree. */
    method Admit(r: Route, follow: bool) returns (ok: bool)
      requires r.path != []
      modifies this`escaped
      ensures var place := env.Locate(nodes, r, follow);
              escaped == (old(escaped) || place == Outside)
              && (ok ==> place == Inside) && (reliable && place == Inside ==> ok)
    {
      var place := env.Locate(nodes, r, follow);
      escaped := escaped || place == Outside;
      ok := place == Inside;
      if !reliable {
        ok := *;
        ok := ok && place == Inside;
      }
    }

    /** Whether a call may make a name in the tree. */
    method AdmitNew(r: Route) returns (ok: bool)
      requires r.path != []
      modifies this`escaped
      ensures var place := env.LocateNew(nodes, r);
              escaped == (old(escaped) || place == Outside)
              && (ok ==> place == Inside) && (reliable && place == Inside ==> ok)
    {
      ok := Admit(r.Bare(), false);
      ok := ok && env.LocateNew(nodes, r) == Inside;
    }

    method Lstat(r: Route) returns (s: Stat)
      requires r.path != []
      modifies this`escaped
      ensures escaped == (old(escaped) || env.Locate(nodes, r, false) == Outside)
      ensures s.Found? ==> r.path in nodes && s.node == nodes[r.path]
      ensures s.Absent? ==> r.path !in nodes
      ensures reliable && env.Locate(nodes, r, false) == Inside ==> !s.Unknown?
    {
      var ok := Admit(r, false);
      if !ok {
        return Unknown;
      }
      return if r.path in nodes then Found(nodes[r.path]) else Absent;
    }

    method Mkdir(r: Route) returns (o: Outcome)
      requires r.path != []
      modifies this
      ensures escaped == (old(escaped) || env.LocateNew(old(nodes), r) == Outside)
      ensures o == Done ==> r.path !in old(nodes) && nodes == old(nodes)[r.path := env.NewDirectory()]
                            && events == old(events) + [Placed(r.path)]
      ensures o == Exists ==> r.path in nodes
      ensures o != Done ==> nodes == old(nodes) && events == old(events)
      ensures reliable && env.LocateNew(old(nodes), r) == Inside ==> o != Failed
    {
      var ok := AdmitNew(r);
      if !ok {
        return Failed;
      }
      if r.path in nodes {
        return Exists;
      }
      nodes := nodes[r.path := env.NewDirectory()];
      events := events + [Placed(r.path)];
      return Done;
    }

    /** open with O_CREAT and O_EXCL, which a slash at the end always defeats. */
    method Create(r: Route, perm: nat) returns (ok: bool)
      requires r.path != []
      modifies this
      ensures escaped == (old(escaped) || env.LocateNew(old(nodes), r) == Outside)
      ensures ok ==> !r.slash && r.path !in old(nodes)
                     && nodes == old(nodes)[r.path := File(env.mask(perm), env.caller, "")]
                     && events == old(events) + [Placed(r.path)]
      ensures !ok ==> nodes == old(nodes) && events == old(events)
      ensures reliable && env.LocateNew(old(nodes), r) == Inside ==>
                (ok <==> !r.slash && r.path !in old(nodes))
    {
      ok := AdmitNew(r);
      if !ok || r.slash || r.path in nodes {
        return false;
      }
      nodes := nodes[r.path := File(env.mask(perm), env.caller, "")];
      events := events + [Placed(r.path)];
    }

    /** write to an open file; it may take less than it is given. */
    method Write(p: Path, data: string) returns (written: int)
      requires p in nodes && nodes[p].File? && data != ""
      modifies this`nodes, this`events
      ensures written <= |data| && (reliable ==> written > 0)
      ensures nodes == if written <= 0 then old(nodes)
                       else var was := old(nodes)[p];
                            old(nodes)[p := File(was.perm, was.owner, was.data + data[..written])]
      ensures events == old(events) + if written <= 0 then [] else [Placed(p)]
    {
      written := *;
      if written > |data| || (reliable && written <= 0) {
        written := |data|;
      }
      if written > 0 {
        nodes := nodes[p := File(nodes[p].perm, nodes[p].owner, nodes[p].data + data[..written])];
        events := events + [Placed(p)];
      }
    }

    /** fchown, which only root asks for, fchmod and fsync of an open file. */
    method Seal(p: Path, mode: nat, uid: nat, gid: nat) returns (ok: bool)
      requires p in nodes && nodes[p].File? && nodes[p].owner == env.caller
      modifies this`nodes, this`events
      ensures events == old(events) || events == old(events) + [Placed(p)]
      ensures ok ==>
                events == old(events) + [Placed(p)]
                && nodes == old(nodes)[p := File(Permissions(mode), env.Chowned(env.caller, uid, gid),
                                                 old(nodes)[p].data)]
      ensures p in nodes && nodes[p].File? && nodes == old(nodes)[p := nodes[p]]
      ensures reliable ==> ok
    {
      ghost var before := nodes;
      ok := true;
      if !reliable {
        ok := *;
      }
      if !ok {
        assert nodes == nodes[p := nodes[p]];
        return;
      }
      nodes := nodes[p := File(nodes[p].perm, env.Chowned(env.caller, uid, gid), nodes[p].data)];
      events := events + [Placed(p)];
      assert nodes == before[p := nodes[p]];
      if !reliable {
        ok := *;
      }
      if !ok {
        return;
      }
      nodes := nodes[p := File(Permissions(mode), nodes[p].owner, nodes[p].data)];
      assert nodes == before[p := nodes[p]];
      if !reliable {
        ok := *;
      }
    }

    /** symlink; the kernel makes no link to an empty target. */
    method Symlink(target: string, r: Route) returns (ok: bool)
      requires r.path != []
      modifies this
      ensures escaped == (old(escaped) || env.LocateNew(old(nodes), r) == Outside)
      ensures ok ==> !r.slash && target != "" && r.path !in old(nodes) && nodes == old(nodes)[r.path := Link(target)]
                     && events == old(events) + [Linked(r.path)]
      ensures !ok ==> nodes == old(nodes) && events == old(events)
      ensures reliable && env.LocateNew(old(nodes), r) == Inside
              ==> (ok <==> !r.slash && target != "" && r.path !in old(nodes))
    {
      ok := AdmitNew(r);
      if !ok || r.slash || target == "" || r.path in nodes {
        return false;
      }
      nodes := nodes[r.path := Link(target)];
      events := events + [Linked(r.path)];
    }

    /** chown, which only root asks for, and chmod; both follow links. */
    method Stamp(r: Route, mode: nat, uid: nat, gid: nat) returns (ok: bool)
      requires r.path != [] && r.path in nodes && nodes[r.path].Directory?
      modifies this
      ensures escaped == (old(escaped) || env.Locate(old(nodes), r, true) == Outside)
      ensures ok ==> env.Locate(old(nodes), r, true) == Inside
                     && nodes == old(nodes)[r.path := Directory(Permissions(mode),
                                                                env.Chowned(old(nodes)[r.path].owner, uid, gid))]
      ensures r.path in nodes && nodes[r.path].Directory? && nodes == old(nodes)[r.path := nodes[r.path]]
      ensures events == old(events) || events == old(events) + [Stamped(r.path)]
      ensures reliable && env.Locate(old(nodes), r, true) == Inside ==> ok
    {
      ghost var before := nodes;
      ok := Admit(r, true);
      if !ok {
        assert nodes == nodes[r.path := nodes[r.path]];
        return;
      }
      nodes := nodes[r.path := Directory(nodes[r.path].perm, env.Chowned(nodes[r.path].owner, uid, gid))];
      events := events + [Stamped(r.path)];
      assert nodes == before[r.path := nodes[r.path]];
      if !reliable {
        ok := *;
      }
      if ok {
        nodes := nodes[r.path := Directory(Permissions(mode), nodes[r.path].owner)];
        assert nodes == before[r.path := nodes[r.path]];
      }
    }
  }
}
