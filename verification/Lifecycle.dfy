/**
 * Mounting with fallback and tearing down, as operations on the resources they
 * own: server threads, their flags, and socket directories. Every foreign call
 * is an outcome that may go either way.
 */
module Lifecycle {
  import opened Wrappers

  datatype Transport = LocalSocket | Tcp
  datatype Error = Preflight | LocalFailed | TcpFailed

  /** What a mount does to end something, in order. */
  datatype Event = Unmounted(ok: bool) | MountOff(thread: nat) | StopSet(thread: nat) | Joined(thread: nat) | DirRemoved(dir: nat)

  /** The resources of the process. Threads and directories are named by the order they were made in. */
  class Host {
    var spawned: nat
    var running: set<nat>       // server threads not yet joined
    var stopped: set<nat>       // threads whose stop flag is set
    var answering: set<nat>     // threads that answer the MOUNT program
    var made: nat
    var dirs: set<nat>          // socket directories whose removal has not been attempted
    var events: seq<Event>

    ghost predicate Valid()
      reads this
    {
      && (forall t | t in running :: t < spawned)
      && (forall t | t in stopped :: t < spawned)
      && (forall t | t in answering :: t < spawned)
      && (forall d | d in dirs :: d < made)
      && forall t: nat | Joined(t) in events :: t < spawned && t !in running
    }

    constructor ()
      ensures Valid() && running == {} && dirs == {} && events == []
    {
      spawned, running, stopped, answering, made, dirs, events := 0, {}, {}, {}, 0, {}, [];
    }

    method MakeDir() returns (d: nat)
      requires Valid()
      modifies `made, `dirs
      ensures Valid() && d == old(made) && d !in old(dirs) && dirs == old(dirs) + {d} && made == d + 1
    {
      d := made;
      made, dirs := made + 1, dirs + {d};
    }

    method RemoveDir(d: nat)
      requires Valid()
      modifies `dirs, `events
      ensures Valid() && dirs == old(dirs) - {d} && events == old(events) + [DirRemoved(d)]
    {
      dirs, events := dirs - {d}, events + [DirRemoved(d)];
    }

    method Spawn(answersMount: bool) returns (t: nat)
      requires Valid()
      modifies `spawned, `running, `answering
      ensures Valid() && t == old(spawned) && spawned == t + 1
      ensures t !in old(running) && t !in stopped && running == old(running) + {t}
      ensures answering == if answersMount then old(answering) + {t} else old(answering)
    {
      t := spawned;
      spawned, running := spawned + 1, running + {t};
      answering := if answersMount then answering + {t} else answering;
    }

    method ClearMount(t: nat)
      requires Valid()
      modifies `answering, `events
      ensures Valid() && answering == old(answering) - {t} && events == old(events) + [MountOff(t)]
    {
      answering, events := answering - {t}, events + [MountOff(t)];
    }

    method SetStop(t: nat)
      requires Valid() && t < spawned
      modifies `stopped, `events
      ensures Valid() && stopped == old(stopped) + {t} && events == old(events) + [StopSet(t)]
    {
      stopped, events := stopped + {t}, events + [StopSet(t)];
    }

    /** Joining a thread that was not told to stop would wait forever, so it is not allowed. */
    method Join(t: nat)
      requires Valid() && t in running && t in stopped
      modifies `running, `events
      ensures Valid() && running == old(running) - {t} && events == old(events) + [Joined(t)]
    {
      running, events := running - {t}, events + [Joined(t)];
    }

    method NoteUnmount(ok: bool)
      requires Valid()
      modifies `events
      ensures Valid() && events == old(events) + [Unmounted(ok)]
    {
      events := events + [Unmounted(ok)];
    }
  }

  /** How every foreign call of one mount turns out. */
  datatype Outcomes = Outcomes(
    preflight: bool,
    createDir: bool, pathIsUtf8: bool, pathFits: bool, bindLocal: bool, restrict: bool, mountCall: bool, verify: bool,
    cleanup: bool,
    bindTcp: bool, localAddr: bool, mountNfs: bool)

  predicate LocalWorks(o: Outcomes) {
    o.createDir && o.pathIsUtf8 && o.pathFits && o.bindLocal && o.restrict && o.mountCall && o.verify
  }

  predicate TcpWorks(o: Outcomes) {
    o.bindTcp && o.localAddr && o.mountNfs
  }

  datatype NfsHandle = NfsHandle(thread: nat, transport: Transport, dir: Option<nat>)

  /** The handle owns exactly one live thread that was not there before, not stopped and not answering MOUNT. */
  twostate predicate Owns(host: Host, handle: NfsHandle)
    reads host
  {
    && handle.thread !in old(host.running) && host.running == old(host.running) + {handle.thread}
    && handle.thread !in host.stopped && handle.thread !in host.answering
    && host.dirs == (if handle.dir.Some? then old(host.dirs) + {handle.dir.value} else old(host.dirs))
    && (handle.dir.Some? ==> handle.dir.value !in old(host.dirs))
  }

  /** Nothing the attempt acquired is left: no thread, and no directory without a removal attempt. */
  twostate predicate Released(host: Host)
    reads host
  {
    host.running == old(host.running) && host.dirs == old(host.dirs)
  }

  /** The local transport gets as far as starting its server. */
  predicate LocalSpawns(o: Outcomes) {
    o.createDir && o.pathIsUtf8 && o.pathFits && o.bindLocal && o.restrict
  }

  method MountIn(host: Host, o: Outcomes, dir: nat) returns (r: Result<NfsHandle, Error>)
    requires host.Valid()
    modifies host
    ensures host.Valid() && host.dirs == old(host.dirs) && host.made == old(host.made)
    ensures r.Ok? <==> o.pathIsUtf8 && o.pathFits && o.bindLocal && o.restrict && o.mountCall && o.verify
    ensures r.Ok? ==>
              && r.value.transport == LocalSocket && r.value.dir == Some(dir)
              && r.value.thread !in old(host.running) && host.running == old(host.running) + {r.value.thread}
              && r.value.thread !in host.stopped && r.value.thread !in host.answering
    ensures r.Err? ==> host.running == old(host.running)
    ensures host.spawned == if o.pathIsUtf8 && o.pathFits && o.bindLocal && o.restrict then old(host.spawned) + 1 else old(host.spawned)
    ensures
      var t := old(host.spawned);
      host.events ==
      if r.Err? && host.spawned == t + 1 then old(host.events) + [Unmounted(o.cleanup), StopSet(t), Joined(t)]
      else old(host.events)
  {
    if !o.pathIsUtf8 || !o.pathFits || !o.bindLocal || !o.restrict {
      return Err(LocalFailed);
    }
    var t := host.Spawn(false);
    if !(o.mountCall && o.verify) {
      // A mount may be in place, so it is taken down before its server stops.
      host.NoteUnmount(o.cleanup);
      host.SetStop(t);
      host.Join(t);
      return Err(LocalFailed);
    }
    return Ok(NfsHandle(t, LocalSocket, Some(dir)));
  }

  method MountLocal(host: Host, o: Outcomes) returns (r: Result<NfsHandle, Error>)
    requires host.Valid()
    modifies host
    ensures host.Valid()
    ensures r.Ok? <==> LocalWorks(o)
    ensures r.Ok? ==> Owns(host, r.value) && r.value.transport == LocalSocket && r.value.dir.Some?
    ensures r.Err? ==> Released(host)
    ensures host.spawned == if LocalSpawns(o) then old(host.spawned) + 1 else old(host.spawned)
    ensures
      var t, d := old(host.spawned), old(host.made);
      host.events == old(host.events) +
      if r.Ok? || !o.createDir then []
      else if LocalSpawns(o) then [Unmounted(o.cleanup), StopSet(t), Joined(t), DirRemoved(d)]
      else [DirRemoved(d)]
  {
    if !o.createDir {
      return Err(LocalFailed);
    }
    var dir := host.MakeDir();
    r := MountIn(host, o, dir);
    if r.Err? {
      host.RemoveDir(dir);
    }
  }

  method MountTcp(host: Host, o: Outcomes) returns (r: Result<NfsHandle, Error>)
    requires host.Valid()
    modifies host
    ensures host.Valid()
    ensures r.Ok? <==> TcpWorks(o)
    ensures r.Ok? ==> Owns(host, r.value) && r.value == NfsHandle(r.value.thread, Tcp, None)
    ensures r.Err? ==> Released(host)
    ensures
      var t := old(host.spawned);
      host.events == old(host.events) +
      if !o.bindTcp || !o.localAddr then [] else if r.Ok? then [MountOff(t)] else [MountOff(t), StopSet(t), Joined(t)]
  {
    if !o.bindTcp || !o.localAddr {
      return Err(TcpFailed);
    }
    var t := host.Spawn(true);
    var mounted := o.mountNfs;
    // Whether or not the mount succeeded, MOUNT is not answered from here on.
    host.ClearMount(t);
    if !mounted {
      host.SetStop(t);
      host.Join(t);
      return Err(TcpFailed);
    }
    return Ok(NfsHandle(t, Tcp, None));
  }

  /** Which transports are compiled in. */
  datatype Features = Features(localSocket: bool, tcp: bool)

  /**
   * Local socket first, TCP as the fallback. A failed mount leaves nothing; a
   * successful one owns one thread; and a caller that requires the local socket
   * never gets TCP, whatever is compiled in.
   */
  method Mount(host: Host, features: Features, requireLocal: bool, o: Outcomes) returns (r: Result<NfsHandle, Error>)
    requires host.Valid()
    requires features.localSocket || features.tcp
    modifies host
    ensures host.Valid()
    ensures r.Ok? <==> o.preflight
                       && ((features.localSocket && LocalWorks(o)) || (features.tcp && !requireLocal && TcpWorks(o)))
    ensures r.Ok? ==> Owns(host, r.value)
    ensures r.Ok? ==> (r.value.transport == LocalSocket <==> features.localSocket && LocalWorks(o))
    ensures r.Ok? ==> (r.value.dir.Some? <==> r.value.transport == LocalSocket)
    ensures r.Ok? && requireLocal ==> r.value.transport == LocalSocket
    ensures r.Err? ==> Released(host)
    ensures
      var t, d := old(host.spawned), old(host.made);
      var local := o.preflight && features.localSocket;
      var tcp := o.preflight && features.tcp && !requireLocal && !(local && LocalWorks(o)) && o.bindTcp && o.localAddr;
      var next := if local && LocalSpawns(o) then t + 1 else t;
      host.events == old(host.events)
      + (if local && LocalSpawns(o) && !LocalWorks(o) then [Unmounted(o.cleanup), StopSet(t), Joined(t)] else [])
      + (if local && o.createDir && !LocalWorks(o) then [DirRemoved(d)] else [])
      + (if tcp then [MountOff(next)] else [])
      + (if tcp && !o.mountNfs then [StopSet(next), Joined(next)] else [])
  {
    if !o.preflight || (requireLocal && !features.localSocket) {
      return Err(Preflight);
    }
    if features.localSocket {
      r := MountLocal(host, o);
      if r.Ok? || requireLocal {
        return;
      }
    }
    if features.tcp {
      r := MountTcp(host, o);
    }
  }

  // ---------------------------------------------------------------- teardown

  function TeardownEvents(handle: NfsHandle, ok: bool): seq<Event> {
    [Unmounted(ok), StopSet(handle.thread), Joined(handle.thread)]
    + (if handle.dir.Some? then [DirRemoved(handle.dir.value)] else [])
  }

  /** The client-side mount goes first, then the server, then its directory, even if unmounting fails. */
  method Unmount(host: Host, handle: NfsHandle, ok: bool) returns (reported: bool)
    requires host.Valid() && handle.thread in host.running
    modifies host
    ensures host.Valid() && reported == ok
    ensures host.running == old(host.running) - {handle.thread}
    ensures host.dirs == (if handle.dir.Some? then old(host.dirs) - {handle.dir.value} else old(host.dirs))
    ensures host.events == old(host.events) + [Unmounted(ok), StopSet(handle.thread), Joined(handle.thread)]
                           + (if handle.dir.Some? then [DirRemoved(handle.dir.value)] else [])
  {
    host.NoteUnmount(ok);
    host.SetStop(handle.thread);
    host.Join(handle.thread);
    if handle.dir.Some? {
      host.RemoveDir(handle.dir.value);
    }
    return ok;
  }

  /** A live mount; `inner` is taken by whichever of the two teardowns comes first. */
  class MountObject {
    var inner: Option<NfsHandle>

    constructor (handle: NfsHandle)
      ensures inner == Some(handle)
    {
      inner := Some(handle);
    }

    method Close(host: Host, ok: bool) returns (reported: bool)
      requires host.Valid() && (inner.Some? ==> inner.value.thread in host.running)
      modifies this, host
      ensures host.Valid() && inner == None
      ensures old(inner).None? ==>
                reported && host.running == old(host.running) && host.dirs == old(host.dirs) && host.events == old(host.events)
      ensures old(inner).Some? ==>
                && reported == ok
                && host.running == old(host.running) - {old(inner).value.thread}
                && host.dirs == (if old(inner).value.dir.Some? then old(host.dirs) - {old(inner).value.dir.value} else old(host.dirs))
                && host.events == old(host.events) + TeardownEvents(old(inner).value, ok)
    {
      match inner
      case Some(handle) =>
        inner := None;
        reported := Unmount(host, handle, ok);
      case None => return true;
    }
  }

  /**
   * A whole life: mount, perhaps unmount explicitly, then drop. If the mount
   * succeeded, teardown runs exactly once and joins the thread; either way the
   * process is left with the threads and directories it had.
   */
  method Life(host: Host, features: Features, requireLocal: bool, o: Outcomes, explicitly: bool, ok: bool)
    returns (r: Result<NfsHandle, Error>)
    requires host.Valid()
    requires features.localSocket || features.tcp
    modifies host
    ensures host.Valid() && Released(host)
    ensures r.Ok? ==> exists before :: host.events == before + TeardownEvents(r.value, ok) && Joined(r.value.thread) !in before
  {
    r := Mount(host, features, requireLocal, o);
    if r.Ok? {
      ghost var before := host.events;
      var mount := new MountObject(r.value);
      if explicitly {
        var reported := mount.Close(host, ok);
      }
      var dropped := mount.Close(host, ok);
      assert host.events == before + TeardownEvents(r.value, ok);
    }
  }
}
