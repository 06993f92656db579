/**
 * FEngine: the replication engine. It owns the objects it replicates (held by reference, in
 * creation order), talks to its peers through the network manager, and creates objects from
 * the classes registered in the class factory. Every operation with a mode-dependent effect
 * is gated on `Init` having succeeded; the effects are proved against the value model of
 * module Worlds, EventEffects and Snapshots, reached through `State()`.
 */
module Engines {
  import opened Options
  import opened Bytes
  import opened Buffers
  import opened Streams
  import opened NetTypes
  import opened Registries
  import opened Properties
  import opened Objects
  import opened NetObjects
  import opened Factories
  import opened Worlds
  import opened EventEffects
  import opened Snapshots
  import M = Managers
  import Ev = Events

  /** The value an object stands for. */
  function ViewOf(o: NetObject): View
    reads o
  {
    View(o.guid, o.role, o.className, o.properties, o.functions, o.calls)
  }

  /** The class name `PlayerJoinGame` creates a player's object with. */
  const CHARACTER_ACTOR: Name := [67, 104, 97, 114, 97, 99, 116, 101, 114, 65, 99, 116, 111, 114]

  /**
   * What the manager did between two states: it broadcast the events `es`, in order, to the
   * same peers, so every peer's events frame ends with the events pushed one after another
   * (`Managers.Manager.BroadcastEvent` appends each to every frame), and with no event it
   * touched no frame.
   */
  twostate predicate Broadcast(m: M.Manager, es: seq<Ev.Event>)
    reads m`remotes, m`broadcasts, m.Frames()
  {
    && m.remotes == old(m.remotes) && m.broadcasts == old(m.broadcasts) + es
    && (es != [] ==> forall i :: 0 <= i < |m.remotes| ==>
          m.remotes[i].eventsFrame.Valid() && m.remotes[i].eventsFrame.data == old(m.remotes[i].eventsFrame.data) + Ev.EncodeFrame(es))
    && (es == [] ==> unchanged(m.Frames()))
  }

  class Engine {
    const guid: Guid
    const manager: M.Manager
    /** The process-wide FEngineClassFactory, shared by every engine. */
    const factory: ClassFactory
    const replicationFrame: Buffer
    var mode: Mode
    var initialized: bool
    var objects: seq<NetObject>
    /** What `objects` stands for: the value of each object, in list order. */
    ghost var views: seq<View>
    /** The `OnObjectCreated` / `OnObjectRemoved` calls so far. */
    ghost var notes: seq<Note>

    ghost function State(): World
      reads this`views, this`notes
    {
      World(views, notes)
    }

    /** What the operations consult: the mode, the engine's GUID and the registered classes. */
    function Config(): Setup
      reads this`mode, factory
    {
      Setup(mode, guid, factory.classes)
    }

    /** `views` holds the current value of every object. */
    ghost predicate Coupled()
      reads this`views, this`objects, objects
    {
      |views| == |objects| && forall i :: 0 <= i < |objects| ==> views[i] == ViewOf(objects[i])
    }

    ghost predicate Valid()
      reads this`views, this`objects, objects, factory, manager`remotes
    {
      factory.Valid() && manager.Valid() && ValidObjects(views) && Coupled()
    }

    /** Objects with distinct GUIDs are distinct objects. */
    lemma Distinct()
      requires Valid()
      ensures forall i, j :: 0 <= i < j < |objects| ==> objects[i] != objects[j]
    {
      forall i, j | 0 <= i < j < |objects| ensures objects[i] != objects[j] {
        assert views[i].guid != views[j].guid;
      }
    }

    /** `FEngine(GUID, manager)`: not initialized, no objects, an empty replication frame. */
    constructor (g: Guid, m: M.Manager, f: ClassFactory)
      requires m.Valid() && f.Valid()
      ensures Valid()
      ensures guid == g && manager == m && factory == f && !initialized && objects == [] && State() == World([], [])
      ensures fresh(replicationFrame) && replicationFrame.data == []
    {
      guid := g;
      manager := m;
      factory := f;
      replicationFrame := new Buffer(0);
      mode := Client;
      initialized := false;
      objects := [];
      views := [];
      notes := [];
    }

    /**
     * Sets the mode; the engine is initialized when the `OnInit` hook and then the manager's
     * `Init` (asked only when the hook succeeded) both succeed.
     */
    method Init(m: Mode, onInit: bool, managerOnInit: bool) returns (ok: bool)
      requires !initialized
      modifies this`mode, this`initialized
      ensures mode == m && initialized == ok && (ok <==> onInit && managerOnInit)
    {
      mode := m;
      initialized := true;
      initialized := initialized && onInit;
      if initialized {
        initialized := manager.Init(managerOnInit);
      }
      ok := initialized;
    }

    /** Drops every object (without the `OnObjectRemoved` hook) and leaves the engine uninitialized. */
    method Shutdown()
      requires Valid() && initialized
      modifies this`objects, this`views, this`initialized
      ensures Valid() && !initialized && objects == [] && State() == World([], old(notes))
    {
      objects := [];
      views := [];
      initialized := false;
    }

    /** The first object with the GUID, or null. */
    method GetObjectByGUID(g: Guid) returns (o: NetObject?)
      requires Valid()
      ensures o == if g in GuidsOf(views) then objects[IndexOf(GuidsOf(views), g).value] else null
    {
      ghost var gs := GuidsOf(views);
      var i := 0;
      while i < |objects|
        invariant i <= |objects| && g !in gs[..i]
      {
        assert gs[i] == views[i].guid == objects[i].guid;
        if objects[i].guid == g {
          assert IndexOf(gs, g) == Some(i);
          return objects[i];
        }
        assert gs[..i + 1] == gs[..i] + [objects[i].guid];
        i := i + 1;
      }
      assert gs[..i] == gs;
      return null;
    }

    /** `FEngine::RegisterClass`: registers the creator with the shared factory. */
    method RegisterClass(className: Name, creator: Schema) returns (ok: bool)
      requires factory.Valid() && AllWellTyped(creator.properties)
      modifies factory
      ensures factory.Valid()
      ensures (ok, factory.classes) == Register(old(factory.classes), className, creator)
      ensures ok <==> !HasKey(old(factory.classes), className)
    {
      ok := factory.RegisterClass(className, creator);
    }

    /**
     * Creates an object of a registered class with the given role and adds it at the end of
     * the list; null when uninitialized, when the class is unknown or when the GUID is taken.
     */
    method CreateObjectByClassName(g: Guid, className: Name, role: Role) returns (o: NetObject?)
      requires Valid() && ValidRole(role)
      modifies this`objects, this`views
      ensures Valid()
      ensures objects == old(objects) + if o == null then [] else [o]
      ensures o != null ==> fresh(o)
      ensures var c := CreateByName(old(views), factory.classes, g, className, role);
        && (o != null <==> initialized && c.Some?)
        && views == old(views) + if o == null then [] else [c.value]
    {
      if !initialized {
        return null;
      }
      var creator := factory.FindClass(className);
      if creator.None? {
        return null;
      }
      var existing := GetObjectByGUID(g);
      if existing != null {
        return null;
      }
      FoundClassValid(factory.classes, className);
      CreateByNameValid(views, factory.classes, g, className, role);
      o := new NetObject(g, role, className, creator.value);
      Append(o, NewView(g, role, className, creator.value));
    }

    /** `_objects.push_back(object)`. */
    method Append(o: NetObject, ghost v: View)
      requires Valid() && ViewOf(o) == v && ValidObjects(views + [v])
      modifies this`objects, this`views
      ensures Valid() && objects == old(objects) + [o] && views == old(views) + [v]
    {
      objects := objects + [o];
      views := views + [v];
    }

    /**
     * `remove_if` then `erase`: keeps the other objects in their order and returns the object
     * dropped (the last one with the GUID), or null.
     */
    method RemoveObjectByGUID(g: Guid) returns (o: NetObject?)
      requires Valid()
      modifies this`objects, this`views
      ensures Valid()
      ensures !initialized ==> o == null && objects == old(objects) && views == old(views)
      ensures initialized ==> views == Drop(old(views), g) && (o != null <==> g in GuidsOf(old(views)))
      ensures o != null ==> o in old(objects) && o.guid == g
      ensures forall x :: x in objects ==> x in old(objects)
    {
      if !initialized {
        return null;
      }
      ghost var vs := views;
      var kept;
      ghost var rest;
      kept, rest, o := Filter(objects, views, g);
      AbsentGuids(vs, g);
      DropValid(vs, g);
      objects := kept;
      views := rest;
    }

    /**
     * A Client makes a Proxy|RemoteProxy object, a Server an Authority|RemoteProxy one that it
     * announces to its peers as owned by itself.
     */
    method CreateObjectStatic(g: Guid, className: Name) returns (o: NetObject?)
      requires Valid()
      modifies this`objects, this`views, manager`broadcasts, manager.Frames()
      ensures Valid()
      ensures objects == old(objects) + if o == null then [] else [o]
      ensures o != null ==> fresh(o)
      ensures var c := CreateByName(old(views), factory.classes, g, className, StaticRole(mode));
        && (o != null <==> initialized && c.Some?)
        && views == old(views) + if o == null then [] else [c.value]
      ensures Broadcast(manager, if o != null && mode == Server then [Ev.CreateObject(g, className, guid)] else [])
    {
      o := CreateObjectByClassName(g, className, StaticRole(mode));
      if o != null && mode == Server {
        BroadcastEventCreateObject(g, guid, className);
      }
    }

    /** Removes by GUID; a Server announces a removal to its peers. */
    method RemoveObjectStatic(g: Guid) returns (o: NetObject?)
      requires Valid()
      modifies this`objects, this`views, manager`broadcasts, manager.Frames()
      ensures Valid()
      ensures !initialized ==> o == null && views == old(views)
      ensures initialized ==> views == Drop(old(views), g) && (o != null <==> g in GuidsOf(old(views)))
      ensures o != null ==> o in old(objects) && o.guid == g
      ensures Broadcast(manager, if o != null && mode == Server then [Ev.RemoveObject(g)] else [])
    {
      o := RemoveObjectByGUID(g);
      if o != null && mode == Server {
        BroadcastEventRemoveObject(g);
      }
    }

    /**
     * Creates with the role `DynamicRole` gives for the owner; a created object runs the
     * `OnObjectCreated` hook and, on a Server, is announced with its owner.
     */
    method CreateObjectDynamic(g: Guid, owner: Guid, className: Name) returns (o: NetObject?)
      requires Valid()
      modifies this`objects, this`views, this`notes, manager`broadcasts, manager.Frames()
      ensures Valid()
      ensures objects == old(objects) + if o == null then [] else [o]
      ensures o != null ==> fresh(o)
      ensures !initialized ==> o == null && State() == old(State())
      ensures initialized ==> var (c, w) := CreateDynamic(old(State()), Config(), g, owner, className);
        State() == w && (o != null <==> c.Some?)
      ensures Broadcast(manager, if o != null && mode == Server then [Ev.CreateObject(g, className, owner)] else [])
    {
      if !initialized {
        return null;
      }
      o := Spawn(g, owner, className);
      if o != null && mode == Server {
        BroadcastEventCreateObject(g, owner, className);
      }
    }

    /** The creation and the `OnObjectCreated` hook of `CreateObjectDynamic`, before any announcement. */
    method Spawn(g: Guid, owner: Guid, className: Name) returns (o: NetObject?)
      requires Valid() && initialized
      modifies this`objects, this`views, this`notes
      ensures Valid()
      ensures objects == old(objects) + if o == null then [] else [o]
      ensures o != null ==> fresh(o)
      ensures var (c, w) := CreateDynamic(old(State()), Config(), g, owner, className);
        State() == w && (o != null <==> c.Some?)
    {
      o := CreateObjectByClassName(g, className, DynamicRole(mode, owner, guid));
      if o != null {
        OnObjectCreated(g);
      }
    }

    /** Removes by GUID; a removed object runs the `OnObjectRemoved` hook and, on a Server, is announced. */
    method RemoveObjectDynamic(g: Guid) returns (o: NetObject?)
      requires Valid()
      modifies this`objects, this`views, this`notes, manager`broadcasts, manager.Frames()
      ensures Valid()
      ensures !initialized ==> o == null && State() == old(State())
      ensures initialized ==> var (found, w) := RemoveDynamic(old(State()), g);
        State() == w && (o != null <==> found)
      ensures o != null ==> o in old(objects) && o.guid == g
      ensures forall x :: x in objects ==> x in old(objects)
      ensures Broadcast(manager, if o != null && mode == Server then [Ev.RemoveObject(g)] else [])
    {
      if !initialized {
        return null;
      }
      o := Withdraw(g);
      if o != null && mode == Server {
        BroadcastEventRemoveObject(g);
      }
    }

    /** The removal and the `OnObjectRemoved` hook of `RemoveObjectDynamic`, before any announcement. */
    method Withdraw(g: Guid) returns (o: NetObject?)
      requires Valid() && initialized
      modifies this`objects, this`views, this`notes
      ensures Valid()
      ensures var (found, w) := RemoveDynamic(old(State()), g); State() == w && (o != null <==> found)
      ensures o != null ==> o in old(objects) && o.guid == g
      ensures forall x :: x in objects ==> x in old(objects)
    {
      ghost var w0 := State();
      o := RemoveObjectByGUID(g);
      RemoveDynamicIs(w0, g, views, o != null);
      if o != null {
        OnObjectRemoved(g);
      }
    }

    /** The `OnObjectCreated` hook, which a derived engine overrides; the model records the call. */
    method OnObjectCreated(g: Guid)
      requires Valid()
      modifies this`notes
      ensures Valid() && notes == old(notes) + [Created(g)]
    {
      notes := notes + [Created(g)];
    }

    /** The `OnObjectRemoved` hook, recorded the same way. */
    method OnObjectRemoved(g: Guid)
      requires Valid()
      modifies this`notes
      ensures Valid() && notes == old(notes) + [Removed(g)]
    {
      notes := notes + [Removed(g)];
    }

    /** Announces a created object; only a Server may. */
    method BroadcastEventCreateObject(g: Guid, owner: Guid, className: Name)
      requires Valid() && (initialized ==> mode == Server)
      modifies manager`broadcasts, manager.Frames()
      ensures Valid() && unchanged(this)
      ensures Broadcast(manager, if initialized then [Ev.CreateObject(g, className, owner)] else [])
    {
      if !initialized {
        return;
      }
      Send(Ev.CreateObject(g, className, owner));
    }

    /** Announces a removed object; only a Server may. */
    method BroadcastEventRemoveObject(g: Guid)
      requires Valid() && (initialized ==> mode == Server)
      modifies manager`broadcasts, manager.Frames()
      ensures Valid() && unchanged(this)
      ensures Broadcast(manager, if initialized then [Ev.RemoveObject(g)] else [])
    {
      if !initialized {
        return;
      }
      Send(Ev.RemoveObject(g));
    }

    /** Asks every peer to run a function of one of its objects, in either mode. */
    method BroadcastEventExecFunctionRemote(g: Guid, name: Name, parameters: seq<byte>)
      requires manager.Valid()
      modifies manager`broadcasts, manager.Frames()
      ensures Broadcast(manager, if initialized then [Ev.ExecFunctionRemote(g, name, parameters)] else [])
    {
      if !initialized {
        return;
      }
      Send(Ev.ExecFunctionRemote(g, name, parameters));
    }

    /** `FEngine::ExecFunctionRemote`, the public name of the broadcast above. */
    method ExecFunctionRemote(g: Guid, name: Name, parameters: seq<byte>)
      requires manager.Valid()
      modifies manager`broadcasts, manager.Frames()
      ensures Broadcast(manager, if initialized then [Ev.ExecFunctionRemote(g, name, parameters)] else [])
    {
      BroadcastEventExecFunctionRemote(g, name, parameters);
    }

    /** `_manager->BroadcastEvent(e)`. */
    method Send(e: Ev.Event)
      requires manager.Valid()
      modifies manager`broadcasts, manager.Frames()
      ensures Broadcast(manager, [e])
    {
      manager.BroadcastEvent(e);
      assert Ev.EncodeFrame([e]) == Ev.EncodeTagged(e) + Ev.EncodeFrame([]);
    }

    /** A Server refuses; a Client creates the object dynamically. The result says whether an object was made. */
    method ProcessEventCreateObject(g: Guid, owner: Guid, className: Name) returns (ok: bool)
      requires Valid()
      modifies this`objects, this`views, this`notes, manager`broadcasts, manager.Frames()
      ensures Valid() && Broadcast(manager, [])
      ensures forall i :: 0 <= i < |objects| ==> objects[i] in old(objects) || fresh(objects[i])
      ensures !initialized ==> !ok && State() == old(State())
      ensures initialized ==> (ok, State()) == ApplyEvent(old(State()), Config(), Ev.CreateObject(g, className, owner))
    {
      if !initialized || mode == Server {
        return false;
      }
      var o := CreateObjectDynamic(g, owner, className);
      ok := o != null;
    }

    /** A Server refuses; a Client removes the object dynamically. The result says whether one was removed. */
    method ProcessEventRemoveObject(g: Guid) returns (ok: bool)
      requires Valid()
      modifies this`objects, this`views, this`notes, manager`broadcasts, manager.Frames()
      ensures Valid() && Broadcast(manager, [])
      ensures forall i :: 0 <= i < |objects| ==> objects[i] in old(objects)
      ensures !initialized ==> !ok && State() == old(State())
      ensures initialized ==> (ok, State()) == ApplyEvent(old(State()), Config(), Ev.RemoveObject(g))
    {
      if !initialized || mode == Server {
        return false;
      }
      var o := RemoveObjectDynamic(g);
      ok := o != null;
    }

    /** Runs the named function of the object with the GUID; false without such an object or function. */
    method ProcessEventExecFunctionRemote(g: Guid, name: Name, parameters: seq<byte>) returns (ok: bool)
      requires Valid()
      modifies this`views, objects
      ensures Valid() && objects == old(objects)
      ensures !initialized ==> !ok && State() == old(State())
      ensures initialized ==> (ok, State()) == ApplyEvent(old(State()), Config(), Ev.ExecFunctionRemote(g, name, parameters))
    {
      if !initialized {
        return false;
      }
      var o := GetObjectByGUID(g);
      if o == null {
        return false;
      }
      ok := ExecAt(o, IndexOf(GuidsOf(views), g).value, g, name, parameters);
    }

    /** `object->ExecFunction(name, stream)` on the object at position `k`, the first with the GUID. */
    method ExecAt(o: NetObject, ghost k: nat, g: Guid, name: Name, parameters: seq<byte>) returns (ok: bool)
      requires Valid() && IndexOf(GuidsOf(views), g) == Some(k) && objects[k] == o
      modifies this`views, o
      ensures Valid() && objects == old(objects)
      ensures (ok, views) == ExecRemote(old(views), g, name, parameters)
    {
      Distinct();
      ok := o.ExecFunction(name, parameters);
      ExecRemoteSpec(views, g, name, parameters);
      ExecRemoteValid(views, g, name, parameters);
      views := ExecRemote(views, g, name, parameters).1;
      forall i | 0 <= i < |objects| ensures views[i] == ViewOf(objects[i]) {
        if i != k {
          assert objects[i] != o;
        }
      }
    }

    /**
     * `ReplicateEvents`: runs the handler of each event in the stream, in order, until the end
     * of the stream, a byte that is no `EEvent`, or a handler that fails; nothing when
     * uninitialized. The events must be whole, since the code reads past the end otherwise.
     * Handling an event announces nothing.
     */
    method ReplicateEvents(s: IStream)
      requires Valid() && s.pos <= |s.buffer.data|
      requires initialized ==> EventsFrom(State(), Config(), s.buffer.data, s.pos).Some?
      modifies this`objects, this`views, this`notes, objects, manager`broadcasts, manager.Frames(), s
      ensures Valid() && Broadcast(manager, [])
      ensures forall i :: 0 <= i < |objects| ==> objects[i] in old(objects) || fresh(objects[i])
      ensures !initialized ==> State() == old(State())
      ensures initialized ==> Some(State()) == EventsFrom(old(State()), Config(), s.buffer.data, old(s.pos))
    {
      if !initialized {
        return;
      }
      ProcessEvents(s, s.buffer.data, Config(), EventsFrom(State(), Config(), s.buffer.data, s.pos).value);
    }

    /** The loop of `ReplicateEvents`, which ends with the objects `goal`. */
    method ProcessEvents(s: IStream, ghost d: seq<byte>, ghost cfg: Setup, ghost goal: World)
      requires Valid() && initialized && cfg == Config() && s.buffer.data == d && s.pos <= |d|
      requires EventsPending(d, cfg, s.pos, State(), goal)
      modifies this`objects, this`views, this`notes, objects, manager`broadcasts, manager.Frames(), s
      ensures Valid() && State() == goal && Broadcast(manager, [])
      ensures forall i :: 0 <= i < |objects| ==> objects[i] in old(objects) || fresh(objects[i])
    {
      ghost var w, p := State(), s.pos;
      var result := true;
      var eof := s.IsEOF();
      while result && !eof
        invariant Valid() && s.pos == p <= |d| && State() == w
        invariant Broadcast(manager, [])
        invariant forall i :: 0 <= i < |objects| ==> objects[i] in old(objects) || fresh(objects[i])
        invariant if result then EventsPending(d, cfg, p, w, goal) else w == goal
        invariant eof <==> p == |d|
        decreases |d| - p
      {
        result, p, w := ProcessNext(s, d, cfg, p, goal, w);
        eof := s.IsEOF();
      }
      if result {
        EventsStop(d, cfg, p, w, goal);
      }
    }

    /** One round of the loop: the tag byte, then the event it announces and its handler. */
    method ProcessNext(s: IStream, ghost d: seq<byte>, ghost cfg: Setup, ghost p: nat, ghost goal: World, ghost w: World)
      returns (result: bool, ghost next: nat, ghost w': World)
      requires Valid() && initialized && cfg == Config() && s.buffer.data == d && State() == w && s.pos == p < |d|
      requires EventsPending(d, cfg, p, w, goal)
      modifies this`objects, this`views, this`notes, objects, manager`broadcasts, manager.Frames(), s
      ensures Valid() && cfg == Config() && s.buffer.data == d && State() == w' && s.pos == next && p < next <= |d|
      ensures if result then EventsPending(d, cfg, next, w', goal) else w' == goal
      ensures Broadcast(manager, [])
      ensures forall i :: 0 <= i < |objects| ==> objects[i] in old(objects) || fresh(objects[i])
    {
      var v := s.ReadByte();
      if v >= Ev.EVENT_MAX_VALUE {
        EventsStop(d, cfg, p, w, goal);
        return false, s.pos, w;
      }
      ghost var e, ok;
      e, next, ok, w' := NextEvent(d, cfg, p, w, goal);
      result := ProcessTagged(s, v, d, cfg, w, e, next);
    }

    /** The event after a tag byte that names one, and its handler. */
    method ProcessTagged(s: IStream, v: byte, ghost d: seq<byte>, ghost cfg: Setup, ghost w: World, ghost e: Ev.Event, ghost next: nat)
      returns (ok: bool)
      requires Valid() && initialized && cfg == Config() && s.buffer.data == d && State() == w
      requires v < Ev.EVENT_MAX_VALUE && Ev.DecodeEvent(v, d, s.pos) == Some(Parsed(e, next))
      modifies this`objects, this`views, this`notes, objects, manager`broadcasts, manager.Frames(), s
      ensures Valid() && cfg == Config() && s.buffer.data == d && s.pos == next
      ensures (ok, State()) == ApplyEvent(w, cfg, e)
      ensures Broadcast(manager, [])
      ensures forall i :: 0 <= i < |objects| ==> objects[i] in old(objects) || fresh(objects[i])
    {
      var read := Ev.ReadEvent(s, v);
      assert read == e;
      ok := ProcessEvent(read, w, cfg);
    }

    /** The `ProcessEvent*` handler of one event. */
    method ProcessEvent(e: Ev.Event, ghost w: World, ghost cfg: Setup) returns (ok: bool)
      requires Valid() && initialized && State() == w && Config() == cfg
      modifies this`objects, this`views, this`notes, objects, manager`broadcasts, manager.Frames()
      ensures Valid() && Broadcast(manager, [])
      ensures forall i :: 0 <= i < |objects| ==> objects[i] in old(objects) || fresh(objects[i])
      ensures (ok, State()) == ApplyEvent(w, cfg, e)
    {
      match e
      case CreateObject(g, className, owner) =>
        ok := ProcessEventCreateObject(g, owner, className);
      case RemoveObject(g) =>
        ok := ProcessEventRemoveObject(g);
      case ExecFunctionRemote(g, name, parameters) =>
        ok := ProcessEventExecFunctionRemote(g, name, parameters);
    }

    /**
     * `Tick`: when initialized, rebuilds the replication frame from scratch with a writer
     * over it, which holds the records of the objects afterwards.
     */
    method Tick()
      requires Valid() && (initialized ==> Fits(views))
      modifies replicationFrame
      ensures Valid()
      ensures initialized ==> replicationFrame.data == EncodeSnapshot(views)
      ensures !initialized ==> replicationFrame.data == old(replicationFrame.data)
    {
      if !initialized {
        return;
      }
      Rebuild(replicationFrame, objects, views);
    }

    /**
     * `Replicate(FOStream&)`: inserts at the cursor the record of every object whose role is
     * Authority or RemoteAuthority, in list order; nothing when uninitialized.
     */
    method ReplicateOut(s: OStream)
      requires Valid() && s.pos <= |s.buffer.data| && (initialized ==> Fits(views))
      modifies s, s.buffer
      ensures var written := if initialized then EncodeSnapshot(views) else [];
        s.buffer.data == Inserted(old(s.buffer.data), written, old(s.pos)) && s.pos == old(s.pos) + |written|
    {
      if !initialized {
        assert s.buffer.data[..s.pos] + [] + s.buffer.data[s.pos..] == s.buffer.data;
        return;
      }
      WriteSnapshot(s, objects, views);
    }

    /**
     * `Replicate(FIStream&)`: reads records until the end of the stream and applies each to
     * the objects (see `Snapshots.ReceiveRecord`); nothing when uninitialized. The frame must
     * hold whole records that the objects can take, since the code reads past the end or
     * through a null object otherwise.
     */
    method ReplicateIn(s: IStream)
      requires Valid() && s.pos <= |s.buffer.data|
      requires initialized ==> SnapshotFrom(State(), Config(), s.buffer.data, s.pos).Some?
      modifies this`objects, this`views, this`notes, objects, s
      ensures Valid()
      ensures forall i :: 0 <= i < |objects| ==> objects[i] in old(objects) || fresh(objects[i])
      ensures !initialized ==> State() == old(State())
      ensures initialized ==> Some(State()) == SnapshotFrom(old(State()), Config(), s.buffer.data, old(s.pos))
    {
      if !initialized {
        return;
      }
      ReceiveAll(s, s.buffer.data, Config(), SnapshotFrom(State(), Config(), s.buffer.data, s.pos).value);
    }

    /** The loop of `Replicate(FIStream&)`, which ends with the objects `goal`. */
    method ReceiveAll(s: IStream, ghost d: seq<byte>, ghost cfg: Setup, ghost goal: World)
      requires Valid() && initialized && cfg == Config() && s.buffer.data == d && s.pos <= |d|
      requires Pending(d, cfg, s.pos, State(), goal)
      modifies this`objects, this`views, this`notes, objects, s
      ensures Valid() && State() == goal
      ensures forall i :: 0 <= i < |objects| ==> objects[i] in old(objects) || fresh(objects[i])
    {
      ghost var w, p := State(), s.pos;
      var eof := s.IsEOF();
      while !eof
        invariant Valid() && s.pos == p <= |d| && State() == w
        invariant forall i :: 0 <= i < |objects| ==> objects[i] in old(objects) || fresh(objects[i])
        invariant Pending(d, cfg, p, w, goal)
        invariant eof <==> p == |d|
        decreases |d| - p
      {
        p, w := ReceiveNext(s, d, cfg, p, goal, w);
        eof := s.IsEOF();
      }
      PendingDone(d, cfg, w, goal);
    }

    /** One round of the loop: the record's head, its effect, then the cursor past its block. */
    method ReceiveNext(s: IStream, ghost d: seq<byte>, ghost cfg: Setup, ghost p: nat, ghost goal: World, ghost w: World)
      returns (ghost next: nat, ghost w': World)
      requires Valid() && initialized && cfg == Config() && s.buffer.data == d && State() == w && s.pos == p < |d|
      requires Pending(d, cfg, p, w, goal)
      modifies this`objects, this`views, this`notes, objects, s
      ensures Valid() && cfg == Config() && s.buffer.data == d && State() == w' && s.pos == next && p < next <= |d|
      ensures Pending(d, cfg, next, w', goal)
      ensures forall i :: 0 <= i < |objects| ==> objects[i] in old(objects) || fresh(objects[i])
    {
      ghost var h;
      h, next, w' := NextPending(w, cfg, d, p, goal);
      var head := ReadRecordHead(s);
      assert head == h;
      Receive(s, d, cfg, head, w, w');
      SkipBlock(s, head, next);
    }

    /**
     * The effect of one record whose head was read: into the object with its GUID and class,
     * by a Client always and by a Server only into a RemoteAuthority object; a Client creates
     * an object it does not have, deserializes into it and runs `OnObjectCreated`.
     */
    method Receive(s: IStream, ghost d: seq<byte>, ghost cfg: Setup, h: Record, ghost w: World, ghost w': World)
      requires Valid() && initialized && cfg == Config() && s.buffer.data == d && s.pos == h.start
      requires State() == w && ReceiveRecord(w, cfg, d, h) == Some(w')
      modifies this`objects, this`views, this`notes, objects, s
      ensures Valid() && cfg == Config() && s.buffer.data == d && State() == w'
      ensures forall i :: 0 <= i < |objects| ==> objects[i] in old(objects) || fresh(objects[i])
    {
      var existing := GetObjectByGUID(h.guid);
      if existing != null {
        if h.className == existing.className {
          if mode == Client || HasBit(existing.role, RemoteAuthority) {
            ReceiveInto(existing, s, d, cfg, h, w, w');
          }
        }
      } else if mode == Client {
        ReceiveNew(s, d, cfg, h, w, w');
      }
    }

    /** Deserializes into the object of the record's GUID and class. */
    method ReceiveInto(o: NetObject, s: IStream, ghost d: seq<byte>, ghost cfg: Setup, h: Record, ghost w: World, ghost w': World)
      requires Valid() && initialized && cfg == Config() && s.buffer.data == d && s.pos == h.start
      requires State() == w && ReceiveRecord(w, cfg, d, h) == Some(w')
      requires h.guid in GuidsOf(views) && o == objects[IndexOf(GuidsOf(views), h.guid).value]
      requires h.className == o.className && (mode == Client || HasBit(o.role, RemoteAuthority))
      modifies this`views, o, s
      ensures Valid() && objects == old(objects) && s.buffer.data == d && State() == w'
    {
      DeserializeAt(o, IndexOf(GuidsOf(views), h.guid).value, s, d);
    }

    /**
     * A Client's object for an unknown GUID: `CreateObjectStatic` (which announces nothing on
     * a Client, so here it is `CreateObjectByClassName` with the static role), then the block
     * read into it and `OnObjectCreated`.
     */
    method ReceiveNew(s: IStream, ghost d: seq<byte>, ghost cfg: Setup, h: Record, ghost w: World, ghost w': World)
      requires Valid() && initialized && mode == Client && cfg == Config() && s.buffer.data == d && s.pos == h.start
      requires h.guid !in GuidsOf(views) && State() == w && ReceiveRecord(w, cfg, d, h) == Some(w')
      modifies this`objects, this`views, this`notes, s
      ensures Valid() && s.buffer.data == d && State() == w'
      ensures forall i :: 0 <= i < |objects| ==> objects[i] in old(objects) || fresh(objects[i])
    {
      ghost var vs := views;
      var o := CreateObjectByClassName(h.guid, h.className, StaticRole(mode));
      DeserializeAt(o, |vs|, s, d);
      assert views == vs + [views[|vs|]];
      OnObjectCreated(h.guid);
    }

    /** `stream >> object` for the object at position `k`: only its properties change. */
    method DeserializeAt(o: NetObject, ghost k: nat, s: IStream, ghost d: seq<byte>)
      requires Valid() && k < |objects| && objects[k] == o && s.buffer.data == d
      requires DecodeBlock(o.properties, d, s.pos).Some?
      modifies this`views, o, s
      ensures Valid() && objects == old(objects) && s.buffer.data == d
      ensures DecodeBlock(old(views[k].properties), d, old(s.pos)) == Some(Parsed(views[k].properties, s.pos))
      ensures views == old(views)[k := old(views[k]).(properties := views[k].properties)]
    {
      Distinct();
      o.Deserialize(s);
      views := views[k := ViewOf(o)];
      forall i | 0 <= i < |objects| ensures views[i] == ViewOf(objects[i]) {
        if i != k {
          assert objects[i] != o;
        }
      }
      assert forall i :: 0 <= i < |views| ==> views[i].guid == old(views[i].guid);
    }

    /** A Server creates the player's own object, of class CharacterActor; a Client refuses. */
    method PlayerJoinGame(player: Guid)
      requires Valid()
      modifies this`objects, this`views, this`notes, manager`broadcasts, manager.Frames()
      ensures Valid()
      ensures initialized && mode == Server ==>
        var (c, w) := CreateDynamic(old(State()), Config(), player, player, CHARACTER_ACTOR);
        State() == w && Broadcast(manager, if c.Some? then [Ev.CreateObject(player, CHARACTER_ACTOR, player)] else [])
      ensures !(initialized && mode == Server) ==> State() == old(State()) && Broadcast(manager, [])
    {
      if !initialized {
        return;
      }
      if mode == Server {
        var _ := CreateObjectDynamic(player, player, CHARACTER_ACTOR);
      }
    }

    /** A Server removes the player's object; a Client refuses. */
    method PlayerQuitGame(player: Guid)
      requires Valid()
      modifies this`objects, this`views, this`notes, manager`broadcasts, manager.Frames()
      ensures Valid()
      ensures initialized && mode == Server ==>
        var (found, w) := RemoveDynamic(old(State()), player);
        State() == w && Broadcast(manager, if found then [Ev.RemoveObject(player)] else [])
      ensures !(initialized && mode == Server) ==> State() == old(State()) && Broadcast(manager, [])
    {
      if !initialized {
        return;
      }
      if mode == Server {
        var _ := RemoveObjectDynamic(player);
      }
    }
  }

  /** The world `RemoveDynamic` gives, from the objects left and whether one went. */
  lemma RemoveDynamicIs(w: World, g: Guid, vs: seq<View>, found: bool)
    requires vs == Drop(w.objects, g) && (found <==> g in GuidsOf(w.objects))
    ensures RemoveDynamic(w, g) == (found, World(vs, w.notes + if found then [Removed(g)] else []))
  {
  }

  /**
   * The `remove_if` pass: the objects without the GUID, in order, with their values, and the
   * last object with the GUID, or null.
   */
  method Filter(os: seq<NetObject>, ghost vs: seq<View>, g: Guid) returns (kept: seq<NetObject>, ghost rest: seq<View>, o: NetObject?)
    requires |vs| == |os| && forall i :: 0 <= i < |os| ==> vs[i] == ViewOf(os[i])
    ensures rest == Drop(vs, g) && |rest| == |kept| && forall j :: 0 <= j < |kept| ==> rest[j] == ViewOf(kept[j])
    ensures (o == null) == Absent(vs, g)
    ensures o != null ==> o in os && o.guid == g
    ensures forall x :: x in kept ==> x in os
  {
    kept, rest, o := [], [], null;
    var i := 0;
    while i < |os|
      invariant i <= |os|
      invariant rest == Drop(vs[..i], g) && |rest| == |kept|
      invariant forall j :: 0 <= j < |kept| ==> rest[j] == ViewOf(kept[j])
      invariant (o == null) == Absent(vs[..i], g)
      invariant o != null ==> o in os && o.guid == g
      invariant forall x :: x in kept ==> x in os
    {
      DropSnoc(vs, g, i);
      if os[i].guid == g {
        o := os[i];
      } else {
        kept := kept + [os[i]];
        rest := rest + [vs[i]];
      }
      i := i + 1;
    }
    assert vs[..i] == vs;
  }

  /**
   * The initialized part of `Tick`: `Clear()`, then `Replicate` through a writer over the
   * cleared buffer (the initialized branch of `Engine.ReplicateOut`).
   */
  method Rebuild(b: Buffer, os: seq<NetObject>, ghost vs: seq<View>)
    requires |vs| == |os| && forall i :: 0 <= i < |os| ==> vs[i] == ViewOf(os[i]) && ValidView(vs[i])
    requires Encodable(vs) && Fits(vs)
    modifies b
    ensures b.data == EncodeSnapshot(vs)
  {
    b.Clear();
    var s := new OStream(b);
    WriteSnapshot(s, os, vs);
    assert b.data == [] + EncodeSnapshot(vs) + [];
  }

  /** The loop of `Replicate(FOStream&)` over the objects `os`, whose values are `vs`. */
  method WriteSnapshot(s: OStream, os: seq<NetObject>, ghost vs: seq<View>)
    requires |vs| == |os| && forall i :: 0 <= i < |os| ==> vs[i] == ViewOf(os[i]) && ValidView(vs[i])
    requires Encodable(vs) && Fits(vs) && s.pos <= |s.buffer.data|
    modifies s, s.buffer
    ensures s.buffer.data == Inserted(old(s.buffer.data), EncodeSnapshot(vs), old(s.pos))
    ensures s.pos == old(s.pos) + |EncodeSnapshot(vs)|
  {
    ghost var d0, p0 := s.buffer.data, s.pos;
    ghost var written: seq<byte> := [];
    for i := 0 to |os|
      invariant written == EncodeSnapshot(vs[..i])
      invariant s.buffer.data == Inserted(d0, written, p0) && s.pos == p0 + |written|
    {
      SnapshotSnoc(vs, i);
      var o := os[i];
      if Replicated(o.role) {
        WriteRecord(s, o);
        InsertedTwice(d0, written, ObjectRecord(vs[i]), p0);
      }
      written := written + RecordOf(vs[i]);
    }
    assert vs[..|os|] == vs;
  }

  /**
   * One object's record: its GUID and class name, then the serialized block, with the block's
   * size inserted in front of it once its length is known; the cursor ends past the block.
   */
  method WriteRecord(s: OStream, o: NetObject)
    requires o.Valid() && s.pos <= |s.buffer.data| && |EncodeEntries(o.properties)| + 4 < U32_LIMIT
    modifies s, s.buffer
    ensures s.buffer.data == Inserted(old(s.buffer.data), ObjectRecord(ViewOf(o)), old(s.pos))
    ensures s.pos == old(s.pos) + |ObjectRecord(ViewOf(o))|
  {
    ghost var d0, p0 := s.buffer.data, s.pos;
    ghost var head := EncodeGuid(o.guid) + EncodeString(o.className);
    WriteGuid(s, o.guid);
    WriteString(s, o.className);
    InsertedTwice(d0, EncodeGuid(o.guid), EncodeString(o.className), p0);
    var start := s.Pos();
    ghost var d1 := s.buffer.data;
    o.Serialize(s);
    var size: u32 := s.pos - start;
    s.SetPos(start);
    s.WriteU32(size);
    s.SetPos(start + size + 4);
    ghost var block := EncodeBlock(o.properties);
    InsertedBefore(d1, block, Le32(size), start);
    InsertedTwice(d0, head, Le32(size) + block, p0);
    ConcatRegroup(EncodeGuid(o.guid), EncodeString(o.className), Le32(size), block);
  }

  /** `SetPos(start); Read(size)`: the cursor goes past the record's block. */
  method SkipBlock(s: IStream, h: Record, ghost next: nat)
    requires next == h.start + h.size <= |s.buffer.data|
    modifies s
    ensures s.pos == next
  {
    s.SetPos(h.start);
    var _ := s.Read(h.size);
  }

  /** The GUID, class name and block size in front of an object's block. */
  method ReadRecordHead(s: IStream) returns (h: Record)
    requires DecodeRecordHead(s.buffer.data, s.pos).Some?
    modifies s
    ensures DecodeRecordHead(s.buffer.data, old(s.pos)) == Some(h) && s.pos == h.start
  {
    ghost var d, p := s.buffer.data, s.pos;
    var g := ReadGuid(s);
    ghost var p1 := s.pos;
    var className := ReadString(s);
    ghost var p2 := s.pos;
    StringNext(d, p1);
    var size := s.ReadU32();
    U32Bytes(d, p2, s.pos);
    h := Record(g, className, size, s.pos);
    DecodeRecordHeadUnfold(d, p, g, className, size, p1, p2, s.pos);
  }

  /** Dropping from one more object: that object goes unless it has the GUID. */
  lemma DropSnoc(vs: seq<View>, g: Guid, i: nat)
    requires i < |vs|
    ensures Drop(vs[..i + 1], g) == Drop(vs[..i], g) + if vs[i].guid == g then [] else [vs[i]]
    ensures Absent(vs[..i + 1], g) <==> Absent(vs[..i], g) && vs[i].guid != g
  {
    assert vs[..i + 1][..i] == vs[..i];
    assert forall j :: 0 <= j < i ==> vs[..i + 1][j] == vs[..i][j];
  }
}
