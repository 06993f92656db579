/**
 * The engine's objects as values: what FEngine's object-list operations do to the list of
 * objects (each object seen as its GUID, role, class name, registries and function-call
 * log) and to the log of `OnObjectCreated` / `OnObjectRemoved` hook calls. The engine's
 * methods are proved against these functions.
 */
module Worlds {
  import opened Options
  import opened Bytes
  import opened NetTypes
  import opened Registries
  import opened Properties
  import opened Objects
  import opened Factories

  /** `FEngine::EMode`. */
  datatype Mode = Client | Server

  /** What an engine's operations consult and never change: its mode, its GUID, the class factory. */
  datatype Setup = Setup(mode: Mode, self: Guid, classes: seq<Entry<Schema>>)

  /** One FObject. */
  datatype View = View(guid: Guid, role: Role, className: Name,
                       properties: seq<Entry<Value>>, functions: seq<Entry<FunctionId>>, calls: seq<Call>)

  /** A call of the `OnObjectCreated` or `OnObjectRemoved` hook. */
  datatype Note = Created(guid: Guid) | Removed(guid: Guid)

  /** The engine's `_objects`, in order, and the hook calls so far. */
  datatype World = World(objects: seq<View>, notes: seq<Note>)

  // ---------------------------------------------------------------- roles

  /** The role of `CreateObjectStatic`. */
  function StaticRole(mode: Mode): (r: Role)
    ensures ValidRole(r) && HasBit(r, RemoteProxy) && !HasBit(r, RemoteAuthority)
    ensures HasBit(r, Authority) <==> mode == Server
    ensures HasBit(r, Proxy) <==> mode == Client
  {
    match mode
    case Client => Proxy | RemoteProxy
    case Server => Authority | RemoteProxy
  }

  /**
   * The role of `CreateObjectDynamic`: the local side is Authority on a Server and Proxy on a
   * Client; the remote side is authoritative for a Client's own objects and, on a Server, for
   * the objects some other engine owns.
   */
  function DynamicRole(mode: Mode, owner: Guid, self: Guid): (r: Role)
    ensures ValidRole(r)
    ensures HasBit(r, Authority) <==> mode == Server
    ensures HasBit(r, Proxy) <==> mode == Client
    ensures HasBit(r, RemoteAuthority) <==> (mode == Client) == (owner == self)
    ensures HasBit(r, RemoteProxy) <==> (mode == Client) != (owner == self)
  {
    match mode
    case Client => if owner != self then Proxy | RemoteProxy else Proxy | RemoteAuthority
    case Server => if owner == self then Authority | RemoteProxy else Authority | RemoteAuthority
  }

  // ---------------------------------------------------------------- the object list

  function GuidsOf(vs: seq<View>): seq<Guid>
  {
    seq(|vs|, i requires 0 <= i < |vs| => vs[i].guid)
  }

  /** No two objects share a GUID. */
  predicate Unique(vs: seq<View>)
  {
    forall i, j :: 0 <= i < j < |vs| ==> vs[i].guid != vs[j].guid
  }

  /** An object as FObject's constructor leaves it. */
  predicate ValidView(v: View)
  {
    ValidRole(v.role) && Sorted(v.properties) && AllWellTyped(v.properties) && Sorted(v.functions)
  }

  /** The engine invariant on its objects. */
  predicate ValidObjects(vs: seq<View>)
  {
    Unique(vs) && forall i :: 0 <= i < |vs| ==> ValidView(vs[i])
  }

  /** The object a class's creator builds. */
  function NewView(g: Guid, role: Role, className: Name, schema: Schema): View
  {
    View(g, role, className, Declare([], schema.properties), Declare([], schema.functions), [])
  }

  /**
   * `CreateObjectByClassName`: None when the class is not registered or an object with the
   * GUID exists; otherwise the new object, which goes at the end of the list.
   */
  function CreateByName(vs: seq<View>, classes: seq<Entry<Schema>>, g: Guid, className: Name, role: Role): (r: Option<View>)
    ensures r.Some? <==> HasKey(classes, className) && g !in GuidsOf(vs)
    ensures r.Some? ==> r.value == NewView(g, role, className, Find(classes, className).value)
  {
    var creator := Find(classes, className);
    if creator.None? then None
    else if IndexOf(GuidsOf(vs), g).Some? then None
    else Some(NewView(g, role, className, creator.value))
  }

  /** A created object keeps the list valid and is found by its GUID. */
  lemma CreateByNameValid(vs: seq<View>, classes: seq<Entry<Schema>>, g: Guid, className: Name, role: Role)
    requires ValidObjects(vs) && ValidClasses(classes) && ValidRole(role)
    requires CreateByName(vs, classes, g, className, role).Some?
    ensures var vs' := vs + [CreateByName(vs, classes, g, className, role).value];
      ValidObjects(vs') && IndexOf(GuidsOf(vs'), g) == Some(|vs|)
  {
    var v := CreateByName(vs, classes, g, className, role).value;
    var vs' := vs + [v];
    FoundClassValid(classes, className);
    DeclareWellTyped([], Find(classes, className).value.properties);
    forall i | 0 <= i < |vs| ensures vs[i].guid != g {
      assert GuidsOf(vs)[i] == vs[i].guid;
    }
    assert GuidsOf(vs')[|vs|] == g;
    assert forall i :: 0 <= i < |vs| ==> GuidsOf(vs')[i] == vs[i].guid;
  }

  /** `remove_if` then `erase` by GUID: the other objects, in their order. */
  function Drop(vs: seq<View>, g: Guid): seq<View>
  {
    if vs == [] then []
    else Drop(vs[..|vs| - 1], g) + if vs[|vs| - 1].guid == g then [] else [vs[|vs| - 1]]
  }

  /** No object has the GUID. */
  predicate Absent(vs: seq<View>, g: Guid)
  {
    forall i :: 0 <= i < |vs| ==> vs[i].guid != g
  }

  lemma AbsentGuids(vs: seq<View>, g: Guid)
    ensures Absent(vs, g) <==> g !in GuidsOf(vs)
  {
    if !Absent(vs, g) {
      var i :| 0 <= i < |vs| && vs[i].guid == g;
      assert GuidsOf(vs)[i] == g;
    }
  }

  /** With no object of the GUID, nothing is dropped. */
  lemma {:induction false} DropAbsent(vs: seq<View>, g: Guid)
    requires Absent(vs, g)
    ensures Drop(vs, g) == vs
  {
    if vs != [] {
      var init := vs[..|vs| - 1];
      assert Absent(init, g) by {
        forall i | 0 <= i < |init| ensures init[i].guid != g {
          assert init[i] == vs[i];
        }
      }
      DropAbsent(init, g);
      assert init + [vs[|vs| - 1]] == vs;
    }
  }

  /** With GUIDs unique, dropping one removes exactly the object at its position. */
  lemma {:induction false} DropAt(vs: seq<View>, g: Guid, k: nat)
    requires Unique(vs) && k < |vs| && vs[k].guid == g
    ensures Drop(vs, g) == vs[..k] + vs[k + 1..]
  {
    var init, last := vs[..|vs| - 1], vs[|vs| - 1];
    if k == |vs| - 1 {
      forall i | 0 <= i < |init| ensures init[i].guid != g {
        assert init[i] == vs[i];
      }
      DropAbsent(init, g);
      assert vs[k + 1..] == [];
    } else {
      assert last.guid != g;
      assert Unique(init) by {
        forall i, j | 0 <= i < j < |init| ensures init[i].guid != init[j].guid {
          assert init[i] == vs[i] && init[j] == vs[j];
        }
      }
      DropAt(init, g, k);
      assert init[..k] == vs[..k];
      assert init[k + 1..] + [last] == vs[k + 1..];
    }
  }

  /** Dropping keeps the list valid and leaves no object of the GUID. */
  lemma DropValid(vs: seq<View>, g: Guid)
    requires ValidObjects(vs)
    ensures ValidObjects(Drop(vs, g)) && g !in GuidsOf(Drop(vs, g))
    ensures |Drop(vs, g)| == if g in GuidsOf(vs) then |vs| - 1 else |vs|
  {
    var k := IndexOf(GuidsOf(vs), g);
    if k.None? {
      AbsentGuids(vs, g);
      DropAbsent(vs, g);
    } else {
      var i0 := k.value;
      DropAt(vs, g, i0);
      var r := vs[..i0] + vs[i0 + 1..];
      assert forall i :: 0 <= i < |r| ==> r[i] == if i < i0 then vs[i] else vs[i + 1];
      forall i | 0 <= i < |r| ensures GuidsOf(r)[i] != g {
        if i < i0 {
          assert vs[i].guid != vs[i0].guid;
        } else {
          assert vs[i0].guid != vs[i + 1].guid;
        }
      }
    }
  }

  // ---------------------------------------------------------------- operations on the list

  /** `CreateObjectDynamic`: on success the object is added and `OnObjectCreated` runs. */
  function CreateDynamic(w: World, cfg: Setup, g: Guid, owner: Guid, className: Name): (Option<View>, World)
  {
    var c := CreateByName(w.objects, cfg.classes, g, className, DynamicRole(cfg.mode, owner, cfg.self));
    if c.None? then (None, w) else (c, World(w.objects + [c.value], w.notes + [Created(g)]))
  }

  /** `RemoveObjectDynamic`: whether an object went, and `OnObjectRemoved` when one did. */
  function RemoveDynamic(w: World, g: Guid): (bool, World)
  {
    var found := IndexOf(GuidsOf(w.objects), g).Some?;
    (found, World(Drop(w.objects, g), w.notes + if found then [Removed(g)] else []))
  }

  /** `ProcessEventExecFunctionRemote`: the object's `ExecFunction`, or false without the object. */
  function ExecRemote(vs: seq<View>, g: Guid, name: Name, parameters: seq<byte>): (bool, seq<View>)
  {
    var k := IndexOf(GuidsOf(vs), g);
    if k.None? then (false, vs)
    else
      var v := vs[k.value];
      var fn := Find(v.functions, name);
      if fn.None? then (false, vs)
      else (true, vs[k.value := v.(calls := v.calls + [Call(fn.value, parameters)])])
  }

  /**
   * A remote call logs one call on the one object it names and keeps every object, its
   * GUID and its class. The called member function's own writes to the object's
   * properties are not modelled, so the properties here stay as they were.
   */
  lemma ExecRemoteSpec(vs: seq<View>, g: Guid, name: Name, parameters: seq<byte>)
    requires Unique(vs)
    ensures var (ok, vs') := ExecRemote(vs, g, name, parameters);
      && |vs'| == |vs| && GuidsOf(vs') == GuidsOf(vs)
      && (ok <==> g in GuidsOf(vs) && HasKey(vs[IndexOf(GuidsOf(vs), g).value].functions, name))
      && forall i :: 0 <= i < |vs| ==>
           vs'[i] == if ok && vs[i].guid == g
                     then vs[i].(calls := vs[i].calls + [Call(Find(vs[i].functions, name).value, parameters)])
                     else vs[i]
  {
    var k := IndexOf(GuidsOf(vs), g);
    var vs' := ExecRemote(vs, g, name, parameters).1;
    if k.Some? {
      assert vs[k.value].guid == GuidsOf(vs)[k.value];
      forall i | 0 <= i < |vs| && i != k.value ensures vs[i].guid != g {
        if i < k.value {
          assert GuidsOf(vs)[..k.value][i] == vs[i].guid;
        } else {
          assert vs[k.value].guid != vs[i].guid;
        }
      }
    }
    assert |vs'| == |vs|;
    assert forall i :: 0 <= i < |vs| ==> GuidsOf(vs')[i] == GuidsOf(vs)[i];
  }

  /** A remote call keeps the objects valid. */
  lemma ExecRemoteValid(vs: seq<View>, g: Guid, name: Name, parameters: seq<byte>)
    requires ValidObjects(vs)
    ensures ValidObjects(ExecRemote(vs, g, name, parameters).1)
  {
    ExecRemoteSpec(vs, g, name, parameters);
    var vs' := ExecRemote(vs, g, name, parameters).1;
    assert forall i :: 0 <= i < |vs'| ==> vs'[i].guid == vs[i].guid && ValidView(vs'[i]);
  }
}
