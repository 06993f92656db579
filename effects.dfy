/**
 * What `FEngine::ReplicateEvents` does with an events frame: each event goes to its
 * `ProcessEvent*` handler, and the loop stops at the end of the frame, at the first byte that
 * is not an `EEvent`, or at the first handler that returns false.
 */
module EventEffects {
  import opened Options
  import opened Bytes
  import opened NetTypes
  import opened Registries
  import opened Objects
  import opened Factories
  import opened Worlds
  import Ev = Events

  /**
   * One `ProcessEvent*` call: a Server refuses to create or remove objects on request;
   * a Client creates with the dynamic role of the event's owner or removes by GUID; a remote
   * call runs the named function of the named object. The result is the handler's.
   */
  function ApplyEvent(w: World, cfg: Setup, e: Ev.Event): (bool, World)
  {
    match e
    case CreateObject(g, className, owner) =>
      if cfg.mode == Server then (false, w)
      else
        var (o, w') := CreateDynamic(w, cfg, g, owner, className);
        (o.Some?, w')
    case RemoveObject(g) =>
      if cfg.mode == Server then (false, w) else RemoveDynamic(w, g)
    case ExecFunctionRemote(g, name, parameters) =>
      var (ok, vs) := ExecRemote(w.objects, g, name, parameters);
      (ok, World(vs, w.notes))
  }

  /** The handlers of a run of events, stopping after the first that fails. */
  function RunEvents(w: World, cfg: Setup, es: seq<Ev.Event>): (bool, World)
    decreases |es|
  {
    if es == [] then (true, w)
    else
      var (ok, w') := ApplyEvent(w, cfg, es[0]);
      if !ok then (false, w') else RunEvents(w', cfg, es[1..])
  }

  /**
   * The `ReplicateEvents` loop over the bytes from `p`: None where a read it makes would pass
   * the end of the buffer; the reads stop with the loop.
   */
  function EventsFrom(w: World, cfg: Setup, d: seq<byte>, p: nat): Option<World>
    requires p <= |d|
    decreases |d| - p
  {
    if p == |d| || d[p] >= Ev.EVENT_MAX_VALUE then Some(w)
    else
      var e :- Ev.DecodeEvent(d[p], d, p + 1);
      var (ok, w') := ApplyEvent(w, cfg, e.value);
      if !ok then Some(w') else EventsFrom(w', cfg, d, e.next)
  }

  /** The loop, at position `p` with the objects `w`, is bound to end with `goal`. */
  predicate EventsPending(d: seq<byte>, cfg: Setup, p: nat, w: World, goal: World)
  {
    p <= |d| && EventsFrom(w, cfg, d, p) == Some(goal)
  }

  /** At the end of the frame or at a byte that is no event, the loop is over. */
  lemma EventsStop(d: seq<byte>, cfg: Setup, p: nat, w: World, goal: World)
    requires EventsPending(d, cfg, p, w, goal) && (p == |d| || d[p] >= Ev.EVENT_MAX_VALUE)
    ensures w == goal
  {
  }

  /**
   * One round of the loop: the event after the tag at `p` ends at `next`; its handler's
   * result either ends the loop with `goal` or leaves the rest of the loop bound to it.
   */
  lemma NextEvent(d: seq<byte>, cfg: Setup, p: nat, w: World, goal: World)
    returns (e: Ev.Event, next: nat, ok: bool, w': World)
    requires p < |d| && d[p] < Ev.EVENT_MAX_VALUE && EventsPending(d, cfg, p, w, goal)
    ensures Ev.DecodeEvent(d[p], d, p + 1) == Some(Parsed(e, next)) && p < next <= |d|
    ensures (ok, w') == ApplyEvent(w, cfg, e)
    ensures if ok then EventsPending(d, cfg, next, w', goal) else w' == goal
  {
    var r := Ev.DecodeEvent(d[p], d, p + 1).value;
    e, next := r.value, r.next;
    ok, w' := ApplyEvent(w, cfg, e).0, ApplyEvent(w, cfg, e).1;
  }

  /** Once a handler has failed, the events after it have no effect. */
  lemma {:induction false} RunEventsStops(w: World, cfg: Setup, es: seq<Ev.Event>, more: seq<Ev.Event>)
    requires !RunEvents(w, cfg, es).0
    ensures RunEvents(w, cfg, es + more) == RunEvents(w, cfg, es)
    decreases |es|
  {
    assert es != [];
    assert (es + more)[0] == es[0] && (es + more)[1..] == es[1..] + more;
    var (ok, w') := ApplyEvent(w, cfg, es[0]);
    if ok {
      RunEventsStops(w', cfg, es[1..], more);
    }
  }

  /** A run succeeds exactly when every handler does. */
  lemma {:induction false} RunEventsSucceeds(w: World, cfg: Setup, es: seq<Ev.Event>)
    ensures RunEvents(w, cfg, es).0 <==> forall k :: 0 <= k < |es| ==> ApplyEvent(Before(w, cfg, es, k), cfg, es[k]).0
    decreases |es|
  {
    if es != [] {
      var (ok, w') := ApplyEvent(w, cfg, es[0]);
      assert Before(w, cfg, es, 0) == w;
      if ok {
        RunEventsSucceeds(w', cfg, es[1..]);
        forall k | 0 < k < |es| ensures Before(w, cfg, es, k) == Before(w', cfg, es[1..], k - 1) {
          BeforeTail(w, cfg, es, k);
        }
      }
    }
  }

  /** The world the `k`-th event meets when every handler before it succeeds. */
  function Before(w: World, cfg: Setup, es: seq<Ev.Event>, k: nat): World
    requires k < |es|
    decreases |es|
  {
    if k == 0 then w else Before(ApplyEvent(w, cfg, es[0]).1, cfg, es[1..], k - 1)
  }

  lemma BeforeTail(w: World, cfg: Setup, es: seq<Ev.Event>, k: nat)
    requires 0 < k < |es|
    ensures Before(w, cfg, es, k) == Before(ApplyEvent(w, cfg, es[0]).1, cfg, es[1..], k - 1)
  {
  }

  /** On a well-formed frame the loop runs the handlers of the frame's events, in order. */
  lemma {:induction false} EventsOfBatch(w: World, cfg: Setup, d: seq<byte>, p: nat, b: Ev.Batch)
    requires p <= |d| && Ev.ParseEvents(d, p) == Some(b)
    ensures EventsFrom(w, cfg, d, p) == Some(RunEvents(w, cfg, b.events).1)
    decreases |d| - p
  {
    if p < |d| && d[p] < Ev.EVENT_MAX_VALUE {
      var e := Ev.DecodeEvent(d[p], d, p + 1).value;
      var rest := Ev.ParseEvents(d, e.next).value;
      assert b.events == [e.value] + rest.events;
      assert b.events[0] == e.value && b.events[1..] == rest.events;
      var (ok, w') := ApplyEvent(w, cfg, e.value);
      if ok {
        EventsOfBatch(w', cfg, d, e.next, rest);
      }
    }
  }

  /** An events frame built by broadcasting `es` is replayed as `es`, up to the first failing handler. */
  lemma FrameEvents(w: World, cfg: Setup, es: seq<Ev.Event>, d: seq<byte>, p: nat)
    requires Ev.AllTransmissible(es) && p <= |d| && d[p..] == Ev.EncodeFrame(es)
    ensures EventsFrom(w, cfg, d, p) == Some(RunEvents(w, cfg, es).1)
  {
    Ev.FrameRoundTrip(es, d, p);
    EventsOfBatch(w, cfg, d, p, Ev.Batch(es, true));
  }

  /** A remote call keeps every object's GUID. */
  lemma ExecRemoteGuids(vs: seq<View>, g: Guid, name: Name, parameters: seq<byte>)
    ensures var vs' := ExecRemote(vs, g, name, parameters).1;
      |vs'| == |vs| && GuidsOf(vs') == GuidsOf(vs)
  {
    var vs' := ExecRemote(vs, g, name, parameters).1;
    assert |vs'| == |vs|;
    assert forall i :: 0 <= i < |vs| ==> GuidsOf(vs')[i] == GuidsOf(vs)[i];
  }

  /** A Server's events never create or remove objects or run the object hooks. */
  lemma {:induction false} ServerKeepsObjects(w: World, cfg: Setup, es: seq<Ev.Event>)
    requires cfg.mode == Server
    ensures var w' := RunEvents(w, cfg, es).1;
      GuidsOf(w'.objects) == GuidsOf(w.objects) && w'.notes == w.notes
    decreases |es|
  {
    if es != [] {
      if es[0].ExecFunctionRemote? {
        ExecRemoteGuids(w.objects, es[0].guid, es[0].functionName, es[0].parameters);
      }
      var (ok, w') := ApplyEvent(w, cfg, es[0]);
      if ok {
        ServerKeepsObjects(w', cfg, es[1..]);
      }
    }
  }

  /** Handling one event keeps the objects valid. */
  lemma ApplyEventValid(w: World, cfg: Setup, e: Ev.Event)
    requires ValidObjects(w.objects) && ValidClasses(cfg.classes)
    ensures ValidObjects(ApplyEvent(w, cfg, e).1.objects)
  {
    match e
    case CreateObject(g, className, owner) =>
      var role := DynamicRole(cfg.mode, owner, cfg.self);
      if cfg.mode == Client && CreateByName(w.objects, cfg.classes, g, className, role).Some? {
        CreateByNameValid(w.objects, cfg.classes, g, className, role);
      }
    case RemoveObject(g) =>
      DropValid(w.objects, g);
    case ExecFunctionRemote(g, name, parameters) =>
      ExecRemoteValid(w.objects, g, name, parameters);
  }

  /** Replaying an events frame keeps the objects valid. */
  lemma {:induction false} EventsFromValid(w: World, cfg: Setup, d: seq<byte>, p: nat)
    requires p <= |d| && ValidObjects(w.objects) && ValidClasses(cfg.classes)
    ensures EventsFrom(w, cfg, d, p).Some? ==> ValidObjects(EventsFrom(w, cfg, d, p).value.objects)
    decreases |d| - p
  {
    if p < |d| && d[p] < Ev.EVENT_MAX_VALUE && Ev.DecodeEvent(d[p], d, p + 1).Some? {
      var e := Ev.DecodeEvent(d[p], d, p + 1).value;
      ApplyEventValid(w, cfg, e.value);
      var (ok, w') := ApplyEvent(w, cfg, e.value);
      if ok {
        EventsFromValid(w', cfg, d, e.next);
      }
    }
  }
}
