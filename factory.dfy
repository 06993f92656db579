/**
 * FEngineClassFactory: the name-keyed registry of object creators. A creator is modelled
 * by what it builds, the `Schema` of its class (the properties and functions that the
 * class's member constructors declare); the factory singleton is an object handed to the
 * engine.
 */
module Factories {
  import opened Options
  import opened NetTypes
  import opened Registries
  import opened Properties
  import opened Objects

  /** Every creator builds objects whose declared properties hold values of their types. */
  predicate ValidClasses(classes: seq<Entry<Schema>>)
  {
    Sorted(classes) && forall i :: 0 <= i < |classes| ==> AllWellTyped(classes[i].value.properties)
  }

  /** A registered class builds well-typed objects. */
  lemma FoundClassValid(classes: seq<Entry<Schema>>, name: Name)
    requires ValidClasses(classes) && Find(classes, name).Some?
    ensures AllWellTyped(Find(classes, name).value.properties)
  {
    var i :| 0 <= i < |classes| && classes[i] == Entry(name, Find(classes, name).value);
  }

  class ClassFactory {
    var classes: seq<Entry<Schema>>

    ghost predicate Valid()
      reads this
    {
      ValidClasses(classes)
    }

    constructor ()
      ensures Valid() && classes == []
    {
      classes := [];
    }

    /** The `find_if` over the map: the creator registered under the name, if any. */
    method FindClass(className: Name) returns (creator: Option<Schema>)
      ensures creator == Find(classes, className)
      ensures creator.Some? <==> HasKey(classes, className)
    {
      creator := Lookup(classes, className);
    }

    /** Refuses a name that is already registered, keeping the first creator; otherwise adds it. */
    method RegisterClass(className: Name, creator: Schema) returns (ok: bool)
      requires Valid() && AllWellTyped(creator.properties)
      modifies this
      ensures Valid()
      ensures (ok, classes) == Register(old(classes), className, creator)
      ensures ok <==> !HasKey(old(classes), className)
      ensures Find(classes, className) == if ok then Some(creator) else Find(old(classes), className)
    {
      ghost var r := classes;
      FindRegister(classes, className, creator, className);
      var found := Lookup(classes, className);
      if found.Some? {
        return false;
      }
      classes := Register(classes, className, creator).1;
      forall i | 0 <= i < |classes| ensures AllWellTyped(classes[i].value.properties) {
        if classes[i] != Entry(className, creator) {
          assert classes[i] in r;
        }
      }
      ok := true;
    }
  }
}
