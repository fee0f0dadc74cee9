/**
 * The object graph the engine walks, and the reflective property access
 * (PropertyUtils.getProperty / setProperty) it walks it with.
 *
 * Every bean or map is a record in one store, identified by a reference, so
 * several places can share one record.  A property name may be dotted
 * ("a.b"): each component but the last is read on the current record and
 * must lead to another record; the last one is read or written there.
 */
module Beans {
  import opened Wrappers
  import JavaStrings

  type Ref = nat

  /** A property value as the engine classifies it. */
  datatype Value =
    | Null
    | Str(s: string)
    | Obj(ref: Ref)              // a bean or a map, held in the store
    | Coll(elems: seq<Value>)    // a java.util.Collection, in iteration order
    | Scalar                     // a number, boolean, enum or other non-string leaf

  /** The properties of one bean or map; those in `readOnly` have no setter. */
  datatype Record = Record(props: map<string, Value>, readOnly: set<string>)

  type Store = map<Ref, Record>

  /** The components of a (possibly dotted) property name. */
  function Components(name: string): (cs: seq<string>)
    ensures |cs| >= 1
  {
    JavaStrings.Pieces(name, ".")
  }

  /** Reads one simple property of `v`; only records have properties. */
  function Field(store: Store, v: Value, key: string): (r: Option<Value>)
    ensures r.Some? <==> v.Obj? && v.ref in store && key != [] && key in store[v.ref].props
    ensures r.Some? ==> r.value == store[v.ref].props[key]
  {
    if v.Obj? && v.ref in store && key != [] && key in store[v.ref].props
    then Some(store[v.ref].props[key])
    else None
  }

  /** Follows the components `cs` from `v`; None as soon as one cannot be read. */
  function Walk(store: Store, v: Value, cs: seq<string>): Option<Value>
  {
    if cs == [] then Some(v)
    else match Walk(store, v, cs[..|cs| - 1])
      case None => None
      case Some(w) => Field(store, w, cs[|cs| - 1])
  }

  /** The value holding the last component of `name`. */
  function Owner(store: Store, node: Value, name: string): Option<Value>
  {
    var cs := Components(name);
    Walk(store, node, cs[..|cs| - 1])
  }

  /** PropertyUtils.getProperty; None stands for the exception the engine swallows. */
  function Read(store: Store, node: Value, name: string): (r: Option<Value>)
    ensures r.Some? ==> Owner(store, node, name).Some?
    ensures r.Some? ==>
      var o := Owner(store, node, name).value;
      var cs := Components(name);
      o.Obj? && o.ref in store && cs[|cs| - 1] in store[o.ref].props && r.value == store[o.ref].props[cs[|cs| - 1]]
  {
    Walk(store, node, Components(name))
  }

  /** The property `name` of `node` can be assigned: it can be read and has a setter. */
  predicate Writable(store: Store, node: Value, name: string) {
    var cs := Components(name);
    var owner := Owner(store, node, name);
    Read(store, node, name).Some? && cs[|cs| - 1] !in store[owner.value.ref].readOnly
  }

  /**
   * `store` and `t` differ at most in property `key` of record `r`: no record
   * is added or removed and no other property changes.
   */
  predicate ChangedAtMost(store: Store, t: Store, r: Ref, key: string) {
    t.Keys == store.Keys &&
    (forall q :: q in store && q != r ==> t[q] == store[q]) &&
    (r in store ==>
       t[r].readOnly == store[r].readOnly &&
       t[r].props.Keys == store[r].props.Keys &&
       forall k :: k in store[r].props && k != key ==> t[r].props[k] == store[r].props[k])
  }

  /**
   * PropertyUtils.setProperty with its exception swallowed: the store after
   * assigning `v` to property `name` of `node`, or the store unchanged when
   * the assignment fails.
   */
  function Written(store: Store, node: Value, name: string, v: Value): (t: Store)
    ensures !Writable(store, node, name) ==> t == store
    ensures Writable(store, node, name) ==>
      var cs := Components(name);
      var r := Owner(store, node, name).value.ref;
      r in t && cs[|cs| - 1] in t[r].props && t[r].props[cs[|cs| - 1]] == v &&
      ChangedAtMost(store, t, r, cs[|cs| - 1])
  {
    var cs := Components(name);
    var key := cs[|cs| - 1];
    if Writable(store, node, name) then
      var r := Owner(store, node, name).value.ref;
      store[r := store[r].(props := store[r].props[key := v])]
    else store
  }

  /** For a name without a dot, a write is seen by the next read of the same property. */
  lemma ReadAfterWrite(store: Store, node: Value, name: string, v: Value)
    requires !JavaStrings.Contains(name, ".")
    requires Writable(store, node, name)
    ensures Read(Written(store, node, name, v), node, name) == Some(v)
  {
    assert JavaStrings.IndexOf(name, ".") == -1;
    assert Components(name) == [name];
    assert [name][..0] == [];
    assert Owner(store, node, name) == Some(node);
    var t := Written(store, node, name, v);
    assert Walk(t, node, [name][..0]) == Some(node);
  }

  /** The object graph as the running program holds it, updated in place by setProperty. */
  class ObjectGraph {
    var records: Store

    constructor (records: Store)
      ensures this.records == records
    {
      this.records := records;
    }

    /** PropertyUtils.setProperty(node, name, v), failures swallowed. */
    method SetProperty(node: Value, name: string, v: Value)
      modifies this
      ensures records == Written(old(records), node, name, v)
    {
      records := Written(records, node, name, v);
    }
  }
}
