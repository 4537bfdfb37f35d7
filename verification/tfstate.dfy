/**
 * The legacy (version 3) Terraform state document as both inventory
 * builders read it: a list of modules, each holding resources, each
 * resource carrying a type and the flat string attributes of its
 * primary instance.
 */
module TfState {
  import opened Wrappers

  /**
   * A resource's `primary.attributes` object: its string values by key,
   * and the order in which iterating over the object yields the keys.
   */
  datatype Attributes = Attributes(values: map<string, string>, order: seq<string>)

  /** `order` lists every key of `values` exactly once, as a dictionary's key view does. */
  predicate WellFormed(a: Attributes) {
    && (forall i, j :: 0 <= i < j < |a.order| ==> a.order[i] != a.order[j])
    && (forall i :: 0 <= i < |a.order| ==> a.order[i] in a.values)
    && (forall k :: k in a.values ==> k in a.order)
  }

  /** Reading a property that may be absent, as JavaScript does. */
  function Lookup(values: map<string, string>, k: string): Option<string> {
    if k in values then Some(values[k]) else None
  }

  datatype Resource = Resource(rtype: string, attributes: Attributes)

  datatype Module = Module(resources: seq<Resource>)

  datatype State = State(modules: seq<Module>)

  /** Every resource of every module, modules in order, then each module's resources in order. */
  function Resources(modules: seq<Module>): seq<Resource> {
    if modules == [] then []
    else Resources(modules[..|modules| - 1]) + modules[|modules| - 1].resources
  }

  predicate StartsWith(s: string, prefix: string) {
    |prefix| <= |s| && s[..|prefix|] == prefix
  }

  /** The resources of the first `k` modules come first among all resources. */
  lemma {:induction false} ResourcesPrefix(modules: seq<Module>, k: nat)
    requires k <= |modules|
    ensures Resources(modules[..k]) <= Resources(modules)
  {
    if k < |modules| {
      var n := |modules| - 1;
      assert modules[..n][..k] == modules[..k];
      ResourcesPrefix(modules[..n], k);
    } else {
      assert modules[..k] == modules;
    }
  }

  /** Adding one module appends its resources. */
  lemma ResourcesNext(modules: seq<Module>, k: nat)
    requires k < |modules|
    ensures Resources(modules[..k + 1]) == Resources(modules[..k]) + modules[k].resources
  {
    assert modules[..k + 1][..k] == modules[..k];
  }
}
