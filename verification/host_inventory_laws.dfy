/**
 * What the host-only builder of index.ts guarantees about a whole walk
 * over the state and about the inventory object it renders.
 */
module HostInventoryLaws {
  import opened Wrappers
  import opened TfState
  import opened HostInventory

  /** The hostnames of the `ansible_host` resources, in order; `undefined` where a resource has none. */
  function HostNames(rs: seq<Resource>): seq<Value> {
    if rs == [] then []
    else
      var r := rs[|rs| - 1];
      HostNames(rs[..|rs| - 1]) + (if r.rtype == HostType then [Lookup(r.attributes.values, HostnameKey)] else [])
  }

  /** The resources `walkState` passes on to `addHost`. */
  function HostResources(rs: seq<Resource>): seq<Resource> {
    if rs == [] then []
    else
      var r := rs[|rs| - 1];
      HostResources(rs[..|rs| - 1]) + (if r.rtype == HostType then [r] else [])
  }

  /** Walking leaves every group but `all` as it was; `all` gains every host's name in order. */
  lemma {:induction false} HostsWalkedGroups(s: HostState, rs: seq<Resource>)
    ensures HostsWalked(s, rs).groups ==
              if HostNames(rs) == [] then s.groups else s.groups[All := AllHosts(s) + HostNames(rs)]
  {
    if rs != [] {
      var init := rs[..|rs| - 1];
      HostsWalkedGroups(s, init);
      var r := rs[|rs| - 1];
      var t := HostsWalked(s, init);
      if r.rtype == HostType {
        var h := Lookup(r.attributes.values, HostnameKey);
        assert AllHosts(t) == AllHosts(s) + HostNames(init);
        assert HostNames(rs) == HostNames(init) + [h];
        assert AllHosts(t) + [h] == AllHosts(s) + HostNames(rs);
      } else {
        assert HostNames(rs) == HostNames(init);
        assert HostsWalked(s, rs) == t;
      }
    }
  }

  /** A walk names some host exactly when it meets an `ansible_host` resource. */
  lemma {:induction false} HostNamesEmpty(rs: seq<Resource>)
    ensures HostNames(rs) == [] <==> forall i :: 0 <= i < |rs| ==> rs[i].rtype != HostType
  {
    if rs != [] {
      var init := rs[..|rs| - 1];
      HostNamesEmpty(init);
      assert forall i :: 0 <= i < |init| ==> init[i] == rs[i];
    }
  }

  /**
   * From an empty builder, the inventory has an `all` group exactly when
   * the state holds an `ansible_host` resource, and then `all` lists
   * every host resource's name, duplicates included, in state order.
   */
  lemma AllGroupFromEmpty(rs: seq<Resource>)
    ensures All in HostsWalked(Empty, rs).groups <==> exists i :: 0 <= i < |rs| && rs[i].rtype == HostType
    ensures HostsWalked(Empty, rs).groups.Keys <= {All}
    ensures All in HostsWalked(Empty, rs).groups ==> HostsWalked(Empty, rs).groups[All] == HostNames(rs)
  {
    HostsWalkedGroups(Empty, rs);
    HostNamesEmpty(rs);
  }

  /** Resources of any other type, `ansible_group` included, have no effect on the walk. */
  lemma {:induction false} HostsWalkedIgnoresOthers(s: HostState, rs: seq<Resource>)
    ensures HostsWalked(s, rs) == HostsWalked(s, HostResources(rs))
  {
    if rs != [] {
      var init := rs[..|rs| - 1];
      HostsWalkedIgnoresOthers(s, init);
      var r := rs[|rs| - 1];
      var hr := HostResources(rs);
      if r.rtype == HostType {
        assert hr == HostResources(init) + [r];
        assert hr[..|hr| - 1] == HostResources(init) && hr[|hr| - 1] == r;
      } else {
        assert hr == HostResources(init);
      }
    }
  }

  /** Resource `r` is an `ansible_host` whose `inventory_hostname` reads as `h`. */
  predicate Declares(r: Resource, h: Value) {
    r.rtype == HostType && Lookup(r.attributes.values, HostnameKey) == h
  }

  /** The last host resource with a given name decides that name's variables. */
  lemma {:induction false} HostvarsLastWins(s: HostState, rs: seq<Resource>, i: nat, h: Value)
    requires i < |rs| && Declares(rs[i], h)
    requires forall j :: i < j < |rs| ==> !Declares(rs[j], h)
    ensures h in HostsWalked(s, rs).hostvars
    ensures HostsWalked(s, rs).hostvars[h] == GetMap("vars", rs[i].attributes.values)
  {
    var init := rs[..|rs| - 1];
    if i < |rs| - 1 {
      HostvarsLastWins(s, init, i, h);
    }
  }

  /** A name no host resource declares keeps the variables it had before the walk, or stays absent. */
  lemma {:induction false} HostvarsUndeclared(s: HostState, rs: seq<Resource>, h: Value)
    requires forall j :: 0 <= j < |rs| ==> !Declares(rs[j], h)
    ensures h in HostsWalked(s, rs).hostvars <==> h in s.hostvars
    ensures h in s.hostvars ==> HostsWalked(s, rs).hostvars[h] == s.hostvars[h]
  {
    if rs != [] {
      var init := rs[..|rs| - 1];
      assert forall j :: 0 <= j < |init| ==> init[j] == rs[j];
      HostvarsUndeclared(s, init, h);
    }
  }

  /** A walk keeps the builder consistent. */
  lemma {:induction false} HostsWalkedConsistent(s: HostState, rs: seq<Resource>)
    requires Consistent(s)
    ensures Consistent(HostsWalked(s, rs))
  {
    if rs != [] {
      HostsWalkedConsistent(s, rs[..|rs| - 1]);
      var r := rs[|rs| - 1];
      if r.rtype == HostType {
        HostAddedConsistent(HostsWalked(s, rs[..|rs| - 1]), r.attributes.values);
      }
    }
  }

  /** Copying the `Map` into an object: a property exists exactly for the property names of the visited keys. */
  lemma {:induction false} MetaOverKeys(hostvars: map<Value, map<string, Value>>, order: seq<Value>, p: string)
    requires forall k :: 0 <= k < |order| ==> order[k] in hostvars
    ensures p in MetaOver(hostvars, order) <==> exists k :: 0 <= k < |order| && PropertyKey(order[k]) == p
  {
    if order != [] {
      var n := |order| - 1;
      var init := order[..n];
      MetaOverKeys(hostvars, init, p);
      if p in MetaOver(hostvars, init) {
        var k :| 0 <= k < |init| && PropertyKey(init[k]) == p;
        assert order[k] == init[k];
      }
      if p != PropertyKey(order[n]) && exists k :: 0 <= k < |order| && PropertyKey(order[k]) == p {
        var k :| 0 <= k < |order| && PropertyKey(order[k]) == p;
        assert init[k] == order[k];
      }
    }
  }

  /** The property of a visited key holds that key's value when no later key has the same property name. */
  lemma {:induction false} MetaOverValue(hostvars: map<Value, map<string, Value>>, order: seq<Value>, i: nat)
    requires forall k :: 0 <= k < |order| ==> order[k] in hostvars
    requires i < |order| && forall j :: i < j < |order| ==> PropertyKey(order[j]) != PropertyKey(order[i])
    ensures PropertyKey(order[i]) in MetaOver(hostvars, order)
    ensures MetaOver(hostvars, order)[PropertyKey(order[i])] == hostvars[order[i]]
  {
    var n := |order| - 1;
    if i < n {
      var init := order[..n];
      assert forall j :: i < j < |init| ==> init[j] == order[j];
      MetaOverValue(hostvars, init, i);
    }
  }

  /**
   * Unless a nameless host and a host named "undefined" share the
   * property name "undefined", `_meta.hostvars` holds every host's
   * variables under its name and nothing else.
   */
  lemma RenderedHostvars(s: HostState)
    requires Consistent(s) && !(None in s.hostvars && Some("undefined") in s.hostvars)
    ensures forall p :: p in MetaOver(s.hostvars, s.order) <==> exists h :: h in s.hostvars && PropertyKey(h) == p
    ensures forall h :: h in s.hostvars ==> MetaOver(s.hostvars, s.order)[PropertyKey(h)] == s.hostvars[h]
  {
    var meta := MetaOver(s.hostvars, s.order);
    forall p ensures p in meta <==> exists h :: h in s.hostvars && PropertyKey(h) == p {
      MetaOverKeys(s.hostvars, s.order, p);
      if exists h :: h in s.hostvars && PropertyKey(h) == p {
        var h :| h in s.hostvars && PropertyKey(h) == p;
        var k :| 0 <= k < |s.order| && s.order[k] == h;
      }
    }
    forall h | h in s.hostvars ensures meta[PropertyKey(h)] == s.hostvars[h] {
      var i :| 0 <= i < |s.order| && s.order[i] == h;
      forall j | i < j < |s.order| ensures PropertyKey(s.order[j]) != PropertyKey(s.order[i]) {
        assert s.order[j] != s.order[i];
        assert s.order[j] in s.hostvars;
      }
      MetaOverValue(s.hostvars, s.order, i);
    }
  }

  /** The properties of the rendered object: a copy of every group, and `_meta` holding the copied `Map`. */
  lemma RenderedShape(s: HostState)
    requires forall i :: 0 <= i < |s.order| ==> s.order[i] in s.hostvars
    ensures Rendered(s).Keys == s.groups.Keys + {Meta}
    ensures All in Rendered(s) <==> All in s.groups
    ensures All in Rendered(s) ==> Rendered(s)[All] == HostList(s.groups[All])
    ensures Rendered(s)[Meta] == HostVars(MetaOver(s.hostvars, s.order))
  {
    assert All != Meta;
  }

  /**
   * The rendered inventory of a consistent builder: its properties are
   * the groups and `_meta`; `all` is present exactly when a host was
   * added; and, without the "undefined" clash, `_meta.hostvars` holds
   * every host's variables under its name and nothing else.
   */
  lemma RenderedInventory(s: HostState)
    requires Consistent(s)
    ensures Rendered(s).Keys == s.groups.Keys + {Meta}
    ensures All in Rendered(s) <==> |s.hostvars| > 0
    ensures All in Rendered(s) ==> Rendered(s)[All] == HostList(s.groups[All])
    ensures Rendered(s)[Meta] == HostVars(MetaOver(s.hostvars, s.order))
    ensures !(None in s.hostvars && Some("undefined") in s.hostvars) ==>
              && (forall p :: p in Rendered(s)[Meta].hostvars <==> exists h :: h in s.hostvars && PropertyKey(h) == p)
              && (forall h :: h in s.hostvars ==> Rendered(s)[Meta].hostvars[PropertyKey(h)] == s.hostvars[h])
  {
    RenderedShape(s);
    if !(None in s.hostvars && Some("undefined") in s.hostvars) {
      RenderedHostvars(s);
    }
  }
}
