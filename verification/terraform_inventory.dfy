/**
 * terraform.py's inventory: a dictionary from group name to a group
 * record (hosts, vars, children) beside a `_meta.hostvars` table,
 * updated in place while the script walks the state's resources.
 */
module TerraformInventory {
  import opened Wrappers
  import opened TfState
  import opened Flatmap

  /** A group record: its hosts, its variables and its child groups. */
  datatype Group = Group(hosts: seq<string>, vars: map<string, string>, children: seq<string>)

  /** The whole inventory dictionary: the groups, and the host-variable table under `_meta`. */
  datatype Snapshot = Snapshot(groups: map<string, Group>, hostvars: map<string, map<string, string>>)

  const All: string := "all"
  const Meta: string := "_meta"
  const HostType: string := "ansible_host"
  const GroupType: string := "ansible_group"
  const TypePrefix: string := "ansible_"
  const HostnameKey: string := "inventory_hostname"
  const GroupNameKey: string := "inventory_group_name"

  /** The keys of a group record, which the membership guard of `_add_host` consults. */
  const RecordKeys: set<string> := {"hosts", "vars", "children"}

  /** `_init_group`: a field the caller leaves out starts empty. */
  function InitGroup(children: Option<seq<string>>, hosts: Option<seq<string>>,
                     vars: Option<map<string, string>>): (g: Group)
    ensures hosts.None? ==> g.hosts == []
    ensures vars.None? ==> g.vars == map[]
    ensures children.None? ==> g.children == []
    ensures hosts.Some? ==> g.hosts == hosts.value
    ensures vars.Some? ==> g.vars == vars.value
    ensures children.Some? ==> g.children == children.value
  {
    Group(hosts.GetOr([]), vars.GetOr(map[]), children.GetOr([]))
  }

  /** `_init_inventory`: only an empty `all` group, and no host variables. */
  function InitInventory(): (s: Snapshot)
    ensures s.groups.Keys == {All} && s.groups[All] == Group([], map[], [])
    ensures s.hostvars == map[]
  {
    Snapshot(map[All := InitGroup(None, None, None)], map[])
  }

  /**
   * One iteration of `_add_host`'s loop: a new group starts with just
   * this host; an existing one gets the host appended unless the host's
   * name is one of the group record's own keys.
   */
  function JoinGroup(groups: map<string, Group>, hostname: string, g: string): map<string, Group> {
    if g !in groups then groups[g := InitGroup(None, Some([hostname]), None)]
    else if hostname !in RecordKeys then groups[g := groups[g].(hosts := groups[g].hosts + [hostname])]
    else groups
  }

  /** `_add_host`'s loop over the host's groups, in list order. */
  function JoinGroups(groups: map<string, Group>, hostname: string, gs: seq<string>): map<string, Group> {
    if gs == [] then groups
    else JoinGroup(JoinGroups(groups, hostname, gs[..|gs| - 1]), hostname, gs[|gs| - 1])
  }

  /** The inventory after `_add_host(inventory, hostname, gs, hostVars)`. */
  function HostAdded(s: Snapshot, hostname: string, gs: seq<string>, hostVars: map<string, string>): Snapshot
    requires Meta !in gs
  {
    Snapshot(JoinGroups(s.groups, hostname, gs), s.hostvars[hostname := hostVars])
  }

  /**
   * The inventory after `_add_group(inventory, name, children, groupVars)`:
   * a new group has no hosts; an existing one keeps its hosts and has its
   * children and variables replaced, so the last declaration wins.
   */
  function GroupAdded(s: Snapshot, name: string, children: seq<string>, groupVars: map<string, string>): (r: Snapshot)
    requires name != Meta
    ensures r.groups.Keys == s.groups.Keys + {name}
    ensures r.groups[name].children == children && r.groups[name].vars == groupVars
    ensures r.groups[name].hosts == if name in s.groups then s.groups[name].hosts else []
    ensures forall g :: g in s.groups && g != name ==> r.groups[g] == s.groups[g]
    ensures r.hostvars == s.hostvars
  {
    if name !in s.groups then s.(groups := s.groups[name := InitGroup(Some(children), None, Some(groupVars))])
    else s.(groups := s.groups[name := s.groups[name].(children := children, vars := groupVars)])
  }

  /** `_handle_host`'s group list: `all` is appended only when it is absent. */
  function WithAll(gs: seq<string>): (r: seq<string>)
    ensures All in r
    ensures multiset(r)[All] == if All in gs then multiset(gs)[All] else 1
    ensures forall g :: g != All ==> multiset(r)[g] == multiset(gs)[g]
  {
    if All in gs then gs else gs + [All]
  }

  /** A host resource this model covers: no listed group is named `_meta`. */
  predicate HostInScope(attrs: Attributes) {
    && WellFormed(attrs)
    && (ListOf(attrs.values, "groups").Success? ==> Meta !in ListOf(attrs.values, "groups").value)
  }

  /** A group resource this model covers: it does not declare a group named `_meta`. */
  predicate GroupInScope(attrs: Attributes) {
    && WellFormed(attrs)
    && (GroupNameKey in attrs.values ==> attrs.values[GroupNameKey] != Meta)
  }

  predicate InScope(r: Resource) {
    && WellFormed(r.attributes)
    && (r.rtype == HostType ==> HostInScope(r.attributes))
    && (r.rtype == GroupType ==> GroupInScope(r.attributes))
  }

  /**
   * `_handle_host`: decode `vars` and `groups`, read the host name, add
   * `all` if missing and add the host. It raises exactly when the group
   * list cannot be decoded or the host name is missing.
   */
  function HostHandled(s: Snapshot, attrs: Attributes): (r: Result<Snapshot, Error>)
    requires HostInScope(attrs)
    ensures r.Failure? <==> ListOf(attrs.values, "groups").Failure? || HostnameKey !in attrs.values
  {
    var hostVars := DictOf(attrs, "vars");
    match ListOf(attrs.values, "groups")
    case Failure(e) => Failure(e)
    case Success(gs) =>
      if HostnameKey !in attrs.values then Failure(MissingAttribute(HostnameKey))
      else Success(HostAdded(s, attrs.values[HostnameKey], WithAll(gs), hostVars))
  }

  /**
   * `_handle_group`: decode `vars` and `children`, read the group name and
   * add the group. It raises exactly when the children list cannot be
   * decoded or the group name is missing.
   */
  function GroupHandled(s: Snapshot, attrs: Attributes): (r: Result<Snapshot, Error>)
    requires GroupInScope(attrs)
    ensures r.Failure? <==> ListOf(attrs.values, "children").Failure? || GroupNameKey !in attrs.values
  {
    var groupVars := DictOf(attrs, "vars");
    match ListOf(attrs.values, "children")
    case Failure(e) => Failure(e)
    case Success(children) =>
      if GroupNameKey !in attrs.values then Failure(MissingAttribute(GroupNameKey))
      else Success(GroupAdded(s, attrs.values[GroupNameKey], children, groupVars))
  }

  /** One iteration of `_walk_state`: types outside `ansible_`, and other `ansible_` types, change nothing. */
  function ResourceApplied(s: Snapshot, r: Resource): Result<Snapshot, Error>
    requires InScope(r)
  {
    if !StartsWith(r.rtype, TypePrefix) then Success(s)
    else if r.rtype == HostType then HostHandled(s, r.attributes)
    else if r.rtype == GroupType then GroupHandled(s, r.attributes)
    else Success(s)
  }

  /** `_walk_state` over resources in order; the first failure ends the walk. */
  function Walked(s: Snapshot, rs: seq<Resource>): Result<Snapshot, Error>
    requires forall r :: r in rs ==> InScope(r)
  {
    if rs == [] then Success(s)
    else
      match Walked(s, rs[..|rs| - 1])
      case Failure(e) => Failure(e)
      case Success(mid) => ResourceApplied(mid, rs[|rs| - 1])
  }

  /** Walking one more resource applies it to the inventory reached so far, unless the walk has already failed. */
  lemma WalkedNext(s: Snapshot, rs: seq<Resource>, r: Resource)
    requires forall x :: x in rs + [r] ==> InScope(x)
    ensures forall x :: x in rs ==> InScope(x)
    ensures Walked(s, rs + [r]) ==
              match Walked(s, rs)
              case Failure(e) => Failure(e)
              case Success(mid) => ResourceApplied(mid, r)
  {
    assert forall x :: x in rs ==> x in rs + [r];
    assert (rs + [r])[..|rs|] == rs;
  }

  /** A failure is final: walking more resources does not change it. */
  lemma {:induction false} WalkedFailureSticks(s: Snapshot, p: seq<Resource>, q: seq<Resource>)
    requires forall r :: r in p + q ==> InScope(r)
    requires Walked(s, p).Failure?
    ensures Walked(s, p + q) == Walked(s, p)
  {
    if q != [] {
      var n := |q| - 1;
      assert (p + q)[..|p + q| - 1] == p + q[..n];
      assert forall r :: r in p + q[..n] ==> r in p + q;
      WalkedFailureSticks(s, p, q[..n]);
    } else {
      assert p + q == p;
    }
  }

  /** A failure after a prefix of the resources is the failure of the whole walk. */
  lemma WalkedPrefixFails(s: Snapshot, p: seq<Resource>, rs: seq<Resource>)
    requires forall r :: r in rs ==> InScope(r)
    requires p <= rs && Walked(s, p).Failure?
    ensures Walked(s, rs) == Walked(s, p)
  {
    assert p + rs[|p|..] == rs;
    WalkedFailureSticks(s, p, rs[|p|..]);
  }

  /** The inventory dictionary, updated in place. */
  class Inventory {
    var groups: map<string, Group>
    var hostvars: map<string, map<string, string>>

    function Value(): Snapshot
      reads this
    {
      Snapshot(groups, hostvars)
    }

    /** `_init_inventory()`. */
    constructor ()
      ensures Value() == InitInventory()
    {
      groups := map[All := InitGroup(None, None, None)];
      hostvars := map[];
    }

    /** `_add_host`: replace the host's variables, then join each listed group in turn. */
    method AddHost(hostname: string, gs: seq<string>, hostVars: map<string, string>)
      requires Meta !in gs
      modifies this
      ensures Value() == HostAdded(old(Value()), hostname, gs, hostVars)
    {
      hostvars := hostvars[hostname := hostVars];
      for i := 0 to |gs|
        invariant groups == JoinGroups(old(groups), hostname, gs[..i])
        invariant hostvars == old(hostvars)[hostname := hostVars]
      {
        assert gs[..i + 1][..i] == gs[..i];
        var g := gs[i];
        if g !in groups {
          groups := groups[g := InitGroup(None, Some([hostname]), None)];
        } else if hostname !in RecordKeys {
          groups := groups[g := groups[g].(hosts := groups[g].hosts + [hostname])];
        }
      }
      assert gs[..|gs|] == gs;
    }

    /** `_add_group`. */
    method AddGroup(name: string, children: seq<string>, groupVars: map<string, string>)
      requires name != Meta
      modifies this
      ensures Value() == GroupAdded(old(Value()), name, children, groupVars)
    {
      if name !in groups {
        groups := groups[name := InitGroup(Some(children), None, Some(groupVars))];
      } else {
        groups := groups[name := groups[name].(children := children, vars := groupVars)];
      }
    }

    /** `_handle_host`; when it raises, nothing has been changed yet. */
    method HandleHost(attrs: Attributes) returns (o: Outcome<Error>)
      requires HostInScope(attrs)
      modifies this
      ensures HostHandled(old(Value()), attrs).Success? ==>
                o == Pass && Value() == HostHandled(old(Value()), attrs).value
      ensures HostHandled(old(Value()), attrs).Failure? ==>
                o == Fail(HostHandled(old(Value()), attrs).error) && Value() == old(Value())
    {
      var hostVars := ExtractDict(attrs, "vars");
      var gs := ExtractList(attrs, "groups");
      if gs.Failure? {
        return Fail(gs.error);
      }
      if HostnameKey !in attrs.values {
        return Fail(MissingAttribute(HostnameKey));
      }
      var hostname := attrs.values[HostnameKey];
      var groupList := gs.value;
      if All !in groupList {
        groupList := groupList + [All];
      }
      AddHost(hostname, groupList, hostVars);
      return Pass;
    }

    /** `_handle_group`; when it raises, nothing has been changed yet. */
    method HandleGroup(attrs: Attributes) returns (o: Outcome<Error>)
      requires GroupInScope(attrs)
      modifies this
      ensures GroupHandled(old(Value()), attrs).Success? ==>
                o == Pass && Value() == GroupHandled(old(Value()), attrs).value
      ensures GroupHandled(old(Value()), attrs).Failure? ==>
                o == Fail(GroupHandled(old(Value()), attrs).error) && Value() == old(Value())
    {
      var groupVars := ExtractDict(attrs, "vars");
      var children := ExtractList(attrs, "children");
      if children.Failure? {
        return Fail(children.error);
      }
      if GroupNameKey !in attrs.values {
        return Fail(MissingAttribute(GroupNameKey));
      }
      AddGroup(attrs.values[GroupNameKey], children.value, groupVars);
      return Pass;
    }

    /** The body of `_walk_state`'s inner loop, for one resource. */
    method ApplyResource(r: Resource) returns (o: Outcome<Error>)
      requires InScope(r)
      modifies this
      ensures ResourceApplied(old(Value()), r).Success? ==>
                o == Pass && Value() == ResourceApplied(old(Value()), r).value
      ensures ResourceApplied(old(Value()), r).Failure? ==>
                o == Fail(ResourceApplied(old(Value()), r).error) && Value() == old(Value())
    {
      o := Pass;
      if !StartsWith(r.rtype, TypePrefix) {
        return;
      }
      if r.rtype == HostType {
        o := HandleHost(r.attributes);
      }
      if r.rtype == GroupType {
        o := HandleGroup(r.attributes);
      }
    }

    /**
     * `_walk_state`'s inner loop over one module's resources. `done` are
     * the resources walked before them from `start`, and `all` holds
     * every resource of the state.
     */
    method WalkResources(resources: seq<Resource>, ghost start: Snapshot, ghost done: seq<Resource>,
                         ghost all: seq<Resource>) returns (o: Outcome<Error>)
      requires forall r :: r in all ==> InScope(r)
      requires done + resources <= all
      requires forall r :: r in done ==> InScope(r)
      requires Walked(start, done) == Success(Value())
      modifies this
      ensures o == Pass ==> Walked(start, done + resources) == Success(Value())
      ensures o.Fail? ==> Walked(start, all) == Failure(o.error)
    {
      assert done + resources[..0] == done;
      for j := 0 to |resources|
        invariant done + resources[..j] <= all
        invariant forall r :: r in done + resources[..j] ==> InScope(r)
        invariant Walked(start, done + resources[..j]) == Success(Value())
      {
        ghost var upTo := done + resources[..j + 1];
        assert upTo == (done + resources[..j]) + [resources[j]];
        assert upTo <= all;
        WalkedNext(start, done + resources[..j], resources[j]);
        o := ApplyResource(resources[j]);
        if o.Fail? {
          WalkedPrefixFails(start, upTo, all);
          return;
        }
      }
      assert resources[..|resources|] == resources;
      return Pass;
    }

    /**
     * `_walk_state`: every module in order, every resource of it in
     * order; the first resource that raises ends the walk.
     */
    method WalkState(state: State) returns (o: Outcome<Error>)
      requires forall r :: r in Resources(state.modules) ==> InScope(r)
      modifies this
      ensures Walked(old(Value()), Resources(state.modules)).Success? ==>
                o == Pass && Value() == Walked(old(Value()), Resources(state.modules)).value
      ensures Walked(old(Value()), Resources(state.modules)).Failure? ==>
                o == Fail(Walked(old(Value()), Resources(state.modules)).error)
    {
      ghost var start := Value();
      var modules := state.modules;
      ghost var all := Resources(modules);
      for i := 0 to |modules|
        invariant forall r :: r in Resources(modules[..i]) ==> InScope(r)
        invariant Walked(start, Resources(modules[..i])) == Success(Value())
      {
        ResourcesPrefix(modules, i + 1);
        ResourcesNext(modules, i);
        o := WalkResources(modules[i].resources, start, Resources(modules[..i]), all);
        if o.Fail? {
          return;
        }
      }
      assert modules[..|modules|] == modules;
      return Pass;
    }
  }

  /**
   * `_main` without its I/O: build a fresh inventory and walk the state;
   * any failure means exit status 1 and no output.
   */
  method BuildInventory(state: State) returns (r: Result<Snapshot, Error>)
    requires forall res :: res in Resources(state.modules) ==> InScope(res)
    ensures r == Walked(InitInventory(), Resources(state.modules))
  {
    var inventory := new Inventory();
    var o := inventory.WalkState(state);
    if o.Fail? {
      return Failure(o.error);
    }
    return Success(inventory.Value());
  }
}
