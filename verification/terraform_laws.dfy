/**
 * What the terraform.py walk guarantees about the inventory it builds:
 * how one host or group declaration changes it, when the walk fails,
 * which declaration of a host or group wins, and the facts every
 * inventory it builds satisfies.
 */
module TerraformLaws {
  import opened Wrappers
  import opened TfState
  import opened Flatmap
  import opened TerraformInventory

  /** `c` copies of `h`. */
  function Repeat(h: string, c: nat): (r: seq<string>)
    ensures |r| == c && forall x :: x in r ==> x == h
  {
    if c == 0 then [] else Repeat(h, c - 1) + [h]
  }

  /** How many of `c` requests to append `h` to an existing group take effect. */
  function Appended(h: string, c: nat): nat {
    if h in RecordKeys then 0 else c
  }

  // ------------------------------------------------------------ one host

  /** One iteration of `_add_host`'s loop, seen from group `g`. */
  lemma JoinGroupAt(groups: map<string, Group>, h: string, x: string, g: string)
    ensures g in JoinGroup(groups, h, x) <==> g in groups || g == x
    ensures g != x && g in groups ==> JoinGroup(groups, h, x)[g] == groups[g]
    ensures g == x && g in groups ==>
              JoinGroup(groups, h, x)[g] == groups[g].(hosts := groups[g].hosts + Repeat(h, Appended(h, 1)))
    ensures g == x && g !in groups ==> JoinGroup(groups, h, x)[g] == Group([h], map[], [])
  {
  }

  /**
   * `_add_host`'s loop over the groups `gs`: only listed groups change. A
   * listed group that existed gets the host appended once per time it is
   * listed; a new one starts with the host, which later listings append
   * again. A host whose name is a key of the group record (`hosts`,
   * `vars`, `children`) is never appended to an existing group. Variables
   * and children are never touched.
   */
  lemma {:induction false} JoinGroupsEffect(groups: map<string, Group>, h: string, gs: seq<string>, g: string)
    ensures g in JoinGroups(groups, h, gs) <==> g in groups || g in gs
    ensures g in groups && g !in gs ==> JoinGroups(groups, h, gs)[g] == groups[g]
    ensures g in groups && g in gs ==>
              JoinGroups(groups, h, gs)[g] ==
              groups[g].(hosts := groups[g].hosts + Repeat(h, Appended(h, multiset(gs)[g])))
    ensures g !in groups && g in gs ==>
              JoinGroups(groups, h, gs)[g] == Group([h] + Repeat(h, Appended(h, multiset(gs)[g] - 1)), map[], [])
  {
    if gs != [] {
      var n := |gs| - 1;
      var p, x := gs[..n], gs[n];
      assert gs == p + [x];
      assert multiset(gs) == multiset(p) + multiset{x};
      JoinGroupsEffect(groups, h, p, g);
      JoinGroupAt(JoinGroups(groups, h, p), h, x, g);
      if x != g {
        assert multiset(gs)[g] == multiset(p)[g];
      } else if g in JoinGroups(groups, h, p) {
        var c := multiset(p)[g];
        assert multiset(gs)[g] == c + 1;
        if g in groups {
          HostsAgain(groups[g].hosts, h, c);
        } else {
          HostsAgain([h], h, c - 1);
        }
      } else {
        assert multiset(gs)[g] == 1;
      }
    }
  }

  /** `c` and then `d` copies of `h` are `c + d` copies. */
  lemma RepeatAdd(h: string, c: nat, d: nat)
    ensures Repeat(h, c) + Repeat(h, d) == Repeat(h, c + d)
  {
    var l, r := Repeat(h, c) + Repeat(h, d), Repeat(h, c + d);
    assert |l| == |r|;
    forall i | 0 <= i < |l| ensures l[i] == r[i] {
      assert l[i] in l && r[i] in r;
    }
  }

  /** Appending one more copy of `h`, when it takes effect, continues the run of copies. */
  lemma HostsAgain(base: seq<string>, h: string, c: nat)
    ensures base + Repeat(h, Appended(h, c)) + Repeat(h, Appended(h, 1)) == base + Repeat(h, Appended(h, c + 1))
  {
    RepeatAdd(h, Appended(h, c), Appended(h, 1));
    assert Appended(h, c) + Appended(h, 1) == Appended(h, c + 1);
  }

  /** After `_add_host`'s loop every listed group exists and holds the host, unless its name is a record key. */
  lemma JoinGroupsListed(groups: map<string, Group>, h: string, gs: seq<string>, g: string)
    requires g in gs
    ensures g in JoinGroups(groups, h, gs)
    ensures h !in RecordKeys ==> h in JoinGroups(groups, h, gs)[g].hosts
  {
    JoinGroupsEffect(groups, h, gs, g);
    var r := Repeat(h, multiset(gs)[g]);
    if g in groups && h !in RecordKeys {
      assert r[0] in r;
    }
  }

  /** `_add_host`'s loop keeps every existing group's hosts as a prefix, and its variables and children. */
  lemma JoinGroupsKeeps(groups: map<string, Group>, h: string, gs: seq<string>, g: string)
    requires g in groups
    ensures g in JoinGroups(groups, h, gs)
    ensures groups[g].hosts <= JoinGroups(groups, h, gs)[g].hosts
    ensures JoinGroups(groups, h, gs)[g].vars == groups[g].vars
    ensures JoinGroups(groups, h, gs)[g].children == groups[g].children
  {
    JoinGroupsEffect(groups, h, gs, g);
  }

  /** Every host `_add_host`'s loop puts in a group is an earlier member or `h` itself. */
  lemma JoinGroupsMembers(groups: map<string, Group>, h: string, gs: seq<string>, g: string, x: string)
    requires g in JoinGroups(groups, h, gs) && x in JoinGroups(groups, h, gs)[g].hosts
    ensures x == h || (g in groups && x in groups[g].hosts)
  {
    JoinGroupsEffect(groups, h, gs, g);
  }

  /**
   * `_handle_host` on success: the host's variables are replaced
   * wholesale by the decoded `vars`, other hosts' entries stay, every
   * listed group and `all` exist afterwards, and each contains the host
   * unless its name is a key of the group record.
   */
  lemma HostHandledEffect(s: Snapshot, attrs: Attributes)
    requires HostInScope(attrs) && HostHandled(s, attrs).Success?
    ensures var t := HostHandled(s, attrs).value;
            var h := attrs.values[HostnameKey];
            && t.hostvars == s.hostvars[h := DictOf(attrs, "vars")]
            && All in t.groups
            && (forall g :: g in WithAll(ListOf(attrs.values, "groups").value) ==>
                  g in t.groups && (h !in RecordKeys ==> h in t.groups[g].hosts))
  {
    var gs := WithAll(ListOf(attrs.values, "groups").value);
    var h := attrs.values[HostnameKey];
    forall g | g in gs
      ensures g in JoinGroups(s.groups, h, gs) && (h !in RecordKeys ==> h in JoinGroups(s.groups, h, gs)[g].hosts)
    {
      JoinGroupsListed(s.groups, h, gs, g);
    }
  }

  /**
   * Two `_add_group` calls for the same name: the later declaration's
   * children and variables win, and the group's hosts are those it had
   * before either call.
   */
  lemma GroupLastInWins(s: Snapshot, name: string, c1: seq<string>, v1: map<string, string>,
                        c2: seq<string>, v2: map<string, string>)
    requires name != Meta
    ensures var t := GroupAdded(GroupAdded(s, name, c1, v1), name, c2, v2);
            t.groups[name] == Group(if name in s.groups then s.groups[name].hosts else [], v2, c2)
  {
  }

  // ------------------------------------------------------------ the walk

  /** A host resource that names host `h`. */
  predicate DeclaresHost(r: Resource, h: string) {
    r.rtype == HostType && HostnameKey in r.attributes.values && r.attributes.values[HostnameKey] == h
  }

  /** A group resource that names group `g`. */
  predicate DeclaresGroup(r: Resource, g: string) {
    r.rtype == GroupType && GroupNameKey in r.attributes.values && r.attributes.values[GroupNameKey] == g
  }

  /** A resource on which `_walk_state` raises. */
  predicate Rejected(r: Resource) {
    || (r.rtype == HostType && (ListOf(r.attributes.values, "groups").Failure? || HostnameKey !in r.attributes.values))
    || (r.rtype == GroupType && (ListOf(r.attributes.values, "children").Failure? || GroupNameKey !in r.attributes.values))
  }

  /** The resources `_walk_state` acts on: exactly the `ansible_host` and `ansible_group` ones. */
  function Relevant(rs: seq<Resource>): (r: seq<Resource>)
    ensures forall x :: x in r <==> x in rs && (x.rtype == HostType || x.rtype == GroupType)
  {
    if rs == [] then []
    else
      var x := rs[|rs| - 1];
      Relevant(rs[..|rs| - 1]) + (if x.rtype == HostType || x.rtype == GroupType then [x] else [])
  }

  lemma TypeNames()
    ensures StartsWith(HostType, TypePrefix) && StartsWith(GroupType, TypePrefix) && HostType != GroupType
  {
    assert HostType[..|TypePrefix|] == TypePrefix;
    assert GroupType[..|TypePrefix|] == TypePrefix;
    assert HostType[8] != GroupType[8];
  }

  /** One resource: which handler it reaches, if any. */
  lemma AppliedCases(s: Snapshot, r: Resource)
    requires InScope(r)
    ensures r.rtype != HostType && r.rtype != GroupType ==> ResourceApplied(s, r) == Success(s)
    ensures r.rtype == HostType ==> ResourceApplied(s, r) == HostHandled(s, r.attributes)
    ensures r.rtype == GroupType ==> ResourceApplied(s, r) == GroupHandled(s, r.attributes)
    ensures ResourceApplied(s, r).Failure? <==> Rejected(r)
  {
    TypeNames();
  }

  /** Walking `p + q` is walking `p`, then, if that succeeded, walking `q`. */
  lemma {:induction false} WalkedAppend(s: Snapshot, p: seq<Resource>, q: seq<Resource>)
    requires forall r :: r in p + q ==> InScope(r)
    ensures Walked(s, p + q) ==
            if Walked(s, p).Failure? then Walked(s, p) else Walked(Walked(s, p).value, q)
  {
    if q == [] {
      assert p + q == p;
    } else {
      var n := |q| - 1;
      assert (p + q)[..|p + q| - 1] == p + q[..n];
      assert forall r :: r in p + q[..n] ==> r in p + q;
      WalkedAppend(s, p, q[..n]);
    }
  }

  /**
   * The walk fails exactly when some resource is an `ansible_host` without
   * a decodable group list or a host name, or an `ansible_group` without a
   * decodable children list or a group name, whatever the inventory was.
   */
  lemma {:induction false} WalkedFailsIff(s: Snapshot, rs: seq<Resource>)
    requires forall r :: r in rs ==> InScope(r)
    ensures Walked(s, rs).Failure? <==> exists i :: 0 <= i < |rs| && Rejected(rs[i])
  {
    if rs != [] {
      var n := |rs| - 1;
      var p := rs[..n];
      WalkedFailsIff(s, p);
      if Walked(s, p).Success? {
        AppliedCases(Walked(s, p).value, rs[n]);
      }
      if exists i :: 0 <= i < |rs| && Rejected(rs[i]) {
        var i :| 0 <= i < |rs| && Rejected(rs[i]);
        if i < n {
          assert rs[i] == p[i];
        }
      }
    }
  }

  /** Resources of any type other than `ansible_host` and `ansible_group` leave no trace. */
  lemma {:induction false} WalkedIgnoresOthers(s: Snapshot, rs: seq<Resource>)
    requires forall r :: r in rs ==> InScope(r)
    ensures Walked(s, rs) == Walked(s, Relevant(rs))
  {
    if rs != [] {
      var n := |rs| - 1;
      var p := rs[..n];
      var x := rs[n];
      WalkedIgnoresOthers(s, p);
      WalkedAppend(s, Relevant(p), if x.rtype == HostType || x.rtype == GroupType then [x] else []);
      if Walked(s, p).Success? {
        AppliedCases(Walked(s, p).value, x);
      }
    }
  }

  /** Without any `ansible_host` or `ansible_group` resource, the walk returns the inventory it was given. */
  lemma NothingRelevant(s: Snapshot, rs: seq<Resource>)
    requires forall r :: r in rs ==> InScope(r)
    requires forall r :: r in rs ==> r.rtype != HostType && r.rtype != GroupType
    ensures Walked(s, rs) == Success(s)
  {
    WalkedIgnoresOthers(s, rs);
  }

  /** Splitting the walk at resource `i`: the prefix succeeds, resource `i` applies, and the rest finishes the walk. */
  lemma WalkedAt(s: Snapshot, rs: seq<Resource>, i: nat)
    requires forall r :: r in rs ==> InScope(r)
    requires Walked(s, rs).Success? && i < |rs|
    ensures Walked(s, rs[..i]).Success?
    ensures ResourceApplied(Walked(s, rs[..i]).value, rs[i]).Success?
    ensures Walked(ResourceApplied(Walked(s, rs[..i]).value, rs[i]).value, rs[i + 1..]) == Walked(s, rs)
  {
    var p := rs[..i + 1];
    assert p + rs[i + 1..] == rs;
    assert p[..|p| - 1] == rs[..i];
    WalkedAppend(s, p, rs[i + 1..]);
  }

  // ------------------------------------------------ what a step preserves

  /**
   * One resource keeps every existing group, with its hosts as a prefix;
   * unless it declares that group, its variables and children stay.
   */
  lemma StepKeepsGroup(s: Snapshot, r: Resource, g: string)
    requires InScope(r) && ResourceApplied(s, r).Success? && g in s.groups
    ensures var t := ResourceApplied(s, r).value;
            && g in t.groups
            && s.groups[g].hosts <= t.groups[g].hosts
            && (!DeclaresGroup(r, g) ==>
                  t.groups[g].vars == s.groups[g].vars && t.groups[g].children == s.groups[g].children)
  {
    AppliedCases(s, r);
    if r.rtype == HostType {
      var h := r.attributes.values[HostnameKey];
      JoinGroupsKeeps(s.groups, h, WithAll(ListOf(r.attributes.values, "groups").value), g);
    }
  }

  /** One resource that does not declare host `h` leaves `h`'s variables as they were. */
  lemma StepKeepsHostvars(s: Snapshot, r: Resource, h: string)
    requires InScope(r) && ResourceApplied(s, r).Success? && !DeclaresHost(r, h)
    ensures var t := ResourceApplied(s, r).value;
            && (h in t.hostvars <==> h in s.hostvars)
            && (h in s.hostvars ==> t.hostvars[h] == s.hostvars[h])
  {
    AppliedCases(s, r);
  }

  lemma {:induction false} WalkedKeepsGroup(s: Snapshot, rs: seq<Resource>, g: string)
    requires forall r :: r in rs ==> InScope(r)
    requires Walked(s, rs).Success? && g in s.groups
    ensures var t := Walked(s, rs).value;
            && g in t.groups
            && s.groups[g].hosts <= t.groups[g].hosts
            && ((forall r :: r in rs ==> !DeclaresGroup(r, g)) ==>
                  t.groups[g].vars == s.groups[g].vars && t.groups[g].children == s.groups[g].children)
  {
    if rs != [] {
      var n := |rs| - 1;
      var p := rs[..n];
      assert forall r :: r in p ==> r in rs;
      WalkedKeepsGroup(s, p, g);
      StepKeepsGroup(Walked(s, p).value, rs[n], g);
    }
  }

  lemma {:induction false} WalkedKeepsHostvars(s: Snapshot, rs: seq<Resource>, h: string)
    requires forall r :: r in rs ==> InScope(r)
    requires Walked(s, rs).Success?
    requires forall r :: r in rs ==> !DeclaresHost(r, h)
    ensures var t := Walked(s, rs).value;
            && (h in t.hostvars <==> h in s.hostvars)
            && (h in s.hostvars ==> t.hostvars[h] == s.hostvars[h])
  {
    if rs != [] {
      var n := |rs| - 1;
      var p := rs[..n];
      assert forall r :: r in p ==> r in rs;
      WalkedKeepsHostvars(s, p, h);
      StepKeepsHostvars(Walked(s, p).value, rs[n], h);
    }
  }

  // ------------------------------------------------ who wins

  /**
   * Host variables: after a successful walk, a host's entry in
   * `_meta.hostvars` is the decoded `vars` of the last `ansible_host`
   * resource naming it, replaced wholesale, never merged key by key.
   */
  lemma HostvarsLastWins(s: Snapshot, rs: seq<Resource>, i: nat, h: string)
    requires forall j :: 0 <= j < |rs| ==> InScope(rs[j])
    requires Walked(s, rs).Success? && i < |rs| && DeclaresHost(rs[i], h)
    requires forall j :: i < j < |rs| ==> !DeclaresHost(rs[j], h)
    ensures h in Walked(s, rs).value.hostvars
    ensures Walked(s, rs).value.hostvars[h] == DictOf(rs[i].attributes, "vars")
  {
    WalkedAt(s, rs, i);
    var mid := Walked(s, rs[..i]).value;
    AppliedCases(mid, rs[i]);
    HostHandledEffect(mid, rs[i].attributes);
    var q := rs[i + 1..];
    forall r | r in q ensures !DeclaresHost(r, h) && InScope(r) {
      var j :| 0 <= j < |q| && q[j] == r;
      assert r == rs[i + 1 + j];
    }
    WalkedKeepsHostvars(ResourceApplied(mid, rs[i]).value, q, h);
  }

  /** Host variables of a host no resource names are those the walk started with. */
  lemma HostvarsUndeclared(s: Snapshot, rs: seq<Resource>, h: string)
    requires forall r :: r in rs ==> InScope(r)
    requires Walked(s, rs).Success? && forall r :: r in rs ==> !DeclaresHost(r, h)
    ensures h in Walked(s, rs).value.hostvars <==> h in s.hostvars
    ensures h in s.hostvars ==> Walked(s, rs).value.hostvars[h] == s.hostvars[h]
  {
    WalkedKeepsHostvars(s, rs, h);
  }

  /**
   * Groups: after a successful walk, a group's children and variables are
   * those of the last `ansible_group` resource naming it ("last in
   * wins"); host resources never change them.
   */
  lemma GroupLastWins(s: Snapshot, rs: seq<Resource>, i: nat, g: string)
    requires forall j :: 0 <= j < |rs| ==> InScope(rs[j])
    requires Walked(s, rs).Success? && i < |rs| && DeclaresGroup(rs[i], g)
    requires forall j :: i < j < |rs| ==> !DeclaresGroup(rs[j], g)
    ensures g in Walked(s, rs).value.groups
    ensures Walked(s, rs).value.groups[g].vars == DictOf(rs[i].attributes, "vars")
    ensures ListOf(rs[i].attributes.values, "children") == Success(Walked(s, rs).value.groups[g].children)
  {
    WalkedAt(s, rs, i);
    var mid := Walked(s, rs[..i]).value;
    AppliedCases(mid, rs[i]);
    var q := rs[i + 1..];
    forall r | r in q ensures !DeclaresGroup(r, g) && InScope(r) {
      var j :| 0 <= j < |q| && q[j] == r;
      assert r == rs[i + 1 + j];
    }
    WalkedKeepsGroup(ResourceApplied(mid, rs[i]).value, q, g);
  }

  /**
   * Membership: after a successful walk, a declared host belongs to every
   * group it listed and to `all`, unless its name is a key of the group
   * record.
   */
  lemma HostListedAfterWalk(s: Snapshot, rs: seq<Resource>, i: nat, gs: seq<string>)
    requires forall r :: r in rs ==> InScope(r)
    requires Walked(s, rs).Success? && i < |rs| && rs[i].rtype == HostType
    requires ListOf(rs[i].attributes.values, "groups") == Success(gs)
    requires HostnameKey in rs[i].attributes.values
    ensures var h := rs[i].attributes.values[HostnameKey];
            forall g :: g in gs + [All] ==>
              g in Walked(s, rs).value.groups && (h !in RecordKeys ==> h in Walked(s, rs).value.groups[g].hosts)
  {
    WalkedAt(s, rs, i);
    var mid := Walked(s, rs[..i]).value;
    AppliedCases(mid, rs[i]);
    HostHandledEffect(mid, rs[i].attributes);
    var t := ResourceApplied(mid, rs[i]).value;
    var h := rs[i].attributes.values[HostnameKey];
    forall g | g in gs + [All]
      ensures g in Walked(s, rs).value.groups && (h !in RecordKeys ==> h in Walked(s, rs).value.groups[g].hosts)
    {
      assert g in WithAll(gs);
      WalkedKeepsGroup(t, rs[i + 1..], g);
    }
  }

  /** How many times `all` lists `h`; none while `all` does not exist. */
  function AllCount(s: Snapshot, h: string): nat {
    if All in s.groups then multiset(s.groups[All].hosts)[h] else 0
  }

  lemma PrefixCount(a: seq<string>, b: seq<string>, h: string)
    requires a <= b
    ensures multiset(a)[h] <= multiset(b)[h]
  {
    assert b == a + b[|a|..];
  }

  /** A walk never takes a host out of `all`. */
  lemma WalkedKeepsCount(s: Snapshot, rs: seq<Resource>, h: string)
    requires forall r :: r in rs ==> InScope(r)
    requires Walked(s, rs).Success?
    ensures AllCount(s, h) <= AllCount(Walked(s, rs).value, h)
  {
    if All in s.groups {
      WalkedKeepsGroup(s, rs, All);
      PrefixCount(s.groups[All].hosts, Walked(s, rs).value.groups[All].hosts, h);
    }
  }

  /** A successful declaration of host `h` lists it in `all` at least once more. */
  lemma HostStepAppends(s: Snapshot, r: Resource, h: string)
    requires InScope(r) && ResourceApplied(s, r).Success? && DeclaresHost(r, h) && h !in RecordKeys
    ensures AllCount(s, h) < AllCount(ResourceApplied(s, r).value, h)
  {
    AppliedCases(s, r);
    var gs := WithAll(ListOf(r.attributes.values, "groups").value);
    JoinGroupsEffect(s.groups, h, gs, All);
    var c := Appended(h, multiset(gs)[All]);
    var rep := Repeat(h, c);
    assert rep[c - 1] == h;
    if All in s.groups {
      assert multiset(s.groups[All].hosts + rep) == multiset(s.groups[All].hosts) + multiset(rep);
    }
  }

  /**
   * Duplicates: a host that two resources of a successful walk declare is
   * listed in `all` at least twice, since `_add_host` appends and never
   * checks for a previous listing.
   */
  lemma HostTwiceInAll(s: Snapshot, rs: seq<Resource>, i: nat, j: nat, h: string)
    requires forall r :: r in rs ==> InScope(r)
    requires Walked(s, rs).Success? && i < j < |rs|
    requires DeclaresHost(rs[i], h) && DeclaresHost(rs[j], h) && h !in RecordKeys
    ensures All in Walked(s, rs).value.groups
    ensures multiset(Walked(s, rs).value.groups[All].hosts)[h] >= 2
  {
    WalkedAt(s, rs, j);
    var p := rs[..j];
    assert forall r :: r in p ==> r in rs;
    assert p[..i] == rs[..i] && p[i] == rs[i] && p[i + 1..] == rs[i + 1..j];
    WalkedAt(s, p, i);
    var mi := Walked(s, rs[..i]).value;
    HostStepAppends(mi, rs[i], h);
    var ti := ResourceApplied(mi, rs[i]).value;
    assert forall r :: r in rs[i + 1..j] ==> r in rs;
    WalkedKeepsCount(ti, rs[i + 1..j], h);
    var mj := Walked(s, p).value;
    HostStepAppends(mj, rs[j], h);
    var tj := ResourceApplied(mj, rs[j]).value;
    assert forall r :: r in rs[j + 1..] ==> r in rs;
    WalkedKeepsCount(tj, rs[j + 1..], h);
  }

  // ------------------------------------------------ invariants

  /** Every host listed in a group has an entry in `_meta.hostvars`. */
  predicate HostsKnown(s: Snapshot) {
    forall g, x :: g in s.groups && x in s.groups[g].hosts ==> x in s.hostvars
  }

  /** What every inventory the walk builds satisfies. */
  predicate Consistent(s: Snapshot) {
    All in s.groups && Meta !in s.groups && HostsKnown(s)
  }

  lemma HostAddedConsistent(s: Snapshot, h: string, gs: seq<string>, hostVars: map<string, string>)
    requires Consistent(s) && Meta !in gs
    ensures Consistent(HostAdded(s, h, gs, hostVars))
  {
    var t := HostAdded(s, h, gs, hostVars);
    JoinGroupsEffect(s.groups, h, gs, Meta);
    JoinGroupsEffect(s.groups, h, gs, All);
    forall g, x | g in t.groups && x in t.groups[g].hosts ensures x in t.hostvars {
      JoinGroupsMembers(s.groups, h, gs, g, x);
    }
  }

  lemma StepConsistent(s: Snapshot, r: Resource)
    requires InScope(r) && Consistent(s) && ResourceApplied(s, r).Success?
    ensures Consistent(ResourceApplied(s, r).value)
  {
    AppliedCases(s, r);
    if r.rtype == HostType {
      var gs := ListOf(r.attributes.values, "groups").value;
      assert Meta !in WithAll(gs);
      HostAddedConsistent(s, r.attributes.values[HostnameKey], WithAll(gs), DictOf(r.attributes, "vars"));
    }
  }

  /**
   * Every inventory reached by a successful walk from a consistent one
   * (the initial inventory is one) still has `all`, no `_meta` group,
   * and a host-variable entry for every host of every group.
   */
  lemma {:induction false} WalkedConsistent(s: Snapshot, rs: seq<Resource>)
    requires forall r :: r in rs ==> InScope(r)
    requires Consistent(s) && Walked(s, rs).Success?
    ensures Consistent(Walked(s, rs).value)
  {
    if rs != [] {
      var n := |rs| - 1;
      var p := rs[..n];
      assert forall r :: r in p ==> r in rs;
      WalkedConsistent(s, p);
      StepConsistent(Walked(s, p).value, rs[n]);
    }
  }

  /** The initial inventory is consistent. */
  lemma InitConsistent()
    ensures Consistent(InitInventory())
  {
  }
}
