/**
 * index.ts, the earlier host-only builder: it decodes each host's
 * `vars` map with `getMap`, records the host under the `all` group and
 * its variables in a host-variable table, and renders both as one
 * inventory object. Group resources play no part in it.
 */
module HostInventory {
  import opened Wrappers
  import opened TfState
  import Flatmap

  /** A JavaScript value read from the attributes: a string, or `undefined` (None) when the key is absent. */
  type Value = Option<string>

  const All: string := "all"
  const Meta: string := "_meta"
  const HostType: string := "ansible_host"
  const HostnameKey: string := "inventory_hostname"

  // ---------------------------------------------------------------- getMap

  /** The characters that a regular expression's `.` does not match in JavaScript. */
  predicate IsLineTerminator(c: char) {
    c == '\n' || c == '\r' || c == '\U{2028}' || c == '\U{2029}'
  }

  predicate NoLineTerminator(s: string) {
    forall i :: 0 <= i < |s| ==> !IsLineTerminator(s[i])
  }

  /** What `(.*)` captures: the text up to the first line terminator. */
  function FirstLine(s: string): (r: string)
    ensures r <= s && NoLineTerminator(r)
    ensures NoLineTerminator(s) ==> r == s
    ensures |r| < |s| ==> IsLineTerminator(s[|r|])
  {
    if s == [] || IsLineTerminator(s[0]) then [] else [s[0]] + FirstLine(s[1..])
  }

  /**
   * The sub-key that `new RegExp(`^${key}\.(.*)`)` captures from `k`, if
   * it matches. Inside a template literal `\.` is just `.`, so the
   * character after `key` may be any character but a line terminator.
   */
  function Capture(key: string, k: string): Option<string> {
    if |k| > |key| && k[..|key|] == key && !IsLineTerminator(k[|key|]) then Some(FirstLine(k[|key| + 1..]))
    else None
  }

  /** The sub-keys captured from the attribute keys that match. */
  function Subkeys(key: string, source: map<string, string>): set<string> {
    set k | k in source && Capture(key, k).Some? :: Capture(key, k).value
  }

  /**
   * `getMap(key, source)`: every captured sub-key except the count
   * sentinel `%`, bound to whatever `source[key + "." + subkey]` holds,
   * which is `undefined` when the separator was not a literal dot or the
   * capture stopped at a line terminator. The result does not depend on
   * the order in which the keys are visited.
   */
  function GetMap(key: string, source: map<string, string>): (out: map<string, Value>)
    ensures Flatmap.CountSubkey !in out
    ensures forall sub :: sub in out <==>
              sub != Flatmap.CountSubkey && exists k :: k in source && Capture(key, k) == Some(sub)
    ensures forall sub :: sub in out ==> out[sub] == Lookup(source, key + "." + sub)
  {
    map sub | sub in Subkeys(key, source) && sub != Flatmap.CountSubkey :: Lookup(source, key + "." + sub)
  }

  /** Any character but a line terminator separates `key` from the captured sub-key. */
  lemma CaptureAnySeparator(key: string, c: char, sub: string)
    requires !IsLineTerminator(c) && NoLineTerminator(sub)
    ensures Capture(key, key + [c] + sub) == Some(sub)
  {
    var k := key + [c] + sub;
    assert k[..|key|] == key && k[|key|] == c && k[|key| + 1..] == sub;
  }

  /** The separator is not checked: `varsXa` yields sub-key `a`, read back from the absent `vars.a`. */
  lemma GetMapAnySeparator()
    ensures GetMap("vars", map["varsXa" := "1"]) == map["a" := None]
  {
    var source := map["varsXa" := "1"];
    assert Capture("vars", "varsXa") == Some("a");
    assert Subkeys("vars", source) == {"a"};
  }

  lemma NoLineFeed(s: string)
    requires NoLineTerminator(s)
    ensures '\n' !in s
  {
  }

  /** A key `key.sub` captures `sub` when `sub` holds no line terminator. */
  lemma CaptureDotted(key: string, sub: string)
    requires NoLineTerminator(sub)
    ensures Capture(key, Flatmap.Dotted(key, sub)) == Some(sub)
  {
    var k := Flatmap.Dotted(key, sub);
    assert k[..|key|] == key && k[|key|] == '.';
  }

  /** A key of a flattened map that captures a sub-key other than `%` is that sub-key's own entry. */
  lemma FlatCapture(key: string, m: map<string, string>, withCount: bool, k: string, sub: string)
    requires Flatmap.CountSubkey !in m && forall s :: s in m ==> NoLineTerminator(s)
    requires k in Flatmap.FlattenMap(key, m, withCount) && Capture(key, k) == Some(sub) && sub != Flatmap.CountSubkey
    ensures sub in m && k == key + "." + sub
  {
    CaptureDotted(key, Flatmap.CountSubkey);
    assert k != Flatmap.Dotted(key, Flatmap.CountSubkey);
    var s' :| s' in m && Flatmap.Dotted(key, s') == k;
    CaptureDotted(key, s');
  }

  /** Every entry of the map appears in the flattened map under a key that captures it. */
  lemma FlatEntry(key: string, m: map<string, string>, withCount: bool, sub: string)
    requires Flatmap.CountSubkey !in m && sub in m && NoLineTerminator(sub)
    ensures key + "." + sub in Flatmap.FlattenMap(key, m, withCount)
    ensures Flatmap.FlattenMap(key, m, withCount)[key + "." + sub] == m[sub]
    ensures Capture(key, key + "." + sub) == Some(sub)
  {
    NoLineFeed(sub);
    Flatmap.FlatEntry(key, m, withCount, sub);
    CaptureDotted(key, sub);
  }

  /**
   * Round trip: flattening a map without a `%` sub-key and without line
   * terminators in its sub-keys, with or without the count entry, beside
   * attributes that do not match the pattern, and reading it back with
   * `getMap` gives every entry back, as a defined value.
   */
  lemma GetMapRoundTrip(key: string, m: map<string, string>, withCount: bool, others: map<string, string>)
    requires Flatmap.CountSubkey !in m && forall sub :: sub in m ==> NoLineTerminator(sub)
    requires forall k :: k in others ==> Capture(key, k).None?
    ensures var out := GetMap(key, others + Flatmap.FlattenMap(key, m, withCount));
            && (forall sub :: sub in out <==> sub in m)
            && (forall sub :: sub in m ==> out[sub] == Some(m[sub]))
  {
    var source := others + Flatmap.FlattenMap(key, m, withCount);
    var out := GetMap(key, source);
    forall sub | sub in m ensures sub in out && out[sub] == Some(m[sub]) {
      FlatEntry(key, m, withCount, sub);
    }
    forall sub | sub in out ensures sub in m {
      var k :| k in source && Capture(key, k) == Some(sub);
      FlatCapture(key, m, withCount, k, sub);
    }
  }

  /** Without line terminators, a key captures `sub` exactly when it is `key`, one dotted separator, and `sub`. */
  lemma CaptureWithDot(key: string, k: string, sub: string)
    requires NoLineTerminator(k) && (|k| > |key| && k[..|key|] == key ==> k[|key|] == '.')
    ensures Capture(key, k) == Some(sub) <==> k == key + "." + sub
  {
    if Capture(key, k) == Some(sub) {
      assert k == k[..|key|] + [k[|key|]] + k[|key| + 1..];
    }
    if k == key + "." + sub {
      assert k[..|key|] == key && k[|key|] == '.' && k[|key| + 1..] == sub;
      assert NoLineTerminator(sub) by {
        forall i | 0 <= i < |sub| ensures !IsLineTerminator(sub[i]) {
          assert sub[i] == k[|key| + 1 + i];
        }
      }
    }
  }

  /**
   * The two versions' map decoders agree when every attribute key that
   * starts with `key` continues with a literal dot and no key holds a
   * line terminator: `getMap` then returns `_extract_dict`'s entries.
   */
  lemma GetMapAgreesWithExtractDict(attrs: Attributes, key: string)
    requires WellFormed(attrs)
    requires forall k :: k in attrs.values ==> NoLineTerminator(k)
    requires forall k :: k in attrs.values && |k| > |key| && k[..|key|] == key ==> k[|key|] == '.'
    ensures forall sub :: sub in GetMap(key, attrs.values) <==> sub in Flatmap.DictOf(attrs, key)
    ensures forall sub :: sub in GetMap(key, attrs.values) ==>
              GetMap(key, attrs.values)[sub] == Some(Flatmap.DictOf(attrs, key)[sub])
  {
    forall k | k in attrs.values ensures '\n' !in k {
      NoLineFeed(k);
    }
    Flatmap.DictOfWithoutLineBreaks(attrs, key);
    var out := GetMap(key, attrs.values);
    forall sub ensures sub in out <==> sub in Flatmap.DictOf(attrs, key) {
      if sub in out {
        var k :| k in attrs.values && Capture(key, k) == Some(sub);
        CaptureWithDot(key, k, sub);
      }
      if sub in Flatmap.DictOf(attrs, key) {
        CaptureWithDot(key, key + "." + sub, sub);
      }
    }
  }

  // ---------------------------------------------------------------- the inventory

  /**
   * What the builder holds: its groups (only `all` is ever created), the
   * `Map` from hostname to variables, and that `Map`'s keys in insertion
   * order, which is the order in which `forEach` visits them.
   */
  datatype HostState = HostState(groups: map<string, seq<Value>>,
                                 hostvars: map<Value, map<string, Value>>,
                                 order: seq<Value>)

  const Empty: HostState := HostState(map[], map[], [])

  /** The `all` group's host list, or the empty list that `|| []` supplies when it does not exist yet. */
  function AllHosts(s: HostState): seq<Value> {
    if All in s.groups then s.groups[All] else []
  }

  /**
   * `addHost` on the state: the host's decoded `vars` replace whatever
   * its hostname had (a new hostname joins the end of the key order, an
   * existing one keeps its place), and the hostname is pushed onto `all`.
   */
  function HostAdded(s: HostState, attrs: map<string, string>): HostState {
    var h := Lookup(attrs, HostnameKey);
    HostState(s.groups[All := AllHosts(s) + [h]],
              s.hostvars[h := GetMap("vars", attrs)],
              if h in s.hostvars then s.order else s.order + [h])
  }

  /**
   * What the builder's state always satisfies: `all` is the only group,
   * it exists exactly when some host was added, every host it lists has
   * variables and every host with variables is listed; the key order
   * lists each hostname with variables once.
   */
  ghost predicate Consistent(s: HostState) {
    && s.groups.Keys <= {All}
    && (All in s.groups <==> |s.hostvars| > 0)
    && (All in s.groups ==> forall i :: 0 <= i < |s.groups[All]| ==> s.groups[All][i] in s.hostvars)
    && (forall h :: h in s.hostvars ==> h in AllHosts(s))
    && (forall i, j :: 0 <= i < j < |s.order| ==> s.order[i] != s.order[j])
    && (forall i :: 0 <= i < |s.order| ==> s.order[i] in s.hostvars)
    && (forall h :: h in s.hostvars ==> h in s.order)
  }

  /** The property name a JavaScript object uses for a hostname: `undefined` becomes "undefined". */
  function PropertyKey(h: Value): string {
    if h.Some? then h.value else "undefined"
  }

  /** The `hostvars` object that `forEach` fills from the `Map`, visiting its keys in `order`. */
  function MetaOver(hostvars: map<Value, map<string, Value>>, order: seq<Value>): map<string, map<string, Value>>
    requires forall i :: 0 <= i < |order| ==> order[i] in hostvars
  {
    if order == [] then map[]
    else MetaOver(hostvars, order[..|order| - 1])[PropertyKey(order[|order| - 1]) := hostvars[order[|order| - 1]]]
  }

  /** A property of the rendered inventory: a group's host list, or `_meta`'s `{hostvars: ...}`. */
  datatype Entry = HostList(hosts: seq<Value>) | HostVars(hostvars: map<string, map<string, Value>>)

  /** The object `toString` hands to `JSON.stringify`: a copy of the groups, plus `_meta`. */
  function Rendered(s: HostState): map<string, Entry>
    requires forall i :: 0 <= i < |s.order| ==> s.order[i] in s.hostvars
  {
    (map g | g in s.groups :: HostList(s.groups[g]))[Meta := HostVars(MetaOver(s.hostvars, s.order))]
  }

  class AnsibleInventory {
    var groups: map<string, seq<Value>>
    var hostvars: map<Value, map<string, Value>>
    var order: seq<Value>

    function State(): HostState
      reads this
    {
      HostState(groups, hostvars, order)
    }

    ghost predicate Valid()
      reads this
    {
      Consistent(State())
    }

    constructor ()
      ensures State() == Empty && Valid()
    {
      groups := map[];
      hostvars := map[];
      order := [];
    }

    /** Records one `ansible_host` resource's attributes. */
    method AddHost(attrs: map<string, string>)
      requires Valid()
      modifies this
      ensures State() == HostAdded(old(State()), attrs) && Valid()
    {
      ghost var before := State();
      HostAddedConsistent(before, attrs);
      var vars := GetMap("vars", attrs);
      var hostname := Lookup(attrs, HostnameKey);
      if hostname !in hostvars {
        order := order + [hostname];
      }
      hostvars := hostvars[hostname := vars];
      var all := if All in groups then groups[All] else [];
      groups := groups[All := all + [hostname]];
      assert State() == HostAdded(before, attrs);
    }

    /** Builds the object that `toString` serialises, copying the host variables key by key. */
    method ToObject() returns (out: map<string, Entry>)
      requires Valid()
      ensures out == Rendered(State())
    {
      var meta: map<string, map<string, Value>> := map[];
      var i := 0;
      while i < |order|
        invariant 0 <= i <= |order|
        invariant meta == MetaOver(hostvars, order[..i])
      {
        assert order[..i + 1][..i] == order[..i];
        meta := meta[PropertyKey(order[i]) := hostvars[order[i]]];
        i := i + 1;
      }
      assert order[..i] == order;
      out := (map g | g in groups :: HostList(groups[g]))[Meta := HostVars(meta)];
    }
  }

  /** Adding a host keeps the builder consistent. */
  lemma HostAddedConsistent(s: HostState, attrs: map<string, string>)
    requires Consistent(s)
    ensures Consistent(HostAdded(s, attrs))
  {
    var t := HostAdded(s, attrs);
    var h := Lookup(attrs, HostnameKey);
    assert t.groups[All] == AllHosts(s) + [h];
    forall x | x in t.hostvars ensures x in AllHosts(t) {
      if x != h {
        assert x in AllHosts(s);
      }
    }
  }

  // ---------------------------------------------------------------- walkState

  /** The resources `walkState` hands to `addHost`, in order; every other type is skipped. */
  function HostsWalked(s: HostState, rs: seq<Resource>): HostState {
    if rs == [] then s
    else
      var t := HostsWalked(s, rs[..|rs| - 1]);
      var r := rs[|rs| - 1];
      if r.rtype == HostType then HostAdded(t, r.attributes.values) else t
  }

  /** Walking one more resource adds it if it is an `ansible_host`, and otherwise changes nothing. */
  lemma HostsWalkedNext(s: HostState, rs: seq<Resource>, r: Resource)
    ensures HostsWalked(s, rs + [r]) ==
              if r.rtype == HostType then HostAdded(HostsWalked(s, rs), r.attributes.values) else HostsWalked(s, rs)
  {
    assert (rs + [r])[..|rs|] == rs;
  }

  /** One module's resources, in order, continuing a walk that has already covered `done`. */
  method WalkResources(inventory: AnsibleInventory, resources: seq<Resource>,
                       ghost start: HostState, ghost done: seq<Resource>)
    requires inventory.Valid() && inventory.State() == HostsWalked(start, done)
    modifies inventory
    ensures inventory.State() == HostsWalked(start, done + resources)
    ensures inventory.Valid()
  {
    var j := 0;
    assert done + resources[..j] == done;
    while j < |resources|
      invariant 0 <= j <= |resources|
      invariant inventory.State() == HostsWalked(start, done + resources[..j])
      invariant inventory.Valid()
    {
      var res := resources[j];
      assert done + resources[..j + 1] == (done + resources[..j]) + [res];
      HostsWalkedNext(start, done + resources[..j], res);
      if res.rtype == HostType {
        inventory.AddHost(res.attributes.values);
      }
      j := j + 1;
    }
    assert resources[..j] == resources;
  }

  /** `walkState`: every resource of every module, in order; only `ansible_host` resources are added. */
  method WalkState(inventory: AnsibleInventory, state: State)
    requires inventory.Valid()
    modifies inventory
    ensures inventory.State() == HostsWalked(old(inventory.State()), Resources(state.modules))
    ensures inventory.Valid()
  {
    ghost var start := inventory.State();
    var m := 0;
    while m < |state.modules|
      invariant 0 <= m <= |state.modules|
      invariant inventory.State() == HostsWalked(start, Resources(state.modules[..m]))
      invariant inventory.Valid()
    {
      WalkResources(inventory, state.modules[m].resources, start, Resources(state.modules[..m]));
      ResourcesNext(state.modules, m);
      m := m + 1;
    }
    assert state.modules[..m] == state.modules;
  }
}
