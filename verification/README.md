# terraform-inventory in Dafny

This project models how terraform-inventory turns a Terraform state document into an Ansible dynamic inventory, in its two versions:

- **terraform.py**, the complete builder. Two decoders read Terraform's legacy flattened attribute encoding:
  - `_extract_list` reads a list stored as `key.#` plus `key.0 … key.(n-1)`.
  - `_extract_dict` reads a map stored as `key.<sub>`, with `key.%` as the count.

  A walk over every module's resources then updates one inventory dictionary in place:
  - an `ansible_host` resource adds the host to its groups and to `all`, and replaces its `_meta.hostvars` entry;
  - an `ansible_group` resource creates a group, or replaces an existing group's children and variables;
  - a missing name or an undecodable list aborts the whole run.
- **index.ts**, the earlier host-only builder.
  - `getMap` decodes a host's `vars`.
  - The `AnsibleInventory` class records each host under `all` and in a host-variable `Map`.
  - `toString` assembles the groups and `_meta.hostvars` into one object.
  - `walkState` hands every `ansible_host` resource to `addHost`.

Layout:

| file | module | content |
|---|---|---|
| `wrappers.dfy` | `Wrappers` | `Option`, `Result`, `Outcome` |
| `decimal.dfy` | `Decimal` | Python's `int()` on a decimal string, and decimal rendering of a count |
| `tfstate.dfy` | `TfState` | the legacy state document: modules, resources, `primary.attributes` |
| `flatmap.dfy` | `Flatmap` | `_extract_dict` and `_extract_list`, with their flatten round trips |
| `terraform_inventory.dfy` | `TerraformInventory` | terraform.py's inventory, as specification functions and as the class `Inventory` updated in place |
| `terraform_laws.dfy` | `TerraformLaws` | what a whole walk of terraform.py guarantees |
| `host_inventory.dfy` | `HostInventory` | index.ts: `getMap`, the class `AnsibleInventory`, `walkState` |
| `host_inventory_laws.dfy` | `HostInventoryLaws` | what a whole walk of index.ts guarantees, and the rendered object |

Each method that changes state is proved against a specification function of the old state, for example `Value() == HostAdded(old(Value()), ...)`. The laws are lemmas about those functions.

Python's `re.match(r"^key\.(.*)", k)` captures up to the first line feed, because `.` does not match `\n`. Two different keys can therefore capture the same sub-key. In that case `_extract_dict`'s result depends on the order in which the dictionary yields its keys. That is why an attribute set carries its key order beside its values.

In index.ts the pattern is built in a template literal, where `\.` is just `.`. So the separator may be any character except a line terminator. The value is still read back under `key + "." + sub`, and it is `undefined` (`None` here) when that key does not exist.

## Model

| member | source | states |
|---|---|---|
| Decimal.ParseNatToString | terraform.py:29 | `int()` reads back the decimal text of every count: `ParseInt(NatToString(n)) == Some(n)` |
| Decimal.SignSpaceGeneral | terraform.py:29 | for any run of white space w and any n, `int("+" + w + str(n))` is n and `int("-" + w + str(n))` is -n |
| Decimal.SpaceAroundGeneral | terraform.py:29 | for any runs of white space w1 and w2 and any n, `int(w1 + str(n) + w2)` is n |
| Decimal.ParseSignedWithSpace | terraform.py:29 | `int()` accepts white space between the sign and the digits, and the ASCII separators U+001C to U+001F as white space: `"+ 1"` reads 1, `"- 1"` reads -1 |
| Decimal.NatToStringInjective | terraform.py:34 | distinct indices give distinct decimal texts, so element keys never collide |
| TfState.ResourcesPrefix | terraform.py:88-89 | the resources of the first k modules are a prefix of the walk order (modules in order, then each module's resources) |
| TfState.ResourcesNext | terraform.py:88-89 | one more module appends exactly its resources to the walk |
| Flatmap.FirstLine | terraform.py:15 | the capture `(.*)` is a prefix of the rest of the key that holds no line feed and stops exactly at the first one: it is all of the rest when there is none, and otherwise the next character is that line feed |
| Flatmap.ExtractDict | terraform.py:12-20 | the loop over the attribute keys, in their order, computes `DictOf` |
| Flatmap.DictOverKeys | terraform.py:14-17 | a sub-key is in the result iff it is not `%` and some visited key captures it |
| Flatmap.DictOverLast | terraform.py:14-19 | a sub-key in the result holds the value of the last visited key that captures it |
| Flatmap.DictOverEntries | terraform.py:14-19 | a sub-key is in the result iff it is not `%` and some visited key captures it; its value is that of the last such key |
| Flatmap.DictOfEntries | terraform.py:12-20 | the same for a whole attribute set: membership iff a non-`%` capture exists, value from the last capturing key in iteration order |
| Flatmap.DictOfSoleCapture | terraform.py:15-19 | a sub-key captured by exactly one key maps to that key's value |
| Flatmap.CaptureWithoutLineBreak | terraform.py:15 | for a key without line feeds, it captures `sub` iff it is exactly `key.sub` |
| Flatmap.DictOfWithoutLineBreaks | terraform.py:12-20 | without line feeds in keys: `sub` is in the result iff `sub != "%"` and `key.sub` is an attribute, and it maps to that attribute's value; other attributes are ignored |
| Flatmap.FlatCapture | terraform.py:15-17 | in a flattened map, a key that captures a non-`%` sub-key is that sub-key's own entry |
| Flatmap.FlatEntry | terraform.py:15-19 | every entry of a flattened map sits under `key.sub` and is captured as `sub` |
| Flatmap.DictRoundTrip | terraform.py:12-20 | flattening a map without a `%` key and without line feeds in its sub-keys (with or without the `key.%` count) beside attributes not starting with `key.`, then extracting it, gives the map back |
| Flatmap.ExtractList | terraform.py:22-36 | the method with its loop over indices computes `ListOf` |
| Flatmap.ElementsStopAt | terraform.py:33-34 | once an element key is missing, the `KeyError` is the result however many elements were asked for |
| Flatmap.ElementsMeaning | terraform.py:33-36 | reading n elements succeeds iff `key.0 … key.(n-1)` all exist, and then yields exactly those values in index order; otherwise it names a missing element key |
| Flatmap.ListOfCases | terraform.py:22-36 | no `key.#` gives `[]`; a non-integer count fails; a count below 1 gives `[]`; otherwise success iff every element key exists, with exactly `count` elements, element i being `key.i` |
| Flatmap.ElementKeysDistinct | terraform.py:25-34 | element keys of different indices differ, and none is the count key |
| Flatmap.ElementEntriesAt | terraform.py:34 | the flattened list holds element i under `key.i` |
| Flatmap.ListRoundTrip | terraform.py:22-36 | flattening a list with its `key.#` count beside other attributes and extracting it gives the list back |
| TerraformInventory.InitGroup | terraform.py:38-43 | every field the caller leaves out starts empty; given fields are used as they are |
| TerraformInventory.InitInventory | terraform.py:62-68 | the initial inventory has only an empty `all` group and no host variables |
| TerraformInventory.GroupAdded | terraform.py:53-60 | a new group gets the children and vars and no hosts; an existing one keeps its hosts and has children and vars replaced; nothing else changes |
| TerraformInventory.WithAll | terraform.py:75-76 | `all` is in the group list, exactly once more only when it was absent; other names are kept with their multiplicities |
| TerraformInventory.HostHandled | terraform.py:70-78 | handling a host fails iff its group list cannot be decoded or `inventory_hostname` is missing |
| TerraformInventory.GroupHandled | terraform.py:80-85 | handling a group fails iff its children list cannot be decoded or `inventory_group_name` is missing |
| TerraformInventory.WalkedNext | terraform.py:88-98 | one more resource is applied to the inventory reached so far, unless the walk has already failed |
| TerraformInventory.WalkedFailureSticks | terraform.py:102-110 | a failure ends the walk: more resources do not change it |
| TerraformInventory.WalkedPrefixFails | terraform.py:87-100 | a failure on a prefix of the resources is the failure of the whole walk |
| TerraformInventory.Inventory.constructor | terraform.py:62-68 | a new inventory is `_init_inventory()` |
| TerraformInventory.Inventory.AddHost | terraform.py:45-51 | the in-place loop leaves the inventory equal to `HostAdded` of the old one |
| TerraformInventory.Inventory.AddGroup | terraform.py:53-60 | the inventory becomes `GroupAdded` of the old one |
| TerraformInventory.Inventory.HandleHost | terraform.py:70-78 | success gives `HostHandled`'s inventory; failure reports its error and leaves the inventory unchanged |
| TerraformInventory.Inventory.HandleGroup | terraform.py:80-85 | success gives `GroupHandled`'s inventory; failure reports its error and leaves the inventory unchanged |
| TerraformInventory.Inventory.ApplyResource | terraform.py:90-98 | one iteration of the walk agrees with `ResourceApplied`; on failure it reports the error and leaves the inventory unchanged |
| TerraformInventory.Inventory.WalkResources | terraform.py:89-98 | one module's resources continue the walk; a failure is the failure of the whole walk |
| TerraformInventory.Inventory.WalkState | terraform.py:87-100 | the nested loops compute `Walked` over all resources in order, passing or reporting its error |
| TerraformInventory.BuildInventory | terraform.py:102-110 | the result is the walk from `_init_inventory()`; any failure is the run's failure |
| TerraformLaws.JoinGroupAt | terraform.py:48-51 | one iteration of `_add_host`'s loop: a new group starts with just the host; an existing one gets it appended unless the name is a record key; other groups stay |
| TerraformLaws.JoinGroupsEffect | terraform.py:47-51 | over the whole loop, only listed groups change; an existing group gets the host once per listing (never if the host's name is `hosts`, `vars` or `children`); vars and children are untouched |
| TerraformLaws.JoinGroupsListed | terraform.py:47-51 | every listed group exists afterwards and holds the host unless its name is a record key |
| TerraformLaws.JoinGroupsKeeps | terraform.py:47-51 | existing groups keep their hosts as a prefix, and their vars and children |
| TerraformLaws.JoinGroupsMembers | terraform.py:47-51 | the loop adds no host but this one |
| TerraformLaws.HostHandledEffect | terraform.py:70-78 | on success the host's variables are replaced wholesale, other hosts' entries stay, `all` and every listed group exist and hold the host unless its name is a record key |
| TerraformLaws.GroupLastInWins | terraform.py:57-60 | of two declarations of a group, the later one's children and vars win, and its hosts are those from before both |
| TerraformLaws.Relevant | terraform.py:90-98 | a resource is kept iff it is in the walk and is an `ansible_host` or `ansible_group` |
| TerraformLaws.TypeNames | terraform.py:90-97 | both handled types start with `ansible_` and differ |
| TerraformLaws.AppliedCases | terraform.py:90-98 | a resource of another type changes nothing; a host or group reaches its handler; it fails iff it is rejected |
| TerraformLaws.WalkedAppend | terraform.py:88-98 | walking `p + q` is walking `p`, then `q` if that succeeded |
| TerraformLaws.WalkedFailsIff | terraform.py:87-110 | the walk fails iff some host lacks a decodable group list or a name, or some group lacks a decodable children list or a name, whatever the starting inventory |
| TerraformLaws.WalkedIgnoresOthers | terraform.py:90-91 | resources of any other type leave no trace on the walk |
| TerraformLaws.NothingRelevant | terraform.py:90-98 | without host or group resources the walk returns its inventory unchanged |
| TerraformLaws.WalkedAt | terraform.py:88-98 | a successful walk splits at any resource into prefix, that step, and the rest |
| TerraformLaws.StepKeepsGroup | terraform.py:45-60 | one step keeps every existing group with its hosts as a prefix; unless it declares that group, its vars and children stay |
| TerraformLaws.StepKeepsHostvars | terraform.py:46 | a step that does not declare host h leaves h's variables |
| TerraformLaws.WalkedKeepsGroup | terraform.py:87-100 | a whole walk keeps every existing group and its hosts as a prefix |
| TerraformLaws.WalkedKeepsHostvars | terraform.py:87-100 | a walk that never declares h leaves h's variables |
| TerraformLaws.HostvarsLastWins | terraform.py:70-78 | after a successful walk, a host's variables are the decoded `vars` of the last resource declaring it |
| TerraformLaws.HostvarsUndeclared | terraform.py:46 | an undeclared host's variables are those the walk started with |
| TerraformLaws.GroupLastWins | terraform.py:53-60 | after a successful walk, a group's vars and children are those of the last resource declaring it |
| TerraformLaws.HostListedAfterWalk | terraform.py:70-78 | after a successful walk, a declared host is in each of its groups and in `all`, unless its name is a record key |
| TerraformLaws.WalkedKeepsCount | terraform.py:45-51 | a successful walk never lowers the number of times `all` lists a host |
| TerraformLaws.HostStepAppends | terraform.py:70-78 | a successful declaration of a host whose name is not a record key lists it in `all` at least once more |
| TerraformLaws.HostTwiceInAll | terraform.py:45-51 | a host that two resources of a successful walk declare is listed in `all` at least twice, unless its name is a record key |
| TerraformLaws.HostAddedConsistent | terraform.py:45-51 | adding a host keeps `all`, keeps `_meta` out of the groups, and gives every grouped host variables |
| TerraformLaws.StepConsistent | terraform.py:90-98 | every successful step keeps the inventory consistent |
| TerraformLaws.WalkedConsistent | terraform.py:87-100 | every successful walk from a consistent inventory ends consistent |
| TerraformLaws.InitConsistent | terraform.py:62-68 | the initial inventory is consistent |
| HostInventory.FirstLine | index.ts:51 | the capture is a prefix of the rest of the key without line terminators that stops exactly at the first one: it is all of the rest when there is none, and otherwise the next character is a line terminator |
| HostInventory.CaptureAnySeparator | index.ts:51 | any character but a line terminator after `key` separates it from the captured sub-key |
| HostInventory.GetMap | index.ts:49-65 | `%` is never a key; a sub-key is present iff it is not `%` and some attribute key captures it; its value is whatever `key.sub` holds, or `undefined` |
| HostInventory.GetMapAnySeparator | index.ts:51-62 | `varsXa` yields sub-key `a` bound to `undefined`: the separator is not checked to be a dot |
| HostInventory.GetMapRoundTrip | index.ts:49-65 | flattening a map without a `%` key and without line terminators in its sub-keys, beside attributes the pattern does not match, and reading it back gives every entry as a defined value |
| HostInventory.CaptureWithDot | index.ts:51 | when every key starting with `key` continues with a dot and there are no line terminators, a key captures `sub` iff it is `key.sub` |
| HostInventory.GetMapAgreesWithExtractDict | index.ts:49-65 | on such attributes `getMap` and terraform.py's `_extract_dict` decode the same map |
| HostInventory.AnsibleInventory.constructor | index.ts:16-18 | a new builder has no groups and no host variables, and is consistent |
| HostInventory.AnsibleInventory.AddHost | index.ts:20-25 | the state becomes `HostAdded` of the old one and stays consistent |
| HostInventory.AnsibleInventory.ToObject | index.ts:27-34 | the loop over the `Map` builds the rendered object `Rendered` |
| HostInventory.HostAddedConsistent | index.ts:20-25 | adding a host keeps `all` as the only group, present iff a host exists, and listing exactly the hosts with variables |
| HostInventory.HostsWalkedNext | index.ts:72-76 | one more resource is added when it is an `ansible_host` and otherwise changes nothing |
| HostInventory.WalkResources | index.ts:70-77 | one module's resources continue the walk `HostsWalked` |
| HostInventory.WalkState | index.ts:67-79 | the nested loops leave the builder equal to `HostsWalked` over all resources in order |
| HostInventoryLaws.HostsWalkedGroups | index.ts:23-24 | a walk leaves the groups as they were, except that `all` gains every host resource's name in order, duplicates included |
| HostInventoryLaws.HostNamesEmpty | index.ts:72-73 | a walk names a host iff it meets an `ansible_host` resource |
| HostInventoryLaws.AllGroupFromEmpty | index.ts:17-24 | from an empty builder, `all` exists iff the state has an `ansible_host` resource, is the only group, and lists every host's name in order |
| HostInventoryLaws.HostsWalkedIgnoresOthers | index.ts:72-73 | resources of any other type, `ansible_group` included, have no effect |
| HostInventoryLaws.HostvarsLastWins | index.ts:21-22 | a host's variables are the decoded `vars` of the last resource declaring it |
| HostInventoryLaws.HostvarsUndeclared | index.ts:22 | a name no resource declares keeps its variables, or stays absent |
| HostInventoryLaws.HostsWalkedConsistent | index.ts:67-79 | every walk keeps the builder consistent |
| HostInventoryLaws.MetaOverKeys | index.ts:31-33 | copying the `Map` creates a property exactly for each visited key's property name |
| HostInventoryLaws.MetaOverValue | index.ts:31-33 | a property holds the value of the last visited key with that name |
| HostInventoryLaws.RenderedHostvars | index.ts:30-33 | unless a nameless host and a host named "undefined" clash, `_meta.hostvars` has exactly the hosts' names, each with its variables |
| HostInventoryLaws.RenderedShape | index.ts:28-30 | the rendered object copies every group and adds `_meta` holding the copied `Map` |
| HostInventoryLaws.RenderedInventory | index.ts:27-34 | the rendered object has the groups plus `_meta`; `all` is present iff a host was added; `_meta.hostvars` is the copied `Map` |

## Left out

- Running `terraform state pull` and the environment variables that configure it are left out. That is process I/O (terraform.py:9-10,104-106; index.ts:7). The state document is a parameter.
- JSON parsing and printing are left out (`json.load`, `json.dumps`, `JSON.parse`, `JSON.stringify`, `console.log`). The model ends with the structure handed to the printer.
  - So `JSON.stringify` dropping `undefined` variable values, and writing `undefined` hostnames in the `all` list as `null`, is not modelled.
- Exit handling is represented only as a `Failure` result (terraform.py:109-110). On a parsed, well-shaped state index.ts raises nothing. Its only exit, `panic` (index.ts:12-13,45-47), guards `JSON.parse`, which is left out.
- A state document that does not have the legacy shape is not modelled: a missing `modules`, `resources`, `type` or `primary.attributes`, or a non-string attribute value. The datatypes admit only well-shaped documents.
- The modern structured state shape, priorities, `ansible_host_var`/`ansible_group_var` resources, sorting, implicit child groups and key-by-key variable merging are not modelled. Neither source file implements any of them. The model follows the code.
- lib/tfstate.ts holds only type declarations. It shapes the `TfState` datatypes and nothing more.
- Iteration order is taken as given, as the resource sequence and an attribute set's key order:
  - Python 2 dictionary order over resources and attributes;
  - JavaScript `for … in` order over a module's resources, which puts integer-like keys first.
- Decimal.ParseInt accepts only ASCII digits. Python 2's `int()` on a unicode string also accepts other Unicode decimal digits; those are not modelled. White space around the number and after its sign is modelled.
- TerraformInventory.HostInScope excludes a group named `_meta`, and TerraformInventory.GroupInScope excludes a group declared with that name. terraform.py would write into its `_meta` entry or fail with a `KeyError` there; that path is not modelled.
- The guard of `_add_host` (terraform.py:50) tests the host name against the keys of the group record, not against its host list. So a host named `hosts`, `vars` or `children` is silently not added to a group that already exists, and any other host is appended again on every declaration. The model keeps this behaviour. It is why the lemmas about group membership carry the side condition that the host's name is not a record key.
- TerraformInventory.Inventory.WalkState does not state the partially updated inventory that is left behind on failure. The run discards it and exits, so only the error is stated.
- HostInventory.PropertyKey models how an object turns an `undefined` hostname into the property name "undefined". Other JavaScript object peculiarities are not modelled: a `__proto__` sub-key or hostname, and the order of an object's properties.
- HostInventory.Capture and HostInventory.FirstLine treat a string as a sequence of characters. JavaScript works on UTF-16 code units, so two halves of a surrogate pair are not told apart here.
