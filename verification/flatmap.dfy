/**
 * The two decoders terraform.py applies to Terraform's flattened
 * attributes: `_extract_dict` reads a map stored as `key.<sub>` entries
 * (plus a `key.%` count), `_extract_list` a list stored as a `key.#`
 * count and `key.0`, `key.1`, ... entries.
 */
module Flatmap {
  import opened Wrappers
  import opened Decimal
  import opened TfState

  /** Why a decoder raises: a `KeyError` on a missing key, a `ValueError` from `int()`. */
  datatype Error = MissingAttribute(key: string) | NotAnInteger(text: string)

  // ---------------------------------------------------------------- maps

  /** What the regular expression's `(.*)` captures: the text up to the first line feed. */
  function FirstLine(s: string): (r: string)
    ensures r <= s && '\n' !in r
    ensures '\n' !in s ==> r == s
    ensures |r| < |s| ==> s[|r|] == '\n'
  {
    if s == [] || s[0] == '\n' then [] else [s[0]] + FirstLine(s[1..])
  }

  /** The sub-key that `re.match("^" + key + "\.(.*)", k)` captures, if `k` matches. */
  function Capture(key: string, k: string): Option<string> {
    if StartsWith(k, key + ".") then Some(FirstLine(k[|key| + 1..])) else None
  }

  /** The sub-key under which Terraform stores a map's element count. */
  const CountSubkey: string := "%"

  /** The dictionary built from the keys `ks`, visited in order; a later key overwrites an earlier one. */
  function DictOver(values: map<string, string>, ks: seq<string>, key: string): map<string, string>
    requires forall i :: 0 <= i < |ks| ==> ks[i] in values
  {
    if ks == [] then map[]
    else
      var acc := DictOver(values, ks[..|ks| - 1], key);
      var k := ks[|ks| - 1];
      var sub := Capture(key, k);
      if sub.Some? && sub.value != CountSubkey then acc[sub.value := values[k]] else acc
  }

  /** The result of `_extract_dict(attrs, key)`. */
  function DictOf(attrs: Attributes, key: string): map<string, string>
    requires WellFormed(attrs)
  {
    DictOver(attrs.values, attrs.order, key)
  }

  /** `_extract_dict`: one pass over the attribute keys in iteration order. */
  method ExtractDict(attrs: Attributes, key: string) returns (out: map<string, string>)
    requires WellFormed(attrs)
    ensures out == DictOf(attrs, key)
  {
    out := map[];
    var i := 0;
    while i < |attrs.order|
      invariant 0 <= i <= |attrs.order|
      invariant out == DictOver(attrs.values, attrs.order[..i], key)
    {
      assert attrs.order[..i + 1][..i] == attrs.order[..i];
      var k := attrs.order[i];
      var sub := Capture(key, k);
      if sub.Some? && sub.value != CountSubkey {
        out := out[sub.value := attrs.values[k]];
      }
      i := i + 1;
    }
    assert attrs.order[..i] == attrs.order;
  }

  /** A sub-key is in the dictionary exactly when it is not `%` and some visited key captures it. */
  lemma {:induction false} DictOverKeys(values: map<string, string>, ks: seq<string>, key: string, sub: string)
    requires forall i :: 0 <= i < |ks| ==> ks[i] in values
    ensures sub in DictOver(values, ks, key) <==>
              sub != CountSubkey && exists i :: 0 <= i < |ks| && Capture(key, ks[i]) == Some(sub)
  {
    if ks != [] {
      var n := |ks| - 1;
      var init := ks[..n];
      DictOverKeys(values, init, key, sub);
      if exists i :: 0 <= i < |ks| && Capture(key, ks[i]) == Some(sub) {
        var i :| 0 <= i < |ks| && Capture(key, ks[i]) == Some(sub);
        if i < n {
          assert init[i] == ks[i];
        }
      }
      if exists i :: 0 <= i < n && Capture(key, init[i]) == Some(sub) {
        var i :| 0 <= i < n && Capture(key, init[i]) == Some(sub);
        assert ks[i] == init[i];
      }
    }
  }

  /** A sub-key in the dictionary holds the value of the last visited key that captures it. */
  lemma {:induction false} DictOverLast(values: map<string, string>, ks: seq<string>, key: string, sub: string)
    returns (i: nat)
    requires forall j :: 0 <= j < |ks| ==> ks[j] in values
    requires sub in DictOver(values, ks, key)
    ensures i < |ks| && Capture(key, ks[i]) == Some(sub)
    ensures DictOver(values, ks, key)[sub] == values[ks[i]]
    ensures forall j :: i < j < |ks| ==> Capture(key, ks[j]) != Some(sub)
  {
    var n := |ks| - 1;
    var init := ks[..n];
    DictOverKeys(values, ks, key, sub);
    if Capture(key, ks[n]) == Some(sub) {
      i := n;
    } else {
      assert forall j :: 0 <= j < n ==> init[j] == ks[j];
      assert sub in DictOver(values, init, key) && DictOver(values, ks, key)[sub] == DictOver(values, init, key)[sub];
      i := DictOverLast(values, init, key, sub);
    }
  }

  lemma DictOverEntries(values: map<string, string>, ks: seq<string>, key: string, sub: string)
    requires forall i :: 0 <= i < |ks| ==> ks[i] in values
    ensures sub in DictOver(values, ks, key) <==>
              sub != CountSubkey && exists i :: 0 <= i < |ks| && Capture(key, ks[i]) == Some(sub)
    ensures sub in DictOver(values, ks, key) ==>
              exists i :: && 0 <= i < |ks| && Capture(key, ks[i]) == Some(sub)
                          && DictOver(values, ks, key)[sub] == values[ks[i]]
                          && forall j :: i < j < |ks| ==> Capture(key, ks[j]) != Some(sub)
  {
    DictOverKeys(values, ks, key, sub);
    if sub in DictOver(values, ks, key) {
      var i := DictOverLast(values, ks, key, sub);
    }
  }

  /**
   * `_extract_dict` yields exactly the sub-keys captured from some
   * attribute key other than the count sentinel `%`, each bound to the
   * value of the last key, in iteration order, that captures it.
   */
  lemma DictOfEntries(attrs: Attributes, key: string, sub: string)
    requires WellFormed(attrs)
    ensures sub in DictOf(attrs, key) <==>
              sub != CountSubkey && exists k :: k in attrs.values && Capture(key, k) == Some(sub)
    ensures sub in DictOf(attrs, key) ==>
              exists i :: && 0 <= i < |attrs.order| && Capture(key, attrs.order[i]) == Some(sub)
                          && DictOf(attrs, key)[sub] == attrs.values[attrs.order[i]]
                          && forall j :: i < j < |attrs.order| ==> Capture(key, attrs.order[j]) != Some(sub)
  {
    DictOverEntries(attrs.values, attrs.order, key, sub);
    if exists k :: k in attrs.values && Capture(key, k) == Some(sub) {
      var k :| k in attrs.values && Capture(key, k) == Some(sub);
      assert k in attrs.order;
    }
  }

  /** When a single attribute key captures `sub`, `_extract_dict` maps `sub` to that key's value. */
  lemma DictOfSoleCapture(attrs: Attributes, key: string, k0: string, sub: string)
    requires WellFormed(attrs)
    requires k0 in attrs.values && Capture(key, k0) == Some(sub) && sub != CountSubkey
    requires forall k :: k in attrs.values && Capture(key, k) == Some(sub) ==> k == k0
    ensures sub in DictOf(attrs, key) && DictOf(attrs, key)[sub] == attrs.values[k0]
  {
    DictOfEntries(attrs, key, sub);
  }

  /** Without line feeds in the keys, the capture is the whole rest of the key. */
  lemma CaptureWithoutLineBreak(key: string, k: string, sub: string)
    requires '\n' !in k
    ensures Capture(key, k) == Some(sub) <==> k == key + "." + sub
  {
    if k == key + "." + sub {
      assert k[..|key + "."|] == key + ".";
      assert k[|key| + 1..] == sub;
    }
    if Capture(key, k) == Some(sub) {
      assert k == k[..|key| + 1] + k[|key| + 1..];
    }
  }

  /**
   * When no attribute key holds a line feed, `_extract_dict(attrs, key)`
   * holds `sub ↦ attrs[key + "." + sub]` for every such key present,
   * except the sentinel `%`, whatever the iteration order.
   */
  lemma DictOfWithoutLineBreaks(attrs: Attributes, key: string)
    requires WellFormed(attrs)
    requires forall k :: k in attrs.values ==> '\n' !in k
    ensures forall sub :: sub in DictOf(attrs, key) <==> sub != CountSubkey && key + "." + sub in attrs.values
    ensures forall sub :: sub in DictOf(attrs, key) ==> DictOf(attrs, key)[sub] == attrs.values[key + "." + sub]
  {
    forall sub
      ensures sub in DictOf(attrs, key) <==> sub != CountSubkey && key + "." + sub in attrs.values
      ensures sub in DictOf(attrs, key) ==> DictOf(attrs, key)[sub] == attrs.values[key + "." + sub]
    {
      DictOfEntries(attrs, key, sub);
      var k0 := key + "." + sub;
      if k0 in attrs.values {
        CaptureWithoutLineBreak(key, k0, sub);
      }
      forall k | k in attrs.values && Capture(key, k) == Some(sub) ensures k == k0 {
        CaptureWithoutLineBreak(key, k, sub);
      }
      if sub != CountSubkey && k0 in attrs.values {
        DictOfSoleCapture(attrs, key, k0, sub);
      }
    }
  }

  /** The attribute key `key.sub`; `sub` can be read back from it. */
  function Dotted(key: string, sub: string): (k: string)
    ensures k == key + "." + sub && k[|key| + 1..] == sub
  {
    key + "." + sub
  }

  /** The flattened form of map `m` under `key`, with or without the `key.%` count entry. */
  function FlattenMap(key: string, m: map<string, string>, withCount: bool): map<string, string> {
    (map sub | sub in m :: Dotted(key, sub) := m[sub])
    + (if withCount then map[key + "." + CountSubkey := NatToString(|m|)] else map[])
  }

  /** The key `Dotted(key, sub)` captures `sub` when `sub` holds no line feed. */
  lemma CaptureDotted(key: string, sub: string)
    requires '\n' !in sub
    ensures Capture(key, Dotted(key, sub)) == Some(sub)
  {
    assert Dotted(key, sub)[..|key + "."|] == key + ".";
  }

  /** A key of a flattened map that captures a sub-key other than `%` is that sub-key's own entry. */
  lemma FlatCapture(key: string, m: map<string, string>, withCount: bool, k: string, sub: string)
    requires CountSubkey !in m && forall s :: s in m ==> '\n' !in s
    requires k in FlattenMap(key, m, withCount) && Capture(key, k) == Some(sub) && sub != CountSubkey
    ensures sub in m && k == Dotted(key, sub) && FlattenMap(key, m, withCount)[k] == m[sub]
  {
    if withCount && k == key + "." + CountSubkey {
      assert false;
    }
    var s' :| s' in m && Dotted(key, s') == k;
    CaptureDotted(key, s');
  }

  /** Every entry of the map appears, under its own key, in the flattened map. */
  lemma FlatEntry(key: string, m: map<string, string>, withCount: bool, sub: string)
    requires CountSubkey !in m && sub in m && '\n' !in sub
    ensures Dotted(key, sub) in FlattenMap(key, m, withCount)
    ensures FlattenMap(key, m, withCount)[Dotted(key, sub)] == m[sub]
    ensures Capture(key, Dotted(key, sub)) == Some(sub)
  {
    CaptureDotted(key, sub);
    if withCount && Dotted(key, sub) == key + "." + CountSubkey {
      assert false;
    }
  }

  /**
   * Round trip: flattening a map that has no `%` sub-key and no line feed
   * in its sub-keys, with or without its `key.%` count, beside other
   * attributes that do not start with `key.`, and extracting it again
   * gives back the map.
   */
  lemma DictRoundTrip(attrs: Attributes, key: string, m: map<string, string>, withCount: bool,
                      others: map<string, string>)
    requires WellFormed(attrs)
    requires attrs.values == others + FlattenMap(key, m, withCount)
    requires CountSubkey !in m && forall sub :: sub in m ==> '\n' !in sub
    requires forall k :: k in others ==> !StartsWith(k, key + ".")
    ensures DictOf(attrs, key) == m
  {
    var flat := FlattenMap(key, m, withCount);
    var r := DictOf(attrs, key);
    forall sub
      ensures sub in r <==> sub in m
      ensures sub in m ==> r[sub] == m[sub]
    {
      DictOfEntries(attrs, key, sub);
      forall k | k in attrs.values && Capture(key, k) == Some(sub) && sub != CountSubkey
        ensures sub in m
      {
        assert k !in others;
        FlatCapture(key, m, withCount, k, sub);
      }
      if sub in m {
        FlatEntry(key, m, withCount, sub);
        var k0 := Dotted(key, sub);
        forall k | k in attrs.values && Capture(key, k) == Some(sub) ensures k == k0 {
          assert k !in others;
          FlatCapture(key, m, withCount, k, sub);
        }
        DictOfSoleCapture(attrs, key, k0, sub);
      }
    }
  }

  // ---------------------------------------------------------------- lists

  /** The key that holds a list's length. */
  function CountKey(key: string): string {
    key + ".#"
  }

  /** The key `"{}.{}".format(key, i)` of the list's element `i`. */
  function ElementKey(key: string, i: nat): string {
    key + "." + NatToString(i)
  }

  /**
   * The elements `key.0` to `key.(n-1)`, read in index order; the first
   * missing one raises.
   */
  function Elements(values: map<string, string>, key: string, n: nat): Result<seq<string>, Error> {
    if n == 0 then Success([])
    else
      match Elements(values, key, n - 1)
      case Failure(e) => Failure(e)
      case Success(xs) =>
        var k := ElementKey(key, n - 1);
        if k in values then Success(xs + [values[k]]) else Failure(MissingAttribute(k))
  }

  /** The result of `_extract_list(attrs, key)`. */
  function ListOf(values: map<string, string>, key: string): Result<seq<string>, Error> {
    var countKey := CountKey(key);
    if countKey !in values then Success([])
    else
      match ParseInt(values[countKey])
      case None => Failure(NotAnInteger(values[countKey]))
      case Some(n) => if n < 1 then Success([]) else Elements(values, key, n)
  }

  /** Once an element is missing, reading further elements keeps that failure. */
  lemma {:induction false} ElementsStopAt(values: map<string, string>, key: string, i: nat, n: nat)
    requires i <= n && Elements(values, key, i).Failure?
    ensures Elements(values, key, n) == Elements(values, key, i)
  {
    if i < n {
      ElementsStopAt(values, key, i, n - 1);
    }
  }

  /** `_extract_list`: the count check, then a loop that appends `key.0` to `key.(count-1)`. */
  method ExtractList(attrs: Attributes, key: string) returns (r: Result<seq<string>, Error>)
    ensures r == ListOf(attrs.values, key)
  {
    var lengthKey := CountKey(key);
    if lengthKey !in attrs.values {
      return Success([]);
    }
    var length := ParseInt(attrs.values[lengthKey]);
    if length.None? {
      return Failure(NotAnInteger(attrs.values[lengthKey]));
    }
    if length.value < 1 {
      return Success([]);
    }
    var out := [];
    var i := 0;
    while i < length.value
      invariant 0 <= i <= length.value
      invariant Elements(attrs.values, key, i) == Success(out)
    {
      var elementKey := ElementKey(key, i);
      if elementKey !in attrs.values {
        ElementsStopAt(attrs.values, key, i + 1, length.value);
        return Failure(MissingAttribute(elementKey));
      }
      out := out + [attrs.values[elementKey]];
      i := i + 1;
    }
    return Success(out);
  }

  lemma {:induction false} ElementsMeaning(values: map<string, string>, key: string, n: nat)
    ensures Elements(values, key, n).Success? <==> forall i :: 0 <= i < n ==> ElementKey(key, i) in values
    ensures Elements(values, key, n).Success? ==>
              && |Elements(values, key, n).value| == n
              && forall i :: 0 <= i < n ==> Elements(values, key, n).value[i] == values[ElementKey(key, i)]
    ensures Elements(values, key, n).Failure? ==>
              exists i :: && 0 <= i < n && ElementKey(key, i) !in values
                          && Elements(values, key, n).error == MissingAttribute(ElementKey(key, i))
  {
    if n > 0 {
      ElementsMeaning(values, key, n - 1);
    }
  }

  /**
   * `_extract_list(attrs, key)`: no `key.#` gives `[]`; a count that
   * `int()` rejects raises; a count below 1 gives `[]`; otherwise the
   * result has exactly `count` elements, element `i` being
   * `attrs[key.i]`, and it raises exactly when one of those keys is
   * missing.
   */
  lemma ListOfCases(values: map<string, string>, key: string)
    ensures CountKey(key) !in values ==> ListOf(values, key) == Success([])
    ensures CountKey(key) in values && ParseInt(values[CountKey(key)]).None? ==>
              ListOf(values, key) == Failure(NotAnInteger(values[CountKey(key)]))
    ensures CountKey(key) in values && ParseInt(values[CountKey(key)]).Some? ==>
              var n := ParseInt(values[CountKey(key)]).value;
              && (n < 1 ==> ListOf(values, key) == Success([]))
              && (n >= 1 ==>
                    && (ListOf(values, key).Success? <==> forall i :: 0 <= i < n ==> ElementKey(key, i) in values)
                    && (ListOf(values, key).Success? ==>
                          && |ListOf(values, key).value| == n
                          && forall i :: 0 <= i < n ==> ListOf(values, key).value[i] == values[ElementKey(key, i)])
                    && (ListOf(values, key).Failure? ==>
                          exists i :: 0 <= i < n && ListOf(values, key).error == MissingAttribute(ElementKey(key, i))
                                      && ElementKey(key, i) !in values))
  {
    if CountKey(key) in values && ParseInt(values[CountKey(key)]).Some? {
      var n := ParseInt(values[CountKey(key)]).value;
      if n >= 1 {
        ElementsMeaning(values, key, n);
      }
    }
  }

  /** `key.#` and the element keys are all distinct. */
  lemma ElementKeysDistinct(key: string, i: nat, j: nat)
    ensures ElementKey(key, i) == ElementKey(key, j) ==> i == j
    ensures ElementKey(key, i) != CountKey(key)
  {
    var a, b := ElementKey(key, i), ElementKey(key, j);
    assert a[|key| + 1..] == NatToString(i);
    assert b[|key| + 1..] == NatToString(j);
    NatToStringInjective(i, j);
    assert CountKey(key)[|key| + 1] == '#';
    assert a[|key| + 1] == NatToString(i)[0];
  }

  /** The entries `key.0` to `key.(n-1)` of the flattened list `xs`. */
  function ElementEntries(key: string, xs: seq<string>, n: nat): map<string, string>
    requires n <= |xs|
  {
    if n == 0 then map[] else ElementEntries(key, xs, n - 1)[ElementKey(key, n - 1) := xs[n - 1]]
  }

  /** The flattened form of list `xs` under `key`: its `key.#` count and its elements. */
  function FlattenList(key: string, xs: seq<string>): map<string, string> {
    ElementEntries(key, xs, |xs|)[CountKey(key) := NatToString(|xs|)]
  }

  lemma {:induction false} ElementEntriesAt(key: string, xs: seq<string>, n: nat)
    requires n <= |xs|
    ensures forall i :: 0 <= i < n ==> ElementKey(key, i) in ElementEntries(key, xs, n)
    ensures forall i :: 0 <= i < n ==> ElementEntries(key, xs, n)[ElementKey(key, i)] == xs[i]
  {
    if n > 0 {
      ElementEntriesAt(key, xs, n - 1);
      forall i | 0 <= i < n - 1 {
        ElementKeysDistinct(key, i, n - 1);
      }
    }
  }

  /**
   * Round trip: flattening a list beside any other attributes and
   * extracting it again gives back the list (the empty list through its
   * count "0").
   */
  lemma ListRoundTrip(values: map<string, string>, key: string, xs: seq<string>, others: map<string, string>)
    requires values == others + FlattenList(key, xs)
    ensures ListOf(values, key) == Success(xs)
  {
    ParseNatToString(|xs|);
    assert values[CountKey(key)] == NatToString(|xs|);
    ElementEntriesAt(key, xs, |xs|);
    forall i | 0 <= i < |xs|
      ensures ElementKey(key, i) in values && values[ElementKey(key, i)] == xs[i]
    {
      ElementKeysDistinct(key, i, i);
    }
    if |xs| >= 1 {
      ElementsMeaning(values, key, |xs|);
      var ys := Elements(values, key, |xs|).value;
      assert ys == xs;
      assert ListOf(values, key) == Elements(values, key, |xs|);
    }
  }
}
