/**
 * The configuration side of the config web app: the item table it is
 * started with, the validation `config_webapp_start` applies to it, the
 * lookup of an item by key, and the rules by which a submitted or
 * programmatically set value is normalised before it is stored in NVS
 * (a bool from a checkbox, an integer clamped to its range, a string cut
 * to its maximum length).
 *
 * `s_items_storage` and `s_ctx` are the fields of one `ConfigWebApp`
 * object; the NVS namespace is an `Nvs` collaborator. Whether
 * `nvs_open`, `ensure_defaults_in_nvs` or the HTTP server fail is a
 * nondeterministic choice.
 */
module ConfigWebApp {
  import opened Common
  import opened WebForm
  import opened FlashStorage

  /** The longest key or namespace the firmware accepts (NVS keys hold 15 characters). */
  const MAX_KEY_LEN: nat := 15

  /** `config_value_type_t`. */
  datatype ValueType = StringValue | Int32Value | FloatValue | BoolValue

  /**
   * `config_item_t` as far as the modelled code reads it: the key (a
   * pointer that may be null), the type and the string and integer bounds.
   */
  datatype ConfigItem = ConfigItem(key: Option<string>, vtype: ValueType,
                                   maxStringLen: nat, minInt: i32, maxInt: i32)

  /** `config_group_t`: `None` for a null `items` pointer, otherwise its `item_count` items. */
  datatype ConfigGroup = ConfigGroup(items: Option<seq<ConfigItem>>)

  // ------------------------------------------------------------- value rules

  /** `std::max(min_int, std::min(max_int, v))`. */
  function ClampInt(v: i32, lo: i32, hi: i32): (r: i32)
    ensures lo <= hi ==> lo <= r <= hi
    ensures lo <= v <= hi ==> r == v
    ensures v < lo ==> r == lo
    ensures lo <= hi < v ==> r == hi
    ensures hi < lo ==> r == lo
  {
    Max(lo as int, Min(hi as int, v as int)) as i32
  }

  /** When the range is not empty, the clamped value is the one of the range nearest to `v`, and clamping twice changes nothing. */
  lemma ClampNearest(v: i32, lo: i32, hi: i32, w: i32)
    requires lo <= hi && lo <= w <= hi
    ensures var r := ClampInt(v, lo, hi);
      (if r <= v then v as int - r as int else r as int - v as int)
        <= (if w <= v then v as int - w as int else w as int - v as int)
    ensures ClampInt(ClampInt(v, lo, hi), lo, hi) == ClampInt(v, lo, hi)
  {
  }

  /** The string-length rule: a value longer than a non-zero `max_string_len` is cut to that length. */
  function Truncate(s: string, maxLen: nat): (r: string)
    ensures r <= s
    ensures maxLen > 0 && |s| > maxLen ==> |r| == maxLen
    ensures maxLen == 0 || |s| <= maxLen ==> r == s
  {
    if maxLen > 0 && |s| > maxLen then s[..maxLen] else s
  }

  /** The text a C string reaches: everything before its first NUL (`c_str()` handed to `nvs_set_str`, or a `const char *` copied into a `std::string`). */
  function CString(s: string): (r: string)
    ensures r <= s && '\0' !in r
    ensures '\0' !in s ==> r == s
  {
    s[..IndexOf(s, '\0')]
  }

  /** Cutting to the maximum length and stopping at the first NUL can be done in either order; both are idempotent. */
  lemma TruncateCString(s: string, maxLen: nat)
    ensures CString(Truncate(s, maxLen)) == Truncate(CString(s), maxLen)
    ensures Truncate(Truncate(s, maxLen), maxLen) == Truncate(s, maxLen)
    ensures CString(CString(s)) == CString(s)
  {
    var e := IndexOf(s, '\0');
    if maxLen > 0 && |s| > maxLen {
      var t := s[..maxLen];
      if e < maxLen {
        IndexOfIs(t, '\0', e);
      } else {
        IndexOfIs(t, '\0', maxLen);
      }
    }
  }

  // ------------------------------------------------------------- key rules

  /** A key `config_webapp_start` accepts: not null, not empty, at most 15 characters. */
  predicate ValidKey(key: Option<string>)
  {
    key.Some? && 0 < |key.value| <= MAX_KEY_LEN
  }

  /** Every key is valid and no two items share one. */
  predicate KeysValid(items: seq<ConfigItem>)
  {
    && (forall i :: 0 <= i < |items| ==> ValidKey(items[i].key))
    && (forall i, j :: 0 <= i < j < |items| ==> items[i].key != items[j].key)
  }

  /** The keys of the items (the `unique_keys` set). */
  function KeySet(items: seq<ConfigItem>): set<string>
  {
    set i | 0 <= i < |items| && items[i].key.Some? :: items[i].key.value
  }

  /** A prefix of a valid key list is valid. */
  lemma KeysValidPrefix(s: seq<ConfigItem>, t: seq<ConfigItem>)
    requires s <= t
    ensures KeysValid(t) ==> KeysValid(s)
  {
    assert forall i :: 0 <= i < |s| ==> s[i] == t[i];
  }

  /** A valid key list stays valid with one more item exactly when its key is valid and new. */
  lemma KeysValidSnoc(s: seq<ConfigItem>, item: ConfigItem)
    requires KeysValid(s)
    ensures KeysValid(s + [item]) <==> ValidKey(item.key) && item.key.value !in KeySet(s)
    ensures ValidKey(item.key) ==> KeySet(s + [item]) == KeySet(s) + {item.key.value}
  {
    var t := s + [item];
    assert forall i :: 0 <= i < |s| ==> t[i] == s[i];
    assert t[|s|] == item;
    if ValidKey(item.key) && item.key.value in KeySet(s) {
      var i :| 0 <= i < |s| && s[i].key.Some? && s[i].key.value == item.key.value;
      assert t[i].key == t[|s|].key;
    }
    if ValidKey(item.key) {
      forall k | k in KeySet(t)
        ensures k in KeySet(s) + {item.key.value}
      {
        var i :| 0 <= i < |t| && t[i].key.Some? && t[i].key.value == k;
        if i < |s| {
          assert s[i] == t[i];
        }
      }
      forall k | k in KeySet(s)
        ensures k in KeySet(t)
      {
        var i :| 0 <= i < |s| && s[i].key.Some? && s[i].key.value == k;
        assert t[i] == s[i];
      }
      assert t[|s|].key.value in KeySet(t);
    }
  }

  /** The items of a group; a null group has none. */
  function ItemsOf(g: ConfigGroup): seq<ConfigItem>
  {
    if g.items.Some? then g.items.value else []
  }

  /** All items of all groups, group after group: what `s_items_storage` collects. */
  function Flatten(groups: seq<ConfigGroup>): seq<ConfigItem>
  {
    if groups == [] then []
    else Flatten(groups[..|groups| - 1]) + ItemsOf(groups[|groups| - 1])
  }

  /** The items of the first `k` groups come first among all of them. */
  lemma {:induction false} FlattenPrefix(groups: seq<ConfigGroup>, k: nat)
    requires k <= |groups|
    ensures Flatten(groups[..k]) <= Flatten(groups)
    decreases |groups|
  {
    if k < |groups| {
      var front := groups[..|groups| - 1];
      assert groups[..k] == front[..k];
      FlattenPrefix(front, k);
    } else {
      assert groups[..k] == groups;
    }
  }

  /** One more group appends its items. */
  lemma FlattenSnoc(groups: seq<ConfigGroup>, k: nat)
    requires k < |groups|
    ensures Flatten(groups[..k + 1]) == Flatten(groups[..k]) + ItemsOf(groups[k])
  {
    assert groups[..k + 1][..k] == groups[..k];
  }

  /** Every group has a non-null pointer and at least one item. */
  predicate GroupsValid(groups: seq<ConfigGroup>)
  {
    forall i :: 0 <= i < |groups| ==> groups[i].items.Some? && |groups[i].items.value| > 0
  }

  /**
   * What `config_webapp_start` decides before it touches the context, in
   * the order it checks: the arguments, the namespace length, a running
   * server, the groups, then the keys.
   */
  function StartCheck(ns: Option<string>, groups: Option<seq<ConfigGroup>>, running: bool): (r: Status)
    ensures r == Ok || r == InvalidArg || r == InvalidState
    ensures r == Ok ==> ns.Some? && groups.Some? && |ns.value| <= MAX_KEY_LEN && KeysValid(Flatten(groups.value))
  {
    if ns.None? || groups.None? || |groups.value| == 0 then InvalidArg
    else if |ns.value| > MAX_KEY_LEN then InvalidArg
    else if running then InvalidState
    else if !GroupsValid(groups.value) then InvalidArg
    else if !KeysValid(Flatten(groups.value)) then InvalidArg
    else Ok
  }

  /** Every check before the key loop passes: a failure from here on is a key error. */
  predicate KeyPhaseReached(ns: Option<string>, groups: Option<seq<ConfigGroup>>, running: bool)
  {
    && ns.Some? && groups.Some? && |groups.value| > 0 && |ns.value| <= MAX_KEY_LEN
    && !running && GroupsValid(groups.value)
  }

  /** The first group loop of `config_webapp_start`: checks each group and counts the items. */
  method CheckGroups(groups: seq<ConfigGroup>) returns (ok: bool, total: nat)
    ensures ok <==> GroupsValid(groups)
    ensures ok ==> total == |Flatten(groups)|
  {
    total := 0;
    var g := 0;
    while g < |groups|
      invariant g <= |groups| && GroupsValid(groups[..g])
      invariant total == |Flatten(groups[..g])|
    {
      var group := groups[g];
      if group.items.None? || |group.items.value| == 0 {
        assert groups[..g + 1][g] == group;
        return false, total;
      }
      FlattenSnoc(groups, g);
      total := total + |group.items.value|;
      g := g + 1;
    }
    assert groups[..g] == groups;
    ok := true;
  }

  /**
   * The inner key loop for one group: each item's key must be valid and
   * not yet in `unique`; valid items are appended to `stored`.
   */
  method CollectGroup(items: seq<ConfigItem>, stored: seq<ConfigItem>, unique: set<string>)
    returns (ok: bool, stored': seq<ConfigItem>, unique': set<string>)
    requires KeysValid(stored) && unique == KeySet(stored)
    ensures ok <==> KeysValid(stored + items)
    ensures ok ==> stored' == stored + items && unique' == KeySet(stored')
  {
    stored', unique' := stored, unique;
    var i := 0;
    while i < |items|
      invariant i <= |items| && stored' == stored + items[..i]
      invariant KeysValid(stored') && unique' == KeySet(stored')
    {
      var item := items[i];
      KeysValidSnoc(stored', item);
      assert stored' + [item] == stored + items[..i + 1];
      assert stored + items[..i + 1] <= stored + items;
      if !ValidKey(item.key) || item.key.value in unique' {
        KeysValidPrefix(stored' + [item], stored + items);
        return false, stored', unique';
      }
      unique' := unique' + {item.key.value};
      stored' := stored' + [item];
      i := i + 1;
    }
    assert items[..i] == items;
    ok := true;
  }

  /** The second group loop of `config_webapp_start`: collects every item and rejects a bad or repeated key. */
  method CollectKeys(groups: seq<ConfigGroup>) returns (ok: bool, stored: seq<ConfigItem>)
    ensures ok <==> KeysValid(Flatten(groups))
    ensures ok ==> stored == Flatten(groups)
  {
    stored := [];
    var unique: set<string> := {};
    var g := 0;
    while g < |groups|
      invariant g <= |groups| && stored == Flatten(groups[..g])
      invariant KeysValid(stored) && unique == KeySet(stored)
    {
      FlattenSnoc(groups, g);
      ok, stored, unique := CollectGroup(ItemsOf(groups[g]), stored, unique);
      if !ok {
        FlattenPrefix(groups, g + 1);
        KeysValidPrefix(Flatten(groups[..g + 1]), Flatten(groups));
        return false, [];
      }
      g := g + 1;
    }
    assert groups[..g] == groups;
    ok := true;
  }

  /** The first item whose key is `key`, or `|items|` when there is none. */
  function FindIn(items: seq<ConfigItem>, key: string): (i: nat)
    ensures i <= |items|
    ensures i < |items| ==> items[i].key == Some(key)
    ensures forall j :: 0 <= j < i ==> items[j].key != Some(key)
  {
    if items == [] then 0
    else if items[0].key == Some(key) then 0
    else 1 + FindIn(items[1..], key)
  }

  /** With distinct keys the first match is the only one: looking up an item's key finds that item. */
  lemma FindInUnique(items: seq<ConfigItem>, j: nat)
    requires KeysValid(items) && j < |items|
    ensures FindIn(items, items[j].key.value) == j
  {
  }

  // ------------------------------------------------------------- saving a form

  /** What `save_form_to_nvs` does for one item. */
  datatype SaveAction = Write(value: NvsValue) | Skip | Reject

  /**
   * The number parsers of `save_form_to_nvs`: `int32` is `strtol` with its end
   * check and the cast to `int32_t` (`None` when the text is not a whole
   * number); `floatOk` tells whether `strtof` consumes the whole text.
   */
  datatype Parsers = Parsers(int32: string -> Option<i32>, floatOk: string -> bool)

  /**
   * The action for one item given the submitted fields. A float that parses
   * is stored as a float, which this model does not represent: it is a `Skip`.
   */
  function SaveActionOf(item: ConfigItem, params: map<string, string>, parse: Parsers): (a: SaveAction)
    requires item.key.Some?
    ensures item.vtype == BoolValue ==> a == Write(U8(if FormBool(params, item.key.value) then 1 else 0))
    ensures item.vtype != BoolValue && item.key.value !in params ==> a == Skip
    ensures a.Write? && a.value.Str? ==>
      a.value.s <= params[item.key.value] && (item.maxStringLen > 0 ==> |a.value.s| <= item.maxStringLen)
    ensures a.Write? && a.value.I32? && item.minInt <= item.maxInt ==> item.minInt as int <= a.value.n <= item.maxInt as int
    ensures a.Reject? <==>
      (item.key.value in params &&
       ((item.vtype == Int32Value && parse.int32(params[item.key.value]).None?)
        || (item.vtype == FloatValue && !parse.floatOk(params[item.key.value]))))
  {
    var key := item.key.value;
    if item.vtype == BoolValue then Write(U8(if FormBool(params, key) then 1 else 0))
    else if key !in params then Skip
    else
      match item.vtype
      case StringValue =>
        var t := Truncate(params[key], item.maxStringLen);
        Write(Str(CString(t)))
      case Int32Value =>
        (match parse.int32(params[key])
         case None => Reject
         case Some(v) => Write(I32(ClampInt(v, item.minInt, item.maxInt) as int)))
      case FloatValue => if parse.floatOk(params[key]) then Skip else Reject
  }

  /** The staged store after saving `items` in turn from `store`, or `None` when one of them is rejected. */
  function Saved(store: map<string, NvsValue>, items: seq<ConfigItem>, params: map<string, string>,
                 parse: Parsers): Option<map<string, NvsValue>>
    requires forall i :: 0 <= i < |items| ==> items[i].key.Some?
    decreases |items|
  {
    if items == [] then Some(store)
    else
      match SaveActionOf(items[0], params, parse)
      case Write(v) => Saved(store[items[0].key.value := v], items[1..], params, parse)
      case Skip => Saved(store, items[1..], params, parse)
      case Reject => None
  }

  /** A saved store gives every bool item the submitted checkbox state, present or not. */
  lemma {:induction false} SavedBools(store: map<string, NvsValue>, items: seq<ConfigItem>, params: map<string, string>,
                                      parse: Parsers, j: nat)
    requires KeysValid(items) && j < |items| && items[j].vtype == BoolValue
    requires Saved(store, items, params, parse).Some?
    ensures var k := items[j].key.value;
      var out := Saved(store, items, params, parse).value;
      k in out && out[k] == U8(if FormBool(params, k) then 1 else 0)
    decreases |items|
  {
    var rest := items[1..];
    assert KeysValid(rest) by {
      assert forall i :: 0 <= i < |rest| ==> rest[i] == items[i + 1];
    }
    var store' := match SaveActionOf(items[0], params, parse)
      case Write(v) => store[items[0].key.value := v]
      case _ => store;
    assert Saved(store, items, params, parse) == Saved(store', rest, params, parse);
    if j == 0 {
      SavedKeeps(store', rest, params, parse, items[0].key.value);
    } else {
      assert rest[j - 1] == items[j];
      SavedBools(store', rest, params, parse, j - 1);
    }
  }

  /** Items with other keys leave a key's stored value alone. */
  lemma {:induction false} SavedKeeps(store: map<string, NvsValue>, items: seq<ConfigItem>, params: map<string, string>,
                                      parse: Parsers, k: string)
    requires forall i :: 0 <= i < |items| ==> items[i].key.Some? && items[i].key.value != k
    requires Saved(store, items, params, parse).Some?
    ensures var out := Saved(store, items, params, parse).value;
      (k in out <==> k in store) && (k in store ==> out[k] == store[k])
    decreases |items|
  {
    if items != [] {
      var rest := items[1..];
      assert forall i :: 0 <= i < |rest| ==> rest[i] == items[i + 1];
      match SaveActionOf(items[0], params, parse)
      case Write(v) => SavedKeeps(store[items[0].key.value := v], rest, params, parse, k);
      case Skip => SavedKeeps(store, rest, params, parse, k);
    }
  }

  // ------------------------------------------------------------- the app

  class ConfigWebApp {
    /** `s_items_storage`: the items collected by the last `config_webapp_start`. */
    var storage: seq<ConfigItem>
    /** `s_ctx.items[0..item_count]`; empty for a null pointer. */
    var items: seq<ConfigItem>
    /** `s_ctx.nvs_namespace`, up to its NUL. */
    var namespace: string
    /** `s_ctx.server != nullptr`. */
    var serverRunning: bool
    /** The NVS namespace the items are stored in. */
    const nvs: Nvs

    /** What a started context always satisfies: valid, distinct keys and a namespace that fits its buffer. */
    ghost predicate Valid()
      reads this
    {
      KeysValid(items) && |namespace| <= MAX_KEY_LEN
    }

    /** The zero-initialised statics. */
    constructor (store: Nvs)
      ensures Valid() && !IsCtxReady() && !serverRunning
      ensures storage == [] && items == [] && namespace == [] && nvs == store
    {
      storage, items, namespace, serverRunning, nvs := [], [], [], false, store;
    }

    /** `is_ctx_ready`. */
    predicate IsCtxReady()
      reads this
    {
      |items| > 0 && namespace != []
    }

    /** The index of the item `find_item` returns, `None` for a null pointer. */
    function Lookup(key: Option<string>): (r: Option<nat>)
      reads this
      ensures r.Some? ==> r.value < |items| && items[r.value].key == key
      ensures r.None? ==> !IsCtxReady() || key.None? || forall j :: 0 <= j < |items| ==> items[j].key != key
    {
      if IsCtxReady() && key.Some? && FindIn(items, key.value) < |items| then Some(FindIn(items, key.value))
      else None
    }

    /** In a started context every item is found under its own key. */
    lemma LookupFindsItem(j: nat)
      requires Valid() && IsCtxReady() && j < |items|
      ensures Lookup(items[j].key) == Some(j)
    {
      FindInUnique(items, j);
    }

    /** `find_item`: the first item whose key matches, or none when the context is not ready. */
    method FindItem(key: Option<string>) returns (r: Option<nat>)
      ensures r == Lookup(key)
    {
      if !IsCtxReady() || key.None? {
        return None;
      }
      var i := 0;
      while i < |items|
        invariant i <= |items| && forall j :: 0 <= j < i ==> items[j].key != key
      {
        if items[i].key == key {
          return Some(i);
        }
        i := i + 1;
      }
      r := None;
    }

    /**
     * `config_webapp_start`. When a check fails nothing changes, except that
     * a key error also empties the item storage. Otherwise the context holds
     * the collected items and the namespace, and the start succeeds exactly
     * when the server comes up.
     */
    method Start(ns: Option<string>, groups: Option<seq<ConfigGroup>>) returns (r: Status)
      requires Valid()
      modifies this
      ensures Valid()
      ensures var check := StartCheck(ns, groups, old(serverRunning));
        check != Ok ==>
          r == check && items == old(items) && namespace == old(namespace) && serverRunning == old(serverRunning)
          && storage == (if KeyPhaseReached(ns, groups, old(serverRunning)) then [] else old(storage))
      ensures StartCheck(ns, groups, old(serverRunning)) == Ok ==>
          storage == Flatten(groups.value) && items == storage && namespace == ns.value
          && (r == Ok || r == StorageError) && (r == Ok <==> serverRunning)
    {
      if ns.None? || groups.None? || |groups.value| == 0 {
        return InvalidArg;
      }
      if |ns.value| > MAX_KEY_LEN {
        return InvalidArg;
      }
      if serverRunning {
        return InvalidState;
      }
      var ok, total := CheckGroups(groups.value);
      if !ok {
        return InvalidArg;
      }
      storage := [];
      ok, storage := CollectKeys(groups.value);
      if !ok {
        storage := [];
        return InvalidArg;
      }
      items, namespace, serverRunning := storage, ns.value, false;
      var defaultsFailed: bool :| true;
      if defaultsFailed {
        return StorageError;
      }
      var serverFailed: bool :| true;
      if serverFailed {
        return StorageError;
      }
      serverRunning := true;
      r := Ok;
    }

    /** The item of type `t` stored under `key`, as `config_webapp_set_*` looks it up. */
    function TypedItem(key: Option<string>, t: ValueType): (r: Option<ConfigItem>)
      reads this
      ensures r.Some? ==> r.value.vtype == t && r.value.key == key && key.Some?
    {
      var found := Lookup(key);
      if found.Some? && items[found.value].vtype == t then Some(items[found.value]) else None
    }

    /**
     * `config_webapp_set_i32`: a key that is null, unknown or not an integer
     * item is rejected; otherwise the clamped value is set and committed.
     */
    method SetI32(key: Option<string>, value: i32) returns (r: Status)
      modifies nvs
      ensures TypedItem(key, Int32Value).None? <==> r == InvalidArg
      ensures r == Ok ==>
        var item := TypedItem(key, Int32Value).value;
        nvs.committed == nvs.staged == old(nvs.staged)[key.value := I32(ClampInt(value, item.minInt, item.maxInt) as int)]
      ensures r != Ok ==> nvs.committed == old(nvs.committed)
    {
      if key.None? {
        return InvalidArg;
      }
      var found := FindItem(key);
      if found.None? || items[found.value].vtype != Int32Value {
        return InvalidArg;
      }
      var item := items[found.value];
      var clamped := ClampInt(value, item.minInt, item.maxInt);
      r := nvs.Open();
      if r != Ok {
        return;
      }
      r := nvs.Set(key.value, I32(clamped as int));
      if r == Ok {
        r := nvs.Commit();
      }
    }

    /**
     * `config_webapp_set_string`: a null key or value, or a key that is not
     * a string item, is rejected; otherwise the value (up to its NUL) cut
     * to the item's maximum length is set and committed.
     */
    method SetString(key: Option<string>, value: Option<string>) returns (r: Status)
      modifies nvs
      ensures key.None? || value.None? || TypedItem(key, StringValue).None? <==> r == InvalidArg
      ensures r == Ok ==>
        var item := TypedItem(key, StringValue).value;
        nvs.committed == nvs.staged == old(nvs.staged)[key.value := Str(Truncate(CString(value.value), item.maxStringLen))]
      ensures r != Ok ==> nvs.committed == old(nvs.committed)
    {
      if key.None? || value.None? {
        return InvalidArg;
      }
      var found := FindItem(key);
      if found.None? || items[found.value].vtype != StringValue {
        return InvalidArg;
      }
      var item := items[found.value];
      var normalized := Truncate(CString(value.value), item.maxStringLen);
      r := nvs.Open();
      if r != Ok {
        return;
      }
      r := nvs.Set(key.value, Str(normalized));
      if r == Ok {
        r := nvs.Commit();
      }
    }

    /**
     * `save_form_to_nvs`: every item in turn takes its action on the
     * submitted fields; a rejected integer stops the loop, and the writes
     * become durable only when every item was saved and the commit succeeds.
     */
    method SaveForm(params: map<string, string>, parse: Parsers) returns (r: Status)
      requires Valid()
      modifies nvs
      ensures r == Ok ==> Saved(old(nvs.staged), items, params, parse) == Some(nvs.committed)
      ensures r == Ok ==> nvs.staged == nvs.committed
      ensures Saved(old(nvs.staged), items, params, parse).None? ==> r != Ok
      ensures r == Ok || r == InvalidArg || r == StorageError
      ensures r == InvalidArg ==> Saved(old(nvs.staged), items, params, parse).None?
      ensures r != Ok ==> nvs.committed == old(nvs.committed)
    {
      r := nvs.Open();
      if r != Ok {
        return;
      }
      var i := 0;
      while i < |items|
        invariant i <= |items| && nvs.committed == old(nvs.committed)
        invariant Saved(old(nvs.staged), items, params, parse) == Saved(nvs.staged, items[i..], params, parse)
      {
        var item := items[i];
        var key := item.key.value;
        assert items[i..][0] == item && items[i..][1..] == items[i + 1..];
        var action := SaveActionOf(item, params, parse);
        match action {
          case Write(v) =>
            r := nvs.Set(key, v);
            if r != Ok {
              return;
            }
          case Skip =>
          case Reject =>
            return InvalidArg;
        }
        i := i + 1;
      }
      assert items[i..] == [];
      r := nvs.Commit();
    }
  }
}
