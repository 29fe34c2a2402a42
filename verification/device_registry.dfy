/**
 * The Zigbee device registry (`ZigbeeDeviceManager`): an insertion-ordered
 * map from device name to the device's descriptor and last report, fed by
 * the bridge's device list and by per-device state messages, with the
 * three read-only views the tools use.
 */
module DeviceRegistry {
  import opened Text
  import opened Values

  const DefaultBaseTopic := "zigbee2mqtt"

  /** A device counts as online when it was seen within the last five minutes. */
  const OnlineWindowMillis := 5 * 60 * 1000

  /**
   * One entry of the bridge's device list. An absent `friendly_name` or
   * `ieee_address` is represented by the empty text.
   */
  datatype Descriptor = Descriptor(
    friendlyName: string,
    ieeeAddress: string,
    kind: string,
    definitionModel: Option<string>,
    modelId: Option<string>)

  datatype Status = Unknown | Online

  /** A registry record: the descriptor plus what the manager adds to it. Times are in milliseconds. */
  datatype Device = Device(desc: Descriptor, lastData: Option<JsValue>, lastSeen: int, status: Status)

  /** An element of the device list; a null element makes `device.type` throw. */
  datatype Entry = NullEntry | Listed(desc: Descriptor)

  /**
   * The registry: a JavaScript `Map`, whose iteration order is the order in
   * which keys were first inserted.
   */
  datatype Registry = Registry(order: seq<string>, devices: map<string, Device>) {
    /** `order` lists every key of `devices` exactly once. */
    predicate Valid() {
      && (forall i, j :: 0 <= i < j < |order| ==> order[i] != order[j])
      && devices.Keys == set k | k in order
    }

    /** A device is online exactly when it carries reported data. */
    predicate Consistent() {
      forall k :: k in devices ==> (devices[k].status == Online <==> devices[k].lastData.Some?)
    }
  }

  const EmptyRegistry := Registry([], map[])

  /** `device.friendly_name || device.ieee_address`. */
  function KeyOf(d: Descriptor): (k: string)
    ensures d.friendlyName != "" ==> k == d.friendlyName
    ensures d.friendlyName == "" ==> k == d.ieeeAddress
  {
    if d.friendlyName != "" then d.friendlyName else d.ieeeAddress
  }

  predicate IsCoordinator(d: Descriptor) {
    d.kind == "Coordinator"
  }

  /** `map.set(key, device)`: a new key goes to the end, an existing key keeps its place. */
  function Insert(r: Registry, key: string, dev: Device): (r': Registry)
    requires r.Valid()
    ensures r'.Valid()
    ensures r'.devices == r.devices[key := dev]
    ensures key in r.devices ==> r'.order == r.order
    ensures key !in r.devices ==> r'.order == r.order + [key]
  {
    if key in r.devices then Registry(r.order, r.devices[key := dev])
    else Registry(r.order + [key], r.devices[key := dev])
  }

  /** The record a listing creates: the descriptor alone, seen now, status unknown. */
  function Listing(d: Descriptor, now: int): Device {
    Device(d, None, now, Unknown)
  }

  /**
   * `updateDevicesList`: every non-coordinator entry replaces the record
   * under its key. The entries are processed in order and a null entry
   * throws, leaving the entries before it applied.
   */
  function UpdateDevicesList(r: Registry, entries: seq<Entry>, now: int): (r': Registry)
    requires r.Valid()
    ensures r'.Valid()
    ensures r.Consistent() ==> r'.Consistent()
    ensures |r.order| <= |r'.order| && r'.order[..|r.order|] == r.order
    decreases |entries|
  {
    if entries == [] || entries[0].NullEntry? then r
    else
      var d := entries[0].desc;
      var next := if IsCoordinator(d) then r else Insert(r, KeyOf(d), Listing(d, now));
      var r2 := UpdateDevicesList(next, entries[1..], now);
      PrefixOfPrefix(r.order, next.order, r2.order);
      r2
  }

  /** A prefix of a prefix is a prefix. */
  lemma PrefixOfPrefix<T>(a: seq<T>, b: seq<T>, c: seq<T>)
    requires |a| <= |b| <= |c| && b[..|a|] == a && c[..|b|] == b
    ensures c[..|a|] == a
  {
    assert c[..|a|] == c[..|b|][..|a|];
  }

  /**
   * The descriptor the device list finally files under `key`: the last
   * non-coordinator entry with that key before the first null entry.
   */
  function LastListed(entries: seq<Entry>, key: string): Option<Descriptor>
    decreases |entries|
  {
    if entries == [] || entries[0].NullEntry? then None
    else
      var later := LastListed(entries[1..], key);
      if later.Some? then later
      else if !IsCoordinator(entries[0].desc) && KeyOf(entries[0].desc) == key then Some(entries[0].desc)
      else None
  }

  /**
   * After the update, a key the list mentions holds a fresh listing of its
   * last descriptor (any reported data is forgotten); every other key is
   * untouched; nothing is removed.
   */
  lemma {:induction false} UpdateDevicesListContents(r: Registry, entries: seq<Entry>, now: int, key: string)
    requires r.Valid()
    ensures var r' := UpdateDevicesList(r, entries, now);
      && (LastListed(entries, key).Some? ==> key in r'.devices && r'.devices[key] == Listing(LastListed(entries, key).value, now))
      && (LastListed(entries, key).None? ==> (key in r'.devices <==> key in r.devices))
      && (LastListed(entries, key).None? && key in r.devices ==> r'.devices[key] == r.devices[key])
    decreases |entries|
  {
    if entries != [] && !entries[0].NullEntry? {
      var d := entries[0].desc;
      var rest := entries[1..];
      var next := if IsCoordinator(d) then r else Insert(r, KeyOf(d), Listing(d, now));
      assert UpdateDevicesList(r, entries, now) == UpdateDevicesList(next, rest, now);
      var later := LastListed(rest, key);
      assert LastListed(entries, key) ==
        if later.Some? then later
        else if !IsCoordinator(d) && KeyOf(d) == key then Some(d)
        else None;
      UpdateDevicesListContents(next, rest, now, key);
      if later.None? {
        assert key in next.devices <==> key in r.devices || (!IsCoordinator(d) && KeyOf(d) == key);
      }
    }
  }

  /** An empty device list changes nothing. */
  lemma EmptyListChangesNothing(r: Registry, now: int)
    requires r.Valid()
    ensures UpdateDevicesList(r, [], now) == r
  {
  }

  /** `updateDeviceStatus`: a known device takes the data and is marked online; an unknown name is ignored. */
  function UpdateDeviceStatus(r: Registry, name: string, data: JsValue, now: int): (r': Registry)
    requires r.Valid()
    ensures r'.Valid()
    ensures r'.order == r.order
    ensures r.Consistent() ==> r'.Consistent()
    ensures name !in r.devices ==> r' == r
    ensures name in r.devices ==>
      && r'.devices[name].desc == r.devices[name].desc
      && r'.devices[name].lastData == Some(data)
      && r'.devices[name].lastSeen == now
      && r'.devices[name].status == Online
    ensures forall k :: k in r.devices && k != name ==> k in r'.devices && r'.devices[k] == r.devices[k]
  {
    if name in r.devices then
      var dev := r.devices[name];
      Insert(r, name, Device(dev.desc, Some(data), now, Online))
    else r
  }

  /**
   * `handleMessage`. `list` is the payload decoded as a device list and
   * `data` the payload decoded as JSON (None when decoding, or iterating the
   * list, fails).
   */
  function HandleMessage(
    r: Registry, base: string, topic: string, list: Option<seq<Entry>>, data: Option<JsValue>, now: int): (r': Registry)
    requires r.Valid()
    ensures r'.Valid()
    ensures r.Consistent() ==> r'.Consistent()
    ensures topic != base + "/bridge/devices" ==> r'.order == r.order
    ensures topic == base + "/bridge/devices" ==>
      r' == (if list.Some? then UpdateDevicesList(r, list.value, now) else r)
  {
    if topic == base + "/bridge/devices" then
      match list
      case None => r
      case Some(entries) => UpdateDevicesList(r, entries, now)
    else if StartsWith(topic, base + "/") && !Contains(topic, "/bridge/") then
      var name := DeviceNameOf(base, topic);
      if name == "bridge" || Contains(name, "bridge/") then r
      else
        match data
        case None => r
        case Some(v) => UpdateDeviceStatus(r, name, v, now)
    else r
  }

  /** `topic.replace(base + '/', '')` on a topic that starts with `base + '/'`. */
  function DeviceNameOf(base: string, topic: string): (name: string)
    requires StartsWith(topic, base + "/")
    ensures topic == base + "/" + name
  {
    topic[|base| + 1..]
  }

  /**
   * A device message reaches exactly the named device: the registry changes
   * only when the name is registered and the payload is JSON, and then only
   * that record changes.
   */
  lemma DeviceMessageTouchesOneDevice(r: Registry, base: string, name: string, data: JsValue, now: int)
    requires r.Valid()
    requires name != "bridge" && !Contains(name, "bridge/") && !Contains(base + "/" + name, "/bridge/")
    requires base + "/" + name != base + "/bridge/devices"
    ensures var r' := HandleMessage(r, base, base + "/" + name, None, Some(data), now);
      && (name !in r.devices ==> r' == r)
      && (name in r.devices ==> r'.devices == r.devices[name := Device(r.devices[name].desc, Some(data), now, Online)])
  {
    var topic := base + "/" + name;
    assert StartsWith(topic, base + "/") by {
      assert topic[..|base + "/"|] == base + "/";
    }
    assert DeviceNameOf(base, topic) == name;
  }

  /**
   * A device list on `<base>/bridge/devices` fills the registry: every key
   * the list names holds its last listing, and every other key is kept as it was.
   */
  lemma DeviceListFillsRegistry(r: Registry, base: string, entries: seq<Entry>, data: Option<JsValue>, now: int, key: string)
    requires r.Valid()
    ensures var r' := HandleMessage(r, base, base + "/bridge/devices", Some(entries), data, now);
      && (LastListed(entries, key).Some? ==> key in r'.devices && r'.devices[key] == Listing(LastListed(entries, key).value, now))
      && (LastListed(entries, key).None? ==> (key in r'.devices <==> key in r.devices))
      && (LastListed(entries, key).None? && key in r.devices ==> r'.devices[key] == r.devices[key])
  {
    UpdateDevicesListContents(r, entries, now, key);
  }

  /** Bridge traffic other than the device list never changes the registry. */
  lemma BridgeTopicsChangeNothing(
    r: Registry, base: string, topic: string, list: Option<seq<Entry>>, data: Option<JsValue>, now: int)
    requires r.Valid()
    requires Contains(topic, "/bridge/") && topic != base + "/bridge/devices"
    ensures HandleMessage(r, base, topic, list, data, now) == r
  {
  }

  /** A payload that is not JSON is logged and changes nothing. */
  lemma NonJsonChangesNothing(r: Registry, base: string, topic: string, now: int)
    requires r.Valid()
    ensures HandleMessage(r, base, topic, None, None, now) == r
  {
  }

  /** `getDevices`: the records in insertion order. */
  function GetDevices(r: Registry): (ds: seq<Device>)
    requires r.Valid()
    ensures |ds| == |r.order|
    ensures forall i :: 0 <= i < |ds| ==> ds[i] == r.devices[r.order[i]]
  {
    seq(|r.order|, i requires 0 <= i < |r.order| => r.devices[r.order[i]])
  }

  /** Every registered record is listed by `getDevices`, and nothing else is. */
  lemma GetDevicesListsEveryRecord(r: Registry, d: Device)
    requires r.Valid()
    ensures d in GetDevices(r) <==> exists k :: k in r.devices && r.devices[k] == d
  {
    var ds := GetDevices(r);
    if d in ds {
      var i :| 0 <= i < |ds| && ds[i] == d;
      assert r.order[i] in r.devices;
    }
    if exists k :: k in r.devices && r.devices[k] == d {
      var k :| k in r.devices && r.devices[k] == d;
      var i :| 0 <= i < |r.order| && r.order[i] == k;
      assert ds[i] == d;
    }
  }

  /** The devices of `s` that satisfy `keep`, in their order. */
  function Filter(s: seq<Device>, keep: Device -> bool): (r: seq<Device>)
    ensures |r| <= |s|
    ensures forall d :: d in r <==> d in s && keep(d)
  {
    if s == [] then []
    else if keep(s[0]) then [s[0]] + Filter(s[1..], keep)
    else Filter(s[1..], keep)
  }

  /** When every device satisfies `keep`, `Filter` gives the whole sequence back. */
  lemma {:induction false} FilterKeepsAll(s: seq<Device>, keep: Device -> bool)
    requires forall i :: 0 <= i < |s| ==> keep(s[i])
    ensures Filter(s, keep) == s
  {
    if s != [] {
      FilterKeepsAll(s[1..], keep);
    }
  }

  /** `Filter` of one device keeps it exactly when it satisfies `keep`. */
  lemma FilterSingleton(x: Device, keep: Device -> bool)
    ensures Filter([x], keep) == if keep(x) then [x] else []
  {
    assert [x][1..] == [];
  }

  /** `Filter` works piece by piece: filtering a concatenation concatenates the filtered pieces. */
  lemma {:induction false} FilterAppend(a: seq<Device>, b: seq<Device>, keep: Device -> bool)
    ensures Filter(a + b, keep) == Filter(a, keep) + Filter(b, keep)
    decreases |a|
  {
    if a != [] {
      assert (a + b)[0] == a[0];
      assert (a + b)[1..] == a[1..] + b;
      FilterAppend(a[1..], b, keep);
    } else {
      assert a + b == b;
    }
  }

  /**
   * `ds` lists devices of `s` at the positions `idx`, which increase
   * strictly: `ds` is `s` with some devices left out and none reordered.
   */
  ghost predicate TakenInOrder(ds: seq<Device>, s: seq<Device>, idx: seq<int>) {
    && |idx| == |ds|
    && (forall i :: 0 <= i < |idx| ==> 0 <= idx[i] < |s| && ds[i] == s[idx[i]])
    && (forall i, j :: 0 <= i < j < |idx| ==> idx[i] < idx[j])
  }

  /** Every position moved one place on. */
  function Shift(xs: seq<int>): (ys: seq<int>)
    ensures |ys| == |xs| && forall i :: 0 <= i < |xs| ==> ys[i] == xs[i] + 1
  {
    seq(|xs|, i requires 0 <= i < |xs| => xs[i] + 1)
  }

  /** Positions in `s[1..]` are positions in `s`, one place on. */
  lemma ShiftTaken(ds: seq<Device>, s: seq<Device>, rest: seq<int>)
    requires s != [] && TakenInOrder(ds, s[1..], rest)
    ensures TakenInOrder(ds, s, Shift(rest))
    ensures forall i :: 0 <= i < |rest| ==> Shift(rest)[i] >= 1
  {
  }

  lemma ShiftMembers(rest: seq<int>, p: int)
    ensures p in Shift(rest) <==> p - 1 in rest
  {
    var ys := Shift(rest);
    if p - 1 in rest {
      var i :| 0 <= i < |rest| && rest[i] == p - 1;
      assert ys[i] == p;
    }
  }

  /** Putting the first device in front of an in-order pick of later positions keeps the order. */
  lemma ConsTaken(ds: seq<Device>, s: seq<Device>, later: seq<int>)
    requires s != [] && TakenInOrder(ds, s, later)
    requires forall i :: 0 <= i < |later| ==> later[i] >= 1
    ensures TakenInOrder([s[0]] + ds, s, [0] + later)
  {
  }

  /**
   * `Filter` keeps exactly the positions whose device satisfies `keep`, in
   * their original order.
   */
  lemma {:induction false} FilterPositions(s: seq<Device>, keep: Device -> bool) returns (idx: seq<int>)
    ensures TakenInOrder(Filter(s, keep), s, idx)
    ensures forall p :: 0 <= p < |s| ==> (p in idx <==> keep(s[p]))
    decreases |s|
  {
    if s == [] {
      idx := [];
    } else {
      var tail := Filter(s[1..], keep);
      var rest := FilterPositions(s[1..], keep);
      var shifted := Shift(rest);
      ShiftTaken(tail, s, rest);
      forall p | 1 <= p < |s|
        ensures p in shifted <==> keep(s[p])
      {
        ShiftMembers(rest, p);
        assert s[1..][p - 1] == s[p];
      }
      ShiftMembers(rest, 0);
      if keep(s[0]) {
        assert Filter(s, keep) == [s[0]] + tail;
        ConsTaken(tail, s, shifted);
        idx := [0] + shifted;
        forall p | 0 <= p < |s|
          ensures p in idx <==> keep(s[p])
        {
          assert p in idx <==> p == 0 || p in shifted;
        }
      } else {
        assert Filter(s, keep) == tail;
        idx := shifted;
      }
    }
  }

  /** `model?.toLowerCase().includes(type)`, with `type` already lower-cased. */
  predicate ModelMatches(model: Option<string>, lowerType: string) {
    model.Some? && Contains(ToLower(model.value), lowerType)
  }

  predicate MatchesType(d: Device, lowerType: string) {
    ModelMatches(d.desc.definitionModel, lowerType) || ModelMatches(d.desc.modelId, lowerType)
  }

  /** `getDevicesByType`: a case-insensitive substring match on the definition model or the model id. */
  function GetDevicesByType(r: Registry, kind: string): (ds: seq<Device>)
    requires r.Valid()
    ensures forall d :: d in ds <==> d in GetDevices(r) && MatchesType(d, ToLower(kind))
  {
    Filter(GetDevices(r), d => MatchesType(d, ToLower(kind)))
  }

  /**
   * `getDevicesByType` lists the matching devices in the order of
   * `getDevices`, each listed position once.
   */
  lemma GetDevicesByTypeInOrder(r: Registry, kind: string) returns (idx: seq<int>)
    requires r.Valid()
    ensures TakenInOrder(GetDevicesByType(r, kind), GetDevices(r), idx)
    ensures forall p :: 0 <= p < |GetDevices(r)| ==>
      (p in idx <==> MatchesType(GetDevices(r)[p], ToLower(kind)))
  {
    idx := FilterPositions(GetDevices(r), d => MatchesType(d, ToLower(kind)));
  }

  lemma LowerCharIdempotent(c: char)
    ensures LowerChar(LowerChar(c)) == LowerChar(c)
  {
  }

  lemma ToLowerIdempotent(s: string)
    ensures ToLower(ToLower(s)) == ToLower(s)
  {
    forall i | 0 <= i < |s|
      ensures ToLower(ToLower(s))[i] == ToLower(s)[i]
    {
      LowerCharIdempotent(s[i]);
    }
  }

  /** The type filter ignores the case of the requested type. */
  lemma TypeFilterIgnoresCase(r: Registry, kind: string)
    requires r.Valid()
    ensures GetDevicesByType(r, kind) == GetDevicesByType(r, ToLower(kind))
  {
    ToLowerIdempotent(kind);
  }

  /** The empty type selects every device that has a model string at all. */
  lemma EmptyTypeSelectsModelled(r: Registry, d: Device)
    requires r.Valid()
    ensures d in GetDevicesByType(r, "") <==>
      d in GetDevices(r) && (d.desc.definitionModel.Some? || d.desc.modelId.Some?)
  {
    if d.desc.definitionModel.Some? {
      assert StartsWith(ToLower(d.desc.definitionModel.value), "");
    }
    if d.desc.modelId.Some? {
      assert StartsWith(ToLower(d.desc.modelId.value), "");
    }
  }

  /** Seen strictly after `now` minus five minutes. */
  predicate SeenRecently(d: Device, now: int) {
    d.lastSeen > now - OnlineWindowMillis
  }

  /** `getOnlineDevices`. */
  function GetOnlineDevices(r: Registry, now: int): (ds: seq<Device>)
    requires r.Valid()
    ensures forall d :: d in ds <==> d in GetDevices(r) && SeenRecently(d, now)
  {
    Filter(GetDevices(r), d => SeenRecently(d, now))
  }

  /**
   * `getOnlineDevices` lists the recently seen devices in the order of
   * `getDevices`, each listed position once.
   */
  lemma GetOnlineDevicesInOrder(r: Registry, now: int) returns (idx: seq<int>)
    requires r.Valid()
    ensures TakenInOrder(GetOnlineDevices(r, now), GetDevices(r), idx)
    ensures forall p :: 0 <= p < |GetDevices(r)| ==>
      (p in idx <==> SeenRecently(GetDevices(r)[p], now))
  {
    idx := FilterPositions(GetDevices(r), d => SeenRecently(d, now));
  }

  /**
   * A device that reported at time `t` is listed as online at every later
   * moment before `t` plus five minutes, and not from then on.
   */
  lemma OnlineWindow(r: Registry, name: string, data: JsValue, t: int, later: int)
    requires r.Valid() && name in r.devices && later >= t
    ensures var r' := UpdateDeviceStatus(r, name, data, t);
      r'.devices[name] in GetOnlineDevices(r', later) <==> later < t + OnlineWindowMillis
  {
    var r' := UpdateDeviceStatus(r, name, data, t);
    GetDevicesListsEveryRecord(r', r'.devices[name]);
  }
}
