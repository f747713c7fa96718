/** The in-memory device registry: a map from device identity to device. */
module Persistence {
  import opened Uuid
  import opened Domain

  class InMemoryDB {
    var data: map<Uuid, SignatureDevice>

    /** `GetInMemoryDB`: a registry with no entries. */
    constructor ()
      ensures data == map[]
    {
      data := map[];
    }

    /** `Set`: `key` now maps to `device`, replacing any earlier entry; every
        other key keeps its entry. */
    method Set(key: Uuid, device: SignatureDevice)
      modifies this
      ensures data == old(data)[key := device]
      ensures key in data && data[key] == device
      ensures forall k :: k in old(data) && k != key ==> k in data && data[k] == old(data)[k]
      ensures data.Keys == old(data).Keys + {key}
    {
      data := data[key := device];
    }

    /** `Get`: the device stored under `key` and `true`, or `null` and `false`
        when there is none. The registry is not changed. */
    method Get(key: Uuid) returns (value: SignatureDevice?, ok: bool)
      ensures ok <==> key in data
      ensures ok ==> value == data[key]
      ensures !ok ==> value == null
    {
      if key in data {
        value, ok := data[key], true;
      } else {
        value, ok := null, false;
      }
    }

    /** `GetAll`: every stored device once, in no particular order (the map's
        iteration order). `keys` records which entry each element came from:
        each key exactly once. The registry is not changed. */
    method GetAll() returns (all: seq<SignatureDevice>, ghost keys: seq<Uuid>)
      ensures |all| == |keys| == |data|
      ensures forall i :: 0 <= i < |keys| ==> keys[i] in data && all[i] == data[keys[i]]
      ensures forall i, j :: 0 <= i < j < |keys| ==> keys[i] != keys[j]
      ensures forall k :: k in data ==> k in keys
      ensures forall d :: d in all <==> d in data.Values
    {
      all, keys := [], [];
      var rest := data.Keys;
      while rest != {}
        invariant rest <= data.Keys
        invariant |all| == |keys| && |keys| + |rest| == |data.Keys|
        invariant forall i :: 0 <= i < |keys| ==> keys[i] in data && keys[i] !in rest && all[i] == data[keys[i]]
        invariant forall i, j :: 0 <= i < j < |keys| ==> keys[i] != keys[j]
        invariant forall k :: k in data && k !in rest ==> k in keys
        decreases rest
      {
        var k :| k in rest;
        all, keys := all + [data[k]], keys + [k];
        rest := rest - {k};
      }
      forall d | d in data.Values ensures d in all {
        var k :| k in data && data[k] == d;
        var i :| 0 <= i < |keys| && keys[i] == k;
        assert all[i] == d;
      }
    }
  }
}
