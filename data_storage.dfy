/** DataStorage.cs: the string-keyed store of dynamic world data that actions read. */
module DataStore {
  import opened Wrappers

  /** An opaque reference to a Unity object (a GameObject, or any other value the store holds). */
  datatype Obj = Obj(handle: nat)

  /** The value stored under `key`, or null when the key is absent. */
  function Lookup(data: map<string, Option<Obj>>, key: string): Option<Obj>
  {
    if key in data then data[key] else None
  }

  class DataStorage {
    /** `_data`: every value is an object reference, possibly null. */
    var data: map<string, Option<Obj>>

    constructor ()
      ensures data == map[]
    {
      data := map[];
    }

    /** Adds the key, or overwrites its value when it is already present (never an error). */
    method AddData(key: string, val: Option<Obj>)
      modifies this
      ensures data.Keys == old(data).Keys + {key}
      ensures data[key] == val
      ensures forall k | k in old(data) && k != key :: data[k] == old(data)[k]
    {
      if key !in data {
        data := data[key := val];   // Dictionary.Add
      } else {
        data := data[key := val];   // indexer assignment
      }
    }

    /** The stored value, or null for a missing key; the store is left as it is. */
    method GetData(key: string) returns (r: Option<Obj>)
      ensures key in data ==> r == data[key]
      ensures key !in data ==> r == None
      ensures r == Lookup(data, key)
    {
      if key in data {
        return data[key];
      }
      return None;
    }
  }
}
