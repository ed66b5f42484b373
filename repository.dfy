/** The generic repository the services are built on, as an id-to-record map. */
module Repositories {
  import opened Wrappers

  class Repository<T> {
    /** The stored records, by primary key. */
    var records: map<int, T>
    /** Every record passed to `Update`, in call order. */
    var updateLog: seq<T>

    constructor (initial: map<int, T>)
      ensures records == initial && updateLog == []
    {
      records := initial;
      updateLog := [];
    }

    /** `GetAsyncById`: the record stored under `id`, or null. */
    function GetAsyncById(id: int): Option<T>
      reads this
    {
      if id in records then Some(records[id]) else None
    }

    /** `Update`: stores `item` under `id` and returns it. */
    method Update(id: int, item: T) returns (updated: T)
      modifies this
      ensures records == old(records)[id := item]
      ensures updateLog == old(updateLog) + [item]
      ensures updated == item
    {
      records := records[id := item];
      updateLog := updateLog + [item];
      updated := item;
    }
  }
}
