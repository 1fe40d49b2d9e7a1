/**
 * The remote time-tracking service as the tracker sees it through the
 * `clockify` client module: a time entry body it builds, and the two
 * requests `send_time_entry` makes (create without an id, update with one).
 * The service itself is not part of this model; it is represented by the
 * ids it hands out and by a ghost log of the requests it received.
 */
module Clockify {

  /** A time entry as the client module builds it (description and project
    * from its own configuration). Its content is opaque to the tracker. */
  datatype TimeEntry = TimeEntry(details: string)

  /** One request received by the service. */
  datatype Call =
    | Create(id: nat)            // new entry; the service answered with `id`
    | Update(id: nat, end: int)  // entry `id` closed at timestamp `end`

  /** Every created id lies below `bound`, and later creates got larger ids. */
  ghost predicate IdsFresh(calls: seq<Call>, bound: nat)
  {
    && (forall i :: 0 <= i < |calls| && calls[i].Create? ==> calls[i].id < bound)
    && (forall i, j :: 0 <= i < j < |calls| && calls[i].Create? && calls[j].Create? ==>
          calls[i].id < calls[j].id)
  }

  class Server {
    /** What `get_new_time_entry` puts into every new entry. */
    const details: string
    /** Number of ids handed out so far; the next create answers with it. */
    var issued: nat
    /** Every request received, in order. */
    ghost var calls: seq<Call>

    ghost predicate Valid()
      reads this
    {
      IdsFresh(calls, issued)
    }

    constructor (details: string)
      ensures Valid()
      ensures this.details == details && issued == 0 && calls == []
    {
      this.details := details;
      issued := 0;
      calls := [];
    }

    /** `send_time_entry(entry)`: creates a remote entry and answers with
      * an id no earlier create answered with. */
    method SendTimeEntry(entry: TimeEntry) returns (id: nat)
      requires Valid()
      modifies this
      ensures Valid()
      ensures id == old(issued) && issued == old(issued) + 1
      ensures calls == old(calls) + [Create(id)]
      ensures forall i :: 0 <= i < |old(calls)| && old(calls)[i].Create? ==> old(calls)[i].id != id
    {
      id := issued;
      calls := calls + [Create(id)];
      issued := issued + 1;
    }

    /** `send_time_entry(entry, id)` with `end` set in the entry: closes
      * remote entry `id` at `end`. */
    method SendTimeEntryUpdate(entry: TimeEntry, id: nat, end: int)
      requires Valid()
      modifies this`calls
      ensures Valid()
      ensures calls == old(calls) + [Update(id, end)]
    {
      calls := calls + [Update(id, end)];
    }
  }
}
