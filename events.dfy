/**
 * The per-day event store of the calendar: a map from a date key to the
 * list of that day's events in the order they were added. The store is never
 * updated in place; adding and removing build a new map.
 */
module Events {

  /** An event as the form creates it; `id` is the creation timestamp. */
  datatype Event = Event(id: int, title: string, time: string)

  type Store = map<string, seq<Event>>

  /** The time given when the form's time field is left empty. */
  const DefaultTime: string := "12:00"

  /** `time || '12:00'`: an empty time string is replaced by the default. */
  function EventTime(time: string): (t: string)
    ensures time == "" ==> t == DefaultTime
    ensures time != "" ==> t == time
    ensures t != ""
  {
    if time == "" then DefaultTime else time
  }

  /** `events[key] || []`: the list under a key, or the empty list for a missing key. */
  function EventsFor(events: Store, key: string): seq<Event>
  {
    if key in events then events[key] else []
  }

  predicate HasId(list: seq<Event>, id: int) {
    exists k :: 0 <= k < |list| && list[k].id == id
  }

  /** `list.filter(event => event.id !== id)`. */
  function WithoutId(list: seq<Event>, id: int): (r: seq<Event>)
    ensures |r| <= |list|
    ensures forall e :: e in r <==> e in list && e.id != id
  {
    if list == [] then []
    else if list[0].id == id then WithoutId(list[1..], id)
    else [list[0]] + WithoutId(list[1..], id)
  }

  /** `{ ...events, [key]: [...(events[key] || []), event] }`. */
  function Append(events: Store, key: string, event: Event): (r: Store)
    ensures r.Keys == events.Keys + {key}
    ensures EventsFor(r, key) == EventsFor(events, key) + [event]
    ensures forall k :: k != key ==> EventsFor(r, k) == EventsFor(events, k)
  {
    events[key := EventsFor(events, key) + [event]]
  }

  /** `{ ...events, [key]: events[key]?.filter(event => event.id !== id) || [] }`. */
  function Remove(events: Store, key: string, id: int): (r: Store)
    ensures r.Keys == events.Keys + {key}
    ensures forall e :: e in EventsFor(r, key) <==> e in EventsFor(events, key) && e.id != id
    ensures forall k :: k != key ==> EventsFor(r, k) == EventsFor(events, k)
  {
    events[key := WithoutId(EventsFor(events, key), id)]
  }

  // ---------------------------------------------------------------------------
  // Filtering keeps the order of what it keeps

  lemma {:induction false} WithoutIdConcat(a: seq<Event>, b: seq<Event>, id: int)
    ensures WithoutId(a + b, id) == WithoutId(a, id) + WithoutId(b, id)
  {
    if a != [] {
      assert (a + b)[1..] == a[1..] + b;
      WithoutIdConcat(a[1..], b, id);
    } else {
      assert a + b == b;
    }
  }

  lemma {:induction false} WithoutAbsentId(list: seq<Event>, id: int)
    requires !HasId(list, id)
    ensures WithoutId(list, id) == list
  {
    if list != [] {
      assert !HasId(list[1..], id) by {
        forall k | 0 <= k < |list[1..]| ensures list[1..][k].id != id {
          assert list[1..][k] == list[k + 1];
        }
      }
      WithoutAbsentId(list[1..], id);
    }
  }

  /** Filtering out an id keeps every other event exactly as often as before. */
  lemma {:induction false} WithoutIdCounts(list: seq<Event>, id: int, e: Event)
    ensures multiset(WithoutId(list, id))[e] == if e.id == id then 0 else multiset(list)[e]
  {
    if list != [] {
      assert list == [list[0]] + list[1..];
      WithoutIdCounts(list[1..], id, e);
    }
  }

  // ---------------------------------------------------------------------------
  // Store-level round trip

  /**
   * Adding an event whose id is not yet used under the key and then removing
   * that id gives back the day's original list.
   */
  lemma AppendThenRemove(events: Store, key: string, event: Event)
    requires !HasId(EventsFor(events, key), event.id)
    ensures EventsFor(Remove(Append(events, key, event), key, event.id), key) == EventsFor(events, key)
  {
    var before := EventsFor(events, key);
    WithoutIdConcat(before, [event], event.id);
    WithoutAbsentId(before, event.id);
    assert WithoutId([event], event.id) == [];
  }

  /** Removing from a day with no events leaves an empty list stored under the key. */
  lemma RemoveFromEmptyDay(events: Store, key: string, id: int)
    requires EventsFor(events, key) == []
    ensures key in Remove(events, key, id) && Remove(events, key, id)[key] == []
  {
  }

  /** Removing an id from a day that has two events and the first's id strips only the first. */
  lemma RemoveFirstOfTwo(events: Store, key: string, first: Event, second: Event)
    requires EventsFor(events, key) == [first, second]
    requires first.id != second.id
    ensures EventsFor(Remove(events, key, first.id), key) == [second]
  {
    assert [first, second][1..] == [second];
    assert [second][1..] == [];
  }
}
