/**
 * The playlist collection of the database, seen through the calls the server
 * makes on it: insert a record, find one by id or by its A-side text, raise a
 * record's view count by one, and list the records a filter selects.
 */
module Playlists {
  import opened Wrappers

  /** The database's `_id` of a record. */
  type Id = nat

  /** The fields /store hands to the database; both sides are already link text. */
  datatype Details = Details(
    userId: string,
    aSideLinks: Option<string>,  // None: the request had no A-side, so the field is absent
    bSideLinks: Option<string>,  // None: the request had no B-side, so the field is absent
    tapeDeck: string,            // the client's styling blob, kept as opaque text
    tapeLabel: string,
    isPublic: bool)

  /** A stored record: its id, the details it was stored with, and its view counter. */
  datatype Playlist = Playlist(id: Id, details: Details, views: nat)

  /** The record under id, if there is one. */
  function Lookup(m: map<Id, Playlist>, id: Id): (r: Option<Playlist>)
    ensures r.Some? <==> id in m
    ensures r.Some? ==> r.value == m[id]
  {
    if id in m then Some(m[id]) else None
  }

  /** `$inc: { views: 1 }` on the record under id; a missing id changes nothing. */
  function Bump(m: map<Id, Playlist>, id: Id): (m': map<Id, Playlist>)
    ensures m'.Keys == m.Keys
    ensures forall k :: k in m && k != id ==> m'[k] == m[k]
    ensures id in m ==> m'[id].id == m[id].id && m'[id].details == m[id].details
    ensures id in m ==> m'[id].views == m[id].views + 1
  {
    if id in m then m[id := m[id].(views := m[id].views + 1)] else m
  }

  /** n increments, one after the other. */
  function BumpTimes(m: map<Id, Playlist>, id: Id, n: nat): map<Id, Playlist>
    decreases n
  {
    if n == 0 then m else Bump(BumpTimes(m, id, n - 1), id)
  }

  /** n increments raise the record's count by exactly n and touch nothing else: no update is lost. */
  lemma {:induction false} BumpTimesAddsN(m: map<Id, Playlist>, id: Id, n: nat)
    requires id in m
    ensures BumpTimes(m, id, n).Keys == m.Keys
    ensures BumpTimes(m, id, n)[id] == m[id].(views := m[id].views + n)
    ensures forall k :: k in m && k != id ==> BumpTimes(m, id, n)[k] == m[k]
    decreases n
  {
    if n > 0 {
      BumpTimesAddsN(m, id, n - 1);
    }
  }

  class Table {
    var records: map<Id, Playlist>
    var nextId: Id  // stands for the database's choice of a fresh `_id`

    /** Every record is filed under its own id, and every id in use is below nextId. */
    ghost predicate Valid()
      reads this
    {
      forall k :: k in records ==> records[k].id == k && k < nextId
    }

    constructor ()
      ensures Valid() && records == map[]
    {
      records := map[];
      nextId := 0;
    }

    /** `db.storePlaylist`: inserts one record with a fresh id and no views yet. */
    method Store(d: Details) returns (id: Id)
      requires Valid()
      modifies this
      ensures Valid()
      ensures id !in old(records)
      ensures records == old(records)[id := Playlist(id, d, 0)]
    {
      id := nextId;
      records := records[id := Playlist(id, d, 0)];
      nextId := nextId + 1;
    }

    /** `db.retrievePlaylist({ _id: id })`. */
    method RetrieveById(id: Id) returns (r: Option<Playlist>)
      ensures r.Some? <==> id in records
      ensures r.Some? ==> r.value == records[id]
    {
      r := Lookup(records, id);
    }

    /** `db.retrievePlaylist({ aSideLinks: key })`: a record whose A-side text is key, if any. */
    method RetrieveByASideKey(key: string) returns (r: Option<Playlist>)
      requires Valid()
      ensures r.Some? ==> r.value.id in records && records[r.value.id] == r.value
      ensures r.Some? ==> r.value.details.aSideLinks == Some(key)
      ensures r.None? <==> forall k :: k in records ==> records[k].details.aSideLinks != Some(key)
    {
      var unseen := records.Keys;
      while unseen != {}
        invariant unseen <= records.Keys
        invariant forall k :: k in records && k !in unseen ==> records[k].details.aSideLinks != Some(key)
        decreases unseen
      {
        var k :| k in unseen;
        if records[k].details.aSideLinks == Some(key) {
          return Some(records[k]);
        }
        unseen := unseen - {k};
      }
      r := None;
    }

    /** `db.updatePlaylist({ _id: id }, { $inc: { views: 1 } })`, answering with the updated record. */
    method IncrementViews(id: Id) returns (r: Option<Playlist>)
      requires Valid()
      modifies this
      ensures Valid() && nextId == old(nextId)
      ensures records == Bump(old(records), id)
      ensures r == Lookup(records, id)
    {
      records := Bump(records, id);
      r := Lookup(records, id);
    }

    /** The records keep selects, each once, in no particular order. */
    method Select(keep: Playlist -> bool) returns (ps: seq<Playlist>)
      requires Valid()
      ensures forall i :: 0 <= i < |ps| ==> ps[i].id in records && records[ps[i].id] == ps[i]
      ensures forall i :: 0 <= i < |ps| ==> keep(ps[i])
      ensures forall k :: k in records && keep(records[k]) ==> records[k] in ps
      ensures forall i, j :: 0 <= i < j < |ps| ==> ps[i].id != ps[j].id
    {
      ps := [];
      var unseen := records.Keys;
      while unseen != {}
        invariant unseen <= records.Keys
        invariant forall i :: 0 <= i < |ps| ==> ps[i].id in records && records[ps[i].id] == ps[i]
        invariant forall i :: 0 <= i < |ps| ==> keep(ps[i]) && ps[i].id !in unseen
        invariant forall k :: k in records && k !in unseen && keep(records[k]) ==> records[k] in ps
        invariant forall i, j :: 0 <= i < j < |ps| ==> ps[i].id != ps[j].id
        decreases unseen
      {
        var k :| k in unseen;
        if keep(records[k]) {
          ps := ps + [records[k]];
        }
        unseen := unseen - {k};
      }
    }

    /** `db.getAllPlaylists({ isPublic: true })`. */
    method ListPublic() returns (ps: seq<Playlist>)
      requires Valid()
      ensures forall i :: 0 <= i < |ps| ==> ps[i].id in records && records[ps[i].id] == ps[i]
      ensures forall i :: 0 <= i < |ps| ==> ps[i].details.isPublic
      ensures forall k :: k in records && records[k].details.isPublic ==> records[k] in ps
      ensures forall i, j :: 0 <= i < j < |ps| ==> ps[i].id != ps[j].id
    {
      ps := Select((p: Playlist) => p.details.isPublic);
    }

    /** `db.getAllPlaylists({ userId })`. */
    method ListForUser(userId: string) returns (ps: seq<Playlist>)
      requires Valid()
      ensures forall i :: 0 <= i < |ps| ==> ps[i].id in records && records[ps[i].id] == ps[i]
      ensures forall i :: 0 <= i < |ps| ==> ps[i].details.userId == userId
      ensures forall k :: k in records && records[k].details.userId == userId ==> records[k] in ps
      ensures forall i, j :: 0 <= i < j < |ps| ==> ps[i].id != ps[j].id
    {
      ps := Select((p: Playlist) => p.details.userId == userId);
    }
  }
}
