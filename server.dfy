/**
 * The playlist request handlers of the Express server, over a playlist table:
 * POST /store, POST /getLink, POST /mixtape-player/, POST /new-view,
 * GET /public and GET /userPlaylists.
 */
module Server {
  import opened Wrappers
  import LinkCodec
  import opened Playlists

  /** The body of a POST /store request. */
  datatype StoreRequest = StoreRequest(
    userId: string,
    aSideLinks: Option<seq<string>>,  // None: the client sent no A-side
    bSideLinks: Option<seq<string>>,  // None: the client sent no B-side
    tapeDeck: string,
    tapeLabel: string,
    isPublic: bool)

  /** JSON.stringify of a side that may be missing: undefined stays undefined, so the field is left out. */
  function EncodeSide(side: Option<seq<string>>): (text: Option<string>)
    ensures text.Some? <==> side.Some?
    ensures side.Some? ==> LinkCodec.Decode(text.value) == Some(side.value)
  {
    match side
    case None => None
    case Some(links) => LinkCodec.RoundTrip(links); Some(LinkCodec.Encode(links))
  }

  /**
   * The record /store builds: the metadata is copied unchanged and only the
   * two link lists are turned into text, which reads back as the same lists.
   */
  function StoreDetails(req: StoreRequest): (d: Details)
    ensures d.userId == req.userId && d.tapeDeck == req.tapeDeck
    ensures d.tapeLabel == req.tapeLabel && d.isPublic == req.isPublic
    ensures d.aSideLinks.Some? <==> req.aSideLinks.Some?
    ensures req.aSideLinks.Some? ==> LinkCodec.Decode(d.aSideLinks.value) == Some(req.aSideLinks.value)
    ensures d.bSideLinks.Some? <==> req.bSideLinks.Some?
    ensures req.bSideLinks.Some? ==> LinkCodec.Decode(d.bSideLinks.value) == Some(req.bSideLinks.value)
  {
    Details(req.userId, EncodeSide(req.aSideLinks), EncodeSide(req.bSideLinks),
            req.tapeDeck, req.tapeLabel, req.isPublic)
  }

  /** JavaScript truthiness of a stored text field: present and not the empty string. */
  predicate Truthy(field: Option<string>)
  {
    field.Some? && field.value != ""
  }

  /** A side that /store wrote is truthy exactly when the request had it: link text is never empty. */
  lemma StoredSideTruthy(side: Option<seq<string>>)
    ensures Truthy(EncodeSide(side)) <==> side.Some?
  {
  }

  /** What POST /mixtape-player/ sends back. */
  datatype PlayerReply =
    | NoResultsFound                        // 'No Results Found'
    | WithBSide(aSide: seq<string>, bSide: seq<string>, tapeDeck: string,
                tapeLabel: string, userId: string, views: nat)
    | WithoutBSide(aSide: seq<string>, tapeDeck: string, tapeLabel: string, userId: string)
    | ParseError                            // JSON.parse throws inside the callback (an uncaught exception)

  /** A record whose link text JSON.parse accepts: the A-side is present and reads, and so does a truthy B-side. */
  predicate Readable(p: Playlist)
  {
    p.details.aSideLinks.Some? && LinkCodec.Decode(p.details.aSideLinks.value).Some? &&
    (Truthy(p.details.bSideLinks) ==> LinkCodec.Decode(p.details.bSideLinks.value).Some?)
  }

  ghost predicate AllReadable(m: map<Id, Playlist>)
  {
    forall k :: k in m ==> Readable(m[k])
  }

  /** The response /mixtape-player/ shapes from the record it looked up. */
  function PlayerResponse(found: Option<Playlist>): (reply: PlayerReply)
    ensures reply.NoResultsFound? <==> found.None?
    ensures reply.ParseError? <==> found.Some? && !Readable(found.value)
    ensures reply.WithBSide? <==> found.Some? && Readable(found.value) && Truthy(found.value.details.bSideLinks)
    ensures reply.WithBSide? || reply.WithoutBSide? ==>
      var d := found.value.details;
      LinkCodec.Decode(d.aSideLinks.value) == Some(reply.aSide) &&
      reply.tapeDeck == d.tapeDeck && reply.tapeLabel == d.tapeLabel && reply.userId == d.userId
    ensures reply.WithBSide? ==>
      LinkCodec.Decode(found.value.details.bSideLinks.value) == Some(reply.bSide) &&
      reply.views == found.value.views
  {
    match found
    case None => NoResultsFound
    case Some(p) =>
      var d := p.details;
      if d.aSideLinks.None? then ParseError
      else
      match LinkCodec.Decode(d.aSideLinks.value)
      case None => ParseError
      case Some(aSide) =>
        if Truthy(d.bSideLinks) then
          match LinkCodec.Decode(d.bSideLinks.value)
          case None => ParseError
          case Some(bSide) => WithBSide(aSide, bSide, d.tapeDeck, d.tapeLabel, d.userId, p.views)
        else WithoutBSide(aSide, d.tapeDeck, d.tapeLabel, d.userId)
  }

  /**
   * A record stored by /store and then loaded by /mixtape-player/ gives back the
   * submitted A-side; the B-side and the view count come back exactly when a
   * B-side was submitted. Without an A-side, loading it throws.
   */
  lemma StoredTapeLoads(req: StoreRequest, id: Id, views: nat)
    ensures var reply := PlayerResponse(Some(Playlist(id, StoreDetails(req), views)));
      && (reply.ParseError? <==> req.aSideLinks.None?)
      && (req.aSideLinks.Some? ==>
        && (reply.WithBSide? || reply.WithoutBSide?)
        && reply.aSide == req.aSideLinks.value
        && reply.tapeDeck == req.tapeDeck && reply.tapeLabel == req.tapeLabel && reply.userId == req.userId
        && (reply.WithBSide? <==> req.bSideLinks.Some?)
        && (reply.WithBSide? ==> reply.bSide == req.bSideLinks.value && reply.views == views))
  {
  }

  /** POST /store: inserts the built record and answers 'Playlist Stored'. */
  method HandleStore(t: Table, req: StoreRequest) returns (reply: string, id: Id)
    requires t.Valid()
    modifies t
    ensures t.Valid()
    ensures id !in old(t.records)
    ensures t.records == old(t.records)[id := Playlist(id, StoreDetails(req), 0)]
    ensures reply == "Playlist Stored"
    ensures Readable(t.records[id]) <==> req.aSideLinks.Some?
    ensures AllReadable(old(t.records)) && req.aSideLinks.Some? ==> AllReadable(t.records)
  {
    id := t.Store(StoreDetails(req));
    reply := "Playlist Stored";
    StoredTapeLoads(req, id, 0);
  }

  /** What POST /getLink sends back. */
  datatype LinkReply = LinkNotFound  // 'No Results Found'
                     | Link(id: Id)  // { id: response._id }

  /** POST /getLink: the id of a record whose A-side text is the key. */
  method HandleGetLink(t: Table, key: string) returns (reply: LinkReply)
    requires t.Valid()
    ensures reply.Link? ==> reply.id in t.records && t.records[reply.id].details.aSideLinks == Some(key)
    ensures reply.LinkNotFound? <==> forall k :: k in t.records ==> t.records[k].details.aSideLinks != Some(key)
  {
    var found := t.RetrieveByASideKey(key);
    match found
    case None => reply := LinkNotFound;
    case Some(p) => reply := Link(p.id);
  }

  /**
   * POST /mixtape-player/: raises the record's views by one, then looks it up
   * and shapes the response (the two database calls taken in the order issued).
   */
  method HandleMixtapePlayer(t: Table, id: Id) returns (reply: PlayerReply)
    requires t.Valid()
    modifies t
    ensures t.Valid() && t.nextId == old(t.nextId)
    ensures t.records == Bump(old(t.records), id)
    ensures reply == PlayerResponse(Lookup(t.records, id))
    ensures AllReadable(old(t.records)) ==> AllReadable(t.records) && !reply.ParseError?
  {
    var _ := t.IncrementViews(id);
    var found := t.RetrieveById(id);
    reply := PlayerResponse(found);
  }

  /** POST /new-view: the count after the increment; None where the handler sends nothing. */
  method HandleNewView(t: Table, id: Id) returns (reply: Option<nat>)
    requires t.Valid()
    modifies t
    ensures t.Valid() && t.nextId == old(t.nextId)
    ensures t.records == Bump(old(t.records), id)
    ensures reply.Some? <==> id in old(t.records)
    ensures reply.Some? ==> reply.value == old(t.records)[id].views + 1
  {
    var updated := t.IncrementViews(id);
    match updated
    case None => reply := None;
    case Some(p) => reply := Some(p.views);
  }

  /** What GET /public sends back. */
  datatype PublicReply = NoPublicTapes                       // status 300, 'No public tapes found'
                       | PublicTapes(response: seq<Playlist>)  // status 200, { response }

  /** The intended answer of /public to the list the database gave. */
  function PublicResponse(found: seq<Playlist>): (reply: PublicReply)
    ensures reply.NoPublicTapes? <==> found == []
    ensures reply.PublicTapes? ==> reply.response == found
  {
    if |found| == 0 then NoPublicTapes else PublicTapes(found)
  }

  /** GET /public: every public record once, and no private one; an empty result is its own answer. */
  method HandlePublic(t: Table) returns (reply: PublicReply)
    requires t.Valid()
    ensures reply.NoPublicTapes? <==> forall k :: k in t.records ==> !t.records[k].details.isPublic
    ensures reply.PublicTapes? ==>
      forall i :: 0 <= i < |reply.response| ==>
        reply.response[i].details.isPublic && reply.response[i].id in t.records &&
        t.records[reply.response[i].id] == reply.response[i]
    ensures reply.PublicTapes? ==>
      forall k :: k in t.records && t.records[k].details.isPublic ==> t.records[k] in reply.response
    ensures reply.PublicTapes? ==>
      forall i, j :: 0 <= i < j < |reply.response| ==> reply.response[i].id != reply.response[j].id
  {
    var found := t.ListPublic();
    if found != [] {
      assert found[0].details.isPublic && found[0].id in t.records;
    }
    reply := PublicResponse(found);
  }

  /** The logged-in user the session exposes. */
  datatype SessionUser = SessionUser(id: string, displayName: string)

  datatype UserPlaylistsReply = UserPlaylistsReply(response: seq<Playlist>, displayName: string)

  /** GET /userPlaylists: the user's records and name; without a user nothing is sent (None). */
  method HandleUserPlaylists(t: Table, user: Option<SessionUser>) returns (reply: Option<UserPlaylistsReply>)
    requires t.Valid()
    ensures reply.Some? <==> user.Some?
    ensures reply.Some? ==> reply.value.displayName == user.value.displayName
    ensures reply.Some? ==>
      forall i :: 0 <= i < |reply.value.response| ==>
        reply.value.response[i].details.userId == user.value.id &&
        reply.value.response[i].id in t.records &&
        t.records[reply.value.response[i].id] == reply.value.response[i]
    ensures reply.Some? ==>
      forall k :: k in t.records && t.records[k].details.userId == user.value.id ==>
        t.records[k] in reply.value.response
    ensures reply.Some? ==>
      forall i, j :: 0 <= i < j < |reply.value.response| ==>
        reply.value.response[i].id != reply.value.response[j].id
  {
    match user
    case None => reply := None;
    case Some(u) =>
      var found := t.ListForUser(u.id);
      reply := Some(UserPlaylistsReply(found, u.displayName));
  }

  /**
   * A client that stores a tape and then opens the new record in the player (by
   * the id the database gave it; the /store reply does not carry that id) gets
   * its own links back, or the player throws when the tape had no A-side.
   */
  method StoreThenLoad(t: Table, req: StoreRequest) returns (reply: PlayerReply)
    requires t.Valid()
    modifies t
    ensures t.Valid()
    ensures reply.ParseError? <==> req.aSideLinks.None?
    ensures req.aSideLinks.Some? ==> (reply.WithBSide? || reply.WithoutBSide?) && reply.aSide == req.aSideLinks.value
    ensures reply.WithBSide? <==> req.aSideLinks.Some? && req.bSideLinks.Some?
    ensures reply.WithBSide? ==> reply.bSide == req.bSideLinks.value && reply.views == 1
  {
    var _, id := HandleStore(t, req);
    reply := HandleMixtapePlayer(t, id);
    StoredTapeLoads(req, id, 1);
  }

  /**
   * A client that stores a tape with an A-side can find a sharable id from its
   * A-side text; the record found may be an earlier one with the same A-side.
   */
  method StoreThenGetLink(t: Table, req: StoreRequest) returns (reply: LinkReply)
    requires t.Valid() && req.aSideLinks.Some?
    modifies t
    ensures t.Valid()
    ensures reply.Link?
    ensures reply.id in t.records
    ensures t.records[reply.id].details.aSideLinks.Some?
    ensures LinkCodec.Decode(t.records[reply.id].details.aSideLinks.value) == Some(req.aSideLinks.value)
  {
    var _, id := HandleStore(t, req);
    var key := LinkCodec.Encode(req.aSideLinks.value);
    assert t.records[id].details.aSideLinks == Some(key);
    reply := HandleGetLink(t, key);
    LinkCodec.RoundTrip(req.aSideLinks.value);
  }
}
