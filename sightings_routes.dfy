/**
 * The handlers of the sightings router: the ordered guard chain of POST /,
 * the timezone default of GET / and the id parsing of GET /:id. The geofence
 * test and "today in a zone" are parameters; the store is the Database class.
 */
module SightingsRoutes {
  import opened Wrappers
  import opened Decimal
  import opened Json
  import opened JsDate
  import opened JsNumber
  import opened SightingStore

  /** The five fields POST / destructures from its JSON body. */
  datatype PostBody = PostBody(
    latitude: JsonValue, longitude: JsonValue, sightedAt: JsonValue, details: JsonValue, timezone: JsonValue)

  /** What the geofence rejection names: the area and its radius as JavaScript prints the number. */
  datatype GeofenceConfig = GeofenceConfig(geoname: string, radiusMiles: string)

  datatype Reply = ErrorReply(message: string) | SightingReply(sighting: Sighting) | ListReply(sightings: seq<Sighting>)

  datatype Response = Response(status: int, reply: Reply)

  const MissingFields := "Missing required fields"
  const InvalidCoordinates := "Invalid latitude or longitude"
  const InvalidText := "Invalid sighted_at or details"
  const InternalError := "Internal server error"
  const InvalidId := "Invalid id"
  const NotFound := "Sighting not found"

  function OutsideMessage(config: GeofenceConfig): string {
    "Location is outside the " + config.geoname + " area (" + config.radiusMiles + " mile radius)"
  }

  // ---------------------------------------------------------------------
  // POST /

  /** The outcome of the guards: a 400 message, or the input handed to createSighting. */
  datatype PostDecision = Reject(message: string) | Accept(input: SightingInput)

  /** Coordinates are there unless undefined (0 counts); the three texts must be truthy. */
  predicate Present(body: PostBody) {
    !body.latitude.Undefined? && !body.longitude.Undefined?
    && Truthy(body.sightedAt) && Truthy(body.details) && Truthy(body.timezone)
  }

  predicate NumericPoint(body: PostBody) {
    body.latitude.Num? && body.longitude.Num?
  }

  predicate TextFields(body: PostBody) {
    body.sightedAt.Str? && body.details.Str?
  }

  /** The guards of POST / in their order: missing fields, coordinate types, text types, geofence. */
  function CheckPost(body: PostBody, inside: (real, real) -> bool, config: GeofenceConfig): (d: PostDecision)
    ensures d.Accept? <==>
      Present(body) && NumericPoint(body) && TextFields(body) && inside(body.latitude.n, body.longitude.n)
    ensures d.Accept? ==>
      d.input == SightingInput(body.latitude.n, body.longitude.n, body.sightedAt.s, body.details.s, body.timezone)
    ensures !Present(body) ==> d == Reject(MissingFields)
    ensures Present(body) && !NumericPoint(body) ==> d == Reject(InvalidCoordinates)
    ensures Present(body) && NumericPoint(body) && !TextFields(body) ==> d == Reject(InvalidText)
    ensures Present(body) && NumericPoint(body) && TextFields(body) && !inside(body.latitude.n, body.longitude.n)
        ==> d == Reject(OutsideMessage(config))
  {
    if !Present(body) then Reject(MissingFields)
    else if !NumericPoint(body) then Reject(InvalidCoordinates)
    else if !TextFields(body) then Reject(InvalidText)
    else if !inside(body.latitude.n, body.longitude.n) then Reject(OutsideMessage(config))
    else Accept(SightingInput(body.latitude.n, body.longitude.n, body.sightedAt.s, body.details.s, body.timezone))
  }

  /** The four rejection messages differ, so a 400 tells which guard failed, whatever the configuration. */
  lemma RejectionNamesGuard(body: PostBody, inside: (real, real) -> bool, config: GeofenceConfig)
    ensures CheckPost(body, inside, config) == Reject(MissingFields) <==> !Present(body)
    ensures CheckPost(body, inside, config) == Reject(InvalidCoordinates) <==> Present(body) && !NumericPoint(body)
    ensures CheckPost(body, inside, config) == Reject(InvalidText)
        <==> Present(body) && NumericPoint(body) && !TextFields(body)
    ensures CheckPost(body, inside, config) == Reject(OutsideMessage(config))
        <==> Present(body) && NumericPoint(body) && TextFields(body) && !inside(body.latitude.n, body.longitude.n)
  {
    var outside := OutsideMessage(config);
    assert outside[0] == 'L';
    assert MissingFields[0] == 'M' && InvalidCoordinates[0] == 'I' && InvalidText[0] == 'I';
    assert InvalidCoordinates[8] == 'l' && InvalidText[8] == 's';
  }

  /** A zero coordinate is present: 0 is falsy, but the check is for undefined. */
  lemma ZeroCoordinatePresent(body: PostBody, inside: (real, real) -> bool, config: GeofenceConfig)
    requires body.latitude == Num(0.0) && body.longitude == Num(0.0)
    requires body.sightedAt.Str? && body.details.Str? && body.sightedAt.s != "" && body.details.s != ""
    requires Truthy(body.timezone)
    ensures CheckPost(body, inside, config) == if inside(0.0, 0.0) then
        Accept(SightingInput(0.0, 0.0, body.sightedAt.s, body.details.s, body.timezone))
      else Reject(OutsideMessage(config))
  {
  }

  /** The type of the timezone is never checked: any truthy value is passed on as it is. */
  lemma TimezoneUnchecked(body: PostBody, zone: JsonValue, inside: (real, real) -> bool, config: GeofenceConfig)
    requires Truthy(body.timezone) && Truthy(zone)
    ensures CheckPost(body.(timezone := zone), inside, config).Accept? <==> CheckPost(body, inside, config).Accept?
    ensures CheckPost(body.(timezone := zone), inside, config).Accept? ==>
      CheckPost(body.(timezone := zone), inside, config).input.timezone == zone
  {
  }

  /**
   * POST /: a rejected body is answered 400 and inserts nothing; an accepted one is inserted once and
   * answered 201 with the stored sighting; a failing insert is answered 500.
   */
  method HandlePost(db: Database, body: PostBody, inside: (real, real) -> bool, config: GeofenceConfig,
                    stamped: TimeValue, now: TimeValue)
    returns (res: Response)
    requires db.Valid()
    modifies db
    ensures db.Valid()
    ensures CheckPost(body, inside, config).Reject? ==>
      res == Response(400, ErrorReply(CheckPost(body, inside, config).message))
      && db.rows == old(db.rows) && db.lastId == old(db.lastId)
    ensures CheckPost(body, inside, config).Accept? && old(db.lastId) == MaxRowId ==>
      res == Response(500, ErrorReply(InternalError)) && db.rows == old(db.rows) && db.lastId == old(db.lastId)
    ensures CheckPost(body, inside, config).Accept? && old(db.lastId) < MaxRowId ==>
      var row := NewRow(CheckPost(body, inside, config).input, old(db.lastId) + 1, stamped);
      res == Response(201, SightingReply(AddAgeFields(row, now)))
      && db.rows == old(db.rows) + [row] && db.lastId == old(db.lastId) + 1
  {
    var decision := CheckPost(body, inside, config);
    if decision.Reject? {
      return Response(400, ErrorReply(decision.message));
    }
    var created := db.CreateSighting(decision.input, stamped, now);
    if created.Err? {
      return Response(500, ErrorReply(InternalError));
    }
    res := Response(201, SightingReply(created.value));
  }

  // ---------------------------------------------------------------------
  // GET /

  /** The zone of a listing: the timezone query, or America/Chicago when it is missing or empty. */
  function ListZone(query: Option<string>): (zone: string)
    ensures query.Some? && query.value != "" ==> zone == query.value
    ensures query.None? || query.value == "" ==> zone == ChicagoZone
  {
    if query.Some? && query.value != "" then query.value else ChicagoZone
  }

  /**
   * GET /: the sightings of the date query (passed on as given) in the zone, answered 200;
   * any error of the store is answered 500. todayIn is "today" as the clock reads it in a zone.
   */
  method HandleList(db: Database, date: Option<string>, timezone: Option<string>,
                    todayIn: string -> Today, now: TimeValue)
    returns (res: Response)
    requires db.Valid()
    ensures ListingWindow(date, ListZone(timezone), todayIn(ListZone(timezone))).Err?
        <==> res == Response(500, ErrorReply(InternalError))
    ensures ListingWindow(date, ListZone(timezone), todayIn(ListZone(timezone))).Ok? ==>
      res == Response(200, ListReply(MapAges(Matching(db.rows,
               ListingWindow(date, ListZone(timezone), todayIn(ListZone(timezone))).value), now)))
    ensures ListingWindow(date, ListZone(timezone), todayIn(ListZone(timezone))).Ok? ==>
      (forall i, j :: 0 <= i < j < |res.reply.sightings| ==>
         res.reply.sightings[i].row.id < res.reply.sightings[j].row.id)
      && forall s :: s in res.reply.sightings <==>
        exists row :: row in db.rows
                   && InWindow(row.sightedAt, ListingWindow(date, ListZone(timezone), todayIn(ListZone(timezone))).value)
                   && s == AddAgeFields(row, now)
  {
    var zone := ListZone(timezone);
    var listed := db.GetSightings(date, Some(zone), todayIn(zone), now);
    if listed.Err? {
      return Response(500, ErrorReply(InternalError));
    }
    res := Response(200, ListReply(listed.value));
  }

  // ---------------------------------------------------------------------
  // GET /:id

  /** GET /:id: 400 for an id parseInt cannot read, 404 for an id not stored, else 200 with the sighting. */
  method HandleGetById(db: Database, idParam: string, now: TimeValue) returns (res: Response)
    requires db.Valid()
    ensures ParseInt(idParam).None? ==> res == Response(400, ErrorReply(InvalidId))
    ensures ParseInt(idParam).Some? && FindById(db.rows, ParseInt(idParam).value).None? ==>
      res == Response(404, ErrorReply(NotFound))
    ensures ParseInt(idParam).Some? && FindById(db.rows, ParseInt(idParam).value).Some? ==>
      res == Response(200, SightingReply(AddAgeFields(FindById(db.rows, ParseInt(idParam).value).value, now)))
  {
    var id := ParseInt(idParam);
    if id.None? {
      return Response(400, ErrorReply(InvalidId));
    }
    var sighting := db.GetSightingById(id.value, now);
    if sighting.None? {
      return Response(404, ErrorReply(NotFound));
    }
    UniqueIds(db.rows, db.lastId, sighting.value.row);
    res := Response(200, SightingReply(sighting.value));
  }
}
