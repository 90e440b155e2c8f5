/** Interview appointments (`Termine`): booking a slot with
    `POST /api/termine` and moving one with `PATCH /api/termine/:id`.

    The appointment table is a map from row id to row. Two collaborators
    are parameters: JavaScript's `Number` on the id in the path, which
    yields `None` when the result is not finite, and the `Date` parse of
    `datum + "T" + uhrzeit + ":00"`, which says whether the time is valid. */
module Appointments {
  import opened Wrappers
  import opened Text
  import opened Email
  import opened TimeSlot
  import opened AuthResolver

  /** One booked appointment and the account that booked it. */
  datatype Termin = Termin(ownerId: int, name: string, email: string, datum: string, uhrzeit: string)

  type TerminStore = map<int, Termin>

  datatype BookingBody = BookingBody(name: string, email: string, datum: string, uhrzeit: string)

  datatype BookingError =
    | NotLoggedIn
    | InvalidTerminId
    | MissingFields
    | InvalidEmail
    | InvalidDate
    | InvalidTime
    | SlotTaken
    | UnparsableDateTime
    | TerminNotFound

  /** The HTTP status each rejection is answered with. */
  function HttpStatus(e: BookingError): int {
    match e
    case NotLoggedIn => 401
    case SlotTaken => 409
    case TerminNotFound => 404
    case _ => 400
  }

  /** The regular expression `^\d{4}-\d{2}-\d{2}$`. */
  predicate IsDatePattern(s: string) {
    && |s| == 10
    && IsAsciiDigit(s[0]) && IsAsciiDigit(s[1]) && IsAsciiDigit(s[2]) && IsAsciiDigit(s[3])
    && s[4] == '-'
    && IsAsciiDigit(s[5]) && IsAsciiDigit(s[6])
    && s[7] == '-'
    && IsAsciiDigit(s[8]) && IsAsciiDigit(s[9])
  }

  /** `isTerminSlotOccupied({ datum, uhrzeit, excludeTerminId })`: some
      row other than the excluded one holds the slot. */
  predicate SlotOccupied(store: TerminStore, datum: string, uhrzeit: string,
                               exclude: Option<real>)
  {
    exists id :: id in store && store[id].datum == datum && store[id].uhrzeit == uhrzeit
      && (exclude.None? || id as real != exclude.value)
  }

  /** No slot is held by two rows. */
  predicate SlotsExclusive(store: TerminStore) {
    forall i, j ::
      (i in store && j in store && store[i].datum == store[j].datum
       && store[i].uhrzeit == store[j].uhrzeit) ==> i == j
  }

  /** The text `new Date` is asked to parse. */
  function DateTimeText(datum: string, uhrzeit: string): string {
    datum + "T" + uhrzeit + ":00"
  }

  /** The field checks both routes share, in their order: the slot fields
      must be present, the date must look like a date and the time must be
      a half-hour grid point. */
  function CheckSlot(datum: string, uhrzeit: string): Option<BookingError> {
    if datum == [] || uhrzeit == [] then Some(MissingFields)
    else if !IsDatePattern(datum) then Some(InvalidDate)
    else if !IsValidThirtyMinuteTimeSlot(uhrzeit) then Some(InvalidTime)
    else None
  }

  /** The field checks of a booking, on the trimmed fields, in the route's
      order: all four present, a well-formed address, then the slot. */
  function CheckBooking(name: string, email: string, datum: string, uhrzeit: string)
    : Option<BookingError>
  {
    if name == [] || email == [] || datum == [] || uhrzeit == [] then Some(MissingFields)
    else if !IsEmailAddress(email) then Some(InvalidEmail)
    else CheckSlot(datum, uhrzeit)
  }

  /** The decisions of `POST /api/termine` on the prepared fields: a
      login, the field checks, a free slot, a parseable time. */
  function DecideCreate(authUserId: Option<int>, name: string, email: string, datum: string,
                        uhrzeit: string, store: TerminStore, dateValid: string -> bool)
    : Result<Termin, BookingError>
  {
    if !IsTruthyId(authUserId) then Failure(NotLoggedIn)
    else if CheckBooking(name, email, datum, uhrzeit).Some? then
      Failure(CheckBooking(name, email, datum, uhrzeit).value)
    else if SlotOccupied(store, datum, uhrzeit, None) then Failure(SlotTaken)
    else if !dateValid(DateTimeText(datum, uhrzeit)) then Failure(UnparsableDateTime)
    else Success(Termin(authUserId.value, name, email, datum, uhrzeit))
  }

  /** `POST /api/termine` behind `requireAuth`. Name, address, date and time
      are trimmed and the address lower-cased; all four must be present,
      the address well-formed, the date and time valid, the slot free and
      the combined time parseable. The result is the row to insert; the
      route then sends the notification mail. */
  function CreateTermin(authUserId: Option<int>, body: BookingBody, store: TerminStore,
                        dateValid: string -> bool): Result<Termin, BookingError>
  {
    DecideCreate(authUserId, Trim(body.name), Lower(Trim(body.email)), Trim(body.datum),
                 Trim(body.uhrzeit), store, dateValid)
  }

  /** Slot fields that pass the checks: a `YYYY-MM-DD` date and a half-hour
      grid time. */
  lemma CheckSlotPasses(datum: string, uhrzeit: string)
    requires CheckSlot(datum, uhrzeit).None?
    ensures IsDatePattern(datum)
    ensures exists hour: nat, minute: nat {:trigger SlotText(hour, minute)} ::
      hour < 100 && minute < 100 && OnGrid(hour, minute) && uhrzeit == SlotText(hour, minute)
  {
    ValidSlotIsGridPoint(uhrzeit);
  }

  /** Booking fields that pass the checks: a name, an address the e-mail
      pattern matches, and a valid slot. */
  lemma CheckBookingPasses(name: string, email: string, datum: string, uhrzeit: string)
    requires CheckBooking(name, email, datum, uhrzeit).None?
    ensures name != [] && MatchesEmailPattern(email) && CheckSlot(datum, uhrzeit).None?
  {
    IsEmailAddressMatchesPattern(email);
  }

  /** The row an accepted booking inserts under a fresh id. */
  function ApplyCreate(store: TerminStore, freshId: int, row: Termin): TerminStore
    requires freshId !in store
  {
    store[freshId := row]
  }

  /** The order in which a booking is refused: login, missing fields,
      address, date, time, occupancy, and last the time parse; an
      occupied slot is reported only once every field check has passed. */
  lemma DecideCreateRejections(authUserId: Option<int>, name: string, email: string,
                               datum: string, uhrzeit: string, store: TerminStore,
                               dateValid: string -> bool)
    ensures var r := DecideCreate(authUserId, name, email, datum, uhrzeit, store, dateValid);
      var present := IsTruthyId(authUserId) && name != [] && email != [] && datum != [] && uhrzeit != [];
      var fieldsOk := present && IsEmailAddress(email) && IsDatePattern(datum)
        && IsValidThirtyMinuteTimeSlot(uhrzeit);
      && (r == Failure(NotLoggedIn) <==> !IsTruthyId(authUserId))
      && (r == Failure(MissingFields) <==>
            IsTruthyId(authUserId) && (name == [] || email == [] || datum == [] || uhrzeit == []))
      && (r == Failure(InvalidEmail) <==> present && !IsEmailAddress(email))
      && (r == Failure(InvalidDate) <==> present && IsEmailAddress(email) && !IsDatePattern(datum))
      && (r == Failure(InvalidTime) <==>
            present && IsEmailAddress(email) && IsDatePattern(datum)
            && !IsValidThirtyMinuteTimeSlot(uhrzeit))
      && (r == Failure(SlotTaken) <==> fieldsOk && SlotOccupied(store, datum, uhrzeit, None))
      && (r == Failure(UnparsableDateTime) <==>
            fieldsOk && !SlotOccupied(store, datum, uhrzeit, None)
            && !dateValid(DateTimeText(datum, uhrzeit)))
      && (r.Success? <==>
            fieldsOk && !SlotOccupied(store, datum, uhrzeit, None)
            && dateValid(DateTimeText(datum, uhrzeit)))
      && r != Failure(InvalidTerminId) && r != Failure(TerminNotFound)
  {
  }

  /** What an accepted decision guarantees about the row it inserts. */
  lemma DecideCreateAccepted(authUserId: Option<int>, name: string, email: string, datum: string,
                             uhrzeit: string, store: TerminStore, dateValid: string -> bool)
    requires DecideCreate(authUserId, name, email, datum, uhrzeit, store, dateValid).Success?
    ensures DecideCreate(authUserId, name, email, datum, uhrzeit, store, dateValid).value
      == Termin(authUserId.value, name, email, datum, uhrzeit)
    ensures IsTruthyId(authUserId) && name != [] && MatchesEmailPattern(email)
    ensures IsDatePattern(datum)
    ensures exists hour: nat, minute: nat {:trigger SlotText(hour, minute)} ::
      hour < 100 && minute < 100 && OnGrid(hour, minute) && uhrzeit == SlotText(hour, minute)
    ensures !SlotOccupied(store, datum, uhrzeit, None)
    ensures dateValid(DateTimeText(datum, uhrzeit))
  {
    CheckBookingPasses(name, email, datum, uhrzeit);
    CheckSlotPasses(datum, uhrzeit);
  }

  /** An accepted booking belongs to the user and holds the trimmed fields,
      the lower-cased address, a `YYYY-MM-DD` date and a half-hour grid
      time in a slot no row held and whose time parses. */
  lemma CreateTerminAccepted(authUserId: Option<int>, body: BookingBody, store: TerminStore,
                             dateValid: string -> bool)
    requires CreateTermin(authUserId, body, store, dateValid).Success?
    ensures var t := CreateTermin(authUserId, body, store, dateValid).value;
      && IsTruthyId(authUserId) && t.ownerId == authUserId.value
      && t.name == Trim(body.name) && t.name != []
      && t.email == Lower(Trim(body.email)) && MatchesEmailPattern(t.email)
      && t.datum == Trim(body.datum) && IsDatePattern(t.datum)
      && t.uhrzeit == Trim(body.uhrzeit)
      && (exists hour: nat, minute: nat {:trigger SlotText(hour, minute)} ::
            hour < 100 && minute < 100 && OnGrid(hour, minute) && t.uhrzeit == SlotText(hour, minute))
      && !SlotOccupied(store, t.datum, t.uhrzeit, None)
      && dateValid(DateTimeText(t.datum, t.uhrzeit))
  {
    var name, email := Trim(body.name), Lower(Trim(body.email));
    var datum, uhrzeit := Trim(body.datum), Trim(body.uhrzeit);
    DecideCreateAccepted(authUserId, name, email, datum, uhrzeit, store, dateValid);
  }

  /** A booking is answered with 409 exactly when the user is logged in,
      every field check passes and some row already holds the slot. */
  lemma CreateSlotTakenIff(authUserId: Option<int>, body: BookingBody, store: TerminStore,
                           dateValid: string -> bool)
    ensures var datum := Trim(body.datum);
      var uhrzeit := Trim(body.uhrzeit);
      CreateTermin(authUserId, body, store, dateValid) == Failure(SlotTaken) <==>
        && IsTruthyId(authUserId)
        && CheckBooking(Trim(body.name), Lower(Trim(body.email)), datum, uhrzeit).None?
        && SlotOccupied(store, datum, uhrzeit, None)
  {
    var name, email := Trim(body.name), Lower(Trim(body.email));
    var datum, uhrzeit := Trim(body.datum), Trim(body.uhrzeit);
    DecideSlotTakenIff(authUserId, name, email, datum, uhrzeit, store, dateValid);
  }

  /** `CreateSlotTakenIff` on the prepared fields. */
  lemma DecideSlotTakenIff(authUserId: Option<int>, name: string, email: string, datum: string,
                           uhrzeit: string, store: TerminStore, dateValid: string -> bool)
    ensures DecideCreate(authUserId, name, email, datum, uhrzeit, store, dateValid) == Failure(SlotTaken)
      <==> IsTruthyId(authUserId) && CheckBooking(name, email, datum, uhrzeit).None?
           && SlotOccupied(store, datum, uhrzeit, None)
  {
    var check := CheckBooking(name, email, datum, uhrzeit);
    if check.Some? {
      assert check.value != SlotTaken;
    }
  }

  /** Inserting an accepted booking keeps every slot held by at most one
      row. */
  lemma CreatePreservesExclusive(authUserId: Option<int>, body: BookingBody, store: TerminStore,
                                 dateValid: string -> bool, freshId: int)
    requires SlotsExclusive(store) && freshId !in store
    requires CreateTermin(authUserId, body, store, dateValid).Success?
    ensures SlotsExclusive(ApplyCreate(store, freshId, CreateTermin(authUserId, body, store, dateValid).value))
  {
    var t := CreateTermin(authUserId, body, store, dateValid).value;
    CreateTerminAccepted(authUserId, body, store, dateValid);
    InsertFreeSlotKeepsExclusive(store, freshId, t);
  }

  lemma InsertFreeSlotKeepsExclusive(store: TerminStore, freshId: int, t: Termin)
    requires SlotsExclusive(store) && freshId !in store
    requires !SlotOccupied(store, t.datum, t.uhrzeit, None)
    ensures SlotsExclusive(store[freshId := t])
  {
  }

  /** `PATCH /api/termine/:id` behind `requireAuth`. The id must be a
      positive finite number, date and time are trimmed and checked like a
      booking, the slot must be free of rows other than this one and the
      time parseable; `updateTerminByUser` finds the row only under an
      integral id and for its owner. The result is the row's id and its new
      contents. */
  function RescheduleTermin(authUserId: Option<int>, idParam: string,
                            datumRaw: string, uhrzeitRaw: string, store: TerminStore,
                            toNumber: string -> Option<real>, dateValid: string -> bool)
    : Result<(int, Termin), BookingError>
  {
    DecideReschedule(authUserId, toNumber(idParam), Trim(datumRaw), Trim(uhrzeitRaw), store, dateValid)
  }

  /** The decisions of `PATCH /api/termine/:id` on the number read from the
      path and the trimmed date and time. */
  function DecideReschedule(authUserId: Option<int>, terminId: Option<real>, datum: string,
                            uhrzeit: string, store: TerminStore, dateValid: string -> bool)
    : Result<(int, Termin), BookingError>
  {
    if !IsTruthyId(authUserId) then Failure(NotLoggedIn)
    else if terminId.None? || terminId.value <= 0.0 then Failure(InvalidTerminId)
    else if CheckSlot(datum, uhrzeit).Some? then Failure(CheckSlot(datum, uhrzeit).value)
    else if SlotOccupied(store, datum, uhrzeit, terminId) then Failure(SlotTaken)
    else if !dateValid(DateTimeText(datum, uhrzeit)) then Failure(UnparsableDateTime)
    else
      var key := terminId.value.Floor;
      if key as real != terminId.value || key !in store || store[key].ownerId != authUserId.value then
        Failure(TerminNotFound)
      else Success((key, store[key].(datum := datum, uhrzeit := uhrzeit)))
  }

  /** The order in which a move is refused: login, id, the slot checks
      (missing, date, time), occupancy by another row, the time parse,
      and last the row lookup, which finds only an integral id the user
      owns. */
  lemma DecideRescheduleRejections(authUserId: Option<int>, terminId: Option<real>, datum: string,
                                   uhrzeit: string, store: TerminStore, dateValid: string -> bool)
    ensures var r := DecideReschedule(authUserId, terminId, datum, uhrzeit, store, dateValid);
      var idOk := IsTruthyId(authUserId) && terminId.Some? && terminId.value > 0.0;
      var slotOk := idOk && datum != [] && uhrzeit != [] && IsDatePattern(datum)
        && IsValidThirtyMinuteTimeSlot(uhrzeit);
      var key := if terminId.Some? then terminId.value.Floor else 0;
      && (r == Failure(NotLoggedIn) <==> !IsTruthyId(authUserId))
      && (r == Failure(InvalidTerminId) <==>
            IsTruthyId(authUserId) && (terminId.None? || terminId.value <= 0.0))
      && (r == Failure(MissingFields) <==> idOk && (datum == [] || uhrzeit == []))
      && (r == Failure(InvalidDate) <==>
            idOk && datum != [] && uhrzeit != [] && !IsDatePattern(datum))
      && (r == Failure(InvalidTime) <==>
            idOk && datum != [] && uhrzeit != [] && IsDatePattern(datum)
            && !IsValidThirtyMinuteTimeSlot(uhrzeit))
      && (r == Failure(SlotTaken) <==> slotOk && SlotOccupied(store, datum, uhrzeit, terminId))
      && (r == Failure(UnparsableDateTime) <==>
            slotOk && !SlotOccupied(store, datum, uhrzeit, terminId)
            && !dateValid(DateTimeText(datum, uhrzeit)))
      && (r == Failure(TerminNotFound) <==>
            slotOk && !SlotOccupied(store, datum, uhrzeit, terminId)
            && dateValid(DateTimeText(datum, uhrzeit))
            && (key as real != terminId.value || key !in store
                || store[key].ownerId != authUserId.value))
  {
  }

  function ApplyUpdate(store: TerminStore, update: (int, Termin)): TerminStore {
    store[update.0 := update.1]
  }

  /** Only the owner moves a row, and only to a free, valid slot: the row
      keeps its id, owner, name and address. */
  lemma RescheduleAccepted(authUserId: Option<int>, idParam: string,
                           datumRaw: string, uhrzeitRaw: string, store: TerminStore,
                           toNumber: string -> Option<real>, dateValid: string -> bool)
    requires RescheduleTermin(authUserId, idParam, datumRaw, uhrzeitRaw, store, toNumber, dateValid).Success?
    ensures var (key, t) := RescheduleTermin(authUserId, idParam, datumRaw, uhrzeitRaw, store, toNumber, dateValid).value;
      && IsTruthyId(authUserId)
      && toNumber(idParam) == Some(key as real) && key > 0
      && key in store && store[key].ownerId == authUserId.value
      && t == store[key].(datum := Trim(datumRaw), uhrzeit := Trim(uhrzeitRaw))
      && IsDatePattern(t.datum) && IsValidThirtyMinuteTimeSlot(t.uhrzeit)
      && !SlotOccupied(store, t.datum, t.uhrzeit, Some(key as real))
  {
  }

  /** Moving a row to the slot it already holds is not a conflict. */
  lemma RescheduleToOwnSlotNotTaken(authUserId: Option<int>, idParam: string, key: int,
                                    datumRaw: string, uhrzeitRaw: string, store: TerminStore,
                                    toNumber: string -> Option<real>, dateValid: string -> bool)
    requires SlotsExclusive(store) && key in store
    requires toNumber(idParam) == Some(key as real)
    requires Trim(datumRaw) == store[key].datum && Trim(uhrzeitRaw) == store[key].uhrzeit
    ensures RescheduleTermin(authUserId, idParam, datumRaw, uhrzeitRaw, store, toNumber, dateValid)
      != Failure(SlotTaken)
  {
    OwnSlotFree(store, key);
  }

  /** In an exclusive store no row other than the holder holds its slot. */
  lemma OwnSlotFree(store: TerminStore, key: int)
    requires SlotsExclusive(store) && key in store
    ensures !SlotOccupied(store, store[key].datum, store[key].uhrzeit, Some(key as real))
  {
  }

  /** Moving onto a slot that another row holds is answered with 409 once
      the earlier checks pass. */
  lemma RescheduleOntoOtherRowTaken(authUserId: Option<int>, idParam: string, key: int,
                                    other: int, datumRaw: string, uhrzeitRaw: string,
                                    store: TerminStore,
                                    toNumber: string -> Option<real>, dateValid: string -> bool)
    requires IsTruthyId(authUserId)
    requires toNumber(idParam) == Some(key as real) && key > 0
    requires CheckSlot(Trim(datumRaw), Trim(uhrzeitRaw)).None?
    requires other in store && other != key
    requires store[other].datum == Trim(datumRaw) && store[other].uhrzeit == Trim(uhrzeitRaw)
    ensures RescheduleTermin(authUserId, idParam, datumRaw, uhrzeitRaw, store, toNumber, dateValid)
      == Failure(SlotTaken)
  {
    assert other as real != key as real;
  }

  /** Applying an accepted move keeps every slot held by at most one row,
      and leaves every other row as it was. */
  lemma ReschedulePreservesExclusive(authUserId: Option<int>, idParam: string,
                                     datumRaw: string, uhrzeitRaw: string, store: TerminStore,
                                     toNumber: string -> Option<real>, dateValid: string -> bool)
    requires SlotsExclusive(store)
    requires RescheduleTermin(authUserId, idParam, datumRaw, uhrzeitRaw, store, toNumber, dateValid).Success?
    ensures var update := RescheduleTermin(authUserId, idParam, datumRaw, uhrzeitRaw, store, toNumber, dateValid).value;
      var after := ApplyUpdate(store, update);
      && SlotsExclusive(after)
      && after.Keys == store.Keys
      && (forall k :: k in store && k != update.0 ==> after[k] == store[k])
  {
    var update := RescheduleTermin(authUserId, idParam, datumRaw, uhrzeitRaw, store, toNumber, dateValid).value;
    RescheduleAccepted(authUserId, idParam, datumRaw, uhrzeitRaw, store, toNumber, dateValid);
    MoveToFreeSlotKeepsExclusive(store, update.0, update.1);
  }

  lemma MoveToFreeSlotKeepsExclusive(store: TerminStore, key: int, t: Termin)
    requires SlotsExclusive(store) && key in store
    requires !SlotOccupied(store, t.datum, t.uhrzeit, Some(key as real))
    ensures SlotsExclusive(store[key := t])
  {
  }
}
