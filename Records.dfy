/** The parking-fee record as App.js reads it back from the store and keeps it in memory. */
module Records {
  import opened Wrappers

  /** A calendar date as entered (`"YYYY-MM-DD"`), with the instant `new Date(text)` stands for. */
  datatype CalendarDate = CalendarDate(text: string, millis: int)

  /** The `createdAt` field of a record. */
  datatype CreatedAt =
    | Absent                       // the record carries no createdAt
    | StoreTimestamp(millis: int)  // a timestamp of the store; `createdAt.toDate()` gives this instant
    | LocalDate(millis: int)       // a plain JavaScript Date, as put on the in-session copy after a save

  /**
   * One reimbursement entry. `id` is assigned by the store ("" before it is stored);
   * `calculatedFee` is None where the stored record lacks the field.
   */
  datatype ParkingRecord = ParkingRecord(
    id: string,
    parkingLocation: string,
    parkingDate: CalendarDate,
    name: string,
    position: string,
    accountInfo: string,
    parkingDurationHours: int,
    isCustomDuration: bool,
    customDurationDetail: string,
    hourlyRate: int,
    calculatedFee: Option<int>,
    createdAt: CreatedAt)

  /**
   * The property names every plain object `{}` inherits from `Object.prototype`. Looking one of
   * them up as a key of an empty object finds the inherited member, which is truthy.
   */
  const ObjectPrototypeKeys: set<string> := {
    "constructor", "hasOwnProperty", "isPrototypeOf", "propertyIsEnumerable", "toLocaleString",
    "toString", "valueOf", "__proto__", "__defineGetter__", "__defineSetter__",
    "__lookupGetter__", "__lookupSetter__"
  }

  predicate InheritedKey(k: string) {
    k in ObjectPrototypeKeys
  }

  /** `record.calculatedFee || 0`: a missing fee counts as 0. */
  function Fee(r: ParkingRecord): int {
    match r.calculatedFee
    case Some(f) => f
    case None => 0
  }
}
