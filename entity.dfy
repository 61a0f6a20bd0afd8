/** The persisted entity `MachineEvent` (entity/MachineEvent.java). */
module Entity {

  /** Java's `int`: the range of `durationMs` and `defectCount`. */
  type Int32 = x: int | -0x8000_0000 <= x < 0x8000_0000

  /**
   * One machine event. Instants are whole milliseconds since the epoch.
   * `lineId` and `factoryId` are derived from `machineId` and `receivedTime`
   * is assigned by the server; whatever the client sends there is overwritten.
   */
  datatype Event = Event(
    eventId: string,
    machineId: string,
    lineId: string,
    factoryId: string,
    eventTime: int,
    receivedTime: int,
    durationMs: Int32,
    defectCount: Int32)

  /** The table's primary key is `eventId`: every stored record sits under its own id. */
  predicate Keyed(store: map<string, Event>) {
    forall id :: id in store ==> store[id].eventId == id
  }
}
