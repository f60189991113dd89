/** The records the schedule store keeps (src/types.ts). */
module Types {

  /** The five event kinds an event card may have. */
  datatype EventType = Lab | Course | Exam | Break | Other

  /** One event card; `key` is its identity across the whole store. `title`
      is the source's `label` (a reserved word in Dafny). */
  datatype Event = Event(key: string, title: string, room: string, kind: EventType)

  /** What a caller supplies to create or update an event: an event without
      its key. */
  datatype EventData = EventData(title: string, room: string, kind: EventType)

  /** A column header of the grid. */
  datatype Header = Header(title: string, key: string)

  /** hour label -> day label -> the ordered events of that time slot. */
  type Schedule = map<string, map<string, seq<Event>>>

  /** The event a record of data becomes under a given key. */
  function WithKey(data: EventData, key: string): Event {
    Event(key, data.title, data.room, data.kind)
  }
}
