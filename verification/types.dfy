/** The records of src/types/index.ts. */
module Types {

  /** One dated entry of a timeline; `date` is free text. */
  datatype TimelineEvent = TimelineEvent(date: string, event: string)

  /** A topic's timeline as the page keeps it. */
  datatype Timeline = Timeline(id: string, title: string, events: seq<TimelineEvent>)
}
