/**
  The calendar values the pipeline passes around, already parsed: a race
  date (`datetime.date`) and an hourly weather timestamp (`datetime`, of
  which only the date and the hour are consulted).
*/
module DateTime {
  datatype Date = Date(year: int, month: int, day: int)

  datatype Timestamp = Timestamp(date: Date, hour: int, minute: int)
}
