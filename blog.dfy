/** The shape of the `Blog` row that ingestion produces. */
module BlogRecord {
  import Numbers
  import Calendar

  datatype Blog = Blog(
    id: Numbers.I32,
    title: string,
    summary: string,
    body: string,
    date: Calendar.Date,
    tags: seq<string>)
}
