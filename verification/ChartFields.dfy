/** What the charts see in a field of a data row: a number, or something else. */
module ChartFields {
  datatype Cell = Num(v: real) | Other(text: string)
}
