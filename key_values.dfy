/** The `(Text, Text)` records that the map and reduce steps hand to Hadoop. */
module KeyValues {

  datatype KeyValue = KeyValue(key: string, value: string)
}
