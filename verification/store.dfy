/** What the hosted data store answers to an insert. */
module Store {

  /** `Inserted`: the row was written. `Rejected`: the client returned an error object
      carrying `message` ("" when the error had none). `Threw`: the client call threw. */
  datatype InsertReply = Inserted | Rejected(message: string) | Threw
}
