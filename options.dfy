/** The optional value returned where `getNextOutDoorStartingFrom` and `chooseDoor` return a side or `null`. */
module Options {

  datatype Option<+T> = None | Some(value: T)

}
