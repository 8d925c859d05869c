/** A value that may be absent: a JavaScript `undefined` field, a lookup that found nothing. */
module Options {

  datatype Option<+T> = None | Some(value: T)

}
