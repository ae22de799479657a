/** A value that may be absent: a DOM lookup that found nothing. */
module Optional {

  datatype Option<+T> = None | Some(value: T)
}
