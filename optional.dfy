/** The Python `None`-or-value convention used throughout the scrapers. */
module Optional {

  datatype Option<+T> = None | Some(value: T)
}
