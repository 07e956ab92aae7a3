/** Optional values: the model's stand-in for Java's nullable references and
    for `Optional<T>` as returned by a repository lookup. */
module Wrappers {

  datatype Option<+T> = None | Some(value: T)
}
