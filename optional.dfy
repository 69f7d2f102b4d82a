/** The one wrapper type the model needs: Java's `null` / `Optional.empty()`. */
module Optional {
  datatype Option<T> = None | Some(value: T)
}
