/**
 * One record of the gallery manifest `gallery.json`, as the slideshow reads it and as the
 * generator writes it. A key that is absent, or whose value is the empty string, is falsy in
 * JavaScript; both readings are kept apart here so that the model can say which it means.
 */
module Manifest {
  import opened Wrappers

  datatype Entry = Entry(url: Option<string>, caption: Option<string>)

  /** JavaScript truthiness of an optional string: present and not empty. */
  predicate Truthy(v: Option<string>) {
    v.Some? && v.value != ""
  }

  /** The JavaScript expression `v || fallback` for an optional string. */
  function OrElse(v: Option<string>, fallback: string): (r: string)
    ensures Truthy(v) ==> Some(r) == v
    ensures !Truthy(v) ==> r == fallback
  {
    if Truthy(v) then v.value else fallback
  }
}
