/**
 * An in-memory output stream: the `BytesIO` sink the normalizer writes into
 * and the `StringIO` buffers the query builder fills. Writes append.
 */
module Buffers {

  class Buffer {
    var contents: string

    constructor ()
      ensures contents == []
    {
      contents := [];
    }

    method Write(s: string)
      modifies this
      ensures contents == old(contents) + s
    {
      contents := contents + s;
    }
  }
}
