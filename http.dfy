/** The parts of `net/http` the buffer handler touches: the header map and a
    response writer that records what it is given. */
module Http {

  /** `http.Header`: each key holds a list of values. Keys are written here in
      their canonical form already, so no canonicalisation is modelled. */
  type Header = map<string, seq<string>>

  /** The Not Acceptable status code (section 15.5.7 of RFC 9110). */
  const StatusNotAcceptable: int := 406

  /** `Header.Get`: the first value of the key, or "" when there is none. */
  function Get(h: Header, key: string): (r: string)
    ensures key in h && h[key] != [] ==> r == h[key][0]
    ensures key !in h || h[key] == [] ==> r == ""
    ensures r != "" ==> key in h && r in h[key]
  {
    if key in h && |h[key]| > 0 then h[key][0] else ""
  }

  /** `Header.Set`: the key now holds exactly `value`; other keys keep theirs. */
  function Set(h: Header, key: string, value: string): (r: Header)
    ensures key in r && r[key] == [value] && Get(r, key) == value
    ensures forall k | k in h && k != key :: k in r && r[k] == h[k]
    ensures r.Keys == h.Keys + {key}
  {
    h[key := [value]]
  }

  /** `Header.Add`: `value` is appended to the key's values; other keys keep
      theirs. A key that had no value now answers `value`. */
  function Add(h: Header, key: string, value: string): (r: Header)
    ensures key in r && r[key] == (if key in h then h[key] else []) + [value]
    ensures (key !in h || h[key] == []) ==> Get(r, key) == value
    ensures key in h && h[key] != [] ==> Get(r, key) == Get(h, key)
    ensures forall k | k in h && k != key :: k in r && r[k] == h[k]
    ensures r.Keys == h.Keys + {key}
  {
    h[key := (if key in h then h[key] else []) + [value]]
  }

  /** The response writer a request is served through. It keeps its header
      map and the status codes written to it, in order. */
  class ResponseWriter {
    var header: Header
    var statuses: seq<int>

    constructor ()
      ensures header == map[] && statuses == []
    {
      header, statuses := map[], [];
    }

    /** `w.Header().Add(key, value)`. */
    method AddHeader(key: string, value: string)
      modifies this`header
      ensures header == Add(old(header), key, value)
    {
      header := Add(header, key, value);
    }

    /** `w.Header().Set(key, value)`. */
    method SetHeader(key: string, value: string)
      modifies this`header
      ensures header == Set(old(header), key, value)
    {
      header := Set(header, key, value);
    }

    /** `WriteHeader(code)`: the code is recorded; the header is left as it is. */
    method WriteHeader(code: int)
      modifies this`statuses
      ensures statuses == old(statuses) + [code]
    {
      statuses := statuses + [code];
    }
  }
}
