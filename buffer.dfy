/** The negotiated buffer handler (buffer.go): one resource held both gzip
    compressed and decompressed, served compressed to clients that accept
    gzip and decompressed to the rest. */
module Buffers {
  import opened Common
  import opened Http
  import Decimal
  import Gzip

  const ContentEncoding: string := "Content-Encoding"
  const ContentLength: string := "Content-Length"

  /** A token of the client's `Accept-Encoding` header (`httpencoding.Encoding`);
      the identity encoding is the empty token. */
  type Encoding = string

  /** The two predicates of the external `httpencoding` library, whose
      definitions the model does not see: `isWildcard(enc)`, and
      `isDisallowedInWildcard(enc, e)`, "the wildcard `enc` excludes `e`". */
  datatype EncodingRules = EncodingRules(
    isWildcard: Encoding -> bool,
    isDisallowedInWildcard: (Encoding, Encoding) -> bool)

  /** The token asks for gzip, by name or through a wildcard that does not
      exclude it. */
  predicate AcceptsGzip(rules: EncodingRules, enc: Encoding)
  {
    enc == "gzip" || (rules.isWildcard(enc) && !rules.isDisallowedInWildcard(enc, "gzip"))
  }

  /** The token allows the identity encoding, by name or through a wildcard
      that does not exclude it. */
  predicate AcceptsIdentity(rules: EncodingRules, enc: Encoding)
  {
    enc == "" || (rules.isWildcard(enc) && !rules.isDisallowedInWildcard(enc, ""))
  }

  /** `requestGzip`: the flag the negotiation sets when gzip is chosen. */
  class RequestGzip {
    var requested: bool

    constructor ()
      ensures !requested
    {
      requested := false;
    }

    /** `Handle(enc)`: a token that asks for gzip sets the flag and is
        accepted; any other token leaves the flag alone and is accepted
        exactly when it allows the identity encoding. */
    method Handle(rules: EncodingRules, enc: Encoding) returns (ok: bool)
      modifies this
      ensures AcceptsGzip(rules, enc) ==> requested && ok
      ensures !AcceptsGzip(rules, enc) ==> requested == old(requested) && (ok <==> AcceptsIdentity(rules, enc))
    {
      if AcceptsGzip(rules, enc) {
        requested := true;
        return true;
      }
      ok := AcceptsIdentity(rules, enc);
    }
  }

  /** `buffers`: the resource, built once and only read afterwards. */
  datatype Buffers = Buffers(name: string, compressed: seq<byte>, uncompressed: seq<byte>, modTime: Time)

  /** `wrapResponseWriter`: a response writer that fills in `Content-Length`
      with the compressed size when the status is written. */
  class WrapResponseWriter {
    const inner: ResponseWriter
    const size: int

    constructor (inner: ResponseWriter, size: int)
      ensures this.inner == inner && this.size == size
    {
      this.inner := inner;
      this.size := size;
    }

    /** `WriteHeader(code)`: an empty `Content-Length` becomes the decimal
        rendering of `size`, a present one is kept; then the code goes to the
        wrapped writer unchanged. */
    method WriteHeader(code: int)
      modifies inner
      ensures Get(old(inner.header), ContentLength) == "" ==>
        inner.header == Set(old(inner.header), ContentLength, Decimal.FormatInt(size))
      ensures Get(old(inner.header), ContentLength) != "" ==> inner.header == old(inner.header)
      ensures inner.statuses == old(inner.statuses) + [code]
    {
      if Get(inner.header, ContentLength) == "" {
        inner.SetHeader(ContentLength, Decimal.FormatInt(size));
      }
      inner.WriteHeader(code);
    }
  }

  /** The writer a response goes out through: the request's own, or the
      wrapper around it. */
  datatype Writer = Direct(base: ResponseWriter) | Wrapped(wrapper: WrapResponseWriter)
  {
    /** The writer whose header and status the response ends up in. */
    function Target(): ResponseWriter
    {
      if Direct? then base else wrapper.inner
    }
  }

  /** A status written through either kind of writer (the call
      `http.ServeContent` makes on whichever writer it is given). */
  method WriteHeaderThrough(writer: Writer, code: int)
    modifies writer.Target()
    ensures writer.Direct? ==> writer.Target().header == old(writer.Target().header)
    ensures writer.Wrapped? && Get(old(writer.Target().header), ContentLength) == "" ==>
      writer.Target().header == Set(old(writer.Target().header), ContentLength, Decimal.FormatInt(writer.wrapper.size))
    ensures writer.Wrapped? && Get(old(writer.Target().header), ContentLength) != "" ==>
      writer.Target().header == old(writer.Target().header)
    ensures writer.Target().statuses == old(writer.Target().statuses) + [code]
  {
    if writer.Direct? {
      writer.base.WriteHeader(code);
    } else {
      writer.wrapper.WriteHeader(code);
    }
  }

  /** `httpencoding.InvalidEncoding(w)`: the library's answer to a request
      whose `Accept-Encoding` leaves no acceptable encoding. Its body is not
      visible to the model; what it is known to do is send the Not Acceptable
      status (section 15.5.7 of RFC 9110). */
  method InvalidEncoding(w: ResponseWriter)
    modifies w
    ensures w.header == old(w.header)
    ensures w.statuses == old(w.statuses) + [StatusNotAcceptable]
  {
    w.WriteHeader(StatusNotAcceptable);
  }

  /** What a request ends in: rejected by the negotiation, or a hand-over to
      `http.ServeContent` of a writer, the resource's name and time, and the
      bytes to serve. */
  datatype Reply =
    | Rejected
    | ServeContent(writer: Writer, name: string, modTime: Time, content: seq<byte>)

  /** `buffers.ServeHTTP`. `negotiated` is what `httpencoding.HandleEncoding`
      returned and `gzipChosen` the value it left in the request's flag.
      A failed negotiation adds nothing of its own and hands `w` to
      `InvalidEncoding`, which sends Not Acceptable; gzip adds `Content-Encoding: gzip`
      and serves the compressed bytes through a wrapper that knows their
      length; otherwise the decompressed bytes go out through the request's
      own writer with the header untouched. */
  method ServeHTTP(b: Buffers, negotiated: bool, gzipChosen: bool, w: ResponseWriter) returns (reply: Reply)
    modifies w
    ensures !negotiated ==>
      && reply == Rejected && w.header == old(w.header)
      && w.statuses == old(w.statuses) + [StatusNotAcceptable]
    ensures negotiated ==> w.statuses == old(w.statuses)
    ensures negotiated && gzipChosen ==>
      && w.header == Add(old(w.header), ContentEncoding, "gzip")
      && reply.ServeContent? && reply.writer.Wrapped? && fresh(reply.writer.wrapper)
      && reply.writer.Target() == w && reply.writer.wrapper.size == |b.compressed|
      && reply.name == b.name && reply.modTime == b.modTime && reply.content == b.compressed
    ensures negotiated && !gzipChosen ==>
      reply == ServeContent(Direct(w), b.name, b.modTime, b.uncompressed) && w.header == old(w.header)
  {
    if !negotiated {
      InvalidEncoding(w);
      return Rejected;
    }
    var content: seq<byte>;
    var writer: Writer;
    if gzipChosen {
      w.AddHeader(ContentEncoding, "gzip");
      content := b.compressed;
      var wrapper := new WrapResponseWriter(w, |b.compressed|);
      writer := Wrapped(wrapper);
    } else {
      content := b.uncompressed;
      writer := Direct(w);
    }
    reply := ServeContent(writer, b.name, b.modTime, content);
  }

  /** `HandleBuffer`: decompress `compressed` once, up front. A bad header
      panics (`None`). A size hint of 0 reads the whole stream, which must end
      cleanly; a positive hint reads exactly that many bytes, panicking on a
      short read and ignoring anything after them; a negative hint panics in
      `make`. */
  function HandleBuffer(name: string, compressed: seq<byte>, size: int, lastMod: Time, gz: Gzip.Decoder)
    : (r: Option<Buffers>)
    ensures r.Some? <==>
      && gz.headerErr(compressed).None?
      && (if size == 0 then gz.streamErr(compressed).None? else 0 < size <= |gz.output(compressed)|)
    ensures r.Some? ==> r.value.name == name && r.value.compressed == compressed && r.value.modTime == lastMod
    ensures r.Some? && size == 0 ==> r.value.uncompressed == gz.output(compressed)
    ensures r.Some? && size > 0 ==>
      |r.value.uncompressed| == size && r.value.uncompressed == gz.output(compressed)[..size]
  {
    if gz.headerErr(compressed).Some? then None
    else if size == 0 then
      match Gzip.Inflate(gz, compressed)
      case Failure(_) => None
      case Success(u) => Some(Buffers(name, compressed, u, lastMod))
    else if size < 0 || |gz.output(compressed)| < size then None
    else Some(Buffers(name, compressed, gz.output(compressed)[..size], lastMod))
  }

  /** An `io.Reader` seen from outside: the bytes it delivers before it
      stops, and the error it stops with (`None` for a clean `io.EOF`). */
  datatype Stream = Stream(bytes: seq<byte>, err: Option<Error>)

  /** The read at the start of `HandleReader`: with size 0, `io.ReadAll`,
      which fails on a stream error; otherwise `io.ReadFull` into a buffer of
      exactly that size, which fails on a short read (and `make` panics on a
      negative size). */
  function ReadCompressed(r: Stream, compressedSize: int): (c: Option<seq<byte>>)
    ensures c.Some? <==> (compressedSize == 0 && r.err.None?) || 0 < compressedSize <= |r.bytes|
    ensures c.Some? && compressedSize == 0 ==> c.value == r.bytes
    ensures c.Some? && compressedSize != 0 ==>
      |c.value| == compressedSize && c.value + r.bytes[compressedSize..] == r.bytes
  {
    if compressedSize == 0 then
      if r.err.Some? then None else Some(r.bytes)
    else if compressedSize < 0 || |r.bytes| < compressedSize then None
    else Some(r.bytes[..compressedSize])
  }

  /** `HandleReader`: read the compressed bytes under the compressed-size
      rule, then build exactly what `HandleBuffer` builds from them. */
  function HandleReader(name: string, r: Stream, compressedSize: int, uncompressedSize: int, lastMod: Time,
                        gz: Gzip.Decoder): (res: Option<Buffers>)
    ensures compressedSize == 0 && res.Some? ==> r.err.None? && res.value.compressed == r.bytes
    ensures compressedSize != 0 && res.Some? ==>
      0 < compressedSize <= |r.bytes| && res.value.compressed == r.bytes[..compressedSize]
    ensures compressedSize < 0 || |r.bytes| < compressedSize || (compressedSize == 0 && r.err.Some?) ==> res.None?
    ensures res.Some? ==> res == HandleBuffer(name, res.value.compressed, uncompressedSize, lastMod, gz)
    ensures compressedSize == 0 && r.err.None? ==> res == HandleBuffer(name, r.bytes, uncompressedSize, lastMod, gz)
    ensures 0 < compressedSize <= |r.bytes| ==>
      res == HandleBuffer(name, r.bytes[..compressedSize], uncompressedSize, lastMod, gz)
  {
    match ReadCompressed(r, compressedSize)
    case None => None
    case Some(compressed) => HandleBuffer(name, compressed, uncompressedSize, lastMod, gz)
  }
}

/** The properties buffer_test.go exercises, stated over the model. */
module BufferScenarios {
  import opened Common
  import opened Http
  import opened Buffers
  import Decimal
  import Gzip

  /** All four ways of building the handler recover the plaintext from a
      well-formed gzip stream: with the exact size hint or none, from a
      buffer or from a clean reader given the compressed length or none. */
  lemma ConstructorsRoundTrip(gz: Gzip.Decoder, name: string, c: seq<byte>, plain: seq<byte>, t: Time)
    requires Gzip.Decodes(gz, c, plain)
    ensures HandleBuffer(name, c, |plain|, t, gz) == Some(Buffers(name, c, plain, t))
    ensures HandleBuffer(name, c, 0, t, gz) == Some(Buffers(name, c, plain, t))
    ensures HandleReader(name, Stream(c, None), |c|, |plain|, t, gz) == Some(Buffers(name, c, plain, t))
    ensures HandleReader(name, Stream(c, None), 0, 0, t, gz) == Some(Buffers(name, c, plain, t))
  {
    assert plain[..|plain|] == plain;
    assert c[..|c|] == c;
  }

  /** One resource served twice. To `identity` (a negotiation that succeeds
      without choosing gzip) the handler hands the plaintext to
      `http.ServeContent` and adds no `Content-Encoding`. To `gzip` it hands
      over the compressed bytes and adds `Content-Encoding: gzip`; when the
      status 200 is then written through the writer it returned, the
      `Content-Length` it fills in denotes the compressed length. */
  method ServeBothEncodings(rules: EncodingRules, gz: Gzip.Decoder, c: seq<byte>, plain: seq<byte>, t: Time)
    returns (identityBody: seq<byte>, identityEncoding: string,
             gzipBody: seq<byte>, gzipEncoding: string, gzipLength: string, statuses: seq<int>)
    requires Gzip.Decodes(gz, c, plain)
    ensures identityBody == plain && identityEncoding == ""
    ensures gzipBody == c && gzipEncoding == "gzip"
    ensures Decimal.ParseInt(gzipLength) == Some(|c|)
    ensures statuses == [200]
  {
    ConstructorsRoundTrip(gz, "data.txt", c, plain, t);
    var b := HandleBuffer("data.txt", c, |plain|, t, gz).value;

    var w1 := new ResponseWriter();
    var r1 := ServeHTTP(b, true, false, w1);
    identityBody, identityEncoding := r1.content, Get(w1.header, ContentEncoding);

    var flag := new RequestGzip();
    var ok := flag.Handle(rules, "gzip");
    var w2 := new ResponseWriter();
    var r2 := ServeHTTP(b, ok, flag.requested, w2);
    WriteHeaderThrough(r2.writer, 200);
    gzipBody, gzipEncoding := r2.content, Get(w2.header, ContentEncoding);
    gzipLength, statuses := Get(w2.header, ContentLength), w2.statuses;
    Decimal.FormatIntRoundTrip(|c|);
  }

  /** A failed negotiation serves nothing: the handler adds no header of its
      own, and the only status written is the Not Acceptable one that
      `InvalidEncoding` sends. */
  method RejectedNegotiation(b: Buffers) returns (reply: Reply, header: Header, statuses: seq<int>)
    ensures reply == Rejected && header == map[] && statuses == [StatusNotAcceptable]
  {
    var w := new ResponseWriter();
    reply := ServeHTTP(b, false, false, w);
    header, statuses := w.header, w.statuses;
  }

  /** A `Content-Length` that is already present is left as it is. */
  method PresetLengthKept(size: int, preset: string, code: int) returns (length: string, statuses: seq<int>)
    requires preset != ""
    ensures length == preset && statuses == [code]
  {
    var w := new ResponseWriter();
    w.SetHeader(ContentLength, preset);
    var wrapper := new WrapResponseWriter(w, size);
    wrapper.WriteHeader(code);
    length, statuses := Get(w.header, ContentLength), w.statuses;
  }
}
