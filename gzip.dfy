/** The gzip reader (`compress/gzip`) seen only from outside. The codec is a
    foreign library; the model never looks inside DEFLATE and takes the
    reader's behaviour on each compressed input as given. */
module Gzip {
  import opened Common

  /** What a gzip reader does with one compressed input:
      - `headerErr(c)`: the error `gzip.NewReader` / `Reset` reports while
        reading the header, or `None` when the header is good;
      - `output(c)`: the decompressed bytes the stream delivers before it stops;
      - `streamErr(c)`: the error the stream stops with, or `None` when it
        ends with a clean `io.EOF` (the checksum and size trailer agree). */
  datatype Decoder = Decoder(
    headerErr: seq<byte> -> Option<Error>,
    output: seq<byte> -> seq<byte>,
    streamErr: seq<byte> -> Option<Error>)

  /** `c` is a well-formed gzip stream whose decompression is exactly `plain`. */
  ghost predicate Decodes(gz: Decoder, c: seq<byte>, plain: seq<byte>)
  {
    gz.headerErr(c) == None && gz.streamErr(c) == None && gz.output(c) == plain
  }

  /** Opening a reader on `c` and then `io.ReadAll`: the header error first,
      then the stream error, otherwise everything the stream delivers. */
  function Inflate(gz: Decoder, c: seq<byte>): (r: Result<seq<byte>, Error>)
    ensures r.Success? <==> gz.headerErr(c).None? && gz.streamErr(c).None?
    ensures r.Success? ==> r.value == gz.output(c)
    ensures gz.headerErr(c).Some? ==> r == Failure(gz.headerErr(c).value)
    ensures gz.headerErr(c).None? && gz.streamErr(c).Some? ==> r == Failure(gz.streamErr(c).value)
  {
    if gz.headerErr(c).Some? then Failure(gz.headerErr(c).value)
    else if gz.streamErr(c).Some? then Failure(gz.streamErr(c).value)
    else Success(gz.output(c))
  }
}
