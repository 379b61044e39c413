# httpembed in Dafny

A model of the two components of the Go package `httpembed`:

- **the decompressed filesystem** (`fs.go`): file handles that keep a cursor
  over a byte sequence (`Read`, `Seek`, `Close`, `Stat` and the metadata
  getters), the table they are opened from (`decompressedFS.Open`), and
  `DecompressFS`, which walks a tree of compressed files and stores every
  regular `.gz` file decompressed under its path without `.gz`;
- **the negotiated buffer handler** (`buffer.go`): the per-token gzip
  decision `requestGzip.Handle`, the body and header choice of
  `buffers.ServeHTTP`, the `Content-Length` fill-in of
  `wrapResponseWriter.WriteHeader`, and the size-hint rules of the
  constructors `HandleBuffer` and `HandleReader`.

Files and modules:

| file | module | contents |
|---|---|---|
| common.dfy | `Common` | `byte`, `Option`, `Result`, `Time`, `Error` |
| strings.dfy | `Strings` | `strings.HasSuffix` and `strings.TrimSuffix` |
| decimal.dfy | `Decimal` | `strconv.FormatInt(n, 10)` and the parser it round-trips with |
| gzip.dfy | `Gzip` | the gzip reader, seen only from outside |
| http.dfy | `Http` | `http.Header` (`Get`, `Set`, `Add`) and a recording response writer |
| fs.dfy | `FileSystem`, `FileSystemScenarios` | fs.go, and the behaviour fs_test.go walks through |
| buffer.dfy | `Buffers`, `BufferScenarios` | buffer.go, and the behaviour buffer_test.go checks |

How the Go program maps onto the model:

- A stored `file` value is the datatype `FileEntry`; a handle `*file` is the
  class `File` with the same four fields. `Open` allocates a fresh `File`
  from the stored value, which is how each handle gets its own cursor:
  `Read`, `Seek` and `Close` modify only the handle they are called on.
- The source tree is a sequence of `SourceEntry` values, in walk order. Each
  entry carries its path, base name, regularity, raw bytes and modification
  time, plus the error (if any) the walk, `Open` and `Stat` report for it.
  `DecompressFS` is a loop over that sequence with the source's early
  returns. `Walk`, a left fold over the same callback (`VisitEntry`),
  specifies it, and the lemmas about `Walk` state the filtering, the keys,
  the stored values and the all-or-nothing failure.
- The gzip reader is `Gzip.Decoder`, a value holding three functions of the
  compressed bytes: the header error, the decompressed bytes the stream
  delivers before it stops, and the error it stops with. `io.ReadAll` over
  the reader (`Gzip.Inflate`) fails on either error. `io.ReadFull` of `size`
  bytes succeeds as soon as `size` bytes were delivered, whatever follows.
- The predicates `httpencoding.IsWildcard` and `IsDisallowedInWildcard` are
  the two function fields of `Buffers.EncodingRules`.
- `httpencoding.InvalidEncoding` is the method `Buffers.InvalidEncoding`,
  which sends the Not Acceptable status (406) on the writer; `ServeHTTP`
  then returns the reply `Rejected`.
- `http.ServeContent` is a sink. `ServeHTTP` returns a `Reply` naming the
  writer, name, modification time and bytes it hands over.
  `WriteHeaderThrough` stands for the status write that `ServeContent` makes
  on that writer.
- Panics in the constructors are `None`. The panic `Read` raises on a
  negative cursor is the result `SliceOutOfRange`.

Behaviour the model keeps exactly as the code has it, although a reader
of the package's documentation might expect otherwise:

- `Seek` does no bounds check and never fails. A negative cursor is kept,
  and the next `Read` then hits the slice panic (fs.go:41). Nothing is clamped.
- `Mode` is always `fs.ModePerm`; the source entry's mode is not kept
  (fs.go:71-73).
- `Stat` returns the handle itself. After `Close`, the `FileInfo` obtained
  earlier reports size 0 (fs.go:33-35, fs.go:58-69).
- With a positive size hint, `HandleBuffer` reads exactly `size`
  decompressed bytes. Longer output is cut off without complaint, and an
  error the stream would report after those bytes (a bad checksum trailer,
  say) is never seen (buffer.go:92-97). Only a bad header or a short read
  fails.
- No directory entries are stored. A path that names a directory opens as
  `ErrNotFound`.

One remark on the tests: fs_test.go:107 reports a failure when the position
after `Seek(-6, io.SeekEnd)` is 8. It is meant to test for 7, so it accepts
any position other than 8. `FileSystemScenarios.SeekFromEnd` proves that
the position is 7.

## Model

| member | source | states |
|---|---|---|
| `FileSystem.Open` | fs.go:18-24 | a path missing from the table gives `ErrNotFound` and no handle; a present one gives a newly allocated handle whose state equals the stored entry, cursor included |
| `FileSystem.OpenTwiceReadOne` | fs.go:18-24 | reading k bytes through one handle advances only its cursor, by min(k, remaining) bytes from a valid cursor, and keeps its name, data and time; a second handle opened before the read, and a third opened after it, are each exactly the stored entry |
| `FileSystem.File.Stat` | fs.go:33-81 | the info returned is the handle itself, with no error; it reports the stored name, size = length of the data, the stored time, mode `fs.ModePerm`, and not a directory |
| `FileSystem.File.Name` | fs.go:63-65 | the name reported is the stored entry's (the base name without `.gz`) |
| `FileSystem.File.Size` | fs.go:67-69 | the size is the length of the handle's data, whatever the cursor |
| `FileSystem.File.Mode` | fs.go:71-73 | every handle reports `fs.ModePerm` |
| `FileSystem.File.ModTime` | fs.go:75-77 | the time reported is the stored entry's |
| `FileSystem.File.IsDir` | fs.go:79-81 | no handle is a directory |
| `FileSystem.File.Read` | fs.go:37-44 | with the cursor at or past the end: `(0, io.EOF)`, and the cursor and buffer are unchanged; with a negative cursor: the slice panic; otherwise n = min(len(p), len(data) - pos), p[0..n) = data[pos..pos+n), the rest of p is untouched, the cursor advances by n, and the name, data and time are unchanged |
| `FileSystem.File.Seek` | fs.go:46-56 | the cursor becomes offset, cursor + offset or len(data) + offset for start, current and end; any other whence leaves it; the new cursor is returned, never an error |
| `FileSystem.File.Close` | fs.go:58-61 | the data becomes empty, so the size reads 0 and, from any non-negative cursor, the handle is at end of data; no error |
| `FileSystem.VisitEntry` | fs.go:94-131 | the callback aborts with the walk's own error first, then with the error of the first failing step among open, gzip header and stream, and `Stat`, each passed along unchanged; it skips exactly the error-free entries that are not regular `.gz` files; it stores exactly when open, gzip header and stream, and `Stat` all succeed, and then under the trimmed path, as the name without `.gz`, at cursor 0, with the decompressed bytes and the entry's time |
| `FileSystem.Walk` | fs.go:94-134 | the walk in order; a failed build carries the error of some entry on which the callback aborted |
| `FileSystem.DecompressFS` | fs.go:90-136 | the loop with early returns yields exactly `Walk`'s result: the filesystem over the table `Walk` builds, or `Walk`'s error with no filesystem |
| `FileSystem.WalkKeepsFailure` | fs.go:132-134 | once the callback fails on a prefix of the tree, the build result is that failure, whatever the remaining entries are |
| `FileSystem.WalkSucceedsIffNoAbort` | fs.go:94-123 | the build succeeds if and only if the callback aborts on no entry (walk, open, gzip or `Stat` error) |
| `FileSystem.WalkFailsWithFirstAbort` | fs.go:94-123 | the error returned is the one of the first entry on which the callback aborts |
| `FileSystem.WalkKeys` | fs.go:99-102 | on success the table's keys are exactly the `.gz`-trimmed paths of the regular entries whose base name ends in `.gz`; every other entry is skipped |
| `FileSystem.WalkStoresLast` | fs.go:125-129 | an eligible entry that no later eligible entry overwrites is stored under its trimmed path as its trimmed name, cursor 0, the decompressed bytes and its own modification time |
| `FileSystem.WalkStoresEach` | fs.go:125-129 | in a tree with distinct paths that end in their base names, every eligible entry is stored so, under its own key |
| `Strings.HasSuffix` | fs.go:100 | true exactly when the string is at least as long as the suffix and is its own prefix followed by the suffix |
| `Strings.TrimSuffix` | fs.go:125-126 | the trimmed string with the suffix put back is the original when the suffix is present; otherwise the string is unchanged |
| `Strings.TrimSuffixInjective` | fs.go:125 | stripping `.gz` never maps two different `.gz` paths to the same key |
| `Strings.HasSuffixTransitive` | fs.go:100 | a path ending in a base name that ends in `.gz` ends in `.gz` |
| `Gzip.Inflate` | fs.go:111-118 | opening a gzip reader and reading it to the end succeeds exactly when neither the header nor the stream reports an error, and then yields the decompressed bytes; a header error is reported first, and otherwise the stream's own error is the one returned |
| `FileSystemScenarios.ReadInChunks` | fs_test.go:29-100 | the 13-byte entry has size 13 and its stored time; 5-byte reads give 5, 5 and 3 bytes ("Hello", ", Wor", "ld!") and then `io.EOF` |
| `FileSystemScenarios.SeekFromEnd` | fs_test.go:102-142 | `Seek(-6, io.SeekEnd)` on 13 bytes gives 7 and the next read "World"; a reopened handle reads "Hello" |
| `FileSystemScenarios.MissingAndClosed` | fs_test.go:166-169 | an unknown path gives `ErrNotFound`; a closed handle (and the info taken from it) reports size 0 and reads `io.EOF`, while another handle still has 13 bytes |
| `FileSystemScenarios.SampleVisits` | fs.go:94-131 | directories and a file without `.gz` are skipped; each `.gz` file is stored under its trimmed path or aborts with its gzip error |
| `FileSystemScenarios.SampleTreeBuilds` | fs.go:90-136 | a tree with `dir/sub/a.txt.gz` and `top.bin.gz` builds a table with exactly `dir/sub/a.txt` and `top.bin`, named `a.txt` and `top.bin`, with their own times |
| `FileSystemScenarios.SampleTreeCorrupt` | fs.go:111-118 | one file that does not decompress makes the whole build fail with that file's error, although the other file is well formed |
| `Buffers.RequestGzip.Handle` | buffer.go:17-25 | a token asking for gzip (`"gzip"`, or a wildcard not excluding gzip) sets the flag and is accepted; any other token leaves the flag and is accepted if and only if it is `""` or a wildcard not excluding `""` |
| `Buffers.ServeHTTP` | buffer.go:33-58 | a failed negotiation adds no header of its own, hands the writer to `InvalidEncoding`, which records Not Acceptable, and serves nothing; with gzip chosen, `Content-Encoding: gzip` is added and the compressed bytes go out through a new wrapper over the writer that holds their length; otherwise the decompressed bytes go out through the request's own writer and the header is untouched; name and time are the resource's; in these two cases no status is written |
| `Buffers.InvalidEncoding` | buffer.go:40 | the library's rejection records the Not Acceptable status (406) and leaves the header as it was |
| `Buffers.WrapResponseWriter.WriteHeader` | buffer.go:65-71 | an empty `Content-Length` is set to the decimal rendering of the size; a present one is kept; the status goes to the wrapped writer unchanged |
| `Buffers.WriteHeaderThrough` | buffer.go:57-71 | a status written through the writer `ServeHTTP` chose: the request's own writer leaves the header untouched; the wrapper applies its `Content-Length` rule; either way the code is recorded |
| `Buffers.HandleBuffer` | buffer.go:80-106 | the handler is built if and only if the header is good and, for size 0, the stream ends cleanly, or, for a nonzero size, 0 < size <= the decoded length; it keeps name, compressed bytes and time; its decompressed bytes are the whole output for size 0 and the first size bytes otherwise |
| `Buffers.ReadCompressed` | buffer.go:121-130 | the read succeeds exactly when size 0 meets a cleanly ending stream or 0 < size <= the bytes delivered; it gives the whole stream for size 0 and otherwise a prefix of exactly size bytes |
| `Buffers.HandleReader` | buffer.go:115-133 | size 0 reads the whole stream and fails on a stream error; a nonzero size needs 0 < size <= the bytes delivered and keeps exactly that many; whenever that read succeeds the result is exactly what `HandleBuffer` builds from those bytes with the same name, size hint and time |
| `Decimal.FormatInt` | buffer.go:67 | the rendering is non-empty, starts with `-` exactly for negative numbers and is digits otherwise |
| `Decimal.FormatIntRoundTrip` | buffer.go:67 | parsing the rendered `Content-Length` gives back the number it was rendered from |
| `Http.Get` | buffer.go:66 | the first value of the key, or `""` when the key is absent or has no values; a non-empty answer is one of the key's values |
| `Http.Set` | buffer.go:67 | the key then holds exactly the value, and other keys keep theirs |
| `Http.Add` | buffer.go:46 | the value is appended to the key's values; a key that had none then reads the value; other keys keep theirs |
| `BufferScenarios.ConstructorsRoundTrip` | buffer_test.go:89-111 | from a well-formed gzip stream of a plaintext, all four constructor variants (buffer or reader, with sizes or with 0) build the resource holding that plaintext |
| `BufferScenarios.ServeBothEncodings` | buffer_test.go:34-87 | served to identity, the body is the plaintext and there is no `Content-Encoding`; served to gzip, the body is the compressed bytes, `Content-Encoding` is `gzip`, and once status 200 is written the `Content-Length` denotes the compressed length |
| `BufferScenarios.RejectedNegotiation` | buffer.go:39-43 | a failed negotiation on a fresh response serves nothing, adds no header of its own, and writes only the Not Acceptable status that `InvalidEncoding` sends |
| `BufferScenarios.PresetLengthKept` | buffer.go:65-71 | a `Content-Length` already present survives `WriteHeader`, and the status is forwarded |

## Left out

- The gzip codec (`compress/gzip`, DEFLATE, the test's `compressor`): a foreign library. `Gzip.Decoder` takes its behaviour on each input as given.
- `http.ServeContent`: range requests, conditional requests, content-type sniffing and the `Content-Length` it sets itself are standard-library logic. The model records only the writer, name, time and bytes it receives. So the `Content-Length: 13` of the identity test is outside the model. So is the length `ServeContent` would want for a partial gzip response.
- `httpencoding.HandleEncoding`: header parsing, q-value order, and which tokens reach `Handle` in which order live in an external library. `ServeHTTP` takes that call's result and the flag it left as inputs.
- `Buffers.InvalidEncoding`: the body of `httpencoding.InvalidEncoding` is in an external library. The model keeps only the Not Acceptable status it sends; any header or body it writes besides is not modelled.
- `BufferScenarios.RejectedNegotiation`: its empty header holds of the model, where `InvalidEncoding` writes only a status. What headers the library's rejection really sets is not captured.
- `fs.WalkDir` and the real `fs.FS`: the tree is a given sequence in walk order. That paths are distinct and end in their base names is assumed only by `WalkStoresEach`.
- Read errors of an opened source file: Go sees them through the gzip reader. The model folds them into the decoder's stream error.
- The deferred `f.Close()` in the walk callback, whose error the source ignores, and the reuse of one `gzip.Reader` across entries: allocation details with no effect on the result.
- `time.Time`: the code only copies it, so the model stands for it by one integer and models none of its operations.
- `Sys()` (fs.go:83-85): it returns the handle itself and has no behaviour.
- The panics of `HandleBuffer` and `HandleReader` carry an error value; the model keeps only the fact of the panic (`None`).
- `FileSystem.File.Seek`: does not model the int64-to-int conversion or overflow of the cursor, because integers here are unbounded; nor the int64 result of `Size`.
- Header-key canonicalisation in `http.Header`: the model uses keys that are already canonical.
- Concurrency: nothing in the core is concurrent; handlers are only read-shared.
- examples_test.go: it depends on an embedded asset.
