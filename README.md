# bloomserver, modelled in Dafny

bloomserver answers one question over HTTP: does any substring of a text
belong to a precomputed set of strings? The set is a bloom filter that a
maintenance tool (`bloomserver-util`) creates, fills and saves to disk, and
that the server loads once at start-up. This project models the three parts
of the Go code with behaviour worth stating:

- **The filter file** (`bloom/bloomfilter.go`, module `BloomFilter`): the
  22-byte magic `"\x01IZZETTE/BLOOMSERVER\x03\x02"`, then `k` and then `m`
  as 8-byte little-endian integers, then the bit array as the willf/bloom
  library writes it (an opaque payload here). `Save`, `parseFilterFile`,
  `FromFile`, `New`, `GetM` and `GetK` are modelled over a `File` class that
  has the bytes of a file, a read offset and the room left on the device.
  The little-endian fields are in module `LittleEndian`.
- **The search handler** (`server.go`, module `Server`): the request checks of
  `handleSearch`, each with its status code, and the nested loops that test
  every rune slice `body[i:i+j]` against the filter and append the matches
  to the response. `SearchResponse` and `Scan` state the outcome as
  functions, and `HandleSearch`, `ScanBody` and `ScanRow` are the loops proved
  against them. `strconv.ParseUint` for base 10 is in module `Decimal`.
- **The maintenance tool** (`bloomserver-util/main.go`, module `Util`): the
  size arithmetic of the `estimate` action, the action and argument checks
  of `main`, and the `create`, `add` and `show` actions over the file.

Module `Results` holds the `Option` and `Result` types. They stand in for
Go's error returns and for `log.Panic` and `log.Fatal`.

How the code behaves at the edges, as modelled:

- `parseFilterFile` checks only the error of each `Read`, never the count.
  A read copies what is left, up to the buffer size, into a zeroed buffer,
  and reports an error only at end of file. So a file cut off inside the `m`
  field still loads: the missing bytes read as zero
  (`TruncatedSizeAccepted`). A file cut off inside the `k` field does not
  load: the `k` read takes the partial field, and the `m` read then meets end
  of file (`FieldStages`). A short read of the magic is always refused,
  because the buffer then holds a zero where the magic's last byte, 0x02,
  belongs (`MagicDecides`). The library's `ReadFrom` error is ignored, so the
  payload is whatever follows the header, however long it is.
- `New` does not check `m` or `k`: zero is accepted. The new library
  filter's payload is a parameter of `New`, because the library decides what
  it writes for an empty filter.
- `Save` ignores the error of the payload write. So `create` reports success
  once the header fits, even when the payload is cut off (`RunCreate`).
- The timeout check at `server.go:74` asks whether the request's context
  *has* a deadline, not whether it has passed. Line 26 always sets one, so
  the 408 branch is never taken (`NoTimeoutWithDeadline`). The model keeps
  the check as a boolean, `hasDeadline`.
- When `substringLength` is 0 or absent it becomes the rune count `N`, so
  exactly one candidate is tested: the whole text (`WholeTextOnly`). When it
  is larger than `N`, no candidate is tested and the list is empty, never
  null (`NothingLongEnough`).
- Matches are not deduplicated (`RepeatsKept`).

## Model

| member | source | states |
|---|---|---|
| LittleEndian.PutUint64 | bloom/bloomfilter.go:50-57 | the 8 bytes written for a 64-bit field decode back to the value written |
| LittleEndian.Uint64 | bloom/bloomfilter.go:86-92 | the value read from an 8-byte field re-encodes to exactly those 8 bytes |
| LittleEndian.DecodeEncode | bloom/bloomfilter.go:51-57 | decoding the little-endian encoding of any value that fits in the width gives the value back |
| LittleEndian.EncodeDecode | bloom/bloomfilter.go:82-92 | encoding the value of any byte string gives the byte string back |
| LittleEndian.Uint64OfPutUint64 | bloom/bloomfilter.go:86-92 | reading a field that PutUint64 wrote gives the value written |
| BloomFilter.ImageLayout | bloom/bloomfilter.go:45-62 | the saved file is the magic at offsets 0-21, k at 22-29, m at 30-37, then the payload from offset 38 |
| BloomFilter.ParseImage | bloom/bloomfilter.go:73-94 | parsing what Save wrote gives back m and k in their own places although the file has k first, and leaves exactly the payload unread |
| BloomFilter.MagicDecides | bloom/bloomfilter.go:74-80 | loading stops at the magic stage exactly when the file does not begin with the 22 magic bytes; the read itself fails exactly on an empty file |
| BloomFilter.FieldStages | bloom/bloomfilter.go:82-92 | after the magic, the k read fails exactly when nothing follows, the m read fails exactly when at most 8 bytes follow, otherwise the header parses, and with a full header k and m are the fields at offsets 22 and 30 |
| BloomFilter.ParseImagePrefix | bloom/bloomfilter.go:73-94 | a file holding the full header of an image and any prefix of its payload parses to that header's m and k |
| BloomFilter.TruncatedSizeAccepted | bloom/bloomfilter.go:88-92 | a file that ends one byte into the m field still loads, with the missing bytes of m read as zero and no payload |
| BloomFilter.ParseFilterFile | bloom/bloomfilter.go:73-95 | reads magic, k and m with one Read each and returns (size, k) as ParseHeader says, stopping at the first failed stage, and leaves the file at the payload |
| BloomFilter.BloomFilter.New | bloom/bloomfilter.go:20-29 | records m and k unchanged beside a fresh library filter, whose payload is given |
| BloomFilter.BloomFilter.Blank | bloom/bloomfilter.go:32 | the zero BloomFilter that FromFile starts from: m and k 0, no library filter |
| BloomFilter.BloomFilter.GetM | bloom/bloomfilter.go:65-67 | returns the recorded m |
| BloomFilter.BloomFilter.GetK | bloom/bloomfilter.go:69-71 | returns the recorded k |
| BloomFilter.BloomFilter.Save | bloom/bloomfilter.go:45-63 | appends the magic, k, m and the payload, in that order; on a device with room for n more bytes the file gains the first n bytes of that image, and the header write that runs out of room names the error |
| BloomFilter.FromFile | bloom/bloomfilter.go:31-43 | a failed open is an error; otherwise the filter gets the m and k the header parse returns, in that order, and the rest of the file as payload; any header error is returned and no filter is built |
| Decimal.ParseUint | server.go:33 | accepts exactly the non-empty strings of ASCII digits whose value fits in the bit size, and returns their decimal value |
| Decimal.ParseFormat | server.go:33 | every value that fits in the bit size is parsed back from its decimal spelling |
| Decimal.ParseRefusesOutOfRange | server.go:33 | a value too large for the bit size is refused |
| Server.ParseSubstringLength | server.go:30-38 | an absent parameter means 0; otherwise only an unsigned decimal of at most 65535 is accepted, and its value is the minimum length |
| Server.HandleSearch | server.go:25-98 | the handler's response is SearchResponse of the request: the checks in source order, then the scan |
| Server.ScanBody | server.go:63-89 | the outer loop over start i ascending returns the list Guilty of all candidates in visiting order, or 408 if the deadline check fails |
| Server.ScanRow | server.go:72-84 | the inner loop over length j ascending appends the slices of row i that pass Test, or stops before the first candidate when the deadline check fails |
| Server.RowSpansMembers | server.go:72 | the candidates of row i are exactly the lengths from the minimum up to what fits after i |
| Server.SpansFromMembers | server.go:71-72 | the candidates are exactly the spans (i, j) with i + L <= N, L <= j and i + j <= N |
| Server.SpansFromAscending | server.go:71-72 | candidates are visited by start ascending, then by length ascending, each once |
| Server.GuiltyAppend | server.go:80-83 | the matches of earlier candidates come before those of later ones |
| Server.ScanReportsPassingCandidates | server.go:71-84 | the reported strings are, one per candidate and in visiting order, the slices of exactly those visited candidates that pass Test: sound, complete and ordered |
| Server.WholeTextOnly | server.go:66-68 | a minimum length of 0 leaves one candidate, the whole text |
| Server.NothingLongEnough | server.go:65-89 | a minimum length beyond the text gives status 200 with an empty list |
| Server.NoTimeoutWithDeadline | server.go:26-78 | with the deadline set at the start, no request ends with 408 |
| Server.TimeoutWithoutDeadline | server.go:74-78 | a failing deadline check ends the scan with 408 and no partial list |
| Server.BadLengthParameter | server.go:31-36 | a non-empty substringLength that is not an unsigned 16-bit decimal gives 400, whatever the body |
| Server.ContentLengthChecks | server.go:40-47 | a content length of at most 0 gives 400 and one above the maximum gives 413, decided before any byte of the body is read |
| Server.ShortRead | server.go:49-57 | a read shorter than the content length gives 500 when the read reported an error and 400 otherwise |
| Server.FullRead | server.go:59-68 | after a full read, invalid UTF-8 gives 400 and valid text is scanned with the parameter's minimum length, 0 meaning the rune count |
| Server.AbcdExample | server.go:70-85 | with a filter of "ab" and "bcd", text "abcd" and minimum length 1, the response lists "ab" then "bcd" and nothing else |
| Server.RepeatsKept | server.go:80-83 | "a" found twice in "aa" is listed twice |
| Util.EstimateSize | bloomserver-util/main.go:99-108 | mBytes is m/8 rounded up, mBytesInUint64 the least multiple of 8 at or above it, and the estimate is 8 * ceil(m/64) + 38, below 2^64 |
| Util.CeilDivUnique | bloomserver-util/main.go:99-102 | m/8 rounded up is the only q with m <= 8q and 8(q-1) < m |
| Util.CeilDivTwice | bloomserver-util/main.go:103-106 | rounding up to bytes and then to 8-byte words is rounding m up to 64-bit words |
| Util.EstimateMonotone | bloomserver-util/main.go:99-108 | the estimate never decreases as m grows |
| Util.EstimateIsImageSize | bloomserver-util/main.go:108 | the estimate is the size of the file Save writes when the payload is the bit array in whole 64-bit words |
| Util.ParseCommand | bloomserver-util/main.go:22-127 | no action is an error; create and estimate need exactly 3 arguments, add 2, show 1; create, add and show need a non-empty -bloom-filter-file; any other action is an error |
| Util.EstimateNeedsNoFilterFile | bloomserver-util/main.go:78-97 | estimate with a valid n and p is accepted with an empty -bloom-filter-file |
| Util.CreateArguments | bloomserver-util/main.go:28-46 | create accepts any two 64-bit decimals and passes them on as m and k, in that order |
| Util.SaveToFile | bloomserver-util/main.go:130-137 | a failed open is an error; otherwise the file is emptied and holds the first bytes of the filter's image, as many as the device has room for |
| Util.RunCreate | bloomserver-util/main.go:28-48 | the file holds the first bytes of the image of a new filter for m and k, as many as the device has room for; the result is the save error of the header stage that ran out of room, or success once the header fits, even with the payload cut off |
| Util.RunShow | bloomserver-util/main.go:111-124 | reports the m and k the header parse returns, or the load error |
| Util.RunAdd | bloomserver-util/main.go:49-77 | loads the filter, adds every word in order, and saves it back with the m and k it was loaded with; a load or word-list failure saves nothing |
| Util.CreateThenShow | bloomserver-util/main.go:111-124 | show after create on the same file reports the m and k given to create once the header fits, however much of the payload was written |

## Left out

- The willf/bloom library: hashing, the bit positions of `Add` and `Test`,
  and the layout `WriteTo` writes and `ReadFrom` reads. The bit array is an
  opaque byte payload: `New` is given the payload of the fresh library
  filter, `ReadFrom` takes the rest of the file and `WriteTo` writes the
  payload back. `Test` is a function
  parameter over rune strings. `Add` is a function parameter over the payload.
- `EstimateParameters` (floating-point math in the library) and
  `strconv.ParseFloat`: `m` is the input of `EstimateSize`, and a predicate
  parameter says whether `p` parses.
- UTF-8: `utf8.Valid` and the conversion of the body to runes are function
  parameters. `Test` takes the rune slice, with the conversion back to bytes
  folded in.
- Time: the deadline check is the boolean `hasDeadline`. Deadlines that pass
  are not modelled.
- The 500 response when `json.Marshal` fails (server.go:90-93): marshalling a
  list of strings does not fail, and `Json` stands for the 200 response with
  its JSON body. `http.ResponseWriter`, logging and process exits are left
  out. Errors become `Result` values.
- Files: `File` models a regular file. A read fails only at end of file, so
  device read errors are not modelled. A write fails when the device has no
  room left. Opening is modelled by the caller: null stands for a failed
  open, and reopening with truncation is `Truncate`. Closing is not modelled.
- RunAdd: the file is both loaded and rewritten through one `File` object,
  so a failure of the second open for writing (bloomserver-util/main.go:131)
  after a successful load is not modelled. Truncating the file does not give
  the device back the room the old contents took.
- `bufio.Scanner`: the word list is a sequence of lines, and `None` stands
  for a failure to open or scan it.
- Go's `uint` is taken to be 64 bits wide.
- The listener and serving goroutine (`Start`), `NewBloomHTTPServer`,
  `options.go`, `main.go` and `util/main.go` are not part of this model.
- Concurrency between requests is not modelled. The filter is read-only
  while serving.
- The `show` and `estimate` output formatting (`fmt.Printf`,
  `bytefmt.ByteSize`) is not modelled.
