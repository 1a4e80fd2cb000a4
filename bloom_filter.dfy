/** The filter file format of package bloom: a 22-byte magic string, the hash
    count k and the bit count m as 8-byte little-endian integers, then the
    bit array as the willf/bloom library serialises it (an opaque payload
    here). */
module BloomFilter {
  import opened Results
  import opened LittleEndian

  /** BLOOM_FILTER_MAGIC, "\x01IZZETTE/BLOOMSERVER\x03\x02", as bytes. */
  const Magic: seq<byte> := [
    0x01,
    0x49, 0x5A, 0x5A, 0x45, 0x54, 0x54, 0x45,                    // IZZETTE
    0x2F,                                                        // /
    0x42, 0x4C, 0x4F, 0x4F, 0x4D, 0x53, 0x45, 0x52, 0x56, 0x45, 0x52,  // BLOOMSERVER
    0x03, 0x02]

  /** Where k, m and the payload start in a filter file. */
  const KOffset: nat := 22
  const SizeOffset: nat := 30
  const PayloadOffset: nat := 38

  /** The bytes Save writes: the magic, k, m, then the library's payload. */
  function Image(m: u64, k: u64, payload: seq<byte>): (r: seq<byte>)
    ensures |r| == PayloadOffset + |payload|
  {
    Magic + PutUint64(k) + PutUint64(m) + payload
  }

  /** The magic fills offsets 0 to 21, k is read back from offsets 22 to 29,
      m from offsets 30 to 37, and the payload starts at offset 38. */
  lemma ImageLayout(m: u64, k: u64, payload: seq<byte>)
    ensures |Magic| == KOffset
    ensures Image(m, k, payload)[..KOffset] == Magic
    ensures Uint64(Image(m, k, payload)[KOffset..SizeOffset]) == k
    ensures Uint64(Image(m, k, payload)[SizeOffset..PayloadOffset]) == m
    ensures Image(m, k, payload)[PayloadOffset..] == payload
  {
    var r := Image(m, k, payload);
    assert r[KOffset..SizeOffset] == PutUint64(k);
    assert r[SizeOffset..PayloadOffset] == PutUint64(m);
    Uint64OfPutUint64(k);
    Uint64OfPutUint64(m);
  }

  function Zeros(n: nat): (r: seq<byte>)
    ensures |r| == n && forall i :: 0 <= i < n ==> r[i] == 0
  {
    seq(n, _ => 0)
  }

  /** One os.File.Read into a fresh n-byte buffer. */
  datatype Chunk = Chunk(buffer: seq<byte>, count: nat)

  /** What os.File.Read into a fresh (zeroed) n-byte buffer yields on a file
      whose unread bytes are s: None is io.EOF (nothing left, n > 0);
      otherwise it copies as many bytes as it has, up to n, and leaves the
      rest of the buffer zero. */
  function ReadInto(s: seq<byte>, n: nat): (r: Option<Chunk>)
    ensures r.None? <==> s == [] && n > 0
    ensures r.Some? ==> |r.value.buffer| == n && r.value.count <= |s|
  {
    if s == [] && n > 0 then None
    else
      var count := if n <= |s| then n else |s|;
      Some(Chunk(s[..count] + Zeros(n - count), count))
  }

  datatype LoadError =
    | OpenFailed      // os.OpenFile failed
    | MagicReadFailed // reading the magic bytes returned an error
    | NoMagic         // the bytes read are not the magic: not a filter file
    | KReadFailed     // reading k returned an error
    | SizeReadFailed  // reading m returned an error

  /** What parseFilterFile returns, (size, k), and the bytes it leaves
      unread for the library's ReadFrom. */
  datatype Header = Header(m: u64, k: u64, rest: seq<byte>)

  /** parseFilterFile on a file whose unread bytes are s. Each field is one
      Read; only the error result of a Read is checked, never its count. */
  function ParseHeader(s: seq<byte>): Result<Header, LoadError>
  {
    match ReadInto(s, |Magic|)
    case None => Err(MagicReadFailed)
    case Some(magic) =>
      if magic.buffer != Magic then Err(NoMagic)
      else
        var afterMagic := s[magic.count..];
        match ReadInto(afterMagic, 8)
        case None => Err(KReadFailed)
        case Some(kField) =>
          var afterK := afterMagic[kField.count..];
          match ReadInto(afterK, 8)
          case None => Err(SizeReadFailed)
          case Some(sizeField) =>
            Ok(Header(Uint64(sizeField.buffer), Uint64(kField.buffer), afterK[sizeField.count..]))
  }

  /** Parsing what Save wrote gives back m and k, in their own places although
      the file holds k before m, and leaves exactly the payload unread. */
  lemma ParseImage(m: u64, k: u64, payload: seq<byte>)
    ensures ParseHeader(Image(m, k, payload)) == Ok(Header(m, k, payload))
  {
    var s := Image(m, k, payload);
    ImageLayout(m, k, payload);
    assert s[..|Magic|] + Zeros(0) == Magic;
    assert s[KOffset..][..8] + Zeros(0) == s[KOffset..SizeOffset];
    assert s[KOffset..][8..] == s[SizeOffset..];
    assert s[SizeOffset..][..8] + Zeros(0) == s[SizeOffset..PayloadOffset];
    assert s[SizeOffset..][8..] == payload;
  }

  /** Loading stops at the magic exactly when the file does not begin with the
      magic: an empty file fails the read, any other file fails the comparison
      (a short read leaves a zero where the magic's last byte, 0x02, belongs). */
  lemma MagicDecides(s: seq<byte>)
    ensures (ParseHeader(s) == Err(MagicReadFailed) || ParseHeader(s) == Err(NoMagic))
        <==> !(|s| >= |Magic| && s[..|Magic|] == Magic)
    ensures ParseHeader(s) == Err(MagicReadFailed) <==> s == []
  {
    if s != [] && |s| < |Magic| {
      var buffer := ReadInto(s, |Magic|).value.buffer;
      assert buffer[|Magic| - 1] == 0 != Magic[|Magic| - 1];
    }
    if |s| >= |Magic| && s[..|Magic|] == Magic {
      assert ReadInto(s, |Magic|).value.buffer == Magic;
    }
  }

  /** After the magic, the k read fails exactly when nothing follows it, the m
      read fails exactly when at most 8 bytes follow it, and otherwise the
      header parses, whatever the length of the fields actually present. */
  lemma FieldStages(s: seq<byte>)
    requires |s| >= |Magic| && s[..|Magic|] == Magic
    ensures ParseHeader(s) == Err(KReadFailed) <==> |s| == KOffset
    ensures ParseHeader(s) == Err(SizeReadFailed) <==> KOffset < |s| <= SizeOffset
    ensures ParseHeader(s).Ok? <==> |s| > SizeOffset
    ensures |s| >= PayloadOffset ==>
      ParseHeader(s) == Ok(Header(Uint64(s[SizeOffset..PayloadOffset]), Uint64(s[KOffset..SizeOffset]), s[PayloadOffset..]))
  {
    assert ReadInto(s, |Magic|).value.buffer == Magic;
    assert ReadInto(s, |Magic|).value.count == KOffset;
    if |s| >= PayloadOffset {
      assert s[KOffset..][..8] + Zeros(0) == s[KOffset..SizeOffset];
      assert s[KOffset..][8..] == s[SizeOffset..];
      assert s[SizeOffset..][..8] + Zeros(0) == s[SizeOffset..PayloadOffset];
      assert s[SizeOffset..][8..] == s[PayloadOffset..];
    }
  }

  /** A file cut off inside the m field still loads: the missing bytes of m
      read as zero, and no payload is left for the library. */
  lemma TruncatedSizeAccepted(k: u64, lowByte: byte)
    ensures ParseHeader(Magic + PutUint64(k) + [lowByte]) == Ok(Header(lowByte as nat, k, []))
  {
    var s := Magic + PutUint64(k) + [lowByte];
    var magic := ReadInto(s, |Magic|).value;
    assert magic.buffer == Magic && magic.count == KOffset;
    var afterMagic := s[KOffset..];
    assert afterMagic == PutUint64(k) + [lowByte];
    var kField := ReadInto(afterMagic, 8).value;
    assert kField.buffer == PutUint64(k) && kField.count == 8;
    Uint64OfPutUint64(k);
    var afterK := afterMagic[8..];
    assert afterK == [lowByte];
    var sizeField := ReadInto(afterK, 8).value;
    assert sizeField.count == 1 && afterK[1..] == [];
    LowByteValue(lowByte, sizeField.buffer);
  }

  lemma LowByteValue(b: byte, buffer: seq<byte>)
    requires buffer == [b] + Zeros(7)
    ensures Uint64(buffer) == b as nat
  {
    ZerosDecode(7);
    assert buffer[..8] == buffer && buffer[1..] == Zeros(7);
  }

  lemma {:induction false} ZerosDecode(n: nat)
    ensures Decode(Zeros(n)) == 0
  {
    if n > 0 {
      assert Zeros(n)[1..] == Zeros(n - 1);
      ZerosDecode(n - 1);
    }
  }

  /** A file that holds at least the full header of an image parses to that
      header's m and k, whatever part of the payload follows it. */
  lemma ParseImagePrefix(m: u64, k: u64, payload: seq<byte>, n: nat)
    requires PayloadOffset <= n <= |Image(m, k, payload)|
    ensures ParseHeader(Image(m, k, payload)[..n]) == Ok(Header(m, k, payload[..n - PayloadOffset]))
  {
    var s := Image(m, k, payload);
    var p := s[..n];
    ImageLayout(m, k, payload);
    assert p[..|Magic|] == Magic;
    assert p[KOffset..SizeOffset] == s[KOffset..SizeOffset];
    assert p[SizeOffset..PayloadOffset] == s[SizeOffset..PayloadOffset];
    assert p[PayloadOffset..] == payload[..n - PayloadOffset];
    FieldStages(p);
  }

  /** How many of n bytes a device with room for `room` more accepts. */
  function Fit(n: nat, room: nat): (r: nat)
    ensures r <= n && r <= room && (r == n || r == room)
  {
    if n <= room then n else room
  }

  /** An open os.File: its bytes, the read offset, and how many more bytes
      the device accepts before a write fails. */
  class File {
    var contents: seq<byte>
    var offset: nat
    var room: nat

    ghost predicate Valid()
      reads this
    {
      offset <= |contents|
    }

    /** The bytes a Read has not reached yet. */
    function Unread(): seq<byte>
      reads this
      requires Valid()
    {
      contents[offset..]
    }

    constructor Open(contents: seq<byte>, room: nat)
      ensures Valid()
      ensures this.contents == contents && offset == 0 && this.room == room
    {
      this.contents := contents;
      offset := 0;
      this.room := room;
    }

    /** os.File.Read into a fresh n-byte buffer; eof is the io.EOF error. */
    method Read(n: nat) returns (buffer: seq<byte>, count: nat, eof: bool)
      requires Valid()
      modifies this`offset
      ensures Valid()
      ensures eof <==> ReadInto(old(Unread()), n).None?
      ensures !eof ==> Chunk(buffer, count) == ReadInto(old(Unread()), n).value
      ensures offset == old(offset) + count
    {
      var r := ReadInto(Unread(), n);
      if r.None? {
        buffer, count, eof := Zeros(n), 0, true;
      } else {
        buffer, count, eof := r.value.buffer, r.value.count, false;
        offset := offset + count;
      }
    }

    /** os.File.Write: appends what fits; a short write is an error. */
    method Write(b: seq<byte>) returns (failed: bool)
      requires Valid()
      modifies this`contents, this`room
      ensures Valid()
      ensures contents == old(contents) + b[..Fit(|b|, old(room))]
      ensures room == old(room) - Fit(|b|, old(room))
      ensures failed <==> |b| > old(room)
    {
      var count := Fit(|b|, room);
      contents := contents + b[..count];
      room := room - count;
      failed := count < |b|;
    }

    /** Reopening with os.O_TRUNC: the file is emptied and read from the start. */
    method Truncate()
      modifies this`contents, this`offset
      ensures Valid() && contents == [] && offset == 0
    {
      contents, offset := [], 0;
    }
  }

  /** parseFilterFile: reads the magic, k and m, one Read each, and returns
      (size, k); an error at any stage stops it before the next Read. */
  method ParseFilterFile(file: File) returns (r: Result<(u64, u64), LoadError>)
    requires file.Valid()
    modifies file
    ensures file.Valid() && file.contents == old(file.contents) && file.room == old(file.room)
    ensures match ParseHeader(old(file.Unread()))
      case Ok(h) => r == Ok((h.m, h.k)) && file.Unread() == h.rest
      case Err(e) => r == Err(e)
  {
    ghost var s := file.Unread();
    var magicBytes, magicCount, magicEof := file.Read(|Magic|);
    if magicEof {
      return Err(MagicReadFailed);
    }
    if magicBytes != Magic {
      return Err(NoMagic);
    }
    assert file.Unread() == s[magicCount..];
    var kBytes, kCount, kEof := file.Read(8);
    if kEof {
      return Err(KReadFailed);
    }
    var k := Uint64(kBytes);
    assert file.Unread() == s[magicCount..][kCount..];
    var sizeBytes, sizeCount, sizeEof := file.Read(8);
    if sizeEof {
      return Err(SizeReadFailed);
    }
    var size := Uint64(sizeBytes);
    assert file.Unread() == s[magicCount..][kCount..][sizeCount..];
    return Ok((size, k));
  }

  datatype SaveError = MagicWriteFailed | KWriteFailed | SizeWriteFailed

  /** A filter: the willf/bloom filter, kept as the opaque payload its
      WriteTo emits and its ReadFrom consumes, and its parameters m and k. */
  class BloomFilter {
    var payload: seq<byte>
    var m: u64
    var k: u64

    /** New(m, k): records m and k beside a fresh library filter, whose
        payload (what the library would write for it) is `newPayload`. */
    constructor New(m: u64, k: u64, newPayload: seq<byte>)
      ensures this.m == m && this.k == k && payload == newPayload
    {
      this.m, this.k, payload := m, k, newPayload;
    }

    /** The zero value &BloomFilter{}: no library filter yet, m and k 0. */
    constructor Blank()
      ensures m == 0 && k == 0 && payload == []
    {
      m, k, payload := 0, 0, [];
    }

    function GetM(): (r: u64)
      reads this
      ensures r == m
    {
      m
    }

    function GetK(): (r: u64)
      reads this
      ensures r == k
    {
      k
    }

    /** Save: writes the magic, k, m and then the payload; a failed header
        write is an error, the payload write's error is ignored. On a device
        with room for n more bytes the file gains the first n bytes of the
        image, and the header write that hit the limit names the error. */
    method Save(file: File) returns (r: Result<(), SaveError>)
      requires file.Valid()
      modifies file
      ensures file.Valid() && file.offset == old(file.offset)
      ensures file.contents == old(file.contents) + Image(m, k, payload)[..Fit(PayloadOffset + |payload|, old(file.room))]
      ensures file.room == old(file.room) - Fit(PayloadOffset + |payload|, old(file.room))
      ensures r == if old(file.room) < KOffset then Err(MagicWriteFailed)
                   else if old(file.room) < SizeOffset then Err(KWriteFailed)
                   else if old(file.room) < PayloadOffset then Err(SizeWriteFailed)
                   else Ok(())
    {
      ghost var room0 := file.room;
      ghost var written := Fit(PayloadOffset + |payload|, room0);
      var failed := file.Write(Magic);
      if failed {
        ImagePrefix(m, k, payload, written);
        return Err(MagicWriteFailed);
      }
      var kBytes := PutUint64(k);
      failed := file.Write(kBytes);
      if failed {
        ImagePrefix(m, k, payload, written);
        return Err(KWriteFailed);
      }
      var sizeBytes := PutUint64(m);
      failed := file.Write(sizeBytes);
      if failed {
        ImagePrefix(m, k, payload, written);
        return Err(SizeWriteFailed);
      }
      failed := file.Write(payload);
      ImagePrefix(m, k, payload, written);
      return Ok(());
    }
  }

  /** The first n bytes of a filter file image, field by field. */
  lemma ImagePrefix(m: u64, k: u64, payload: seq<byte>, n: nat)
    requires n <= |Image(m, k, payload)|
    ensures n <= KOffset ==> Image(m, k, payload)[..n] == Magic[..n]
    ensures KOffset <= n <= SizeOffset ==> Image(m, k, payload)[..n] == Magic + PutUint64(k)[..n - KOffset]
    ensures SizeOffset <= n <= PayloadOffset ==>
      Image(m, k, payload)[..n] == Magic + PutUint64(k) + PutUint64(m)[..n - SizeOffset]
    ensures PayloadOffset <= n ==>
      Image(m, k, payload)[..n] == Magic + PutUint64(k) + PutUint64(m) + payload[..n - PayloadOffset]
  {
    var header := Magic + PutUint64(k) + PutUint64(m);
    assert Image(m, k, payload) == header + payload;
    if n <= KOffset {
      PrefixLeft(Magic, PutUint64(k) + PutUint64(m) + payload, n);
      assert header + payload == Magic + (PutUint64(k) + PutUint64(m) + payload);
    } else if n <= SizeOffset {
      PrefixRight(Magic, PutUint64(k), n);
      PrefixLeft(Magic + PutUint64(k), PutUint64(m) + payload, n);
      assert header + payload == (Magic + PutUint64(k)) + (PutUint64(m) + payload);
    } else if n <= PayloadOffset {
      PrefixRight(Magic + PutUint64(k), PutUint64(m), n);
      PrefixLeft(header, payload, n);
    } else {
      PrefixRight(header, payload, n);
    }
  }

  lemma PrefixLeft(a: seq<byte>, b: seq<byte>, n: nat)
    requires n <= |a|
    ensures (a + b)[..n] == a[..n]
  {
  }

  lemma PrefixRight(a: seq<byte>, b: seq<byte>, n: nat)
    requires |a| <= n <= |a| + |b|
    ensures (a + b)[..n] == a + b[..n - |a|]
  {
  }

  /** FromFile: opens the file (null stands for a failed open), parses the
      header into the m and k of a zero BloomFilter, then builds a library
      filter from them and lets it read the rest of the file, ignoring that
      read's error. */
  method FromFile(file: File?) returns (r: Result<BloomFilter, LoadError>)
    requires file != null ==> file.Valid() && file.offset == 0
    modifies file
    ensures file == null ==> r == Err(OpenFailed)
    ensures file != null ==> file.Valid() && file.contents == old(file.contents) && file.room == old(file.room)
    ensures file != null ==> match ParseHeader(old(file.contents))
      case Ok(h) => r.Ok? && fresh(r.value) && r.value.m == h.m && r.value.k == h.k && r.value.payload == h.rest
      case Err(e) => r == Err(e)
  {
    if file == null {
      return Err(OpenFailed);
    }
    assert file.Unread() == file.contents;
    var header := ParseFilterFile(file);
    if header.Err? {
      return Err(header.error);
    }
    var f := new BloomFilter.Blank();
    f.m, f.k := header.value.0, header.value.1;
    f.payload := file.Unread();
    file.offset := |file.contents|;
    return Ok(f);
  }
}
