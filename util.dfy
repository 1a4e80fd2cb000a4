/** The maintenance tool (bloomserver-util): the action and argument checks
    of its command line, the file-size estimate, and the create, add and
    show actions over the filter file. */
module Util {
  import opened Results
  import opened LittleEndian
  import Decimal
  import BloomFilter

  /** The smallest q with a <= b * q. */
  function CeilDiv(a: nat, b: nat): (q: nat)
    requires b > 0
    ensures a <= b * q
    ensures q == 0 || b * (q - 1) < a
  {
    (a + b - 1) / b
  }

  lemma CeilDivUnique(a: nat, b: nat, q: nat)
    requires b > 0
    requires a <= b * q && (q == 0 || b * (q - 1) < a)
    ensures q == CeilDiv(a, b)
  {
    var c := CeilDiv(a, b);
    if c < q {
      MulMonotone(b, c, q - 1);
    } else if q < c {
      MulMonotone(b, q, c - 1);
    }
  }

  lemma MulMonotone(b: nat, x: nat, y: nat)
    requires x <= y
    ensures b * x <= b * y
  {
    assert b * y == b * x + b * (y - x);
  }

  /** Rounding up to bytes and then to 8-byte words is rounding up to 64-bit
      words. */
  lemma CeilDivTwice(m: nat)
    ensures CeilDiv(CeilDiv(m, 8), 8) == CeilDiv(m, 64)
  {
    var q := CeilDiv(m, 8);
    var r := CeilDiv(q, 8);
    assert m <= 64 * r by {
      assert 8 * q <= 8 * (8 * r);
    }
    if r > 0 {
      assert 8 * (r - 1) <= q - 1;
      assert 64 * (r - 1) <= 8 * (q - 1);
    }
    CeilDivUnique(m, 64, r);
  }

  /** The size the estimate action reports for m bits: the header (magic, k
      and m) plus the bits stored in whole 64-bit words. */
  function EstimatedFileSize(m: nat): nat {
    8 * CeilDiv(m, 64) + BloomFilter.PayloadOffset
  }

  /** The estimate action's arithmetic once m is known: mBytes is m/8
      rounded up, mBytesInUint64 that rounded up to a multiple of 8, and the
      size adds the magic and 16 bytes for k and m. */
  method EstimateSize(m: u64) returns (mBytes: nat, mBytesInUint64: nat, estimatedBytesSize: nat)
    ensures mBytes == CeilDiv(m, 8)
    ensures mBytesInUint64 % 8 == 0 && mBytes <= mBytesInUint64 < mBytes + 8
    ensures estimatedBytesSize == EstimatedFileSize(m)
    ensures estimatedBytesSize < Uint64Bound
  {
    mBytes := m / 8;
    if m % 8 != 0 {
      mBytes := mBytes + 1;
    }
    CeilDivUnique(m, 8, mBytes);
    mBytesInUint64 := 8 * (mBytes / 8);
    if mBytes % 8 != 0 {
      mBytesInUint64 := mBytesInUint64 + 8;
    }
    CeilDivUnique(mBytes, 8, mBytesInUint64 / 8);
    CeilDivTwice(m);
    estimatedBytesSize := mBytesInUint64 + |BloomFilter.Magic| + 16;
  }

  /** More bits never give a smaller estimate. */
  lemma EstimateMonotone(m1: nat, m2: nat)
    requires m1 <= m2
    ensures EstimatedFileSize(m1) <= EstimatedFileSize(m2)
  {
    var q1, q2 := CeilDiv(m1, 64), CeilDiv(m2, 64);
    if q1 > 0 {
      assert 64 * (q1 - 1) < 64 * q2;
    }
  }

  /** The estimate is the size of the file Save writes when the library's
      payload is the bit array in whole 64-bit words. */
  lemma EstimateIsImageSize(m: u64, k: u64, payload: seq<byte>)
    requires |payload| == 8 * CeilDiv(m, 64)
    ensures |BloomFilter.Image(m, k, payload)| == EstimatedFileSize(m)
  {
  }

  /** What a valid command line asks for. */
  datatype Action =
    | Create(filterFile: string, m: u64, k: u64)
    | Add(filterFile: string, wordListFile: string)
    | Estimate(n: u64, falsePositiveRate: string)
    | Show(filterFile: string)

  datatype CommandError =
    | NoAction               // no positional argument
    | WrongArity             // the action's argument count is wrong
    | NoFilterFile           // -bloom-filter-file is empty
    | BadM | BadK            // create: m or k is not a 64-bit unsigned decimal
    | BadN                   // estimate: n is not a 64-bit unsigned decimal
    | BadFalsePositiveRate   // estimate: p is not a float
    | UnknownAction

  /** The number of positional arguments, the action included, each action
      takes; 0 for a word that is not an action. */
  function Arity(action: string): nat {
    if action == "create" || action == "estimate" then 3
    else if action == "add" then 2
    else if action == "show" then 1
    else 0
  }

  /** main's checks on the positional arguments (the action first) and the
      -bloom-filter-file flag, in the order it makes them; isFloat stands for
      strconv.ParseFloat succeeding. */
  function ParseCommand(args: seq<string>, filterFile: string, isFloat: string -> bool): (r: Result<Action, CommandError>)
    ensures args == [] <==> r == Err(NoAction)
    ensures args != [] && Arity(args[0]) == 0 ==> r == Err(UnknownAction)
    ensures args != [] && Arity(args[0]) != 0 && |args| != Arity(args[0]) ==> r == Err(WrongArity)
    ensures r.Ok? ==> |args| == Arity(args[0]) > 0
    ensures r.Ok? && !r.value.Estimate? ==> filterFile != "" && r.value.filterFile == filterFile
    ensures r.Ok? ==> (r.value.Estimate? <==> args[0] == "estimate")
  {
    if args == [] then Err(NoAction)
    else if args[0] == "create" then
      if |args| != 3 then Err(WrongArity)
      else if filterFile == "" then Err(NoFilterFile)
      else match (ParseUint64(args[1]), ParseUint64(args[2]))
        case (None, _) => Err(BadM)
        case (_, None) => Err(BadK)
        case (Some(m), Some(k)) => Ok(Create(filterFile, m, k))
    else if args[0] == "add" then
      if |args| != 2 then Err(WrongArity)
      else if filterFile == "" then Err(NoFilterFile)
      else Ok(Add(filterFile, args[1]))
    else if args[0] == "estimate" then
      if |args| != 3 then Err(WrongArity)
      else match ParseUint64(args[1])
        case None => Err(BadN)
        case Some(n) => if !isFloat(args[2]) then Err(BadFalsePositiveRate) else Ok(Estimate(n, args[2]))
    else if args[0] == "show" then
      if |args| != 1 then Err(WrongArity)
      else if filterFile == "" then Err(NoFilterFile)
      else Ok(Show(filterFile))
    else Err(UnknownAction)
  }

  /** strconv.ParseUint(s, 10, 0): a decimal that fits in a 64-bit uint. */
  function ParseUint64(s: string): (r: Option<u64>)
    ensures r.Some? <==> Decimal.ParseUint(s, 64).Some?
    ensures r.Some? ==> r.value == Decimal.ParseUint(s, 64).value
  {
    Decimal.Pow2Bounds();
    match Decimal.ParseUint(s, 64)
    case None => None
    case Some(v) => Some(v)
  }

  /** The estimate action needs no filter file: n and p are all it reads. */
  lemma EstimateNeedsNoFilterFile(n: u64, p: string, isFloat: string -> bool)
    requires isFloat(p)
    ensures ParseCommand(["estimate", Decimal.FormatUint(n), p], "", isFloat) == Ok(Estimate(n, p))
  {
    Decimal.Pow2Bounds();
    Decimal.ParseFormat(n, 64);
  }

  /** create accepts any two 64-bit decimals and keeps m and k in order. */
  lemma CreateArguments(filterFile: string, m: u64, k: u64, isFloat: string -> bool)
    requires filterFile != ""
    ensures ParseCommand(["create", Decimal.FormatUint(m), Decimal.FormatUint(k)], filterFile, isFloat)
            == Ok(Create(filterFile, m, k))
  {
    Decimal.Pow2Bounds();
    Decimal.ParseFormat(m, 64);
    Decimal.ParseFormat(k, 64);
  }

  datatype RunError =
    | CreateFailed                     // os.OpenFile for writing failed
    | LoadFailed(load: BloomFilter.LoadError)
    | SaveFailed(save: BloomFilter.SaveError)
    | WordListFailed                   // the word list could not be opened or scanned

  /** What saveToFile leaves in a device with room for `room` bytes, and
      what it reports. */
  function SaveOutcome(room: nat): Result<(), BloomFilter.SaveError> {
    if room < BloomFilter.KOffset then Err(BloomFilter.MagicWriteFailed)
    else if room < BloomFilter.SizeOffset then Err(BloomFilter.KWriteFailed)
    else if room < BloomFilter.PayloadOffset then Err(BloomFilter.SizeWriteFailed)
    else Ok(())
  }

  /** saveToFile: opens the file truncated (null stands for a failed open)
      and saves the filter into it. */
  method SaveToFile(f: BloomFilter.BloomFilter, file: BloomFilter.File?) returns (r: Result<(), RunError>)
    requires file != null ==> file.Valid()
    modifies file
    ensures file == null ==> r == Err(CreateFailed)
    ensures file != null ==> file.Valid() && file.room == old(file.room) - BloomFilter.Fit(BloomFilter.PayloadOffset + |f.payload|, old(file.room))
    ensures file != null ==>
      file.contents == BloomFilter.Image(f.m, f.k, f.payload)[..BloomFilter.Fit(BloomFilter.PayloadOffset + |f.payload|, old(file.room))]
    ensures file != null ==>
      r == match SaveOutcome(old(file.room)) case Ok(_) => Ok(()) case Err(e) => Err(SaveFailed(e))
  {
    if file == null {
      return Err(CreateFailed);
    }
    file.Truncate();
    var saved := f.Save(file);
    if saved.Err? {
      return Err(SaveFailed(saved.error));
    }
    return Ok(());
  }

  /** The create action: a new filter with m and k saved to the file; newPayload
      is what the library writes for its new, empty filter. Once the header
      fits the action succeeds, even when the payload is cut off. */
  method RunCreate(m: u64, k: u64, newPayload: seq<byte>, file: BloomFilter.File?) returns (r: Result<(), RunError>)
    requires file != null ==> file.Valid()
    modifies file
    ensures file == null ==> r == Err(CreateFailed)
    ensures file != null ==> file.Valid()
    ensures file != null ==>
      file.contents == BloomFilter.Image(m, k, newPayload)[..BloomFilter.Fit(BloomFilter.PayloadOffset + |newPayload|, old(file.room))]
    ensures file != null ==>
      r == match SaveOutcome(old(file.room)) case Ok(_) => Ok(()) case Err(e) => Err(SaveFailed(e))
  {
    var f := new BloomFilter.BloomFilter.New(m, k, newPayload);
    r := SaveToFile(f, file);
  }

  /** The show action: loads the file and reports its m and k. */
  method RunShow(file: BloomFilter.File?) returns (r: Result<(u64, u64), RunError>)
    requires file != null ==> file.Valid() && file.offset == 0
    modifies file
    ensures file == null ==> r == Err(LoadFailed(BloomFilter.OpenFailed))
    ensures file != null ==> match BloomFilter.ParseHeader(old(file.contents))
      case Ok(h) => r == Ok((h.m, h.k))
      case Err(e) => r == Err(LoadFailed(e))
  {
    var loaded := BloomFilter.FromFile(file);
    if loaded.Err? {
      return Err(LoadFailed(loaded.error));
    }
    var f := loaded.value;
    return Ok((f.GetM(), f.GetK()));
  }

  /** The library's payload after adding each word in turn. */
  function AddAll(add: (seq<byte>, string) -> seq<byte>, payload: seq<byte>, words: seq<string>): seq<byte>
    decreases |words|
  {
    if words == [] then payload else AddAll(add, add(payload, words[0]), words[1..])
  }

  lemma {:induction false} AddAllSnoc(add: (seq<byte>, string) -> seq<byte>, payload: seq<byte>,
                                      words: seq<string>, word: string)
    ensures AddAll(add, payload, words + [word]) == add(AddAll(add, payload, words), word)
    decreases |words|
  {
    if words != [] {
      assert (words + [word])[1..] == words[1..] + [word];
      AddAllSnoc(add, add(payload, words[0]), words[1..], word);
    }
  }

  /** The add action: loads the filter, adds every line of the word list
      through the library (add stands for Filter.Add on the payload), and
      saves the filter back with the m and k it was loaded with. None for
      the word list stands for a failure to open or scan it, which aborts
      before anything is saved. */
  method RunAdd(file: BloomFilter.File?, wordList: Option<seq<string>>,
                add: (seq<byte>, string) -> seq<byte>)
    returns (r: Result<(), RunError>)
    requires file != null ==> file.Valid() && file.offset == 0
    modifies file
    ensures file == null ==> r == Err(LoadFailed(BloomFilter.OpenFailed))
    ensures file != null ==> match BloomFilter.ParseHeader(old(file.contents))
      case Err(e) => r == Err(LoadFailed(e)) && file.contents == old(file.contents)
      case Ok(h) =>
        if wordList.None? then r == Err(WordListFailed) && file.contents == old(file.contents)
        else
          var image := BloomFilter.Image(h.m, h.k, AddAll(add, h.rest, wordList.value));
          file.contents == image[..BloomFilter.Fit(|image|, old(file.room))] &&
          r == match SaveOutcome(old(file.room)) case Ok(_) => Ok(()) case Err(e) => Err(SaveFailed(e))
  {
    var loaded := BloomFilter.FromFile(file);
    if loaded.Err? {
      return Err(LoadFailed(loaded.error));
    }
    var f: BloomFilter.BloomFilter := loaded.value;
    if wordList.None? {
      return Err(WordListFailed);
    }
    var words := wordList.value;
    ghost var payload0 := f.payload;
    var i := 0;
    while i < |words|
      invariant i <= |words|
      invariant f.payload == AddAll(add, payload0, words[..i])
      modifies f`payload
    {
      AddAllSnoc(add, payload0, words[..i], words[i]);
      assert words[..i + 1] == words[..i] + [words[i]];
      f.payload := add(f.payload, words[i]);
      i := i + 1;
    }
    assert words[..i] == words;
    r := SaveToFile(f, file);
  }

  /** create followed by show on the same file reports the m and k given to
      create, once the device has room for the header, however much of the
      library's payload fits after it. */
  method CreateThenShow(m: u64, k: u64, newPayload: seq<byte>, room: nat)
    returns (created: Result<(), RunError>, shown: Result<(u64, u64), RunError>)
    ensures room >= BloomFilter.PayloadOffset ==> created == Ok(()) && shown == Ok((m, k))
    ensures room < BloomFilter.PayloadOffset ==> created.Err?
  {
    var file := new BloomFilter.File.Open([], room);
    created := RunCreate(m, k, newPayload, file);
    file.offset := 0;
    if room >= BloomFilter.PayloadOffset {
      BloomFilter.ParseImagePrefix(m, k, newPayload, BloomFilter.Fit(BloomFilter.PayloadOffset + |newPayload|, room));
    }
    shown := RunShow(file);
  }
}
