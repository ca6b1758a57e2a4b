/** The shape shared by the three data files: a count line, then one
    record after another, read back with a bounded loop that stops at the
    first record it cannot parse. A record reader takes the remaining text
    and returns the record and what follows it. */
module Codec {
  import opened Format

  /** What the reading loop produced: the records, and whether it ran to
      its bound (true) or stopped at a record it could not parse (false). */
  datatype ReadResult<T> = ReadResult(records: seq<T>, complete: bool)

  /** What a load hands back: the count it returns and the records it
      stored in the array. */
  datatype Loaded<T> = Loaded(count: int, records: seq<T>)

  function Prepend<T>(s: seq<T>, r: ReadResult<T>): ReadResult<T> {
    ReadResult(s + r.records, r.complete)
  }

  /** The records one after another, as the save loop writes them. */
  function Concat<T>(encode: T -> string, s: seq<T>): string {
    if |s| == 0 then "" else encode(s[0]) + Concat(encode, s[1..])
  }

  /** The whole file a save writes: the count line, then the records. */
  function FileText<T>(encode: T -> string, s: seq<T>): string {
    IntToString(|s|) + "\n" + Concat(encode, s)
  }

  /** The loop `for (i = 0; i < count && i < MAX; i++)` runs this many times. */
  function ReadLimit(count: int, capacity: nat): (n: nat)
    ensures n <= capacity
    ensures count <= 0 ==> n == 0
    ensures 0 <= count <= capacity ==> n == count
    ensures count >= capacity ==> n == capacity
  {
    if count <= 0 then 0 else if count < capacity then count else capacity
  }

  /** Reads at most k records, stopping at the first that does not parse. */
  function ReadRecords<T>(parse: string -> Option<(T, string)>, s: string, k: nat): (r: ReadResult<T>)
    ensures |r.records| <= k
    ensures r.complete <==> |r.records| == k
    decreases k
  {
    if k == 0 then ReadResult([], true)
    else match parse(s)
      case None => ReadResult([], false)
      case Some((x, rest)) => Prepend([x], ReadRecords(parse, rest, k - 1))
  }

  /** load_*_from_file as written: a missing file or an unreadable count
      line gives 0; otherwise the records are read up to the bound, and the
      function returns the index of the first bad record if there is one,
      and the count line's value if there is none. */
  function LoadAsWritten<T>(parse: string -> Option<(T, string)>, capacity: nat, file: Option<string>): Loaded<T> {
    match file
    case None => Loaded(0, [])
    case Some(text) =>
      match ScanInt(text)
      case None => Loaded(0, [])
      case Some((count, rest)) =>
        var read := ReadRecords(parse, SkipSpace(rest), ReadLimit(count, capacity));
        Loaded(if read.complete then count else |read.records|, read.records)
  }

  /** The load with its count corrected to the number of records stored. */
  function Load<T>(parse: string -> Option<(T, string)>, capacity: nat, file: Option<string>): (r: Loaded<T>)
    ensures r.count == |r.records| <= capacity
    ensures r.records == LoadAsWritten(parse, capacity, file).records
    ensures 0 <= LoadAsWritten(parse, capacity, file).count <= capacity ==> r == LoadAsWritten(parse, capacity, file)
  {
    var w := LoadAsWritten(parse, capacity, file);
    Loaded(|w.records|, w.records)
  }

  lemma LoadMissingFile<T>(parse: string -> Option<(T, string)>, capacity: nat)
    ensures Load(parse, capacity, None) == Loaded(0, [])
  {
  }

  lemma LoadBadCountLine<T>(parse: string -> Option<(T, string)>, capacity: nat, text: string)
    requires ScanInt(text).None?
    ensures Load(parse, capacity, Some(text)) == Loaded(0, [])
  {
  }

  /** After a readable count line, the load keeps the records the bounded
      read yields. */
  lemma LoadReads<T>(parse: string -> Option<(T, string)>, capacity: nat, text: string, count: int, rest: string)
    requires ScanInt(text) == Some((count, rest))
    ensures var records := ReadRecords(parse, SkipSpace(rest), ReadLimit(count, capacity)).records;
      Load(parse, capacity, Some(text)) == Loaded(|records|, records)
  {
  }

  /** The record format reads back every well-formed record it writes,
      leaving the text after it untouched, and never writes a record that
      starts with whitespace. */
  ghost predicate RoundTrips<T(!new)>(parse: string -> Option<(T, string)>, encode: T -> string, wellFormed: T -> bool) {
    && (forall x :: wellFormed(x) ==> |encode(x)| > 0 && !IsSpace(encode(x)[0]))
    && (forall x, t :: wellFormed(x) && StartsClean(t) ==> parse(encode(x) + t) == Some((x, t)))
  }

  ghost predicate AllWellFormed<T>(wellFormed: T -> bool, s: seq<T>) {
    forall i :: 0 <= i < |s| ==> wellFormed(s[i])
  }

  lemma AllWellFormedSnoc<T>(wellFormed: T -> bool, s: seq<T>, x: T)
    ensures AllWellFormed(wellFormed, s + [x]) <==> AllWellFormed(wellFormed, s) && wellFormed(x)
  {
    if AllWellFormed(wellFormed, s + [x]) {
      assert (s + [x])[|s|] == x;
      forall i | 0 <= i < |s| ensures wellFormed(s[i]) {
        assert (s + [x])[i] == s[i];
      }
    }
  }

  /** Every record the record reader returns is well-formed. */
  ghost predicate ReadsOnlyWellFormed<T(!new)>(parse: string -> Option<(T, string)>, wellFormed: T -> bool) {
    forall s :: parse(s).Some? ==> wellFormed(parse(s).value.0)
  }

  lemma {:induction false} ConcatSnoc<T>(encode: T -> string, s: seq<T>, x: T)
    ensures Concat(encode, s + [x]) == Concat(encode, s) + encode(x)
  {
    if |s| == 0 {
      assert s + [x] == [x];
    } else {
      assert (s + [x])[1..] == s[1..] + [x];
      ConcatSnoc(encode, s[1..], x);
    }
  }

  lemma {:induction false} ConcatStartsClean<T>(encode: T -> string, wellFormed: T -> bool, s: seq<T>, x: string)
    requires forall y :: wellFormed(y) ==> |encode(y)| > 0 && !IsSpace(encode(y)[0])
    requires AllWellFormed(wellFormed, s) && StartsClean(x)
    ensures StartsClean(Concat(encode, s) + x)
  {
    if |s| > 0 {
      assert wellFormed(s[0]);
      assert (Concat(encode, s) + x)[0] == encode(s[0])[0];
    }
  }

  /** One record parsed and the rest read after it. */
  lemma {:induction false} ReadStep<T>(parse: string -> Option<(T, string)>, s: string, x: T, t: string, k: nat)
    requires k > 0 && parse(s) == Some((x, t))
    ensures ReadRecords(parse, s, k) == Prepend([x], ReadRecords(parse, t, k - 1))
  {
  }

  lemma PrependCons<T>(s: seq<T>, r: ReadResult<T>)
    requires |s| > 0
    ensures Prepend([s[0]], Prepend(s[1..], r)) == Prepend(s, r)
  {
    assert [s[0]] + (s[1..] + r.records) == s + r.records;
  }

  /** A record that does not parse ends the read with nothing more. */
  lemma ReadStops<T>(parse: string -> Option<(T, string)>, s: string, k: nat)
    requires k > 0 && parse(s).None?
    ensures ReadRecords(parse, s, k) == ReadResult([], false)
  {
  }

  lemma {:induction false} ParseEncoded<T(!new)>(parse: string -> Option<(T, string)>, encode: T -> string, wellFormed: T -> bool,
                                                 x: T, t: string)
    requires RoundTrips(parse, encode, wellFormed)
    requires wellFormed(x) && StartsClean(t)
    ensures parse(encode(x) + t) == Some((x, t))
  {
  }

  /** Reading k records from well-formed saved records followed by x yields
      those records, then whatever reading x yields. */
  lemma {:induction false} ReadEncoded<T(!new)>(parse: string -> Option<(T, string)>, encode: T -> string, wellFormed: T -> bool,
                                          s: seq<T>, x: string, k: nat)
    requires RoundTrips(parse, encode, wellFormed)
    requires AllWellFormed(wellFormed, s) && StartsClean(x)
    requires |s| <= k
    ensures ReadRecords(parse, Concat(encode, s) + x, k) == Prepend(s, ReadRecords(parse, x, k - |s|))
  {
    if |s| == 0 {
      assert Concat(encode, s) + x == x;
      assert s + ReadRecords(parse, x, k).records == ReadRecords(parse, x, k).records;
    } else {
      var t := Concat(encode, s[1..]) + x;
      assert Concat(encode, s) + x == encode(s[0]) + t;
      assert AllWellFormed(wellFormed, s[1..]) by {
        forall i | 0 <= i < |s[1..]| ensures wellFormed(s[1..][i]) {
          assert s[1..][i] == s[i + 1];
        }
      }
      assert RoundTrips(parse, encode, wellFormed);
      ConcatStartsClean(encode, wellFormed, s[1..], x);
      ParseEncoded(parse, encode, wellFormed, s[0], t);
      ReadStep(parse, encode(s[0]) + t, s[0], t, k);
      ReadEncoded(parse, encode, wellFormed, s[1..], x, k - 1);
      PrependCons(s, ReadRecords(parse, x, k - |s|));
    }
  }

  lemma {:induction false} HeaderThenRecords<T(!new)>(parse: string -> Option<(T, string)>, encode: T -> string, wellFormed: T -> bool,
                                                count: int, s: seq<T>, x: string)
    requires RoundTrips(parse, encode, wellFormed)
    requires AllWellFormed(wellFormed, s) && StartsClean(x)
    ensures var body := Concat(encode, s) + x;
      ScanInt(IntToString(count) + "\n" + body) == Some((count, "\n" + body)) && SkipSpace("\n" + body) == body
  {
    var body := Concat(encode, s) + x;
    assert IntToString(count) + "\n" + body == IntToString(count) + ("\n" + body);
    ScanIntOfIntToString(count, "\n" + body);
    ConcatStartsClean(encode, wellFormed, s, x);
    SkipSpaceOfClean(body);
  }

  /** Saving well-formed records and loading the file gives back the same
      records and their number. */
  lemma {:induction false} SaveThenLoad<T(!new)>(parse: string -> Option<(T, string)>, encode: T -> string, wellFormed: T -> bool,
                                           capacity: nat, s: seq<T>)
    requires RoundTrips(parse, encode, wellFormed)
    requires AllWellFormed(wellFormed, s) && |s| <= capacity
    ensures LoadAsWritten(parse, capacity, Some(FileText(encode, s))) == Loaded(|s|, s)
    ensures Load(parse, capacity, Some(FileText(encode, s))) == Loaded(|s|, s)
  {
    var body := Concat(encode, s) + "";
    assert body == Concat(encode, s);
    HeaderThenRecords(parse, encode, wellFormed, |s|, s, "");
    ReadEncoded(parse, encode, wellFormed, s, "", |s|);
    assert s + [] == s;
  }

  /** The read loop only keeps records the reader returned. */
  lemma {:induction false} ReadRecordsWellFormed<T(!new)>(parse: string -> Option<(T, string)>, wellFormed: T -> bool,
                                                       s: string, k: nat)
    requires ReadsOnlyWellFormed(parse, wellFormed)
    ensures AllWellFormed(wellFormed, ReadRecords(parse, s, k).records)
    decreases k
  {
    if k > 0 && parse(s).Some? {
      var (x, rest) := parse(s).value;
      assert wellFormed(x);
      ReadRecordsWellFormed(parse, wellFormed, rest, k - 1);
      ReadStep(parse, s, x, rest, k);
    }
  }

  /** Saving records within capacity and loading the file gives them back,
      under either load, exactly when every record is well-formed. */
  lemma {:induction false} SaveThenLoadExactlyWhenWellFormed<T(!new)>(parse: string -> Option<(T, string)>, encode: T -> string,
                                                                 wellFormed: T -> bool, capacity: nat, s: seq<T>)
    requires RoundTrips(parse, encode, wellFormed) && ReadsOnlyWellFormed(parse, wellFormed)
    requires |s| <= capacity
    ensures LoadAsWritten(parse, capacity, Some(FileText(encode, s))) == Loaded(|s|, s) <==> AllWellFormed(wellFormed, s)
    ensures Load(parse, capacity, Some(FileText(encode, s))) == Loaded(|s|, s) <==> AllWellFormed(wellFormed, s)
  {
    if AllWellFormed(wellFormed, s) {
      SaveThenLoad(parse, encode, wellFormed, capacity, s);
    } else {
      var text := FileText(encode, s);
      match ScanInt(text)
      case None =>
      case Some((count, rest)) =>
        ReadRecordsWellFormed(parse, wellFormed, SkipSpace(rest), ReadLimit(count, capacity));
    }
  }

  /** A load reads at most `capacity` records, and as written reports the
      count line's value even when that is larger. */
  lemma {:induction false} LoadBoundedByCapacity<T(!new)>(parse: string -> Option<(T, string)>, encode: T -> string, wellFormed: T -> bool,
                                                     capacity: nat, count: int, s: seq<T>)
    requires RoundTrips(parse, encode, wellFormed)
    requires AllWellFormed(wellFormed, s) && |s| == capacity < count
    ensures LoadAsWritten(parse, capacity, Some(IntToString(count) + "\n" + Concat(encode, s))) == Loaded(count, s)
    ensures Load(parse, capacity, Some(IntToString(count) + "\n" + Concat(encode, s))) == Loaded(capacity, s)
  {
    assert Concat(encode, s) + "" == Concat(encode, s);
    HeaderThenRecords(parse, encode, wellFormed, count, s, "");
    ReadEncoded(parse, encode, wellFormed, s, "", capacity);
    assert s + [] == s;
  }

  /** A negative count line reads nothing and, as written, is returned as
      the count. */
  lemma {:induction false} NegativeCountLine<T>(parse: string -> Option<(T, string)>, capacity: nat, count: int, rest: string)
    requires count < 0
    ensures LoadAsWritten(parse, capacity, Some(IntToString(count) + "\n" + rest)) == Loaded(count, [])
    ensures Load(parse, capacity, Some(IntToString(count) + "\n" + rest)) == Loaded(0, [])
  {
    assert IntToString(count) + "\n" + rest == IntToString(count) + ("\n" + rest);
    ScanIntOfIntToString(count, "\n" + rest);
  }

  /** A file whose record after the well-formed records s does not parse
      loads exactly s, and the load returns |s|: a silent partial load. */
  lemma {:induction false} LoadStopsAtBadRecord<T(!new)>(parse: string -> Option<(T, string)>, encode: T -> string, wellFormed: T -> bool,
                                                   capacity: nat, count: int, s: seq<T>, x: string)
    requires RoundTrips(parse, encode, wellFormed)
    requires AllWellFormed(wellFormed, s) && StartsClean(x) && parse(x).None?
    requires |s| < ReadLimit(count, capacity)
    ensures LoadAsWritten(parse, capacity, Some(IntToString(count) + "\n" + (Concat(encode, s) + x))) == Loaded(|s|, s)
  {
    assert IntToString(count) + "\n" + (Concat(encode, s) + x) == IntToString(count) + "\n" + Concat(encode, s) + x;
    HeaderThenRecords(parse, encode, wellFormed, count, s, x);
    ReadEncoded(parse, encode, wellFormed, s, x, ReadLimit(count, capacity));
    assert s + [] == s;
  }
}
