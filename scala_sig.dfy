/**
 * The `ScalaSig` class of ScalaSig.java: a version pair and a table, read
 * from and written back to the pickled signature bytes.
 *
 * A signature is Nat(major) Nat(minor) Nat(count), then `count` entries,
 * each a type byte, Nat(size) and `size` payload bytes, and optionally one
 * trailing 0 byte.
 */
module Signature {
  import opened Base
  import opened Entries
  import NatCodec
  import opened TableModel
  import Tables

  /** The only signature version `parse` accepts, 5.0. */
  const MAJOR_VERSION: nat := 5
  const MINOR_VERSION: nat := 0

  /** One table entry as the parse loop reads it: its type code and payload. */
  datatype Record = Record(code: byte, payload: bytes)

  /** A parsed signature as a value: the version pair and the table state. */
  datatype Sig = Sig(major: nat, minor: nat, table: TableState)

  /**
   * One iteration of the parse loop: `bis.read()` for the type, `Nat.read`
   * for the size, then `bis.read(raw, 0, size)`, which must deliver exactly
   * `size` bytes. At the end of the data that last read answers -1 even
   * for a size of 0, so an empty payload cannot be the last thing read.
   */
  function ReadRecord(s: bytes): (r: Result<(Record, bytes)>)
    ensures r.Failure? ==> r.error == Eof
    ensures r.Success? ==>
      var (rec, rest) := r.value;
      && |rest| + |rec.payload| < |s|
      && rec.code == s[0]
      && (|rec.payload| > 0 || |rest| > 0)
  {
    if |s| == 0 then Failure(Eof)
    else
      NatCodec.ReadConsumes(s[1..]);
      var (size, rest) :- NatCodec.Read(s[1..]);
      var got := if |rest| == 0 then -1 else if size <= |rest| then size else |rest|;
      if got != size then Failure(Eof)
      else Success((Record(s[0], rest[..size]), rest[size..]))
  }

  /**
   * A record read splits the input: after the type byte comes a varint
   * holding the payload's size, then the payload, then the bytes left.
   */
  lemma ReadRecordSplits(s: bytes)
    ensures ReadRecord(s).Success? ==>
      var (rec, rest) := ReadRecord(s).value;
      && NatCodec.Read(s[1..]) == Success((|rec.payload|, rec.payload + rest))
      && s[|s| - |rest| - |rec.payload|..] == rec.payload + rest
  {
    if ReadRecord(s).Success? {
      NatCodec.ReadConsumes(s[1..]);
      var (size, tail) := NatCodec.Read(s[1..]).value;
      assert tail == tail[..size] + tail[size..];
    }
  }

  /** `count` iterations of the parse loop, each handing its entry to `addEntry`. */
  function ReadEntries(st: TableState, s: bytes, count: nat): (r: Result<(TableState, bytes)>)
    ensures r.Failure? ==> r.error == Eof
    ensures r.Success? ==> |r.value.0.entries| == |st.entries| + count && |r.value.1| <= |s|
    decreases count
  {
    if count == 0 then Success((st, s))
    else
      var (rec, rest) :- ReadRecord(s);
      var next :- AddEntry(st, rec.code, rec.payload);
      ReadEntries(next, rest, count - 1)
  }

  /** One iteration of the parse loop: its failure ends the read, its success continues it. */
  lemma ReadEntriesNext(st: TableState, s: bytes, count: nat)
    requires count > 0
    ensures ReadRecord(s).Failure? ==> ReadEntries(st, s, count) == Failure(ReadRecord(s).error)
    ensures ReadRecord(s).Success? ==>
      var (rec, rest) := ReadRecord(s).value;
      var next := AddEntry(st, rec.code, rec.payload);
      && (next.Failure? ==> ReadEntries(st, s, count) == Failure(next.error))
      && (next.Success? ==> ReadEntries(st, s, count) == ReadEntries(next.value, rest, count - 1))
  {
  }

  /** After the entries: the end of the data, or one 0 byte and then the end. */
  predicate TrailerAccepted(rest: bytes)
  {
    rest == [] || rest == [0]
  }

  /**
   * `parse(in)`: both version numbers are read, then checked before any
   * entry is read; then the declared number of entries; then the trailer.
   */
  function Decode(input: bytes): (r: Result<Sig>)
    ensures r.Failure? ==> r.error == Eof || r.error == TrailingData || r.error.UnsupportedVersion?
    ensures r.Success? ==> r.value.major == MAJOR_VERSION && r.value.minor == MINOR_VERSION
  {
    var (major, r1) :- NatCodec.Read(input);
    var (minor, r2) :- NatCodec.Read(r1);
    if major != MAJOR_VERSION || minor != MINOR_VERSION then Failure(UnsupportedVersion(major, minor))
    else
      var (count, r3) :- NatCodec.Read(r2);
      var (table, rest) :- ReadEntries(EmptyTable, r3, count);
      if TrailerAccepted(rest) then Success(Sig(major, minor, table)) else Failure(TrailingData)
  }

  /** `asBytes()`: the two version numbers, then the table's `write` output. */
  function Encode(sig: Sig): (r: bytes)
    ensures var h1 := NatCodec.Read(r);
      && h1.Success? && h1.value.0 == sig.major
      && var h2 := NatCodec.Read(h1.value.1);
      && h2.Success? && h2.value.0 == sig.minor
      && var h3 := NatCodec.Read(h2.value.1);
      && h3.Success? && h3.value.0 == |sig.table.entries|
      && h3.value.1 == Serialized(sig.table.entries)
  {
    var body := Serialized(sig.table.entries);
    var tail := NatCodec.Write(|sig.table.entries|) + body;
    var afterMajor := NatCodec.Write(sig.minor) + tail;
    NatCodec.ReadWrite(sig.major, afterMajor);
    NatCodec.ReadWrite(sig.minor, tail);
    NatCodec.ReadWrite(|sig.table.entries|, body);
    NatCodec.Write(sig.major) + afterMajor
  }

  /** The outcome of the entry loop: its error, or the table it built and the bytes after it. */
  function Reached(r: Result<bytes>, st: TableState): Result<(TableState, bytes)>
  {
    if r.Failure? then Failure(r.error) else Success((st, r.value))
  }

  /**
   * The entry loop of `parse`: `count` times, read one entry and hand it to
   * the table's `addEntry`; the first failure ends the parse.
   */
  method ReadTable(table: Tables.Table, data: bytes, count: nat) returns (r: Result<bytes>)
    requires table.Valid()
    modifies table
    ensures table.Valid()
    ensures Reached(r, table.State()) == ReadEntries(old(table.State()), data, count)
  {
    ghost var expected := ReadEntries(table.State(), data, count);
    var rest := data;
    var left := count;
    while left > 0
      invariant table.Valid()
      invariant ReadEntries(table.State(), rest, left) == expected
    {
      ReadEntriesNext(table.State(), rest, left);
      var read := ReadRecord(rest);
      if read.Failure? {
        return Failure(read.error);
      }
      var (record, next) := read.value;
      var added := table.AddEntry(record.code, record.payload);
      if added.Fail? {
        return Failure(added.error);
      }
      rest := next;
      left := left - 1;
    }
    r := Success(rest);
  }

  class ScalaSig {
    const majorVersion: nat
    const minorVersion: nat
    const table: Tables.Table

    /** The private constructor: the fields are final. */
    constructor (majorVersion: nat, minorVersion: nat, table: Tables.Table)
      ensures this.majorVersion == majorVersion && this.minorVersion == minorVersion
      ensures this.table == table
    {
      this.majorVersion := majorVersion;
      this.minorVersion := minorVersion;
      this.table := table;
    }

    ghost predicate Valid()
      reads this, table
    {
      table.Valid()
    }

    /** The signature as a value. */
    function Value(): Sig
      reads this, table
    {
      Sig(majorVersion, minorVersion, table.State())
    }

    /**
     * `parse(in)`: read the versions, build a fresh table entry by entry
     * through `addEntry`, and check the trailer.
     */
    static method Parse(input: bytes) returns (r: Result<ScalaSig>)
      ensures Decode(input).Failure? ==> r == Failure(Decode(input).error)
      ensures Decode(input).Success? ==>
        && r.Success? && fresh(r.value) && fresh(r.value.table)
        && r.value.Value() == Decode(input).value && r.value.Valid()
    {
      var first := NatCodec.Read(input);
      if first.Failure? {
        return Failure(first.error);
      }
      var (major, r1) := first.value;
      var second := NatCodec.Read(r1);
      if second.Failure? {
        return Failure(second.error);
      }
      var (minor, r2) := second.value;
      if major != MAJOR_VERSION || minor != MINOR_VERSION {
        return Failure(UnsupportedVersion(major, minor));
      }
      var third := NatCodec.Read(r2);
      if third.Failure? {
        return Failure(third.error);
      }
      var (count, r3) := third.value;
      var table := new Tables.Table();
      var read := ReadTable(table, r3, count);
      if read.Failure? {
        return Failure(read.error);
      }
      var rest := read.value;
      var trail := if |rest| == 0 then -1 else rest[0];
      if trail == 0 {
        trail := if |rest| == 1 then -1 else rest[1];
      }
      if trail != -1 {
        return Failure(TrailingData);
      }
      var sig := new ScalaSig(major, minor, table);
      r := Success(sig);
    }

    /** `replace(replace, with)`: the table's rewrite, and its count. */
    method Replace(path: bytes, parts: seq<bytes>) returns (r: Result<nat>)
      requires |parts| > 0 && Valid()
      modifies table
      ensures (table.entries, r) == ReplaceOutcome(old(table.State()), path, parts)
      ensures table.termNames == old(table.termNames) && table.classRefs == old(table.classRefs)
      ensures table.constantTypes == old(table.constantTypes)
      ensures Valid()
    {
      r := table.Replace(path, parts);
    }

    /** `asBytes()`. */
    method AsBytes() returns (out: bytes)
      ensures out == Encode(Value())
    {
      out := NatCodec.Write(majorVersion) + NatCodec.Write(minorVersion);
      var written := table.Write();
      out := out + written;
    }
  }
}
