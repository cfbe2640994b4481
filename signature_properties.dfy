/**
 * What `ScalaSig.parse` and `asBytes` promise together: the version check,
 * the entry framing, the trailer rule, and that a signature read and
 * written back without a rewrite comes out as it went in.
 */
module SignatureProperties {
  import opened Base
  import opened Entries
  import NatCodec
  import opened TableModel
  import opened Signature

  /** The framing of one entry: type byte, Nat(size), payload. */
  function RecordBytes(rec: Record): bytes
  {
    [rec.code] + NatCodec.Write(|rec.payload|) + rec.payload
  }

  /** The framed entries one after the other, then `trailer`. */
  function Framed(recs: seq<Record>, trailer: bytes): bytes
  {
    if |recs| == 0 then trailer else RecordBytes(recs[0]) + Framed(recs[1..], trailer)
  }

  /** A version 5.0 signature holding the given entries, then `trailer`. */
  function SignatureBytes(recs: seq<Record>, trailer: bytes): bytes
  {
    NatCodec.Write(MAJOR_VERSION) + (NatCodec.Write(MINOR_VERSION)
      + (NatCodec.Write(|recs|) + Framed(recs, trailer)))
  }

  /**
   * An entry the table writes back exactly as it read it: a link payload
   * holds one or two canonical varints and nothing else, and a
   * constant-type payload starts with a varint.
   */
  predicate Stable(rec: Record)
  {
    && (rec.code == EXT_MOD_CLASS_REF_ID ==>
          DecodeExtModClassRef(rec.payload).Success?
          && Body(DecodeExtModClassRef(rec.payload).value) == rec.payload)
    && (rec.code == CONSTANT_TYPE_ID ==> NatCodec.Read(rec.payload).Success?)
  }

  /**
   * The parse loop reads back a framed entry and leaves what follows, as
   * long as the payload is not empty or something follows it.
   */
  lemma ReadRecordBytes(rec: Record, rest: bytes)
    requires |rec.payload| > 0 || |rest| > 0
    ensures ReadRecord(RecordBytes(rec) + rest) == Success((rec, rest))
  {
    var s := RecordBytes(rec) + rest;
    var tail := rec.payload + rest;
    assert s[1..] == NatCodec.Write(|rec.payload|) + tail;
    NatCodec.ReadWrite(|rec.payload|, tail);
    assert tail[..|rec.payload|] == rec.payload;
    assert tail[|rec.payload|..] == rest;
  }

  /** A declared size larger than the bytes that remain is the EOF error. */
  lemma ReadRecordTruncated(code: byte, size: nat, data: bytes)
    requires |data| < size
    ensures ReadRecord([code] + NatCodec.Write(size) + data) == Failure(Eof)
  {
    var s := [code] + NatCodec.Write(size) + data;
    assert s[1..] == NatCodec.Write(size) + data;
    NatCodec.ReadWrite(size, data);
  }

  /** A stable entry is decoded without error and written back as it was framed. */
  lemma StableWritten(rec: Record)
    requires Stable(rec)
    ensures Interpret(rec.code, rec.payload).Success?
    ensures Entries.Write(Interpret(rec.code, rec.payload).value) == RecordBytes(rec)
  {
    if rec.code == EXT_MOD_CLASS_REF_ID {
      var e := DecodeExtModClassRef(rec.payload).value;
      assert Entries.Write(e) == [Type(e)] + NatCodec.Write(|Body(e)|) + Body(e);
    }
  }

  /** The payload a link writes is stable: canonical link payloads survive. */
  lemma CanonicalLinkStable(n: nat, s: Ref)
    ensures Stable(Record(EXT_MOD_CLASS_REF_ID, Body(ExtModClassRef(n, s, None))))
  {
    LinkRoundTrip(n, s, None);
  }

  /**
   * Two link payloads the table does not write back: a varint with a
   * redundant leading group, and bytes after the second varint.
   */
  lemma UnstableLinks(n: nat, s: nat, extra: bytes)
    requires |extra| > 0
    ensures !Stable(Record(EXT_MOD_CLASS_REF_ID, [0x80, 0x05]))
    ensures !Stable(Record(EXT_MOD_CLASS_REF_ID, NatCodec.Write(n) + NatCodec.Write(s) + extra))
  {
    var p: bytes := [0x80, 0x05];
    NatCodec.NonCanonicalAccepted();
    assert p[1..] == [5];
    assert DecodeExtModClassRef(p) == Success(ExtModClassRef(5, NO_PARENT, Some(p)));
    assert Body(DecodeExtModClassRef(p).value) == [5];
    LinkTrailingIgnored(n, s, extra);
    var q := NatCodec.Write(n) + NatCodec.Write(s) + extra;
    assert |Body(DecodeExtModClassRef(q).value)| < |q|;
  }

  /**
   * One iteration of the parse loop on a framed stable entry: the entry is
   * read and added, and it serialises to its own framing.
   */
  lemma ReadOneRecord(st: TableState, rec: Record, tail: bytes, count: nat)
    requires Stable(rec) && (|rec.payload| > 0 || |tail| > 0)
    ensures AddEntry(st, rec.code, rec.payload).Success?
    ensures var next := AddEntry(st, rec.code, rec.payload).value;
      && ReadEntries(st, RecordBytes(rec) + tail, count + 1) == ReadEntries(next, tail, count)
      && |next.entries| == |st.entries| + 1
      && Serialized(next.entries) == Serialized(st.entries) + RecordBytes(rec)
  {
    ReadRecordBytes(rec, tail);
    StableWritten(rec);
    var e := Interpret(rec.code, rec.payload).value;
    var next := AddEntry(st, rec.code, rec.payload).value;
    assert next.entries == st.entries + [e];
    assert Init(next.entries) == st.entries && Last(next.entries) == e;
  }

  /** The first iteration of a successful read: one record read and added. */
  lemma ReadEntriesStep(st: TableState, s: bytes, count: nat)
    requires count > 0 && ReadEntries(st, s, count).Success?
    ensures ReadRecord(s).Success?
    ensures var (rec, rest) := ReadRecord(s).value;
      && AddEntry(st, rec.code, rec.payload).Success?
      && ReadEntries(st, s, count) == ReadEntries(AddEntry(st, rec.code, rec.payload).value, rest, count - 1)
  {
  }

  /** Every record of the run is stable. */
  predicate AllStable(recs: seq<Record>)
  {
    |recs| == 0 || (Stable(recs[0]) && AllStable(recs[1..]))
  }

  lemma {:induction false} EveryStable(recs: seq<Record>)
    requires forall k :: 0 <= k < |recs| ==> Stable(recs[k])
    ensures AllStable(recs)
    decreases |recs|
  {
    if |recs| > 0 {
      var more := recs[1..];
      assert forall k :: 0 <= k < |more| ==> more[k] == recs[k + 1];
      EveryStable(more);
    }
  }

  /** The parse loop's first iteration over a run of framed stable entries. */
  lemma ReadFirst(st: TableState, recs: seq<Record>, trailer: bytes)
    requires |recs| > 0 && Stable(recs[0])
    requires |trailer| > 0 || |recs| > 1 || |recs[0].payload| > 0
    ensures AddEntry(st, recs[0].code, recs[0].payload).Success?
    ensures var next := AddEntry(st, recs[0].code, recs[0].payload).value;
      && ReadEntries(st, Framed(recs, trailer), |recs|)
           == ReadEntries(next, Framed(recs[1..], trailer), |recs| - 1)
      && |next.entries| == |st.entries| + 1
      && Serialized(next.entries) == Serialized(st.entries) + RecordBytes(recs[0])
  {
    var more := recs[1..];
    if |more| > 0 {
      assert Framed(more, trailer) == RecordBytes(more[0]) + Framed(more[1..], trailer);
    }
    ReadOneRecord(st, recs[0], Framed(more, trailer), |recs| - 1);
  }

  /**
   * Reading framed stable entries appends one entry per record, in order,
   * and stops exactly at what follows them.
   */
  lemma {:induction false} ReadEntriesRoundTrip(st: TableState, recs: seq<Record>, trailer: bytes)
    requires AllStable(recs)
    requires |trailer| > 0 || |recs| == 0 || |Last(recs).payload| > 0
    ensures var r := ReadEntries(st, Framed(recs, trailer), |recs|);
      && r.Success? && r.value.1 == trailer
      && |r.value.0.entries| == |st.entries| + |recs|
      && Serialized(r.value.0.entries) == Serialized(st.entries) + Framed(recs, [])
    decreases |recs|
  {
    if |recs| == 0 {
      assert Serialized(st.entries) + [] == Serialized(st.entries);
    } else {
      var more := recs[1..];
      if |more| > 0 {
        assert Last(more) == Last(recs);
      }
      ReadFirst(st, recs, trailer);
      var next := AddEntry(st, recs[0].code, recs[0].payload).value;
      ReadEntriesRoundTrip(next, more, trailer);
      Associative(Serialized(st.entries), RecordBytes(recs[0]), Framed(more, []));
    }
  }

  /** A successful read of n entries appends n entries and keeps the maps consistent. */
  lemma {:induction false} ReadEntriesAppends(st: TableState, s: bytes, count: nat)
    requires Valid(st)
    ensures var r := ReadEntries(st, s, count);
      r.Success? ==>
        && |r.value.0.entries| == |st.entries| + count
        && r.value.0.entries[..|st.entries|] == st.entries
        && Valid(r.value.0)
    decreases count
  {
    if count > 0 && ReadEntries(st, s, count).Success? {
      ReadEntriesStep(st, s, count);
      var (rec, rest) := ReadRecord(s).value;
      var next := AddEntry(st, rec.code, rec.payload).value;
      assert Valid(next) && next.entries[..|st.entries|] == st.entries by {
        AddEntryAppendsOne(st, rec.code, rec.payload);
      }
      ReadEntriesAppends(next, rest, count - 1);
      var final := ReadEntries(next, rest, count - 1).value.0.entries;
      assert final[..|st.entries|] == st.entries by {
        assert final[..|st.entries|] == final[..|next.entries|][..|st.entries|];
      }
    }
  }

  /**
   * A signature `parse` accepts has version 5.0, exactly the declared
   * number of entries, and consistent maps.
   */
  lemma DecodeAccepted(input: bytes)
    ensures Decode(input).Success? ==>
      && NatCodec.Read(input).Success?
      && NatCodec.Read(NatCodec.Read(input).value.1).Success?
      && var r2 := NatCodec.Read(NatCodec.Read(input).value.1).value.1;
      && NatCodec.Read(r2).Success?
      && var sig := Decode(input).value;
      && sig.major == MAJOR_VERSION && sig.minor == MINOR_VERSION
      && |sig.table.entries| == NatCodec.Read(r2).value.0
      && Valid(sig.table)
  {
    if Decode(input).Success? {
      var r2 := NatCodec.Read(NatCodec.Read(input).value.1).value.1;
      var (count, r3) := NatCodec.Read(r2).value;
      ReadEntriesAppends(EmptyTable, r3, count);
    }
  }

  /** Any version other than 5.0 is rejected before a single entry is read. */
  lemma VersionChecked(major: nat, minor: nat, rest: bytes)
    requires major != MAJOR_VERSION || minor != MINOR_VERSION
    ensures Decode(NatCodec.Write(major) + NatCodec.Write(minor) + rest)
      == Failure(UnsupportedVersion(major, minor))
  {
    var s := NatCodec.Write(major) + NatCodec.Write(minor) + rest;
    assert s == NatCodec.Write(major) + (NatCodec.Write(minor) + rest);
    NatCodec.ReadWrite(major, NatCodec.Write(minor) + rest);
    NatCodec.ReadWrite(minor, rest);
  }

  /** `parse` on a well-framed signature reaches the trailer check with the table read. */
  lemma DecodeFramed(recs: seq<Record>, trailer: bytes)
    requires forall k :: 0 <= k < |recs| ==> Stable(recs[k])
    requires |trailer| > 0 || |recs| == 0 || |Last(recs).payload| > 0
    ensures var r := ReadEntries(EmptyTable, Framed(recs, trailer), |recs|);
      && r.Success?
      && Decode(SignatureBytes(recs, trailer)) ==
           (if TrailerAccepted(trailer) then Success(Sig(MAJOR_VERSION, MINOR_VERSION, r.value.0))
            else Failure(TrailingData))
      && |r.value.0.entries| == |recs|
      && Serialized(r.value.0.entries) == Framed(recs, [])
  {
    var body := Framed(recs, trailer);
    var w0, wc := NatCodec.Write(MINOR_VERSION), NatCodec.Write(|recs|);
    NatCodec.ReadWrite(MAJOR_VERSION, w0 + (wc + body));
    NatCodec.ReadWrite(MINOR_VERSION, wc + body);
    NatCodec.ReadWrite(|recs|, body);
    EveryStable(recs);
    ReadEntriesRoundTrip(EmptyTable, recs, trailer);
  }

  /**
   * The trailer rule: after the declared entries `parse` accepts the end
   * of the data or a single 0 byte, and fails on anything else.
   */
  lemma TrailerRule(recs: seq<Record>, trailer: bytes)
    requires forall k :: 0 <= k < |recs| ==> Stable(recs[k])
    requires |trailer| > 0 || |recs| == 0 || |Last(recs).payload| > 0
    ensures Decode(SignatureBytes(recs, trailer)).Success? <==> (trailer == [] || trailer == [0])
    ensures Decode(SignatureBytes(recs, trailer)).Failure? ==>
      Decode(SignatureBytes(recs, trailer)).error == TrailingData
  {
    DecodeFramed(recs, trailer);
  }

  /**
   * Without a rewrite, `asBytes(parse(b))` is b without its trailing 0
   * byte, for stable entries, as long as an empty last payload is followed
   * by that 0 byte.
   */
  lemma NoOpRoundTrip(recs: seq<Record>, trailer: bytes)
    requires forall k :: 0 <= k < |recs| ==> Stable(recs[k])
    requires trailer == [] || trailer == [0]
    requires trailer == [0] || |recs| == 0 || |Last(recs).payload| > 0
    ensures Decode(SignatureBytes(recs, trailer)).Success?
    ensures Encode(Decode(SignatureBytes(recs, trailer)).value) == SignatureBytes(recs, [])
  {
    DecodeFramed(recs, trailer);
    var a, b, c := NatCodec.Write(MAJOR_VERSION), NatCodec.Write(MINOR_VERSION), NatCodec.Write(|recs|);
    var d := Framed(recs, []);
    Associative(a + b, c, d);
    Associative(a, b, c + d);
  }

  /**
   * An empty payload as the very last thing in the data fails the read with
   * the EOF error, though the same entry followed by the 0 trailer is read.
   */
  lemma EmptyLastEntry(code: byte)
    requires code != EXT_MOD_CLASS_REF_ID && code != CONSTANT_TYPE_ID
    ensures Decode(SignatureBytes([Record(code, [])], [])) == Failure(Eof)
    ensures Decode(SignatureBytes([Record(code, [])], [0])).Success?
  {
    var rec := Record(code, []);
    DecodeFramed([rec], [0]);
    var frame: bytes := [code, 0];
    assert NatCodec.Write(0) == [0] && NatCodec.Write(1) == [1];
    assert Framed([rec], []) == frame;
    NatCodec.ReadWrite(MAJOR_VERSION, NatCodec.Write(MINOR_VERSION) + ([1] + frame));
    NatCodec.ReadWrite(MINOR_VERSION, [1] + frame);
    NatCodec.ReadWrite(1, frame);
    assert frame[1..] == [0] + [];
    NatCodec.ReadWrite(0, []);
    assert ReadRecord(frame) == Failure(Eof);
  }
}
