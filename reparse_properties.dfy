/**
 * What the serialised table means when it is read again: `parse` of the
 * bytes `asBytes` writes gives back the same entries, each name and link
 * now carrying the bytes it was read from, with every name, link and
 * constant type registered; so a link resolves on the re-read table
 * exactly as `ResolveWritten` says.
 */
module ReparseProperties {
  import opened Base
  import opened Entries
  import NatCodec
  import opened TableModel
  import opened Signature
  import SignatureProperties
  import RewriteProperties
  import Text

  /**
   * An entry `parse` reads back as itself: a raw entry does not carry one
   * of the three decoded codes, and a constant type's first varint is its
   * reference.
   */
  predicate Rereadable(e: Entry)
  {
    && (e.Raw? ==> e.code != TERM_NAME_ID && e.code != EXT_MOD_CLASS_REF_ID && e.code != CONSTANT_TYPE_ID)
    && (e.ConstantType? ==> NatCodec.Read(e.raw).Success? && NatCodec.Read(e.raw).value.0 == e.constRef)
  }

  /** Every entry of the run is rereadable. */
  predicate AllRereadable(entries: seq<Entry>)
  {
    forall k :: 0 <= k < |entries| ==> Rereadable(entries[k])
  }

  /** The entry read back from what `e` writes: a name or link now carries those bytes. */
  function Reread(e: Entry): Entry
  {
    match e
    case TermName(name, _) => TermName(name, Some(name))
    case ExtModClassRef(n, s, _) => ExtModClassRef(n, s, Some(Body(e)))
    case _ => e
  }

  /** Each entry of the run read back from its own bytes. */
  function Rereads(entries: seq<Entry>): (r: seq<Entry>)
    ensures |r| == |entries|
    ensures forall k :: 0 <= k < |entries| ==> r[k] == Reread(entries[k])
  {
    if |entries| == 0 then [] else Rereads(Init(entries)) + [Reread(Last(entries))]
  }

  /** Every index holding a constant type. */
  function ConstantSet(entries: seq<Entry>): set<nat>
  {
    set k: nat | k < |entries| && entries[k].ConstantType?
  }

  /** The table `parse` builds from the serialised entries. */
  function Reparsed(entries: seq<Entry>): TableState
  {
    TableState(Rereads(entries), NameSet(entries), LinkSet(entries), ConstantSet(entries))
  }

  /** `addEntry` on the bytes a rereadable entry writes decodes that entry again. */
  lemma InterpretWritten(e: Entry)
    requires Rereadable(e)
    ensures Interpret(Type(e), Body(e)) == Success(Reread(e))
  {
    if e.ExtModClassRef? {
      LinkRoundTrip(e.nameRef, e.symbolRef, e.source);
    }
  }

  /** Adding the next written entry extends the re-read table by that entry. */
  lemma ReparsedNext(entries: seq<Entry>, j: nat)
    requires j < |entries| && Rereadable(entries[j])
    ensures AddEntry(Reparsed(entries[..j]), Type(entries[j]), Body(entries[j]))
      == Success(Reparsed(entries[..j + 1]))
  {
    var e := entries[j];
    var before, after := entries[..j], entries[..j + 1];
    var code := Type(e);
    InterpretWritten(e);
    assert Init(after) == before && Last(after) == e;
    assert Rereads(after) == Rereads(before) + [Reread(e)];
    assert NameSet(after) == if code == TERM_NAME_ID then NameSet(before) + {j} else NameSet(before) by {
      forall k: nat ensures k in NameSet(after) <==> k in NameSet(before) || (k == j && e.TermName?) {
        if k < j { assert after[k] == before[k]; }
      }
    }
    assert LinkSet(after) == if code == EXT_MOD_CLASS_REF_ID then LinkSet(before) + {j} else LinkSet(before) by {
      forall k: nat ensures k in LinkSet(after) <==> k in LinkSet(before) || (k == j && e.ExtModClassRef?) {
        if k < j { assert after[k] == before[k]; }
      }
    }
    assert ConstantSet(after) == if code == CONSTANT_TYPE_ID then ConstantSet(before) + {j} else ConstantSet(before) by {
      forall k: nat ensures k in ConstantSet(after) <==> k in ConstantSet(before) || (k == j && e.ConstantType?) {
        if k < j { assert after[k] == before[k]; }
      }
    }
    assert |Rereads(before)| == j;
  }

  /** A non-empty run of entries serialises to at least one byte. */
  lemma SerializedNonEmpty(entries: seq<Entry>)
    requires |entries| > 0
    ensures |Serialized(entries)| > 0
  {
  }

  /** Serialising a run is writing its first entry, then serialising the rest. */
  lemma SerializedFront(entries: seq<Entry>, j: nat)
    requires j < |entries|
    ensures Serialized(entries[j..]) == Write(entries[j]) + Serialized(entries[j + 1..])
  {
    var e, tail := entries[j], entries[j + 1..];
    assert entries[j..] == [e] + tail;
    SerializedAppend([e], tail);
    assert Serialized([e]) == Write(e) by {
      assert Init([e]) == [] && Last([e]) == e;
    }
  }

  /** One iteration of the parse loop, given the record it reads and the table it builds. */
  lemma ReadStep(st: TableState, s: bytes, count: nat, rec: Record, rest: bytes, next: TableState)
    requires count > 0 && ReadRecord(s) == Success((rec, rest))
    requires AddEntry(st, rec.code, rec.payload) == Success(next)
    ensures ReadEntries(st, s, count) == ReadEntries(next, rest, count - 1)
  {
    ReadEntriesNext(st, s, count);
  }

  /** The parse loop reads entry j's framing back from the serialised entries. */
  lemma ReadRecordWritten(entries: seq<Entry>, j: nat, trailer: bytes)
    requires j < |entries|
    requires |trailer| > 0 || j + 1 < |entries| || |Body(entries[j])| > 0
    ensures ReadRecord(Serialized(entries[j..]) + trailer)
      == Success((Record(Type(entries[j]), Body(entries[j])), Serialized(entries[j + 1..]) + trailer))
  {
    var e := entries[j];
    var rec := Record(Type(e), Body(e));
    var front, tail := Serialized(entries[j..]), Serialized(entries[j + 1..]);
    SerializedFramed(entries, j, trailer);
    assert |rec.payload| > 0 || |tail + trailer| > 0 by {
      if j + 1 < |entries| {
        SerializedNonEmpty(entries[j + 1..]);
      }
    }
    ReadFramed(front + trailer, rec, tail + trailer);
  }

  /** The serialised entries from j on frame entry j, then the rest. */
  lemma SerializedFramed(entries: seq<Entry>, j: nat, trailer: bytes)
    requires j < |entries|
    ensures Serialized(entries[j..]) + trailer
      == SignatureProperties.RecordBytes(Record(Type(entries[j]), Body(entries[j])))
           + (Serialized(entries[j + 1..]) + trailer)
  {
    var w, tail := Write(entries[j]), Serialized(entries[j + 1..]);
    SerializedFront(entries, j);
    assert w == SignatureProperties.RecordBytes(Record(Type(entries[j]), Body(entries[j])));
    Associative(w, tail, trailer);
  }

  /** Bytes that frame a record are read back as that record. */
  lemma ReadFramed(s: bytes, rec: Record, rest: bytes)
    requires s == SignatureProperties.RecordBytes(rec) + rest
    requires |rec.payload| > 0 || |rest| > 0
    ensures ReadRecord(s) == Success((rec, rest))
  {
    SignatureProperties.ReadRecordBytes(rec, rest);
  }

  /** One iteration of the parse loop over the serialised entries reads entry j back. */
  lemma ReadOneWritten(entries: seq<Entry>, j: nat, trailer: bytes)
    requires j < |entries| && Rereadable(entries[j])
    requires |trailer| > 0 || j + 1 < |entries| || |Body(entries[j])| > 0
    ensures ReadEntries(Reparsed(entries[..j]), Serialized(entries[j..]) + trailer, |entries| - j)
      == ReadEntries(Reparsed(entries[..j + 1]), Serialized(entries[j + 1..]) + trailer, |entries| - j - 1)
  {
    ReadRecordWritten(entries, j, trailer);
    ReparsedNext(entries, j);
    ReadStep(Reparsed(entries[..j]), Serialized(entries[j..]) + trailer, |entries| - j,
             Record(Type(entries[j]), Body(entries[j])), Serialized(entries[j + 1..]) + trailer,
             Reparsed(entries[..j + 1]));
  }

  /**
   * The parse loop, part way through the serialised entries, reads the
   * rest of them back and stops at the trailer.
   */
  lemma {:induction false} ReadWritten(entries: seq<Entry>, j: nat, trailer: bytes)
    requires j <= |entries| && AllRereadable(entries)
    requires |trailer| > 0 || |entries| == 0 || |Body(Last(entries))| > 0
    ensures ReadEntries(Reparsed(entries[..j]), Serialized(entries[j..]) + trailer, |entries| - j)
      == Success((Reparsed(entries), trailer))
    decreases |entries| - j
  {
    if j == |entries| {
      assert entries[..j] == entries;
      assert Serialized(entries[j..]) + trailer == trailer;
    } else {
      assert j + 1 == |entries| ==> entries[j] == Last(entries);
      ReadOneWritten(entries, j, trailer);
      ReadWritten(entries, j + 1, trailer);
    }
  }

  /**
   * `parse(asBytes())` of a version 5.0 signature whose entries are all
   * rereadable, and whose last entry writes a non-empty body, gives back
   * the same entries, names and links carrying the bytes they were read
   * from, with every name, link and constant type registered in its map.
   */
  lemma ReparseWritten(sig: Sig)
    requires sig.major == MAJOR_VERSION && sig.minor == MINOR_VERSION
    requires AllRereadable(sig.table.entries)
    requires |sig.table.entries| == 0 || |Body(Last(sig.table.entries))| > 0
    ensures Decode(Encode(sig)) == Success(Sig(MAJOR_VERSION, MINOR_VERSION, Reparsed(sig.table.entries)))
  {
    var entries := sig.table.entries;
    ReadWritten(entries, 0, []);
    assert Reparsed(entries[..0]) == EmptyTable;
    assert entries[0..] == entries;
    assert Serialized(entries) + [] == Serialized(entries);
  }

  /** Resolution looks only at kinds, names and refs, which rereading keeps. */
  lemma {:induction false} ResolveRereads(entries: seq<Entry>, n: nat, s: Ref, fuel: nat)
    ensures ResolveRefs(Rereads(entries), NameSet(entries), LinkSet(entries), n, s, fuel)
      == ResolveRefs(entries, NameSet(entries), LinkSet(entries), n, s, fuel)
    decreases fuel
  {
    var again := Rereads(entries);
    assert NameAt(again, NameSet(entries), n) == NameAt(entries, NameSet(entries), n);
    assert s != NO_PARENT ==> (LinkAt(again, LinkSet(entries), s) <==> LinkAt(entries, LinkSet(entries), s));
    if s != NO_PARENT && LinkAt(entries, LinkSet(entries), s) && fuel > 0 {
      ResolveRereads(entries, entries[s].nameRef, entries[s].symbolRef, fuel - 1);
    }
  }

  /**
   * On the re-read table every link resolves through the maps exactly as
   * `ResolveWritten` resolves it on the serialised entries.
   */
  lemma ReparsedResolves(entries: seq<Entry>, i: nat)
    requires i < |entries| && entries[i].ExtModClassRef?
    ensures var t := Reparsed(entries);
      && i < |t.entries| && t.entries[i].ExtModClassRef?
      && Resolve(t, i) == ResolveWritten(entries, i)
  {
    ResolveRereads(entries, entries[i].nameRef, entries[i].symbolRef, |entries|);
  }

  /** Every entry `parse` builds is rereadable. */
  lemma {:induction false} ReadEntriesRereadable(st: TableState, s: bytes, count: nat)
    requires AllRereadable(st.entries)
    ensures ReadEntries(st, s, count).Success? ==> AllRereadable(ReadEntries(st, s, count).value.0.entries)
    decreases count
  {
    if count > 0 && ReadEntries(st, s, count).Success? {
      var (rec, rest) := ReadRecord(s).value;
      var next := AddEntry(st, rec.code, rec.payload).value;
      var e := Interpret(rec.code, rec.payload).value;
      assert next.entries == st.entries + [e];
      ReadEntriesRereadable(next, rest, count - 1);
    }
  }

  /** A signature `parse` accepts holds only rereadable entries. */
  lemma DecodeRereadable(input: bytes)
    requires Decode(input).Success?
    ensures AllRereadable(Decode(input).value.table.entries)
  {
    var r2 := NatCodec.Read(NatCodec.Read(input).value.1).value.1;
    var (count, r3) := NatCodec.Read(r2).value;
    ReadEntriesRereadable(EmptyTable, r3, count);
  }

  /**
   * `replace` keeps every entry rereadable: old entries keep their kind,
   * raw and constant-type entries are untouched, and what it appends is
   * names and links.
   */
  lemma ReplaceRereadable(st: TableState, path: bytes, parts: seq<bytes>)
    requires Valid(st) && |parts| > 0 && AllRereadable(st.entries)
    ensures AllRereadable(ReplaceOutcome(st, path, parts).0)
  {
    var after := ReplaceOutcome(st, path, parts).0;
    if GraphPass(st, path, parts).Success? {
      RewriteProperties.GraphPassKeeps(st, path, parts);
      RewriteProperties.GraphPassNoPayload(st, path, parts);
      var e1 := GraphPass(st, path, parts).value.0;
      var sel := Selected(st.(entries := e1), path, |e1|);
      RewriteProperties.ReplaceOutcomeCases(st, path, parts);
      RewriteProperties.LiteralPassKeeps(e1, sel, path, Text.Join(parts), after);
      forall k | 0 <= k < |after|
        ensures Rereadable(after[k])
      {
        assert Kept(e1[k], after[k]);
        if k < |st.entries| {
          assert Kept(st.entries[k], e1[k]);
        }
      }
    }
  }

  /**
   * After `replace` on a parsed signature, with the replacement's path
   * free of cycles, reading back what `asBytes` writes gives a table in
   * which every link that matched the old path resolves, through the maps,
   * to the new one.
   */
  lemma ReplaceThenReparse(sig: Sig, path: bytes, parts: seq<bytes>)
    requires sig.major == MAJOR_VERSION && sig.minor == MINOR_VERSION
    requires Valid(sig.table) && |parts| > 0 && !RewriteProperties.HasCycle(sig.table)
    requires AllRereadable(sig.table.entries)
    requires var after := ReplaceOutcome(sig.table, path, parts).0;
      |after| == 0 || |Body(Last(after))| > 0
    ensures var after := ReplaceOutcome(sig.table, path, parts).0;
      var t := Reparsed(after);
      && Decode(Encode(sig.(table := sig.table.(entries := after)))) == Success(Sig(MAJOR_VERSION, MINOR_VERSION, t))
      && forall i :: i in RewriteProperties.MatchSet(sig.table, path) ==>
           i < |t.entries| && t.entries[i].ExtModClassRef? && Resolve(t, i) == Path(Text.Join(parts))
  {
    var after := ReplaceOutcome(sig.table, path, parts).0;
    ReplaceRereadable(sig.table, path, parts);
    ReparseWritten(sig.(table := sig.table.(entries := after)));
    RewriteProperties.ReplaceRepoints(sig.table, path, parts);
    forall i | i in RewriteProperties.MatchSet(sig.table, path)
      ensures var t := Reparsed(after);
        i < |t.entries| && t.entries[i].ExtModClassRef? && Resolve(t, i) == Path(Text.Join(parts))
    {
      ReparsedResolves(after, i);
    }
  }
}
