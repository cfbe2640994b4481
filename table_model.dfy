/**
 * The value-level model of Table.java: the table's state, the effect of
 * `addEntry`, namespace resolution, and the two passes of `replace`. The
 * `Table` class in table.dfy runs these step by step on its fields and is
 * proved to end in the states defined here.
 */
module TableModel {
  import opened Base
  import opened Entries
  import NatCodec
  import Text

  /**
   * The entries, addressed by position, and the indices registered in the
   * three maps `termNameMap`, `extModClassRefEntriesMap` and
   * `constantTypeEntryMap`. The Java maps hold the same objects as the list,
   * so a map lookup is a lookup in `entries` at a registered index.
   */
  datatype TableState = TableState(
    entries: seq<Entry>,
    termNames: set<nat>,
    classRefs: set<nat>,
    constantTypes: set<nat>)

  const EmptyTable := TableState([], {}, {}, {})

  /** Every registered index is in range and holds the kind its map holds. */
  predicate Valid(st: TableState)
  {
    && (forall i :: i in st.termNames ==> i < |st.entries| && st.entries[i].TermName?)
    && (forall i :: i in st.classRefs ==> i < |st.entries| && st.entries[i].ExtModClassRef?)
    && (forall i :: i in st.constantTypes ==> i < |st.entries| && st.entries[i].ConstantType?)
  }

  /** An entry keeps its kind, its `type()` and its `payload()`. */
  predicate Kept(before: Entry, after: Entry)
  {
    && after.TermName? == before.TermName?
    && after.ExtModClassRef? == before.ExtModClassRef?
    && after.ConstantType? == before.ConstantType?
    && after.Raw? == before.Raw?
    && Type(after) == Type(before)
    && Payload(after) == Payload(before)
    && (before.Raw? || before.ConstantType? ==> after == before)
  }

  // ---------------------------------------------------------------- addEntry

  /** The switch of `addEntry`: codes 1, 10 and 15 are decoded, all others kept raw. */
  function Interpret(code: byte, raw: bytes): Result<Entry>
  {
    if code == TERM_NAME_ID then Success(DecodeTermName(raw))
    else if code == EXT_MOD_CLASS_REF_ID then DecodeExtModClassRef(raw)
    else if code == CONSTANT_TYPE_ID then DecodeConstantType(raw)
    else Success(NewRaw(code, raw))
  }

  /** `addEntry(type, raw)`: append the entry and register it in its map. */
  function AddEntry(st: TableState, code: byte, raw: bytes): (r: Result<TableState>)
    ensures r.Failure? ==> r.error == Eof
    ensures r.Success? ==>
      |r.value.entries| == |st.entries| + 1 && r.value.entries[..|st.entries|] == st.entries
  {
    var e :- Interpret(code, raw);
    var i := |st.entries|;
    assert (st.entries + [e])[..i] == st.entries;
    Success(TableState(
      st.entries + [e],
      if code == TERM_NAME_ID then st.termNames + {i} else st.termNames,
      if code == EXT_MOD_CLASS_REF_ID then st.classRefs + {i} else st.classRefs,
      if code == CONSTANT_TYPE_ID then st.constantTypes + {i} else st.constantTypes))
  }

  /**
   * `addEntry` fails, with the EOF error, only when a link or a
   * constant-type payload does not hold the varints it needs.
   */
  lemma AddEntryFails(st: TableState, code: byte, raw: bytes)
    ensures var r := AddEntry(st, code, raw);
      && (r.Failure? <==>
            (code == EXT_MOD_CLASS_REF_ID && DecodeExtModClassRef(raw).Failure?)
            || (code == CONSTANT_TYPE_ID && NatCodec.Read(raw).Failure?))
      && (r.Failure? ==> r.error == Eof)
  {
    if code == EXT_MOD_CLASS_REF_ID {
      assert AddEntry(st, code, raw).Failure? <==> DecodeExtModClassRef(raw).Failure?;
    }
  }

  /**
   * A successful `addEntry` appends exactly one entry, at the old size,
   * whose `type()` is the code and whose `payload()` is the raw bytes;
   * codes 1, 10 and 15 are registered under that index and every other
   * code (2 included) becomes a raw entry.
   */
  lemma AddEntryAppendsOne(st: TableState, code: byte, raw: bytes)
    requires Valid(st) && AddEntry(st, code, raw).Success?
    ensures var st' := AddEntry(st, code, raw).value;
      var i := |st.entries|;
      && |st'.entries| == i + 1
      && st'.entries[..i] == st.entries
      && Type(st'.entries[i]) == code
      && Payload(st'.entries[i]) == Some(raw)
      && (st'.entries[i].Raw? <==> code !in {TERM_NAME_ID, EXT_MOD_CLASS_REF_ID, CONSTANT_TYPE_ID})
      && st'.termNames == st.termNames + (if code == TERM_NAME_ID then {i} else {})
      && st'.classRefs == st.classRefs + (if code == EXT_MOD_CLASS_REF_ID then {i} else {})
      && st'.constantTypes == st.constantTypes + (if code == CONSTANT_TYPE_ID then {i} else {})
      && Valid(st')
  {
    var st' := AddEntry(st, code, raw).value;
    var e := Interpret(code, raw).value;
    assert st'.entries == st.entries + [e];
    assert st'.entries[..|st.entries|] == st.entries;
  }

  // ------------------------------------------------------------------ write

  /** The `write` output of each entry in turn, in index order. */
  function Serialized(entries: seq<Entry>): bytes
  {
    if |entries| == 0 then [] else Serialized(Init(entries)) + Write(Last(entries))
  }

  /** Serialising one more entry of a table appends that entry's bytes. */
  lemma SerializedNext(entries: seq<Entry>, i: nat)
    requires i < |entries|
    ensures Serialized(entries[..i + 1]) == Serialized(entries[..i]) + Write(entries[i])
  {
    assert Init(entries[..i + 1]) == entries[..i];
  }

  /** Serialising two runs of entries is serialising each, one after the other. */
  lemma {:induction false} SerializedAppend(a: seq<Entry>, b: seq<Entry>)
    ensures Serialized(a + b) == Serialized(a) + Serialized(b)
    decreases |b|
  {
    if |b| > 0 {
      assert Init(a + b) == a + Init(b);
      assert Last(a + b) == Last(b);
      SerializedAppend(a, Init(b));
    } else {
      assert a + b == a;
    }
  }

  // ------------------------------------------------------------- resolution

  /** What `resolveClassRef` yields; `Cyclic` stands for unbounded recursion. */
  datatype Resolution = Path(text: bytes) | Unresolved | Cyclic

  /** `termNameMap.get(i).name()`, or `None` where the map holds no entry. */
  function NameAt(entries: seq<Entry>, names: set<nat>, i: nat): Option<bytes>
  {
    if i in names && i < |entries| && entries[i].TermName? then Some(entries[i].name) else None
  }

  /** `extModClassRefEntriesMap.get(i) != null`. */
  predicate LinkAt(entries: seq<Entry>, links: set<nat>, i: nat)
  {
    i in links && i < |entries| && entries[i].ExtModClassRef?
  }

  /**
   * `resolveClassRef` on a link with the given refs: a missing name or a
   * missing parent is a failure, and a parent whose own resolution failed
   * contributes the text "null". The Java method recurses without bound;
   * here `fuel` bounds the depth and its exhaustion is `Cyclic`.
   */
  function ResolveRefs(entries: seq<Entry>, names: set<nat>, links: set<nat>,
                       nameRef: nat, symbolRef: Ref, fuel: nat): (r: Resolution)
    ensures NameAt(entries, names, nameRef).None? ==> r == Unresolved
    ensures symbolRef != NO_PARENT && !LinkAt(entries, links, symbolRef) ==> r == Unresolved
    ensures symbolRef == NO_PARENT && NameAt(entries, names, nameRef).Some? ==>
      r == Path(NameAt(entries, names, nameRef).value)
    decreases fuel
  {
    match NameAt(entries, names, nameRef)
    case None => Unresolved
    case Some(name) =>
      if symbolRef == NO_PARENT then Path(name)
      else if !LinkAt(entries, links, symbolRef) then Unresolved
      else if fuel == 0 then Cyclic
      else
        var parent := entries[symbolRef];
        match ResolveRefs(entries, names, links, parent.nameRef, parent.symbolRef, fuel - 1)
        case Cyclic => Cyclic
        case Unresolved => Path(Text.NULL_TEXT + [Text.DOT] + name)
        case Path(base) => Path(base + [Text.DOT] + name)
  }

  /**
   * The fuel only cuts off recursion: once a resolution ends without
   * running out, more fuel gives the same answer.
   */
  lemma {:induction false} ResolveFuelStable(entries: seq<Entry>, names: set<nat>, links: set<nat>,
                                             nameRef: nat, symbolRef: Ref, fuel: nat, fuel': nat)
    requires fuel <= fuel'
    requires ResolveRefs(entries, names, links, nameRef, symbolRef, fuel) != Cyclic
    ensures ResolveRefs(entries, names, links, nameRef, symbolRef, fuel')
         == ResolveRefs(entries, names, links, nameRef, symbolRef, fuel)
    decreases fuel
  {
    if NameAt(entries, names, nameRef).Some? && symbolRef != NO_PARENT
       && LinkAt(entries, links, symbolRef) && fuel > 0 {
      var parent := entries[symbolRef];
      ResolveFuelStable(entries, names, links, parent.nameRef, parent.symbolRef, fuel - 1, fuel' - 1);
    }
  }

  /** `resolveClassRef` of the link at index i, through the registered maps. */
  function Resolve(st: TableState, i: nat): (r: Resolution)
    requires i < |st.entries| && st.entries[i].ExtModClassRef?
    ensures NameAt(st.entries, st.termNames, st.entries[i].nameRef).None? ==> r == Unresolved
    ensures st.entries[i].symbolRef != NO_PARENT && !LinkAt(st.entries, st.classRefs, st.entries[i].symbolRef)
      ==> r == Unresolved
    ensures r.Path? && st.entries[i].symbolRef == NO_PARENT ==>
      r.text == NameAt(st.entries, st.termNames, st.entries[i].nameRef).value
  {
    var e := st.entries[i];
    ResolveRefs(st.entries, st.termNames, st.classRefs, e.nameRef, e.symbolRef, |st.entries|)
  }

  /**
   * The namespace a link denotes in the serialised table: resolution in
   * which every name entry and every link counts, registered or not.
   */
  function ResolveWritten(entries: seq<Entry>, i: nat): Resolution
    requires i < |entries| && entries[i].ExtModClassRef?
  {
    ResolveRefs(entries, NameSet(entries), LinkSet(entries),
                entries[i].nameRef, entries[i].symbolRef, |entries|)
  }

  /** Every index holding a name entry. */
  function NameSet(entries: seq<Entry>): set<nat>
  {
    set k: nat | k < |entries| && entries[k].TermName?
  }

  /** Every index holding a namespace link. */
  function LinkSet(entries: seq<Entry>): set<nat>
  {
    set k: nat | k < |entries| && entries[k].ExtModClassRef?
  }

  // -------------------------------------------------------------- graph pass

  /** A registered link that resolves to exactly `path`. */
  predicate IsMatch(st: TableState, path: bytes, i: nat)
  {
    i in st.classRefs && i < |st.entries| && st.entries[i].ExtModClassRef?
    && Resolve(st, i) == Path(path)
  }

  /** A registered link whose resolution does not terminate. */
  predicate IsCyclic(st: TableState, i: nat)
  {
    i in st.classRefs && i < |st.entries| && st.entries[i].ExtModClassRef?
    && Resolve(st, i) == Cyclic
  }

  /**
   * The first loop of `replace` over the registered links with index below
   * n, in ascending order: the list `matched`.
   */
  function Matches(st: TableState, path: bytes, n: nat): (r: Result<seq<nat>>)
    requires n <= |st.entries|
    ensures r.Failure? ==> r.error == CyclicReference
    ensures r.Success? ==> Increasing(r.value) && forall x :: x in r.value ==> x < n
  {
    if n == 0 then Success([])
    else
      var prev :- Matches(st, path, n - 1);
      var i := n - 1;
      if i in st.classRefs && st.entries[i].ExtModClassRef? then
        match Resolve(st, i)
        case Cyclic => Failure(CyclicReference)
        case Unresolved => Success(prev)
        case Path(p) =>
          if p == path then
            assert forall k :: 0 <= k < |prev| ==> prev[k] in prev;
            Success(prev + [i])
          else Success(prev)
      else Success(prev)
  }

  predicate Increasing(m: seq<nat>)
  {
    forall a, b :: 0 <= a < b < |m| ==> m[a] < m[b]
  }

  /**
   * The graph pass collects exactly the registered links that resolve to
   * the old path (no prefix matches), each once and in ascending order, and
   * it fails exactly when some registered link has a cyclic parent chain.
   */
  lemma {:induction false} MatchesExact(st: TableState, path: bytes, n: nat)
    requires n <= |st.entries|
    ensures Matches(st, path, n).Failure? <==> exists i: nat :: i < n && IsCyclic(st, i)
    ensures Matches(st, path, n).Failure? ==> Matches(st, path, n).error == CyclicReference
    ensures Matches(st, path, n).Success? ==>
      var m := Matches(st, path, n).value;
      && Increasing(m)
      && (forall i :: i in m ==> i < n && IsMatch(st, path, i))
      && (forall i: nat :: i < n && IsMatch(st, path, i) ==> i in m)
  {
    MatchesFails(st, path, n);
    if Matches(st, path, n).Success? {
      MatchesList(st, path, n);
    }
  }

  /** The scan fails, on a cyclic reference, exactly when a scanned link is cyclic. */
  lemma {:induction false} MatchesFails(st: TableState, path: bytes, n: nat)
    requires n <= |st.entries|
    ensures Matches(st, path, n).Failure? <==> exists i: nat :: i < n && IsCyclic(st, i)
    ensures Matches(st, path, n).Failure? ==> Matches(st, path, n).error == CyclicReference
  {
    if n > 0 {
      MatchesFails(st, path, n - 1);
      if !IsCyclic(st, n - 1) {
        assert forall k: nat :: k < n && IsCyclic(st, k) ==> k < n - 1;
      }
    }
  }

  /** A successful scan lists the matches below n, ascending. */
  lemma {:induction false} MatchesList(st: TableState, path: bytes, n: nat)
    requires n <= |st.entries| && Matches(st, path, n).Success?
    ensures var m := Matches(st, path, n).value;
      && Increasing(m)
      && (forall i :: i in m ==> i < n && IsMatch(st, path, i))
      && (forall i: nat :: i < n && IsMatch(st, path, i) ==> i in m)
  {
    if n > 0 {
      MatchesStep(st, path, n);
      MatchesList(st, path, n - 1);
      var prev := Matches(st, path, n - 1).value;
      assert forall x :: x in prev ==> x < n - 1;
      assert forall k :: 0 <= k < |prev| ==> prev[k] in prev;
    }
  }

  /** One step of the scan adds the link it looks at exactly when that link matches. */
  lemma MatchesStep(st: TableState, path: bytes, n: nat)
    requires 0 < n <= |st.entries| && Matches(st, path, n).Success?
    ensures Matches(st, path, n - 1).Success?
    ensures Matches(st, path, n).value ==
      Matches(st, path, n - 1).value + (if IsMatch(st, path, n - 1) then [n - 1] else [])
  {
  }

  /** Once the scan has failed, it stays failed. */
  lemma {:induction false} MatchesFailureStays(st: TableState, path: bytes, n: nat, n': nat)
    requires n <= n' <= |st.entries|
    requires Matches(st, path, n).Failure?
    ensures Matches(st, path, n') == Matches(st, path, n)
    decreases n' - n
  {
    if n < n' {
      MatchesFailureStays(st, path, n, n' - 1);
    }
  }

  /**
   * `addClassRef(with)`: a fresh chain for the components, parent first.
   * Each component is a name entry followed by a link naming it and
   * pointing at the link added just before, the first one at no parent.
   */
  function Chain(base: nat, parts: seq<bytes>): (r: seq<Entry>)
    requires |parts| > 0
    ensures |r| == 2 * |parts|
    decreases |parts|
  {
    var front := if |parts| > 1 then Chain(base, Init(parts)) else [];
    var parent: Ref := if |parts| > 1 then base + |front| - 1 else NO_PARENT;
    front + [NewTermName(Last(parts)), NewExtModClassRef(base + |front|, parent)]
  }

  /**
   * Component j of a chain appended at `base` is the name entry at
   * base + 2j and the link at base + 2j + 1 naming it, whose parent is the
   * link just before (none for the first component).
   */
  lemma {:induction false} ChainAt(base: nat, parts: seq<bytes>, j: nat)
    requires j < |parts|
    ensures Chain(base, parts)[2 * j] == NewTermName(parts[j])
    ensures Chain(base, parts)[2 * j + 1] ==
      NewExtModClassRef(base + 2 * j, if j == 0 then NO_PARENT else base + 2 * j - 1)
    decreases |parts|
  {
    if j < |parts| - 1 {
      ChainAt(base, Init(parts), j);
      var front := Chain(base, Init(parts));
      assert Chain(base, parts)[..|front|] == front;
    }
  }

  /** The index of the link `updateClassRef` leaves the matched link pointing at. */
  function NewParent(size: nat, parts: seq<bytes>): Ref
    requires |parts| > 0
  {
    if |parts| > 1 then size + 2 * |parts| - 2 else NO_PARENT
  }

  /**
   * The entries `updateClassRef` appends to a table of `size` entries: a
   * name for the last component, then the chain for the others.
   */
  function Appended(size: nat, parts: seq<bytes>): (r: seq<Entry>)
    requires |parts| > 0
    ensures |r| == 2 * |parts| - 1
  {
    [NewTermName(Last(parts))] + (if |parts| > 1 then Chain(size + 1, Init(parts)) else [])
  }

  /**
   * `updateClassRef(ref, with)`: append a name for the last component, a
   * fresh chain for the others, and repoint the matched link at them.
   */
  function RewriteLink(entries: seq<Entry>, i: nat, parts: seq<bytes>): (r: seq<Entry>)
    requires i < |entries| && entries[i].ExtModClassRef? && |parts| > 0
    ensures |r| == |entries| + 2 * |parts| - 1
    ensures forall j :: 0 <= j < |entries| && j != i ==> r[j] == entries[j]
    ensures forall j :: 0 <= j < |entries| ==> Kept(entries[j], r[j])
    ensures r[|entries|..] == Appended(|entries|, parts)
    ensures r[i] == Update(entries[i], |entries|, NewParent(|entries|, parts))
  {
    var grown := entries + Appended(|entries|, parts);
    assert grown[|entries|..] == Appended(|entries|, parts);
    grown[i := Update(entries[i], |entries|, NewParent(|entries|, parts))]
  }

  /** `RewriteLink` appends its entries first and then updates the matched link. */
  lemma RewriteLinkSteps(entries: seq<Entry>, i: nat, parts: seq<bytes>, grown: seq<Entry>)
    requires i < |entries| && entries[i].ExtModClassRef? && |parts| > 0
    requires grown == entries + Appended(|entries|, parts)
    ensures RewriteLink(entries, i, parts) == grown[i := Update(grown[i], |entries|, NewParent(|entries|, parts))]
  {
  }

  /** Every index of `m` is a link of `entries`. */
  predicate AllLinks(entries: seq<Entry>, m: seq<nat>)
  {
    forall j :: 0 <= j < |m| ==> m[j] < |entries| && entries[m[j]].ExtModClassRef?
  }

  /** The second loop of `replace`: `updateClassRef` for each match in turn. */
  function RewriteAll(entries: seq<Entry>, m: seq<nat>, parts: seq<bytes>): seq<Entry>
    requires |parts| > 0 && AllLinks(entries, m)
    decreases |m|
  {
    if |m| == 0 then entries
    else
      var next := RewriteLink(entries, m[0], parts);
      KeptLinks(entries, next, m[1..]);
      RewriteAll(next, m[1..], parts)
  }

  /** Links stay links while every entry is kept. */
  lemma KeptLinks(entries: seq<Entry>, next: seq<Entry>, m: seq<nat>)
    requires |entries| <= |next| && AllLinks(entries, m)
    requires forall j :: 0 <= j < |entries| ==> Kept(entries[j], next[j])
    ensures AllLinks(next, m)
  {
    forall j | 0 <= j < |m|
      ensures m[j] < |next| && next[m[j]].ExtModClassRef?
    {
      assert Kept(entries[m[j]], next[m[j]]);
    }
  }

  /** The graph pass: collect the matches, then rewrite each. */
  function GraphPass(st: TableState, path: bytes, parts: seq<bytes>): (r: Result<(seq<Entry>, nat)>)
    requires |parts| > 0
    ensures r.Failure? ==> r.error == CyclicReference
  {
    var m :- Matches(st, path, |st.entries|);
    MatchesExact(st, path, |st.entries|);
    assert AllLinks(st.entries, m) by {
      forall j | 0 <= j < |m|
        ensures m[j] < |st.entries| && st.entries[m[j]].ExtModClassRef?
      {
        assert m[j] in m;
      }
    }
    Success((RewriteAll(st.entries, m, parts), |m|))
  }

  // ------------------------------------------------------------ literal pass

  /**
   * `findOutWhatItIs(entry, list, replace)`: only a string literal (type 33,
   * necessarily a raw entry) is looked at. Its first varint names an entry
   * whose payload text is selected when it starts with the old path; the
   * other literal kinds are ignored.
   */
  function FindOutWhatItIs(entries: seq<Entry>, e: Entry, path: bytes): (r: Result<Option<nat>>)
    ensures !(e.Raw? && e.code == LITERAL_STRING) ==> r == Success(None)
    ensures e.Raw? && e.code == LITERAL_STRING ==>
      var read := NatCodec.Read(e.raw);
      && (read.Failure? ==> r == Failure(Eof))
      && (read.Success? && read.value.0 >= |entries| ==> r == Failure(IndexOutOfRange(read.value.0)))
      && (read.Success? && read.value.0 < |entries| && Payload(entries[read.value.0]).None? ==>
            r == Failure(NullPayload(read.value.0)))
    ensures r.Failure? ==> r.error == Eof || r.error.IndexOutOfRange? || r.error.NullPayload?
    ensures (r.Success? && r.value.Some?) <==>
      && e.Raw? && e.code == LITERAL_STRING && NatCodec.Read(e.raw).Success?
      && Selectable(entries, path, NatCodec.Read(e.raw).value.0)
    ensures r.Success? && r.value.Some? ==> r.value.value == NatCodec.Read(e.raw).value.0
  {
    match e
    case Raw(code, raw) =>
      if code != LITERAL_STRING then Success(None)
      else
        var (index, _) :- NatCodec.Read(raw);
        if index >= |entries| then Failure(IndexOutOfRange(index))
        else (
          match Payload(entries[index])
          case None => Failure(NullPayload(index))
          case Some(text) => Success(if Text.StartsWith(text, path) then Some(index) else None))
    case _ => Success(None)
  }

  /**
   * The third loop of `replace`, over the registered constant types with
   * index below n, in ascending order: the list `entriesToRelocate`.
   */
  function Selected(st: TableState, path: bytes, n: nat): (r: Result<seq<nat>>)
    requires n <= |st.entries|
    ensures r.Failure? ==> r.error == Eof || r.error.IndexOutOfRange? || r.error.NullPayload?
    ensures r.Success? ==> forall k :: 0 <= k < |r.value| ==> Selectable(st.entries, path, r.value[k])
  {
    if n == 0 then Success([])
    else
      var prev :- Selected(st, path, n - 1);
      var i := n - 1;
      if i in st.constantTypes && st.entries[i].ConstantType? then
        var c := st.entries[i].constRef;
        if c >= |st.entries| then Failure(IndexOutOfRange(c))
        else
          var found :- FindOutWhatItIs(st.entries, st.entries[c], path);
          Success(if found.Some? then prev + [found.value] else prev)
      else Success(prev)
  }

  /** Once the scan has failed, it stays failed. */
  lemma {:induction false} SelectedFailureStays(st: TableState, path: bytes, n: nat, n': nat)
    requires n <= n' <= |st.entries|
    requires Selected(st, path, n).Failure?
    ensures Selected(st, path, n') == Selected(st, path, n)
    decreases n' - n
  {
    if n < n' {
      SelectedFailureStays(st, path, n, n' - 1);
    }
  }

  /**
   * The registered constant wrapper at i makes the literal scan throw: its
   * reference is past the end, or `findOutWhatItIs` throws on the entry it
   * refers to.
   */
  predicate LiteralFault(st: TableState, path: bytes, i: nat)
  {
    && i in st.constantTypes && i < |st.entries| && st.entries[i].ConstantType?
    && (|| st.entries[i].constRef >= |st.entries|
        || FindOutWhatItIs(st.entries, st.entries[st.entries[i].constRef], path).Failure?)
  }

  /** The exception a faulty constant wrapper raises. */
  function FaultError(st: TableState, path: bytes, i: nat): Error
    requires LiteralFault(st, path, i)
  {
    var c := st.entries[i].constRef;
    if c >= |st.entries| then IndexOutOfRange(c)
    else FindOutWhatItIs(st.entries, st.entries[c], path).error
  }

  /**
   * The literal scan fails exactly when a scanned constant wrapper is
   * faulty, and then with the exception of the first faulty one.
   */
  lemma {:induction false} SelectedFails(st: TableState, path: bytes, n: nat)
    requires n <= |st.entries|
    ensures Selected(st, path, n).Failure? <==> exists i: nat :: i < n && LiteralFault(st, path, i)
    ensures Selected(st, path, n).Failure? ==>
      exists i: nat :: && i < n && LiteralFault(st, path, i)
                       && Selected(st, path, n).error == FaultError(st, path, i)
                       && forall k: nat :: k < i ==> !LiteralFault(st, path, k)
  {
    if n > 0 {
      SelectedFails(st, path, n - 1);
      if Selected(st, path, n - 1).Success? {
        assert forall k: nat :: k < n && LiteralFault(st, path, k) ==> k == n - 1;
        if LiteralFault(st, path, n - 1) {
          assert Selected(st, path, n).error == FaultError(st, path, n - 1);
        }
      }
    }
  }

  /** A selected index holds a payload that starts with the old path. */
  predicate Selectable(entries: seq<Entry>, path: bytes, i: nat)
  {
    i < |entries| && Payload(entries[i]).Some? && Text.StartsWith(Payload(entries[i]).value, path)
  }

  /**
   * The last loop of `replace`: each selected entry must be a name entry
   * (otherwise the cast fails) and is renamed to its ORIGINAL payload text
   * with every occurrence of the old path replaced. Renames done before a
   * failure stay done.
   */
  function RelocateAll(entries: seq<Entry>, list: seq<nat>, path: bytes, replacement: bytes)
    : (r: (seq<Entry>, Option<Error>))
    ensures |r.0| == |entries|
    ensures r.1.Some? ==> r.1.value.IndexOutOfRange? || r.1.value.NotATermName? || r.1.value.NullPayload?
    decreases |list|
  {
    if |list| == 0 then (entries, None)
    else
      var i := list[0];
      if i >= |entries| then (entries, Some(IndexOutOfRange(i)))
      else if !entries[i].TermName? then (entries, Some(NotATermName(i)))
      else match entries[i].source
        case None => (entries, Some(NullPayload(i)))
        case Some(text) =>
          var renamed := Rename(entries[i], Text.ReplaceAll(text, path, replacement));
          RelocateAll(entries[i := renamed], list[1..], path, replacement)
  }

  /** A listed index the rename loop can rename: a name entry holding a payload. */
  predicate Relocatable(entries: seq<Entry>, i: nat)
  {
    i < |entries| && entries[i].TermName? && entries[i].source.Some?
  }

  /** The exception the rename loop raises on an index it cannot rename. */
  function RelocateError(entries: seq<Entry>, i: nat): Error
  {
    if i >= |entries| then IndexOutOfRange(i)
    else if !entries[i].TermName? then NotATermName(i)
    else NullPayload(i)
  }

  /**
   * The rename loop fails exactly when a listed index is not a name entry
   * with a payload, and then with the exception for the first such index
   * (`NotATermName` for an entry the cast rejects).
   */
  lemma {:induction false} RelocateAllFails(entries: seq<Entry>, list: seq<nat>, path: bytes, replacement: bytes)
    ensures var err := RelocateAll(entries, list, path, replacement).1;
      && (err.None? <==> forall k :: 0 <= k < |list| ==> Relocatable(entries, list[k]))
      && (err.Some? ==>
            exists k :: && 0 <= k < |list| && !Relocatable(entries, list[k])
                        && err.value == RelocateError(entries, list[k])
                        && forall j :: 0 <= j < k ==> Relocatable(entries, list[j]))
    decreases |list|
  {
    if |list| > 0 && Relocatable(entries, list[0]) {
      var i := list[0];
      var next := entries[i := Rename(entries[i], Text.ReplaceAll(entries[i].source.value, path, replacement))];
      RelocateAllFails(next, list[1..], path, replacement);
      assert forall x: nat :: Relocatable(next, x) == Relocatable(entries, x);
      assert forall x: nat :: RelocateError(next, x) == RelocateError(entries, x);
      var err := RelocateAll(entries, list, path, replacement).1;
      assert err == RelocateAll(next, list[1..], path, replacement).1;
      if err.Some? {
        var k' :| && 0 <= k' < |list[1..]| && !Relocatable(next, list[1..][k'])
                  && err.value == RelocateError(next, list[1..][k'])
                  && forall j :: 0 <= j < k' ==> Relocatable(next, list[1..][j]);
        assert list[1..][k'] == list[k' + 1];
        forall j | 0 <= j < k' + 1
          ensures Relocatable(entries, list[j])
        {
          if j > 0 {
            assert list[j] == list[1..][j - 1];
          }
        }
      } else {
        forall k | 0 <= k < |list|
          ensures Relocatable(entries, list[k])
        {
          if k > 0 {
            assert list[k] == list[1..][k - 1];
          }
        }
      }
    }
  }

  /**
   * The renaming never appends, changes nothing outside the list, keeps the
   * kind, type and payload of every entry, and on success leaves every
   * listed entry named after its payload with the old path replaced.
   */
  lemma {:induction false} RelocateAllEffect(entries: seq<Entry>, list: seq<nat>, path: bytes, replacement: bytes)
    ensures var (r, err) := RelocateAll(entries, list, path, replacement);
      && |r| == |entries|
      && (forall j :: 0 <= j < |entries| ==> Kept(entries[j], r[j]))
      && (forall j :: 0 <= j < |entries| && j !in list ==> r[j] == entries[j])
      && (forall j :: 0 <= j < |entries| ==>
            || r[j] == entries[j]
            || (&& entries[j].TermName? && entries[j].source.Some?
                && r[j] == Rename(entries[j], Text.ReplaceAll(entries[j].source.value, path, replacement))))
      && (err.None? ==> forall k :: 0 <= k < |list| ==>
            list[k] < |r| && r[list[k]].TermName? && entries[list[k]].source.Some?
            && r[list[k]].name == Text.ReplaceAll(entries[list[k]].source.value, path, replacement))
    decreases |list|
  {
    if |list| > 0 {
      var i := list[0];
      if i < |entries| && entries[i].TermName? && entries[i].source.Some? {
        var text := entries[i].source.value;
        var renamed := Rename(entries[i], Text.ReplaceAll(text, path, replacement));
        var next := entries[i := renamed];
        RelocateAllEffect(next, list[1..], path, replacement);
        var (r, err) := RelocateAll(next, list[1..], path, replacement);
        assert forall j :: 0 <= j < |entries| && j !in list ==> j !in list[1..] && j != i;
        assert forall j :: 0 <= j < |entries| ==> Kept(entries[j], next[j]);
        if err.None? {
          forall k | 0 <= k < |list|
            ensures list[k] < |r| && r[list[k]].TermName? && entries[list[k]].source.Some?
              && r[list[k]].name == Text.ReplaceAll(entries[list[k]].source.value, path, replacement)
          {
            if k > 0 {
              assert list[k] == list[1..][k - 1];
              assert next[list[k]].source == entries[list[k]].source;
            } else if i !in list[1..] {
              assert r[i] == next[i];
            } else {
              var k' :| 0 <= k' < |list[1..]| && list[1..][k'] == i;
            }
          }
        }
      }
    }
  }

  // ----------------------------------------------------------------- replace

  /**
   * `replace(replace, with)` on a table state, with `with` given already
   * split into its components: the entries it leaves behind and its result
   * (the number of matched links, or the exception that ended it).
   */
  function ReplaceOutcome(st: TableState, path: bytes, parts: seq<bytes>): (r: (seq<Entry>, Result<nat>))
    requires |parts| > 0
    ensures r.1.Failure? ==>
      || r.1.error == CyclicReference || r.1.error == Eof
      || r.1.error.IndexOutOfRange? || r.1.error.NullPayload? || r.1.error.NotATermName?
    ensures r.1 == Failure(CyclicReference) <==> GraphPass(st, path, parts).Failure?
    ensures r.1 == Failure(CyclicReference) ==> r.0 == st.entries
  {
    match GraphPass(st, path, parts)
    case Failure(e) => (st.entries, Failure(e))
    case Success((rewritten, count)) =>
      var st1 := st.(entries := rewritten);
      match Selected(st1, path, |rewritten|)
      case Failure(e) => (rewritten, Failure(e))
      case Success(list) =>
        var (renamed, err) := RelocateAll(rewritten, list, path, Text.Join(parts));
        (renamed, if err.Some? then Failure(err.value) else Success(count))
  }
}
