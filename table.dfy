/**
 * Table.java as a class: the entry list and the three maps are fields the
 * methods update in place. Each method is proved to leave the state the
 * value-level model in table_model.dfy defines, so the properties proved
 * there carry over to the class.
 */
module Tables {
  import opened Base
  import opened Entries
  import NatCodec
  import Text
  import opened TableModel
  import RewriteProperties

  class Table {
    /** `entries`: the table, addressed by position. */
    var entries: seq<Entry>
    /** The keys of `termNameMap`, `extModClassRefEntriesMap` and `constantTypeEntryMap`. */
    var termNames: set<nat>
    var classRefs: set<nat>
    var constantTypes: set<nat>

    /** The table's fields as a value of the model. */
    function State(): TableState
      reads this
    {
      TableState(entries, termNames, classRefs, constantTypes)
    }

    ghost predicate Valid()
      reads this
    {
      TableModel.Valid(State())
    }

    /** A table with no entries and empty maps. */
    constructor ()
      ensures State() == EmptyTable && Valid()
    {
      entries := [];
      termNames := {};
      classRefs := {};
      constantTypes := {};
    }

    /**
     * `addEntry(type, raw)`: decode the entry, append it and register it in
     * its map. A payload the decoder rejects leaves the table as it was.
     */
    method AddEntry(code: byte, raw: bytes) returns (r: Outcome)
      requires Valid()
      modifies this
      ensures var next := TableModel.AddEntry(old(State()), code, raw);
        && (next.Success? ==> r == Pass && State() == next.value)
        && (next.Failure? ==> r == Fail(next.error) && State() == old(State()))
      ensures Valid()
    {
      if TableModel.AddEntry(State(), code, raw).Success? {
        AddEntryAppendsOne(State(), code, raw);
      }
      var i := |entries|;
      if code == TERM_NAME_ID {
        entries := entries + [DecodeTermName(raw)];
        termNames := termNames + {i};
      } else if code == EXT_MOD_CLASS_REF_ID {
        var decoded := DecodeExtModClassRef(raw);
        if decoded.Failure? {
          return Fail(decoded.error);
        }
        entries := entries + [decoded.value];
        classRefs := classRefs + {i};
      } else if code == CONSTANT_TYPE_ID {
        var decoded := DecodeConstantType(raw);
        if decoded.Failure? {
          return Fail(decoded.error);
        }
        entries := entries + [decoded.value];
        constantTypes := constantTypes + {i};
      } else {
        entries := entries + [NewRaw(code, raw)];
      }
      r := Pass;
    }

    /** `write(out)`: the number of entries, then every entry in index order. */
    method Write() returns (out: bytes)
      ensures out == NatCodec.Write(|entries|) + Serialized(entries)
    {
      var count := NatCodec.Write(|entries|);
      var body: bytes := [];
      var i := 0;
      while i < |entries|
        invariant 0 <= i <= |entries|
        invariant body == Serialized(entries[..i])
      {
        SerializedNext(entries, i);
        body := body + Entries.Write(entries[i]);
        i := i + 1;
      }
      assert entries[..i] == entries;
      out := count + body;
    }

    /**
     * The first loop of `replace`: every registered link, in ascending
     * order, is resolved and kept when it resolves to exactly `path`.
     */
    method CollectMatches(path: bytes) returns (r: Result<seq<nat>>)
      ensures r == Matches(State(), path, |entries|)
    {
      var matched: seq<nat> := [];
      var i := 0;
      while i < |entries|
        invariant 0 <= i <= |entries|
        invariant Matches(State(), path, i) == Success(matched)
      {
        if i in classRefs && entries[i].ExtModClassRef? {
          match Resolve(State(), i)
          case Cyclic =>
            MatchesFailureStays(State(), path, i + 1, |entries|);
            return Failure(CyclicReference);
          case Unresolved =>
          case Path(p) =>
            if p == path {
              matched := matched + [i];
            }
        }
        i := i + 1;
      }
      r := Success(matched);
    }

    /**
     * `addClassRef(with)`: append the chain of the components, parent first,
     * and return the index of the link of the last component.
     */
    method AddClassRef(parts: seq<bytes>) returns (index: nat)
      requires |parts| > 0
      modifies this
      ensures entries == old(entries) + Chain(|old(entries)|, parts)
      ensures index == |entries| - 1
      ensures termNames == old(termNames) && classRefs == old(classRefs)
      ensures constantTypes == old(constantTypes)
      decreases |parts|
    {
      var symbolRef: Ref := NO_PARENT;
      if |parts| > 1 {
        symbolRef := AddClassRef(Init(parts));
      }
      entries := entries + [NewTermName(Last(parts))];
      entries := entries + [NewExtModClassRef(|entries| - 1, symbolRef)];
      index := |entries| - 1;
    }

    /**
     * `updateClassRef(ref, with)`: append a name for the last component and
     * a chain for the others, then repoint the link at `index` to them.
     */
    method UpdateClassRef(index: nat, parts: seq<bytes>)
      requires index < |entries| && entries[index].ExtModClassRef? && |parts| > 0
      modifies this
      ensures entries == RewriteLink(old(entries), index, parts)
      ensures termNames == old(termNames) && classRefs == old(classRefs)
      ensures constantTypes == old(constantTypes)
    {
      ghost var before := entries;
      entries := entries + [NewTermName(Last(parts))];
      var termRef := |entries| - 1;
      var symbolRef: Ref := NO_PARENT;
      if |parts| > 1 {
        symbolRef := AddClassRef(Init(parts));
      }
      assert entries == before + Appended(|before|, parts);
      RewriteLinkSteps(before, index, parts, entries);
      entries := entries[index := Update(entries[index], termRef, symbolRef)];
    }

    /**
     * The third loop of `replace`: for every registered constant type, in
     * ascending order, `findOutWhatItIs` on the entry it refers to.
     */
    method CollectLiterals(path: bytes) returns (r: Result<seq<nat>>)
      ensures r == Selected(State(), path, |entries|)
    {
      var list: seq<nat> := [];
      var i := 0;
      while i < |entries|
        invariant 0 <= i <= |entries|
        invariant Selected(State(), path, i) == Success(list)
      {
        if i in constantTypes && entries[i].ConstantType? {
          var c := entries[i].constRef;
          if c >= |entries| {
            SelectedFailureStays(State(), path, i + 1, |entries|);
            return Failure(IndexOutOfRange(c));
          }
          var found := FindOutWhatItIs(entries, entries[c], path);
          if found.Failure? {
            SelectedFailureStays(State(), path, i + 1, |entries|);
            return Failure(found.error);
          }
          if found.value.Some? {
            list := list + [found.value.value];
          }
        }
        i := i + 1;
      }
      r := Success(list);
    }

    /**
     * The last loop of `replace`: rename each listed name entry to its
     * original payload text with `path` replaced. An exception ends the
     * loop with the renames before it in place.
     */
    method Relocate(list: seq<nat>, path: bytes, replacement: bytes) returns (err: Option<Error>)
      modifies this
      ensures (entries, err) == RelocateAll(old(entries), list, path, replacement)
      ensures termNames == old(termNames) && classRefs == old(classRefs)
      ensures constantTypes == old(constantTypes)
    {
      var k := 0;
      while k < |list|
        invariant 0 <= k <= |list|
        invariant RelocateAll(entries, list[k..], path, replacement)
          == RelocateAll(old(entries), list, path, replacement)
        invariant termNames == old(termNames) && classRefs == old(classRefs)
        invariant constantTypes == old(constantTypes)
      {
        assert list[k..][0] == list[k] && list[k..][1..] == list[k + 1..];
        var i := list[k];
        if i >= |entries| {
          return Some(IndexOutOfRange(i));
        }
        if !entries[i].TermName? {
          return Some(NotATermName(i));
        }
        match entries[i].source
        case None =>
          return Some(NullPayload(i));
        case Some(text) =>
          entries := entries[i := Rename(entries[i], Text.ReplaceAll(text, path, replacement))];
        k := k + 1;
      }
      err := None;
    }

    /**
     * `replace(replace, with)`, with `with` given as its components: rewrite
     * every link that resolves to `path`, then rename the string literals
     * that start with it, and answer the number of rewritten links.
     */
    method Replace(path: bytes, parts: seq<bytes>) returns (r: Result<nat>)
      requires |parts| > 0 && Valid()
      modifies this
      ensures (entries, r) == ReplaceOutcome(old(State()), path, parts)
      ensures termNames == old(termNames) && classRefs == old(classRefs)
      ensures constantTypes == old(constantTypes)
      ensures Valid()
    {
      ghost var st := State();
      RewriteProperties.ReplaceKeeps(st, path, parts);
      var scan := CollectMatches(path);
      if scan.Failure? {
        return Failure(scan.error);
      }
      var matched := scan.value;
      MatchesExact(st, path, |st.entries|);
      assert AllLinks(entries, matched) by {
        forall j | 0 <= j < |matched|
          ensures matched[j] < |entries| && entries[matched[j]].ExtModClassRef?
        {
          assert matched[j] in matched;
        }
      }
      var k := 0;
      while k < |matched|
        invariant 0 <= k <= |matched|
        invariant AllLinks(entries, matched[k..])
        invariant RewriteAll(entries, matched[k..], parts) == RewriteAll(st.entries, matched, parts)
        invariant termNames == st.termNames && classRefs == st.classRefs
        invariant constantTypes == st.constantTypes
      {
        assert matched[k..][0] == matched[k] && matched[k..][1..] == matched[k + 1..];
        ghost var before := entries;
        UpdateClassRef(matched[k], parts);
        KeptLinks(before, entries, matched[k + 1..]);
        k := k + 1;
      }
      assert entries == GraphPass(st, path, parts).value.0;
      var literals := CollectLiterals(path);
      if literals.Failure? {
        return Failure(literals.error);
      }
      var err := Relocate(literals.value, path, Text.Join(parts));
      if err.Some? {
        return Failure(err.value);
      }
      r := Success(|matched|);
    }
  }
}
