/**
 * What `Table.replace` achieves: the links that resolved to the old path
 * denote the new one in the written table, every other entry keeps its
 * kind and payload, and the string literals that started with the old path
 * have their names rewritten from their payloads.
 */
module RewriteProperties {
  import opened Base
  import opened Entries
  import Text
  import opened TableModel

  // ------------------------------------------------------- fresh chains

  /**
   * The entries from `base` on hold the chain `addClassRef` builds for the
   * components: component j is the name entry at base + 2j followed by the
   * link naming it, whose parent is the link just before (none for j = 0).
   */
  predicate HasChain(entries: seq<Entry>, base: nat, parts: seq<bytes>)
    requires |parts| > 0
    decreases |parts|
  {
    var k := |parts|;
    && base + 2 * k <= |entries|
    && entries[base + 2 * k - 2] == NewTermName(Last(parts))
    && entries[base + 2 * k - 1] ==
         NewExtModClassRef(base + 2 * k - 2, if k == 1 then NO_PARENT else base + 2 * k - 3)
    && (k > 1 ==> HasChain(entries, base, Init(parts)))
  }

  /** A chain survives any change that leaves its own entries alone. */
  lemma {:induction false} ChainFramed(entries: seq<Entry>, entries': seq<Entry>, base: nat, parts: seq<bytes>)
    requires |parts| > 0 && HasChain(entries, base, parts) && base + 2 * |parts| <= |entries'|
    requires forall x :: base <= x < base + 2 * |parts| ==> entries'[x] == entries[x]
    ensures HasChain(entries', base, parts)
    decreases |parts|
  {
    if |parts| > 1 {
      ChainFramed(entries, entries', base, Init(parts));
    }
  }

  /** The entries of a chain carry no payload: none of them was decoded. */
  lemma {:induction false} ChainPayloadless(entries: seq<Entry>, base: nat, parts: seq<bytes>)
    requires |parts| > 0 && HasChain(entries, base, parts)
    ensures forall x :: base <= x < base + 2 * |parts| ==> Payload(entries[x]) == None
    decreases |parts|
  {
    if |parts| > 1 {
      ChainPayloadless(entries, base, Init(parts));
    }
  }

  /** Resolution of a link whose parent resolves appends its name to the parent's. */
  lemma ResolveChild(entries: seq<Entry>, names: set<nat>, links: set<nat>,
                     nameRef: nat, symbolRef: Ref, fuel: nat, name: bytes, base: bytes)
    requires NameAt(entries, names, nameRef) == Some(name)
    requires symbolRef != NO_PARENT && LinkAt(entries, links, symbolRef) && fuel > 0
    requires ResolveRefs(entries, names, links, entries[symbolRef].nameRef,
                         entries[symbolRef].symbolRef, fuel - 1) == Path(base)
    ensures ResolveRefs(entries, names, links, nameRef, symbolRef, fuel) == Path(base + [Text.DOT] + name)
  {
  }

  /** A link whose parent link has no registered name resolves to "null." and its own name. */
  lemma ResolveUnderUnnamed(entries: seq<Entry>, names: set<nat>, links: set<nat>, j: nat, fuel: nat)
    requires j < |entries| && entries[j].ExtModClassRef? && fuel > 0
    requires NameAt(entries, names, entries[j].nameRef).Some?
    requires entries[j].symbolRef != NO_PARENT && LinkAt(entries, links, entries[j].symbolRef)
    requires NameAt(entries, names, entries[entries[j].symbolRef].nameRef) == None
    ensures ResolveRefs(entries, names, links, entries[j].nameRef, entries[j].symbolRef, fuel)
      == Path(Text.NULL_TEXT + [Text.DOT] + NameAt(entries, names, entries[j].nameRef).value)
  {
  }

  /**
   * The last link of a chain resolves, through its parents, to all
   * components joined with '.'.
   */
  lemma {:induction false} ChainResolves(entries: seq<Entry>, base: nat, parts: seq<bytes>, fuel: nat)
    requires |parts| > 0 && HasChain(entries, base, parts)
    requires fuel + 1 >= |parts|
    ensures entries[base + 2 * |parts| - 1].ExtModClassRef?
    ensures ResolveRefs(entries, NameSet(entries), LinkSet(entries),
                        entries[base + 2 * |parts| - 1].nameRef,
                        entries[base + 2 * |parts| - 1].symbolRef, fuel)
         == Path(Text.Join(parts))
    decreases |parts|
  {
    var k := |parts|;
    var nameAt := base + 2 * k - 2;
    assert nameAt in NameSet(entries);
    assert NameAt(entries, NameSet(entries), nameAt) == Some(Last(parts));
    if k == 1 {
    } else {
      var parentAt := base + 2 * k - 3;
      ChainResolves(entries, base, Init(parts), fuel - 1);
      assert parentAt in LinkSet(entries);
      ResolveChild(entries, NameSet(entries), LinkSet(entries), nameAt, parentAt, fuel,
                   Last(parts), Text.Join(Init(parts)));
    }
  }

  // ----------------------------------------------------- rewritten links

  /**
   * The link at i has been repointed by `updateClassRef`: it names a fresh
   * name entry holding the last component, and its parent is the last link
   * of a chain for the other components that follows that name.
   */
  predicate LinkRewritten(entries: seq<Entry>, i: nat, parts: seq<bytes>)
    requires |parts| > 0
  {
    i < |entries| && entries[i].ExtModClassRef?
    && NamesChain(entries, entries[i].nameRef, entries[i].symbolRef, parts)
  }

  /**
   * Refs `p` and `symbolRef` name a name entry holding the last component
   * and, as parent, the last link of a chain for the other components that
   * follows that name.
   */
  predicate NamesChain(entries: seq<Entry>, p: nat, symbolRef: Ref, parts: seq<bytes>)
    requires |parts| > 0
  {
    && p + 2 * |parts| - 1 <= |entries|
    && entries[p] == NewTermName(Last(parts))
    && symbolRef == NewParent(p, parts)
    && (|parts| > 1 ==> HasChain(entries, p + 1, Init(parts)))
  }

  /** Such refs resolve to all components joined with '.'. */
  lemma NameOverChain(entries: seq<Entry>, p: nat, symbolRef: Ref, parts: seq<bytes>)
    requires |parts| > 0 && NamesChain(entries, p, symbolRef, parts)
    ensures ResolveRefs(entries, NameSet(entries), LinkSet(entries), p, symbolRef, |entries|)
      == Path(Text.Join(parts))
  {
    var names, links := NameSet(entries), LinkSet(entries);
    assert p in names;
    if |parts| == 1 {
    } else {
      var init := Init(parts);
      var parentAt := p + 2 * |init|;
      assert parentAt in links;
      ChainResolves(entries, p + 1, init, |entries| - 1);
      ResolveChild(entries, names, links, p, parentAt, |entries|, Last(parts), Text.Join(init));
    }
  }

  /** The written resolution of a link is that of its two refs. */
  lemma ResolveWrittenRefs(entries: seq<Entry>, i: nat)
    requires i < |entries| && entries[i].ExtModClassRef?
    ensures ResolveWritten(entries, i) ==
      ResolveRefs(entries, NameSet(entries), LinkSet(entries), entries[i].nameRef, entries[i].symbolRef, |entries|)
  {
  }

  /** A rewritten link denotes the new namespace in the written table. */
  lemma RewrittenResolves(entries: seq<Entry>, i: nat, parts: seq<bytes>)
    requires |parts| > 0 && LinkRewritten(entries, i, parts)
    ensures ResolveWritten(entries, i) == Path(Text.Join(parts))
  {
    ResolveWrittenRefs(entries, i);
    NameOverChain(entries, entries[i].nameRef, entries[i].symbolRef, parts);
  }

  /** The rewritten shape survives any change that leaves the link and its new entries alone. */
  lemma RewrittenFramed(entries: seq<Entry>, entries': seq<Entry>, i: nat, parts: seq<bytes>)
    requires |parts| > 0 && LinkRewritten(entries, i, parts) && |entries| <= |entries'|
    requires entries'[i] == entries[i]
    requires forall x :: entries[i].nameRef <= x < entries[i].nameRef + 2 * |parts| - 1 ==> entries'[x] == entries[x]
    ensures LinkRewritten(entries', i, parts)
  {
    if |parts| > 1 {
      ChainFramed(entries, entries', entries[i].nameRef + 1, Init(parts));
    }
  }

  /** The new entries of a rewritten link carry no payload. */
  lemma RewrittenPayloadless(entries: seq<Entry>, i: nat, parts: seq<bytes>)
    requires |parts| > 0 && LinkRewritten(entries, i, parts)
    ensures forall x :: entries[i].nameRef <= x < entries[i].nameRef + 2 * |parts| - 1 ==>
      Payload(entries[x]) == None
  {
    if |parts| > 1 {
      ChainPayloadless(entries, entries[i].nameRef + 1, Init(parts));
    }
  }

  /** A chain appended to any table is a chain where it was appended. */
  lemma {:induction false} ChainAppended(prefix: seq<Entry>, parts: seq<bytes>)
    requires |parts| > 0
    ensures HasChain(prefix + Chain(|prefix|, parts), |prefix|, parts)
    decreases |parts|
  {
    if |parts| > 1 {
      var base, init := |prefix|, Init(parts);
      var shorter := prefix + Chain(base, init);
      var grown := prefix + Chain(base, parts);
      assert grown == shorter + grown[|shorter|..];
      ChainAppended(prefix, init);
      ChainFramed(shorter, grown, base, init);
    }
  }

  /** Changing an entry before a chain leaves the chain in place. */
  lemma {:induction false} ChainUpdated(entries: seq<Entry>, base: nat, parts: seq<bytes>, i: nat, e: Entry)
    requires |parts| > 0 && HasChain(entries, base, parts) && i < base
    ensures HasChain(entries[i := e], base, parts)
    decreases |parts|
  {
    if |parts| > 1 {
      ChainUpdated(entries, base, Init(parts), i, e);
    }
  }

  /** The entries `updateClassRef` appends hold the chain for all components but the last. */
  lemma AppendedChain(entries: seq<Entry>, parts: seq<bytes>)
    requires |parts| > 1
    ensures HasChain(entries + Appended(|entries|, parts), |entries| + 1, Init(parts))
  {
    var name, chain := [NewTermName(Last(parts))], Chain(|entries| + 1, Init(parts));
    assert Appended(|entries|, parts) == name + chain;
    Associative(entries, name, chain);
    ChainAppended(entries + name, Init(parts));
  }

  /**
   * Appending `Appended(|entries|, parts)` and pointing the link at `i` to
   * it leaves that link rewritten.
   */
  lemma AppendedRewritten(entries: seq<Entry>, i: nat, parts: seq<bytes>, r: seq<Entry>)
    requires i < |entries| && entries[i].ExtModClassRef? && |parts| > 0
    requires r == (entries + Appended(|entries|, parts))
      [i := Update(entries[i], |entries|, NewParent(|entries|, parts))]
    ensures LinkRewritten(r, i, parts)
  {
    var n := |entries|;
    var grown := entries + Appended(n, parts);
    assert r[n] == grown[n];
    if |parts| > 1 {
      AppendedChain(entries, parts);
      ChainUpdated(grown, n + 1, Init(parts), i, r[i]);
    }
  }

  /** `updateClassRef` leaves the link it was given rewritten, naming the first appended entry. */
  lemma RewriteLinkRewrites(entries: seq<Entry>, i: nat, parts: seq<bytes>)
    requires i < |entries| && entries[i].ExtModClassRef? && |parts| > 0
    ensures var r := RewriteLink(entries, i, parts);
      LinkRewritten(r, i, parts) && r[i].nameRef == |entries|
  {
    var grown := entries + Appended(|entries|, parts);
    RewriteLinkSteps(entries, i, parts, grown);
    AppendedRewritten(entries, i, parts, RewriteLink(entries, i, parts));
  }

  /** Rewriting another, older link does not disturb a rewritten one. */
  lemma RewriteLinkPreserves(entries: seq<Entry>, j: nat, parts: seq<bytes>, i: nat)
    requires j < |entries| && entries[j].ExtModClassRef? && |parts| > 0
    requires LinkRewritten(entries, i, parts) && j != i && j < entries[i].nameRef
    ensures var r := RewriteLink(entries, j, parts);
      LinkRewritten(r, i, parts) && r[i] == entries[i]
  {
    RewrittenFramed(entries, RewriteLink(entries, j, parts), i, parts);
  }

  /** Rewriting a list of older links leaves a rewritten link as it is. */
  lemma {:induction false} RewriteAllPreserves(entries: seq<Entry>, m: seq<nat>, parts: seq<bytes>, i: nat)
    requires |parts| > 0 && AllLinks(entries, m)
    requires LinkRewritten(entries, i, parts) && i !in m
    requires forall k :: 0 <= k < |m| ==> m[k] < entries[i].nameRef
    ensures var r := RewriteAll(entries, m, parts);
      LinkRewritten(r, i, parts) && r[i] == entries[i]
    decreases |m|
  {
    if |m| > 0 {
      var next := RewriteLink(entries, m[0], parts);
      RewriteLinkPreserves(entries, m[0], parts, i);
      KeptLinks(entries, next, m[1..]);
      RewriteAllPreserves(next, m[1..], parts, i);
    }
  }

  /** The graph pass appends 2k - 1 entries per match, k being the number of components. */
  lemma {:induction false} RewriteAllLength(entries: seq<Entry>, m: seq<nat>, parts: seq<bytes>)
    requires |parts| > 0 && AllLinks(entries, m)
    ensures |RewriteAll(entries, m, parts)| == |entries| + |m| * (2 * |parts| - 1)
    decreases |m|
  {
    if |m| > 0 {
      var w := 2 * |parts| - 1;
      var next := RewriteLink(entries, m[0], parts);
      KeptLinks(entries, next, m[1..]);
      RewriteAllLength(next, m[1..], parts);
      assert (|m[1..]| + 1) * w == |m[1..]| * w + w;
    }
  }

  /**
   * The graph pass keeps every old entry's kind, type and payload, and
   * changes no entry outside the matches.
   */
  lemma {:induction false} RewriteAllKeeps(entries: seq<Entry>, m: seq<nat>, parts: seq<bytes>)
    requires |parts| > 0 && AllLinks(entries, m)
    ensures var r := RewriteAll(entries, m, parts);
      && |entries| <= |r|
      && (forall j :: 0 <= j < |entries| ==> Kept(entries[j], r[j]))
      && (forall j :: 0 <= j < |entries| && j !in m ==> r[j] == entries[j])
    decreases |m|
  {
    if |m| > 0 {
      var next := RewriteLink(entries, m[0], parts);
      var rest := m[1..];
      KeptLinks(entries, next, rest);
      RewriteAllKeeps(next, rest, parts);
      var r := RewriteAll(next, rest, parts);
      forall j | 0 <= j < |entries|
        ensures Kept(entries[j], r[j])
      {
        assert Kept(entries[j], next[j]) && Kept(next[j], r[j]);
      }
      assert forall j :: 0 <= j < |entries| && j !in m ==> j != m[0] && j !in rest;
    }
  }

  /** The entries the update loop appends carry no payload. */
  lemma {:induction false} RewriteAllNoPayload(entries: seq<Entry>, m: seq<nat>, parts: seq<bytes>)
    requires |parts| > 0 && AllLinks(entries, m)
    ensures var r := RewriteAll(entries, m, parts);
      forall j :: |entries| <= j < |r| ==> Payload(r[j]) == None
    decreases |m|
  {
    if |m| > 0 {
      var next := RewriteLink(entries, m[0], parts);
      KeptLinks(entries, next, m[1..]);
      RewriteAllNoPayload(next, m[1..], parts);
      RewriteAllKeeps(next, m[1..], parts);
      RewriteLinkRewrites(entries, m[0], parts);
      RewrittenPayloadless(next, m[0], parts);
    }
  }

  /**
   * Every match of an ascending list is left rewritten, pointing into the
   * appended part of the table.
   */
  lemma {:induction false} RewriteAllRewrites(entries: seq<Entry>, m: seq<nat>, parts: seq<bytes>)
    requires |parts| > 0 && AllLinks(entries, m) && Increasing(m)
    ensures var r := RewriteAll(entries, m, parts);
      forall x :: x in m ==> LinkRewritten(r, x, parts) && r[x].nameRef >= |entries|
    decreases |m|
  {
    if |m| > 0 {
      var next := RewriteLink(entries, m[0], parts);
      var rest := m[1..];
      KeptLinks(entries, next, rest);
      assert Increasing(rest);
      RewriteAllRewrites(next, rest, parts);
      FirstRewritten(entries, m, parts);
      assert forall x :: x in m ==> x == m[0] || x in rest;
    }
  }

  /** The first match of an ascending list stays rewritten while the later ones are rewritten. */
  lemma FirstRewritten(entries: seq<Entry>, m: seq<nat>, parts: seq<bytes>)
    requires |parts| > 0 && |m| > 0 && AllLinks(entries, m) && Increasing(m)
    ensures var r := RewriteAll(entries, m, parts);
      LinkRewritten(r, m[0], parts) && r[m[0]].nameRef == |entries|
  {
    var next := RewriteLink(entries, m[0], parts);
    var rest := m[1..];
    KeptLinks(entries, next, rest);
    RewriteLinkRewrites(entries, m[0], parts);
    assert m[0] !in rest by {
      assert forall k :: 0 <= k < |rest| ==> rest[k] == m[k + 1] && m[0] < m[k + 1];
    }
    assert forall k :: 0 <= k < |rest| ==> rest[k] < |entries| by {
      assert forall k :: 0 <= k < |rest| ==> rest[k] == m[k + 1];
    }
    RewriteAllPreserves(next, rest, parts, m[0]);
  }

  // -------------------------------------------------------------- graph pass

  /** The registered links that resolve to exactly `path`. */
  function MatchSet(st: TableState, path: bytes): set<nat>
  {
    set i: nat | i < |st.entries| && IsMatch(st, path, i)
  }

  /** Some registered link has a cyclic parent chain. */
  predicate HasCycle(st: TableState)
  {
    exists i: nat :: i < |st.entries| && IsCyclic(st, i)
  }

  /** An ascending list holds as many indices as it has elements. */
  lemma {:induction false} IncreasingCard(m: seq<nat>)
    requires Increasing(m)
    ensures |set x: nat | x in m| == |m|
    decreases |m|
  {
    if |m| > 0 {
      IncreasingInit(m);
      IncreasingCard(Init(m));
      ElementsOfSnoc(Init(m), Last(m));
      assert Init(m) + [Last(m)] == m;
    }
  }

  lemma IncreasingInit(m: seq<nat>)
    requires Increasing(m) && |m| > 0
    ensures Increasing(Init(m)) && Last(m) !in Init(m)
  {
    assert forall k :: 0 <= k < |Init(m)| ==> Init(m)[k] == m[k] && m[k] < Last(m);
  }

  lemma ElementsOfSnoc(s: seq<nat>, x: nat)
    requires x !in s
    ensures |set y: nat | y in s + [x]| == |set y: nat | y in s| + 1
  {
    var before, after := set y: nat | y in s, set y: nat | y in s + [x];
    assert after == before + {x};
  }

  /** The graph pass fails, on a cyclic reference, exactly when a registered link is cyclic. */
  lemma GraphPassFails(st: TableState, path: bytes, parts: seq<bytes>)
    requires |parts| > 0
    ensures GraphPass(st, path, parts).Failure? <==> HasCycle(st)
    ensures GraphPass(st, path, parts).Failure? ==> GraphPass(st, path, parts).error == CyclicReference
  {
    MatchesExact(st, path, |st.entries|);
  }

  /** The graph pass counts the matches and appends 2k - 1 entries for each. */
  lemma GraphPassCounts(st: TableState, path: bytes, parts: seq<bytes>)
    requires |parts| > 0 && GraphPass(st, path, parts).Success?
    ensures var (r, count) := GraphPass(st, path, parts).value;
      && count == |MatchSet(st, path)|
      && |r| == |st.entries| + count * (2 * |parts| - 1)
  {
    var m := Matches(st, path, |st.entries|).value;
    MatchList(st, path);
    RewriteAllLength(st.entries, m, parts);
  }

  /**
   * The graph pass keeps every old entry's kind, type and payload and
   * changes nothing but the matches.
   */
  lemma GraphPassKeeps(st: TableState, path: bytes, parts: seq<bytes>)
    requires |parts| > 0 && GraphPass(st, path, parts).Success?
    ensures var r := GraphPass(st, path, parts).value.0;
      && |st.entries| <= |r|
      && (forall j :: 0 <= j < |st.entries| ==> Kept(st.entries[j], r[j]))
      && (forall j :: 0 <= j < |st.entries| && j !in MatchSet(st, path) ==> r[j] == st.entries[j])
  {
    var m := Matches(st, path, |st.entries|).value;
    MatchList(st, path);
    RewriteAllKeeps(st.entries, m, parts);
    var r := RewriteAll(st.entries, m, parts);
    forall j | 0 <= j < |st.entries| && j !in MatchSet(st, path)
      ensures r[j] == st.entries[j]
    {
      assert j !in m;
    }
  }

  /** The graph pass leaves every match rewritten to point past the old end of the table. */
  lemma GraphPassRewrites(st: TableState, path: bytes, parts: seq<bytes>)
    requires |parts| > 0 && GraphPass(st, path, parts).Success?
    ensures var r := GraphPass(st, path, parts).value.0;
      forall i :: i in MatchSet(st, path) ==> LinkRewritten(r, i, parts) && r[i].nameRef >= |st.entries|
  {
    var m := Matches(st, path, |st.entries|).value;
    MatchList(st, path);
    RewriteAllRewrites(st.entries, m, parts);
  }

  /** The entries the graph pass appends carry no payload. */
  lemma GraphPassNoPayload(st: TableState, path: bytes, parts: seq<bytes>)
    requires |parts| > 0 && GraphPass(st, path, parts).Success?
    ensures var r := GraphPass(st, path, parts).value.0;
      forall j :: |st.entries| <= j < |r| ==> Payload(r[j]) == None
  {
    var m := Matches(st, path, |st.entries|).value;
    MatchList(st, path);
    RewriteAllNoPayload(st.entries, m, parts);
    var r := RewriteAll(st.entries, m, parts);
    assert GraphPass(st, path, parts).value.0 == r;
    forall j | |st.entries| <= j < |r|
      ensures Payload(r[j]) == None
    {
      assert |st.entries| <= j < |RewriteAll(st.entries, m, parts)|;
    }
  }

  /** The list of matches holds each element of `MatchSet` once, in ascending order. */
  lemma MatchList(st: TableState, path: bytes)
    requires Matches(st, path, |st.entries|).Success?
    ensures var m := Matches(st, path, |st.entries|).value;
      && AllLinks(st.entries, m) && Increasing(m)
      && |MatchSet(st, path)| == |m|
      && forall j: nat :: j in MatchSet(st, path) <==> j in m
  {
    var n := |st.entries|;
    MatchesExact(st, path, n);
    var m := Matches(st, path, n).value;
    assert AllLinks(st.entries, m) by {
      forall j | 0 <= j < |m|
        ensures m[j] < n && st.entries[m[j]].ExtModClassRef?
      {
        assert m[j] in m;
      }
    }
    assert MatchSet(st, path) == set x: nat | x in m;
    IncreasingCard(m);
  }

  // ------------------------------------------------------------ literal pass

  /**
   * The registered constant type at c is a string literal (a raw entry of
   * type 33) whose first varint names entry x, whose payload starts with
   * the old path: the literal scan selects x.
   */
  predicate LiteralTarget(st: TableState, path: bytes, c: nat, x: nat)
  {
    && c in st.constantTypes && c < |st.entries| && st.entries[c].ConstantType?
    && x < |st.entries|
    && st.entries[c].constRef < |st.entries|
    && FindOutWhatItIs(st.entries, st.entries[st.entries[c].constRef], path) == Success(Some(x))
  }

  /** When the literal scan succeeds, it selects exactly the literal targets. */
  lemma {:induction false} SelectedExact(st: TableState, path: bytes, n: nat)
    requires n <= |st.entries|
    ensures Selected(st, path, n).Success? ==>
      forall x: nat :: x in Selected(st, path, n).value <==> exists c: nat :: c < n && LiteralTarget(st, path, c, x)
  {
    if n > 0 && Selected(st, path, n).Success? {
      SelectedExact(st, path, n - 1);
      var prev := Selected(st, path, n - 1).value;
      var list := Selected(st, path, n).value;
      var i := n - 1;
      forall x: nat
        ensures x in list <==> exists c: nat :: c < n && LiteralTarget(st, path, c, x)
      {
        if x in list && x !in prev {
          assert LiteralTarget(st, path, i, x);
        }
        if exists c: nat :: c < n && LiteralTarget(st, path, c, x) {
          var c: nat :| c < n && LiteralTarget(st, path, c, x);
          if c < i {
            assert x in prev;
          }
        }
      }
    }
  }

  /** The graph pass does not change what a literal selects. */
  lemma LiteralTargetKept(st: TableState, entries': seq<Entry>, path: bytes, c: nat, x: nat)
    requires LiteralTarget(st, path, c, x)
    requires |st.entries| <= |entries'|
    requires forall j :: 0 <= j < |st.entries| ==> Kept(st.entries[j], entries'[j])
    ensures LiteralTarget(st.(entries := entries'), path, c, x)
  {
    var lit := st.entries[c].constRef;
    assert Kept(st.entries[c], entries'[c]);
    assert Kept(st.entries[lit], entries'[lit]);
    var (index, _) := NatCodec.Read(st.entries[lit].raw).value;
    assert Kept(st.entries[index], entries'[index]);
  }

  /** Some registered string literal selects the entry x. */
  ghost predicate LiteralSelects(st: TableState, path: bytes, x: nat)
  {
    exists c: nat :: LiteralTarget(st, path, c, x)
  }

  /**
   * A literal target of the table after the graph pass, among the old
   * entries, was one before it: the constant wrappers and literals are
   * unchanged and the appended entries carry no payload.
   */
  lemma LiteralTargetBack(st: TableState, entries': seq<Entry>, path: bytes, c: nat, x: nat)
    requires Valid(st) && |st.entries| <= |entries'| && x < |st.entries|
    requires forall j :: 0 <= j < |st.entries| ==> Kept(st.entries[j], entries'[j])
    requires forall j :: |st.entries| <= j < |entries'| ==> Payload(entries'[j]) == None
    requires LiteralTarget(st.(entries := entries'), path, c, x)
    ensures LiteralTarget(st, path, c, x)
  {
    assert Kept(st.entries[c], entries'[c]);
    var lit := entries'[c].constRef;
    assert entries'[lit].Raw?;
    assert lit < |st.entries|;
    assert Kept(st.entries[lit], entries'[lit]);
    assert Kept(st.entries[x], entries'[x]);
  }

  /** Every old entry the literal scan selects after the graph pass, a literal selected before it. */
  lemma SelectedBack(st: TableState, entries': seq<Entry>, path: bytes)
    requires Valid(st) && |st.entries| <= |entries'|
    requires forall j :: 0 <= j < |st.entries| ==> Kept(st.entries[j], entries'[j])
    requires forall j :: |st.entries| <= j < |entries'| ==> Payload(entries'[j]) == None
    requires Selected(st.(entries := entries'), path, |entries'|).Success?
    ensures forall x :: x in Selected(st.(entries := entries'), path, |entries'|).value && x < |st.entries| ==>
      LiteralSelects(st, path, x)
  {
    var st' := st.(entries := entries');
    SelectedExact(st', path, |entries'|);
    forall x | x in Selected(st', path, |entries'|).value && x < |st.entries|
      ensures LiteralSelects(st, path, x)
    {
      var c: nat :| c < |entries'| && LiteralTarget(st', path, c, x);
      LiteralTargetBack(st, entries', path, c, x);
    }
  }

  // ----------------------------------------------------------------- replace

  /** The three ways `replace` can end. */
  lemma ReplaceOutcomeCases(st: TableState, path: bytes, parts: seq<bytes>)
    requires |parts| > 0
    ensures GraphPass(st, path, parts).Failure? ==>
      ReplaceOutcome(st, path, parts) == (st.entries, Failure(GraphPass(st, path, parts).error))
    ensures GraphPass(st, path, parts).Success? ==>
      var (e1, count) := GraphPass(st, path, parts).value;
      var sel := Selected(st.(entries := e1), path, |e1|);
      && (sel.Failure? ==> ReplaceOutcome(st, path, parts) == (e1, Failure(sel.error)))
      && (sel.Success? ==>
            var (after, err) := RelocateAll(e1, sel.value, path, Text.Join(parts));
            ReplaceOutcome(st, path, parts) == (after, if err.Some? then Failure(err.value) else Success(count)))
  {
  }

  /**
   * A cyclic link makes `replace` fail before it changes anything;
   * otherwise the graph pass runs to completion.
   */
  lemma ReplaceOnCycle(st: TableState, path: bytes, parts: seq<bytes>)
    requires |parts| > 0
    ensures HasCycle(st) ==> ReplaceOutcome(st, path, parts) == (st.entries, Failure(CyclicReference))
    ensures GraphPass(st, path, parts).Success? <==> !HasCycle(st)
  {
    GraphPassFails(st, path, parts);
    ReplaceOutcomeCases(st, path, parts);
  }

  /** The literal pass leaves the entries, or renames selected decoded names from their payloads. */
  lemma LiteralPassKeeps(e1: seq<Entry>, sel: Result<seq<nat>>, path: bytes, replacement: bytes,
                         after: seq<Entry>)
    requires sel.Failure? ==> after == e1
    requires sel.Success? ==> after == RelocateAll(e1, sel.value, path, replacement).0
    ensures |after| == |e1|
    ensures forall j :: 0 <= j < |e1| ==> Kept(e1[j], after[j])
    ensures forall j :: 0 <= j < |e1| ==>
      || after[j] == e1[j]
      || (&& sel.Success? && j in sel.value && e1[j].TermName? && e1[j].source.Some?
          && after[j] == Rename(e1[j], Text.ReplaceAll(e1[j].source.value, path, replacement)))
  {
    if sel.Success? {
      RelocateAllEffect(e1, sel.value, path, replacement);
    }
  }

  /** Composing the effects of the two passes on the old entries. */
  lemma ComposeKeeps(st: TableState, path: bytes, replacement: bytes, e1: seq<Entry>, sel: Result<seq<nat>>,
                      after: seq<Entry>)
    requires Valid(st) && |st.entries| <= |e1| == |after|
    requires forall j :: 0 <= j < |st.entries| ==> Kept(st.entries[j], e1[j])
    requires forall j :: 0 <= j < |st.entries| && j !in MatchSet(st, path) ==> e1[j] == st.entries[j]
    requires forall j :: |st.entries| <= j < |e1| ==> Payload(e1[j]) == None
    requires sel == Selected(st.(entries := e1), path, |e1|)
    requires forall j :: 0 <= j < |e1| ==> Kept(e1[j], after[j])
    requires forall j :: 0 <= j < |e1| ==>
      || after[j] == e1[j]
      || (&& sel.Success? && j in sel.value && e1[j].TermName? && e1[j].source.Some?
          && after[j] == Rename(e1[j], Text.ReplaceAll(e1[j].source.value, path, replacement)))
    ensures Valid(st.(entries := after))
    ensures forall j :: 0 <= j < |st.entries| ==> Kept(st.entries[j], after[j])
    ensures forall j :: 0 <= j < |st.entries| ==>
      || after[j] == st.entries[j]
      || IsMatch(st, path, j)
      || (&& LiteralSelects(st, path, j) && st.entries[j].TermName? && st.entries[j].source.Some?
          && after[j] == Rename(st.entries[j], Text.ReplaceAll(st.entries[j].source.value, path, replacement)))
  {
    forall j | 0 <= j < |st.entries|
      ensures Kept(st.entries[j], after[j])
    {
      assert Kept(st.entries[j], e1[j]) && Kept(e1[j], after[j]);
    }
    if sel.Success? {
      SelectedBack(st, e1, path);
    }
    forall j | 0 <= j < |st.entries| && !IsMatch(st, path, j)
      ensures || after[j] == st.entries[j]
              || (&& LiteralSelects(st, path, j) && st.entries[j].TermName? && st.entries[j].source.Some?
                  && after[j] == Rename(st.entries[j], Text.ReplaceAll(st.entries[j].source.value, path, replacement)))
    {
      assert j !in MatchSet(st, path);
    }
  }

  /**
   * Whatever its outcome, `replace` keeps the maps consistent, never drops
   * an entry, keeps every old entry's kind, type and payload, and changes
   * an old entry only when it is a matched link or a decoded name that a
   * registered string literal selects, which it renames from its payload.
   */
  lemma ReplaceKeeps(st: TableState, path: bytes, parts: seq<bytes>)
    requires Valid(st) && |parts| > 0
    ensures var (after, r) := ReplaceOutcome(st, path, parts);
      && Valid(st.(entries := after))
      && |st.entries| <= |after|
      && (forall j :: 0 <= j < |st.entries| ==> Kept(st.entries[j], after[j]))
      && (forall j :: 0 <= j < |st.entries| ==>
            || after[j] == st.entries[j]
            || IsMatch(st, path, j)
            || (&& LiteralSelects(st, path, j) && st.entries[j].TermName? && st.entries[j].source.Some?
                && after[j] == Rename(st.entries[j],
                     Text.ReplaceAll(st.entries[j].source.value, path, Text.Join(parts)))))
  {
    ReplaceOutcomeCases(st, path, parts);
    if GraphPass(st, path, parts).Success? {
      GraphPassKeeps(st, path, parts);
      GraphPassNoPayload(st, path, parts);
      var e1 := GraphPass(st, path, parts).value.0;
      var sel := Selected(st.(entries := e1), path, |e1|);
      var after := ReplaceOutcome(st, path, parts).0;
      LiteralPassKeeps(e1, sel, path, Text.Join(parts), after);
      ComposeKeeps(st, path, Text.Join(parts), e1, sel, after);
    }
  }

  /**
   * Links rewritten by the graph pass, and pointing past the old end, stay
   * rewritten through the literal pass: they now denote the new namespace
   * in the written table, and through the maps they no longer resolve.
   */
  lemma ComposeRepoints(st: TableState, path: bytes, parts: seq<bytes>, e1: seq<Entry>, after: seq<Entry>)
    requires Valid(st) && |parts| > 0 && |e1| == |after|
    requires forall i :: i in MatchSet(st, path) ==> LinkRewritten(e1, i, parts) && e1[i].nameRef >= |st.entries|
    requires forall j :: 0 <= j < |e1| ==>
      after[j] == e1[j] || (e1[j].TermName? && e1[j].source.Some?)
    ensures forall i :: i in MatchSet(st, path) ==>
      && i < |after| && after[i].ExtModClassRef?
      && ResolveWritten(after, i) == Path(Text.Join(parts))
      && after[i].nameRef !in st.termNames
      && Resolve(st.(entries := after), i) == Unresolved
  {
    forall i | i in MatchSet(st, path)
      ensures && i < |after| && after[i].ExtModClassRef?
              && ResolveWritten(after, i) == Path(Text.Join(parts))
              && after[i].nameRef !in st.termNames
              && Resolve(st.(entries := after), i) == Unresolved
    {
      RepointedLink(st, parts, e1, after, i);
    }
  }

  /** One link of `ComposeRepoints`. */
  lemma RepointedLink(st: TableState, parts: seq<bytes>, e1: seq<Entry>, after: seq<Entry>, i: nat)
    requires Valid(st) && |parts| > 0 && |e1| == |after|
    requires LinkRewritten(e1, i, parts) && e1[i].nameRef >= |st.entries|
    requires forall j :: 0 <= j < |e1| ==>
      after[j] == e1[j] || (e1[j].TermName? && e1[j].source.Some?)
    ensures && i < |after| && after[i].ExtModClassRef?
            && ResolveWritten(after, i) == Path(Text.Join(parts))
            && after[i].nameRef !in st.termNames
            && Resolve(st.(entries := after), i) == Unresolved
  {
    RewrittenPayloadless(e1, i, parts);
    RewrittenFramed(e1, after, i, parts);
    RewrittenResolves(after, i, parts);
    var p := after[i].nameRef;
    assert p !in st.termNames;
    assert NameAt(after, st.termNames, p) == None;
  }

  /**
   * Unless a link is cyclic, `replace` appends 2k - 1 entries per matched
   * link, and every link that resolved to the old path now denotes the new
   * one in the written table. Through the maps it no longer resolves at
   * all: the name it points at was appended without being registered.
   */
  lemma ReplaceRepoints(st: TableState, path: bytes, parts: seq<bytes>)
    requires Valid(st) && |parts| > 0 && !HasCycle(st)
    ensures var (after, r) := ReplaceOutcome(st, path, parts);
      && |after| == |st.entries| + |MatchSet(st, path)| * (2 * |parts| - 1)
      && forall i :: i in MatchSet(st, path) ==>
           && i < |after| && after[i].ExtModClassRef?
           && ResolveWritten(after, i) == Path(Text.Join(parts))
           && after[i].nameRef !in st.termNames
           && Resolve(st.(entries := after), i) == Unresolved
  {
    GraphPassFails(st, path, parts);
    ReplaceOutcomeCases(st, path, parts);
    GraphPassCounts(st, path, parts);
    GraphPassRewrites(st, path, parts);
    var e1 := GraphPass(st, path, parts).value.0;
    var sel := Selected(st.(entries := e1), path, |e1|);
    var after := ReplaceOutcome(st, path, parts).0;
    LiteralPassKeeps(e1, sel, path, Text.Join(parts), after);
    ComposeRepoints(st, path, parts, e1, after);
  }

  /**
   * A link below a rewritten one does not follow it: the rewritten parent
   * no longer resolves through the maps, so `resolveClassRef` of the child
   * gives "null." followed by the child's own name.
   */
  lemma ChildOfRepointed(st: TableState, path: bytes, parts: seq<bytes>, j: nat)
    requires Valid(st) && |parts| > 0 && !HasCycle(st)
    requires j in st.classRefs && j !in MatchSet(st, path)
    requires st.entries[j].symbolRef != NO_PARENT && st.entries[j].symbolRef in MatchSet(st, path)
    requires st.entries[j].nameRef in st.termNames
    ensures var after := ReplaceOutcome(st, path, parts).0;
      && j < |after| && after[j] == st.entries[j]
      && st.entries[j].nameRef < |after| && after[st.entries[j].nameRef].TermName?
      && Resolve(st.(entries := after), j)
         == Path(Text.NULL_TEXT + [Text.DOT] + after[st.entries[j].nameRef].name)
  {
    var after := ReplaceOutcome(st, path, parts).0;
    var i := st.entries[j].symbolRef;
    assert j < |after| && after[j] == st.entries[j] && Valid(st.(entries := after)) by {
      ReplaceKeeps(st, path, parts);
      assert !IsMatch(st, path, j);
    }
    assert i < |after| && after[i].ExtModClassRef? && after[i].nameRef !in st.termNames by {
      ReplaceRepoints(st, path, parts);
    }
    ResolveUnderUnnamed(after, st.termNames, st.classRefs, j, |after|);
  }

  /**
   * After a successful literal pass every literal target is renamed, in
   * terms of the payloads of the original table.
   */
  lemma ComposeRenames(st: TableState, path: bytes, replacement: bytes, e1: seq<Entry>,
                       list: seq<nat>, after: seq<Entry>)
    requires |st.entries| <= |e1|
    requires forall j :: 0 <= j < |st.entries| ==> Kept(st.entries[j], e1[j])
    requires Selected(st.(entries := e1), path, |e1|) == Success(list)
    requires RelocateAll(e1, list, path, replacement) == (after, None)
    ensures forall c: nat, x: nat :: LiteralTarget(st, path, c, x) ==>
      && x < |after| && after[x].TermName?
      && after[x].name == Text.ReplaceAll(Payload(st.entries[x]).value, path, replacement)
  {
    SelectedExact(st.(entries := e1), path, |e1|);
    RelocateAllEffect(e1, list, path, replacement);
    forall c: nat, x: nat | LiteralTarget(st, path, c, x)
      ensures && x < |after| && after[x].TermName?
              && after[x].name == Text.ReplaceAll(Payload(st.entries[x]).value, path, replacement)
    {
      LiteralTargetKept(st, e1, path, c, x);
      assert x in list;
      var k :| 0 <= k < |list| && list[k] == x;
      assert Kept(st.entries[x], e1[x]);
    }
  }

  /**
   * When `replace` succeeds it returns the number of matched links, and
   * every name entry a string literal selected is renamed to its payload
   * with every occurrence of the old path replaced by the new one.
   */
  lemma ReplaceRenames(st: TableState, path: bytes, parts: seq<bytes>)
    requires Valid(st) && |parts| > 0
    ensures var (after, r) := ReplaceOutcome(st, path, parts);
      r.Success? ==>
        && r.value == |MatchSet(st, path)|
        && forall c: nat, x: nat :: LiteralTarget(st, path, c, x) ==>
             && x < |after| && after[x].TermName?
             && after[x].name == Text.ReplaceAll(Payload(st.entries[x]).value, path, Text.Join(parts))
  {
    ReplaceOutcomeCases(st, path, parts);
    if ReplaceOutcome(st, path, parts).1.Success? {
      GraphPassCounts(st, path, parts);
      GraphPassKeeps(st, path, parts);
      var e1 := GraphPass(st, path, parts).value.0;
      var list := Selected(st.(entries := e1), path, |e1|).value;
      ComposeRenames(st, path, Text.Join(parts), e1, list, ReplaceOutcome(st, path, parts).0);
    }
  }
}
