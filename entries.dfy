/**
 * The entry kinds of the signature table (the Java `model` package), as one closed sum
 * type. The Java classes share the `TableEntry` interface: `type()`,
 * `payload()` and `write(out)`, which become `Type`, `Payload` and `Write`.
 */
module Entries {
  import opened Base
  import NatCodec

  /** Type codes the table decodes (Table.EntryType). */
  const TERM_NAME_ID: byte := 1
  const EXT_MOD_CLASS_REF_ID: byte := 10
  const CONSTANT_TYPE_ID: byte := 15
  const LITERAL_STRING: byte := 33

  /** The `symbolRef` of a namespace component that has no parent. */
  const NO_PARENT: int := -1

  /** A `symbolRef`: an entry index, or -1 for "no parent". */
  type Ref = x: int | -1 <= x

  /**
   * `source` is the byte array an entry was decoded from, `None` where Java
   * holds null because the entry was built from values during a rewrite.
   */
  datatype Entry =
    | Raw(code: byte, raw: bytes)
    | TermName(name: bytes, source: Option<bytes>)
    | ExtModClassRef(nameRef: nat, symbolRef: Ref, source: Option<bytes>)
    | ConstantType(constRef: nat, raw: bytes)

  /** `type()`: the three decoded kinds report their fixed code. */
  function Type(e: Entry): byte
  {
    match e
    case Raw(code, _) => code
    case TermName(_, _) => TERM_NAME_ID
    case ExtModClassRef(_, _, _) => EXT_MOD_CLASS_REF_ID
    case ConstantType(_, _) => CONSTANT_TYPE_ID
  }

  /** `payload()`: the bytes the entry was decoded from (null for built ones). */
  function Payload(e: Entry): Option<bytes>
  {
    match e
    case Raw(_, raw) => Some(raw)
    case TermName(_, source) => source
    case ExtModClassRef(_, _, source) => source
    case ConstantType(_, raw) => Some(raw)
  }

  /** The bytes `write` emits after the type code and the length. */
  function Body(e: Entry): bytes
  {
    match e
    case Raw(_, raw) => raw
    case TermName(name, _) => name
    case ExtModClassRef(n, s, _) =>
      if s != NO_PARENT then NatCodec.Write(n) + NatCodec.Write(s) else NatCodec.Write(n)
    case ConstantType(_, raw) => raw
  }

  /**
   * `write(out)` of each kind. A namespace link computes its length from
   * `Nat.size` of its refs; the other kinds from the bytes they emit. In
   * every case the length prefix counts exactly the payload bytes after it.
   */
  function Write(e: Entry): (r: bytes)
    ensures r == [Type(e)] + NatCodec.Write(|Body(e)|) + Body(e)
  {
    match e
    case Raw(code, raw) => [code] + NatCodec.Write(|raw|) + raw
    case TermName(name, _) => [TERM_NAME_ID] + NatCodec.Write(|name|) + name
    case ExtModClassRef(n, s, _) =>
      if s != NO_PARENT then
        [EXT_MOD_CLASS_REF_ID] + NatCodec.Write(NatCodec.Width(n) + NatCodec.Width(s))
          + NatCodec.Write(n) + NatCodec.Write(s)
      else
        [EXT_MOD_CLASS_REF_ID] + NatCodec.Write(NatCodec.Width(n)) + NatCodec.Write(n)
    case ConstantType(_, raw) => [CONSTANT_TYPE_ID] + NatCodec.Write(|raw|) + raw
  }

  /** `new RawEntry(type, raw)`. */
  function NewRaw(code: byte, raw: bytes): (e: Entry)
    ensures Type(e) == code && Payload(e) == Some(raw)
    ensures Write(e) == [code] + NatCodec.Write(|raw|) + raw
  {
    Raw(code, raw)
  }

  /** `new TermNameEntry(String)`: a name built during a rewrite, without payload. */
  function NewTermName(name: bytes): Entry
  {
    TermName(name, None)
  }

  /** `new TermNameEntry(byte[])`: the name is the payload read as UTF-8. */
  function DecodeTermName(raw: bytes): (e: Entry)
    ensures e.TermName? && e.name == raw
    ensures Type(e) == TERM_NAME_ID && Payload(e) == Some(raw)
    ensures Write(e) == [TERM_NAME_ID] + NatCodec.Write(|raw|) + raw
  {
    TermName(raw, Some(raw))
  }

  /** `new ExtModClassRefEntry(nameRef, symbolRef)`: a link built during a rewrite. */
  function NewExtModClassRef(nameRef: nat, symbolRef: Ref): Entry
  {
    ExtModClassRef(nameRef, symbolRef, None)
  }

  /**
   * `new ExtModClassRefEntry(byte[])`: `nameRef` is the first varint; a
   * second one is read as `symbolRef` only when bytes remain, otherwise the
   * link has no parent. Anything after the second varint is ignored.
   */
  function DecodeExtModClassRef(raw: bytes): (r: Result<Entry>)
    ensures raw == [] ==> r == Failure(Eof)
    ensures r.Failure? ==> r.error == Eof
    ensures r.Success? <==>
      && NatCodec.Read(raw).Success?
      && (|NatCodec.Read(raw).value.1| == 0 || NatCodec.Read(NatCodec.Read(raw).value.1).Success?)
    ensures r.Success? ==> r.value.ExtModClassRef? && Payload(r.value) == Some(raw)
    ensures r.Success? ==> r.value.nameRef == NatCodec.Read(raw).value.0
    ensures r.Success? ==> var rest := NatCodec.Read(raw).value.1;
      r.value.symbolRef == if |rest| == 0 then NO_PARENT else NatCodec.Read(rest).value.0
    ensures r.Success? ==> Type(r.value) == EXT_MOD_CLASS_REF_ID
  {
    var (n, rest) :- NatCodec.Read(raw);
    if |rest| > 0 then
      var (s, _) :- NatCodec.Read(rest);
      Success(ExtModClassRef(n, s, Some(raw)))
    else
      Success(ExtModClassRef(n, NO_PARENT, Some(raw)))
  }

  /** `new ConstantTypeEntry(byte[])`: `constant_Ref` is the first varint. */
  function DecodeConstantType(raw: bytes): (r: Result<Entry>)
    ensures raw == [] ==> r == Failure(Eof)
    ensures r.Success? <==> NatCodec.Read(raw).Success?
    ensures r.Success? ==> r.value.ConstantType? && r.value.constRef == NatCodec.Read(raw).value.0
    ensures r.Success? ==> Type(r.value) == CONSTANT_TYPE_ID && Payload(r.value) == Some(raw)
    ensures r.Success? ==> Write(r.value) == [CONSTANT_TYPE_ID] + NatCodec.Write(|raw|) + raw
  {
    var (n, _) :- NatCodec.Read(raw);
    Success(ConstantType(n, raw))
  }

  /** `TermNameEntry.name(String)`: only the current name changes. */
  function Rename(e: Entry, name: bytes): (r: Entry)
    requires e.TermName?
    ensures r.TermName? && r.name == name
    ensures Type(r) == Type(e) && Payload(r) == Payload(e)
  {
    e.(name := name)
  }

  /** `ExtModClassRefEntry.update(nameRef, symbolRef)`: only the two refs change. */
  function Update(e: Entry, nameRef: nat, symbolRef: Ref): (r: Entry)
    requires e.ExtModClassRef?
    ensures r.ExtModClassRef? && r.nameRef == nameRef && r.symbolRef == symbolRef
    ensures Type(r) == Type(e) && Payload(r) == Payload(e)
  {
    e.(nameRef := nameRef, symbolRef := symbolRef)
  }

  /**
   * Decoding the payload a link writes gives back its refs, -1 included:
   * the decoder and `write` agree on when the parent is present.
   */
  lemma LinkRoundTrip(n: nat, s: Ref, source: Option<bytes>)
    ensures var e := ExtModClassRef(n, s, source);
      DecodeExtModClassRef(Body(e)) == Success(ExtModClassRef(n, s, Some(Body(e))))
  {
    if s != NO_PARENT {
      NatCodec.ReadWrite(n, NatCodec.Write(s));
      NatCodec.ReadWrite(s, []);
      assert NatCodec.Write(s) + [] == NatCodec.Write(s);
    } else {
      NatCodec.ReadWrite(n, []);
      assert NatCodec.Write(n) + [] == NatCodec.Write(n);
    }
  }

  /**
   * Bytes after the second varint of a link payload are dropped: they do not
   * change the refs and `write` does not reproduce them.
   */
  lemma LinkTrailingIgnored(n: nat, s: nat, extra: bytes)
    ensures var r := DecodeExtModClassRef(NatCodec.Write(n) + NatCodec.Write(s) + extra);
      && r.Success?
      && r.value.nameRef == n && r.value.symbolRef == s
      && Body(r.value) == NatCodec.Write(n) + NatCodec.Write(s)
  {
    assert NatCodec.Write(n) + NatCodec.Write(s) + extra == NatCodec.Write(n) + (NatCodec.Write(s) + extra);
    NatCodec.ReadWrite(n, NatCodec.Write(s) + extra);
    NatCodec.ReadWrite(s, extra);
  }
}
