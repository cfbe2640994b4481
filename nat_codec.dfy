/**
 * The NAT encoding of pickled Scala signatures (Nat.java): a natural number
 * written as big-endian 7-bit groups, every byte but the last carrying the
 * continuation bit 0x80.
 *
 * Values are unbounded naturals; the Java code works on `int` and is only
 * meaningful for 0 <= v < 2^31, a range on which every statement below holds.
 */
module NatCodec {
  import opened Base

  /** 128 to the power k. */
  function Pow128(k: nat): (p: nat)
    ensures p >= 1
  {
    if k == 0 then 1 else 128 * Pow128(k - 1)
  }

  /** The number of 7-bit groups of v, the value `Nat.size` counts. */
  function Width(v: nat): (n: nat)
    ensures n >= 1
  {
    if v < 128 then 1 else 1 + Width(v / 128)
  }

  /** Width(v) is the least k with v < 128^k (and it is at least one). */
  lemma {:induction false} WidthBounds(v: nat)
    ensures v < Pow128(Width(v))
    ensures Width(v) > 1 ==> Pow128(Width(v) - 1) <= v
    decreases v
  {
    if v >= 128 {
      var q := v / 128;
      WidthBounds(q);
      assert Pow128(Width(v)) == 128 * Pow128(Width(q));
      assert v < 128 * (q + 1);
      if Width(q) > 1 {
        assert Pow128(Width(q)) == 128 * Pow128(Width(q) - 1);
      }
    }
  }

  /** The boundary values quoted for the encoding. */
  lemma WidthExamples()
    ensures Width(0) == 1 && Width(127) == 1
    ensures Width(128) == 2 && Width(16383) == 2
    ensures Width(16384) == 3
  {
  }

  /**
   * `Nat.size`: a do-while loop shifting the value right by seven bits and
   * counting iterations. The loop's first iteration is unrolled.
   */
  method Size(value: nat) returns (count: nat)
    ensures count == Width(value)
    ensures count == |Write(value)|
  {
    var v: nat := value / 128;
    count := 1;
    while v != 0
      invariant count >= 1
      invariant v == 0 ==> count == Width(value)
      invariant v != 0 ==> count + Width(v) == Width(value)
      decreases v
    {
      v := v / 128;
      count := count + 1;
    }
  }

  /**
   * `Nat.write(nat, out, flag)`: the higher groups first, each flagged as
   * continued, then the low seven bits or'ed with `flag`. With the low group
   * below 0x80 and `flag` either 0 or 0x80 the `|` is an addition.
   */
  function Emit(v: nat, flag: byte): (r: bytes)
    requires flag == 0 || flag == 0x80
    ensures |r| == Width(v)
    decreases v
  {
    (if v / 128 != 0 then Emit(v / 128, 0x80) else []) + [v % 128 + flag]
  }

  /** Every group but the last is flagged as continued; the last carries `flag`. */
  lemma {:induction false} EmitShape(v: nat, flag: byte)
    requires flag == 0 || flag == 0x80
    ensures Last(Emit(v, flag)) == v % 128 + flag
    ensures forall i :: 0 <= i < |Emit(v, flag)| - 1 ==> Emit(v, flag)[i] >= 0x80
    decreases v
  {
    if v / 128 != 0 {
      EmitShape(v / 128, 0x80);
    }
  }

  /** `Nat.write(nat, out)`: the encoding of v, `Nat.size(v)` bytes long. */
  function Write(v: nat): (r: bytes)
    ensures |r| == Width(v) && |r| >= 1
  {
    Emit(v, 0)
  }

  /**
   * The encoding is most significant group first: every byte but the last
   * has the continuation bit set and the last has it clear.
   */
  lemma WriteShape(v: nat)
    ensures Last(Write(v)) < 0x80
    ensures forall i :: 0 <= i < |Write(v)| - 1 ==> Write(v)[i] >= 0x80
  {
    EmitShape(v, 0);
  }

  /**
   * `rest` is what follows the first byte of `s` whose continuation bit is
   * clear: every byte before that one has the bit set.
   */
  predicate Terminated(s: bytes, rest: bytes)
  {
    && |rest| < |s|
    && rest == s[|s| - |rest|..]
    && s[|s| - |rest| - 1] < 0x80
    && forall i :: 0 <= i < |s| - |rest| - 1 ==> s[i] >= 0x80
  }

  /**
   * `Nat.read(in, carry)`: shift the carry left by seven bits, add the low
   * seven bits of the next byte and stop at the first byte without the
   * continuation bit; running out of input is the EOF error.
   */
  function ReadFrom(s: bytes, carry: nat): Result<(nat, bytes)>
    decreases |s|
  {
    if |s| == 0 then Failure(Eof)
    else
      var acc := carry * 128 + s[0] % 128;
      if s[0] < 0x80 then Success((acc, s[1..])) else ReadFrom(s[1..], acc)
  }

  /**
   * A read fails, with the EOF error, exactly when no byte of the input has
   * its continuation bit clear; otherwise it consumes the bytes up to and
   * including the first such byte and leaves the rest untouched.
   */
  lemma {:induction false} ReadFromConsumes(s: bytes, carry: nat)
    ensures ReadFrom(s, carry).Failure? <==> forall i :: 0 <= i < |s| ==> s[i] >= 0x80
    ensures ReadFrom(s, carry).Failure? ==> ReadFrom(s, carry).error == Eof
    ensures ReadFrom(s, carry).Success? ==> Terminated(s, ReadFrom(s, carry).value.1)
    decreases |s|
  {
    if |s| > 0 && s[0] >= 0x80 {
      ReadFromConsumes(s[1..], carry * 128 + s[0] % 128);
      assert forall i :: 1 <= i < |s| ==> s[i] == s[1..][i - 1];
    }
  }

  /** `Nat.read(in)`: one value from the front of `s` and the unread rest. */
  function Read(s: bytes): (r: Result<(nat, bytes)>)
    ensures r.Failure? ==> r.error == Eof
  {
    ReadFromConsumes(s, 0);
    ReadFrom(s, 0)
  }

  /**
   * `Nat.read` fails exactly when the input ends before a byte with the
   * continuation bit clear; otherwise it consumes the bytes up to and
   * including the first such byte and leaves the rest untouched.
   */
  lemma ReadConsumes(s: bytes)
    ensures Read(s).Failure? <==> forall i :: 0 <= i < |s| ==> s[i] >= 0x80
    ensures Read(s).Success? ==> Terminated(s, Read(s).value.1)
  {
    ReadFromConsumes(s, 0);
  }

  /** The carry after shifting in every group of v. */
  function Accumulate(carry: nat, v: nat): nat
  {
    carry * Pow128(Width(v)) + v
  }

  lemma AccumulateLow(carry: nat, v: nat)
    requires v < 128
    ensures Accumulate(carry, v) == carry * 128 + v
  {
  }

  lemma AccumulateHigh(carry: nat, v: nat)
    requires v >= 128
    ensures Accumulate(carry, v) == Accumulate(carry, v / 128) * 128 + v % 128
  {
    var p := Pow128(Width(v / 128));
    assert Pow128(Width(v)) == 128 * p;
    assert (carry * p + v / 128) * 128 == carry * (128 * p) + v / 128 * 128;
  }

  /** One byte with the continuation bit set moves its low bits into the carry. */
  lemma ReadStep(low: nat, t: bytes, carry: nat)
    requires low < 128
    ensures ReadFrom([low + 0x80] + t, carry) == ReadFrom(t, carry * 128 + low)
  {
    var b: byte := low + 0x80;
    assert b % 128 == low;
    assert ([b] + t)[1..] == t;
  }

  /** One byte with the continuation bit clear ends the read. */
  lemma ReadStop(b: byte, t: bytes, carry: nat)
    requires b < 0x80
    ensures ReadFrom([b] + t, carry) == Success((carry * 128 + b, t))
  {
    assert ([b] + t)[1..] == t;
  }

  /** Reading continued groups shifts them into the carry without stopping. */
  lemma {:induction false} ReadContinued(h: nat, t: bytes, carry: nat)
    ensures ReadFrom(Emit(h, 0x80) + t, carry) == ReadFrom(t, Accumulate(carry, h))
    decreases h
  {
    EmitSplit(h, 0x80);
    if h < 128 {
      ReadStep(h, t, carry);
      AccumulateLow(carry, h);
    } else {
      var q, low := h / 128, h % 128;
      assert Emit(h, 0x80) + t == Emit(q, 0x80) + ([low + 0x80] + t);
      ReadContinued(q, [low + 0x80] + t, carry);
      ReadStep(low, t, Accumulate(carry, q));
      AccumulateHigh(carry, h);
    }
  }

  /** Reading a full encoding stops exactly after its last byte. */
  lemma {:induction false} ReadTerminal(v: nat, rest: bytes, carry: nat)
    ensures ReadFrom(Emit(v, 0) + rest, carry) == Success((Accumulate(carry, v), rest))
  {
    EmitSplit(v, 0);
    if v < 128 {
      ReadStop(v, rest, carry);
      AccumulateLow(carry, v);
    } else {
      var q, low := v / 128, v % 128;
      assert Emit(v, 0) + rest == Emit(q, 0x80) + ([low] + rest);
      ReadContinued(q, [low] + rest, carry);
      ReadStop(low, rest, Accumulate(carry, q));
      AccumulateHigh(carry, v);
    }
  }

  /** The two shapes of an encoding: a single group, or higher groups then the low one. */
  lemma EmitSplit(v: nat, flag: byte)
    requires flag == 0 || flag == 0x80
    ensures v < 128 ==> Emit(v, flag) == [v + flag]
    ensures v >= 128 ==> v / 128 > 0 && Emit(v, flag) == Emit(v / 128, 0x80) + [v % 128 + flag]
  {
  }

  /** Reading what `Write` emitted gives the value back and leaves the rest. */
  lemma ReadWrite(v: nat, rest: bytes)
    ensures Read(Write(v) + rest) == Success((v, rest))
  {
    ReadTerminal(v, rest, 0);
  }

  /**
   * `Read` accepts a redundant leading group: 0x80 0x05 reads as 5, whose
   * encoding is the single byte 0x05, so re-encoding need not reproduce the
   * input.
   */
  lemma NonCanonicalAccepted()
    ensures Read([0x80, 0x05]) == Success((5, []))
    ensures Write(5) == [0x05]
  {
    var s: bytes := [0x80, 0x05];
    assert s[1..] == [0x05];
  }
}
