/**
 * The one-time-password engine of `Totp`: TOTP as section 4 of RFC 6238
 * defines it (time step X = 30 seconds, T0 = 0) on top of HOTP from RFC 4226
 * with HMAC-SHA1, reduced to six decimal digits.
 *
 * The Base32 decoder and HMAC-SHA1 are library calls whose insides are not
 * part of this model; they are passed in as functions. The wall clock is
 * passed in as `now`, whole seconds since the Unix epoch.
 */
module Totp {
  import opened Results
  import opened Powers
  import Bits
  import Decimal

  /** An unsigned 8-bit integer, Rust's u8. */
  type byte = x: int | 0 <= x < 256

  /** Whole seconds since the Unix epoch, as `Duration::as_secs` returns them: a u64. */
  type u64 = n: nat | n < 0x1_0000_0000_0000_0000

  /** An HMAC-SHA1 output: 20 bytes. */
  type Digest = s: seq<byte> | |s| == 20 witness seq(20, _ => 0)

  /** Base32 decoding with the alphabet of section 6 of RFC 4648, no padding: `None` when the text is not Base32. */
  type Base32Decoder = string -> Option<seq<byte>>

  /** HMAC-SHA1 keyed by its first argument over its second; `None` when the key is refused. */
  type HmacSha1 = (seq<byte>, seq<byte>) -> Option<Digest>

  /** The time step X of RFC 6238, in seconds. */
  const StepSeconds: nat := 30

  /** Digits in a code. */
  const CodeDigits: nat := 6

  /** 10^CodeDigits. */
  const CodeModulus: nat := 1_000_000

  datatype TotpError =
    | InvalidSecret     // the secret is not Base32
    | InvalidKeyLength  // the HMAC refused the decoded key

  /** The time step T = floor((now - T0) / X) of section 4.2 of RFC 6238, with T0 = 0. */
  function TimeStep(now: u64): (t: u64)
    ensures t * StepSeconds <= now < (t + 1) * StepSeconds
  {
    now / StepSeconds
  }

  /** `n.to_be_bytes()` for an unsigned integer `width` bytes wide: most significant byte first. */
  function ToBeBytes(n: nat, width: nat): (b: seq<byte>)
    ensures |b| == width
  {
    if width == 0 then [] else ToBeBytes(n / 256, width - 1) + [n % 256]
  }

  /** The unsigned integer that a big-endian byte string denotes. */
  function FromBeBytes(b: seq<byte>): (n: nat)
    ensures n < Pow(256, |b|)
  {
    if b == [] then 0 else FromBeBytes(b[..|b| - 1]) * 256 + b[|b| - 1]
  }

  lemma FromBeBytesFour(b0: byte, b1: byte, b2: byte, b3: byte)
    ensures FromBeBytes([b0, b1, b2, b3]) == b0 * 0x100_0000 + b1 * 0x1_0000 + b2 * 0x100 + b3
  {
    assert [b0][..0] == [];
    assert FromBeBytes([b0]) == b0;
    assert [b0, b1][..1] == [b0];
    assert FromBeBytes([b0, b1]) == b0 * 0x100 + b1;
    assert [b0, b1, b2][..2] == [b0, b1];
    assert FromBeBytes([b0, b1, b2]) == (b0 * 0x100 + b1) * 0x100 + b2;
    assert [b0, b1, b2, b3][..3] == [b0, b1, b2];
  }

  /** Reading back the big-endian bytes of a number that fits the width gives the number. */
  lemma {:induction false} BeBytesRoundTrip(n: nat, width: nat)
    requires n < Pow(256, width)
    ensures FromBeBytes(ToBeBytes(n, width)) == n
  {
    if width > 0 {
      var b := ToBeBytes(n, width);
      assert b[..|b| - 1] == ToBeBytes(n / 256, width - 1);
      BeBytesRoundTrip(n / 256, width - 1);
    }
  }

  /**
   * The HOTP counter of a moment: its time step as 8 big-endian bytes
   * (section 5.1 of RFC 4226), which read back as floor(now / 30).
   */
  function CounterMessage(now: u64): (m: seq<byte>)
    ensures |m| == 8
    ensures FromBeBytes(m) == now / StepSeconds
  {
    assert Pow(256, 8) == 0x1_0000_0000_0000_0000;
    BeBytesRoundTrip(TimeStep(now), 8);
    ToBeBytes(TimeStep(now), 8)
  }

  /** Two moments give the same HMAC message exactly when they fall in the same time step. */
  lemma SameMessageIffSameStep(now: u64, other: u64)
    ensures CounterMessage(now) == CounterMessage(other) <==> TimeStep(now) == TimeStep(other)
  {
  }

  /** The offset of dynamic truncation: the low four bits of the digest's last byte. */
  function TruncationOffset(d: Digest): (o: nat)
    ensures o == d[19] % 16
    ensures o <= 15 && o + 3 < |d|
  {
    Bits.AndLowMask(d[19], 4);
    Bits.And(d[19], 0xf)
  }

  /**
   * The u32 that `(b0 & 0x7f) << 24 | b1 << 16 | b2 << 8 | b3` builds from
   * four bytes widened to u32. It is the arithmetic sum
   * (b0 & 0x7f)·2^24 + b1·2^16 + b2·2^8 + b3, which is below 2^31: no bit is
   * shifted out of the u32 and the sign bit is never set.
   */
  function Assemble(b0: byte, b1: byte, b2: byte, b3: byte): (r: nat)
    ensures r == (b0 % 128) * 0x100_0000 + b1 * 0x1_0000 + b2 * 0x100 + b3
    ensures r < 0x8000_0000
  {
    var a := Bits.And(b0, 0x7f);
    Bits.AndLowMask(b0, 7);
    assert Pow(2, 7) == 128 && Pow(2, 8) == 0x100 && Pow(2, 16) == 0x1_0000;
    assert Pow(2, 24) == 0x100_0000 && Pow(2, 32) == 0x1_0000_0000;
    var s1 := Bits.ShiftLeft(a, 24, 32);
    var s2 := Bits.ShiftLeft(b1, 16, 32);
    var s3 := Bits.ShiftLeft(b2, 8, 32);
    Bits.ShiftLeftInRange(a, 24, 32, 0x100_0000);
    Bits.ShiftLeftInRange(b1, 16, 32, 0x1_0000);
    Bits.ShiftLeftInRange(b2, 8, 32, 0x100);
    Bits.DivModUnique(s1, 0x100_0000, a, 0);
    Bits.OrShifted(s1, s2, 24, 0x100_0000);
    var o1 := Bits.Or(s1, s2);
    var x := a * 0x100 + b1;
    assert o1 == x * 0x1_0000;
    Bits.DivModUnique(o1, 0x1_0000, x, 0);
    Bits.OrShifted(o1, s3, 16, 0x1_0000);
    var o2 := Bits.Or(o1, s3);
    var y := x * 0x100 + b2;
    assert o2 == y * 0x100;
    Bits.DivModUnique(o2, 0x100, y, 0);
    Bits.OrShifted(o2, b3, 8, 0x100);
    Bits.Or(o2, b3)
  }

  /**
   * Dynamic truncation (section 5.3 of RFC 4226): the four digest bytes at
   * the offset the digest picks, read as a big-endian number with the first
   * byte's top bit cleared, so the result is a 31-bit number.
   */
  function DynamicTruncation(d: Digest): (r: nat)
    ensures var o := TruncationOffset(d);
      r == FromBeBytes([d[o] % 128, d[o + 1], d[o + 2], d[o + 3]])
    ensures r < 0x8000_0000
  {
    var o := TruncationOffset(d);
    FromBeBytesFour(d[o] % 128, d[o + 1], d[o + 2], d[o + 3]);
    Assemble(d[o], d[o + 1], d[o + 2], d[o + 3])
  }

  /** The HOTP value for six digits: the truncated number mod 10^6. */
  function HotpValue(d: Digest): (v: nat)
    ensures v < CodeModulus
  {
    DynamicTruncation(d) % CodeModulus
  }

  /** A secret held by value; `GenerateCode` and `RemainingSeconds` are the engine. */
  datatype Totp = Totp(secret: string) {

    /**
     * The TOTP code for the moment `now`: decode the secret (failing with
     * InvalidSecret and computing nothing else), HMAC the counter message,
     * truncate, reduce mod 10^6 and zero-pad. A code is exactly six ASCII
     * digits whose value is the HOTP value of the digest.
     */
    function GenerateCode(now: u64, decode: Base32Decoder, hmac: HmacSha1): (r: Result<string, TotpError>)
      ensures decode(secret).None? ==> r == Err(InvalidSecret)
      ensures (decode(secret).Some? && hmac(decode(secret).value, CounterMessage(now)).None?)
                ==> r == Err(InvalidKeyLength)
      ensures r.Ok? <==> decode(secret).Some? && hmac(decode(secret).value, CounterMessage(now)).Some?
      ensures r.Ok? ==> |r.value| == CodeDigits && Decimal.AllDigits(r.value)
      ensures r.Ok? ==> Decimal.ValueOf(r.value) == HotpValue(hmac(decode(secret).value, CounterMessage(now)).value)
    {
      match decode(secret)
      case None => Err(InvalidSecret)
      case Some(key) =>
        match hmac(key, CounterMessage(now))
        case None => Err(InvalidKeyLength)
        case Some(d) =>
          var v := HotpValue(d);
          assert Pow(10, CodeDigits) == CodeModulus;
          Ok(Decimal.ZeroPadded(v, CodeDigits))
    }

    /**
     * Seconds left in the current time step: between 1 and 30, 30 exactly
     * at a step boundary, and counting up to the next boundary.
     */
    static function RemainingSeconds(now: u64): (r: nat)
      ensures 1 <= r <= StepSeconds
      ensures r == StepSeconds <==> now % StepSeconds == 0
      ensures (now + r) % StepSeconds == 0
      ensures now + r == (TimeStep(now) + 1) * StepSeconds
    {
      StepSeconds - now % StepSeconds
    }
  }

  /**
   * For a fixed secret the code does not change for the remaining seconds of
   * the window: every later moment before the next boundary gives the same code.
   */
  lemma CodeStableWithinWindow(t: Totp, now: u64, later: u64, decode: Base32Decoder, hmac: HmacSha1)
    requires now <= later < now + Totp.RemainingSeconds(now)
    ensures t.GenerateCode(later, decode, hmac) == t.GenerateCode(now, decode, hmac)
  {
    assert TimeStep(later) == TimeStep(now);
  }

  /** The HMAC-SHA1 digest of the dynamic-truncation example in section 5.4 of RFC 4226. */
  const Rfc4226Digest: Digest := [
    0x1f, 0x86, 0x98, 0x69, 0x0e, 0x02, 0xca, 0x16, 0x61, 0x85,
    0x50, 0xef, 0x7f, 0x19, 0xda, 0x8e, 0x94, 0x5b, 0x55, 0x5a]

  /**
   * The worked example of section 5.4 of RFC 4226: offset 10, the 31-bit
   * value 0x50ef7f19 = 1357872921, and the six-digit value 872921.
   */
  lemma Rfc4226TruncationExample()
    ensures TruncationOffset(Rfc4226Digest) == 10
    ensures DynamicTruncation(Rfc4226Digest) == 0x50ef7f19
    ensures HotpValue(Rfc4226Digest) == 872921
  {
    var d := Rfc4226Digest;
    assert d[19] == 0x5a;
    var o := TruncationOffset(d);
    assert o == 10;
    assert [d[o] % 128, d[o + 1], d[o + 2], d[o + 3]] == [0x50, 0xef, 0x7f, 0x19];
    FromBeBytesFour(0x50, 0xef, 0x7f, 0x19);
  }

  /** `format!("{}", 872921)` is "872921". */
  lemma Rfc4226CodeText()
    ensures Decimal.Render(872921) == "872921"
  {
    assert Decimal.Render(87) == "87";
    assert Decimal.Render(8729) == "8729";
  }

  /** A code generated from the digest of that example is the text "872921". */
  lemma Rfc4226CodeExample(t: Totp, now: u64, decode: Base32Decoder, hmac: HmacSha1)
    requires decode(t.secret).Some?
    requires hmac(decode(t.secret).value, CounterMessage(now)) == Some(Rfc4226Digest)
    ensures t.GenerateCode(now, decode, hmac) == Ok("872921")
  {
    Rfc4226TruncationExample();
    Rfc4226CodeText();
    var r := t.GenerateCode(now, decode, hmac);
    Decimal.ValueOfInjective(r.value, Decimal.Render(872921));
  }
}
