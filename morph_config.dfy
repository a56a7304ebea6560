/** Pure helpers of the network configuration admin command
    (cmd/neofs-adm/internal/modules/morph/config.go): splitting and typing a
    `key=value` argument, printing a packed contract version, and decoding
    an integer configuration value.

    Go's strconv.ParseInt (base 10, 64 bits) and strconv.ParseBool are
    modelled with their exact results, including the value returned beside
    an error. strconv.ParseFloat is a parameter. */
module MorphConfig {
  import opened Common

  // Names of the netmap contract's well-known configuration keys.
  const EpochDurationKey := "EpochDuration"
  const MaxObjectSizeKey := "MaxObjectSize"
  const AuditFeeKey := "AuditFee"
  const ContainerFeeKey := "ContainerFee"
  const ContainerAliasFeeKey := "ContainerAliasFee"
  const EigenTrustIterationsKey := "EigenTrustIterations"
  const EigenTrustAlphaKey := "EigenTrustAlpha"
  const BasicIncomeRateKey := "BasicIncomeRate"
  const InnerRingCandidateFeeKey := "InnerRingCandidateFee"
  const WithdrawFeeKey := "WithdrawFee"
  const HomomorphicHashDisabledKey := "HomomorphicHashingDisabled"

  /** The keys whose values are 64-bit integers. */
  const IntKeys: set<string> := {
    AuditFeeKey, BasicIncomeRateKey, ContainerFeeKey, ContainerAliasFeeKey,
    EigenTrustIterationsKey, EpochDurationKey, InnerRingCandidateFeeKey,
    MaxObjectSizeKey, WithdrawFeeKey }

  predicate IsWellKnownKey(key: string)
  {
    key in IntKeys || key == EigenTrustAlphaKey || key == HomomorphicHashDisabledKey
  }

  // ---------------------------------------------------------------------
  // strings.SplitN(s, "=", 2)

  /** The text before the first `=` and the text after it, or nothing when
      there is no `=`. */
  function SplitFirst(s: string): (r: Option<(string, string)>)
    ensures r.None? <==> '=' !in s
    ensures r.Some? ==> s == r.value.0 + "=" + r.value.1 && '=' !in r.value.0
  {
    if s == [] then None
    else if s[0] == '=' then Some(([], s[1..]))
    else
      match SplitFirst(s[1..])
      case None => None
      case Some(kv) => Some(([s[0]] + kv.0, kv.1))
  }

  /** The split is the one at the first `=`: any key free of `=` that
      splits `s` is the key SplitFirst finds. */
  lemma {:induction false} SplitFirstIsFirst(s: string, key: string, val: string)
    requires s == key + "=" + val && '=' !in key
    ensures SplitFirst(s) == Some((key, val))
  {
    if key != [] {
      assert s[0] == key[0] && s[1..] == key[1..] + "=" + val;
      SplitFirstIsFirst(s[1..], key[1..], val);
      assert [s[0]] + key[1..] == key;
    } else {
      assert s[1..] == val;
    }
  }

  // ---------------------------------------------------------------------
  // strconv.ParseInt(s, 10, 64) and strconv.ParseBool

  datatype NumError = ErrSyntax | ErrRange

  /** strconv's result: the value, and the error if any. */
  datatype IntParse = IntParse(value: int, err: Option<NumError>)

  predicate IsDigit(c: char)
  {
    '0' <= c <= '9'
  }

  function DigitValue(c: char): int
    requires IsDigit(c)
  {
    c as int - '0' as int
  }

  /** The largest value whose product with 10 fits in a uint64, plus one. */
  const CUTOFF: int := MAX_UINT64 / 10 + 1

  /** ParseUint's loop over `s[i..]` with `n` read so far: a non-digit is a
      syntax error, and the first step that would pass 2^64 - 1 is a range
      error, checked before any later character is looked at. */
  function ParseUintFrom(s: string, i: nat, n: uint64): (r: IntParse)
    requires i <= |s|
    ensures r.err.None? ==> 0 <= r.value <= MAX_UINT64
    ensures r.err == Some(ErrSyntax) ==> r.value == 0
    ensures r.err == Some(ErrRange) ==> r.value == MAX_UINT64
    decreases |s| - i
  {
    if i == |s| then IntParse(n, None)
    else if !IsDigit(s[i]) then IntParse(0, Some(ErrSyntax))
    else if n >= CUTOFF then IntParse(MAX_UINT64, Some(ErrRange))
    else
      var m := n * 10;
      var n1 := (m + DigitValue(s[i])) % UINT64_MODULUS;
      if n1 < m then IntParse(MAX_UINT64, Some(ErrRange))
      else ParseUintFrom(s, i + 1, n1)
  }

  /** strconv.ParseUint(s, 10, 64). */
  function ParseUint64(s: string): (r: IntParse)
    ensures r.err.None? ==> 0 <= r.value <= MAX_UINT64
    ensures r.err == Some(ErrRange) ==> r.value == MAX_UINT64
  {
    if s == [] then IntParse(0, Some(ErrSyntax)) else ParseUintFrom(s, 0, 0)
  }

  /** strconv.ParseInt(s, 10, 64): an optional sign, then ParseUint; an
      unsigned value outside the int64 range is clamped and reported as a
      range error. */
  function ParseInt64(s: string): (r: IntParse)
    ensures MIN_INT64 <= r.value <= MAX_INT64
    ensures r.err == Some(ErrSyntax) ==> r.value == 0
  {
    if s == [] then IntParse(0, Some(ErrSyntax))
    else
      var neg := s[0] == '-';
      var body := if s[0] == '+' || s[0] == '-' then s[1..] else s;
      var u := ParseUint64(body);
      assert u.err.Some? ==> u.err.value.ErrSyntax? || u.err.value.ErrRange?;
      assert u.err.Some? ==> u.err == Some(u.err.value);
      if u.err == Some(ErrSyntax) then IntParse(0, Some(ErrSyntax))
      else if !neg && u.value >= MAX_INT64 + 1 then IntParse(MAX_INT64, Some(ErrRange))
      else if neg && u.value > MAX_INT64 + 1 then IntParse(MIN_INT64, Some(ErrRange))
      else IntParse(if neg then -u.value else u.value, None)
  }

  /** Reference reading of a digit string: its decimal value, with no bound. */
  function DecimalFrom(s: string, i: nat, acc: int): int
    requires i <= |s|
    requires forall k :: i <= k < |s| ==> IsDigit(s[k])
    decreases |s| - i
  {
    if i == |s| then acc else DecimalFrom(s, i + 1, acc * 10 + DigitValue(s[i]))
  }

  predicate AllDigits(s: string)
  {
    forall k :: 0 <= k < |s| ==> IsDigit(s[k])
  }

  function Decimal(s: string): int
    requires AllDigits(s)
  {
    DecimalFrom(s, 0, 0)
  }

  /** A decimal integer: an optional sign followed by at least one digit. */
  predicate IsDecimalInt(s: string)
  {
    |s| > 0 &&
    var body := if s[0] == '+' || s[0] == '-' then s[1..] else s;
    |body| > 0 && AllDigits(body)
  }

  function DecimalInt(s: string): int
    requires IsDecimalInt(s)
  {
    if s[0] == '-' then -Decimal(s[1..])
    else if s[0] == '+' then Decimal(s[1..])
    else Decimal(s)
  }

  lemma {:induction false} DecimalFromGrows(s: string, i: nat, acc: int)
    requires i <= |s| && 0 <= acc
    requires forall k :: i <= k < |s| ==> IsDigit(s[k])
    ensures DecimalFrom(s, i, acc) >= acc
    ensures i < |s| ==> DecimalFrom(s, i, acc) >= acc * 10
    decreases |s| - i
  {
    if i < |s| {
      DecimalFromGrows(s, i + 1, acc * 10 + DigitValue(s[i]));
    }
  }

  /** ParseUint's loop agrees with the unbounded decimal value: the value
      when it fits in a uint64, a range error otherwise. */
  lemma {:induction false} ParseUintFromDecimal(s: string, i: nat, n: uint64)
    requires i <= |s|
    requires forall k :: i <= k < |s| ==> IsDigit(s[k])
    ensures ParseUintFrom(s, i, n)
      == if DecimalFrom(s, i, n) <= MAX_UINT64 then IntParse(DecimalFrom(s, i, n), None)
         else IntParse(MAX_UINT64, Some(ErrRange))
    decreases |s| - i
  {
    if i < |s| {
      var m := n * 10 + DigitValue(s[i]);
      assert DecimalFrom(s, i, n) == DecimalFrom(s, i + 1, m);
      DecimalFromGrows(s, i + 1, m);
      if n >= CUTOFF {
        assert m > MAX_UINT64;
      } else if m <= MAX_UINT64 {
        assert (m % UINT64_MODULUS) == m;
        ParseUintFromDecimal(s, i + 1, m);
      } else {
        assert n * 10 <= MAX_UINT64;
        assert (m % UINT64_MODULUS) == m - UINT64_MODULUS;
      }
    }
  }

  /** ParseInt accepts exactly the decimal integers within the int64 range,
      and returns their value. */
  lemma ParseInt64Correct(s: string)
    ensures ParseInt64(s).err.None? <==> IsDecimalInt(s) && MIN_INT64 <= DecimalInt(s) <= MAX_INT64
    ensures ParseInt64(s).err.None? ==> ParseInt64(s).value == DecimalInt(s)
  {
    if s != [] {
      var body := if s[0] == '+' || s[0] == '-' then s[1..] else s;
      if |body| > 0 && AllDigits(body) {
        ParseUintFromDecimal(body, 0, 0);
      } else if |body| > 0 {
        var k :| 0 <= k < |body| && !IsDigit(body[k]);
        NotAllDigitsFails(body, 0, 0, k);
        var u := ParseUint64(body);
        assert u.err == Some(ErrSyntax) || u.err == Some(ErrRange) by {
          assert u.err.Some? && u.err == Some(u.err.value);
          assert u.err.value.ErrSyntax? || u.err.value.ErrRange?;
        }
        assert !IsDecimalInt(s);
      }
    }
  }

  lemma {:induction false} NotAllDigitsFails(s: string, i: nat, n: uint64, k: nat)
    requires i <= k < |s| && !IsDigit(s[k])
    ensures ParseUintFrom(s, i, n).err.Some?
    decreases |s| - i
  {
    if IsDigit(s[i]) && n < CUTOFF {
      var m := n * 10 + DigitValue(s[i]);
      if m <= MAX_UINT64 {
        NotAllDigitsFails(s, i + 1, m, k);
      }
    }
  }

  /** A decimal integer outside the int64 range is clamped to the nearer
      bound and reported as a range error. */
  lemma ParseInt64Clamps(s: string)
    requires IsDecimalInt(s) && !(MIN_INT64 <= DecimalInt(s) <= MAX_INT64)
    ensures ParseInt64(s) == IntParse(if DecimalInt(s) < 0 then MIN_INT64 else MAX_INT64, Some(ErrRange))
  {
    var body := if s[0] == '+' || s[0] == '-' then s[1..] else s;
    ParseUintFromDecimal(body, 0, 0);
  }

  /** strconv.FormatInt(n, 10), the `%d` verb: decimal digits, with a leading
      `-` for negative values. */
  function FormatNat(n: nat): (s: string)
    ensures |s| > 0 && AllDigits(s)
    decreases n
  {
    var d := [('0' as int + n % 10) as char];
    if n < 10 then d else FormatNat(n / 10) + d
  }

  function FormatInt(n: int): (s: string)
    ensures |s| > 0
  {
    if n < 0 then "-" + FormatNat(-n) else FormatNat(n)
  }

  lemma DecimalFromAppend(s: string, c: char)
    requires AllDigits(s) && IsDigit(c)
    ensures AllDigits(s + [c])
    ensures Decimal(s + [c]) == Decimal(s) * 10 + DigitValue(c)
  {
    DecimalFromAppendAt(s, c, 0, 0);
  }

  lemma {:induction false} DecimalFromAppendAt(s: string, c: char, i: nat, acc: int)
    requires i <= |s| && AllDigits(s) && IsDigit(c)
    ensures AllDigits(s + [c])
    ensures DecimalFrom(s + [c], i, acc) == DecimalFrom(s, i, acc) * 10 + DigitValue(c)
    decreases |s| - i
  {
    var t := s + [c];
    assert forall k :: 0 <= k < |t| ==> IsDigit(t[k]) by {
      forall k | 0 <= k < |t| ensures IsDigit(t[k]) {
        if k < |s| { assert t[k] == s[k]; }
      }
    }
    if i < |s| {
      assert t[i] == s[i];
      DecimalFromAppendAt(s, c, i + 1, acc * 10 + DigitValue(s[i]));
    }
  }

  lemma {:induction false} FormatNatDecimal(n: nat)
    ensures Decimal(FormatNat(n)) == n
    decreases n
  {
    var d := ('0' as int + n % 10) as char;
    if n < 10 {
      assert Decimal([d]) == DecimalFrom([d], 1, DigitValue(d));
    } else {
      FormatNatDecimal(n / 10);
      DecimalFromAppend(FormatNat(n / 10), d);
    }
  }

  /** Printing an int64 and parsing it back gives the same value. */
  lemma ParseFormatRoundTrip(n: int)
    requires MIN_INT64 <= n <= MAX_INT64
    ensures ParseInt64(FormatInt(n)) == IntParse(n, None)
  {
    var s := FormatInt(n);
    if n < 0 {
      FormatNatDecimal(-n);
      assert s[1..] == FormatNat(-n);
    } else {
      FormatNatDecimal(n);
    }
    ParseInt64Correct(s);
  }

  const TrueStrings: set<string> := {"1", "t", "T", "true", "TRUE", "True"}
  const FalseStrings: set<string> := {"0", "f", "F", "false", "FALSE", "False"}

  /** strconv.ParseBool: false and a syntax error for any other string. */
  function ParseBool(s: string): (r: (bool, Option<NumError>))
    ensures r.1.None? <==> s in TrueStrings || s in FalseStrings
    ensures r.0 <==> s in TrueStrings
  {
    if s in TrueStrings then (true, None)
    else if s in FalseStrings then (false, None)
    else (false, Some(ErrSyntax))
  }

  // ---------------------------------------------------------------------
  // parseConfigPair

  datatype ConfigValue = IntValue(i: int) | StringValue(s: string) | BoolValue(b: bool)

  datatype ConfigError =
    | InvalidFormat            // no `=` in the argument
    | NotAnInt(cause: NumError)
    | NotAFloat
    | NotABool
    | KeyNotWellKnown          // unknown key without the force flag

  /** Go's (key, val, err) triple; `None` for a nil value or error. */
  datatype ConfigPair = ConfigPair(key: string, val: Option<ConfigValue>, err: Option<ConfigError>)

  /** parseConfigPair. `isFloat` says whether strconv.ParseFloat(s, 64)
      accepts `s`. */
  function ParseConfigPair(kvStr: string, force: bool, isFloat: string -> bool): (r: ConfigPair)
    ensures r.err == Some(InvalidFormat) <==> '=' !in kvStr
    ensures r.err == Some(InvalidFormat) ==> r.key == [] && r.val.None?
    ensures r.err == Some(KeyNotWellKnown) ==> r.key == [] && r.val.None? && !force
    ensures r.err.None? ==> r.val.Some? && '=' !in r.key && exists raw :: kvStr == r.key + "=" + raw
  {
    match SplitFirst(kvStr)
    case None => ConfigPair([], None, Some(InvalidFormat))
    case Some(kv) =>
      var key, valRaw := kv.0, kv.1;
      if key in IntKeys then
        var p := ParseInt64(valRaw);
        ConfigPair(key, Some(IntValue(p.value)), if p.err.Some? then Some(NotAnInt(p.err.value)) else None)
      else if key == EigenTrustAlphaKey then
        ConfigPair(key, Some(StringValue(valRaw)), if isFloat(valRaw) then None else Some(NotAFloat))
      else if key == HomomorphicHashDisabledKey then
        var b := ParseBool(valRaw);
        ConfigPair(key, Some(BoolValue(b.0)), if b.1.Some? then Some(NotABool) else None)
      else if !force then ConfigPair([], None, Some(KeyNotWellKnown))
      else ConfigPair(key, Some(StringValue(valRaw)), None)
  }

  /** For an integer key the pair is accepted exactly when the raw value is
      a decimal int64, and then carries that number. */
  lemma IntKeyValue(key: string, raw: string, force: bool, isFloat: string -> bool)
    requires key in IntKeys
    ensures var r := ParseConfigPair(key + "=" + raw, force, isFloat);
      && r.key == key
      && (r.err.None? <==> IsDecimalInt(raw) && MIN_INT64 <= DecimalInt(raw) <= MAX_INT64)
      && (r.err.None? ==> r.val == Some(IntValue(DecimalInt(raw))))
  {
    assert '=' !in key;
    SplitFirstIsFirst(key + "=" + raw, key, raw);
    ParseInt64Correct(raw);
  }

  /** The alpha key keeps the raw text, which may itself contain `=`; it is
      accepted exactly when it parses as a float. */
  lemma AlphaKeyValue(raw: string, force: bool, isFloat: string -> bool)
    ensures var r := ParseConfigPair(EigenTrustAlphaKey + "=" + raw, force, isFloat);
      r == ConfigPair(EigenTrustAlphaKey, Some(StringValue(raw)), if isFloat(raw) then None else Some(NotAFloat))
  {
    assert EigenTrustAlphaKey[0] != BasicIncomeRateKey[0];
    assert EigenTrustAlphaKey !in IntKeys;
    SplitFirstIsFirst(EigenTrustAlphaKey + "=" + raw, EigenTrustAlphaKey, raw);
  }

  /** The homomorphic-hashing key takes one of strconv's twelve boolean
      spellings, and nothing else. */
  lemma BoolKeyValue(raw: string, force: bool, isFloat: string -> bool)
    ensures var r := ParseConfigPair(HomomorphicHashDisabledKey + "=" + raw, force, isFloat);
      && r.key == HomomorphicHashDisabledKey
      && (r.err.None? <==> raw in TrueStrings || raw in FalseStrings)
      && r.val == Some(BoolValue(raw in TrueStrings))
  {
    assert HomomorphicHashDisabledKey[0] == 'H';
    assert HomomorphicHashDisabledKey !in IntKeys && HomomorphicHashDisabledKey != EigenTrustAlphaKey;
    SplitFirstIsFirst(HomomorphicHashDisabledKey + "=" + raw, HomomorphicHashDisabledKey, raw);
  }

  /** A key that is not well known is refused without the force flag and
      taken with its raw value as a string with it. */
  lemma UnknownKeyNeedsForce(key: string, raw: string, force: bool, isFloat: string -> bool)
    requires '=' !in key && !IsWellKnownKey(key)
    ensures ParseConfigPair(key + "=" + raw, force, isFloat)
      == if force then ConfigPair(key, Some(StringValue(raw)), None)
         else ConfigPair([], None, Some(KeyNotWellKnown))
  {
    SplitFirstIsFirst(key + "=" + raw, key, raw);
  }

  // ---------------------------------------------------------------------
  // parseContractVersion

  /** The three parts of a packed version number, with Go's truncating
      division: major*1_000_000 + minor*1_000 + patch. */
  function VersionParts(v: int): (p: (int, int, int))
    ensures p.0 * 1_000_000 + p.1 * 1000 + p.2 == v
    ensures -1000 < p.1 < 1000 && -1000 < p.2 < 1000
    ensures v >= 0 ==> p.0 >= 0 && p.1 >= 0 && p.2 >= 0
    ensures v <= 0 ==> p.0 <= 0 && p.1 <= 0 && p.2 <= 0
  {
    var r := Rem(v, 1_000_000);
    var minor := Quot(r, 1000);
    var patch := Rem(v, 1000);
    assert patch == Rem(r, 1000) by {
      RemOfRem(v);
    }
    (Quot(v, 1_000_000), minor, patch)
  }

  lemma RemOfRem(v: int)
    ensures Rem(Rem(v, 1_000_000), 1000) == Rem(v, 1000)
  {
    var q := Quot(v, 1_000_000);
    var r := Rem(v, 1_000_000);
    if v >= 0 {
      assert v % 1000 == (q * 1000 * 1000 + r) % 1000;
    } else {
      assert (-v) % 1000 == (-q * 1000 * 1000 + -r) % 1000;
    }
  }

  /** The packing parts decode from: the inverse of VersionParts for the
      version numbers a contract reports. */
  lemma VersionPartsOfPacked(major: nat, minor: nat, patch: nat)
    requires minor < 1000 && patch < 1000
    ensures VersionParts(major * 1_000_000 + minor * 1000 + patch) == (major, minor, patch)
  {
    var low := minor * 1000 + patch;
    var v := major * 1_000_000 + low;
    DivModOf(major, low, 1_000_000);
    DivModOf(minor, patch, 1000);
    assert v == (major * 1000 + minor) * 1000 + patch;
    DivModOf(major * 1000 + minor, patch, 1000);
  }

  /** Euclidean division recovers quotient and remainder. */
  lemma DivModOf(q: nat, r: nat, d: nat)
    requires r < d
    ensures (q * d + r) / d == q && (q * d + r) % d == r
  {
    var x := q * d + r;
    var q', r' := x / d, x % d;
    assert (q - q') * d == r' - r;
    if q > q' {
      MulAtLeast(q - q', d);
    } else if q < q' {
      MulAtLeast(q' - q, d);
    }
  }

  lemma MulAtLeast(k: int, d: nat)
    requires k >= 1
    ensures k * d >= d
  {
    assert k * d == (k - 1) * d + d;
  }

  /** parseContractVersion. `item` is the outcome of TryInteger on the stack
      item: `None` when it is not an integer. */
  function ParseContractVersion(item: Option<int>): (s: string)
    ensures s == "unknown" <==> item.None? || item.value == 0 || !(MIN_INT64 <= item.value <= MAX_INT64)
  {
    if item.None? || item.value == 0 || !(MIN_INT64 <= item.value <= MAX_INT64) then "unknown"
    else
      var p := VersionParts(item.value);
      var s := "v" + FormatInt(p.0) + "." + FormatInt(p.1) + "." + FormatInt(p.2);
      assert s[0] == 'v' != "unknown"[0];
      s
  }

  /** A version packed from major, minor and patch prints as
      `v<major>.<minor>.<patch>`. */
  lemma ContractVersionPrintsParts(major: nat, minor: nat, patch: nat)
    requires minor < 1000 && patch < 1000
    requires 0 < major * 1_000_000 + minor * 1000 + patch <= MAX_INT64
    ensures ParseContractVersion(Some(major * 1_000_000 + minor * 1000 + patch))
      == "v" + FormatInt(major) + "." + FormatInt(minor) + "." + FormatInt(patch)
  {
    VersionPartsOfPacked(major, minor, patch);
  }

  // ---------------------------------------------------------------------
  // Integer configuration values (config.go:200-202)

  /** copy(nbuf, v) into a zeroed 8-byte buffer. */
  function PadTo8(v: seq<byte>): (buf: seq<byte>)
    ensures |buf| == 8
    ensures forall i :: 0 <= i < 8 ==> buf[i] == if i < |v| then v[i] else 0
  {
    if |v| >= 8 then v[..8] else v + seq(8 - |v|, _ => 0)
  }

  /** The unsigned number a little-endian byte string denotes. */
  function LittleEndian(b: seq<byte>): nat
  {
    if b == [] then 0 else b[0] + 256 * LittleEndian(b[1..])
  }

  function Pow256(k: nat): nat
  {
    if k == 0 then 1 else 256 * Pow256(k - 1)
  }

  lemma {:induction false} LittleEndianBound(b: seq<byte>)
    ensures LittleEndian(b) < Pow256(|b|)
  {
    if b != [] {
      LittleEndianBound(b[1..]);
    }
  }

  /** binary.LittleEndian.Uint64 of the padded buffer. */
  function DecodeConfigInt(v: seq<byte>): (n: int)
    ensures 0 <= n <= MAX_UINT64
  {
    var buf := PadTo8(v);
    LittleEndianBound(buf);
    assert Pow256(8) == UINT64_MODULUS;
    LittleEndian(buf)
  }

  lemma {:induction false} LittleEndianZeroExtended(b: seq<byte>, k: nat)
    ensures LittleEndian(b + seq(k, _ => 0)) == LittleEndian(b)
  {
    if b == [] {
      assert b + seq(k, _ => 0) == seq(k, _ => 0);
      ZerosAreZero(k);
    } else {
      assert (b + seq(k, _ => 0))[1..] == b[1..] + seq(k, _ => 0);
      LittleEndianZeroExtended(b[1..], k);
    }
  }

  lemma {:induction false} ZerosAreZero(k: nat)
    ensures LittleEndian(seq(k, _ => 0)) == 0
  {
    if k > 0 {
      assert seq(k, _ => 0)[1..] == seq(k - 1, _ => 0);
      ZerosAreZero(k - 1);
    }
  }

  /** A value of at most 8 bytes is read as its own little-endian number:
      the missing high bytes count as zero. */
  lemma ShortValueZeroExtended(v: seq<byte>)
    requires |v| <= 8
    ensures DecodeConfigInt(v) == LittleEndian(v)
  {
    assert PadTo8(v) == v + seq(8 - |v|, _ => 0);
    LittleEndianZeroExtended(v, 8 - |v|);
  }

  /** Bytes after the eighth are ignored. */
  lemma LongValueTruncated(v: seq<byte>)
    requires |v| >= 8
    ensures DecodeConfigInt(v) == LittleEndian(v[..8])
  {
  }

  /** The 8-byte little-endian encoding of a number. */
  function EncodeLittleEndian(n: nat, k: nat): (b: seq<byte>)
    ensures |b| == k
  {
    if k == 0 then [] else [n % 256] + EncodeLittleEndian(n / 256, k - 1)
  }

  lemma {:induction false} EncodeDecode(n: nat, k: nat)
    requires n < Pow256(k)
    ensures LittleEndian(EncodeLittleEndian(n, k)) == n
  {
    if k > 0 {
      EncodeDecode(n / 256, k - 1);
      var b := EncodeLittleEndian(n, k);
      assert b[1..] == EncodeLittleEndian(n / 256, k - 1);
    }
  }

  /** Every uint64 comes back from its 8-byte encoding. */
  lemma DecodeConfigIntRoundTrip(n: nat)
    requires n <= MAX_UINT64
    ensures DecodeConfigInt(EncodeLittleEndian(n, 8)) == n
  {
    assert Pow256(8) == UINT64_MODULUS;
    EncodeDecode(n, 8);
    var b := EncodeLittleEndian(n, 8);
    assert PadTo8(b) == b[..8] == b;
  }
}
