/** The register table of the scan and the decoders of its entries. */
module RegisterMap {
  import opened Text

  /** (offset, register count) of the blocks, in reading order. */
  const SETUP_BLOCKS: seq<(nat, nat)> := [(0x0000, 3), (0x0003, 8), (0x000B, 2)]
  const SERIAL_OFFSET: nat := 0x0003
  const SERIAL_REGISTER_COUNT: nat := 8
  const FIRMWARE_OFFSET: nat := 0x000B
  const POLL_BLOCKS: seq<(nat, nat)> :=
    [(0x0206, 15), (0x0217, 18), (0x023D, 6), (0x0251, 17), (0x0800, 1), (0x0820, 1), (0x0870, 98)]
  const FAULT_EVENT_OFFSET: nat := 0x0801
  const FAULT_EVENT_COUNT: nat := 20
  const PLAN: seq<(nat, nat)> := SETUP_BLOCKS + POLL_BLOCKS + [(FAULT_EVENT_OFFSET, FAULT_EVENT_COUNT)]

  /** Category and number of the one product whose identity layout is known. */
  const SUPPORTED_CATEGORY: word := 1
  const SUPPORTED_NUMBER: word := 1

  predicate IdentityBlock(offset: nat) {
    offset == SERIAL_OFFSET || offset == FIRMWARE_OFFSET
  }

  datatype Decoder = U16 | U32 | F32

  /** Plausible range; no upper end for a counter. */
  datatype Bounds = Bounds(low: int, high: Option<int>)

  datatype RegisterDef = RegisterDef(key: string, offset: nat, decoder: Decoder, counter: bool,
                                     bounds: Option<Bounds>) {
    function Count(): nat {
      if decoder.U16? then 1 else 2
    }
  }

  const POWER := Some(Bounds(-100_000, Some(100_000)))
  const PERCENT := Some(Bounds(0, Some(100)))
  const VOLTAGE := Some(Bounds(0, Some(1000)))
  const CURRENT := Some(Bounds(-1000, Some(1000)))
  const COUNTER := Some(Bounds(0, None))

  const REGISTERS: seq<RegisterDef> := [
    RegisterDef("home_w", 0x0206, F32, false, POWER),
    RegisterDef("grid_w", 0x0208, F32, false, POWER),
    RegisterDef("solar_w", 0x020A, F32, false, POWER),
    RegisterDef("batt_w", 0x020C, F32, false, POWER),
    RegisterDef("soc_pct", 0x020E, U16, false, PERCENT),
    RegisterDef("local_system_status", 0x0211, U32, false, None),
    RegisterDef("local_system_state2", 0x0213, U32, false, None),
    RegisterDef("ems_backup_ratio_pct", 0x0217, U16, false, PERCENT),
    RegisterDef("local_indicator_brightness_pct", 0x021C, U16, false, PERCENT),
    RegisterDef("ems_total_battery_capacity_wh", 0x0227, U32, false, Some(Bounds(0, Some(1_000_000)))),
    RegisterDef("batt_voltage_v", 0x023D, F32, false, VOLTAGE),
    RegisterDef("batt_current_a", 0x023F, F32, false, CURRENT),
    RegisterDef("batt_temp_c", 0x0241, F32, false, Some(Bounds(-50, Some(100)))),
    RegisterDef("pcs_ac_freq_hz", 0x0251, F32, false, Some(Bounds(45, Some(65)))),
    RegisterDef("mppt_pv1_voltage_v", 0x0253, F32, false, VOLTAGE),
    RegisterDef("mppt_pv2_voltage_v", 0x0255, F32, false, VOLTAGE),
    RegisterDef("mppt_pv1_current_a", 0x0259, F32, false, CURRENT),
    RegisterDef("mppt_pv2_current_a", 0x025B, F32, false, CURRENT),
    RegisterDef("ems_feed_power_limit_w", 0x0260, U32, false, Some(Bounds(0, Some(100_000)))),
    RegisterDef("fault_count", 0x0800, U16, false, None),
    RegisterDef("bp_online_sum", 0x0820, U16, false, None),
    RegisterDef("grid_import_lifetime_energy_kwh", 0x0870, F32, true, COUNTER),
    RegisterDef("grid_export_lifetime_energy_kwh", 0x0880, F32, true, COUNTER),
    RegisterDef("batt_charge_energy_kwh", 0x08B0, F32, true, COUNTER),
    RegisterDef("batt_discharge_energy_kwh", 0x08C0, F32, true, COUNTER),
    RegisterDef("solar_lifetime_energy_kwh", 0x08D0, F32, true, COUNTER)
  ]

  /** A decoded register: a whole number, or the bit pattern of a 32-bit float. */
  datatype Decoded = Unsigned(value: nat) | Float(bits: nat)

  /** Two registers hold the low word first. */
  function Decode(decoder: Decoder, words: seq<word>): Decoded
    requires |words| == if decoder.U16? then 1 else 2
  {
    match decoder
    case U16 => Unsigned(words[0])
    case U32 => Unsigned(words[1] as int * 0x1_0000 + words[0])
    case F32 => Float(words[1] as int * 0x1_0000 + words[0])
  }

  // ----------------------------------------------------- what a float stands for

  function BitsOf(negative: bool, exponent: nat, fraction: nat): nat {
    (if negative then 0x8000_0000 else 0) + exponent * 0x80_0000 + fraction
  }

  /** The pattern of one is one; the number doubles with the exponent, and the sign bit negates it. */
  lemma FloatExponent(exponent: nat, fraction: nat)
    requires exponent < 0xFF && fraction < 0x80_0000
    ensures IsFinite(Float(0x3F80_0000)) && ValueOf(Float(0x3F80_0000)) == 1.0
    ensures IsFinite(Float(BitsOf(false, exponent, fraction))) && IsFinite(Float(BitsOf(true, exponent, fraction)))
    ensures ValueOf(Float(BitsOf(true, exponent, fraction))) == -ValueOf(Float(BitsOf(false, exponent, fraction)))
    ensures (1 <= exponent < 0xFE ==>
      && IsFinite(Float(BitsOf(false, exponent + 1, fraction)))
      && ValueOf(Float(BitsOf(false, exponent + 1, fraction)))
           == 2.0 * ValueOf(Float(BitsOf(false, exponent, fraction))))
  {
    hide ValueOf, IsFinite, Exp2, BitsOf;
    PatternOfOne();
    ValueOfParts(false, 127, 0);
    ValueOfParts(false, exponent, fraction);
    ValueOfParts(true, exponent, fraction);
    if 1 <= exponent < 0xFE {
      ValueOfParts(false, exponent + 1, fraction);
      ExpDoubles(exponent - 150);
      Scaled(0x80_0000 + fraction, 2, Exp2(exponent - 150));
    }
    OneIsOne();
  }

  lemma PatternOfOne()
    ensures BitsOf(false, 127, 0) == 0x3F80_0000
  {
  }

  /** Within one exponent the numbers are evenly spaced; the smallest exponent has the spacing of the next. */
  lemma FloatFraction(exponent: nat, fraction: nat)
    requires exponent < 0xFF && fraction < 0x80_0000
    ensures IsFinite(Float(BitsOf(false, exponent, fraction))) && IsFinite(Float(BitsOf(false, exponent, 0)))
    ensures (exponent >= 1 ==>
      ValueOf(Float(BitsOf(false, exponent, fraction))) * 8388608.0
        == (8388608 + fraction) as real * ValueOf(Float(BitsOf(false, exponent, 0))))
    ensures (exponent == 0 ==>
      && IsFinite(Float(BitsOf(false, 1, 0)))
      && ValueOf(Float(BitsOf(false, 0, fraction))) * 8388608.0
           == fraction as real * ValueOf(Float(BitsOf(false, 1, 0))))
  {
    hide ValueOf, IsFinite, Exp2, BitsOf;
    ValueOfParts(false, exponent, fraction);
    ValueOfParts(false, exponent, 0);
    ValueOfParts(false, 1, 0);
    if exponent == 0 {
      Scaled(fraction, 0x80_0000, Exp2(-149));
    } else {
      Scaled(0x80_0000 + fraction, 0x80_0000, Exp2(exponent - 150));
    }
  }

  lemma Scaled(a: nat, b: nat, x: real)
    ensures (a as real * x) * b as real == a as real * (b as real * x)
  {
  }

  lemma ValueOfParts(negative: bool, exponent: nat, fraction: nat)
    requires exponent < 0xFF && fraction < 0x80_0000
    ensures IsFinite(Float(BitsOf(negative, exponent, fraction)))
    ensures var magnitude := if exponent == 0 then fraction as real * Exp2(-149)
                             else (0x80_0000 + fraction) as real * Exp2(exponent - 150);
      ValueOf(Float(BitsOf(negative, exponent, fraction))) == if negative then -magnitude else magnitude
  {
    var bits := BitsOf(negative, exponent, fraction);
    assert bits / 0x80_0000 == (if negative then 0x100 else 0) + exponent;
    assert bits / 0x8000_0000 == if negative then 1 else 0;
    hide Exp2;
  }

  lemma ExpDoubles(e: int)
    ensures Exp2(e + 1) == 2.0 * Exp2(e)
  {
  }

  lemma ExpTimes16(e: int)
    ensures Exp2(e + 4) == 16.0 * Exp2(e)
  {
    hide Exp2;
    ExpDoubles(e);
    ExpDoubles(e + 1);
    ExpDoubles(e + 2);
    ExpDoubles(e + 3);
  }

  lemma OneIsOne()
    ensures 0x80_0000 as real * Exp2(-23) == 1.0
  {
    assert Exp2(0) == 1.0;
    hide Exp2;
    ExpTimes16(-23);
    ExpTimes16(-19);
    ExpTimes16(-15);
    ExpTimes16(-11);
    ExpTimes16(-7);
    ExpDoubles(-3);
    ExpDoubles(-2);
    ExpDoubles(-1);
  }

  predicate IsFinite(d: Decoded) {
    d.Float? ==> d.bits / 0x80_0000 % 0x100 != 0xFF
  }

  function Exp2(e: int): real
    decreases if e < 0 then -e else e
  {
    if e == 0 then 1.0 else if e > 0 then 2.0 * Exp2(e - 1) else Exp2(e + 1) / 2.0
  }

  /** The number a decoded register stands for. */
  function ValueOf(d: Decoded): real
    requires IsFinite(d)
  {
    match d
    case Unsigned(v) => v as real
    case Float(bits) =>
      var exponent, fraction := bits / 0x80_0000 % 0x100, bits % 0x80_0000;
      var magnitude := if exponent == 0 then fraction as real * Exp2(-149)
                       else (0x80_0000 + fraction) as real * Exp2(exponent - 150);
      if bits / 0x8000_0000 % 2 == 1 then -magnitude else magnitude
  }

  datatype Plausibility = Plausible | Implausible | NoRangeCheck

  function PlausibilityOf(d: Decoded, bounds: Option<Bounds>): Plausibility {
    if !IsFinite(d) then Implausible
    else match bounds
      case None => NoRangeCheck
      case Some(b) =>
        if b.low as real <= ValueOf(d) && (b.high.Some? ==> ValueOf(d) <= b.high.value as real)
        then Plausible else Implausible
  }

  /** Every register of the table lies behind the identity blocks. */
  lemma TableIsClearOfIdentity()
    ensures forall i | 0 <= i < |REGISTERS| :: REGISTERS[i].offset >= FIRMWARE_OFFSET + 2
  {
  }
}
