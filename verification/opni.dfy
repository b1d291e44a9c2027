/**
  Loading a WOPN instrument as an FM instrument (YM2608 / OPN register
  packing). Each operator's register bytes are split into bit fields; the four
  WOPN operators are taken in the order 0, 2, 1, 3 to make operators 1 to 4.
  An LFO is attached only when the LFO sensitivity byte is non-zero, and an
  arpeggio only when the note offset is non-zero. The envelope, LFO and
  arpeggio slots come from the instrument manager; its "no free slot" answer
  (a negative number) makes the load fail as a corrupt bank.
 */
module Opni {
  import opened Wrappers
  import opened Bytes
  import opened Arith

  /** The WOPN note offset is a signed 16-bit field. */
  type Int16 = x: int | -0x8000 <= x < 0x8000

  datatype WopnOperator = WopnOperator(
    dtfm: Byte, level: Byte, rsatk: Byte, amdecay1: Byte, decay2: Byte, susrel: Byte, ssgeg: Byte)

  const ZERO_OPERATOR: WopnOperator := WopnOperator(0, 0, 0, 0, 0, 0, 0)

  type WopnOperators = s: seq<WopnOperator> | |s| == 4
    witness [ZERO_OPERATOR, ZERO_OPERATOR, ZERO_OPERATOR, ZERO_OPERATOR]

  datatype WopnInstrument = WopnInstrument(
    name: string, noteOffset: Int16, fbalg: Byte, lfosens: Byte, operators: WopnOperators)

  /** One FM operator's envelope parameters; SSG-EG is -1 when off. */
  datatype FmOperator = FmOperator(
    ml: int, dt: int, tl: int, ks: int, ar: int, dr: int, sr: int, rr: int, sl: int, ssgeg: int)

  /** The LFO: its slot, PMS, AMS and the amplitude-modulation switch of operators 1 to 4. */
  datatype FmLfo = FmLfo(slot: int, pms: int, ams: int, am: seq<int>)

  /** The arpeggio: its slot and the one absolute sequence value at index 0. */
  datatype FmArpeggio = FmArpeggio(slot: int, value: int)

  datatype FmInstrument = FmInstrument(
    number: int, name: string, envelope: int, al: int, fb: int,
    ops: seq<FmOperator>, lfo: Option<FmLfo>, arp: Option<FmArpeggio>)

  /** The free slots the instrument manager reports, negative when there is none. */
  datatype FreeSlots = FreeSlots(envelope: int, lfo: int, arpeggio: int)

  datatype LoadError = BankCorrupted

  /** An operator's parameters within their register fields. */
  predicate InRange(op: FmOperator) {
    && 0 <= op.ml < 16 && 0 <= op.dt < 8 && 0 <= op.tl < 256 && 0 <= op.ks < 4
    && 0 <= op.ar < 32 && 0 <= op.dr < 32 && 0 <= op.sr < 32 && 0 <= op.rr < 16 && 0 <= op.sl < 16
    && -1 <= op.ssgeg < 8
  }

  /**
    One operator's bit fields, read as arithmetic on the values of its register
    bytes: ML low nibble and DT bits 4-6 of DT/ML, TL the whole level byte, KS
    the top two bits and AR the low five bits of RS/AR, DR and SR the low five
    bits of their bytes, RR low and SL high nibble of SL/RR, and SSG-EG the low
    three bits when bit 3 is set, else -1.
   */
  function DecodeRegisters(dtfm: int, level: int, rsatk: int, amdecay1: int, decay2: int, susrel: int, ssgeg: int)
    : (r: FmOperator)
    requires 0 <= dtfm < 256 && 0 <= level < 256 && 0 <= rsatk < 256 && 0 <= amdecay1 < 256
    requires 0 <= decay2 < 256 && 0 <= susrel < 256 && 0 <= ssgeg < 256
    ensures InRange(r)
  {
    FmOperator(
      dtfm % 16, dtfm / 16 % 8, level,
      rsatk / 64, rsatk % 32,
      amdecay1 % 32, decay2 % 32,
      susrel % 16, susrel / 16,
      if ssgeg / 8 % 2 == 1 then ssgeg % 8 else -1)
  }

  /** An operator's parameters, decoded from the values of its seven register bytes. */
  function DecodeOperator(op: WopnOperator): (r: FmOperator)
    ensures InRange(r)
  {
    DecodeRegisters(op.dtfm as int, op.level as int, op.rsatk as int, op.amdecay1 as int,
                    op.decay2 as int, op.susrel as int, op.ssgeg as int)
  }

  /** The decoded fields are the masks and shifts of the register bytes. */
  lemma DecodeOperatorMasks(op: WopnOperator)
    ensures var r := DecodeOperator(op);
            && r.ml == (op.dtfm & 15) as int && r.dt == ((op.dtfm >> 4) & 7) as int
            && r.tl == op.level as int
            && r.ks == (op.rsatk >> 6) as int && r.ar == (op.rsatk & 31) as int
            && r.dr == (op.amdecay1 & 31) as int && r.sr == (op.decay2 & 31) as int
            && r.rr == (op.susrel & 15) as int && r.sl == (op.susrel >> 4) as int
            && r.ssgeg == if op.ssgeg & 8 != 0 then (op.ssgeg & 7) as int else -1
  {
    LowBits4(op.dtfm); Shift4(op.dtfm); LowBits3(op.dtfm >> 4);
    Shift6(op.rsatk); LowBits5(op.rsatk);
    LowBits5(op.amdecay1); LowBits5(op.decay2);
    LowBits4(op.susrel); Shift4(op.susrel);
    Bit3(op.ssgeg); LowBits3(op.ssgeg);
  }

  /** The amplitude-modulation switch: the top bit of the first decay byte. */
  function AmBit(op: WopnOperator): (am: int)
    ensures 0 <= am <= 1
  {
    op.amdecay1 as int / 128
  }

  lemma AmBitMask(op: WopnOperator)
    ensures AmBit(op) == (op.amdecay1 >> 7) as int
  {
    Shift7(op.amdecay1);
  }

  /** WOPN operator index for operators 1 to 4. */
  function OperatorSource(n: nat): (k: nat)
    requires n < 4
    ensures k < 4
  {
    [0, 2, 1, 3][n]
  }

  /**
    The load: AL is the low three bits and FB bits 3-5 of FB/ALG; PMS is the
    low three bits and AMS bits 4-5 of the LFO sensitivity byte.
   */
  function LoadWopnInstrument(src: WopnInstrument, number: int, free: FreeSlots): (r: Result<FmInstrument, LoadError>)
    ensures r.Failure? <==> (free.envelope < 0 || (src.lfosens != 0 && free.lfo < 0)
                             || (src.noteOffset != 0 && free.arpeggio < 0))
    ensures r.Success? ==>
              && r.value.number == number && r.value.name == src.name && r.value.envelope == free.envelope
              && r.value.al == src.fbalg as int % 8 && r.value.fb == src.fbalg as int / 8 % 8
              && |r.value.ops| == 4
              && (forall n :: 0 <= n < 4 ==> r.value.ops[n] == DecodeOperator(src.operators[OperatorSource(n)]))
              && (r.value.lfo.Some? <==> src.lfosens != 0)
              && (r.value.arp.Some? <==> src.noteOffset != 0)
    ensures r.Success? && r.value.lfo.Some? ==>
              var lfo := r.value.lfo.value;
              && lfo.slot == free.lfo
              && lfo.pms == src.lfosens as int % 8 && lfo.ams == src.lfosens as int / 16 % 4
              && |lfo.am| == 4
              && (forall n :: 0 <= n < 4 ==> lfo.am[n] == AmBit(src.operators[OperatorSource(n)]))
    ensures r.Success? && r.value.arp.Some? ==>
              r.value.arp.value == FmArpeggio(free.arpeggio, src.noteOffset + 48)
  {
    if free.envelope < 0 then Failure(BankCorrupted)
    else if src.lfosens != 0 && free.lfo < 0 then Failure(BankCorrupted)
    else if src.noteOffset != 0 && free.arpeggio < 0 then Failure(BankCorrupted)
    else
      var op := [src.operators[0], src.operators[2], src.operators[1], src.operators[3]];
      var ops := [DecodeOperator(op[0]), DecodeOperator(op[1]), DecodeOperator(op[2]), DecodeOperator(op[3])];
      var lfo :=
        if src.lfosens != 0 then
          Some(FmLfo(free.lfo, src.lfosens as int % 8, src.lfosens as int / 16 % 4,
                     [AmBit(op[0]), AmBit(op[1]), AmBit(op[2]), AmBit(op[3])]))
        else None;
      var arp := if src.noteOffset != 0 then Some(FmArpeggio(free.arpeggio, src.noteOffset + 48)) else None;
      Success(FmInstrument(number, src.name, free.envelope,
                           src.fbalg as int % 8, src.fbalg as int / 8 % 8, ops, lfo, arp))
  }

  /** AL, FB, PMS and AMS are the masks and shifts the loader applies to their bytes. */
  lemma LoadMasks(src: WopnInstrument, number: int, free: FreeSlots)
    requires LoadWopnInstrument(src, number, free).Success?
    ensures var inst := LoadWopnInstrument(src, number, free).value;
            && inst.al == (src.fbalg & 7) as int && inst.fb == ((src.fbalg >> 3) & 7) as int
            && (inst.lfo.Some? ==> inst.lfo.value.pms == (src.lfosens & 7) as int
                                   && inst.lfo.value.ams == ((src.lfosens >> 4) & 3) as int)
  {
    LowBits3(src.fbalg); Shift3(src.fbalg); LowBits3(src.fbalg >> 3);
    LowBits3(src.lfosens); Shift4(src.lfosens); LowBits2(src.lfosens >> 4);
  }

  /** Packs in-range parameters and an AM switch back into register bytes. */
  function EncodeOperator(p: FmOperator, am: int): (op: WopnOperator)
    requires InRange(p) && 0 <= am <= 1
  {
    WopnOperator(
      ToByte(p.dt * 16 + p.ml), ToByte(p.tl), ToByte(p.ks * 64 + p.ar),
      ToByte(am * 128 + p.dr), ToByte(p.sr), ToByte(p.sl * 16 + p.rr),
      ToByte(if p.ssgeg == -1 then 0 else 8 + p.ssgeg))
  }

  /** DT/ML packed as DT * 16 + ML splits back into ML and DT. */
  lemma DtMlFields(dt: nat, ml: nat)
    requires dt < 8 && ml < 16
    ensures (dt * 16 + ml) % 16 == ml && (dt * 16 + ml) / 16 % 8 == dt
  {
    Unpack(dt, ml, 16);
  }

  /** RS/AR packed as KS * 64 + AR splits back into KS and AR. */
  lemma KsArFields(ks: nat, ar: nat)
    requires ks < 4 && ar < 32
    ensures (ks * 64 + ar) / 64 == ks && (ks * 64 + ar) % 32 == ar
  {
    Unpack(ks, ar, 64);
    assert ks * 64 == ks * 2 * 32;
    Unpack(ks * 2, ar, 32);
  }

  /** AM/DR packed as AM * 128 + DR splits back into AM and DR. */
  lemma AmDrFields(am: nat, dr: nat)
    requires am <= 1 && dr < 32
    ensures (am * 128 + dr) / 128 == am && (am * 128 + dr) % 32 == dr
  {
    Unpack(am, dr, 128);
    assert am * 128 == am * 4 * 32;
    Unpack(am * 4, dr, 32);
  }

  /** SSG-EG packed as 8 + mode reads back as enabled with that mode. */
  lemma SsgEgFields(mode: nat)
    requires mode < 8
    ensures (8 + mode) / 8 % 2 == 1 && (8 + mode) % 8 == mode
  {
    Unpack(1, mode, 8);
  }

  /** Decoding undoes encoding for every in-range operator and AM switch. */
  lemma DecodeEncodeOperator(p: FmOperator, am: int)
    requires InRange(p) && 0 <= am <= 1
    ensures DecodeOperator(EncodeOperator(p, am)) == p
    ensures AmBit(EncodeOperator(p, am)) == am
  {
    var op := EncodeOperator(p, am);
    DtMlFields(p.dt, p.ml);
    KsArFields(p.ks, p.ar);
    AmDrFields(am, p.dr);
    Unpack(p.sl, p.rr, 16);
    if p.ssgeg != -1 {
      SsgEgFields(p.ssgeg);
    }
    var r := DecodeOperator(op);
    assert r.ml == p.ml && r.dt == p.dt && r.tl == p.tl;
    assert r.ks == p.ks && r.ar == p.ar && r.dr == p.dr && r.sr == p.sr;
    assert r.rr == p.rr && r.sl == p.sl && r.ssgeg == p.ssgeg;
  }

  /** x mod 2^7, then split at bit 4, is the low nibble and bits 4-6 of x. */
  lemma Low7(x: nat)
    ensures x % 128 % 16 == x % 16 && x % 128 / 16 == x / 16 % 8
  {
    var q, r := x / 128, x % 128;
    DivModUnique(x, 16, q * 8 + r / 16, r % 16);
    DivModUnique(x / 16, 8, q, r / 16);
  }

  /** x mod 2^4, split at bit 3, is bit 3 and the low three bits of x. */
  lemma Low4(x: nat)
    ensures x % 16 / 8 == x / 8 % 2 && x % 16 % 8 == x % 8
  {
    var q, r := x / 16, x % 16;
    DivModUnique(x, 8, q * 2 + r / 8, r % 8);
    DivModUnique(x / 8, 2, q, r / 8);
  }

  /** Decoding reads only the masked bits: bytes that agree on them decode alike. */
  lemma DecodeIgnoresUnusedBits(a: WopnOperator, b: WopnOperator)
    requires a.dtfm as int % 128 == b.dtfm as int % 128 && a.level == b.level
    requires a.rsatk as int / 64 == b.rsatk as int / 64 && a.rsatk as int % 32 == b.rsatk as int % 32
    requires a.amdecay1 as int % 32 == b.amdecay1 as int % 32 && a.decay2 as int % 32 == b.decay2 as int % 32
    requires a.susrel == b.susrel && a.ssgeg as int % 16 == b.ssgeg as int % 16
    ensures DecodeOperator(a) == DecodeOperator(b)
  {
    Low7(a.dtfm as int); Low7(b.dtfm as int);
    Low4(a.ssgeg as int); Low4(b.ssgeg as int);
  }

  /** The operator order 0, 2, 1, 3 is its own inverse. */
  lemma OperatorOrderInvolution(n: nat)
    requires n < 4
    ensures OperatorSource(OperatorSource(n)) == n
  {}

  /** The WOPN record a loaded instrument came from, as far as the load reads it. */
  function EncodeInstrument(inst: FmInstrument, noteOffset: Int16, lfosens: Byte, am: seq<int>): (src: WopnInstrument)
    requires 0 <= inst.al < 8 && 0 <= inst.fb < 8 && |inst.ops| == 4
    requires forall n :: 0 <= n < 4 ==> InRange(inst.ops[n])
    requires |am| == 4 && forall n :: 0 <= n < 4 ==> 0 <= am[n] <= 1
    ensures src.name == inst.name && src.noteOffset == noteOffset && src.lfosens == lfosens
    ensures src.fbalg as int == inst.fb * 8 + inst.al
    ensures forall n :: 0 <= n < 4 ==> src.operators[OperatorSource(n)] == EncodeOperator(inst.ops[n], am[n])
  {
    var ops := seq(4, k requires 0 <= k < 4 => EncodeOperator(inst.ops[OperatorSource(k)], am[OperatorSource(k)]));
    assert forall n :: 0 <= n < 4 ==> OperatorSource(OperatorSource(n)) == n;
    WopnInstrument(inst.name, noteOffset, ToByte(inst.fb * 8 + inst.al), lfosens, ops)
  }

  /**
    Round trip at instrument level: the record built from in-range parameters
    loads back to the same operators in the same order, the same AL and FB,
    and an LFO and arpeggio exactly when the source fields ask for them.
   */
  lemma LoadEncodedInstrument(inst: FmInstrument, noteOffset: Int16, lfosens: Byte, am: seq<int>, free: FreeSlots)
    requires 0 <= inst.al < 8 && 0 <= inst.fb < 8 && |inst.ops| == 4
    requires forall n :: 0 <= n < 4 ==> InRange(inst.ops[n])
    requires |am| == 4 && forall n :: 0 <= n < 4 ==> 0 <= am[n] <= 1
    requires free.envelope >= 0 && free.lfo >= 0 && free.arpeggio >= 0
    ensures var r := LoadWopnInstrument(EncodeInstrument(inst, noteOffset, lfosens, am), inst.number, free);
            && r.Success?
            && r.value.ops == inst.ops && r.value.al == inst.al && r.value.fb == inst.fb
            && (r.value.lfo.Some? <==> lfosens != 0) && (r.value.arp.Some? <==> noteOffset != 0)
            && (r.value.lfo.Some? ==> r.value.lfo.value.am == am)
  {
    var src := EncodeInstrument(inst, noteOffset, lfosens, am);
    var r := LoadWopnInstrument(src, inst.number, free);
    assert r.Success?;
    assert r.value.ops == inst.ops && (r.value.lfo.Some? ==> r.value.lfo.value.am == am) by {
      EncodedOperatorsDecode(inst, noteOffset, lfosens, am);
      LoadedOperators(src, inst.number, free, inst.ops, am);
    }
    assert r.value.al == inst.al && r.value.fb == inst.fb by {
      LoadedAlgorithm(src, inst.number, free, inst.al, inst.fb);
    }
  }

  /** A successful load's AL and FB, for a FB/ALG byte packed as FB * 8 + AL. */
  lemma LoadedAlgorithm(src: WopnInstrument, number: int, free: FreeSlots, al: nat, fb: nat)
    requires LoadWopnInstrument(src, number, free).Success?
    requires al < 8 && fb < 8 && src.fbalg as int == fb * 8 + al
    ensures LoadWopnInstrument(src, number, free).value.al == al
    ensures LoadWopnInstrument(src, number, free).value.fb == fb
  {
    AlgFbFields(fb, al);
  }

  /** FB/ALG packed as FB * 8 + AL splits back into AL and FB. */
  lemma AlgFbFields(fb: nat, al: nat)
    requires fb < 8 && al < 8
    ensures (fb * 8 + al) % 8 == al && (fb * 8 + al) / 8 % 8 == fb
  {
    Unpack(fb, al, 8);
  }

  /** A successful load's operators and AM switches, given what each source operator decodes to. */
  lemma LoadedOperators(src: WopnInstrument, number: int, free: FreeSlots, ops: seq<FmOperator>, am: seq<int>)
    requires LoadWopnInstrument(src, number, free).Success?
    requires |ops| == 4 && forall n :: 0 <= n < 4 ==> DecodeOperator(src.operators[OperatorSource(n)]) == ops[n]
    requires |am| == 4 && forall n :: 0 <= n < 4 ==> AmBit(src.operators[OperatorSource(n)]) == am[n]
    ensures var inst := LoadWopnInstrument(src, number, free).value;
            inst.ops == ops && (inst.lfo.Some? ==> inst.lfo.value.am == am)
  {
  }

  lemma EncodedOperatorsDecode(inst: FmInstrument, noteOffset: Int16, lfosens: Byte, am: seq<int>)
    requires 0 <= inst.al < 8 && 0 <= inst.fb < 8 && |inst.ops| == 4
    requires forall n :: 0 <= n < 4 ==> InRange(inst.ops[n])
    requires |am| == 4 && forall n :: 0 <= n < 4 ==> 0 <= am[n] <= 1
    ensures var src := EncodeInstrument(inst, noteOffset, lfosens, am);
            forall n :: 0 <= n < 4 ==> DecodeOperator(src.operators[OperatorSource(n)]) == inst.ops[n]
                                       && AmBit(src.operators[OperatorSource(n)]) == am[n]
  {
    forall n | 0 <= n < 4 {
      DecodeEncodeOperator(inst.ops[n], am[n]);
    }
  }
}
