/** The pin and converter handling of subpad-mouse.c: register writes that are taken back bit by
    bit. Registers are plain storage, and each wait for the converter may time out. */
module Subpad {
  // ----- the pin function registers

  /** The eight registers that the program saves. */
  datatype Pins = Pins(
    pgcr: bv16, phcr: bv16, plcr: bv16, psele: bv16, mselcra: bv16, pfcA: bv16, pgdr: bv8, phdr: bv8)

  function Rmw16(current: bv16, mask: bv16, value: bv16): bv16 { (current & !mask) | (value & mask) }

  function Rmw8(current: bv8, mask: bv8, value: bv8): bv8 { (current & !mask) | (value & mask) }

  /** base_pfc. */
  function Base(p: Pins): Pins {
    p.(pgdr := 0, phcr := Rmw16(p.phcr, 0x0300, 0x0100),
       plcr := Rmw16(p.plcr, 0x000c, 0), psele := Rmw16(p.psele, 0x0c00, 0))
  }

  /** normal_rest once the converter has proved idle. */
  function Rest(p: Pins, high: bool): Pins {
    var b := Base(p);
    b.(pgcr := 0xaaaa, pgdr := 0, phdr := Rmw8(b.phdr, 0x10, if high then 0x10 else 0))
  }

  /** read_adc's routing of the pins to the converter. */
  function Route(p: Pins): Pins {
    p.(pfcA := Rmw16(p.pfcA, 0xf000, 0x5000), pgcr := 0, mselcra := Rmw16(p.mselcra, 0x0300, 0))
  }

  /** The pen line read as an input, in read_pen. */
  function Sensing(p: Pins): Pins { p.(plcr := Rmw16(p.plcr, 0x000c, 0x0008)) }

  /** restore_pfc. */
  function Restored(p: Pins, saved: Pins): Pins {
    Pins(
      saved.pgcr, Rmw16(p.phcr, 0x0300, saved.phcr),
      Rmw16(p.plcr, 0x000c, saved.plcr), Rmw16(p.psele, 0x0c00, saved.psele),
      Rmw16(p.mselcra, 0x0300, saved.mselcra), Rmw16(p.pfcA, 0xf000, saved.pfcA),
      saved.pgdr, Rmw8(p.phdr, 0x10, saved.phdr))
  }

  predicate Same16(p: bv16, q: bv16, mask: bv16) { p & !mask == q & !mask }

  /** The bits of a register that no step may change are as they were saved. */
  ghost predicate Kept(p: Pins, saved: Pins) {
    && Same16(p.phcr, saved.phcr, 0x0300) && Same16(p.plcr, saved.plcr, 0x000c) && Same16(p.psele, saved.psele, 0x0c00)
    && Same16(p.mselcra, saved.mselcra, 0x0300) && Same16(p.pfcA, saved.pfcA, 0xf000)
    && p.phdr & 0xef == saved.phdr & 0xef
  }

  lemma Rmw16Keeps(p: bv16, q: bv16, mask: bv16, value: bv16)
    requires Same16(p, q, mask)
    ensures Same16(Rmw16(p, mask, value), q, mask)
  {
  }

  lemma Rmw16Restores(p: bv16, q: bv16, mask: bv16)
    requires Same16(p, q, mask)
    ensures Rmw16(p, mask, q) == q
  {
  }

  lemma Rmw8Bits(p: bv8, q: bv8, value: bv8)
    requires p & 0xef == q & 0xef
    ensures Rmw8(p, 0x10, value) & 0xef == q & 0xef && Rmw8(p, 0x10, q) == q
  {
  }

  lemma BaseKeeps(p: Pins, saved: Pins)
    requires Kept(p, saved)
    ensures Kept(Base(p), saved)
  {
    hide Rmw16, Same16;
    Rmw16Keeps(p.phcr, saved.phcr, 0x0300, 0x0100);
    Rmw16Keeps(p.plcr, saved.plcr, 0x000c, 0);
    Rmw16Keeps(p.psele, saved.psele, 0x0c00, 0);
  }

  lemma RestKeeps(p: Pins, saved: Pins, high: bool)
    requires Kept(p, saved)
    ensures Kept(Rest(p, high), saved)
  {
    hide Rmw16, Rmw8, Same16;
    BaseKeeps(p, saved);
    Rmw8Bits(p.phdr, saved.phdr, if high then 0x10 else 0);
  }

  lemma RouteKeeps(p: Pins, saved: Pins)
    requires Kept(p, saved)
    ensures Kept(Route(p), saved)
  {
    hide Rmw16, Same16;
    Rmw16Keeps(p.pfcA, saved.pfcA, 0xf000, 0x5000);
    Rmw16Keeps(p.mselcra, saved.mselcra, 0x0300, 0);
  }

  lemma PenKeeps(p: Pins, saved: Pins)
    requires Kept(p, saved)
    ensures Kept(Base(Sensing(p)), saved)
  {
    hide Rmw16, Same16;
    Rmw16Keeps(p.plcr, saved.plcr, 0x000c, 0x0008);
    BaseKeeps(Sensing(p), saved);
  }

  /** Once only saved bits have changed, restoring brings every bit of every register back. */
  lemma RestoreUndoes(p: Pins, saved: Pins)
    requires Kept(p, saved)
    ensures Restored(p, saved) == saved
  {
    hide Rmw16, Rmw8, Same16;
    Rmw16Restores(p.phcr, saved.phcr, 0x0300);
    Rmw16Restores(p.plcr, saved.plcr, 0x000c);
    Rmw16Restores(p.psele, saved.psele, 0x0c00);
    Rmw16Restores(p.mselcra, saved.mselcra, 0x0300);
    Rmw16Restores(p.pfcA, saved.pfcA, 0xf000);
    Rmw8Bits(p.phdr, saved.phdr, 0);
  }

  // ----- the converter

  /** What wait_clear finds, call after call: the busy bit clears in time, or not. */
  type Waits = nat -> bool

  datatype Outcome = Valid | Invalid | FatalClean | FatalDirty

  /** The converter: where its waits stand, and whether it was last seen idle. */
  datatype Adc = Adc(waits: Waits, next: nat, idle: bool)

  function Waited(a: Adc): Adc { a.(next := a.next + 1, idle := a.waits(a.next)) }

  /** normal_rest: the pins are touched only once both waits have found the converter idle. */
  function NormalRest(p: Pins, a: Adc, high: bool): (Pins, Adc, bool) {
    var b := Waited(a);
    if !b.idle then (p, b, false)
    else
      var c := Waited(b);
      if !c.idle then (p, c, false) else (Rest(p, high), c, true)
  }

  /** The end of read_adc after a wait that timed out: emergency_abort_idle, then the rest. */
  function Abort(p: Pins, a: Adc): (Pins, Adc, Outcome) {
    var b := Waited(a);
    if !b.idle then (p, b, FatalDirty)
    else
      var c := Waited(b);
      if !c.idle then (p, c, FatalDirty)
      else
        var (q, d, ok) := NormalRest(p, c, true);
        (q, d, if ok then FatalClean else FatalDirty)
  }

  /** The four conversion results, each ten bits. */
  datatype Raw = Raw(a: nat, b: nat, c: nat, d: nat) {
    ghost predicate TenBits() { a < 1024 && b < 1024 && c < 1024 && d < 1024 }
  }

  datatype Sample = Sample(x: nat, y: nat)

  function SmallAbs(v: int): nat { if v < 0 then -v else v }

  function RawValid(r: Raw): bool { SmallAbs(1023 - r.b - r.a) <= 64 && SmallAbs(1023 - r.d - r.c) <= 64 }

  function Measured(r: Raw): Sample
    requires r.TenBits()
  {
    Sample((r.c - r.d + 1023) / 2 % 1024, (r.a - r.b + 1023) / 2 % 1024)
  }

  /** read_adc: the pins, the converter and the outcome. */
  function ReadAdc(p: Pins, a: Adc, r: Raw): (Pins, Adc, Outcome) {
    var (q, b, ok) := NormalRest(p, a, false);
    if !ok then (q, b, FatalDirty)
    else
      var s := Route(q);
      var c := Waited(b);
      if !c.idle then Abort(s, c)
      else
        var d := Waited(c);
        if !d.idle then Abort(s, d)
        else
          var (t, e, rested) := NormalRest(s, d, true);
          (t, e, if !rested then FatalDirty else if RawValid(r) then Valid else Invalid)
  }

  /** The pin state that firmware leaves: every pin at rest, the drive high. */
  predicate RestsHigh(p: Pins) {
    && p.pgcr == 0xaaaa && p.pgdr == 0 && p.phcr & 0x0300 == 0x0100
    && p.plcr & 0x000c == 0 && p.psele & 0x0c00 == 0 && p.phdr & 0x10 == 0x10
  }

  lemma RestIsHigh(p: Pins)
    ensures RestsHigh(Rest(p, true))
  {
  }

  /** A valid measurement is not bent by its masks, and lies within 32 of the raw pair it comes from. */
  lemma MeasuredIsClose(r: Raw)
    requires r.TenBits()
    ensures Measured(r) == Sample((r.c - r.d + 1023) / 2, (r.a - r.b + 1023) / 2)
    ensures RawValid(r) ==> SmallAbs(Measured(r).x - r.c) <= 32 && SmallAbs(Measured(r).y - r.a) <= 32
  {
    assert 0 <= r.c - r.d + 1023 < 2048 && 0 <= r.a - r.b + 1023 < 2048;
  }

  /** Whatever the waits find, reading the converter changes saved bits only; unless it reports
      dirty, the converter is idle and the pins rest high; it reports dirty whenever it was last
      seen busy. */
  lemma ReadAdcKeeps(p: Pins, a: Adc, r: Raw, saved: Pins)
    requires Kept(p, saved)
    ensures var (q, b, outcome) := ReadAdc(p, a, r);
            Kept(q, saved) && (outcome != FatalDirty ==> b.idle && RestsHigh(q)) && (!b.idle ==> outcome == FatalDirty)
  {
    hide Kept, Route, Rest, RestsHigh;
    var (q, b, ok) := NormalRest(p, a, false);
    RestKeeps(p, saved, false);
    if ok {
      var s := Route(q);
      RouteKeeps(q, saved);
      RestKeeps(s, saved, true);
      RestIsHigh(s);
    }
  }

  /** What the pins are, bit by bit, when they are based, at rest, routed to the converter, and when
      the pen is sensed. */
  lemma PinsAre(p: Pins, high: bool)
    ensures var b := Base(p);
            b.pgdr == 0 && b.phcr & 0x0300 == 0x0100 && b.plcr & 0x000c == 0 && b.psele & 0x0c00 == 0
    ensures var r := Rest(p, high);
            && r.pgcr == 0xaaaa && r.pgdr == 0 && r.phcr & 0x0300 == 0x0100 && r.plcr & 0x000c == 0
            && r.psele & 0x0c00 == 0 && r.phdr & 0x10 == if high then 0x10 else 0
    ensures var t := Route(p); t.pfcA & 0xf000 == 0x5000 && t.pgcr == 0 && t.mselcra & 0x0300 == 0
    ensures Sensing(p).plcr & 0x000c == 0x0008
  {
  }

  /** The outcome of a conversion for every course of the waits: two in front of it, two inside, two
      behind. A failed one inside is cleaned up after by four more. The pins are not even touched if
      one of the first two fails. */
  lemma ReadAdcOutcome(p: Pins, a: Adc, r: Raw)
    ensures var (q, b, outcome) := ReadAdc(p, a, r);
            var w := (i: nat) => a.waits(a.next + i);
            var inside := w(0) && w(1) && w(2) && w(3);
            var failed := if w(2) then 4 else 3;
            && (!(w(0) && w(1)) ==> outcome == FatalDirty && q == p)
            && (inside && w(4) && w(5) ==>
                  && b.next == a.next + 6
                  && outcome == if -64 <= 1023 - r.a - r.b <= 64 && -64 <= 1023 - r.c - r.d <= 64
                                then Valid else Invalid)
            && (inside && !(w(4) && w(5)) ==> outcome == FatalDirty)
            && (w(0) && w(1) && !inside ==>
                  outcome == if w(failed) && w(failed + 1) && w(failed + 2) && w(failed + 3)
                             then FatalClean else FatalDirty)
  {
    hide Rest, Route;
    var (q, c, ok) := NormalRest(p, a, false);
    if ok {
      var d := Waited(c);
      if !d.idle {
        AbortOutcome(Route(q), d);
      } else if !Waited(d).idle {
        AbortOutcome(Route(q), Waited(d));
      }
    }
  }

  lemma AbortOutcome(p: Pins, a: Adc)
    ensures var w := (i: nat) => a.waits(a.next + i);
            Abort(p, a).2 == if w(0) && w(1) && w(2) && w(3) then FatalClean else FatalDirty
  {
    hide Rest;
  }

  // ----- whole sessions

  datatype Op = DoBase | DoRest(high: bool) | DoPen | DoAdc(raw: Raw)

  /** What an operation makes of the pins and the converter. */
  function Apply(p: Pins, a: Adc, op: Op): (Pins, Adc) {
    match op
    case DoBase => (Base(p), a)
    case DoRest(high) => var (q, b, ok) := NormalRest(p, a, high); (q, b)
    case DoPen => (Base(Sensing(p)), a)
    case DoAdc(raw) => var (q, b, outcome) := ReadAdc(p, a, raw); (q, b)
  }

  function Session(p: Pins, a: Adc, ops: seq<Op>): (Pins, Adc)
    decreases |ops|
  {
    if ops == [] then (p, a)
    else
      var (q, b) := Apply(p, a, ops[0]);
      Session(q, b, ops[1..])
  }

  lemma ApplyKeeps(p: Pins, a: Adc, op: Op, saved: Pins)
    requires Kept(p, saved)
    ensures Kept(Apply(p, a, op).0, saved)
  {
    hide Kept, Base, Rest, ReadAdc;
    match op
    case DoBase => BaseKeeps(p, saved);
    case DoRest(high) => RestKeeps(p, saved, high);
    case DoPen => PenKeeps(p, saved);
    case DoAdc(raw) => ReadAdcKeeps(p, a, raw, saved);
  }

  lemma {:induction false} SessionKeeps(p: Pins, a: Adc, ops: seq<Op>, saved: Pins)
    requires Kept(p, saved)
    ensures Kept(Session(p, a, ops).0, saved)
    decreases |ops|
  {
    hide Kept, Apply;
    if ops != [] {
      var (q, b) := Apply(p, a, ops[0]);
      ApplyKeeps(p, a, ops[0], saved);
      SessionKeeps(q, b, ops[1..], saved);
    }
  }

  /** After a snapshot and any operations, with any waits timing out, restoring gives back every
      bit of every register. */
  lemma SessionIsUndone(saved: Pins, a: Adc, ops: seq<Op>)
    ensures Restored(Session(saved, a, ops).0, saved) == saved
  {
    SessionKeeps(saved, a, ops, saved);
    RestoreUndoes(Session(saved, a, ops).0, saved);
  }

  // ----- the registers in place

  class Device {
    var pgcr: bv16
    var phcr: bv16
    var plcr: bv16
    var psele: bv16
    var mselcra: bv16
    var pfcA: bv16
    var pgdr: bv8
    var phdr: bv8
    const waits: Waits
    var next: nat
    var idle: bool

    ghost function View(): Pins
      reads this
    {
      Pins(pgcr, phcr, plcr, psele, mselcra, pfcA, pgdr, phdr)
    }

    ghost function Converter(): Adc
      reads this
    {
      Adc(waits, next, idle)
    }

    constructor (p: Pins, w: Waits)
      ensures View() == p && Converter() == Adc(w, 0, true)
    {
      pgcr, phcr, plcr, psele := p.pgcr, p.phcr, p.plcr, p.psele;
      mselcra, pfcA, pgdr, phdr := p.mselcra, p.pfcA, p.pgdr, p.phdr;
      waits, next, idle := w, 0, true;
    }

    /** capture_pfc. */
    method CapturePfc() returns (saved: Pins)
      ensures saved == View()
    {
      saved := Pins(pgcr, phcr, plcr, psele, mselcra, pfcA, pgdr, phdr);
    }

    /** base_pfc. */
    method BasePfc()
      modifies this
      ensures View() == Base(old(View())) && Converter() == old(Converter())
    {
      hide Rmw16;
      pgdr := 0;
      phcr := Rmw16(phcr, 0x0300, 0x0100);
      plcr := Rmw16(plcr, 0x000c, 0);
      psele := Rmw16(psele, 0x0c00, 0);
    }

    method WaitClear() returns (ok: bool)
      modifies `next, `idle
      ensures View() == old(View()) && Converter() == Waited(old(Converter())) && ok == idle
    {
      ok := waits(next);
      next, idle := next + 1, ok;
    }

    /** normal_rest. */
    method RestPfc(high: bool) returns (ok: bool)
      modifies this
      ensures (View(), Converter(), ok) == NormalRest(old(View()), old(Converter()), high)
    {
      hide Base, Rmw8;
      ok := WaitClear();
      if !ok {
        return;
      }
      ok := WaitClear();
      if !ok {
        return;
      }
      BasePfc();
      pgcr, pgdr := 0xaaaa, 0;
      phdr := Rmw8(phdr, 0x10, if high then 0x10 else 0);
    }

    /** read_pen on five readings of the pen line: contact unless one of them shows the line high. */
    method ReadPen(lines: seq<bool>) returns (contact: bool)
      requires |lines| == 5
      modifies this
      ensures (View(), Converter()) == Apply(old(View()), old(Converter()), DoPen)
      ensures contact <==> true !in lines
    {
      hide Base, Rmw16;
      contact := true;
      plcr := Rmw16(plcr, 0x000c, 0x0008);
      for pass := 0 to 5
        modifies {}
        invariant contact <==> true !in lines[..pass]
      {
        if lines[pass] {
          contact := false;
        }
        assert lines[..pass + 1] == lines[..pass] + [lines[pass]];
      }
      assert lines[..5] == lines;
      BasePfc();
    }

    /** emergency_abort_idle and what read_adc does after it. */
    method AbortAdc() returns (outcome: Outcome)
      modifies this
      ensures (View(), Converter(), outcome) == Abort(old(View()), old(Converter()))
    {
      hide Rest;
      var ok := WaitClear();
      if !ok {
        return FatalDirty;
      }
      ok := WaitClear();
      if !ok {
        return FatalDirty;
      }
      ok := RestPfc(true);
      outcome := if ok then FatalClean else FatalDirty;
    }

    /** read_adc; what it measures, once it has measured, is Measured(raw). */
    method Convert(raw: Raw) returns (outcome: Outcome, sample: Sample)
      requires raw.TenBits()
      modifies this
      ensures (View(), Converter(), outcome) == ReadAdc(old(View()), old(Converter()), raw)
      ensures outcome == Valid || outcome == Invalid ==> sample == Measured(raw)
    {
      hide Rest, Rmw16;
      sample := Sample(0, 0);
      var ok := RestPfc(false);
      if !ok {
        return FatalDirty, sample;
      }
      pfcA := Rmw16(pfcA, 0xf000, 0x5000);
      pgcr := 0;
      mselcra := Rmw16(mselcra, 0x0300, 0);
      ok := WaitClear();
      if !ok {
        outcome := AbortAdc();
        return;
      }
      ok := WaitClear();
      if !ok {
        outcome := AbortAdc();
        return;
      }
      sample := Measured(raw);
      ok := RestPfc(true);
      outcome := if !ok then FatalDirty else if RawValid(raw) then Valid else Invalid;
    }

    /** restore_pfc, and whether it reads back what was saved. */
    method RestorePfc(saved: Pins) returns (ok: bool)
      requires Kept(View(), saved)
      modifies this
      ensures View() == saved && ok && Converter() == old(Converter())
    {
      RestoreUndoes(View(), saved);
      hide Rmw16, Rmw8, Kept;
      ghost var before := View();
      pfcA := Rmw16(pfcA, 0xf000, saved.pfcA);
      mselcra := Rmw16(mselcra, 0x0300, saved.mselcra);
      psele := Rmw16(psele, 0x0c00, saved.psele);
      plcr := Rmw16(plcr, 0x000c, saved.plcr);
      phcr := Rmw16(phcr, 0x0300, saved.phcr);
      pgdr := saved.pgdr;
      pgcr := saved.pgcr;
      phdr := Rmw8(phdr, 0x10, saved.phdr);
      assert View() == Restored(before, saved);
      ok := && pgcr == saved.pgcr && pgdr == saved.pgdr
            && phcr & 0x0300 == saved.phcr & 0x0300 && plcr & 0x000c == saved.plcr & 0x000c
            && psele & 0x0c00 == saved.psele & 0x0c00 && mselcra & 0x0300 == saved.mselcra & 0x0300
            && pfcA & 0xf000 == saved.pfcA & 0xf000 && phdr & 0x10 == saved.phdr & 0x10;
    }
  }
}
