/**
 * The reset entry `_start` of the A2F boot code (cpu/arm_cortexm3/start.c).
 * Memory is one byte array indexed by address; the linker's region symbols
 * are the fields of a Layout. The calls `_start` makes into code that is not
 * part of this model (the watchdog driver, the IRQ-mask intrinsic and the
 * generic boot code) are methods whose only effect is the hardware state
 * they set and an event in the board's trace.
 */
module Reset {
  import opened Words

  /** What `_start` does, one event per call or store, in source order. */
  datatype Event =
    | WatchdogDisable         // wdt_disable()
    | WatchdogEnable          // wdt_enable()
    | IrqDisable              // __disable_irq()
    | DataCopy                // memcpy of the initialised data
    | BssZero                 // memset of the BSS
    | HandoffPublish(value: Word)  // _armboot_start = &armboot_start
    | ArmbootStart            // start_armboot()

  /** The linker symbols `_data_lma_start`, `_data_start`, `_data_end`, `_bss_start`, `_bss_end`. */
  datatype Layout = Layout(dataLmaStart: nat, dataStart: nat, dataEnd: nat, bssStart: nat, bssEnd: nat)

  /** `&_data_end - &_data_start`, the size passed to memcpy. */
  function DataLength(l: Layout): nat
    requires l.dataStart <= l.dataEnd
  {
    l.dataEnd - l.dataStart
  }

  /** `&_bss_end - &_bss_start`, the size passed to memset. */
  function BssLength(l: Layout): nat
    requires l.bssStart <= l.bssEnd
  {
    l.bssEnd - l.bssStart
  }

  /** The byte ranges [a, a + m) and [b, b + n) share no address. */
  predicate Disjoint(a: nat, m: nat, b: nat, n: nat)
  {
    a + m <= b || b + n <= a
  }

  /**
   * What `_start` needs of the linker: both sizes non-negative, every range
   * inside memory, and memcpy's source and destination apart (C99 section
   * 7.21.2.1 leaves overlapping copies undefined).
   */
  predicate ValidLayout(l: Layout, size: nat)
  {
    && l.dataStart <= l.dataEnd && l.bssStart <= l.bssEnd
    && l.dataEnd <= size && l.bssEnd <= size
    && l.dataLmaStart + DataLength(l) <= size
    && Disjoint(l.dataLmaStart, DataLength(l), l.dataStart, DataLength(l))
  }

  /** memcpy(dst, src, n) on the byte image m (C99 section 7.21.2.1). */
  function Copied(m: seq<bv8>, dst: nat, src: nat, n: nat): (r: seq<bv8>)
    requires dst + n <= |m| && src + n <= |m|
    ensures |r| == |m|
    ensures forall a :: 0 <= a < |m| ==> r[a] == if dst <= a < dst + n then m[src + (a - dst)] else m[a]
  {
    m[..dst] + m[src..src + n] + m[dst + n..]
  }

  /** memset(dst, c, n) on the byte image m (C99 section 7.21.6.1). */
  function Filled(m: seq<bv8>, dst: nat, c: bv8, n: nat): (r: seq<bv8>)
    requires dst + n <= |m|
    ensures |r| == |m|
    ensures forall a :: 0 <= a < |m| ==> r[a] == if dst <= a < dst + n then c else m[a]
  {
    m[..dst] + seq(n, _ => c) + m[dst + n..]
  }

  /** The memory after `_start`'s copy and then its zero fill. */
  function Relocated(m: seq<bv8>, l: Layout): seq<bv8>
    requires ValidLayout(l, |m|)
  {
    Filled(Copied(m, l.dataStart, l.dataLmaStart, DataLength(l)), l.bssStart, 0, BssLength(l))
  }

  /** Copying one more byte extends the copied range by one address. */
  lemma CopiedStep(m: seq<bv8>, dst: nat, src: nat, i: nat)
    requires dst + i < |m| && src + i < |m|
    ensures Copied(m, dst, src, i + 1) == Copied(m, dst, src, i)[dst + i := m[src + i]]
  {
  }

  /** Storing one more byte extends the filled range by one address. */
  lemma FilledStep(m: seq<bv8>, dst: nat, c: bv8, i: nat)
    requires dst + i < |m|
    ensures Filled(m, dst, c, i + 1) == Filled(m, dst, c, i)[dst + i := c]
  {
  }

  /** The library memcpy: a forward byte copy. */
  method Memcpy(mem: array<bv8>, dst: nat, src: nat, n: nat)
    requires dst + n <= mem.Length && src + n <= mem.Length
    requires Disjoint(src, n, dst, n)
    modifies mem
    ensures mem[..] == Copied(old(mem[..]), dst, src, n)
  {
    ghost var m := mem[..];
    var i := 0;
    while i < n
      invariant 0 <= i <= n
      invariant mem[..] == Copied(m, dst, src, i)
    {
      assert mem[src + i] == m[src + i];
      mem[dst + i] := mem[src + i];
      CopiedStep(m, dst, src, i);
      i := i + 1;
    }
  }

  /** The library memset: store c into n bytes from dst. */
  method Memset(mem: array<bv8>, dst: nat, c: bv8, n: nat)
    requires dst + n <= mem.Length
    modifies mem
    ensures mem[..] == Filled(old(mem[..]), dst, c, n)
  {
    ghost var m := mem[..];
    var i := 0;
    while i < n
      invariant 0 <= i <= n
      invariant mem[..] == Filled(m, dst, c, i)
    {
      mem[dst + i] := c;
      FilledStep(m, dst, c, i);
      i := i + 1;
    }
  }

  /** The watchdog call the build configuration selects. */
  function WatchdogCall(hwWatchdog: bool): Event
  {
    if hwWatchdog then WatchdogEnable else WatchdogDisable
  }

  /** The events of one run of `_start`. */
  function BootSequence(hwWatchdog: bool, handoff: Word): seq<Event>
  {
    [WatchdogCall(hwWatchdog), IrqDisable, DataCopy, BssZero, HandoffPublish(handoff), ArmbootStart]
  }

  /** Appending event k of a sequence to a trace that holds its first k events. */
  lemma TraceStep(t: seq<Event>, events: seq<Event>, k: nat)
    requires k < |events|
    ensures t + events[..k] + [events[k]] == t + events[..k + 1]
  {
    assert events[..k + 1] == events[..k] + [events[k]];
  }

  /** How often e occurs in t. */
  function Count(t: seq<Event>, e: Event): (n: nat)
    ensures n <= |t|
    ensures n == 0 <==> e !in t
  {
    if t == [] then 0 else (if t[0] == e then 1 else 0) + Count(t[1..], e)
  }

  /** Every a in t comes before every b. */
  predicate Precedes(t: seq<Event>, a: Event, b: Event)
  {
    forall i, j :: 0 <= i < |t| && 0 <= j < |t| && t[i] == a && t[j] == b ==> i < j
  }

  /**
   * The calls the reset code must make: the configured watchdog call once,
   * the other watchdog call never; the IRQ mask, the copy, the zero fill,
   * the handoff store and the continuation once each.
   */
  predicate EachOnce(t: seq<Event>, hwWatchdog: bool, handoff: Word)
  {
    && Count(t, WatchdogCall(hwWatchdog)) == 1
    && Count(t, WatchdogCall(!hwWatchdog)) == 0
    && Count(t, IrqDisable) == 1
    && Count(t, DataCopy) == 1
    && Count(t, BssZero) == 1
    && Count(t, HandoffPublish(handoff)) == 1
    && Count(t, ArmbootStart) == 1
  }

  /**
   * The order the reset code must keep: watchdog, IRQ mask, copy, zero
   * fill, handoff store, continuation.
   */
  predicate InOrder(t: seq<Event>, hwWatchdog: bool, handoff: Word)
  {
    && Precedes(t, WatchdogCall(hwWatchdog), IrqDisable)
    && Precedes(t, IrqDisable, DataCopy)
    && Precedes(t, DataCopy, BssZero)
    && Precedes(t, BssZero, HandoffPublish(handoff))
    && Precedes(t, HandoffPublish(handoff), ArmbootStart)
  }

  /** A correct reset: each call once, in order, starting with the watchdog and ending with the continuation. */
  predicate ProperBoot(t: seq<Event>, hwWatchdog: bool, handoff: Word)
  {
    && |t| > 0
    && t[0] == WatchdogCall(hwWatchdog)
    && t[|t| - 1] == ArmbootStart
    && EachOnce(t, hwWatchdog, handoff)
    && InOrder(t, hwWatchdog, handoff)
  }

  /** The sequence `_start` performs keeps that order, for either configuration. */
  lemma BootSequenceProper(hwWatchdog: bool, handoff: Word)
    ensures ProperBoot(BootSequence(hwWatchdog, handoff), hwWatchdog, handoff)
  {
    assert Distinct(BootSequence(hwWatchdog, handoff));
    BootSequenceOnce(hwWatchdog, handoff);
    BootSequenceOrdered(hwWatchdog, handoff);
  }

  /** The watchdog call the configuration does not select is never made. */
  lemma OtherWatchdogAbsent(hwWatchdog: bool, handoff: Word)
    ensures WatchdogCall(!hwWatchdog) !in BootSequence(hwWatchdog, handoff)
  {
    var t := BootSequence(hwWatchdog, handoff);
    forall i | 0 <= i < |t| ensures t[i] != WatchdogCall(!hwWatchdog) {
      if i == 0 {
        assert t[0] == WatchdogCall(hwWatchdog);
      }
    }
  }

  lemma BootSequenceOnce(hwWatchdog: bool, handoff: Word)
    requires Distinct(BootSequence(hwWatchdog, handoff))
    ensures EachOnce(BootSequence(hwWatchdog, handoff), hwWatchdog, handoff)
  {
    var t := BootSequence(hwWatchdog, handoff);
    CountDistinct(t, 0);
    CountDistinct(t, 1);
    CountDistinct(t, 2);
    CountDistinct(t, 3);
    CountDistinct(t, 4);
    CountDistinct(t, 5);
    OtherWatchdogAbsent(hwWatchdog, handoff);
  }

  lemma BootSequenceOrdered(hwWatchdog: bool, handoff: Word)
    requires Distinct(BootSequence(hwWatchdog, handoff))
    ensures InOrder(BootSequence(hwWatchdog, handoff), hwWatchdog, handoff)
  {
    var t := BootSequence(hwWatchdog, handoff);
    PrecedesAt(t, 0, 1);
    PrecedesAt(t, 1, 2);
    PrecedesAt(t, 2, 3);
    PrecedesAt(t, 3, 4);
    PrecedesAt(t, 4, 5);
  }

  /** No event occurs twice in t. */
  predicate Distinct(t: seq<Event>)
  {
    forall i, j :: 0 <= i < j < |t| ==> t[i] != t[j]
  }

  /** In a sequence without repeats every member occurs once. */
  lemma {:induction false} CountDistinct(t: seq<Event>, p: nat)
    requires Distinct(t) && p < |t|
    ensures Count(t, t[p]) == 1
  {
    assert t == [t[0]] + t[1..];
    if p == 0 {
      assert t[0] !in t[1..] by {
        forall j | 0 <= j < |t| - 1 ensures t[1..][j] != t[0] {
          assert t[1..][j] == t[j + 1];
        }
      }
    } else {
      assert Distinct(t[1..]) by {
        forall i, j | 0 <= i < j < |t| - 1 ensures t[1..][i] != t[1..][j] {
          assert t[1..][i] == t[i + 1] && t[1..][j] == t[j + 1];
        }
      }
      assert t[1..][p - 1] == t[p];
      CountDistinct(t[1..], p - 1);
    }
  }

  /** In a sequence without repeats, an earlier position precedes a later one. */
  lemma PrecedesAt(t: seq<Event>, p: nat, q: nat)
    requires Distinct(t) && p < q < |t|
    ensures Precedes(t, t[p], t[q])
  {
    forall i, j | 0 <= i < |t| && 0 <= j < |t| && t[i] == t[p] && t[j] == t[q]
      ensures i < j
    {
      assert i == p && j == q;
    }
  }

  /**
   * Data survives the zero fill: with the BSS apart from the data
   * destination, the data range holds the load image after relocation.
   */
  lemma RelocatedData(m: seq<bv8>, l: Layout)
    requires ValidLayout(l, |m|)
    requires Disjoint(l.dataStart, DataLength(l), l.bssStart, BssLength(l))
    ensures Relocated(m, l)[l.dataStart..l.dataEnd] == m[l.dataLmaStart..l.dataLmaStart + DataLength(l)]
  {
    var r := Relocated(m, l);
    var c := Copied(m, l.dataStart, l.dataLmaStart, DataLength(l));
    forall a | l.dataStart <= a < l.dataEnd
      ensures r[a] == m[l.dataLmaStart + (a - l.dataStart)]
    {
      assert r[a] == c[a];
    }
  }

  /** Every BSS byte is zero after relocation, whatever the layout of the data. */
  lemma RelocatedBss(m: seq<bv8>, l: Layout)
    requires ValidLayout(l, |m|)
    ensures |Relocated(m, l)| == |m|
    ensures forall a :: l.bssStart <= a < l.bssEnd ==> Relocated(m, l)[a] == 0
  {
  }

  /**
   * Relocation writes only the two destination ranges: every other byte,
   * and so the load image where it lies apart from the BSS, is unchanged.
   */
  lemma RelocatedElsewhere(m: seq<bv8>, l: Layout)
    requires ValidLayout(l, |m|)
    ensures |Relocated(m, l)| == |m|
    ensures forall a :: 0 <= a < |m| && !(l.dataStart <= a < l.dataEnd) && !(l.bssStart <= a < l.bssEnd) ==>
      Relocated(m, l)[a] == m[a]
    ensures Disjoint(l.dataLmaStart, DataLength(l), l.bssStart, BssLength(l)) ==>
      Relocated(m, l)[l.dataLmaStart..l.dataLmaStart + DataLength(l)] == m[l.dataLmaStart..l.dataLmaStart + DataLength(l)]
  {
  }

  /** The board state `_start` acts on. */
  class Board {
    /** RAM and flash, indexed by address. */
    const mem: array<bv8>
    /** The global `_armboot_start`, the top of the malloc pool. */
    var armbootStart: Word
    /** PRIMASK: set once `__disable_irq()` has run. */
    var irqMasked: bool
    /** Whether the watchdog timer is running. */
    var watchdogEnabled: bool
    /** The calls and the store made so far. */
    var trace: seq<Event>

    /**
     * The board as it comes out of reset: nothing done yet, and
     * `_armboot_start` holding whatever the uninitialised RAM holds.
     */
    constructor (mem: array<bv8>, armbootStart: Word, irqMasked: bool, watchdogEnabled: bool)
      ensures this.mem == mem && this.armbootStart == armbootStart
      ensures this.irqMasked == irqMasked && this.watchdogEnabled == watchdogEnabled
      ensures trace == []
    {
      this.mem := mem;
      this.armbootStart := armbootStart;
      this.irqMasked := irqMasked;
      this.watchdogEnabled := watchdogEnabled;
      trace := [];
    }

    /** `wdt_disable()`. */
    method WdtDisable()
      modifies this`watchdogEnabled, this`trace
      ensures !watchdogEnabled && trace == old(trace) + [WatchdogDisable]
    {
      watchdogEnabled := false;
      trace := trace + [WatchdogDisable];
    }

    /** `wdt_enable()`. */
    method WdtEnable()
      modifies this`watchdogEnabled, this`trace
      ensures watchdogEnabled && trace == old(trace) + [WatchdogEnable]
    {
      watchdogEnabled := true;
      trace := trace + [WatchdogEnable];
    }

    /** `__disable_irq()`: set PRIMASK. */
    method DisableIrq()
      modifies this`irqMasked, this`trace
      ensures irqMasked && trace == old(trace) + [IrqDisable]
    {
      irqMasked := true;
      trace := trace + [IrqDisable];
    }

    /** `start_armboot()`: the hand-off to the generic boot code. */
    method StartArmboot()
      modifies this`trace
      ensures trace == old(trace) + [ArmbootStart]
    {
      trace := trace + [ArmbootStart];
    }

    /** `memcpy(&_data_start, &_data_lma_start, &_data_end - &_data_start)`. */
    method CopyData(l: Layout)
      requires ValidLayout(l, mem.Length)
      modifies mem, this`trace
      ensures mem[..] == Copied(old(mem[..]), l.dataStart, l.dataLmaStart, DataLength(l))
      ensures trace == old(trace) + [DataCopy]
    {
      Memcpy(mem, l.dataStart, l.dataLmaStart, DataLength(l));
      trace := trace + [DataCopy];
    }

    /** `memset(&_bss_start, 0, &_bss_end - &_bss_start)`. */
    method ZeroBss(l: Layout)
      requires ValidLayout(l, mem.Length)
      modifies mem, this`trace
      ensures mem[..] == Filled(old(mem[..]), l.bssStart, 0, BssLength(l))
      ensures trace == old(trace) + [BssZero]
    {
      Memset(mem, l.bssStart, 0, BssLength(l));
      trace := trace + [BssZero];
    }

    /**
     * `_start`: the configured watchdog call, IRQs masked, the data image
     * copied to RAM, the BSS zeroed, `_armboot_start` set, and control
     * passed to `start_armboot`.
     */
    method Start(l: Layout, hwWatchdog: bool, armbootStartAddr: Word)
      requires ValidLayout(l, mem.Length)
      modifies this, mem
      ensures mem[..] == Relocated(old(mem[..]), l)
      ensures armbootStart == armbootStartAddr
      ensures irqMasked && watchdogEnabled == hwWatchdog
      ensures trace == old(trace) + BootSequence(hwWatchdog, armbootStartAddr)
    {
      ghost var events := BootSequence(hwWatchdog, armbootStartAddr);
      if !hwWatchdog {
        WdtDisable();
      } else {
        WdtEnable();
      }
      TraceStep(old(trace), events, 0);
      assert trace == old(trace) + events[..1];
      DisableIrq();
      TraceStep(old(trace), events, 1);
      assert trace == old(trace) + events[..2];
      CopyData(l);
      TraceStep(old(trace), events, 2);
      assert trace == old(trace) + events[..3];
      ZeroBss(l);
      TraceStep(old(trace), events, 3);
      assert trace == old(trace) + events[..4];
      armbootStart := armbootStartAddr;
      trace := trace + [HandoffPublish(armbootStartAddr)];
      TraceStep(old(trace), events, 4);
      assert trace == old(trace) + events[..5];
      StartArmboot();
      TraceStep(old(trace), events, 5);
      assert trace == old(trace) + events[..6];
      assert events[..6] == events;
    }
  }

  /**
   * A power-on reset: the core enters `_start` on a board nothing has run
   * on yet. The resulting trace keeps the required order, and memory holds
   * the relocated image.
   */
  method PowerOnReset(mem: array<bv8>, l: Layout, hwWatchdog: bool, armbootStartAddr: Word,
                      armbootStart: Word, irqMasked: bool, watchdogEnabled: bool) returns (b: Board)
    requires ValidLayout(l, mem.Length)
    modifies mem
    ensures b.mem == mem && mem[..] == Relocated(old(mem[..]), l)
    ensures b.armbootStart == armbootStartAddr && b.irqMasked
    ensures ProperBoot(b.trace, hwWatchdog, armbootStartAddr)
  {
    b := new Board(mem, armbootStart, irqMasked, watchdogEnabled);
    b.Start(l, hwWatchdog, armbootStartAddr);
    BootSequenceProper(hwWatchdog, armbootStartAddr);
    assert b.trace == BootSequence(hwWatchdog, armbootStartAddr);
  }
}
