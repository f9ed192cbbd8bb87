/**
 * The fault diagnostic of the A2F reset code: `dump_ctx` in
 * cpu/arm_cortexm3/start.c, which `default_isr` calls with the eight-word
 * frame the core stacks on exception entry (R0-R3, R12, LR, PC, xPSR;
 * ARMv7-M Architecture Reference Manual section B1.5.6). It prints the
 * active exception's name, then the eight registers two to a line. The
 * printed text is modelled as a string; the exception number is an input.
 */
module Diagnostics {
  import opened Wrappers
  import opened Formatting
  import Vectors
  import opened Words

  /** An `unsigned char`. */
  type Byte = b: nat | b < 256

  /** Number of stacked registers the dump prints. */
  const FrameWords: nat := 8

  const Header: string := "UNHANDLED EXCEPTION: "

  /** `regs[]`: the names printed for the stacked words, in stacking order. */
  const RegisterNames: seq<string> := ["R0", "R1", "R2", "R3", "R12", "LR", "PC", "PSR"]

  /** `exc[]`: the label of each fixed exception number; entries 0 and 1 are NULL. */
  const ExceptionNames: seq<Option<string>> := [
    None,
    None,
    Some("NMI"),
    Some("HARD FAULT"),
    Some("MEMORY MANAGEMENT"),
    Some("BUS FAULT"),
    Some("USAGE FAULT"),
    Some("RESERVED"),
    Some("RESERVED"),
    Some("RESERVED"),
    Some("RESERVED"),
    Some("SVCALL"),
    Some("DEBUG MONITOR"),
    Some("RESERVED"),
    Some("PENDSV"),
    Some("SYSTICK")
  ]

  /**
   * `vec = ICSR & 0xFF`: the low byte of the Interrupt Control and State
   * Register, whose bits 8:0 are VECTACTIVE (section B3.2.4).
   */
  function ActiveVector(icsr: bv32): (vec: Byte)
    ensures vec as bv32 == icsr % 256
  {
    (icsr & 0xFF) as nat
  }

  /** The exception numbers of ARMv7-M, section B1.5.2. */
  datatype Exception =
    | ThreadMode
    | Reset
    | Nmi
    | HardFault
    | MemManage
    | BusFault
    | UsageFault
    | ReservedNumber
    | SVCall
    | DebugMonitor
    | PendSV
    | SysTick
    | External(irq: nat)

  /** Which exception a number denotes (0 is "no exception active"). */
  function Classify(n: nat): Exception
  {
    if n == 0 then ThreadMode
    else if n == 1 then Reset
    else if n == 2 then Nmi
    else if n == 3 then HardFault
    else if n == 4 then MemManage
    else if n == 5 then BusFault
    else if n == 6 then UsageFault
    else if n == 11 then SVCall
    else if n == 12 then DebugMonitor
    else if n == 14 then PendSV
    else if n == 15 then SysTick
    else if n < Vectors.SystemVectorCount then ReservedNumber
    else External(n - Vectors.SystemVectorCount)
  }

  /** The text the dump is meant to show for an exception; none for 0 and 1. */
  function Describe(e: Exception): Option<string>
  {
    match e
    case ThreadMode => None
    case Reset => None
    case Nmi => Some("NMI")
    case HardFault => Some("HARD FAULT")
    case MemManage => Some("MEMORY MANAGEMENT")
    case BusFault => Some("BUS FAULT")
    case UsageFault => Some("USAGE FAULT")
    case ReservedNumber => Some("RESERVED")
    case SVCall => Some("SVCALL")
    case DebugMonitor => Some("DEBUG MONITOR")
    case PendSV => Some("PENDSV")
    case SysTick => Some("SYSTICK")
    case External(irq) => Some("INTISR[" + Decimal(irq) + "]")
  }

  /**
   * The label `dump_ctx` prints: `exc[vec]` below 16, else `INTISR[vec-16]`.
   * None where `exc[vec]` is NULL, whose `%s` conversion is undefined.
   */
  function Label(vec: Byte): Option<string>
  {
    if vec < Vectors.SystemVectorCount then ExceptionNames[vec]
    else Some("INTISR[" + Decimal(vec - Vectors.SystemVectorCount) + "]")
  }

  /** The table lookup agrees with the architecture's numbering for every byte. */
  lemma LabelMatchesArchitecture(vec: Byte)
    ensures Label(vec) == Describe(Classify(vec))
    ensures Label(vec).None? <==> vec < 2
    ensures vec >= Vectors.SystemVectorCount ==> Classify(vec).External? && Classify(vec).irq < 240
  {
  }

  /** Concrete labels: 2, 3, 11 and 20. */
  lemma LabelExamples()
    ensures Label(2) == Some("NMI") && Label(3) == Some("HARD FAULT")
    ensures Label(11) == Some("SVCALL") && Label(20) == Some("INTISR[4]")
  {
    assert DecimalDigit(4) == '4';
    assert Decimal(4) == "4";
    assert "INTISR[" + "4" + "]" == "INTISR[4]";
  }

  /** The interrupt index printed in `INTISR[...]` reads back as vec - 16. */
  lemma InterruptIndexRoundTrip(vec: Byte)
    requires vec >= Vectors.SystemVectorCount
    ensures Label(vec).Some?
    ensures var s := Label(vec).value;
      |s| >= 9 && s[..7] == "INTISR[" && s[|s| - 1] == ']'
      && AllDecimalDigits(s[7..|s| - 1]) && DecimalValue(s[7..|s| - 1]) == vec - 16
  {
    var s := Label(vec).value;
    var d := Decimal(vec - 16);
    assert s == "INTISR[" + d + "]";
    assert s[7..|s| - 1] == d;
    DecimalRoundTrip(vec - 16);
  }

  /** One `printf("  %s\t= %08x", regs[i], ctx[i])`. */
  function Field(ctx: seq<Word>, i: nat): string
    requires i < FrameWords <= |ctx|
  {
    FieldPrefix(i) + Hex8(ctx[i])
  }

  /** The text before register i's value. */
  function FieldPrefix(i: nat): string
    requires i < FrameWords
  {
    "  " + RegisterNames[i] + "\t= "
  }

  /** `if (((i + 1) % 2) == 0) printf("\n")`. */
  function Separator(i: nat): string
  {
    if (i + 1) % 2 == 0 then "\n" else ""
  }

  /** What loop iteration i prints. */
  function Entry(ctx: seq<Word>, i: nat): string
    requires i < FrameWords <= |ctx|
  {
    Field(ctx, i) + Separator(i)
  }

  /** The texts of the eight loop iterations, in order. */
  function Entries(ctx: seq<Word>): seq<string>
    requires FrameWords <= |ctx|
  {
    seq(FrameWords, i requires 0 <= i < FrameWords => Entry(ctx, i))
  }

  /** The strings of ss written one after another. */
  function Concat(ss: seq<string>): string
  {
    if ss == [] then "" else Concat(ss[..|ss| - 1]) + ss[|ss| - 1]
  }

  lemma {:induction false} ConcatAppend(a: seq<string>, b: seq<string>)
    ensures Concat(a + b) == Concat(a) + Concat(b)
    decreases |b|
  {
    if b == [] {
      assert a + b == a;
    } else {
      var init := b[..|b| - 1];
      assert (a + b)[..|a + b| - 1] == a + init;
      ConcatAppend(a, init);
    }
  }

  lemma ConcatSingle(s: string)
    ensures Concat([s]) == s
  {
    assert [s][..0] == [];
  }

  /** The register part of the dump. */
  function RegisterDump(ctx: seq<Word>): string
    requires FrameWords <= |ctx|
  {
    Concat(Entries(ctx))
  }

  /** Everything `dump_ctx` prints; None when the label would be a NULL `%s`. */
  function Report(vec: Byte, ctx: seq<Word>): Option<string>
    requires FrameWords <= |ctx|
  {
    match Label(vec)
    case None => None
    case Some(name) => Some(Header + name + "\n" + RegisterDump(ctx))
  }

  /**
   * `dump_ctx`, with each `printf` appending to the output. The result is
   * None when `exc[vec]` is NULL, and the report above otherwise.
   */
  method DumpCtx(vec: Byte, ctx: seq<Word>) returns (out: Option<string>)
    requires FrameWords <= |ctx|
    ensures out == Report(vec, ctx)
  {
    var name := Label(vec);
    if name.None? {
      return None;
    }
    var heading := Header + name.value + "\n";
    ghost var es := Entries(ctx);
    var dump := "";
    for i := 0 to FrameWords
      invariant dump == Concat(es[..i])
    {
      var field := "  " + RegisterNames[i] + "\t= " + Hex8(ctx[i]);
      var separator := if (i + 1) % 2 == 0 then "\n" else "";
      assert field + separator == es[i];
      assert es[..i + 1][..i] == es[..i];
      dump := dump + (field + separator);
    }
    assert es[..FrameWords] == es;
    out := Some(heading + dump);
  }

  // Reading the register dump back.

  /**
   * Parse iterations i..7 of the register dump: each field must carry its
   * register's name, eight hexadecimal digits and its separator.
   */
  function ParseEntries(s: string, i: nat): Option<seq<nat>>
    requires i <= FrameWords
    decreases FrameWords - i
  {
    if i == FrameWords then (if s == [] then Some([]) else None)
    else
      var p := |FieldPrefix(i)|;
      var q := p + 8;
      var e := q + |Separator(i)|;
      if |s| < e || s[..p] != FieldPrefix(i) || !AllHexDigits(s[p..q]) || s[q..e] != Separator(i) then None
      else
        match ParseEntries(s[e..], i + 1)
        case None => None
        case Some(rest) => Some([HexValue(s[p..q])] + rest)
  }

  /** The stacked words from register i on, as the parser yields them. */
  function WordsFrom(ctx: seq<Word>, i: nat): seq<nat>
    requires i <= FrameWords <= |ctx|
    decreases FrameWords - i
  {
    if i == FrameWords then [] else [ctx[i] as nat] + WordsFrom(ctx, i + 1)
  }

  lemma {:induction false} WordsFromAt(ctx: seq<Word>, i: nat)
    requires i <= FrameWords <= |ctx|
    ensures |WordsFrom(ctx, i)| == FrameWords - i
    ensures forall k :: 0 <= k < FrameWords - i ==> WordsFrom(ctx, i)[k] == ctx[i + k]
    decreases FrameWords - i
  {
    if i < FrameWords {
      WordsFromAt(ctx, i + 1);
    }
  }

  lemma WordsFromFrame(ctx: seq<Word>)
    requires FrameWords <= |ctx|
    ensures WordsFrom(ctx, 0) == ctx[..FrameWords]
  {
    WordsFromAt(ctx, 0);
    var w := WordsFrom(ctx, 0);
    assert |w| == |ctx[..FrameWords]|;
    assert forall k :: 0 <= k < |w| ==> w[k] == ctx[..FrameWords][k];
  }

  /** Concat(ss[i..]) is ss[i] followed by Concat(ss[i + 1..]). */
  lemma ConcatFrom(ss: seq<string>, i: nat)
    requires i < |ss|
    ensures Concat(ss[i..]) == ss[i] + Concat(ss[i + 1..])
  {
    assert ss[i..] == [ss[i]] + ss[i + 1..];
    ConcatAppend([ss[i]], ss[i + 1..]);
    ConcatSingle(ss[i]);
  }

  /** One field parses back to its register's value. */
  lemma ParseStep(ctx: seq<Word>, i: nat, rest: string)
    requires i < FrameWords <= |ctx|
    ensures var s := FieldPrefix(i) + Hex8(ctx[i]) + Separator(i) + rest;
      && (ParseEntries(rest, i + 1).None? ==> ParseEntries(s, i).None?)
      && (ParseEntries(rest, i + 1).Some? ==>
            ParseEntries(s, i) == Some([ctx[i] as nat] + ParseEntries(rest, i + 1).value))
  {
    var p, h, t := FieldPrefix(i), Hex8(ctx[i]), Separator(i);
    var s := p + h + t + rest;
    Hex8RoundTrip(ctx[i]);
    var q := |p| + 8;
    var e := q + |t|;
    assert s[..|p|] == p;
    assert s[|p|..q] == h;
    assert s[q..e] == t;
    assert s[e..] == rest;
  }

  lemma {:induction false} ParseEntriesFrom(ctx: seq<Word>, i: nat)
    requires i <= FrameWords <= |ctx|
    ensures ParseEntries(Concat(Entries(ctx)[i..]), i) == Some(WordsFrom(ctx, i))
    decreases FrameWords - i
  {
    var es := Entries(ctx);
    if i == FrameWords {
      assert es[i..] == [];
    } else {
      ConcatFrom(es, i);
      ParseStep(ctx, i, Concat(es[i + 1..]));
      ParseEntriesFrom(ctx, i + 1);
    }
  }

  /**
   * The register dump names R0, R1, R2, R3, R12, LR, PC, PSR in that order,
   * each followed by eight hex digits, and reads back to the eight stacked
   * words.
   */
  lemma RegisterDumpRoundTrip(ctx: seq<Word>)
    requires FrameWords <= |ctx|
    ensures ParseEntries(RegisterDump(ctx), 0) == Some(ctx[..FrameWords])
  {
    assert Entries(ctx)[0..] == Entries(ctx);
    ParseEntriesFrom(ctx, 0);
    WordsFromFrame(ctx);
  }

  /** Output line k: fields 2k and 2k+1 and a newline. */
  function Line(ctx: seq<Word>, k: nat): string
    requires k < FrameWords / 2 && FrameWords <= |ctx|
  {
    Field(ctx, 2 * k) + Field(ctx, 2 * k + 1) + "\n"
  }

  /** No register name, and so no field prefix, holds a newline. */
  lemma PrefixHasNoNewline(i: nat)
    requires i < FrameWords
    ensures '\n' !in FieldPrefix(i)
  {
    var n := RegisterNames[i];
    assert n == "R0" || n == "R1" || n == "R2" || n == "R3" || n == "R12" || n == "LR" || n == "PC" || n == "PSR";
    assert '\n' !in n;
    assert '\n' !in "  " + n;
  }

  /** A field is a single piece of a line. */
  lemma FieldHasNoNewline(ctx: seq<Word>, i: nat)
    requires i < FrameWords <= |ctx|
    ensures '\n' !in Field(ctx, i)
  {
    Hex8RoundTrip(ctx[i]);
    var h := Hex8(ctx[i]);
    assert '\n' !in h by {
      assert forall c :: c in h ==> IsHexDigit(c);
    }
    PrefixHasNoNewline(i);
  }

  lemma ConcatTwo(a: string, b: string)
    ensures Concat([a, b]) == a + b
  {
    assert [a, b][..1] == [a];
    ConcatSingle(a);
  }

  /** Two consecutive strings of a list, written out. */
  lemma ConcatPairAt(ss: seq<string>, i: nat)
    requires i + 2 <= |ss|
    ensures Concat(ss[i..i + 2]) == ss[i] + ss[i + 1]
  {
    assert ss[i..i + 2] == [ss[i], ss[i + 1]];
    ConcatTwo(ss[i], ss[i + 1]);
  }

  /** Eight strings written out as four pairs. */
  lemma ConcatPairs(ss: seq<string>)
    requires |ss| == 8
    ensures Concat(ss) == Concat(ss[0..2]) + Concat(ss[2..4]) + Concat(ss[4..6]) + Concat(ss[6..8])
  {
    var p, q, r, t := ss[0..2], ss[2..4], ss[4..6], ss[6..8];
    assert ss == p + q + r + t;
    ConcatAppend(p + q + r, t);
    ConcatAppend(p + q, r);
    ConcatAppend(p, q);
  }

  /** Line k is fields 2k and 2k+1, the second ending in the line's newline. */
  lemma LinePair(ctx: seq<Word>, k: nat)
    requires k < FrameWords / 2 && FrameWords <= |ctx|
    ensures Concat(Entries(ctx)[2 * k..2 * k + 2]) == Line(ctx, k)
  {
    var es := Entries(ctx);
    var i := 2 * k;
    var f0, f1 := Field(ctx, i), Field(ctx, i + 1);
    assert Concat(es[i..i + 2]) == es[i] + es[i + 1] by {
      ConcatPairAt(es, i);
    }
    assert es[i] == f0 by {
      assert i % 2 == 0;
      assert Separator(i) == "";
      assert f0 + "" == f0;
    }
    assert es[i + 1] == f1 + "\n" by {
      assert (i + 1) % 2 == 1;
      assert Separator(i + 1) == "\n";
    }
    assert f0 + (f1 + "\n") == (f0 + f1) + "\n";
  }

  /** A line holds exactly one newline, at its end. */
  lemma LineEnds(ctx: seq<Word>, k: nat)
    requires k < FrameWords / 2 && FrameWords <= |ctx|
    ensures var l := Line(ctx, k); l[|l| - 1] == '\n' && '\n' !in l[..|l| - 1]
  {
    FieldHasNoNewline(ctx, 2 * k);
    FieldHasNoNewline(ctx, 2 * k + 1);
    var l := Line(ctx, k);
    assert l[..|l| - 1] == Field(ctx, 2 * k) + Field(ctx, 2 * k + 1);
  }

  /**
   * The fields come two to a line: the dump is four lines, each ending in
   * its only newline.
   */
  lemma RegisterDumpLines(ctx: seq<Word>)
    requires FrameWords <= |ctx|
    ensures RegisterDump(ctx) == Line(ctx, 0) + Line(ctx, 1) + Line(ctx, 2) + Line(ctx, 3)
    ensures forall k :: 0 <= k < 4 ==>
      var l := Line(ctx, k); l[|l| - 1] == '\n' && '\n' !in l[..|l| - 1]
  {
    ConcatPairs(Entries(ctx));
    LinePair(ctx, 0);
    LinePair(ctx, 1);
    LinePair(ctx, 2);
    LinePair(ctx, 3);
    forall k | 0 <= k < 4
      ensures var l := Line(ctx, k); l[|l| - 1] == '\n' && '\n' !in l[..|l| - 1]
    {
      LineEnds(ctx, k);
    }
  }

  /**
   * The whole report: present exactly when vec >= 2, it is the header, the
   * label, a newline and the register dump that reads back to the stacked
   * words.
   */
  lemma ReportShape(vec: Byte, ctx: seq<Word>)
    requires FrameWords <= |ctx|
    ensures Report(vec, ctx).Some? <==> vec >= 2
    ensures Report(vec, ctx).Some? ==>
      var s := Report(vec, ctx).value;
      var l := Label(vec).value;
      s[..|Header|] == Header
      && s[|Header|..|Header| + |l|] == l
      && s[|Header| + |l|] == '\n'
      && ParseEntries(s[|Header| + |l| + 1..], 0) == Some(ctx[..FrameWords])
  {
    LabelMatchesArchitecture(vec);
    if vec >= 2 {
      var l := Label(vec).value;
      var s := Header + l + "\n" + RegisterDump(ctx);
      assert s[..|Header|] == Header;
      assert s[|Header|..|Header| + |l|] == l;
      assert s[|Header| + |l| + 1..] == RegisterDump(ctx);
      RegisterDumpRoundTrip(ctx);
    }
  }
}
